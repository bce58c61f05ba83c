# Charset discovery for ZIP entry names — a Dafny model

ZIP archives written by legacy tools do not record the charset of their entry
names. The repository (`java_practice01`) guesses it. It pairs an archive file
with each candidate charset and keeps a pairing when every entry name survives
a round trip: encode the name with the charset, decode the bytes with the same
charset, and get the identical name back.

The model covers the two classes that do this work:

- `EncodedFile` (module `EncodedFiles`, file `encoded_file.dfy`). This is the
  record `(file, charset)`, with its null-checking constructor, the
  re-encoding of one string, the round-trip check, and `validateEntryNames`,
  the short-circuit walk over an archive's entry names. The same module holds
  `ZipLibrary` and `ZipArchive`, the slice of `java.util.zip` the core uses.
- `EncodedFileList` (module `EncodedFileLists`, file `encoded_file_list.dfy`).
  This is the list of candidate pairings. It covers `collect` (the cross
  product, files outer and charsets inner, appended to the list),
  `collectFile`, `collectCharset`, the first-match search
  `findFirstValidZipFile`, and the full filter `availables`.

`wrappers.dfy` holds `Option` and `Result`. `Option` stands both for a Java
reference that may be null and for `java.util.Optional`. `Result` stands for
a call that may throw.

How the outside world appears in the model:

- A charset's encoder and decoder (`String.getBytes(charset)`,
  `new String(bytes, charset)`) are opaque function values in a `Codec`.
  Nothing is assumed about them. In particular, decoding need not undo
  encoding, because the Java encoder silently replaces unmappable characters.
- The ZIP library is a `ZipLibrary` object around an opaque `Opener`.
  Opening a file under a charset either fails (the `ZipFile` constructor
  throws `IOException`) or yields a fresh `ZipArchive` holding the entry
  names in directory order. The `Opener` is fixed for the library's
  lifetime, so the same pairing always opens the same way. The library's
  ghost field `attempted` lists every pairing it was asked to open, in call
  order.
- A `ZipArchive` reads its names through an enumeration: `entries()` starts
  it at the first name and `nextElement()` moves it on by one. Its ghost
  field `namesRead` counts every name read from the archive, and a new
  enumeration does not reset it.
- `null` arguments are `None`. A thrown `NullPointerException` or
  `IllegalArgumentException` is a `Failure` carrying the source's message,
  as a `Message` value whose `Text()` is the source's message string.
- `EncodedFileList` is a class whose field `elements` is the decorated list.
  `collect` and its two variants change `elements` in place and return the
  list itself. The two searches only read it; what they change is the
  library's record of attempts and the enumerations of the archives they open.

What is proved, in short:

- `collect` appends the cross product in nested-loop order. Position
  `i*|charsets| + j` holds `(files[i], charsets[j])`, and the length grows by
  `|files|*|charsets|`.
- A null argument fails before anything is appended. A null element fails
  where the loops reach it, and the pairs appended before it stay. They are a
  prefix of the cross product.
- `collectFile` and `collectCharset` append one pair per charset (or file)
  before the first null, in order. Both reject an empty vararg array with
  `IllegalArgumentException`.
- `validateEntryNames` returns true exactly when every name round-trips, and
  an empty archive passes. It reads names up to and including the first
  failing one and no further, so no later name is read.
- `findFirstValidZipFile` returns the element at the least valid index. Every
  earlier element failed to open or failed validation. The library records
  opening exactly the elements up to the match, so no later element is
  opened. It returns empty exactly when no element is valid. Each entry name
  of the archive it accepts re-encodes to itself.
- `availables` returns a fresh list holding exactly the valid elements, in
  their original order. Filtering distributes over concatenation. The
  library records opening every element, in list order. Because opening is
  a fixed function of the pairing (see "## Left out"), the result's first
  element is the one `findFirstValidZipFile` returns.

Where the source is inconsistent, the model reads it as follows:

- `EncodedFileList.java` calls `encodedFile.zipFile()` at lines 95 and 115, but
  `EncodedFile.java` names that method `openZipFile()` (line 145). They are
  treated as one operation, `EncodedFiles.OpenZipFile`.
- `findFirstValidZipFile` returns only the `EncodedFile`. Its
  try-with-resources block closes the `ZipFile` before `return`, so
  `FindFirstValidZipFile` returns the pairing alone and no archive.
- The tests call `collect(File, List)`, an overload the class does not
  declare. Those calls are read as `collectFile`.
- When `files` is null, `collect` throws with the message "file is null", not
  "files is null" (line 50). The model keeps that message.

## Model

| member | source | states |
|---|---|---|
| `EncodedFiles.NewEncodedFile` | app/src/main/java/java_practice01/EncodedFile.java:38-41 | construction fails with "file is null" when the file is absent, else with "charset is null" when the charset is absent; otherwise it succeeds and the accessors return exactly the arguments |
| `EncodedFiles.OpenZipFile` | app/src/main/java/java_practice01/EncodedFile.java:145-147 | opening asks the library for the record's own file under the record's own charset and is recorded as one attempt; it fails iff the library throws, and otherwise yields a fresh archive holding that file's entry names, with no enumeration started and no name read |
| `EncodedFiles.Reencode` | app/src/main/java/java_practice01/EncodedFile.java:161-164 | fails exactly on a null string; otherwise the result is the record's own charset decoding its own encoding of the string |
| `EncodedFiles.ValidateStringInterpretation` | app/src/main/java/java_practice01/EncodedFile.java:178-181 | fails exactly on a null string; otherwise true iff re-encoding returns an equal string |
| `EncodedFiles.CanonicalBytesValidate` | app/src/main/java/java_practice01/EncodedFile.java:166-181 | a name decoded from bytes that the charset re-encodes to the same bytes is always judged correctly interpreted |
| `EncodedFiles.ValidateEntryNames` | app/src/main/java/java_practice01/EncodedFile.java:189-200 | returns true iff every entry name round-trips (so an empty archive passes); the number of names the call reads equals the enumeration's final position; on true that is every name; on false it ends right after the first failing name, and every name before that one passes, so no later name is read |
| `EncodedFiles.AllNamesValidAppend` | app/src/main/java/java_practice01/EncodedFile.java:189-200 | the verdict over two runs of entry names is the conjunction of the verdicts, so stopping at the first failure gives the same answer as a full scan |
| `EncodedFileLists.PresentPrefix` | app/src/main/java/java_practice01/EncodedFileList.java:52-56 | the position where a loop over the elements first meets null: every element before it is present, and the element there, if any, is null |
| `EncodedFileLists.EncodedFileList.constructor` | app/src/main/java/java_practice01/EncodedFileList.java:37-39 | the new list decorates exactly the given elements |
| `EncodedFileLists.EncodedFileList.Collect` | app/src/main/java/java_practice01/EncodedFileList.java:49-60 | the new contents are the old contents followed by the pairs `collect` reaches, and the call returns the list itself iff no null was met, else throws the exception for the first null met |
| `EncodedFileLists.EncodedFileList.CollectLoops` | app/src/main/java/java_practice01/EncodedFileList.java:52-59 | with both iterables present, the nested loops append exactly the pairs `collect` reaches and end with the exception for the first null met, or with none |
| `EncodedFileLists.EncodedFileList.CollectRow` | app/src/main/java/java_practice01/EncodedFileList.java:54-57 | the inner loop appends one file paired with each charset in order, up to the first null charset, and reports whether there was none |
| `EncodedFileLists.RowAt` | app/src/main/java/java_practice01/EncodedFileList.java:54-57 | with all charsets present, the inner loop appends one pair per charset and position j holds (file, charsets[j]) |
| `EncodedFileLists.CrossProductLength` | app/src/main/java/java_practice01/EncodedFileList.java:52-57 | with everything present, `collect` appends exactly \|files\|·\|charsets\| pairs |
| `EncodedFileLists.CrossProductAt` | app/src/main/java/java_practice01/EncodedFileList.java:52-57 | with everything present, appended position i·\|charsets\|+j holds (files[i], charsets[j]): files outer, charsets inner |
| `EncodedFileLists.CollectAllPresent` | app/src/main/java/java_practice01/EncodedFileList.java:52-59 | with no null anywhere, `collect` appends the whole cross product and returns normally |
| `EncodedFileLists.CollectStopsAtFile` | app/src/main/java/java_practice01/EncodedFileList.java:52-53 | when the i files before position i are present and, if i > 0, every charset is present, a null file at position i fails with "file is null" after the rows of those i files |
| `EncodedFileLists.CollectStopsAtCharset` | app/src/main/java/java_practice01/EncodedFileList.java:54-56 | when the first file is present and the j charsets before position j are present, a null charset at position j fails with "charset is null" after pairing the first file with those j charsets |
| `EncodedFileLists.CollectSucceedsIff` | app/src/main/java/java_practice01/EncodedFileList.java:50-58 | `collect` returns normally iff both iterables are present and either there is no file or no element of either is null |
| `EncodedFileLists.CollectAppendsPrefix` | app/src/main/java/java_practice01/EncodedFileList.java:52-56 | whatever happens, the pairs appended are a prefix of the cross product of the leading present files and charsets, so nothing reached is dropped or reordered |
| `EncodedFileLists.CrossProductPrefix` | app/src/main/java/java_practice01/EncodedFileList.java:52-58 | the pairs for a prefix of the files are a prefix of the pairs for all files |
| `EncodedFileLists.EncodedFileList.CollectFile` | app/src/main/java/java_practice01/EncodedFileList.java:65-72 | null file, then null array, then empty array are rejected before anything is appended; otherwise it behaves as `collect` on the single file |
| `EncodedFileLists.CollectFileShape` | app/src/main/java/java_practice01/EncodedFileList.java:65-72 | an empty charset array throws `IllegalArgumentException`; otherwise it appends exactly (f,c1),…,(f,ck) for the charsets before the first null, and returns normally iff there was no null |
| `EncodedFileLists.EncodedFileList.CollectCharset` | app/src/main/java/java_practice01/EncodedFileList.java:77-84 | null charset, then null array, then empty array are rejected before anything is appended; otherwise it behaves as `collect` with the single charset |
| `EncodedFileLists.CollectCharsetShape` | app/src/main/java/java_practice01/EncodedFileList.java:77-84 | an empty file array throws `IllegalArgumentException`; otherwise it appends exactly (f1,c),…,(fk,c) for the files before the first null, and returns normally iff there was no null |
| `EncodedFileLists.EncodedFileList.FindFirstValidZipFile` | app/src/main/java/java_practice01/EncodedFileList.java:92-107 | returns the element at the least index whose archive opens and validates; the library records opening exactly the elements up to it, in order; every earlier element failed to open or to validate; returns empty iff no element is valid, after the library has opened all of them; every entry name of the accepted archive re-encodes to itself |
| `EncodedFileLists.AvailableFiles` | app/src/main/java/java_practice01/EncodedFileList.java:112-132 | the filtered list is no longer than the input and holds an element iff the input holds it and it is valid |
| `EncodedFileLists.EncodedFileList.Availables` | app/src/main/java/java_practice01/EncodedFileList.java:112-132 | returns a fresh list holding exactly the valid elements in their original order; the library records opening every element, in list order; the receiver is not modified |
| `EncodedFileLists.AvailableFilesAppend` | app/src/main/java/java_practice01/EncodedFileList.java:114-130 | filtering distributes over concatenation, so the relative order of kept elements is the original one |
| `EncodedFileLists.NoneAvailable` | app/src/main/java/java_practice01/EncodedFileList.java:92-132 | `availables` is empty iff no element is valid, which is exactly when `findFirstValidZipFile` returns empty |
| `EncodedFileLists.FirstMatchHeadsAvailables` | app/src/main/java/java_practice01/EncodedFileList.java:92-132 | the element `findFirstValidZipFile` returns is the first element of `availables` |

## Left out

- The stream and archive openers `openOutputStream`, `openOutputStreamWriter`,
  `openZipOutputStream`, `openInputStream`, `openInputStreamReader` and
  `openZipInputStream` (`EncodedFile.java:53-137`). They are thin I/O
  wrappers. `openZipFile` is kept, over the opaque `Opener`.
- Parsing the ZIP container (central directory and local headers) inside
  `java.util.zip`. It is a foreign library that is not part of this model.
- How a charset actually encodes and decodes, including lossy replacement of
  unmappable characters. The model proves nothing about any particular
  charset such as Shift_JIS or UTF-8.
- Logging (`EncodedFile.java:193-195`, `EncodedFileList.java:100-103` and
  `119-128`). It is diagnostic only and changes no result.
- The general `List` surface inherited from `AbstractListDecorator`. Only the
  decorated sequence and appending to it are modelled.
- The backing list passed to the constructor is stored by reference and shared
  with the caller. The model copies it into a `seq` field, so aliasing is not
  captured.
- `EncodedZipFile` (`of`, `ofOptional`, `findFirstOfOptional`) is a
  convenience layer over `EncodedFileList` and is not modelled.
- FindFirstValidZipFile: does not model closing each opened `ZipFile` before the
  next candidate is tried (try-with-resources). A `ZipArchive` has no
  open/closed state, so the library's `attempted` records which candidates
  were opened, not when they were released.
- Availables: does not model closing each opened `ZipFile`, for the same
  reason as above.
- Inputs that the types rule out. The model does not cover:
  - a backing list that holds `null`, for which `zipFile()` at
    `EncodedFileList.java:95` and `115` throws a `NullPointerException` that
    the `catch (IOException e)` does not catch;
  - a null backing list, for which `new EncodedFileList(null)` throws a
    `NullPointerException` from `super(list)` at `EncodedFileList.java:38`;
  - an unmodifiable backing list, for which `add` at `EncodedFileList.java:56`
    throws;
  - `validateEntryNames(null)`, which throws a `NullPointerException` at
    `EncodedFile.java:190`.
- Opening is a fixed function of (file, charset). The model assumes the
  archive does not change and opening does not fail transiently between
  calls. `NoneAvailable` and `FirstMatchHeadsAvailables` relate the two
  searches only under that assumption. The same holds for the "iff" of
  `AvailableFiles` when the list holds the same pairing twice.
- Exceptions other than `IOException` from opening an archive, and an
  `IOException` thrown by `close()`, are not modelled.
