/** A file paired with the charset under which its archive entry names are
    read, and the round-trip check that decides whether an entry name was
    decoded under a self-consistent charset. */
module EncodedFiles {
  import opened Wrappers

  newtype byte = x: int | 0 <= x < 256

  /** A `java.io.File`: only its identity matters here. */
  datatype File = File(path: string)

  /** A `java.nio.charset.Charset`, compared by its canonical name. */
  datatype Charset = Charset(name: string)

  /** What the charset registry offers for a charset: `String.getBytes(charset)`
      and `new String(bytes, charset)`. Both are opaque; the encoder may replace
      unmappable characters, so decoding need not undo it. */
  datatype Codec = Codec(encode: (Charset, string) -> seq<byte>,
                         decode: (Charset, seq<byte>) -> string)

  /** What the archive library finds: opening `file` with entry names decoded
      under `charset` yields the entry names in directory order, or `None`
      when the constructor of `ZipFile` throws `IOException`. */
  type Opener = (File, Charset) -> Option<seq<string>>

  /** The messages the core's exceptions carry. */
  datatype Message =
    | FileIsNull | CharsetIsNull | CharsetsIsNull | FilesIsNull
    | CharsetsIsEmpty | FilesIsEmpty | StringIsNull
  {
    /** The message text as the source spells it. */
    function Text(): string
    {
      match this
      case FileIsNull => "file is null"
      case CharsetIsNull => "charset is null"
      case CharsetsIsNull => "charsets is null"
      case FilesIsNull => "files is null"
      case CharsetsIsEmpty => "charsets is empty"
      case FilesIsEmpty => "files is empty"
      case StringIsNull => "potentiallyMalformedString is null"
    }
  }

  /** The exceptions the core throws: `NullPointerException` from
      `Objects.requireNonNull` and `IllegalArgumentException`. */
  datatype Error = NullPointer(message: Message) | IllegalArgument(message: Message)

  /** The record `EncodedFile(file, charset)`; both components are present. */
  datatype EncodedFile = EncodedFile(file: File, charset: Charset)

  /** The record's canonical constructor: it rejects an absent file first,
      then an absent charset, and otherwise keeps both arguments. */
  function NewEncodedFile(file: Option<File>, charset: Option<Charset>): (r: Result<EncodedFile, Error>)
    ensures r.Success? <==> file.Some? && charset.Some?
    ensures r.Success? ==> r.value.file == file.value && r.value.charset == charset.value
    ensures file.None? ==> r == Failure(NullPointer(FileIsNull))
    ensures file.Some? && charset.None? ==> r == Failure(NullPointer(CharsetIsNull))
  {
    if file.None? then Failure(NullPointer(FileIsNull))
    else if charset.None? then Failure(NullPointer(CharsetIsNull))
    else Success(EncodedFile(file.value, charset.value))
  }

  // ---------------------------------------------------------------------------
  // The archive library
  // ---------------------------------------------------------------------------

  /** The entry names the library finds in `ef.file` when it reads them under
      `ef.charset`, or `None` when opening throws `IOException`. */
  function ZipEntries(ef: EncodedFile, opener: Opener): Option<seq<string>>
  {
    opener(ef.file, ef.charset)
  }

  /** An open `java.util.zip.ZipFile`: its entry names in directory order,
      the position of the enumeration `entries()` handed out, and `namesRead`,
      how many names have been read from the archive in all, which no new
      enumeration resets. */
  class ZipArchive {
    const names: seq<string>
    var cursor: nat
    ghost var namesRead: nat

    constructor (names: seq<string>)
      ensures this.names == names && cursor == 0 && namesRead == 0
    {
      this.names := names;
      cursor := 0;
      namesRead := 0;
    }

    /** `entries()`: an enumeration that starts at the first entry. */
    method Entries()
      modifies this
      ensures cursor == 0 && namesRead == old(namesRead)
    {
      cursor := 0;
    }

    /** `hasMoreElements()`. */
    predicate HasMoreElements()
      reads this
    {
      cursor < |names|
    }

    /** `nextElement().getName()`: the next entry name; the enumeration moves on by one. */
    method NextElement() returns (name: string)
      requires HasMoreElements()
      modifies this
      ensures cursor == old(cursor) + 1 && name == names[old(cursor)]
      ensures namesRead == old(namesRead) + 1
    {
      name := names[cursor];
      cursor := cursor + 1;
      namesRead := namesRead + 1;
    }
  }

  /** The archive library: `new ZipFile(file, charset)` either throws
      `IOException` or opens the archive whose entry names `oracle` gives.
      `attempted` lists, in call order, every pairing the constructor was
      called for, whether or not it threw. */
  class ZipLibrary {
    const oracle: Opener
    ghost var attempted: seq<EncodedFile>

    constructor (oracle: Opener)
      ensures this.oracle == oracle && attempted == []
    {
      this.oracle := oracle;
      attempted := [];
    }

    /** `new ZipFile(file, charset)`. */
    method Open(file: File, charset: Charset) returns (z: Option<ZipArchive>)
      modifies this
      ensures attempted == old(attempted) + [EncodedFile(file, charset)]
      ensures z.None? <==> oracle(file, charset).None?
      ensures z.Some? ==> fresh(z.value) && z.value.names == oracle(file, charset).value
      ensures z.Some? ==> z.value.cursor == 0 && z.value.namesRead == 0
    {
      attempted := attempted + [EncodedFile(file, charset)];
      var entries := oracle(file, charset);
      if entries.None? {
        return None;
      }
      var archive := new ZipArchive(entries.value);
      return Some(archive);
    }
  }

  /** `openZipFile()`: opens the record's file with entry names read under
      the record's own charset; the library records the attempt. */
  method OpenZipFile(ef: EncodedFile, lib: ZipLibrary) returns (z: Option<ZipArchive>)
    modifies lib
    ensures lib.attempted == old(lib.attempted) + [ef]
    ensures z.None? <==> ZipEntries(ef, lib.oracle).None?
    ensures z.Some? ==> fresh(z.value) && z.value.names == ZipEntries(ef, lib.oracle).value
    ensures z.Some? ==> z.value.cursor == 0 && z.value.namesRead == 0
  {
    z := lib.Open(ef.file, ef.charset);
  }

  // ---------------------------------------------------------------------------
  // The round trip
  // ---------------------------------------------------------------------------

  /** `reencodePotentiallyMalformedString`: encode with the record's charset and
      decode the bytes again with the same charset. The record's file plays
      no part, so two records with the same charset re-encode alike. */
  function Reencode(ef: EncodedFile, codec: Codec, s: Option<string>): (r: Result<string, Error>)
    ensures s.None? <==> r.Failure?
    ensures s.None? ==> r.error == NullPointer(StringIsNull)
    ensures s.Some? ==> r.value == codec.decode(ef.charset, codec.encode(ef.charset, s.value))
  {
    if s.None? then Failure(NullPointer(StringIsNull))
    else Success(codec.decode(ef.charset, codec.encode(ef.charset, s.value)))
  }

  /** `validateStringInterpretation`: a string is correctly interpreted exactly
      when re-encoding gives it back unchanged. */
  function ValidateStringInterpretation(ef: EncodedFile, codec: Codec, s: Option<string>): (r: Result<bool, Error>)
    ensures s.None? <==> r.Failure?
    ensures s.None? ==> r.error == NullPointer(StringIsNull)
    ensures s.Some? ==> (r.value <==> Reencode(ef, codec, s) == Success(s.value))
  {
    if s.None? then Failure(NullPointer(StringIsNull))
    else Success(s.value == Reencode(ef, codec, s).value)
  }

  /** An entry name (never null) that survives the round trip. */
  predicate IsCorrectlyInterpreted(ef: EncodedFile, codec: Codec, name: string)
  {
    ValidateStringInterpretation(ef, codec, Some(name)) == Success(true)
  }

  /** Every entry name of an archive survives the round trip. */
  predicate AllNamesValid(ef: EncodedFile, codec: Codec, names: seq<string>)
  {
    forall i :: 0 <= i < |names| ==> IsCorrectlyInterpreted(ef, codec, names[i])
  }

  /** The pairing opens as an archive and validates all its entry names. */
  predicate IsValidZip(ef: EncodedFile, codec: Codec, opener: Opener)
  {
    match ZipEntries(ef, opener)
    case None => false
    case Some(names) => AllNamesValid(ef, codec, names)
  }

  /** `validateEntryNames`: enumerates the archive's entry names in order and
      stops at the first one that fails the round trip. The call reads exactly
      as many names as the enumeration's final position: all of them on
      success, and on failure exactly up to and including the first failing
      name, so no later name is read. */
  method ValidateEntryNames(ef: EncodedFile, codec: Codec, zip: ZipArchive) returns (ok: bool)
    modifies zip
    ensures zip.namesRead == old(zip.namesRead) + zip.cursor
    ensures ok <==> AllNamesValid(ef, codec, zip.names)
    ensures zip.cursor <= |zip.names|
    ensures ok ==> zip.cursor == |zip.names|
    ensures !ok ==> 0 < zip.cursor && !IsCorrectlyInterpreted(ef, codec, zip.names[zip.cursor - 1])
    ensures forall i :: 0 <= i < zip.cursor - 1 ==> IsCorrectlyInterpreted(ef, codec, zip.names[i])
  {
    zip.Entries();
    while zip.HasMoreElements()
      invariant zip.cursor <= |zip.names|
      invariant zip.namesRead == old(zip.namesRead) + zip.cursor
      invariant forall i :: 0 <= i < zip.cursor ==> IsCorrectlyInterpreted(ef, codec, zip.names[i])
      decreases |zip.names| - zip.cursor
    {
      var name := zip.NextElement();
      var v := ValidateStringInterpretation(ef, codec, Some(name));
      if !v.value {
        return false;
      }
    }
    return true;
  }

  /** The heuristic never rejects a correct reading: a name decoded from
      bytes that the charset re-encodes to the same bytes always passes the
      round trip. It does not show the converse, that an accepted name was
      decoded under the charset it was written in. */
  lemma CanonicalBytesValidate(ef: EncodedFile, codec: Codec, bytes: seq<byte>)
    requires codec.encode(ef.charset, codec.decode(ef.charset, bytes)) == bytes
    ensures IsCorrectlyInterpreted(ef, codec, codec.decode(ef.charset, bytes))
  {
  }

  /** Validation is a pure conjunction: splitting the archive into two runs
      of entry names splits the verdict. */
  lemma {:induction false} AllNamesValidAppend(ef: EncodedFile, codec: Codec, xs: seq<string>, ys: seq<string>)
    ensures AllNamesValid(ef, codec, xs + ys) <==> AllNamesValid(ef, codec, xs) && AllNamesValid(ef, codec, ys)
  {
    if AllNamesValid(ef, codec, xs) && AllNamesValid(ef, codec, ys) {
      forall i | 0 <= i < |xs + ys|
        ensures IsCorrectlyInterpreted(ef, codec, (xs + ys)[i])
      {
        if i < |xs| {
          assert (xs + ys)[i] == xs[i];
        } else {
          assert (xs + ys)[i] == ys[i - |xs|];
        }
      }
    }
    if AllNamesValid(ef, codec, xs + ys) {
      forall i | 0 <= i < |xs| ensures IsCorrectlyInterpreted(ef, codec, xs[i]) {
        assert (xs + ys)[i] == xs[i];
      }
      forall i | 0 <= i < |ys| ensures IsCorrectlyInterpreted(ef, codec, ys[i]) {
        assert (xs + ys)[|xs| + i] == ys[i];
      }
    }
  }
}
