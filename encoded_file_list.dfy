/** An ordered list of candidate pairings (file, charset): building the cross
    product of files and charsets, and searching it for the pairings whose
    archives open and whose entry names all survive the round trip. */
module EncodedFileLists {
  import opened Wrappers
  import opened EncodedFiles

  // ---------------------------------------------------------------------------
  // Present and absent arguments
  // ---------------------------------------------------------------------------

  /** No element is null. */
  predicate AllPresent<T>(s: seq<Option<T>>)
  {
    forall i :: 0 <= i < |s| ==> s[i].Some?
  }

  /** The length of the longest run of present elements at the front: the
      position at which a loop over `s` meets its first null. */
  function PresentPrefix<T>(s: seq<Option<T>>): (k: nat)
    ensures k <= |s|
    ensures forall i :: 0 <= i < k ==> s[i].Some?
    ensures k < |s| ==> s[k].None?
  {
    if s == [] || s[0].None? then 0 else 1 + PresentPrefix(s[1..])
  }

  // ---------------------------------------------------------------------------
  // The pairs `collect` appends
  // ---------------------------------------------------------------------------

  /** The pairings of one file with each present charset in turn: one pass
      of the inner loop of `collect`. */
  function Row(f: File, charsets: seq<Option<Charset>>): seq<EncodedFile>
  {
    if charsets == [] then []
    else
      var last := charsets[|charsets| - 1];
      Row(f, charsets[..|charsets| - 1]) + (if last.Some? then [EncodedFile(f, last.value)] else [])
  }

  /** Files outer, charsets inner: the rows of the present files, one after another. */
  function CrossProduct(files: seq<Option<File>>, charsets: seq<Option<Charset>>): seq<EncodedFile>
  {
    if files == [] then []
    else
      var last := files[|files| - 1];
      CrossProduct(files[..|files| - 1], charsets) + (if last.Some? then Row(last.value, charsets) else [])
  }

  /** The pairs appended by one call and the exception it ends with, if any. */
  datatype CollectOutcome = CollectOutcome(appended: seq<EncodedFile>, error: Option<Error>)

  /** `collect(files, charsets)` in closed form. Absent iterables fail before
      anything is appended. Otherwise the loops stop at the first null they
      reach: a null first file at once; a null charset while still on the
      first file, after pairing that file with the charsets before it; a null
      later file after all rows of the files before it. With no null reached,
      the whole cross product is appended. */
  function CollectOf(files: Option<seq<Option<File>>>, charsets: Option<seq<Option<Charset>>>): CollectOutcome
  {
    if files.None? then CollectOutcome([], Some(NullPointer(FileIsNull)))
    else if charsets.None? then CollectOutcome([], Some(NullPointer(CharsetsIsNull)))
    else
      var fs, cs := files.value, charsets.value;
      var k, m := PresentPrefix(fs), PresentPrefix(cs);
      if fs == [] then CollectOutcome([], None)
      else if k == 0 then CollectOutcome([], Some(NullPointer(FileIsNull)))
      else if m < |cs| then
        CollectOutcome(Row(fs[0].value, cs[..m]), Some(NullPointer(CharsetIsNull)))
      else if k < |fs| then
        CollectOutcome(CrossProduct(fs[..k], cs), Some(NullPointer(FileIsNull)))
      else CollectOutcome(CrossProduct(fs, cs), None)
  }

  /** `collectFile(file, charsets...)`: one file against many charsets. */
  function CollectFileOf(file: Option<File>, charsets: Option<seq<Option<Charset>>>): CollectOutcome
  {
    if file.None? then CollectOutcome([], Some(NullPointer(FileIsNull)))
    else if charsets.None? then CollectOutcome([], Some(NullPointer(CharsetsIsNull)))
    else if |charsets.value| == 0 then CollectOutcome([], Some(IllegalArgument(CharsetsIsEmpty)))
    else CollectOf(Some([file]), charsets)
  }

  /** `collectCharset(charset, files...)`: many files against one charset. */
  function CollectCharsetOf(charset: Option<Charset>, files: Option<seq<Option<File>>>): CollectOutcome
  {
    if charset.None? then CollectOutcome([], Some(NullPointer(CharsetIsNull)))
    else if files.None? then CollectOutcome([], Some(NullPointer(FilesIsNull)))
    else if |files.value| == 0 then CollectOutcome([], Some(IllegalArgument(FilesIsEmpty)))
    else CollectOf(files, Some([charset]))
  }

  // ---------------------------------------------------------------------------
  // The pairings that pass
  // ---------------------------------------------------------------------------

  /** What `availables` keeps: the valid pairings, in their original order. */
  function AvailableFiles(s: seq<EncodedFile>, codec: Codec, opener: Opener): (r: seq<EncodedFile>)
    ensures |r| <= |s|
    ensures forall e :: e in r <==> e in s && IsValidZip(e, codec, opener)
  {
    if s == [] then []
    else
      var last := s[|s| - 1];
      AvailableFiles(s[..|s| - 1], codec, opener) + (if IsValidZip(last, codec, opener) then [last] else [])
  }

  // ---------------------------------------------------------------------------
  // The list itself
  // ---------------------------------------------------------------------------

  /** `EncodedFileList`: the decorated list is the sequence `elements`. */
  class EncodedFileList {
    var elements: seq<EncodedFile>

    constructor (list: seq<EncodedFile>)
      ensures elements == list
    {
      elements := list;
    }

    /** `collect`: appends the pairs of `CollectOf` to the list and returns the
        list itself, or throws the exception `CollectOf` names, keeping the
        pairs appended before it. */
    method Collect(files: Option<seq<Option<File>>>, charsets: Option<seq<Option<Charset>>>)
      returns (r: Result<EncodedFileList, Error>)
      modifies this
      ensures elements == old(elements) + CollectOf(files, charsets).appended
      ensures r.Success? <==> CollectOf(files, charsets).error.None?
      ensures r.Success? ==> r.value == this
      ensures r.Failure? ==> r.error == CollectOf(files, charsets).error.value
    {
      if files.None? {
        return Failure(NullPointer(FileIsNull));
      }
      if charsets.None? {
        return Failure(NullPointer(CharsetsIsNull));
      }
      var error := CollectLoops(files.value, charsets.value);
      if error.Some? {
        return Failure(error.value);
      }
      return Success(this);
    }

    /** The nested loops of `collect` once both iterables are known to be
        present: files outer, charsets inner, stopping at the first null. */
    method CollectLoops(fs: seq<Option<File>>, cs: seq<Option<Charset>>) returns (error: Option<Error>)
      modifies this
      ensures elements == old(elements) + CollectOf(Some(fs), Some(cs)).appended
      ensures error == CollectOf(Some(fs), Some(cs)).error
    {
      var i := 0;
      while i < |fs|
        invariant i <= |fs|
        invariant forall t :: 0 <= t < i ==> fs[t].Some?
        invariant i > 0 ==> AllPresent(cs)
        invariant elements == old(elements) + CrossProduct(fs[..i], cs)
      {
        var f := fs[i];
        if f.None? {
          CollectStopsAtFile(fs, cs, i);
          return Some(NullPointer(FileIsNull));
        }
        var ok := CollectRow(f.value, cs);
        if !ok {
          assert i == 0 && CrossProduct(fs[..i], cs) == [];
          CollectStopsAtCharset(fs, cs, PresentPrefix(cs));
          return Some(NullPointer(CharsetIsNull));
        }
        CrossProductSnoc(old(elements), fs, cs, i);
        i := i + 1;
      }
      if fs == [] {
        assert CollectOf(Some(fs), Some(cs)) == CollectOutcome([], None);
      } else {
        assert fs[..i] == fs;
        CollectAllPresent(fs, cs);
      }
      return None;
    }

    /** One pass of the inner loop of `collect`: pairs `f` with each charset
        in turn and stops at the first null one; `ok` says there was none. */
    method CollectRow(f: File, cs: seq<Option<Charset>>) returns (ok: bool)
      modifies this
      ensures ok <==> AllPresent(cs)
      ensures ok ==> elements == old(elements) + Row(f, cs)
      ensures !ok ==> elements == old(elements) + Row(f, cs[..PresentPrefix(cs)])
    {
      var j := 0;
      while j < |cs|
        invariant j <= |cs|
        invariant forall t :: 0 <= t < j ==> cs[t].Some?
        invariant elements == old(elements) + Row(f, cs[..j])
      {
        var c := cs[j];
        if c.None? {
          PresentPrefixAt(cs, j);
          return false;
        }
        RowSnoc(old(elements), f, cs, j);
        elements := elements + [EncodedFile(f, c.value)];
        j := j + 1;
      }
      assert cs[..j] == cs;
      return true;
    }

    /** `collectFile`: argument checks, then `collect` on the single file. */
    method CollectFile(file: Option<File>, charsets: Option<seq<Option<Charset>>>)
      returns (r: Result<EncodedFileList, Error>)
      modifies this
      ensures elements == old(elements) + CollectFileOf(file, charsets).appended
      ensures r.Success? <==> CollectFileOf(file, charsets).error.None?
      ensures r.Success? ==> r.value == this
      ensures r.Failure? ==> r.error == CollectFileOf(file, charsets).error.value
    {
      if file.None? {
        return Failure(NullPointer(FileIsNull));
      }
      if charsets.None? {
        return Failure(NullPointer(CharsetsIsNull));
      }
      if |charsets.value| == 0 {
        return Failure(IllegalArgument(CharsetsIsEmpty));
      }
      r := Collect(Some([file]), charsets);
    }

    /** `collectCharset`: argument checks, then `collect` with the single charset. */
    method CollectCharset(charset: Option<Charset>, files: Option<seq<Option<File>>>)
      returns (r: Result<EncodedFileList, Error>)
      modifies this
      ensures elements == old(elements) + CollectCharsetOf(charset, files).appended
      ensures r.Success? <==> CollectCharsetOf(charset, files).error.None?
      ensures r.Success? ==> r.value == this
      ensures r.Failure? ==> r.error == CollectCharsetOf(charset, files).error.value
    {
      if charset.None? {
        return Failure(NullPointer(CharsetIsNull));
      }
      if files.None? {
        return Failure(NullPointer(FilesIsNull));
      }
      if |files.value| == 0 {
        return Failure(IllegalArgument(FilesIsEmpty));
      }
      r := Collect(files, Some([charset]));
    }

    /** `findFirstValidZipFile`: tries the pairings in list order and returns
        the first that opens and validates. `tried` is the run of pairings
        the library was asked to open, and it is exactly what the library
        records: it ends at the match, so no later pairing is opened, and a
        pairing whose archive fails to open is passed over. */
    method FindFirstValidZipFile(codec: Codec, lib: ZipLibrary)
      returns (r: Option<EncodedFile>, ghost tried: seq<EncodedFile>)
      modifies lib
      ensures lib.attempted == old(lib.attempted) + tried
      ensures tried <= elements
      ensures forall j :: 0 <= j < |tried| - 1 ==> !IsValidZip(elements[j], codec, lib.oracle)
      ensures r.Some? ==> |tried| > 0 && r.value == elements[|tried| - 1] && IsValidZip(r.value, codec, lib.oracle)
      ensures r.None? ==> tried == elements && forall j :: 0 <= j < |elements| ==> !IsValidZip(elements[j], codec, lib.oracle)
      ensures r.Some? ==> var names := ZipEntries(r.value, lib.oracle).value;
        forall j :: 0 <= j < |names| ==> Reencode(r.value, codec, Some(names[j])) == Success(names[j])
    {
      tried := [];
      var i := 0;
      while i < |elements|
        invariant i <= |elements|
        invariant tried == elements[..i]
        invariant lib.attempted == old(lib.attempted) + tried
        invariant forall j :: 0 <= j < i ==> !IsValidZip(elements[j], codec, lib.oracle)
      {
        var e := elements[i];
        var zip := OpenZipFile(e, lib);
        tried := tried + [e];
        assert elements[..i + 1] == tried;
        if zip.Some? {
          var ok := ValidateEntryNames(e, codec, zip.value);
          if ok {
            return Some(e), tried;
          }
        }
        i := i + 1;
      }
      assert elements[..i] == elements;
      return None, tried;
    }

    /** `availables`: a new list with exactly the valid pairings in their
        original order; the library is asked to open every pairing, in list
        order, and the receiver is left as it is. */
    method Availables(codec: Codec, lib: ZipLibrary) returns (result: EncodedFileList)
      modifies lib
      ensures fresh(result)
      ensures result.elements == AvailableFiles(elements, codec, lib.oracle)
      ensures lib.attempted == old(lib.attempted) + elements
    {
      result := new EncodedFileList([]);
      var i := 0;
      while i < |elements|
        invariant i <= |elements|
        invariant fresh(result)
        invariant lib.attempted == old(lib.attempted) + elements[..i]
        invariant result.elements == AvailableFiles(elements[..i], codec, lib.oracle)
      {
        var e := elements[i];
        assert elements[..i + 1][..i] == elements[..i];
        SnocPrefix(old(lib.attempted), elements, i);
        var zip := OpenZipFile(e, lib);
        if zip.Some? {
          var ok := ValidateEntryNames(e, codec, zip.value);
          if ok {
            result.elements := result.elements + [e];
          }
        }
        i := i + 1;
      }
      assert elements[..i] == elements;
    }
  }

  // ---------------------------------------------------------------------------
  // Helper facts for the loops
  // ---------------------------------------------------------------------------

  /** One more element of a prefix, appended after a fixed start. */
  lemma SnocPrefix<T>(pre: seq<T>, s: seq<T>, i: nat)
    requires i < |s|
    ensures pre + s[..i + 1] == pre + s[..i] + [s[i]]
  {
    assert s[..i + 1] == s[..i] + [s[i]];
  }

  /** A loop that has found `s[..i]` present and stopped at `i` has found the present prefix. */
  lemma PresentPrefixAt<T>(s: seq<Option<T>>, i: nat)
    requires i <= |s| && forall t :: 0 <= t < i ==> s[t].Some?
    requires i < |s| ==> s[i].None?
    ensures PresentPrefix(s) == i
  {
  }

  lemma RowSnoc(pre: seq<EncodedFile>, f: File, cs: seq<Option<Charset>>, j: nat)
    requires j < |cs| && cs[j].Some?
    ensures Row(f, cs[..j + 1]) == Row(f, cs[..j]) + [EncodedFile(f, cs[j].value)]
    ensures pre + Row(f, cs[..j + 1]) == pre + Row(f, cs[..j]) + [EncodedFile(f, cs[j].value)]
  {
    assert cs[..j + 1][..j] == cs[..j];
  }

  lemma CrossProductSnoc(pre: seq<EncodedFile>, fs: seq<Option<File>>, cs: seq<Option<Charset>>, i: nat)
    requires i < |fs| && fs[i].Some?
    ensures CrossProduct(fs[..i + 1], cs) == CrossProduct(fs[..i], cs) + Row(fs[i].value, cs)
    ensures pre + CrossProduct(fs[..i + 1], cs) == pre + CrossProduct(fs[..i], cs) + Row(fs[i].value, cs)
  {
    assert fs[..i + 1][..i] == fs[..i];
  }

  // ---------------------------------------------------------------------------
  // What the operations promise
  // ---------------------------------------------------------------------------

  /** With every charset present, the row pairs the file with each charset, in order. */
  lemma {:induction false} RowAt(f: File, cs: seq<Option<Charset>>)
    requires AllPresent(cs)
    ensures |Row(f, cs)| == |cs|
    ensures forall j :: 0 <= j < |cs| ==> Row(f, cs)[j] == EncodedFile(f, cs[j].value)
  {
    if cs != [] {
      var n := |cs|;
      var init := cs[..n - 1];
      assert AllPresent(init) by {
        forall t | 0 <= t < n - 1 ensures init[t].Some? {
          assert init[t] == cs[t];
        }
      }
      RowAt(f, init);
      assert Row(f, cs) == Row(f, init) + [EncodedFile(f, cs[n - 1].value)];
    }
  }

  /** With everything present, the cross product has one pair per file and charset. */
  lemma {:induction false} CrossProductLength(fs: seq<Option<File>>, cs: seq<Option<Charset>>)
    requires AllPresent(fs) && AllPresent(cs)
    ensures |CrossProduct(fs, cs)| == |fs| * |cs|
  {
    if fs != [] {
      var n := |fs|;
      var init := fs[..n - 1];
      assert AllPresent(init) by {
        forall t | 0 <= t < n - 1 ensures init[t].Some? {
          assert init[t] == fs[t];
        }
      }
      CrossProductLength(init, cs);
      RowAt(fs[n - 1].value, cs);
      assert CrossProduct(fs, cs) == CrossProduct(init, cs) + Row(fs[n - 1].value, cs);
      MulSucc(n - 1, |cs|);
    }
  }

  /** With everything present, the cross product holds (files[i], charsets[j])
      at position i·|charsets| + j: files outer, charsets inner. */
  lemma {:induction false} CrossProductAt(fs: seq<Option<File>>, cs: seq<Option<Charset>>, i: nat, j: nat)
    requires AllPresent(fs) && AllPresent(cs)
    requires i < |fs| && j < |cs|
    ensures i * |cs| + j < |CrossProduct(fs, cs)|
    ensures CrossProduct(fs, cs)[i * |cs| + j] == EncodedFile(fs[i].value, cs[j].value)
  {
    var n, m := |fs|, |cs|;
    var init := fs[..n - 1];
    assert AllPresent(init) by {
      forall t | 0 <= t < n - 1 ensures init[t].Some? {
        assert init[t] == fs[t];
      }
    }
    var row := Row(fs[n - 1].value, cs);
    var front := CrossProduct(init, cs);
    assert CrossProduct(fs, cs) == front + row;
    CrossProductLength(init, cs);
    RowAt(fs[n - 1].value, cs);
    var k := i * m + j;
    if i == n - 1 {
      assert k == |front| + j;
    } else {
      RowMajorBound(i, j, n - 1, m);
      CrossProductAt(init, cs, i, j);
      assert init[i] == fs[i];
    }
  }

  /** Position i·m + j with j < m lies before the first position of row n. */
  lemma RowMajorBound(i: nat, j: nat, n: nat, m: nat)
    requires i < n && j < m
    ensures i * m + j < n * m
  {
    assert (i + 1) * m == i * m + m;
    MulMonotone(i + 1, n, m);
  }

  lemma MulSucc(a: nat, m: nat)
    ensures a * m + m == (a + 1) * m
  {
  }

  lemma MulMonotone(a: nat, b: nat, m: nat)
    requires a <= b
    ensures a * m <= b * m
  {
  }

  /** The outcome when the outer loop meets a null file at position `i`. */
  lemma CollectStopsAtFile(fs: seq<Option<File>>, cs: seq<Option<Charset>>, i: nat)
    requires i < |fs| && fs[i].None? && forall t :: 0 <= t < i ==> fs[t].Some?
    requires i > 0 ==> AllPresent(cs)
    ensures CollectOf(Some(fs), Some(cs)) ==
      CollectOutcome(CrossProduct(fs[..i], cs), Some(NullPointer(FileIsNull)))
  {
    PresentPrefixAt(fs, i);
    if i > 0 {
      PresentPrefixAt(cs, |cs|);
    } else {
      assert fs[..i] == [];
    }
  }

  /** The outcome when the inner loop, on the first file, meets a null charset at position `j`. */
  lemma CollectStopsAtCharset(fs: seq<Option<File>>, cs: seq<Option<Charset>>, j: nat)
    requires fs != [] && fs[0].Some?
    requires j < |cs| && cs[j].None? && forall t :: 0 <= t < j ==> cs[t].Some?
    ensures CollectOf(Some(fs), Some(cs)) ==
      CollectOutcome(Row(fs[0].value, cs[..j]), Some(NullPointer(CharsetIsNull)))
  {
    PresentPrefixAt(cs, j);
  }

  /** With every element present, `collect` appends the whole cross product
      and returns normally. */
  lemma CollectAllPresent(fs: seq<Option<File>>, cs: seq<Option<Charset>>)
    requires AllPresent(fs) && AllPresent(cs)
    ensures CollectOf(Some(fs), Some(cs)) == CollectOutcome(CrossProduct(fs, cs), None)
  {
    if fs != [] {
      PresentPrefixAt(fs, |fs|);
      PresentPrefixAt(cs, |cs|);
    }
  }

  /** `collect` returns normally exactly when both iterables are present and
      either there is no file or no file and no charset is null. */
  lemma CollectSucceedsIff(files: Option<seq<Option<File>>>, charsets: Option<seq<Option<Charset>>>)
    ensures CollectOf(files, charsets).error.None? <==>
      files.Some? && charsets.Some? &&
      (files.value == [] || (AllPresent(files.value) && AllPresent(charsets.value)))
  {
    if files.Some? && charsets.Some? && files.value != [] {
      var fs, cs := files.value, charsets.value;
      if AllPresent(fs) && AllPresent(cs) {
        CollectAllPresent(fs, cs);
      }
    }
  }

  /** Whatever happens, the pairs appended are a prefix of the cross product
      of the leading present files and charsets, in loop order: a failure
      never drops or reorders a pair that was reached. */
  lemma CollectAppendsPrefix(fs: seq<Option<File>>, cs: seq<Option<Charset>>)
    ensures CollectOf(Some(fs), Some(cs)).appended <= CrossProduct(fs[..PresentPrefix(fs)], cs[..PresentPrefix(cs)])
  {
    var k, m := PresentPrefix(fs), PresentPrefix(cs);
    if fs != [] && k > 0 {
      if m < |cs| {
        var pre := fs[..k];
        CrossProductPrefix(pre, cs[..m], 1);
        assert pre[..1] == [fs[0]];
        assert [fs[0]][..0] == [];
        assert CrossProduct(pre[..1], cs[..m]) == Row(fs[0].value, cs[..m]);
      } else {
        assert cs[..m] == cs;
        if k == |fs| {
          assert fs[..k] == fs;
        }
      }
    }
  }

  /** The cross product of a prefix of the files is a prefix of the cross product. */
  lemma {:induction false} CrossProductPrefix(fs: seq<Option<File>>, cs: seq<Option<Charset>>, p: nat)
    requires p <= |fs|
    ensures CrossProduct(fs[..p], cs) <= CrossProduct(fs, cs)
  {
    if p < |fs| {
      var n := |fs|;
      assert fs[..n - 1][..p] == fs[..p];
      CrossProductPrefix(fs[..n - 1], cs, p);
    } else {
      assert fs[..p] == fs;
    }
  }

  /** The leading present elements of a sequence are all present. */
  lemma PresentPrefixAllPresent<T>(s: seq<Option<T>>)
    ensures AllPresent(s[..PresentPrefix(s)])
  {
    var k := PresentPrefix(s);
    forall t | 0 <= t < k ensures s[..k][t].Some? {
      assert s[..k][t] == s[t];
    }
  }

  /** `collectFile(f, c1..cn)` with everything present appends exactly
      (f, c1), …, (f, cn) and returns normally; with no charset it throws
      `IllegalArgumentException`; a null charset ck stops it after
      (f, c1), …, (f, c(k-1)). */
  lemma CollectFileShape(f: File, cs: seq<Option<Charset>>)
    ensures |cs| == 0 ==> CollectFileOf(Some(f), Some(cs)) == CollectOutcome([], Some(IllegalArgument(CharsetsIsEmpty)))
    ensures |cs| > 0 ==>
      var o := CollectFileOf(Some(f), Some(cs));
      var m := PresentPrefix(cs);
      |o.appended| == m &&
      (forall j :: 0 <= j < m ==> o.appended[j] == EncodedFile(f, cs[j].value)) &&
      (o.error.None? <==> m == |cs|) &&
      (o.error.Some? ==> o.error.value == NullPointer(CharsetIsNull))
  {
    if |cs| > 0 {
      var fs := [Some(f)];
      PresentPrefixAt(fs, 1);
      var m := PresentPrefix(cs);
      var o := CollectFileOf(Some(f), Some(cs));
      assert o == CollectOf(Some(fs), Some(cs));
      PresentPrefixAllPresent(cs);
      RowAt(f, cs[..m]);
      if m == |cs| {
        assert cs[..m] == cs;
        assert fs[..0] == [];
        assert CrossProduct(fs, cs) == Row(f, cs);
      }
      assert o.appended == Row(f, cs[..m]);
      forall j | 0 <= j < m ensures o.appended[j] == EncodedFile(f, cs[j].value) {
        assert cs[..m][j] == cs[j];
      }
    }
  }

  /** `collectCharset(c, f1..fn)` with everything present appends exactly
      (f1, c), …, (fn, c) and returns normally; with no file it throws
      `IllegalArgumentException`; a null file fk stops it after
      (f1, c), …, (f(k-1), c). */
  lemma CollectCharsetShape(c: Charset, fs: seq<Option<File>>)
    ensures |fs| == 0 ==> CollectCharsetOf(Some(c), Some(fs)) == CollectOutcome([], Some(IllegalArgument(FilesIsEmpty)))
    ensures |fs| > 0 ==>
      var o := CollectCharsetOf(Some(c), Some(fs));
      var k := PresentPrefix(fs);
      |o.appended| == k &&
      (forall i :: 0 <= i < k ==> o.appended[i] == EncodedFile(fs[i].value, c)) &&
      (o.error.None? <==> k == |fs|) &&
      (o.error.Some? ==> o.error.value == NullPointer(FileIsNull))
  {
    if |fs| > 0 {
      var cs := [Some(c)];
      PresentPrefixAt(cs, 1);
      var k := PresentPrefix(fs);
      var o := CollectCharsetOf(Some(c), Some(fs));
      assert o == CollectOf(Some(fs), Some(cs));
      var pre := fs[..k];
      PresentPrefixAllPresent(fs);
      if k > 0 {
        if k == |fs| {
          assert pre == fs;
        }
        var cp := CrossProduct(pre, cs);
        assert o.appended == cp;
        CrossProductLength(pre, cs);
        forall i | 0 <= i < k
          ensures cp[i] == EncodedFile(fs[i].value, c)
        {
          CrossProductAt(pre, cs, i, 0);
          assert i * 1 + 0 == i;
          assert pre[i] == fs[i];
        }
      }
    }
  }

  /** Filtering distributes over concatenation, so relative order is kept. */
  lemma {:induction false} AvailableFilesAppend(xs: seq<EncodedFile>, ys: seq<EncodedFile>, codec: Codec, opener: Opener)
    ensures AvailableFiles(xs + ys, codec, opener) == AvailableFiles(xs, codec, opener) + AvailableFiles(ys, codec, opener)
    decreases |ys|
  {
    if ys != [] {
      var n := |ys|;
      var zs := xs + ys;
      var last := ys[n - 1];
      var tail := if IsValidZip(last, codec, opener) then [last] else [];
      assert zs[..|zs| - 1] == xs + ys[..n - 1];
      assert zs[|zs| - 1] == last;
      assert AvailableFiles(zs, codec, opener) == AvailableFiles(xs + ys[..n - 1], codec, opener) + tail;
      AvailableFilesAppend(xs, ys[..n - 1], codec, opener);
      assert AvailableFiles(ys, codec, opener) == AvailableFiles(ys[..n - 1], codec, opener) + tail;
    } else {
      assert xs + ys == xs;
    }
  }

  /** `availables` is empty exactly when `findFirstValidZipFile` finds nothing. */
  lemma NoneAvailable(s: seq<EncodedFile>, codec: Codec, opener: Opener)
    ensures AvailableFiles(s, codec, opener) == [] <==> forall j :: 0 <= j < |s| ==> !IsValidZip(s[j], codec, opener)
  {
    var r := AvailableFiles(s, codec, opener);
    if r != [] {
      assert r[0] in r;
    }
  }

  /** The pairing `findFirstValidZipFile` returns is the head of `availables`. */
  lemma FirstMatchHeadsAvailables(s: seq<EncodedFile>, k: nat, codec: Codec, opener: Opener)
    requires k < |s| && IsValidZip(s[k], codec, opener)
    requires forall j :: 0 <= j < k ==> !IsValidZip(s[j], codec, opener)
    ensures AvailableFiles(s, codec, opener) != []
    ensures AvailableFiles(s, codec, opener)[0] == s[k]
  {
    assert s == s[..k] + [s[k]] + s[k + 1..];
    AvailableFilesAppend(s[..k] + [s[k]], s[k + 1..], codec, opener);
    AvailableFilesAppend(s[..k], [s[k]], codec, opener);
    NoneAvailable(s[..k], codec, opener);
    assert [s[k]][..0] == [];
  }
}
