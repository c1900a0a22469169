/** `extract_signals`: classify every `.tif` file of a directory by the first treatment
    label that its name contains as a whole word, and emit one record per classified
    file carrying the sum of its pixels. */
module SignalExtraction {
  import opened Wrappers
  import opened Strings
  import opened WordMatch
  import opened Collections

  /** A `.tif` file of the directory: its name and the pixel values of the array that
      `np.array(Image.open(path))` decodes from it, flattened. */
  datatype ImageFile = ImageFile(name: string, pixels: seq<nat>)

  /** One row of the signal table: `{file, treatment, signal_sum, cell_line}`. */
  datatype SignalRecord = SignalRecord(file: string, treatment: string, signalSum: nat, cellLine: string)

  /** `image_np.sum()`: the sum of all pixel values. */
  function Sum(pixels: seq<nat>): nat
  {
    if pixels == [] then 0 else pixels[0] + Sum(pixels[1..])
  }

  function NameOf(f: ImageFile): string
  {
    f.name
  }

  /** The position of the label that the inner loop stops at: the first label, in the
      order given, that occurs in `name` as a whole word ignoring case; None when no
      label does. */
  function FirstMatch(name: string, labels: seq<string>): (r: Option<nat>)
    ensures r.Some? ==> r.value < |labels| && Occurs(name, labels[r.value])
    ensures r.Some? ==> forall k :: 0 <= k < r.value ==> !Occurs(name, labels[k])
    ensures r.None? <==> forall k :: 0 <= k < |labels| ==> !Occurs(name, labels[k])
  {
    if labels == [] then None
    else if Search(name, labels[0]) then Some(0)
    else match FirstMatch(name, labels[1..])
      case None => None
      case Some(k) => Some(k + 1)
  }

  /** The record a classified file becomes. */
  function RecordFor(f: ImageFile, labels: seq<string>, cellLine: string): SignalRecord
    requires FirstMatch(f.name, labels).Some?
  {
    SignalRecord(f.name, labels[FirstMatch(f.name, labels).value], Sum(f.pixels), cellLine)
  }

  /** What one file contributes: its record if it is classified, nothing otherwise. */
  function Emit(f: ImageFile, labels: seq<string>, cellLine: string): seq<SignalRecord>
  {
    if FirstMatch(f.name, labels).Some? then [RecordFor(f, labels, cellLine)] else []
  }

  /** The records that a scan of `files`, in this order, appends. */
  function RecordsOf(files: seq<ImageFile>, labels: seq<string>, cellLine: string): seq<SignalRecord>
  {
    if files == [] then []
    else RecordsOf(files[..|files| - 1], labels, cellLine) + Emit(files[|files| - 1], labels, cellLine)
  }

  lemma RecordsOfSnoc(files: seq<ImageFile>, labels: seq<string>, cellLine: string, i: nat)
    requires i < |files|
    ensures RecordsOf(files[..i + 1], labels, cellLine)
         == RecordsOf(files[..i], labels, cellLine) + Emit(files[i], labels, cellLine)
  {
    assert files[..i + 1][..i] == files[..i];
  }

  /** A record is in the table exactly when it is the record of a classified file. */
  lemma {:induction false} RecordsOfMembers(files: seq<ImageFile>, labels: seq<string>, cellLine: string)
    ensures forall r :: r in RecordsOf(files, labels, cellLine) <==>
      exists f :: f in files && FirstMatch(f.name, labels).Some? && r == RecordFor(f, labels, cellLine)
  {
    if files != [] {
      var n := |files|;
      var init := files[..n - 1];
      RecordsOfMembers(init, labels, cellLine);
      assert files == init + [files[n - 1]];
    }
  }

  /** Every record carries one of the given labels, the given cell line and the sum of
      the pixels of a file of that name; there are no more records than files. */
  lemma {:induction false} RecordsOfFields(files: seq<ImageFile>, labels: seq<string>, cellLine: string)
    ensures |RecordsOf(files, labels, cellLine)| <= |files|
    ensures forall r :: r in RecordsOf(files, labels, cellLine) ==>
      r.treatment in labels && r.cellLine == cellLine
      && exists f :: f in files && f.name == r.file && r.signalSum == Sum(f.pixels)
  {
    RecordsOfMembers(files, labels, cellLine);
    if files != [] {
      RecordsOfFields(files[..|files| - 1], labels, cellLine);
    }
  }

  /** When every file is classified, none is dropped. */
  lemma {:induction false} RecordsOfAllClassified(files: seq<ImageFile>, labels: seq<string>, cellLine: string)
    requires forall i :: 0 <= i < |files| ==> FirstMatch(files[i].name, labels).Some?
    ensures |RecordsOf(files, labels, cellLine)| == |files|
  {
    if files != [] {
      RecordsOfAllClassified(files[..|files| - 1], labels, cellLine);
    }
  }

  /** Every record names a file of the scan. */
  lemma {:induction false} RecordFileIndex(files: seq<ImageFile>, labels: seq<string>, cellLine: string, k: nat)
    requires k < |RecordsOf(files, labels, cellLine)|
    ensures exists m :: 0 <= m < |files| && files[m].name == RecordsOf(files, labels, cellLine)[k].file
  {
    var n := |files|;
    var init := files[..n - 1];
    if k < |RecordsOf(init, labels, cellLine)| {
      RecordFileIndex(init, labels, cellLine, k);
      var m :| 0 <= m < |init| && init[m].name == RecordsOf(init, labels, cellLine)[k].file;
      assert files[m] == init[m];
    } else {
      assert files[n - 1].name == RecordsOf(files, labels, cellLine)[k].file;
    }
  }

  /** A scan in file-name order yields records in file-name order. */
  lemma {:induction false} RecordsOfInNameOrder(files: seq<ImageFile>, labels: seq<string>, cellLine: string)
    requires SortedBy(files, NameOf)
    ensures forall i, j :: 0 <= i < j < |RecordsOf(files, labels, cellLine)| ==>
      LessEq(RecordsOf(files, labels, cellLine)[i].file, RecordsOf(files, labels, cellLine)[j].file)
  {
    if files != [] {
      var n := |files|;
      var init := files[..n - 1];
      assert SortedBy(init, NameOf);
      RecordsOfInNameOrder(init, labels, cellLine);
      var prev := RecordsOf(init, labels, cellLine);
      var recs := RecordsOf(files, labels, cellLine);
      forall i, j | 0 <= i < j < |recs| ensures LessEq(recs[i].file, recs[j].file) {
        if j >= |prev| {
          assert recs[j].file == files[n - 1].name;
          RecordFileIndex(init, labels, cellLine, i);
          var m :| 0 <= m < |init| && init[m].name == prev[i].file;
          assert NameOf(files[m]) == prev[i].file;
        }
      }
    }
  }

  /** When the names are distinct, no name appears in two records. */
  lemma {:induction false} RecordsOfOnePerFile(files: seq<ImageFile>, labels: seq<string>, cellLine: string)
    requires forall i, j :: 0 <= i < j < |files| ==> files[i].name != files[j].name
    ensures forall i, j :: 0 <= i < j < |RecordsOf(files, labels, cellLine)| ==>
      RecordsOf(files, labels, cellLine)[i].file != RecordsOf(files, labels, cellLine)[j].file
  {
    if files != [] {
      var n := |files|;
      var init := files[..n - 1];
      RecordsOfOnePerFile(init, labels, cellLine);
      var prev := RecordsOf(init, labels, cellLine);
      var recs := RecordsOf(files, labels, cellLine);
      forall i, j | 0 <= i < j < |recs| ensures recs[i].file != recs[j].file {
        if j >= |prev| {
          assert recs[j].file == files[n - 1].name;
          RecordFileIndex(init, labels, cellLine, i);
          var m :| 0 <= m < |init| && init[m].name == prev[i].file;
          assert files[m].name == prev[i].file;
        }
      }
    }
  }

  /** The inner loop stops at label `j` exactly when the file emits a record with label `j`:
      the scan of one more file appends that record. */
  lemma ScanStepMatched(files: seq<ImageFile>, labels: seq<string>, cellLine: string, i: nat, j: nat)
    requires i < |files| && j < |labels| && Search(files[i].name, labels[j])
    requires forall k :: 0 <= k < j ==> !Search(files[i].name, labels[k])
    ensures RecordsOf(files[..i + 1], labels, cellLine)
         == RecordsOf(files[..i], labels, cellLine) + [SignalRecord(files[i].name, labels[j], Sum(files[i].pixels), cellLine)]
  {
    RecordsOfSnoc(files, labels, cellLine, i);
    var r := FirstMatch(files[i].name, labels);
    assert r.Some?;
    assert !(r.value < j) && !(j < r.value);
  }

  /** One more label that does not match the name. */
  lemma NoMatchExtends(name: string, labels: seq<string>, j: nat)
    requires j < |labels| && !Search(name, labels[j])
    requires forall k :: 0 <= k < j ==> !Search(name, labels[k])
    ensures forall k :: 0 <= k < j + 1 ==> !Search(name, labels[k])
  {
  }

  /** The inner loop runs out exactly when the file emits nothing: the scan of one more
      file leaves the table as it was. */
  lemma ScanStepUnmatched(files: seq<ImageFile>, labels: seq<string>, cellLine: string, i: nat)
    requires i < |files|
    requires forall k :: 0 <= k < |labels| ==> !Search(files[i].name, labels[k])
    ensures RecordsOf(files[..i + 1], labels, cellLine) == RecordsOf(files[..i], labels, cellLine)
  {
    RecordsOfSnoc(files, labels, cellLine, i);
    assert Emit(files[i], labels, cellLine) == [];
  }

  /** Sorting a listing whose names are distinct keeps them distinct. */
  lemma SortKeepsNamesDistinct(listing: seq<ImageFile>)
    requires forall i, j :: 0 <= i < j < |listing| ==> listing[i].name != listing[j].name
    ensures forall i, j :: 0 <= i < j < |SortBy(listing, NameOf)| ==>
      SortBy(listing, NameOf)[i].name != SortBy(listing, NameOf)[j].name
  {
    var files := SortBy(listing, NameOf);
    SortBySpec(listing, NameOf);
    assert NoDups(listing);
    NoDupsPermutation(listing, files);
    forall i, j | 0 <= i < j < |files| ensures files[i].name != files[j].name {
      assert files[i] in multiset(listing) && files[j] in multiset(listing);
      var p :| 0 <= p < |listing| && listing[p] == files[i];
      var q :| 0 <= q < |listing| && listing[q] == files[j];
      assert p != q;
    }
  }

  /** The table of a directory scanned in sorted name order: no more records than files,
      records exactly those of the classified files, in file-name order, and, since the
      names in a directory are distinct, at most one record per file. */
  lemma ScanInSortedOrder(listing: seq<ImageFile>, labels: seq<string>, cellLine: string)
    ensures |RecordsOf(SortBy(listing, NameOf), labels, cellLine)| <= |listing|
    ensures forall r :: r in RecordsOf(SortBy(listing, NameOf), labels, cellLine) <==>
      exists f :: f in listing && FirstMatch(f.name, labels).Some? && r == RecordFor(f, labels, cellLine)
    ensures forall i, j :: 0 <= i < j < |RecordsOf(SortBy(listing, NameOf), labels, cellLine)| ==>
      LessEq(RecordsOf(SortBy(listing, NameOf), labels, cellLine)[i].file,
             RecordsOf(SortBy(listing, NameOf), labels, cellLine)[j].file)
    ensures (forall i, j :: 0 <= i < j < |listing| ==> listing[i].name != listing[j].name) ==>
      forall i, j :: 0 <= i < j < |RecordsOf(SortBy(listing, NameOf), labels, cellLine)| ==>
        RecordsOf(SortBy(listing, NameOf), labels, cellLine)[i].file
          != RecordsOf(SortBy(listing, NameOf), labels, cellLine)[j].file
  {
    var files := SortBy(listing, NameOf);
    SortBySpec(listing, NameOf);
    assert |files| == |multiset(files)| == |multiset(listing)| == |listing|;
    RecordsOfFields(files, labels, cellLine);
    RecordsOfMembers(files, labels, cellLine);
    RecordsOfInNameOrder(files, labels, cellLine);
    assert forall f :: f in files <==> f in listing by {
      assert forall f :: f in files <==> f in multiset(files);
    }
    if forall i, j :: 0 <= i < j < |listing| ==> listing[i].name != listing[j].name {
      SortKeepsNamesDistinct(listing);
      RecordsOfOnePerFile(files, labels, cellLine);
    }
  }

  /** `extract_signals(data_dir, treatments, cell_line_name)`, the directory given as the
      list of its `.tif` files in any order. */
  method ExtractSignals(listing: seq<ImageFile>, treatments: seq<string>, cellLineName: string)
    returns (signalData: seq<SignalRecord>)
    ensures signalData == RecordsOf(SortBy(listing, NameOf), treatments, cellLineName)
    ensures |signalData| <= |listing|
    ensures forall r :: r in signalData <==>
      exists f :: f in listing && FirstMatch(f.name, treatments).Some? && r == RecordFor(f, treatments, cellLineName)
    ensures forall i, j :: 0 <= i < j < |signalData| ==> LessEq(signalData[i].file, signalData[j].file)
    ensures (forall i, j :: 0 <= i < j < |listing| ==> listing[i].name != listing[j].name) ==>
      forall i, j :: 0 <= i < j < |signalData| ==> signalData[i].file != signalData[j].file
  {
    var files := SortBy(listing, NameOf);
    signalData := [];
    var i := 0;
    while i < |files|
      invariant 0 <= i <= |files|
      invariant signalData == RecordsOf(files[..i], treatments, cellLineName)
    {
      var fileName := files[i].name;
      ghost var matched := false;
      ghost var before := signalData;
      var j := 0;
      while j < |treatments|
        invariant 0 <= j <= |treatments|
        invariant forall k :: 0 <= k < j ==> !Search(fileName, treatments[k])
        invariant signalData == before
        invariant !matched
      {
        if Search(fileName, treatments[j]) {
          ScanStepMatched(files, treatments, cellLineName, i, j);
          var signal := Sum(files[i].pixels);
          signalData := signalData + [SignalRecord(fileName, treatments[j], signal, cellLineName)];
          matched := true;
          break;
        }
        NoMatchExtends(fileName, treatments, j);
        j := j + 1;
      }
      if !matched {
        ScanStepUnmatched(files, treatments, cellLineName, i);
      }
      i := i + 1;
    }
    assert files[..|files|] == files;
    ScanInSortedOrder(listing, treatments, cellLineName);
  }
}
