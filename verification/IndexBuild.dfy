/** Building the index of a corpus (`build` in crates/registry-manual/src/index.rs). */
module IndexBuild {
  import opened Bytes
  import opened Utf8
  import opened Fragment
  import opened Corpus
  import opened Anchors
  import opened IndexWriter

  // ----- the ordered map from anchor to locations -----

  /** Appends a location to an anchor's list, creating the entry at its sorted place. */
  function Put(entries: seq<Entry>, anchor: bytes, loc: (nat, nat)): seq<Entry> {
    if entries == [] || Less(anchor, entries[0].anchor) then [Entry(anchor, [loc])] + entries
    else if entries[0].anchor == anchor then [Entry(anchor, entries[0].locs + [loc])] + entries[1..]
    else [entries[0]] + Put(entries[1..], anchor, loc)
  }

  function LocsFor(entries: seq<Entry>, anchor: bytes): seq<(nat, nat)> {
    if entries == [] then []
    else if entries[0].anchor == anchor then entries[0].locs
    else LocsFor(entries[1..], anchor)
  }

  // ----- build -----

  datatype Tables = Tables(entries: seq<Entry>, files: seq<bytes>)

  function PathIndex(files: seq<bytes>, path: bytes): (r: Option<nat>)
    ensures r.None? ==> path !in files
    ensures r.Some? ==> r.value < |files| && files[r.value] == path
  {
    if files == [] then None
    else if files[0] == path then Some(0)
    else
      match PathIndex(files[1..], path)
      case None => assert files == [files[0]] + files[1..]; None
      case Some(i) => Some(i + 1)
  }

  function AddRecords(entries: seq<Entry>, fileIdx: nat, records: seq<Record>): seq<Entry> {
    if records == [] then entries
    else
      var n := |records| - 1;
      Put(AddRecords(entries, fileIdx, records[..n]), records[n].anchor, (fileIdx, records[n].fenceOffset))
  }

  /** A file seen before keeps its number. */
  function NumberFile(files: seq<bytes>, path: bytes): (r: (seq<bytes>, nat)) {
    match PathIndex(files, path)
    case Some(i) => (files, i)
    case None => (files + [path], |files|)
  }

  function AddFiles(disk: Disk, paths: seq<bytes>): Result<Tables> {
    if paths == [] then Success(Tables([], []))
    else
      var n := |paths| - 1;
      match AddFiles(disk, paths[..n])
      case Failure => Failure
      case Success(t) =>
        if paths[n] !in disk.files || disk.files[paths[n]].Unreadable? then Failure
        else
          var (files, fileIdx) := NumberFile(t.files, paths[n]);
          Success(Tables(AddRecords(t.entries, fileIdx, ParsedRecords(disk.files[paths[n]].text)), files))
  }

  /** The image `build` writes; it fails when a fragment cannot be read. */
  function BuiltImage(disk: Disk): Result<bytes> {
    match Fragments(disk)
    case Failure => Failure
    case Success(paths) =>
      match AddFiles(disk, paths)
      case Failure => Failure
      case Success(t) => Success(Image(t.entries, t.files))
  }

  lemma {:induction false} AddFilesFails(disk: Disk, paths: seq<bytes>, n: nat)
    requires n <= |paths| && AddFiles(disk, paths[..n]).Failure?
    ensures AddFiles(disk, paths).Failure?
    decreases |paths| - n
  {
    hide AddRecords, NumberFile, ParsedRecords;
    if n == |paths| {
      assert paths[..n] == paths;
    } else {
      assert paths[..n + 1][..n] == paths[..n];
      AddFilesFails(disk, paths, n + 1);
    }
  }

  lemma {:induction false} AddFilesStep(disk: Disk, paths: seq<bytes>, i: nat, t: Tables)
    requires i < |paths| && AddFiles(disk, paths[..i]) == Success(t)
    requires paths[i] in disk.files && disk.files[paths[i]].Text?
    ensures var (files, fileIdx) := NumberFile(t.files, paths[i]);
            AddFiles(disk, paths[..i + 1]) ==
            Success(Tables(AddRecords(t.entries, fileIdx, ParsedRecords(disk.files[paths[i]].text)), files))
  {
    hide AddRecords, ParsedRecords, NumberFile;
    assert paths[..i + 1][..i] == paths[..i];
  }

  lemma AddFilesStop(disk: Disk, paths: seq<bytes>, i: nat)
    requires i < |paths| && (paths[i] !in disk.files || disk.files[paths[i]].Unreadable?)
    ensures AddFiles(disk, paths).Failure?
  {
    hide AddRecords, ParsedRecords, NumberFile;
    assert paths[..i + 1][..i] == paths[..i];
    AddFilesFails(disk, paths, i + 1);
  }

  method ReadCorpus(disk: Disk, paths: seq<bytes>) returns (r: Result<Tables>)
    ensures r == AddFiles(disk, paths)
  {
    assert AddFiles(disk, paths[..0]) == Success(Tables([], []));
    hide AddFiles, AddRecords, ParsedRecords, PathIndex;
    var entries, files := [], [];
    for i := 0 to |paths|
      invariant AddFiles(disk, paths[..i]) == Success(Tables(entries, files))
    {
      if paths[i] !in disk.files || disk.files[paths[i]].Unreadable? {
        AddFilesStop(disk, paths, i);
        return Failure;
      }
      AddFilesStep(disk, paths, i, Tables(entries, files));
      var fileIdx;
      match PathIndex(files, paths[i]) {
        case Some(known) => fileIdx := known;
        case None => fileIdx, files := |files|, files + [paths[i]];
      }
      var records, issues := Parse(disk.files[paths[i]].text);
      entries := PutRecords(entries, fileIdx, records);
    }
    assert paths[..|paths|] == paths;
    return Success(Tables(entries, files));
  }

  method Build(disk: Disk) returns (r: Result<bytes>)
    ensures r == BuiltImage(disk)
  {
    hide AddFiles, Image, Fragments;
    var paths := ListFragments(disk);
    if paths.Failure? {
      return Failure;
    }
    var tables := ReadCorpus(disk, paths.value);
    if tables.Failure? {
      return Failure;
    }
    var image := Serialize(tables.value.entries, tables.value.files);
    return Success(image);
  }

  method PutRecords(entries0: seq<Entry>, fileIdx: nat, records: seq<Record>) returns (entries: seq<Entry>)
    ensures entries == AddRecords(entries0, fileIdx, records)
  {
    hide Put;
    entries := entries0;
    for j := 0 to |records|
      invariant entries == AddRecords(entries0, fileIdx, records[..j])
    {
      assert records[..j + 1][..j] == records[..j];
      entries := Put(entries, records[j].anchor, (fileIdx, records[j].fenceOffset));
    }
    assert records[..|records|] == records;
  }

  // ----- the entries are sorted -----

  lemma SortedTail(entries: seq<Entry>)
    requires entries != [] && Sorted(AnchorList(entries))
    ensures Sorted(AnchorList(entries[1..]))
    ensures forall i :: 0 <= i < |entries[1..]| ==> Less(entries[0].anchor, entries[1..][i].anchor)
  {
    hide Less;
    assert AnchorList(entries[1..]) == AnchorList(entries)[1..];
    forall i | 0 <= i < |entries[1..]| ensures Less(entries[0].anchor, entries[1..][i].anchor) {
      assert Less(AnchorList(entries)[0], AnchorList(entries)[i + 1]);
    }
  }

  lemma SortedCons(entry: Entry, rest: seq<Entry>)
    requires Sorted(AnchorList(rest))
    requires forall i :: 0 <= i < |rest| ==> Less(entry.anchor, rest[i].anchor)
    ensures Sorted(AnchorList([entry] + rest))
  {
    hide Less;
    assert AnchorList([entry] + rest) == [entry.anchor] + AnchorList(rest);
  }

  ghost predicate AllAbove(entries: seq<Entry>, anchor: bytes) {
    forall i :: 0 <= i < |entries| ==> Less(anchor, entries[i].anchor)
  }

  lemma {:induction false} PutAbove(entries: seq<Entry>, anchor: bytes, loc: (nat, nat), low: bytes)
    requires AllAbove(entries, low) && Less(low, anchor)
    ensures AllAbove(Put(entries, anchor, loc), low)
  {
    hide Less;
    if entries != [] && !Less(anchor, entries[0].anchor) && entries[0].anchor != anchor {
      PutAbove(entries[1..], anchor, loc, low);
    }
  }

  lemma {:induction false} PutSorted(entries: seq<Entry>, anchor: bytes, loc: (nat, nat))
    requires Sorted(AnchorList(entries))
    ensures Sorted(AnchorList(Put(entries, anchor, loc)))
  {
    hide Less, Sorted, AnchorList;
    if entries == [] {
      NoneSorted();
      SortedCons(Entry(anchor, [loc]), entries);
    } else {
      SortedTail(entries);
      LessTotal(anchor, entries[0].anchor);
      if Less(anchor, entries[0].anchor) {
        forall i | 0 <= i < |entries| ensures Less(anchor, entries[i].anchor) {
          if i > 0 {
            assert entries[1..][i - 1] == entries[i];
            LessTransitive(anchor, entries[0].anchor, entries[i].anchor);
          }
        }
        SortedCons(Entry(anchor, [loc]), entries);
      } else if entries[0].anchor == anchor {
        SortedCons(Entry(anchor, entries[0].locs + [loc]), entries[1..]);
      } else {
        PutSorted(entries[1..], anchor, loc);
        PutAbove(entries[1..], anchor, loc, entries[0].anchor);
        SortedCons(entries[0], Put(entries[1..], anchor, loc));
      }
    }
  }

  lemma NoneSorted()
    ensures Sorted(AnchorList([]))
  {}

  lemma {:induction false} NothingBelow(entries: seq<Entry>, anchor: bytes)
    requires AllAbove(entries, anchor)
    ensures LocsFor(entries, anchor) == []
  {
    if entries != [] {
      LessIrreflexive(anchor);
      NothingBelow(entries[1..], anchor);
    }
  }

  lemma {:induction false} PutLocs(entries: seq<Entry>, anchor: bytes, loc: (nat, nat), x: bytes)
    requires Sorted(AnchorList(entries))
    ensures LocsFor(Put(entries, anchor, loc), x) ==
            LocsFor(entries, x) + (if x == anchor then [loc] else [])
  {
    hide Less, Sorted, AnchorList;
    if entries != [] {
      SortedTail(entries);
      if Less(anchor, entries[0].anchor) {
        forall i | 0 <= i < |entries| ensures Less(anchor, entries[i].anchor) {
          if i > 0 {
            assert entries[1..][i - 1] == entries[i];
            LessTransitive(anchor, entries[0].anchor, entries[i].anchor);
          }
        }
        NothingBelow(entries, anchor);
        assert Put(entries, anchor, loc)[1..] == entries;
      } else if entries[0].anchor != anchor {
        PutLocs(entries[1..], anchor, loc, x);
        assert Put(entries, anchor, loc)[1..] == Put(entries[1..], anchor, loc);
      } else {
        assert Put(entries, anchor, loc)[1..] == entries[1..];
      }
    }
  }

  // ----- the entries are text -----

  lemma {:induction false} PutUtf8(entries: seq<Entry>, anchor: bytes, loc: (nat, nat))
    requires AllUtf8(AnchorList(entries)) && IsUtf8(anchor)
    ensures AllUtf8(AnchorList(Put(entries, anchor, loc)))
  {
    hide Less, IsUtf8;
    if entries != [] && !Less(anchor, entries[0].anchor) && entries[0].anchor != anchor {
      forall i | 0 <= i < |entries[1..]| ensures IsUtf8(entries[1..][i].anchor) {
        assert AnchorList(entries)[i + 1] == entries[1..][i].anchor;
      }
      PutUtf8(entries[1..], anchor, loc);
      ConsUtf8(entries[0], Put(entries[1..], anchor, loc));
    } else if entries == [] || Less(anchor, entries[0].anchor) {
      ConsUtf8(Entry(anchor, [loc]), entries);
    } else {
      forall i | 0 <= i < |entries[1..]| ensures IsUtf8(entries[1..][i].anchor) {
        assert AnchorList(entries)[i + 1] == entries[1..][i].anchor;
      }
      ConsUtf8(Entry(anchor, entries[0].locs + [loc]), entries[1..]);
    }
  }

  lemma ConsUtf8(entry: Entry, rest: seq<Entry>)
    requires IsUtf8(entry.anchor) && AllUtf8(AnchorList(rest))
    ensures AllUtf8(AnchorList([entry] + rest))
  {
    hide IsUtf8;
    assert AnchorList([entry] + rest) == [entry.anchor] + AnchorList(rest);
  }

  lemma {:induction false} AddRecordsUtf8(entries: seq<Entry>, fileIdx: nat, records: seq<Record>)
    requires AllUtf8(AnchorList(entries)) && forall r :: r in records ==> IsUtf8(r.anchor)
    ensures AllUtf8(AnchorList(AddRecords(entries, fileIdx, records)))
  {
    hide Put, IsUtf8, AnchorList;
    if records != [] {
      var n := |records| - 1;
      AddRecordsUtf8(entries, fileIdx, records[..n]);
      PutUtf8(AddRecords(entries, fileIdx, records[..n]), records[n].anchor, (fileIdx, records[n].fenceOffset));
    }
  }

  ghost predicate TextsUtf8(disk: Disk, paths: seq<bytes>) {
    forall i :: 0 <= i < |paths| && paths[i] in disk.files && disk.files[paths[i]].Text?
      ==> IsUtf8(disk.files[paths[i]].text)
  }

  /** Texts in UTF-8 give anchors in UTF-8. */
  lemma {:induction false} AddFilesUtf8(disk: Disk, paths: seq<bytes>)
    requires AddFiles(disk, paths).Success? && TextsUtf8(disk, paths)
    ensures AllUtf8(AnchorList(AddFiles(disk, paths).value.entries))
  {
    hide AddFiles, AddRecords, ParsedRecords, PathIndex, IsUtf8;
    if paths == [] {
      NoFiles(disk, []);
    } else {
      AddFilesLast(disk, paths);
      var n := |paths| - 1;
      AddFilesUtf8(disk, paths[..n]);
      var t, text := AddFiles(disk, paths[..n]).value, disk.files[paths[n]].text;
      forall r | r in ParsedRecords(text) ensures IsUtf8(r.anchor) {
        AnchorsAreUtf8(text, r);
      }
      AddRecordsUtf8(t.entries, NumberFile(t.files, paths[n]).1, ParsedRecords(text));
    }
  }

  // ----- the entries hold exactly the corpus's locations -----

  /** The locations of the records with anchor `x`, in file order. */
  function RecordLocs(fileIdx: nat, records: seq<Record>, x: bytes): seq<(nat, nat)> {
    if records == [] then []
    else
      var n := |records| - 1;
      RecordLocs(fileIdx, records[..n], x)
      + (if records[n].anchor == x then [(fileIdx, records[n].fenceOffset)] else [])
  }

  ghost predicate AllReadable(disk: Disk, paths: seq<bytes>) {
    forall i :: 0 <= i < |paths| ==> paths[i] in disk.files && disk.files[paths[i]].Text?
  }

  function RecordsOf(disk: Disk, path: bytes): seq<Record>
    requires path in disk.files && disk.files[path].Text?
  {
    ParsedRecords(disk.files[path].text)
  }

  ghost function CorpusLocs(disk: Disk, paths: seq<bytes>, x: bytes): seq<(nat, nat)>
    requires AllReadable(disk, paths)
  {
    if paths == [] then []
    else
      var n := |paths| - 1;
      CorpusLocs(disk, paths[..n], x) + RecordLocs(n, RecordsOf(disk, paths[n]), x)
  }

  lemma {:induction false} AddRecordsAre(entries: seq<Entry>, fileIdx: nat, records: seq<Record>, x: bytes)
    requires Sorted(AnchorList(entries))
    ensures Sorted(AnchorList(AddRecords(entries, fileIdx, records)))
    ensures LocsFor(AddRecords(entries, fileIdx, records), x) ==
            LocsFor(entries, x) + RecordLocs(fileIdx, records, x)
  {
    hide Put, LocsFor, Sorted, AnchorList;
    if records == [] {
      assert LocsFor(entries, x) + [] == LocsFor(entries, x);
    } else {
      var n := |records| - 1;
      AddRecordsAre(entries, fileIdx, records[..n], x);
      var before := AddRecords(entries, fileIdx, records[..n]);
      PutSorted(before, records[n].anchor, (fileIdx, records[n].fenceOffset));
      PutLocs(before, records[n].anchor, (fileIdx, records[n].fenceOffset), x);
    }
  }

  /** Built from distinct paths, the tables number them in order and hold every record. */
  lemma {:induction false} AddFilesAre(disk: Disk, paths: seq<bytes>, x: bytes)
    requires AddFiles(disk, paths).Success? && Distinct(paths)
    ensures AllReadable(disk, paths) && AddFiles(disk, paths).value.files == paths
    ensures Sorted(AnchorList(AddFiles(disk, paths).value.entries))
    ensures LocsFor(AddFiles(disk, paths).value.entries, x) == CorpusLocs(disk, paths, x)
  {
    hide AddFiles, AddRecords, RecordLocs, LocsFor, Sorted, AnchorList, ParsedRecords, PathIndex;
    if paths == [] {
      NoneSorted();
      NoFiles(disk, x);
    } else {
      AddFilesLast(disk, paths);
      var n := |paths| - 1;
      AddFilesAre(disk, paths[..n], x);
      var t := AddFiles(disk, paths[..n]).value;
      AddRecordsAre(t.entries, n, ParsedRecords(disk.files[paths[n]].text), x);
      assert paths == paths[..n] + [paths[n]];
      assert paths[n] !in paths[..n];
    }
  }

  lemma NoFiles(disk: Disk, x: bytes)
    ensures AddFiles(disk, []) == Success(Tables([], [])) && LocsFor([], x) == []
  {}

  lemma AddFilesLast(disk: Disk, paths: seq<bytes>)
    requires paths != [] && AddFiles(disk, paths).Success?
    ensures var n := |paths| - 1;
            && AddFiles(disk, paths[..n]).Success?
            && paths[n] in disk.files && disk.files[paths[n]].Text?
            && var t := AddFiles(disk, paths[..n]).value;
               var (files, fileIdx) := NumberFile(t.files, paths[n]);
               AddFiles(disk, paths) ==
               Success(Tables(AddRecords(t.entries, fileIdx, ParsedRecords(disk.files[paths[n]].text)), files))
  {
    hide AddRecords, NumberFile, ParsedRecords;
  }

  lemma {:induction false} EntryLocs(entries: seq<Entry>, i: nat)
    requires Sorted(AnchorList(entries)) && i < |entries|
    ensures LocsFor(entries, entries[i].anchor) == entries[i].locs
  {
    hide Less, Sorted, AnchorList;
    SortedTail(entries);
    if i > 0 {
      assert entries[1..][i - 1] == entries[i];
      LessIrreflexive(entries[0].anchor);
      EntryLocs(entries[1..], i - 1);
    }
  }

  lemma {:induction false} EntryOf(entries: seq<Entry>, x: bytes) returns (i: nat)
    requires LocsFor(entries, x) != []
    ensures i < |entries| && entries[i].anchor == x && entries[i].locs == LocsFor(entries, x)
  {
    if entries[0].anchor == x {
      i := 0;
    } else {
      i := EntryOf(entries[1..], x);
      i := i + 1;
    }
  }

  // ----- what those locations are -----

  lemma {:induction false} RecordLocsAre(fileIdx: nat, records: seq<Record>, x: bytes)
    ensures forall f, o :: (f, o) in RecordLocs(fileIdx, records, x) <==>
              f == fileIdx && exists r :: r in records && r.anchor == x && r.fenceOffset == o
    ensures OffsetsAscend(records) ==> LocsAscend(RecordLocs(fileIdx, records, x))
  {
    if records != [] {
      var n := |records| - 1;
      RecordLocsAre(fileIdx, records[..n], x);
      assert records == records[..n] + [records[n]];
      var front := RecordLocs(fileIdx, records[..n], x);
      forall i | 0 <= i < |front| && OffsetsAscend(records) ensures front[i].1 < records[n].fenceOffset {
        assert (front[i].0, front[i].1) in front;
        var r :| r in records[..n] && r.anchor == x && r.fenceOffset == front[i].1;
      }
    }
  }

  /** Locations in the same file come in ascending offset order. */
  ghost predicate LocsAscend(locs: seq<(nat, nat)>) {
    forall i, j :: 0 <= i < j < |locs| && locs[i].0 == locs[j].0 ==> locs[i].1 < locs[j].1
  }

  ghost predicate IsRecordAt(disk: Disk, path: bytes, offset: nat, x: bytes) {
    && path in disk.files && disk.files[path].Text?
    && exists r :: r in RecordsOf(disk, path) && r.anchor == x && r.fenceOffset == offset
  }

  lemma {:induction false} CorpusLocsAre(disk: Disk, paths: seq<bytes>, x: bytes)
    requires AllReadable(disk, paths)
    ensures forall f, o :: (f, o) in CorpusLocs(disk, paths, x) <==>
              0 <= f < |paths| && 0 <= o && IsRecordAt(disk, paths[f], o, x)
    ensures LocsAscend(CorpusLocs(disk, paths, x))
  {
    hide RecordLocs, ParsedRecords;
    if paths != [] {
      var n := |paths| - 1;
      CorpusLocsAre(disk, paths[..n], x);
      RecordLocsAre(n, RecordsOf(disk, paths[n]), x);
      ParsedOffsetsAscend(disk.files[paths[n]].text);
      var front, back := CorpusLocs(disk, paths[..n], x), RecordLocs(n, RecordsOf(disk, paths[n]), x);
      forall i, j | 0 <= i < |front| && 0 <= j < |back| ensures front[i].0 != back[j].0 {
        assert (front[i].0, front[i].1) in front && (back[j].0, back[j].1) in back;
      }
      forall f, o ensures (f, o) in CorpusLocs(disk, paths, x) <==>
              0 <= f < |paths| && 0 <= o && IsRecordAt(disk, paths[f], o, x)
      {
        assert 0 <= f < n ==> paths[..n][f] == paths[f];
      }
    }
  }
}
