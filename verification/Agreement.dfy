/**
  The index "can never produce a wrong answer": a query resolved through an index
  built from the unchanged corpus gives what a scan gives.
*/
module Agreement {
  import opened Bytes
  import opened Utf8
  import opened LittleEndian
  import opened Pattern
  import opened Anchors
  import opened Fragment
  import opened Corpus
  import opened Scan
  import opened Specificity
  import opened Index
  import opened IndexReader
  import opened IndexWriter
  import opened IndexRoundTrip
  import opened IndexBuild
  import opened Cascade

  // ----- the built index is encodable -----

  lemma {:induction false} OffsetsInText(text: bytes, r: Record)
    requires r in ParsedRecords(text)
    ensures r.fenceOffset <= |text|
  {
    hide ParsedRecords;
    RecordOffsets(text, r);
  }

  ghost predicate TextsFit(disk: Disk, paths: seq<bytes>) {
    forall i :: 0 <= i < |paths| && paths[i] in disk.files && disk.files[paths[i]].Text?
      ==> |disk.files[paths[i]].text| < TWO_64
  }

  lemma {:induction false} BuiltLocsInRange(disk: Disk, paths: seq<bytes>)
    requires AddFiles(disk, paths).Success? && Distinct(paths) && TextsFit(disk, paths)
    ensures LocsInRange(AddFiles(disk, paths).value.entries, |paths|)
  {
    hide AddFiles, CorpusLocs, LocsFor, AnchorList, ParsedRecords, LocsAscend, Sorted;
    var entries := AddFiles(disk, paths).value.entries;
    forall i, j | 0 <= i < |entries| && 0 <= j < |entries[i].locs|
      ensures entries[i].locs[j].0 < |paths| && entries[i].locs[j].1 < TWO_64
    {
      var x := entries[i].anchor;
      AddFilesAre(disk, paths, x);
      EntryLocs(entries, i);
      CorpusLocsAre(disk, paths, x);
      var (f, o) := entries[i].locs[j];
      assert (f, o) in CorpusLocs(disk, paths, x);
      var r :| r in RecordsOf(disk, paths[f]) && r.anchor == x && r.fenceOffset == o;
      OffsetsInText(disk.files[paths[f]].text, r);
    }
  }

  // ----- what a lookup in it returns -----

  /** A record the lookup should point at: a match, or spelled like an exact query. */
  ghost predicate Sought(disk: Disk, paths: seq<bytes>, query: Query, loc: Location) {
    exists x :: loc.file in paths && IsRecordAt(disk, loc.file, loc.offset, x)
                && (query.Accepts(x) || query == Exact(x))
  }

  /** Locations of one file and one anchor come in ascending offset order. */
  ghost predicate LocStable(disk: Disk, locs: seq<Location>) {
    forall i, j, x :: 0 <= i < j < |locs| && locs[i].file == locs[j].file
      && IsRecordAt(disk, locs[i].file, locs[i].offset, x) && IsRecordAt(disk, locs[j].file, locs[j].offset, x)
      ==> locs[i].offset < locs[j].offset
  }

  lemma {:induction false} UniqueAt(records: seq<Record>, r: Record, s: Record)
    requires OffsetsAscend(records) && r in records && s in records && r.fenceOffset == s.fenceOffset
    ensures r == s
  {
    var i :| 0 <= i < |records| && records[i] == r;
    var j :| 0 <= j < |records| && records[j] == s;
  }

  /** A location carries one anchor. */
  lemma {:induction false} AnchorUnique(disk: Disk, path: bytes, offset: nat, x: bytes, y: bytes)
    requires IsRecordAt(disk, path, offset, x) && IsRecordAt(disk, path, offset, y)
    ensures x == y
  {
    hide ParsedRecords;
    var records := RecordsOf(disk, path);
    var r :| r in records && r.anchor == x && r.fenceOffset == offset;
    var s :| s in records && s.anchor == y && s.fenceOffset == offset;
    ParsedOffsetsAscend(disk.files[path].text);
    UniqueAt(records, r, s);
  }

  /** Block `i` of a built index: the corpus locations of one anchor. */
  ghost predicate Block(disk: Disk, paths: seq<bytes>, x: bytes, locs: seq<Location>) {
    && (forall loc :: loc in locs <==> loc.file in paths && IsRecordAt(disk, loc.file, loc.offset, x))
    && LocStable(disk, locs)
  }

  lemma {:induction false} ResolvedBlock(disk: Disk, paths: seq<bytes>, x: bytes, pairs: seq<(nat, nat)>)
    requires AllReadable(disk, paths) && Distinct(paths)
    requires pairs == CorpusLocs(disk, paths, x)
    requires forall j :: 0 <= j < |pairs| ==> pairs[j].0 < |paths|
    ensures Block(disk, paths, x, NamedLocations(paths, pairs))
  {
    hide CorpusLocs, IsRecordAt;
    CorpusLocsAre(disk, paths, x);
    var locs := NamedLocations(paths, pairs);
    forall loc ensures loc in locs <==> loc.file in paths && IsRecordAt(disk, loc.file, loc.offset, x) {
      if loc in locs {
        var j :| 0 <= j < |locs| && locs[j] == loc;
        assert (pairs[j].0, pairs[j].1) in pairs;
      }
      if loc.file in paths && IsRecordAt(disk, loc.file, loc.offset, x) {
        var f :| 0 <= f < |paths| && paths[f] == loc.file;
        assert (f, loc.offset) in pairs;
        var j :| 0 <= j < |pairs| && pairs[j] == (f, loc.offset);
        assert locs[j] == loc;
      }
    }
  }

  /** The blocks of distinct anchors, one after the other. */
  lemma {:induction false} BlocksJoin(disk: Disk, paths: seq<bytes>, idx: Index, anchors: seq<bytes>, idxs: seq<nat>)
    requires forall i :: i in idxs ==> Readable(idx, i) && i < |anchors|
    requires forall i :: i in idxs ==> Block(disk, paths, anchors[i], LocationsOf(idx, i))
    requires Once(idxs) && Sorted(anchors)
    ensures LocStable(disk, LocationsOfAll(idx, idxs))
    ensures forall loc :: loc in LocationsOfAll(idx, idxs) <==>
              exists i :: i in idxs && loc.file in paths && IsRecordAt(disk, loc.file, loc.offset, anchors[i])
  {
    hide Readable, LocationsOf, IsRecordAt, Sorted;
    if idxs != [] {
      var n := |idxs| - 1;
      assert idxs == idxs[..n] + [idxs[n]];
      assert forall i :: i in idxs[..n] ==> i in idxs;
      BlocksJoin(disk, paths, idx, anchors, idxs[..n]);
      var front, back := LocationsOfAll(idx, idxs[..n]), LocationsOf(idx, idxs[n]);
      forall i, j | 0 <= i < |front| && 0 <= j < |back|
        ensures forall x :: !(IsRecordAt(disk, front[i].file, front[i].offset, x)
                              && IsRecordAt(disk, back[j].file, back[j].offset, x))
      {
        assert front[i] in front && back[j] in back;
        var k :| k in idxs[..n] && IsRecordAt(disk, front[i].file, front[i].offset, anchors[k]);
        SortedDiffer(anchors, k, idxs[n]);
        AnchorsDiffer(disk, front[i], anchors[k], back[j], anchors[idxs[n]]);
      }
      JoinStable(disk, front, back);
    }
  }

  lemma JoinStable(disk: Disk, front: seq<Location>, back: seq<Location>)
    requires LocStable(disk, front) && LocStable(disk, back)
    requires forall i, j :: 0 <= i < |front| && 0 <= j < |back| ==>
               forall x :: !(IsRecordAt(disk, front[i].file, front[i].offset, x)
                             && IsRecordAt(disk, back[j].file, back[j].offset, x))
    ensures LocStable(disk, front + back)
  {
    hide IsRecordAt;
  }

  lemma SortedDiffer(anchors: seq<bytes>, i: nat, j: nat)
    requires Sorted(anchors) && i < |anchors| && j < |anchors| && i != j
    ensures anchors[i] != anchors[j]
  {
    LessIrreflexive(anchors[i]);
  }

  lemma {:induction false} AnchorsDiffer(disk: Disk, a: Location, x: bytes, b: Location, y: bytes)
    requires IsRecordAt(disk, a.file, a.offset, x) && IsRecordAt(disk, b.file, b.offset, y) && x != y
    ensures forall z :: !(IsRecordAt(disk, a.file, a.offset, z) && IsRecordAt(disk, b.file, b.offset, z))
  {
    hide IsRecordAt;
    forall z | IsRecordAt(disk, a.file, a.offset, z) ensures z == x {
      AnchorUnique(disk, a.file, a.offset, z, x);
    }
    forall z | IsRecordAt(disk, b.file, b.offset, z) ensures z == y {
      AnchorUnique(disk, b.file, b.offset, z, y);
    }
  }

  /** The locations found in a built index are exactly the sought ones. */
  lemma {:induction false} FoundIs(disk: Disk, paths: seq<bytes>, entries: seq<Entry>, query: Query)
    requires Distinct(paths) && AddFiles(disk, paths) == Success(Tables(entries, paths))
    requires Encodable(entries, paths)
    ensures Sound(ReadBack(entries, paths))
    ensures var found := Found(ReadBack(entries, paths), query);
            LocStable(disk, found) && forall loc :: loc in found <==> Sought(disk, paths, query, loc)
  {
    hide AddFiles, Encodable, ReadBack, Sound, AnchorsOf, Visited, IsRecordAt, LocationsOf, LocationsOfAll, Readable,
      AnchorList, LocStable, IsExact, IsUnderKey;
    var idx, anchors := ReadBack(entries, paths), AnchorList(entries);
    ImageIsAccepted(entries, paths);
    VisitsExactly(anchors, query);
    VisitedAreReadable(idx, query);
    var idxs := Visited(anchors, query);
    forall i | i in idxs ensures Block(disk, paths, anchors[i], LocationsOf(idx, i)) {
      BlockOf(disk, paths, entries, i);
    }
    EntriesSorted(disk, paths, entries);
    BlocksJoin(disk, paths, idx, anchors, idxs);
    forall loc | Sought(disk, paths, query, loc)
      ensures exists i :: i in idxs && loc.file in paths && IsRecordAt(disk, loc.file, loc.offset, anchors[i])
    {
      var x :| loc.file in paths && IsRecordAt(disk, loc.file, loc.offset, x)
               && (query.Accepts(x) || query == Exact(x));
      var i := EntryAt(disk, paths, entries, loc, x);
      assert i in idxs;
    }
    assert Found(idx, query) == LocationsOfAll(idx, idxs);
  }

  lemma {:induction false} EntriesSorted(disk: Disk, paths: seq<bytes>, entries: seq<Entry>)
    requires Distinct(paths) && AddFiles(disk, paths) == Success(Tables(entries, paths))
    ensures Sorted(AnchorList(entries)) && AllReadable(disk, paths)
  {
    hide AddFiles, AnchorList, Sorted;
    AddFilesAre(disk, paths, []);
  }

  lemma {:induction false} BlockOf(disk: Disk, paths: seq<bytes>, entries: seq<Entry>, i: nat)
    requires Distinct(paths) && AddFiles(disk, paths) == Success(Tables(entries, paths))
    requires Encodable(entries, paths) && i < |entries|
    ensures Readable(ReadBack(entries, paths), i)
    ensures Block(disk, paths, entries[i].anchor, LocationsOf(ReadBack(entries, paths), i))
  {
    hide AddFiles, Image, ReadBack, Readable, LocationsOf, CorpusLocs, LocsFor, Block, Sorted, AnchorList;
    AddFilesAre(disk, paths, entries[i].anchor);
    EntryLocs(entries, i);
    ReadBackLocationsOf(entries, paths, i);
    ResolvedBlock(disk, paths, entries[i].anchor, entries[i].locs);
  }

  lemma {:induction false} EntryAt(disk: Disk, paths: seq<bytes>, entries: seq<Entry>, loc: Location, x: bytes)
    returns (i: nat)
    requires Distinct(paths) && AddFiles(disk, paths) == Success(Tables(entries, paths))
    requires loc.file in paths && IsRecordAt(disk, loc.file, loc.offset, x)
    ensures i < |entries| && entries[i].anchor == x
  {
    hide AddFiles, CorpusLocs, LocsFor, IsRecordAt, Sorted, AnchorList;
    AddFilesAre(disk, paths, x);
    CorpusLocsAre(disk, paths, x);
    var f :| 0 <= f < |paths| && paths[f] == loc.file;
    assert (f, loc.offset) in CorpusLocs(disk, paths, x);
    i := EntryOf(entries, x);
  }

  // ----- tier 1 -----

  lemma {:induction false} PointerHitsAre(disk: Disk, locs: seq<Location>, query: Query)
    requires PointerHits(disk, locs, query).Some?
    ensures var hits := PointerHits(disk, locs, query).value;
            |hits| == |locs| && forall k :: 0 <= k < |locs| ==> HitAt(disk, locs[k], query) == Some(hits[k])
  {
    hide HitAt;
    if locs != [] {
      var n := |locs| - 1;
      PointerHitsAre(disk, locs[..n], query);
    }
  }

  lemma {:induction false} HitAtIs(disk: Disk, loc: Location, query: Query)
    requires HitAt(disk, loc, query).Some?
    ensures var h := HitAt(disk, loc, query).value;
            && h.file == loc.file && h.record.fenceOffset == loc.offset && IsCurrent(disk, h, query)
            && IsRecordAt(disk, loc.file, loc.offset, h.record.anchor)
  {
    hide ParsedRecords, ProviderOf, IsExact, IsUnderKey, RecordAt;
    RecordAtIs(ParsedRecords(disk.files[loc.file].text), loc.offset, query);
    var h := HitAt(disk, loc, query).value;
    assert h.record in RecordsOf(disk, loc.file);
  }

  /** A pointer at a current match leads back to it. */
  lemma {:induction false} HitAtFinds(disk: Disk, h: Hit, query: Query)
    requires IsCurrent(disk, h, query)
    ensures HitAt(disk, Location(h.file, h.record.fenceOffset), query) == Some(h)
    ensures IsRecordAt(disk, h.file, h.record.fenceOffset, h.record.anchor)
  {
    hide ParsedRecords, ProviderOf, IsExact, IsUnderKey, RecordAt;
    var records := ParsedRecords(disk.files[h.file].text);
    RecordAtIs(records, h.record.fenceOffset, query);
    ParsedOffsetsAscend(disk.files[h.file].text);
    var found := RecordAt(records, h.record.fenceOffset, query);
    UniqueAt(records, found.value, h.record);
    assert h.record in RecordsOf(disk, h.file);
  }

  /** What every tier must produce: the current matches of the corpus, in file order. */
  ghost predicate Answers(disk: Disk, paths: seq<bytes>, query: Query, hits: seq<Hit>) {
    && OffsetStable(hits)
    && forall h: Hit :: h in hits <==> h.file in paths && IsCurrent(disk, h, query)
  }

  ghost predicate Complete(disk: Disk, paths: seq<bytes>, query: Query, locs: seq<Location>) {
    && LocStable(disk, locs)
    && forall loc :: loc in locs <==> Sought(disk, paths, query, loc)
  }

  lemma {:induction false} CurrentIsSought(disk: Disk, paths: seq<bytes>, query: Query, h: Hit)
    requires h.file in paths && IsCurrent(disk, h, query)
    ensures Sought(disk, paths, query, Location(h.file, h.record.fenceOffset))
  {
    hide IsExact, IsUnderKey, IsRecordAt, ProviderOf, ParsedRecords;
    HitAtFinds(disk, h, query);
  }

  lemma {:induction false} PointersAnswer(disk: Disk, paths: seq<bytes>, query: Query, locs: seq<Location>)
    requires DistinctProviders(paths) && Complete(disk, paths, query, locs)
    requires PointerHits(disk, locs, query).Some?
    ensures Answers(disk, paths, query, PointerHits(disk, locs, query).value)
  {
    hide PointerHits, HitAt, IsCurrent, IsRecordAt, IsExact, IsUnderKey, ProviderOf;
    var hits := PointerHits(disk, locs, query).value;
    PointerHitsAre(disk, locs, query);
    forall k | 0 <= k < |locs|
      ensures hits[k].file == locs[k].file && hits[k].record.fenceOffset == locs[k].offset
      ensures IsCurrent(disk, hits[k], query) && hits[k].file in paths
      ensures hits[k].provider == ProviderOf(hits[k].file)
      ensures IsRecordAt(disk, locs[k].file, locs[k].offset, hits[k].record.anchor)
    {
      assert locs[k] in locs;
      HitAtIs(disk, locs[k], query);
      CurrentProvider(disk, hits[k], query);
    }
    forall h: Hit | h.file in paths && IsCurrent(disk, h, query) ensures h in hits {
      CurrentIsSought(disk, paths, query, h);
      HitAtFinds(disk, h, query);
      var k :| 0 <= k < |locs| && locs[k] == Location(h.file, h.record.fenceOffset);
      assert hits[k] == h;
    }
    forall i, j | 0 <= i < j < |hits| && SameKey(hits[i], hits[j])
      ensures hits[i].record.fenceOffset < hits[j].record.fenceOffset
    {
      SameFile(paths, hits[i].file, hits[j].file);
    }
  }

  lemma {:induction false} CurrentProvider(disk: Disk, h: Hit, query: Query)
    requires IsCurrent(disk, h, query)
    ensures h.provider == ProviderOf(h.file)
  {}

  lemma SameFile(paths: seq<bytes>, p: bytes, q: bytes)
    requires DistinctProviders(paths) && p in paths && q in paths && ProviderOf(p) == ProviderOf(q)
    ensures p == q
  {}

  // ----- tiers 2 and 3 -----

  /** The hits of one file keep its order, whatever is read besides. */
  ghost predicate FileStable(hits: seq<Hit>) {
    forall i, j :: 0 <= i < j < |hits| && hits[i].file == hits[j].file
      ==> hits[i].record.fenceOffset < hits[j].record.fenceOffset
  }

  lemma FirstInFile(h: Hit, rest: seq<Hit>)
    requires FileStable(rest) && forall g: Hit :: g in rest ==> h.record.fenceOffset < g.record.fenceOffset
    ensures FileStable([h] + rest)
  {
    var hits := [h] + rest;
    forall i, j | 0 <= i < j < |hits| && hits[i].file == hits[j].file
      ensures hits[i].record.fenceOffset < hits[j].record.fenceOffset
    {
      assert hits[j] == rest[j - 1];
      if i > 0 { assert hits[i] == rest[i - 1]; }
    }
  }

  lemma {:induction false} MatchingStable(file: bytes, records: seq<Record>, query: Query)
    requires OffsetsAscend(records)
    ensures FileStable(Matching(file, records, query))
  {
    hide ProviderOf, IsExact, IsUnderKey, FileStable;
    if records != [] {
      var rest := Matching(file, records[1..], query);
      MatchingStable(file, records[1..], query);
      MatchingAre(file, records[1..], query);
      forall g: Hit | g in rest ensures records[0].fenceOffset < g.record.fenceOffset {
        var j :| 0 <= j < |records[1..]| && records[1..][j] == g.record;
        assert records[j + 1] == g.record;
      }
      FirstInFile(Hit(ProviderOf(file), file, records[0]), rest);
      assert [] + rest == rest;
    } else {
      assert FileStable([]) by { NoHitsInOrder(); }
    }
  }

  lemma NoHitsInOrder()
    ensures FileStable([])
  {}

  lemma {:induction false} MatchingInOrder(file: bytes, text: bytes, query: Query)
    ensures FileStable(Matching(file, ParsedRecords(text), query))
    ensures forall h: Hit :: h in Matching(file, ParsedRecords(text), query) ==> h.file == file
  {
    hide ProviderOf, ParsedRecords, Matching, IsExact, IsUnderKey;
    var records := ParsedRecords(text);
    ParsedOffsetsAscend(text);
    MatchingStable(file, records, query);
    MatchingAre(file, records, query);
  }

  lemma {:induction false} FilesStable(disk: Disk, paths: seq<bytes>, query: Query)
    requires Distinct(paths) && HitsOfFiles(disk, paths, query).Success?
    ensures FileStable(HitsOfFiles(disk, paths, query).value)
  {
    hide IsCurrent, Matching, ParsedRecords;
    if paths != [] {
      var n := |paths| - 1;
      FilesStable(disk, paths[..n], query);
      HitsOfFilesAre(disk, paths[..n], query);
      var front := HitsOfFiles(disk, paths[..n], query).value;
      if paths[n] in disk.files {
        MatchingInOrder(paths[n], disk.files[paths[n]].text, query);
        var back := Matching(paths[n], ParsedRecords(disk.files[paths[n]].text), query);
        forall i, j | 0 <= i < |front| && 0 <= j < |back| ensures front[i].file != back[j].file {
          assert front[i] in front && back[j] in back;
        }
      }
    }
  }

  /** Where providers are distinct, one file's order is one key's order. */
  lemma KeysStable(disk: Disk, paths: seq<bytes>, hits: seq<Hit>, query: Query)
    requires DistinctProviders(paths) && FileStable(hits) && AllCurrent(disk, hits, query)
    requires forall h: Hit :: h in hits ==> h.file in paths
    ensures OffsetStable(hits)
  {
    hide ProviderOf, ParsedRecords, IsExact, IsUnderKey, DistinctProviders;
    forall i, j | 0 <= i < j < |hits| && SameKey(hits[i], hits[j]) ensures hits[i].file == hits[j].file {
      assert hits[i] in hits && hits[j] in hits;
      SameFile(paths, hits[i].file, hits[j].file);
    }
  }

  lemma {:induction false} ReadableFilesAnswer(disk: Disk, paths: seq<bytes>, query: Query)
    requires AllReadable(disk, paths)
    ensures HitsOfFiles(disk, paths, query).Success?
  {
    hide Matching, ParsedRecords;
    if paths != [] {
      ReadableFilesAnswer(disk, paths[..|paths| - 1], query);
    }
  }

  lemma {:induction false} FilesAnswer(disk: Disk, paths: seq<bytes>, some: seq<bytes>, query: Query)
    requires Distinct(some) && DistinctProviders(paths) && AllReadable(disk, paths)
    requires forall p :: p in some ==> p in paths
    requires forall h: Hit :: h.file in paths && IsCurrent(disk, h, query) ==> h.file in some
    ensures HitsOfFiles(disk, some, query).Success?
    ensures Answers(disk, paths, query, HitsOfFiles(disk, some, query).value)
  {
    hide ProviderOf, IsCurrent, HitsOfFiles, DistinctProviders;
    forall i | 0 <= i < |some| ensures some[i] in disk.files && disk.files[some[i]].Text? {
      assert some[i] in some;
    }
    ReadableFilesAnswer(disk, some, query);
    FilesStable(disk, some, query);
    HitsOfFilesAre(disk, some, query);
    KeysStable(disk, paths, HitsOfFiles(disk, some, query).value, query);
  }

  lemma AscendsDistinct(paths: seq<bytes>)
    requires Ascends(paths)
    ensures Distinct(paths)
  {
    forall i, j | 0 <= i < j < |paths| ensures paths[i] != paths[j] {
      LessIrreflexive(paths[i]);
    }
  }

  lemma NamedFilesAnswer(disk: Disk, paths: seq<bytes>, query: Query, locs: seq<Location>)
    requires DistinctProviders(paths) && AllReadable(disk, paths) && Complete(disk, paths, query, locs)
    ensures HitsOfFiles(disk, DistinctFiles(locs), query).Success?
    ensures Answers(disk, paths, query, HitsOfFiles(disk, DistinctFiles(locs), query).value)
  {
    hide DistinctFiles, IsCurrent, HitsOfFiles, Answers, IsRecordAt, IsExact, IsUnderKey;
    DistinctFilesAre(locs);
    AscendsDistinct(DistinctFiles(locs));
    forall h: Hit | h.file in paths && IsCurrent(disk, h, query) ensures h.file in DistinctFiles(locs) {
      CurrentIsSought(disk, paths, query, h);
      assert Location(h.file, h.record.fenceOffset) in locs;
    }
    FilesAnswer(disk, paths, DistinctFiles(locs), query);
  }

  /** Whichever tier answers, it gives what the corpus scan gives. */
  lemma TiersAgree(disk: Disk, paths: seq<bytes>, query: Query, locs: seq<Location>)
    requires Fragments(disk) == Success(paths) && Distinct(paths) && DistinctProviders(paths)
    requires AllReadable(disk, paths) && Complete(disk, paths, query, locs)
    ensures Tiers(disk, locs, query) == CorpusHits(disk, query)
  {
    hide Fragments, DistinctFiles, IsCurrent, HitsOfFiles, PointerHits, SortHits, Complete, AllReadable,
      DistinctProviders, Distinct;
    FilesAnswer(disk, paths, paths, query);
    var scanned := HitsOfFiles(disk, paths, query).value;
    if locs != [] {
      var pointers := PointerHits(disk, locs, query);
      if pointers.Some? {
        PointersAnswer(disk, paths, query, locs);
        SortsAgree(pointers.value, scanned);
      } else {
        NamedFilesAnswer(disk, paths, query, locs);
        SortsAgree(HitsOfFiles(disk, DistinctFiles(locs), query).value, scanned);
      }
    }
  }

  /**
    With the index built from the corpus as it is, of less than 4 GiB, every query
    gives the same hits in the same order as with no index at all. Paths and texts are
    in UTF-8: a text that is not counts as unreadable.
  */
  lemma {:induction false} IndexAgreesWithScan(disk: Disk, image: bytes, query: Query)
    requires ProperListing(disk) && BuiltImage(disk) == Success(image) && |image| < TWO_32
    requires TextsFit(disk, Fragments(disk).value)
    requires TextsUtf8(disk, Fragments(disk).value) && AllUtf8(Fragments(disk).value)
    ensures Resolved(disk, Some(image), query) == Resolved(disk, None, query)
  {
    hide Fragments, AddFiles, Image, CorpusHits, Tiers, Found, Decoded, Sound, ReadBack, AllReadable, Distinct,
      DistinctProviders, MostSpecific, TextsFit, TextsUtf8, AllUtf8, Sorted, AnchorList, LocsInRange, LocStable;
    var paths := Fragments(disk).value;
    ProvidersAreDistinct(disk);
    AddFilesAre(disk, paths, []);
    var entries := AddFiles(disk, paths).value.entries;
    BuiltLocsInRange(disk, paths);
    AddFilesUtf8(disk, paths);
    assert Encodable(entries, paths);
    ImageIsAccepted(entries, paths);
    FoundIs(disk, paths, entries, query);
    var locs := Recorded(Some(image), query);
    TiersAgree(disk, paths, query, locs);
    NoIndexScans(disk, query);
  }

  lemma NoIndexScans(disk: Disk, query: Query)
    ensures Tiers(disk, Recorded(None, query), query) == CorpusHits(disk, query)
  {}

  // ----- the page about the query itself -----

  /**
    Without an index, or with the one built from the corpus: if the corpus documents
    an exact query by a page that names no family, the answers of that page's kind
    are exactly the current pages about the query itself.
  */
  lemma {:induction false} OwnPageWins(disk: Disk, image: Option<bytes>, query: bytes, concrete: Hit, h: Hit)
    requires ProperListing(disk) && Resolved(disk, image, Exact(query)).Success?
    requires image.Some? ==> BuiltImage(disk) == Success(image.value) && |image.value| < TWO_32
    requires image.Some? ==> TextsFit(disk, Fragments(disk).value) && TextsUtf8(disk, Fragments(disk).value)
    requires image.Some? ==> AllUtf8(Fragments(disk).value)
    requires Fragments(disk).Success? && concrete.file in Fragments(disk).value
    requires IsCurrent(disk, concrete, Exact(query)) && !HasWildcard(concrete.record.anchor)
    requires h.record.Kind() == concrete.record.Kind()
    ensures h in Resolved(disk, image, Exact(query)).value <==>
            h.file in Fragments(disk).value && IsCurrent(disk, h, Exact(query)) && h.record.anchor == query
  {
    hide Fragments, BuiltImage, IsCurrent, TextsFit, TextsUtf8, AllUtf8, CorpusHits, MostSpecific, ProperListing,
      HasWildcard;
    if image.Some? {
      IndexAgreesWithScan(disk, image.value, Exact(query));
    }
    NoIndexScans(disk, Exact(query));
    CorpusHitsAre(disk, Exact(query));
    ConcretePageAnswers(disk, None, query, concrete, h);
  }
}
