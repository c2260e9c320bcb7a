/**
  What an index answers that no longer fits the corpus, against what the scan finds
  (crates/registry-manual/src/query.rs).
*/
module StaleIndex {
  import opened Bytes
  import opened Utf8
  import opened LittleEndian
  import opened Pattern
  import opened Anchors
  import opened Fragment
  import opened Corpus
  import opened Scan
  import opened Index
  import opened IndexReader
  import opened IndexWriter
  import opened IndexRoundTrip
  import opened Cascade
  import opened Agreement

  /**
    What each tier answers: the records pointed at; when a pointer is stale, an error
    if a named file cannot be read, else all current matches of the named files; when
    there are none, what the scan finds.
  */
  lemma {:induction false} StaleAnswer(disk: Disk, locs: seq<Location>, query: Query)
    ensures locs != [] && PointerHits(disk, locs, query).Some?
            ==> Tiers(disk, locs, query).Success?
                && forall h: Hit :: h in Tiers(disk, locs, query).value <==>
                     exists loc :: loc in locs && HitAt(disk, loc, query) == Some(h)
    ensures PointerHits(disk, locs, query).None? && NamesUnreadable(disk, locs)
            ==> Tiers(disk, locs, query) == Failure
    ensures PointerHits(disk, locs, query).None? && !NamesUnreadable(disk, locs) && NamedMatch(disk, locs, query)
            ==> Tiers(disk, locs, query).Success?
                && forall h: Hit :: h in Tiers(disk, locs, query).value <==>
                     Named(locs, h.file) && IsCurrent(disk, h, query)
    ensures locs == [] || (PointerHits(disk, locs, query).None? && !NamesUnreadable(disk, locs)
                           && !NamedMatch(disk, locs, query))
            ==> Tiers(disk, locs, query) == CorpusHits(disk, query)
  {
    hide DistinctFiles, IsCurrent, HitsOfFiles, PointerHits, SortHits, CorpusHits, HitAt, NamesUnreadable, NamedMatch,
      Named;
    if locs != [] {
      var pointers := PointerHits(disk, locs, query);
      if pointers.Some? {
        PointerHitsAre(disk, locs, query);
        SortHitsMembers(pointers.value);
      } else {
        NamedFilesFail(disk, locs, query);
        if !NamesUnreadable(disk, locs) {
          NamedFilesFind(disk, locs, query);
          SortHitsMembers(HitsOfFiles(disk, DistinctFiles(locs), query).value);
        }
      }
    } else {
      NoPointers(disk, query);
    }
  }

  lemma NoPointers(disk: Disk, query: Query)
    ensures PointerHits(disk, [], query) == Some([])
  {}

  /** The named files hold just the matches of the corpus. */
  ghost predicate NamesTheMatches(disk: Disk, locs: seq<Location>, query: Query)
    requires Fragments(disk).Success?
  {
    forall h: Hit :: IsCurrent(disk, h, query) ==> (Named(locs, h.file) <==> h.file in Fragments(disk).value)
  }

  /**
    With a stale pointer the result is the scan's, order and all, exactly when: both
    err if a named file cannot be read; else no named file holds a match, or the scan
    answers and the named files hold just the matches of the corpus.
  */
  lemma {:induction false} StaleAnswerIsTheScan(disk: Disk, locs: seq<Location>, query: Query)
    requires ProperListing(disk) && PointerHits(disk, locs, query).None?
    ensures Tiers(disk, locs, query) == CorpusHits(disk, query) <==>
            if NamesUnreadable(disk, locs) then CorpusHits(disk, query).Failure?
            else
              || !NamedMatch(disk, locs, query)
              || (CorpusHits(disk, query).Success? && NamesTheMatches(disk, locs, query))
  {
    hide DistinctFiles, IsCurrent, HitsOfFiles, PointerHits, SortHits, Fragments, Tiers, CorpusHits, NamesUnreadable,
      Named, ProperListing;
    StaleAnswer(disk, locs, query);
    CorpusHitsAre(disk, query);
    if !NamesUnreadable(disk, locs) && NamedMatch(disk, locs, query) && CorpusHits(disk, query).Success?
       && NamesTheMatches(disk, locs, query)
    {
      NamedFilesAnswerAsTheScan(disk, locs, query);
    }
  }

  lemma {:induction false} NamedFilesAnswerAsTheScan(disk: Disk, locs: seq<Location>, query: Query)
    requires ProperListing(disk) && CorpusHits(disk, query).Success? && PointerHits(disk, locs, query).None?
    requires !NamesUnreadable(disk, locs) && NamedMatch(disk, locs, query)
    requires Fragments(disk).Success? && NamesTheMatches(disk, locs, query)
    ensures Tiers(disk, locs, query) == CorpusHits(disk, query)
  {
    hide DistinctFiles, IsCurrent, HitsOfFiles, PointerHits, SortHits, Fragments, Distinct, DistinctProviders,
      OffsetStable, FileStable, ProperListing, NamesUnreadable;
    var paths, files := Fragments(disk).value, DistinctFiles(locs);
    NoPointers(disk, query);
    ProvidersAreDistinct(disk);
    DistinctFilesAre(locs);
    AscendsDistinct(files);
    NamedFilesFind(disk, locs, query);
    FilesStable(disk, paths, query);
    FilesStable(disk, files, query);
    HitsOfFilesAre(disk, paths, query);
    HitsOfFilesAre(disk, files, query);
    var scanned, named := HitsOfFiles(disk, paths, query).value, HitsOfFiles(disk, files, query).value;
    KeysStable(disk, paths, scanned, query);
    KeysStable(disk, paths, named, query);
    SortsAgree(named, scanned);
  }

  /**
    With every pointer live the answer is the scan's exactly when the scan answers and
    the pointers lead to the matches of the corpus, each once and in file order.
  */
  lemma {:induction false} LiveAnswerIsTheScan(disk: Disk, locs: seq<Location>, query: Query)
    requires ProperListing(disk) && locs != [] && PointerHits(disk, locs, query).Some?
    ensures Tiers(disk, locs, query) == CorpusHits(disk, query) <==>
            && CorpusHits(disk, query).Success?
            && OffsetStable(PointerHits(disk, locs, query).value)
            && forall h: Hit :: (h.file in Fragments(disk).value && IsCurrent(disk, h, query)) <==>
                 exists loc :: loc in locs && HitAt(disk, loc, query) == Some(h)
  {
    hide IsCurrent, HitsOfFiles, PointerHits, SortHits, Fragments, Distinct, DistinctProviders, OffsetStable,
      FileStable, StrictlySorted, ProperListing, HitAt, DistinctFiles, NamesUnreadable, NamedMatch;
    StaleAnswer(disk, locs, query);
    CorpusHitsAre(disk, query);
    if CorpusHits(disk, query).Success? {
      var paths, pointed := Fragments(disk).value, PointerHits(disk, locs, query).value;
      ProvidersAreDistinct(disk);
      FilesStable(disk, paths, query);
      HitsOfFilesAre(disk, paths, query);
      var scanned := HitsOfFiles(disk, paths, query).value;
      KeysStable(disk, paths, scanned, query);
      SortHitsSorted(scanned);
      SortHitsMembers(pointed);
      if Tiers(disk, locs, query) == CorpusHits(disk, query) {
        SortedMeansStable(pointed);
      }
      if OffsetStable(pointed) && forall h: Hit :: h in pointed <==> h in scanned {
        SortsAgree(pointed, scanned);
      }
    }
  }

  // ----- an index that errs where the scan answers -----

  /** An index that has one record of `query`, at the start of `file`. */
  function OneRecord(query: bytes, file: bytes): bytes {
    Image([Entry(query, [(0, 0)])], [file])
  }

  lemma OneRecordLists(query: bytes, file: bytes)
    ensures var entries := [Entry(query, [(0, 0)])];
            && AnchorList(entries) == [query] && LocList(entries) == [(0, 0)] && |WildList(entries)| <= 1
            && Concat(FileRows([file])) == Le32(|file|) + file && Concat([query]) == query
  {
    hide Le32;
    var e := Entry(query, [(0, 0)]);
    assert [e][..0] == [] && [query][1..] == [];
    assert FileRows([file])[1..] == [];
    assert Le32(|file|) + file + [] == Le32(|file|) + file;
    assert LocList([]) + e.locs == e.locs;
  }

  lemma OneRecordEncodable(query: bytes, file: bytes)
    requires IsUtf8(query) && IsUtf8(file) && |query| + |file| < TWO_32 - 100
    ensures Encodable([Entry(query, [(0, 0)])], [file])
  {
    hide Concat, Image, LocList, WildList, FileRows, DescRows, IndexWriter.Header, LocRows, WildRows, SectionAt,
      IsUtf8;
    OneRecordLists(query, file);
    SectionsOfImage([Entry(query, [(0, 0)])], [file]);
  }

  lemma {:induction false} LocationsAreFound(idx: Index, idxs: seq<nat>, i: nat)
    requires (forall j :: j in idxs ==> Readable(idx, j)) && i in idxs
    ensures forall loc :: loc in LocationsOf(idx, i) ==> loc in LocationsOfAll(idx, idxs)
  {
    hide Readable, LocationsOf;
    var n := |idxs| - 1;
    assert idxs == idxs[..n] + [idxs[n]];
    if i != idxs[n] {
      LocationsAreFound(idx, idxs[..n], i);
    }
  }

  lemma {:induction false} OneRecordIsFound(query: bytes, file: bytes)
    requires IsUtf8(query) && IsUtf8(file) && |query| + |file| < TWO_32 - 100
    ensures Location(file, 0) in Recorded(Some(OneRecord(query, file)), Exact(query))
  {
    hide Encodable, Image, Sound, AnchorsOf, LocationsOf, LocationsOfAll, Readable, Visited, IsExact, AnchorList;
    var entries, files := [Entry(query, [(0, 0)])], [file];
    OneRecordEncodable(query, file);
    RoundTrip(entries, files);
    OneRecordLists(query, file);
    var idx := Decoded(Image(entries, files)).value;
    VisitsExactly(AnchorsOf(idx), Exact(query));
    VisitedAreReadable(idx, Exact(query));
    LocationsAreFound(idx, Visited(AnchorsOf(idx), Exact(query)), 0);
    assert LocationsOf(idx, 0) == NamedLocations(files, [(0, 0)]);
    assert NamedLocations(files, [(0, 0)])[0] == Location(file, 0);
  }

  /** Where a file cannot be read, an index that names it makes any query err, however well it is documented. */
  lemma {:induction false} AnyQueryCanErr(disk: Disk, query: bytes, file: bytes)
    requires file in disk.files && disk.files[file].Unreadable?
    requires IsUtf8(query) && IsUtf8(file) && |query| + |file| < TWO_32 - 100
    ensures Resolved(disk, Some(OneRecord(query, file)), Exact(query)) == Failure
  {
    hide Recorded, OneRecord, Tiers, IsUtf8;
    OneRecordIsFound(query, file);
    TiersErr(disk, Recorded(Some(OneRecord(query, file)), Exact(query)), Exact(query));
  }

  // ----- one such disk -----

  /** The line `canonical:`, all a record needs behind its fence. */
  const CANONICAL: bytes := [99, 97, 110, 111, 110, 105, 99, 97, 108, COLON]

  /** The text `--- a`, then `canonical:`. */
  const PAGE: bytes := FENCE + [97] + [LF] + CANONICAL

  /** The directory `d` with that page in `a.regman`, and a file `x` that cannot be read. */
  const DISK: Disk := Disk([100], Names([[97] + EXTENSION]), map[PAGE_PATH := Text(PAGE), [120] := Unreadable])
  const PAGE_PATH: bytes := PathOf([100], [97] + EXTENSION)

  lemma CanonicalIsGiven()
    ensures HeaderOf(CANONICAL).canonical.Some?
  {
    hide Trim, SplitColon, Spells, LineLength;
    var key := CANONICAL[..9];
    assert CANONICAL == key + [COLON];
    LettersAreTrimmed(CANONICAL);
    LettersAreTrimmed(key);
    SplitColonIs(CANONICAL, key, []);
    assert CANONICAL == key + ([58] + []);
    SpellsLetters(key, "canonical");
    assert CANONICAL + [] == CANONICAL;
    LineLengthIs(CANONICAL, []);
    assert CANONICAL[..10] == CANONICAL;
  }

  lemma PageBlock(fence: Fence)
    ensures BlockRecord(fence, PAGE).Some?
  {
    hide HeaderOf, LineLength;
    var line := FENCE + [97];
    var rest := [LF] + CANONICAL;
    assert PAGE == line + rest && PAGE[6..] == CANONICAL;
    LineLengthIs(line, rest);
    assert CANONICAL + [] == CANONICAL && CANONICAL[0..] == CANONICAL && CANONICAL[0..10] == CANONICAL;
    LineLengthIs(CANONICAL, []);
    assert HeaderBody(CANONICAL) == (CANONICAL, []);
    CanonicalIsGiven();
  }

  lemma PageFence()
    ensures Fences(PAGE, 0, 1) == [Fence(0, 1, [97])]
  {
    hide LineLength, Trim;
    var line := FENCE + [97];
    var rest := [LF] + CANONICAL;
    assert PAGE == line + rest && PAGE[..5] == line && PAGE[6..] == CANONICAL;
    LineLengthIs(line, rest);
    assert line[4..] == [97];
    LettersAreTrimmed([97]);
    assert CANONICAL + [] == CANONICAL && CANONICAL[..10] == CANONICAL;
    LineLengthIs(CANONICAL, []);
    assert !StartsWith(CANONICAL, FENCE) by { assert CANONICAL[0] != FENCE[0]; }
    assert Fences(CANONICAL, 6, 2) == [];
    assert [Fence(0, 1, [97])] + [] == [Fence(0, 1, [97])];
  }

  lemma {:induction false} PageRecord() returns (r: Record)
    ensures r in ParsedRecords(PAGE) && r.anchor == [97]
  {
    hide Fences, BlockRecord, LineLength;
    var fence := Fence(0, 1, [97]);
    PageFence();
    PageBlock(fence);
    assert PAGE[0..|PAGE|] == PAGE;
    BlockRecordFence(fence, PAGE);
    FencesAscend(PAGE, 0, 1);
    r := BlockRecord(fence, PAGE).value;
    assert Records(PAGE, [fence])[0] == r;
  }

  lemma DiskFragments()
    ensures Fragments(DISK) == Success([PAGE_PATH]) && PAGE_PATH != [120]
  {
    hide PathOf;
    var name: bytes := [97] + EXTENSION;
    var none: seq<bytes> := [];
    assert name[1..] == EXTENSION && IsFragmentName(name);
    assert [name][..0] == none && FragmentPaths([100], none) == none;
    assert FragmentPaths([100], [name]) == none + [PAGE_PATH] == [PAGE_PATH];
    assert [PAGE_PATH][1..] == none && SortPaths(none) == none;
    assert SortPaths([PAGE_PATH]) == InsertPath(PAGE_PATH, none) == [PAGE_PATH] + none == [PAGE_PATH];
    assert DISK.listing == Names([name]) && DISK.dir == [100];
    assert Fragments(DISK) == Success(SortPaths(FragmentPaths([100], [name])));
    PathsDiffer();
  }

  lemma PathsDiffer()
    ensures PAGE_PATH != [120]
  {
    assert |PAGE_PATH| > 1;
  }

  lemma PageIsThere()
    ensures PAGE_PATH in DISK.files && DISK.files[PAGE_PATH] == Text(PAGE)
    ensures [120] in DISK.files && DISK.files[[120]].Unreadable?
  {
    PathsDiffer();
  }

  lemma ConcreteRecordIsCurrent(disk: Disk, path: bytes, text: bytes, r: Record)
    requires path in disk.files && disk.files[path] == Text(text)
    requires r in ParsedRecords(text) && !HasWildcard(r.anchor)
    ensures IsCurrent(disk, Hit(ProviderOf(path), path, r), Exact(r.anchor))
  {
    hide ParsedRecords, HasWildcard, IsExact, ProviderOf;
    ConcreteMatches(r.anchor, r.anchor);
  }

  lemma PageIsDocumented()
    ensures Documented(DISK, Exact([97]))
  {
    hide Fragments, IsCurrent, ParsedRecords, HasWildcard, ProviderOf;
    DiskFragments();
    PageIsThere();
    WithoutBracket();
    var r := PageRecord();
    ConcreteRecordIsCurrent(DISK, PAGE_PATH, PAGE, r);
    var h := Hit(ProviderOf(PAGE_PATH), PAGE_PATH, r);
    assert h.file in Fragments(DISK).value;
  }

  lemma ScanReadsAll()
    ensures CorpusHits(DISK, Exact([97])).Success?
  {
    hide Fragments, CorpusHits;
    DiskFragments();
    ScanErrs(DISK, Exact([97]));
  }

  /** The scan finds the page about `a`; with an index that names `x` the same query errs. */
  lemma {:induction false} ScanAnswersIndexErrs()
    ensures Resolved(DISK, None, Exact([97])).Success? && Resolved(DISK, None, Exact([97])).value != []
    ensures Resolved(DISK, Some(OneRecord([97], [120])), Exact([97])) == Failure
  {
    hide OneRecord, CorpusHits, Resolved, Documented, NamesUnreadable, IsUtf8;
    PageIsDocumented();
    ScanReadsAll();
    NothingNamed(DISK);
    StaleIndexIsSafe(DISK, None, Exact([97]));
    OneLetter(97);
    OneLetter(120);
    PageIsThere();
    AnyQueryCanErr(DISK, [97], [120]);
  }

  lemma WithoutBracket()
    ensures !HasWildcard([97])
  {}

  lemma OneLetter(b: byte)
    requires b < 0x80
    ensures IsUtf8([b])
  {
    assert [b][1..] == [];
  }
}
