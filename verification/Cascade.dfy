/**
  Resolving a query through the index with two fallbacks
  (crates/registry-manual/src/query.rs).
*/
module Cascade {
  import opened Bytes
  import opened Pattern
  import opened Fragment
  import opened Corpus
  import opened Scan
  import opened Specificity
  import opened Index
  import opened IndexReader

  // ----- tier 1: the recorded pointer -----

  /** The first record at the recorded offset that matches. */
  ghost function RecordAt(records: seq<Record>, offset: nat, query: Query): Option<Record> {
    if records == [] then None
    else if records[0].fenceOffset == offset && query.Accepts(records[0].anchor) then Some(records[0])
    else RecordAt(records[1..], offset, query)
  }

  ghost function HitAt(disk: Disk, loc: Location, query: Query): Option<Hit> {
    if loc.file !in disk.files || disk.files[loc.file].Unreadable? then None
    else
      match RecordAt(ParsedRecords(disk.files[loc.file].text), loc.offset, query)
      case None => None
      case Some(r) => Some(Hit(ProviderOf(loc.file), loc.file, r))
  }

  method FollowPointer(disk: Disk, loc: Location, query: Query) returns (hit: Option<Hit>)
    ensures hit == HitAt(disk, loc, query)
  {
    hide ParsedRecords, ProviderOf, IsExact, IsUnderKey;
    if loc.file !in disk.files || disk.files[loc.file].Unreadable? {
      return None;
    }
    var records, issues := Parse(disk.files[loc.file].text);
    assert records[0..] == records;
    for i := 0 to |records|
      invariant RecordAt(records, loc.offset, query) == RecordAt(records[i..], loc.offset, query)
    {
      assert records[i..][1..] == records[i + 1..];
      if records[i].fenceOffset == loc.offset {
        var found := query.Test(records[i].anchor);
        if found {
          return Some(Hit(ProviderOf(loc.file), loc.file, records[i]));
        }
      }
    }
    return None;
  }

  /** The hits of all pointers, or `None` if some pointer is stale. */
  ghost function PointerHits(disk: Disk, locs: seq<Location>, query: Query): Option<seq<Hit>> {
    if locs == [] then Some([])
    else
      var n := |locs| - 1;
      match (PointerHits(disk, locs[..n], query), HitAt(disk, locs[n], query))
      case (Some(hits), Some(h)) => Some(hits + [h])
      case _ => None
  }

  method FollowPointers(disk: Disk, locs: seq<Location>, query: Query) returns (hits: seq<Hit>, stale: bool)
    ensures PointerHits(disk, locs, query) == if stale then None else Some(hits)
  {
    hide HitAt;
    hits, stale := [], false;
    for i := 0 to |locs|
      invariant PointerHits(disk, locs[..i], query) == if stale then None else Some(hits)
    {
      assert locs[..i + 1][..i] == locs[..i];
      var hit := FollowPointer(disk, locs[i], query);
      match hit {
        case Some(h) => hits := hits + [h];
        case None => stale := true;
      }
    }
    assert locs[..|locs|] == locs;
  }

  // ----- tier 2: the files the index named -----

  function InsertDistinct(path: bytes, sorted: seq<bytes>): seq<bytes> {
    if sorted == [] || Less(path, sorted[0]) then [path] + sorted
    else if path == sorted[0] then sorted
    else [sorted[0]] + InsertDistinct(path, sorted[1..])
  }

  /** The named files, sorted and without repetition. */
  function DistinctFiles(locs: seq<Location>): seq<bytes> {
    if locs == [] then []
    else InsertDistinct(locs[|locs| - 1].file, DistinctFiles(locs[..|locs| - 1]))
  }

  lemma {:induction false} InsertDistinctIs(path: bytes, sorted: seq<bytes>)
    ensures forall p :: p in InsertDistinct(path, sorted) <==> p == path || p in sorted
  {
    hide Less;
    if sorted != [] && !Less(path, sorted[0]) && path != sorted[0] {
      InsertDistinctIs(path, sorted[1..]);
      assert sorted == [sorted[0]] + sorted[1..];
    }
  }

  ghost predicate Ascends(paths: seq<bytes>) {
    forall i, j :: 0 <= i < j < |paths| ==> Less(paths[i], paths[j])
  }

  lemma {:induction false} InsertDistinctAscends(path: bytes, sorted: seq<bytes>)
    requires Ascends(sorted)
    ensures Ascends(InsertDistinct(path, sorted))
  {
    hide Less;
    if sorted != [] {
      LessTotal(path, sorted[0]);
      if Less(path, sorted[0]) {
        forall i | 1 <= i < |sorted| ensures Less(path, sorted[i]) {
          LessTransitive(path, sorted[0], sorted[i]);
        }
      } else if path != sorted[0] {
        InsertDistinctAscends(path, sorted[1..]);
        InsertDistinctIs(path, sorted[1..]);
        var rest := InsertDistinct(path, sorted[1..]);
        forall i | 0 <= i < |rest| ensures Less(sorted[0], rest[i]) {
          assert rest[i] in rest;
        }
      }
    }
  }

  lemma {:induction false} DistinctFilesAre(locs: seq<Location>)
    ensures Ascends(DistinctFiles(locs))
    ensures forall p :: p in DistinctFiles(locs) <==> exists loc :: loc in locs && loc.file == p
  {
    hide InsertDistinct;
    if locs != [] {
      var n := |locs| - 1;
      DistinctFilesAre(locs[..n]);
      assert locs == locs[..n] + [locs[n]];
      InsertDistinctAscends(locs[n].file, DistinctFiles(locs[..n]));
      InsertDistinctIs(locs[n].file, DistinctFiles(locs[..n]));
      forall p ensures p in DistinctFiles(locs) <==> exists loc :: loc in locs && loc.file == p {
        if p == locs[n].file { assert locs[n] in locs; }
        if loc :| loc in locs[..n] && loc.file == p { assert loc in locs; }
      }
    }
  }

  // ----- the cascade -----

  ghost function Tiers(disk: Disk, locs: seq<Location>, query: Query): Result<seq<Hit>> {
    if locs == [] then CorpusHits(disk, query)
    else
      var pointers := PointerHits(disk, locs, query);
      if pointers.Some? then Success(SortHits(pointers.value))
      else
        match HitsOfFiles(disk, DistinctFiles(locs), query)
        case Failure => Failure
        case Success(hits) => if hits != [] then Success(SortHits(hits)) else CorpusHits(disk, query)
  }

  /** What the index file holds: nothing when it is missing, unreadable or not accepted. */
  ghost function Recorded(image: Option<bytes>, query: Query): seq<Location> {
    if image.None? || Decoded(image.value).None? then []
    else
      DecodedIsSound(image.value);
      Found(Decoded(image.value).value, query)
  }

  ghost function Resolved(disk: Disk, image: Option<bytes>, query: Query): Result<seq<Hit>> {
    match Tiers(disk, Recorded(image, query), query)
    case Failure => Failure
    case Success(hits) => Success(MostSpecific(hits))
  }

  lemma {:induction false} PointerCount(disk: Disk, locs: seq<Location>, query: Query)
    ensures PointerHits(disk, locs, query).Some? ==> |PointerHits(disk, locs, query).value| == |locs|
  {
    hide HitAt;
    if locs != [] {
      PointerCount(disk, locs[..|locs| - 1], query);
    }
  }

  method RunTiers(disk: Disk, locs: seq<Location>, query: Query) returns (r: Result<seq<Hit>>)
    ensures r == Tiers(disk, locs, query)
  {
    hide PointerHits, HitsOfFiles, DistinctFiles, SortHits, CorpusHits;
    if locs != [] {
      var hits, stale := FollowPointers(disk, locs, query);
      PointerCount(disk, locs, query);
      if !stale && hits != [] {
        return Success(SortHits(hits));
      }
      var found := ScanFiles(disk, DistinctFiles(locs), query);
      if found.Failure? {
        return Failure;
      }
      if found.value != [] {
        return Success(SortHits(found.value));
      }
    }
    r := ScanCorpus(disk, query);
  }

  /** `resolve_exact` and `resolve_key`. */
  method Resolve(disk: Disk, image: Option<bytes>, query: Query) returns (r: Result<seq<Hit>>)
    ensures r == Resolved(disk, image, query)
  {
    hide Tiers, Found, MostSpecific, Decoded, Sound;
    var locs := [];
    if image.Some? {
      var idx := Decode(image.value);
      if idx.Some? {
        DecodedIsSound(image.value);
        locs := Lookup(idx.value, query);
      }
    }
    var hits := RunTiers(disk, locs, query);
    if hits.Failure? {
      return Failure;
    }
    var kept := ApplySpecificity(hits.value);
    return Success(kept);
  }

  /** Filtering keeps the order. */
  lemma {:induction false} KeptInOrder(hits: seq<Hit>, all: seq<Hit>)
    requires InKeyOrder(hits)
    ensures InKeyOrder(KeepBest(hits, all)) && forall h :: h in KeepBest(hits, all) ==> h in hits
  {
    hide IsBest, NoLater;
    if hits != [] {
      var n := |hits| - 1;
      KeptInOrder(hits[..n], all);
      var front := KeepBest(hits[..n], all);
      forall i | 0 <= i < |front| ensures NoLater(front[i], hits[n]) {
        assert front[i] in hits[..n];
        var j :| 0 <= j < n && hits[..n][j] == front[i];
        assert NoLater(hits[j], hits[n]);
      }
    }
  }

  /** Every answer is ordered by provider and then by anchor, whichever tier gave it. */
  lemma {:induction false} AnswersInOrder(disk: Disk, image: Option<bytes>, query: Query)
    requires Resolved(disk, image, query).Success?
    ensures InKeyOrder(Resolved(disk, image, query).value)
  {
    hide PointerHits, HitsOfFiles, DistinctFiles, SortHits, Recorded, Fragments, InKeyOrder;
    var locs := Recorded(image, query);
    if CorpusHits(disk, query).Success? {
      SortHitsInOrder(HitsOfFiles(disk, Fragments(disk).value, query).value);
    }
    if PointerHits(disk, locs, query).Some? {
      SortHitsInOrder(PointerHits(disk, locs, query).value);
    }
    if HitsOfFiles(disk, DistinctFiles(locs), query).Success? {
      SortHitsInOrder(HitsOfFiles(disk, DistinctFiles(locs), query).value);
    }
    var hits := Tiers(disk, locs, query).value;
    KeptInOrder(hits, hits);
  }

  // ----- a stale index costs speed, not correctness -----

  /** A record its file yields now and that satisfies the query. */
  ghost predicate IsCurrent(disk: Disk, hit: Hit, query: Query) {
    && hit.file in disk.files && disk.files[hit.file].Text?
    && hit.provider == ProviderOf(hit.file)
    && hit.record in ParsedRecords(disk.files[hit.file].text)
    && query.Accepts(hit.record.anchor)
  }

  ghost predicate AllCurrent(disk: Disk, hits: seq<Hit>, query: Query) {
    forall h: Hit :: h in hits ==> IsCurrent(disk, h, query)
  }

  lemma {:induction false} RecordAtIs(records: seq<Record>, offset: nat, query: Query)
    ensures RecordAt(records, offset, query).Some? ==>
              var r := RecordAt(records, offset, query).value;
              r in records && r.fenceOffset == offset && query.Accepts(r.anchor)
    ensures RecordAt(records, offset, query).None? ==>
              forall r :: r in records && r.fenceOffset == offset ==> !query.Accepts(r.anchor)
  {
    hide IsExact, IsUnderKey;
    if records != [] {
      RecordAtIs(records[1..], offset, query);
      assert records == [records[0]] + records[1..];
    }
  }

  lemma {:induction false} PointerHitsAreCurrent(disk: Disk, locs: seq<Location>, query: Query)
    ensures PointerHits(disk, locs, query).Some? ==> AllCurrent(disk, PointerHits(disk, locs, query).value, query)
  {
    hide ParsedRecords, ProviderOf, IsExact, IsUnderKey, RecordAt;
    if locs != [] {
      var n := |locs| - 1;
      PointerHitsAreCurrent(disk, locs[..n], query);
      if HitAt(disk, locs[n], query).Some? {
        RecordAtIs(ParsedRecords(disk.files[locs[n].file].text), locs[n].offset, query);
      }
    }
  }

  lemma {:induction false} MatchingAre(file: bytes, records: seq<Record>, query: Query)
    ensures forall h: Hit :: h in Matching(file, records, query) <==>
              h.file == file && h.provider == ProviderOf(file) && h.record in records && query.Accepts(h.record.anchor)
  {
    hide ProviderOf, IsExact, IsUnderKey;
    if records != [] {
      MatchingAre(file, records[1..], query);
      assert records == [records[0]] + records[1..];
      forall h: Hit ensures h in Matching(file, records, query) <==>
              h.file == file && h.provider == ProviderOf(file) && h.record in records && query.Accepts(h.record.anchor)
      {
        assert h.file == file && h.provider == ProviderOf(file) ==> h == Hit(ProviderOf(file), file, h.record);
      }
    }
  }

  /** The hits of some files are exactly the current matches in those files. */
  lemma {:induction false} HitsOfFilesAre(disk: Disk, paths: seq<bytes>, query: Query)
    ensures HitsOfFiles(disk, paths, query).Success? ==>
              forall h: Hit :: h in HitsOfFiles(disk, paths, query).value <==>
                h.file in paths && IsCurrent(disk, h, query)
  {
    hide ParsedRecords, ProviderOf, IsExact, IsUnderKey, Matching;
    if paths != [] {
      var n := |paths| - 1;
      HitsOfFilesAre(disk, paths[..n], query);
      assert paths == paths[..n] + [paths[n]];
      if paths[n] in disk.files && disk.files[paths[n]].Text? {
        MatchingAre(paths[n], ParsedRecords(disk.files[paths[n]].text), query);
      }
    }
  }

  /** Some fragment of the corpus holds a match. */
  ghost predicate Documented(disk: Disk, query: Query) {
    Fragments(disk).Success? &&
    exists h: Hit :: h.file in Fragments(disk).value && IsCurrent(disk, h, query)
  }

  lemma CorpusHitsAre(disk: Disk, query: Query)
    ensures CorpusHits(disk, query).Success? ==>
              && Fragments(disk).Success?
              && forall h: Hit :: h in CorpusHits(disk, query).value <==>
                   h.file in Fragments(disk).value && IsCurrent(disk, h, query)
  {
    hide Fragments, HitsOfFiles, SortHits, IsCurrent;
    if CorpusHits(disk, query).Success? {
      HitsOfFilesAre(disk, Fragments(disk).value, query);
      SortHitsMembers(HitsOfFiles(disk, Fragments(disk).value, query).value);
    }
  }

  /** Whichever tier answers, it answers with current matches. */
  lemma {:induction false} TiersAreCurrent(disk: Disk, locs: seq<Location>, query: Query)
    requires Tiers(disk, locs, query).Success?
    ensures AllCurrent(disk, Tiers(disk, locs, query).value, query)
    ensures Documented(disk, query) ==> Tiers(disk, locs, query).value != []
  {
    hide Fragments, HitsOfFiles, SortHits, IsCurrent, CorpusHits, PointerHits, DistinctFiles;
    CorpusHitsAre(disk, query);
    if locs != [] {
      PointerCount(disk, locs, query);
      PointerHitsAreCurrent(disk, locs, query);
      HitsOfFilesAre(disk, DistinctFiles(locs), query);
      var pointers := PointerHits(disk, locs, query);
      if pointers.Some? {
        SortHitsMembers(pointers.value);
      } else if HitsOfFiles(disk, DistinctFiles(locs), query).Success? {
        SortHitsMembers(HitsOfFiles(disk, DistinctFiles(locs), query).value);
      }
    }
  }

  // ----- when it errs -----

  ghost predicate AnyUnreadable(disk: Disk, paths: seq<bytes>) {
    exists p :: p in paths && p in disk.files && disk.files[p].Unreadable?
  }

  /** Files are read up to the first that cannot be; one that is gone does no harm. */
  lemma {:induction false} HitsOfFilesFail(disk: Disk, paths: seq<bytes>, query: Query)
    ensures HitsOfFiles(disk, paths, query).Failure? <==> AnyUnreadable(disk, paths)
  {
    hide Matching, ParsedRecords;
    if paths != [] {
      var n := |paths| - 1;
      HitsOfFilesFail(disk, paths[..n], query);
      assert paths == paths[..n] + [paths[n]];
    }
  }

  /** The scan errs iff the directory cannot be listed or one of its fragments cannot be read. */
  lemma ScanErrs(disk: Disk, query: Query)
    ensures CorpusHits(disk, query).Failure? <==>
            Fragments(disk).Failure? || AnyUnreadable(disk, Fragments(disk).value)
  {
    hide Fragments, HitsOfFiles, SortHits, AnyUnreadable;
    if Fragments(disk).Success? {
      HitsOfFilesFail(disk, Fragments(disk).value, query);
    }
  }

  ghost predicate Named(locs: seq<Location>, file: bytes) {
    exists loc :: loc in locs && loc.file == file
  }

  /** Some named file holds a match. */
  ghost predicate NamedMatch(disk: Disk, locs: seq<Location>, query: Query) {
    exists h: Hit :: Named(locs, h.file) && IsCurrent(disk, h, query)
  }

  /** Some named file is there and cannot be read. */
  ghost predicate NamesUnreadable(disk: Disk, locs: seq<Location>) {
    exists loc :: loc in locs && loc.file in disk.files && disk.files[loc.file].Unreadable?
  }

  /** A pointer into a file that cannot be read is stale. */
  lemma {:induction false} UnreadableIsStale(disk: Disk, locs: seq<Location>, query: Query)
    requires NamesUnreadable(disk, locs)
    ensures PointerHits(disk, locs, query).None?
  {
    hide ParsedRecords, ProviderOf, RecordAt;
    var n := |locs| - 1;
    assert locs == locs[..n] + [locs[n]];
    if HitAt(disk, locs[n], query).Some? {
      UnreadableIsStale(disk, locs[..n], query);
    }
  }

  lemma NamedFilesFail(disk: Disk, locs: seq<Location>, query: Query)
    ensures HitsOfFiles(disk, DistinctFiles(locs), query).Failure? <==> NamesUnreadable(disk, locs)
  {
    hide DistinctFiles, HitsOfFiles;
    DistinctFilesAre(locs);
    HitsOfFilesFail(disk, DistinctFiles(locs), query);
  }

  lemma NamedFilesFind(disk: Disk, locs: seq<Location>, query: Query)
    requires !NamesUnreadable(disk, locs)
    ensures HitsOfFiles(disk, DistinctFiles(locs), query).Success?
    ensures var hits := HitsOfFiles(disk, DistinctFiles(locs), query).value;
            && (forall h: Hit :: h in hits <==> Named(locs, h.file) && IsCurrent(disk, h, query))
            && (hits != [] <==> NamedMatch(disk, locs, query))
  {
    hide DistinctFiles, HitsOfFiles, IsCurrent, NamesUnreadable;
    DistinctFilesAre(locs);
    NamedFilesFail(disk, locs, query);
    HitsOfFilesAre(disk, DistinctFiles(locs), query);
    var hits := HitsOfFiles(disk, DistinctFiles(locs), query).value;
    if hits != [] {
      assert hits[0] in hits;
    }
  }

  /** The scan is reached and errs, or a named file that cannot be read keeps it from being reached. */
  ghost predicate Errs(disk: Disk, locs: seq<Location>, query: Query) {
    || NamesUnreadable(disk, locs)
    || (CorpusHits(disk, query).Failure?
        && (locs == [] || (PointerHits(disk, locs, query).None? && !NamedMatch(disk, locs, query))))
  }

  /** Exactly when the cascade errs. */
  lemma {:induction false} TiersErr(disk: Disk, locs: seq<Location>, query: Query)
    ensures Tiers(disk, locs, query).Failure? <==> Errs(disk, locs, query)
  {
    hide DistinctFiles, HitsOfFiles, PointerHits, CorpusHits, NamesUnreadable, NamedMatch, SortHits;
    if locs == [] {
      assert !NamesUnreadable(disk, locs) by { NothingNamed(disk); }
    } else if NamesUnreadable(disk, locs) {
      UnreadableIsStale(disk, locs, query);
      NamedFilesFail(disk, locs, query);
    } else {
      NamedFilesFind(disk, locs, query);
    }
  }

  lemma NothingNamed(disk: Disk)
    ensures !NamesUnreadable(disk, [])
  {}

  /**
    Whatever the index file holds and however the disk has changed since: the query is
    answered, with current matches and with some if it is documented, or it errs, which
    it does exactly when `Errs`.
  */
  lemma {:induction false} StaleIndexIsSafe(disk: Disk, image: Option<bytes>, query: Query)
    ensures match Resolved(disk, image, query)
            case Success(hits) =>
              && !Errs(disk, Recorded(image, query), query)
              && AllCurrent(disk, hits, query)
              && (Documented(disk, query) ==> hits != [])
            case Failure => Errs(disk, Recorded(image, query), query)
  {
    hide Fragments, IsCurrent, MostSpecific, Recorded, Tiers, Errs;
    var locs := Recorded(image, query);
    TiersErr(disk, locs, query);
    if Tiers(disk, locs, query).Success? {
      TiersAreCurrent(disk, locs, query);
      MostSpecificIsNonempty(Tiers(disk, locs, query).value);
    }
  }

  /**
    What a stale index can cost: a query the scan answers is answered with it too,
    except exactly when a file it names for the query is there and cannot be read.
  */
  lemma {:induction false} StaleIndexCosts(disk: Disk, image: Option<bytes>, query: Query)
    requires Resolved(disk, None, query).Success?
    ensures Resolved(disk, image, query).Failure? <==> NamesUnreadable(disk, Recorded(image, query))
  {
    hide CorpusHits, NamesUnreadable, NamedMatch, PointerHits, Tiers, MostSpecific;
    TiersErr(disk, [], query);
    TiersErr(disk, Recorded(image, query), query);
  }

  /**
    If the tier that answers an exact query finds a page of some kind that names no
    family, the answers of that kind are the found pages about the query itself.
  */
  lemma ConcretePageAnswers(disk: Disk, image: Option<bytes>, query: bytes, concrete: Hit, h: Hit)
    requires Resolved(disk, image, Exact(query)).Success?
    requires concrete in Tiers(disk, Recorded(image, Exact(query)), Exact(query)).value
    requires !HasWildcard(concrete.record.anchor) && h.record.Kind() == concrete.record.Kind()
    ensures h in Resolved(disk, image, Exact(query)).value <==>
              h in Tiers(disk, Recorded(image, Exact(query)), Exact(query)).value && h.record.anchor == query
  {
    hide Tiers, Recorded, MostSpecific, HasWildcard, IsExact, ParsedRecords, ProviderOf;
    var locs := Recorded(image, Exact(query));
    TiersAreCurrent(disk, locs, Exact(query));
    ConcretePagesStay(Tiers(disk, locs, Exact(query)).value, query, concrete, h);
  }

  /**
    For any index and any query, the answers are exactly the hits of the tier that
    answers than which none of the same kind is more specific.
  */
  lemma NarrowestAnswer(disk: Disk, image: Option<bytes>, query: Query, h: Hit)
    requires Resolved(disk, image, query).Success?
    ensures var hits := Tiers(disk, Recorded(image, query), query).value;
            h in Resolved(disk, image, query).value <==>
            h in hits && forall g :: g in hits && g.record.Kind() == h.record.Kind()
                           ==> !MoreSpecific(g.record.anchor, h.record.anchor)
  {
    hide Tiers, Recorded, MostSpecific, MoreSpecific;
    NarrowestAreKept(Tiers(disk, Recorded(image, query), query).value, h);
  }

  /** A page is gone if another of its kind is as narrow up to a component in which it is narrower, whatever follows. */
  lemma BroaderPageLoses(disk: Disk, image: Option<bytes>, query: Query, narrow: Hit, broad: Hit, i: nat)
    requires Resolved(disk, image, query).Success?
    requires narrow in Tiers(disk, Recorded(image, query), query).value
    requires narrow.record.Kind() == broad.record.Kind()
    requires var cs, ds := Split(narrow.record.anchor), Split(broad.record.anchor);
             && i < |cs| && i < |ds| && cs[..i] == ds[..i]
             && if LT in cs[i] then !HasSpanning(cs[i]) && HasSpanning(ds[i]) else LT in ds[i]
    ensures broad !in Resolved(disk, image, query).value
  {
    hide Tiers, Recorded, MostSpecific, Split, HasSpanning;
    NarrowestAnswer(disk, image, query, broad);
    var cs, ds := Split(narrow.record.anchor), Split(broad.record.anchor);
    forall j | 0 <= j < i ensures Alike(cs[j], ds[j]) {
      assert cs[..i][j] == ds[..i][j];
    }
    assert NarrowerAt(cs, ds, i);
  }
}
