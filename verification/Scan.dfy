/**
  The authoritative lookup (crates/registry-manual/src/scan.rs): parse every fragment
  that survives a byte pre-scan and keep the records that match.
*/
module Scan {
  import opened Bytes
  import opened Utf8
  import opened Pattern
  import opened Fragment
  import opened Corpus

  datatype Hit = Hit(provider: bytes, file: bytes, record: Record)

  // ----- one file -----

  ghost function Matching(file: bytes, records: seq<Record>, query: Query): seq<Hit> {
    if records == [] then []
    else
      (if query.Accepts(records[0].anchor) then [Hit(ProviderOf(file), file, records[0])] else [])
      + Matching(file, records[1..], query)
  }

  /** Parse, then filter; a file that is gone contributes nothing. */
  ghost function FileHits(disk: Disk, file: bytes, query: Query): Result<seq<Hit>> {
    if file !in disk.files then Success([])
    else
      match disk.files[file]
      case Unreadable => Failure
      case Text(text) => Success(Matching(file, ParsedRecords(text), query))
  }

  predicate OccursAt(text: bytes, needle: bytes, i: nat) {
    i + |needle| <= |text| && text[i..i + |needle|] == needle
  }

  predicate Contains(text: bytes, needle: bytes) {
    exists i :: 0 <= i <= |text| && OccursAt(text, needle, i)
  }

  /** The anchor of a record is part of the text. */
  lemma {:induction false} AnchorInText(text: bytes, r: Record)
    requires r in ParsedRecords(text)
    ensures Contains(text, r.anchor)
  {
    hide ParsedRecords, LineLength, Trim;
    RecordOffsets(text, r);
    var at := r.fenceOffset;
    var line := LineAt(text, at);
    FenceAnchorInLine(line);
    var j :| 0 <= j <= |line| && OccursAt(line, r.anchor, j);
    assert line == text[at..at + |line|];
    SubSlice(text, at, line, j, j + |r.anchor|);
    assert OccursAt(text, r.anchor, at + j);
  }

  lemma FenceAnchorInLine(line: bytes)
    requires FenceAnchor(line).Some?
    ensures Contains(line, FenceAnchor(line).value)
  {
    hide Trim, Contains;
    var rest := line[|FENCE|..];
    var lead, trail := TrimIs(rest);
    assert line == line[..|FENCE|] + rest;
    MiddleIsContained(line[..|FENCE|], lead, Trim(rest), trail);
  }

  lemma MiddleIsContained(start: bytes, lead: bytes, middle: bytes, trail: bytes)
    ensures Contains(start + (lead + middle + trail), middle)
  {
    var all := start + (lead + middle + trail);
    assert OccursAt(all, middle, |start| + |lead|);
  }

  lemma ContainsPart(text: bytes, whole: bytes, part: bytes)
    requires Contains(text, whole) && part <= whole
    ensures Contains(text, part)
  {
    var i :| 0 <= i <= |text| && OccursAt(text, whole, i);
    assert text[i..i + |part|] == whole[..|part|];
    assert OccursAt(text, part, i);
  }

  lemma PartByte(text: bytes, part: bytes, b: byte)
    requires Contains(text, part) && b in part
    ensures b in text
  {
    var i :| 0 <= i <= |text| && OccursAt(text, part, i);
    var j :| 0 <= j < |part| && part[j] == b;
    assert text[i..i + |part|][j] == text[i + j];
  }

  /** A file with a match holds the query bytes or a `<`. */
  lemma {:induction false} PreScanLosesNothing(text: bytes, r: Record, query: Query)
    requires r in ParsedRecords(text) && query.Accepts(r.anchor)
    ensures Contains(text, query.text) || LT in text
  {
    hide ParsedRecords, IsExact, IsUnderKey, OccursAt;
    AnchorInText(text, r);
    if HasWildcard(r.anchor) {
      PartByte(text, r.anchor, LT);
    } else {
      ConcreteMatches(r.anchor, query.text);
      ContainsPart(text, r.anchor, query.text);
    }
  }

  lemma {:induction false} NothingMatches(file: bytes, records: seq<Record>, query: Query)
    requires forall r :: r in records ==> !query.Accepts(r.anchor)
    ensures Matching(file, records, query) == []
  {
    if records != [] {
      NothingMatches(file, records[1..], query);
    }
  }

  method ScanFile(disk: Disk, file: bytes, query: Query) returns (r: Result<seq<Hit>>)
    ensures r == FileHits(disk, file, query)
  {
    hide ParsedRecords, ProviderOf, Contains, IsExact, IsUnderKey, Matching;
    if file !in disk.files {
      return Success([]);
    }
    match disk.files[file] {
      case Unreadable => return Failure;
      case Text(text) =>
        if !Contains(text, query.text) && LT !in text {
          forall r | r in ParsedRecords(text) ensures !query.Accepts(r.anchor) {
            RejectedByPreScan(text, r, query);
          }
          NothingMatches(file, ParsedRecords(text), query);
          return Success([]);
        }
        var records, issues := Parse(text);
        var hits := KeepMatching(file, records, query);
        return Success(hits);
    }
  }

  method KeepMatching(file: bytes, records: seq<Record>, query: Query) returns (hits: seq<Hit>)
    ensures hits == Matching(file, records, query)
  {
    hide ProviderOf, IsExact, IsUnderKey;
    hits := [];
    assert records[0..] == records;
    for i := 0 to |records|
      invariant hits + Matching(file, records[i..], query) == Matching(file, records, query)
    {
      assert records[i..][1..] == records[i + 1..];
      var found := query.Test(records[i].anchor);
      if found {
        hits := hits + [Hit(ProviderOf(file), file, records[i])];
      }
    }
  }

  lemma {:induction false} RejectedByPreScan(text: bytes, r: Record, query: Query)
    requires r in ParsedRecords(text) && !Contains(text, query.text) && LT !in text
    ensures !query.Accepts(r.anchor)
  {
    hide ParsedRecords, Contains;
    if query.Accepts(r.anchor) {
      PreScanLosesNothing(text, r, query);
    }
  }

  /** `<a b>`, an anchor a fence line may carry. */
  const SPACED: bytes := [LT] + [97, SPACE, 98] + [GT] + []

  /** The anchor of that fence line is not found by its own spelling. */
  lemma SpacedAnchorMissesItself()
    ensures FenceAnchor(FENCE + SPACED) == Some(SPACED)
    ensures !IsExact(SPACED, SPACED)
  {
    hide Tokens, Spelling, IsExact, FenceAnchor, HasSpanning, CleanPlaceholders;
    SpacedFence();
    SpacedToken();
    OwnSpelling(SPACED);
  }

  lemma SpacedToken()
    ensures |Tokens(SPACED)| > 0 && Tokens(SPACED)[0].Wildcard? && SPACE in Spelling(SPACED)[0]
  {
    hide Tokens, Spelling;
    LeadingPlaceholder([97, SPACE, 98], []);
    assert Spelling(SPACED)[0] == [LT] + [97, SPACE, 98] + [GT];
    assert Spelling(SPACED)[0][2] == SPACE;
  }

  lemma SpacedIsTrimmed()
    ensures Trim(SPACED) == SPACED
  {
    assert SPACED[4] == GT && SPACED[3] == 98;
    assert SpaceWidth(SPACED) == 0;
    assert SpaceWidth(SPACED[4..]) == 0 && SpaceWidth(SPACED[3..]) == 0 && SpaceWidth(SPACED[2..]) == 1;
    assert LastSpaceWidth(SPACED) == 0;
  }

  lemma SpacedFence()
    ensures FenceAnchor(FENCE + SPACED) == Some(SPACED)
  {
    hide TrimStart, TrimEnd, SpaceWidth;
    var line := FENCE + SPACED;
    assert line[|FENCE|..] == SPACED && StartsWith(line, FENCE);
    SpacedIsTrimmed();
  }

  // ----- the whole corpus -----

  ghost function HitsOfFiles(disk: Disk, paths: seq<bytes>, query: Query): Result<seq<Hit>> {
    if paths == [] then Success([])
    else
      var n := |paths| - 1;
      match HitsOfFiles(disk, paths[..n], query)
      case Failure => Failure
      case Success(before) =>
        match FileHits(disk, paths[n], query)
        case Failure => Failure
        case Success(more) => Success(before + more)
  }

  method ScanFiles(disk: Disk, paths: seq<bytes>, query: Query) returns (r: Result<seq<Hit>>)
    ensures r == HitsOfFiles(disk, paths, query)
  {
    hide FileHits;
    var hits := [];
    for i := 0 to |paths|
      invariant HitsOfFiles(disk, paths[..i], query) == Success(hits)
    {
      assert paths[..i + 1][..i] == paths[..i];
      var more := ScanFile(disk, paths[i], query);
      if more.Failure? {
        FailureSpreads(disk, paths, i + 1, query);
        return Failure;
      }
      hits := hits + more.value;
    }
    assert paths[..|paths|] == paths;
    return Success(hits);
  }

  lemma {:induction false} FailureSpreads(disk: Disk, paths: seq<bytes>, n: nat, query: Query)
    requires n <= |paths| && HitsOfFiles(disk, paths[..n], query) == Failure
    ensures HitsOfFiles(disk, paths, query) == Failure
    decreases |paths| - n
  {
    if n == |paths| {
      assert paths[..n] == paths;
    } else {
      assert paths[..n + 1][..n] == paths[..n];
      FailureSpreads(disk, paths, n + 1, query);
    }
  }

  // ----- the stable sort by provider and anchor -----

  predicate KeyLess(a: Hit, b: Hit) {
    Less(a.provider, b.provider)
    || (a.provider == b.provider && Less(a.record.anchor, b.record.anchor))
  }

  function InsertHit(hit: Hit, sorted: seq<Hit>): seq<Hit> {
    if sorted == [] || !KeyLess(sorted[0], hit) then [hit] + sorted
    else [sorted[0]] + InsertHit(hit, sorted[1..])
  }

  function SortHits(hits: seq<Hit>): seq<Hit> {
    if hits == [] then [] else InsertHit(hits[0], SortHits(hits[1..]))
  }

  /** Every match of the corpus, sorted. */
  ghost function CorpusHits(disk: Disk, query: Query): Result<seq<Hit>> {
    match Fragments(disk)
    case Failure => Failure
    case Success(paths) =>
      match HitsOfFiles(disk, paths, query)
      case Failure => Failure
      case Success(hits) => Success(SortHits(hits))
  }

  method ScanCorpus(disk: Disk, query: Query) returns (r: Result<seq<Hit>>)
    ensures r == CorpusHits(disk, query)
  {
    hide HitsOfFiles, Fragments, SortHits;
    var paths := ListFragments(disk);
    if paths.Failure? {
      return Failure;
    }
    var hits := ScanFiles(disk, paths.value, query);
    if hits.Failure? {
      return Failure;
    }
    return Success(SortHits(hits.value));
  }

  // ----- what the sort does -----

  lemma {:induction false} InsertHitMembers(hit: Hit, sorted: seq<Hit>)
    ensures forall h :: h in InsertHit(hit, sorted) <==> h == hit || h in sorted
    ensures |InsertHit(hit, sorted)| == |sorted| + 1
  {
    hide KeyLess;
    if sorted != [] && KeyLess(sorted[0], hit) {
      InsertHitMembers(hit, sorted[1..]);
      assert sorted == [sorted[0]] + sorted[1..];
    }
  }

  lemma {:induction false} SortHitsMembers(hits: seq<Hit>)
    ensures forall h :: h in SortHits(hits) <==> h in hits
    ensures |SortHits(hits)| == |hits|
  {
    if hits != [] {
      SortHitsMembers(hits[1..]);
      InsertHitMembers(hits[0], SortHits(hits[1..]));
      assert hits == [hits[0]] + hits[1..];
    }
  }

  predicate SameKey(a: Hit, b: Hit) {
    a.provider == b.provider && a.record.anchor == b.record.anchor
  }

  /** The sort key refined by the record offset. */
  ghost predicate Before(a: Hit, b: Hit) {
    KeyLess(a, b) || (SameKey(a, b) && a.record.fenceOffset < b.record.fenceOffset)
  }

  ghost predicate StrictlySorted(hits: seq<Hit>) {
    forall i, j :: 0 <= i < j < |hits| ==> Before(hits[i], hits[j])
  }

  /** Hits with the same key come in file order. */
  ghost predicate OffsetStable(hits: seq<Hit>) {
    forall i, j :: 0 <= i < j < |hits| && SameKey(hits[i], hits[j])
      ==> hits[i].record.fenceOffset < hits[j].record.fenceOffset
  }

  lemma KeyLessTransitive(a: Hit, b: Hit, c: Hit)
    requires KeyLess(a, b) && KeyLess(b, c)
    ensures KeyLess(a, c)
  {
    hide Less;
    if Less(a.provider, b.provider) && Less(b.provider, c.provider) {
      LessTransitive(a.provider, b.provider, c.provider);
    } else if a.provider == b.provider == c.provider {
      LessTransitive(a.record.anchor, b.record.anchor, c.record.anchor);
    }
  }

  lemma KeyTotal(a: Hit, b: Hit)
    ensures KeyLess(a, b) || SameKey(a, b) || KeyLess(b, a)
  {
    LessTotal(a.provider, b.provider);
    LessTotal(a.record.anchor, b.record.anchor);
  }

  ghost predicate InKeyOrder(hits: seq<Hit>) {
    forall i, j :: 0 <= i < j < |hits| ==> NoLater(hits[i], hits[j])
  }

  /** By provider, and for one provider by anchor. */
  predicate NoLater(a: Hit, b: Hit) {
    Less(a.provider, b.provider) || (a.provider == b.provider && AtMost(a.record.anchor, b.record.anchor))
  }

  lemma NoLaterIs(a: Hit, b: Hit)
    ensures NoLater(a, b) <==> !KeyLess(b, a)
  {
    hide Less;
    LessTotal(a.provider, b.provider);
    if Less(a.provider, b.provider) { LessAsymmetric(a.provider, b.provider); }
    LessIrreflexive(a.provider);
  }

  lemma NoLaterTransitive(a: Hit, b: Hit, c: Hit)
    requires NoLater(a, b) && NoLater(b, c)
    ensures NoLater(a, c)
  {
    hide Less;
    if a.provider != b.provider && b.provider != c.provider {
      LessTransitive(a.provider, b.provider, c.provider);
    } else if a.provider == b.provider == c.provider {
      LessIrreflexive(a.provider);
      LessTotal(b.record.anchor, c.record.anchor);
      if Less(b.record.anchor, c.record.anchor) {
        AtMostLessTransitive(a.record.anchor, b.record.anchor, c.record.anchor);
        LessAsymmetric(a.record.anchor, c.record.anchor);
      }
    }
  }

  lemma {:induction false} InsertKeepsOrder(hit: Hit, sorted: seq<Hit>)
    requires InKeyOrder(sorted)
    ensures InKeyOrder(InsertHit(hit, sorted))
  {
    hide KeyLess, Less, AtMost;
    if sorted != [] {
      NoLaterIs(hit, sorted[0]);
      if KeyLess(sorted[0], hit) {
        InsertKeepsOrder(hit, sorted[1..]);
        InsertHitMembers(hit, sorted[1..]);
        var rest := InsertHit(hit, sorted[1..]);
        BeforeIsNoLater(sorted[0], hit);
        forall i | 0 <= i < |rest| ensures NoLater(sorted[0], rest[i]) {
          assert rest[i] in rest;
        }
      } else {
        forall i | 1 <= i < |sorted| ensures NoLater(hit, sorted[i]) {
          NoLaterTransitive(hit, sorted[0], sorted[i]);
        }
      }
    }
  }

  lemma BeforeIsNoLater(a: Hit, b: Hit)
    requires KeyLess(a, b)
    ensures NoLater(a, b)
  {
    hide Less;
    if a.provider == b.provider {
      LessIrreflexive(a.provider);
      LessAsymmetric(a.record.anchor, b.record.anchor);
    }
  }

  /** The sort orders any hits. */
  lemma {:induction false} SortHitsInOrder(hits: seq<Hit>)
    ensures InKeyOrder(SortHits(hits))
  {
    hide InsertHit;
    if hits != [] {
      SortHitsInOrder(hits[1..]);
      InsertKeepsOrder(hits[0], SortHits(hits[1..]));
    }
  }

  lemma BeforeTransitive(a: Hit, b: Hit, c: Hit)
    requires Before(a, b) && Before(b, c)
    ensures Before(a, c)
  {
    hide Less;
    if KeyLess(a, b) && KeyLess(b, c) {
      KeyLessTransitive(a, b, c);
    }
  }

  lemma BeforeIrreflexive(a: Hit)
    ensures !Before(a, a)
  {
    LessIrreflexive(a.provider);
    LessIrreflexive(a.record.anchor);
  }

  lemma {:induction false} InsertHitSorted(hit: Hit, sorted: seq<Hit>)
    requires StrictlySorted(sorted)
    requires forall i :: 0 <= i < |sorted| && SameKey(hit, sorted[i])
               ==> hit.record.fenceOffset < sorted[i].record.fenceOffset
    ensures StrictlySorted(InsertHit(hit, sorted))
  {
    hide KeyLess, SameKey;
    if sorted != [] {
      KeyTotal(hit, sorted[0]);
      if KeyLess(sorted[0], hit) {
        InsertHitSorted(hit, sorted[1..]);
        InsertHitMembers(hit, sorted[1..]);
        var rest := InsertHit(hit, sorted[1..]);
        forall i | 0 <= i < |rest| ensures Before(sorted[0], rest[i]) {
          assert rest[i] in rest;
        }
      } else {
        assert Before(hit, sorted[0]);
        forall i | 1 <= i < |sorted| ensures Before(hit, sorted[i]) {
          BeforeTransitive(hit, sorted[0], sorted[i]);
        }
      }
    }
  }

  /** A stable sort of hits in file order leaves no ties. */
  lemma {:induction false} SortHitsSorted(hits: seq<Hit>)
    requires OffsetStable(hits)
    ensures StrictlySorted(SortHits(hits))
  {
    hide KeyLess, SameKey, InsertHit, Before;
    if hits != [] {
      SortHitsSorted(hits[1..]);
      SortHitsMembers(hits[1..]);
      var rest := SortHits(hits[1..]);
      forall i | 0 <= i < |rest| && SameKey(hits[0], rest[i])
        ensures hits[0].record.fenceOffset < rest[i].record.fenceOffset
      {
        assert rest[i] in hits[1..];
        var j :| 0 <= j < |hits[1..]| && hits[1..][j] == rest[i];
        assert hits[j + 1] == rest[i];
      }
      InsertHitSorted(hits[0], rest);
    }
  }

  lemma BeforeSameKey(a: Hit, b: Hit)
    requires Before(a, b) && SameKey(a, b)
    ensures a.record.fenceOffset < b.record.fenceOffset
  {
    LessIrreflexive(a.provider);
    LessIrreflexive(a.record.anchor);
  }

  lemma KeyLessDiffers(a: Hit, b: Hit)
    requires KeyLess(a, b)
    ensures !SameKey(b, a)
  {
    LessIrreflexive(a.provider);
    LessIrreflexive(a.record.anchor);
  }

  lemma {:induction false} InsertedInOrder(hit: Hit, sorted: seq<Hit>)
    requires StrictlySorted(InsertHit(hit, sorted))
    ensures StrictlySorted(sorted)
    ensures forall i :: 0 <= i < |sorted| && SameKey(hit, sorted[i])
              ==> hit.record.fenceOffset < sorted[i].record.fenceOffset
  {
    hide KeyLess, SameKey, Before;
    if sorted != [] {
      var whole := InsertHit(hit, sorted);
      if KeyLess(sorted[0], hit) {
        var rest := InsertHit(hit, sorted[1..]);
        forall i, j | 0 <= i < j < |rest| ensures Before(rest[i], rest[j]) {
          assert Before(whole[i + 1], whole[j + 1]);
        }
        InsertedInOrder(hit, sorted[1..]);
        InsertHitMembers(hit, sorted[1..]);
        KeyLessDiffers(sorted[0], hit);
        forall i | 1 <= i < |sorted| ensures Before(sorted[0], sorted[i]) {
          assert sorted[1..][i - 1] in rest;
          var j :| 0 <= j < |rest| && rest[j] == sorted[i];
          assert Before(whole[0], whole[j + 1]);
        }
      } else {
        forall i, j | 0 <= i < j < |sorted| ensures Before(sorted[i], sorted[j]) {
          assert Before(whole[i + 1], whole[j + 1]);
        }
        forall i | 0 <= i < |sorted| && SameKey(hit, sorted[i])
          ensures hit.record.fenceOffset < sorted[i].record.fenceOffset
        {
          assert Before(whole[0], whole[i + 1]);
          BeforeSameKey(hit, sorted[i]);
        }
      }
    }
  }

  /** Only hits in file order sort without ties. */
  lemma {:induction false} SortedMeansStable(hits: seq<Hit>)
    requires StrictlySorted(SortHits(hits))
    ensures OffsetStable(hits)
  {
    hide KeyLess, SameKey, InsertHit, Before;
    if hits != [] {
      var rest := SortHits(hits[1..]);
      InsertedInOrder(hits[0], rest);
      SortedMeansStable(hits[1..]);
      SortHitsMembers(hits[1..]);
      forall i, j | 0 <= i < j < |hits| && SameKey(hits[i], hits[j])
        ensures hits[i].record.fenceOffset < hits[j].record.fenceOffset
      {
        if i == 0 {
          assert hits[1..][j - 1] in rest;
          var k :| 0 <= k < |rest| && rest[k] == hits[j];
        } else {
          assert hits[1..][i - 1] == hits[i] && hits[1..][j - 1] == hits[j];
        }
      }
    }
  }

  /** A strictly sorted list is determined by its members. */
  lemma {:induction false} SortedUnique(a: seq<Hit>, b: seq<Hit>)
    requires StrictlySorted(a) && StrictlySorted(b)
    requires forall h :: h in a <==> h in b
    ensures a == b
  {
    hide Before;
    if a == [] {
      NoMembers(b);
    } else {
      assert a[0] in b;
      assert b[0] in a;
      HeadsAgree(a, b);
      assert a == [a[0]] + a[1..] && b == [b[0]] + b[1..];
      forall h ensures h in a[1..] <==> h in b[1..] {
        BeforeIrreflexive(a[0]);
        TailMembers(a, h);
        TailMembers(b, h);
      }
      SortedUnique(a[1..], b[1..]);
    }
  }

  lemma NoMembers(b: seq<Hit>)
    requires forall h :: h !in b
    ensures b == []
  {
    assert forall h :: h in multiset(b) ==> h in b;
    assert multiset(b) == multiset{};
    assert |multiset(b)| == |b|;
  }

  lemma TailMembers(a: seq<Hit>, h: Hit)
    requires StrictlySorted(a) && a != []
    ensures h in a[1..] <==> h in a && h != a[0]
  {
    hide Before;
    BeforeIrreflexive(a[0]);
    assert a == [a[0]] + a[1..];
    forall i | 0 <= i < |a[1..]| ensures a[1..][i] != a[0] {
      assert Before(a[0], a[i + 1]);
    }
  }

  lemma HeadsAgree(a: seq<Hit>, b: seq<Hit>)
    requires StrictlySorted(a) && StrictlySorted(b) && a != [] && b != []
    requires a[0] in b && b[0] in a
    ensures a[0] == b[0]
  {
    hide Before;
    var j :| 0 <= j < |b| && b[j] == a[0];
    var k :| 0 <= k < |a| && a[k] == b[0];
    if j > 0 && k > 0 {
      BeforeTransitive(a[0], b[0], a[0]);
      BeforeIrreflexive(a[0]);
    }
  }

  /** Two lists of the same hits, each in file order, sort to the same list. */
  lemma SortsAgree(a: seq<Hit>, b: seq<Hit>)
    requires OffsetStable(a) && OffsetStable(b) && forall h :: h in a <==> h in b
    ensures SortHits(a) == SortHits(b)
  {
    hide SortHits, OffsetStable, StrictlySorted;
    SortHitsSorted(a);
    SortHitsSorted(b);
    SortHitsMembers(a);
    SortHitsMembers(b);
    SortedUnique(SortHits(a), SortHits(b));
  }
}
