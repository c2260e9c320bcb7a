/**
  Decoding an index image and looking anchors up in it
  (`decode`, `validate_records`, `lower_bound`, `lookup_exact`, `lookup_key`).
*/
module IndexReader {
  import opened Bytes
  import opened Utf8
  import opened LittleEndian
  import opened Pattern
  import opened Anchors
  import opened Index

  // ----- validation -----

  lemma {:induction false} ValidPrefix(idx: Index, anchOff: nat, locCount: nat, n: nat, m: nat)
    requires Framed(idx, locCount) && n <= m <= idx.entries
    requires ValidUpTo(idx, anchOff, locCount, m)
    ensures ValidUpTo(idx, anchOff, locCount, n)
  {
    hide Field, AnchorAt, WildAt, DescriptorOk, Less;
    var all := AnchorsUpTo(idx, anchOff, locCount, m);
    assert AnchorsUpTo(idx, anchOff, locCount, n) == all[..n];
    PickPrefix(all, WithPlaceholder, n);
  }

  lemma SortedSnoc(anchors: seq<bytes>, a: bytes)
    requires Sorted(anchors)
    ensures Sorted(anchors + [a]) <==> anchors == [] || Less(anchors[|anchors| - 1], a)
  {
    var n := |anchors|;
    if n > 0 && Less(anchors[n - 1], a) {
      forall i | 0 <= i < n - 1 ensures Less(anchors[i], a) {
        LessTransitive(anchors[i], anchors[n - 1], a);
      }
    }
    assert Sorted(anchors + [a]) && n > 0 ==> Less((anchors + [a])[n - 1], (anchors + [a])[n]);
  }

  /** The checks made for descriptor `i` are exactly what is still missing. */
  lemma {:induction false} ValidStep(idx: Index, anchOff: nat, locCount: nat, i: nat)
    requires Framed(idx, locCount) && i < idx.entries && ValidUpTo(idx, anchOff, locCount, i)
    ensures var before := AnchorsUpTo(idx, anchOff, locCount, i);
            var w := |Pick(before, WithPlaceholder)|;
            ValidUpTo(idx, anchOff, locCount, i + 1) <==>
            && DescriptorOk(idx, anchOff, locCount, i)
            && (i > 0 ==> Less(before[i - 1], AnchorAt(idx, i)))
            && (HasWildcard(AnchorAt(idx, i)) ==> w < idx.wildN && WildAt(idx, w) == i)
    ensures DescriptorOk(idx, anchOff, locCount, i) ==>
            DescriptorsOk(idx, anchOff, locCount, i + 1)
            && AnchorsUpTo(idx, anchOff, locCount, i + 1) == AnchorsUpTo(idx, anchOff, locCount, i) + [AnchorAt(idx, i)]
            && Pick(AnchorsUpTo(idx, anchOff, locCount, i + 1), WithPlaceholder) ==
               Pick(AnchorsUpTo(idx, anchOff, locCount, i), WithPlaceholder)
               + (if HasWildcard(AnchorAt(idx, i)) then [i] else [])
  {
    hide Field, AnchorAt, WildAt, Less, Sorted, HasWildcard;
    if DescriptorOk(idx, anchOff, locCount, i) {
      var before := AnchorsUpTo(idx, anchOff, locCount, i);
      var after := AnchorsUpTo(idx, anchOff, locCount, i + 1);
      assert after == before + [AnchorAt(idx, i)];
      SortedSnoc(before, AnchorAt(idx, i));
      PickStep(after, WithPlaceholder, i);
      assert after[..i] == before && after[..i + 1] == after;
    }
  }

  /** Checks every offset before a lookup may use it. */
  method ValidateRecords(idx: Index, anchOff: nat, locCount: nat) returns (ok: bool)
    requires Framed(idx, locCount)
    ensures ok <==> Valid(idx, anchOff, locCount)
  {
    hide Field, AnchorAt, WildAt, DescriptorOk, Less, HasWildcard, Pick, Sorted, LocationFile;
    var wildcard := 0;
    var previous: Option<bytes> := None;
    EmptyValid(idx, anchOff, locCount);
    for i := 0 to idx.entries
      invariant ValidUpTo(idx, anchOff, locCount, i)
      invariant wildcard == |Pick(AnchorsUpTo(idx, anchOff, locCount, i), WithPlaceholder)|
      invariant previous == if i == 0 then None else Some(AnchorsUpTo(idx, anchOff, locCount, i)[i - 1])
    {
      ValidStep(idx, anchOff, locCount, i);
      InvalidAt(idx, anchOff, locCount, i + 1);
      var inBounds := CheckDescriptor(idx, anchOff, locCount, i);
      if !inBounds {
        return false;
      }
      var anchor := AnchorAt(idx, i);
      if previous.Some? && !Less(previous.value, anchor) {
        return false;
      }
      previous := Some(anchor);
      if HasWildcard(anchor) {
        if wildcard >= idx.wildN || WildAt(idx, wildcard) != i {
          return false;
        }
        wildcard := wildcard + 1;
      }
    }
    if wildcard != idx.wildN {
      return false;
    }
    for k := 0 to locCount
      invariant LocationsOk(idx, locCount, k)
    {
      if LocationFile(idx, locCount, k) >= |idx.files| {
        return false;
      }
    }
    return true;
  }

  lemma EmptyValid(idx: Index, anchOff: nat, locCount: nat)
    requires Framed(idx, locCount)
    ensures ValidUpTo(idx, anchOff, locCount, 0)
    ensures |Pick(AnchorsUpTo(idx, anchOff, locCount, 0), WithPlaceholder)| == 0
  {}

  lemma {:induction false} InvalidAt(idx: Index, anchOff: nat, locCount: nat, n: nat)
    requires Framed(idx, locCount) && n <= idx.entries
    ensures !ValidUpTo(idx, anchOff, locCount, n) ==> !Valid(idx, anchOff, locCount)
  {
    hide ValidUpTo;
    if ValidUpTo(idx, anchOff, locCount, idx.entries) {
      ValidPrefix(idx, anchOff, locCount, n, idx.entries);
    }
  }

  method CheckDescriptor(idx: Index, anchOff: nat, locCount: nat, i: nat) returns (ok: bool)
    requires Framed(idx, locCount) && i < idx.entries
    ensures ok <==> DescriptorOk(idx, anchOff, locCount, i)
    ensures ok ==> Field(idx, i, 0) + Field(idx, i, 1) <= |idx.image|
  {
    ok := anchOff <= Field(idx, i, 0)
      && Field(idx, i, 0) + Field(idx, i, 1) <= |idx.image|
      && Field(idx, i, 2) + Field(idx, i, 3) <= locCount
      && IsUtf8(AnchorAt(idx, i));
  }

  // ----- decoding -----

  lemma PrependNothing(r: Option<seq<bytes>>)
    ensures r == match r case None => None case Some(rest) => Some([] + rest)
  {
    if r.Some? { assert [] + r.value == r.value; }
  }

  method ReadFileTable(b: bytes, start: nat, count: nat, end: nat) returns (r: Option<seq<bytes>>)
    requires start <= end <= |b|
    ensures r == FileTable(b, start, count, end)
  {
    hide Read32, IsUtf8;
    var files := [];
    var at := start;
    PrependNothing(FileTable(b, start, count, end));
    for k := 0 to count
      invariant start <= at <= end
      invariant FileTable(b, start, count, end) ==
                match FileTable(b, at, count - k, end) case None => None case Some(rest) => Some(files + rest)
    {
      if at + 4 > end {
        return None;
      }
      var stop := at + 4 + Read32(b, at);
      if stop > end || !IsUtf8(b[at + 4..stop]) {
        return None;
      }
      match FileTable(b, stop, count - k - 1, end) {
        case None =>
        case Some(rest) => assert files + ([b[at + 4..stop]] + rest) == files + [b[at + 4..stop]] + rest;
      }
      files := files + [b[at + 4..stop]];
      at := stop;
    }
    assert files + [] == files;
    return if at == end then Some(files) else None;
  }

  /** Accepts exactly the well-formed images. */
  method Decode(b: bytes) returns (r: Option<Index>)
    ensures r == Decoded(b)
  {
    hide Valid, FileTable, HeaderField, Framed;
    if !HeaderOk(b) {
      return None;
    }
    var files := ReadFileTable(b, HeaderField(b, 4), HeaderField(b, 6), HeaderField(b, 7));
    if files.None? {
      return None;
    }
    var idx := IndexOfImage(b, files.value);
    HeaderFrames(b, files.value);
    var ok := ValidateRecords(idx, HeaderField(b, 5), LocCount(b));
    return if ok then Some(idx) else None;
  }

  // ----- an accepted index -----

  /** The index of an accepted image: everything a lookup relies on. */
  ghost predicate Sound(idx: Index) {
    HeaderOk(idx.image) && Valid(idx, HeaderField(idx.image, 5), LocCount(idx.image))
  }

  lemma DecodedIsSound(b: bytes)
    ensures Decoded(b).Some? ==> Sound(Decoded(b).value)
  {}

  ghost function AnchorsOf(idx: Index): (anchors: seq<bytes>)
    requires Sound(idx)
    ensures |anchors| == idx.entries && Sorted(anchors)
  {
    AnchorsUpTo(idx, HeaderField(idx.image, 5), LocCount(idx.image), idx.entries)
  }

  ghost predicate Readable(idx: Index, i: nat) {
    && i < idx.entries && idx.descOff + idx.entries * DESC_LEN <= |idx.image|
    && Field(idx, i, 0) + Field(idx, i, 1) <= |idx.image|
    && AnchorsReadable(idx, i)
  }

  ghost predicate AnchorsReadable(idx: Index, i: nat)
    requires i < idx.entries && idx.descOff + idx.entries * DESC_LEN <= |idx.image|
  {
    forall k :: Field(idx, i, 2) <= k < Field(idx, i, 2) + Field(idx, i, 3) ==> LocationReadable(idx, k)
  }

  ghost predicate LocationReadable(idx: Index, k: nat) {
    && idx.locsOff + k * LOC_LEN + LOC_LEN <= |idx.image|
    && Read32(idx.image, idx.locsOff + k * LOC_LEN) < |idx.files|
  }

  /** Every later read of an accepted index is in bounds. */
  lemma {:induction false} SoundIsReadable(idx: Index, i: nat)
    requires Sound(idx) && i < idx.entries
    ensures Readable(idx, i)
    ensures AnchorsOf(idx)[i] == AnchorAt(idx, i)
  {
    hide Field, Read32, HeaderField, Sorted, WildsAre;
    var locCount := LocCount(idx.image);
    assert DescriptorOk(idx, HeaderField(idx.image, 5), locCount, i);
    forall k | Field(idx, i, 2) <= k < Field(idx, i, 2) + Field(idx, i, 3) ensures LocationReadable(idx, k) {
      RowFits(k, locCount, LOC_LEN);
      assert LocationFile(idx, locCount, k) < |idx.files|;
    }
  }

  lemma SoundWilds(idx: Index)
    requires Sound(idx)
    ensures idx.wildOff + idx.wildN * WILD_LEN <= |idx.image|
    ensures |Pick(AnchorsOf(idx), WithPlaceholder)| == idx.wildN
    ensures forall k :: 0 <= k < idx.wildN ==> WildAt(idx, k) == Pick(AnchorsOf(idx), WithPlaceholder)[k]
  {
    hide Field, Read32, HeaderField, Sorted, Pick, WildAt;
  }

  function ReadLocation(idx: Index, k: nat): Location
    requires idx.locsOff + k * LOC_LEN + LOC_LEN <= |idx.image|
    requires Read32(idx.image, idx.locsOff + k * LOC_LEN) < |idx.files|
  {
    Location(idx.files[Read32(idx.image, idx.locsOff + k * LOC_LEN)],
             Read64(idx.image, idx.locsOff + k * LOC_LEN + 4))
  }

  ghost function LocationsOf(idx: Index, i: nat): (r: seq<Location>)
    requires Readable(idx, i)
    ensures |r| == Field(idx, i, 3)
  {
    seq(Field(idx, i, 3), k requires 0 <= k < Field(idx, i, 3) =>
      assert LocationReadable(idx, Field(idx, i, 2) + k);
      ReadLocation(idx, Field(idx, i, 2) + k))
  }

  ghost function LocationsOfAll(idx: Index, idxs: seq<nat>): seq<Location>
    requires forall i :: i in idxs ==> Readable(idx, i)
  {
    if idxs == [] then []
    else
      var n := |idxs| - 1;
      LocationsOfAll(idx, idxs[..n]) + LocationsOf(idx, idxs[n])
  }

  lemma {:induction false} VisitedAreReadable(idx: Index, query: Query)
    requires Sound(idx)
    ensures forall i :: i in Visited(AnchorsOf(idx), query) ==> Readable(idx, i)
  {
    hide Visited, Readable, Sound;
    VisitsExactly(AnchorsOf(idx), query);
    forall i | i in Visited(AnchorsOf(idx), query) ensures Readable(idx, i) {
      SoundIsReadable(idx, i);
    }
  }

  /** What a lookup returns: the locations of the visited anchors, in visiting order. */
  ghost function Found(idx: Index, query: Query): seq<Location>
    requires Sound(idx)
  {
    VisitedAreReadable(idx, query);
    LocationsOfAll(idx, Visited(AnchorsOf(idx), query))
  }

  // ----- lookups -----

  method LowerBound(idx: Index, target: bytes) returns (lo: nat)
    requires Sound(idx)
    ensures IsLowerBound(AnchorsOf(idx), target, lo)
  {
    hide Sound, Less, AnchorAt, Readable, AnchorsOf;
    lo := 0;
    var hi := idx.entries;
    while lo < hi
      invariant 0 <= lo <= hi <= idx.entries
      invariant forall i :: 0 <= i < lo ==> Less(AnchorsOf(idx)[i], target)
      invariant forall i :: hi <= i < idx.entries ==> AtMost(target, AnchorsOf(idx)[i])
    {
      var mid := (lo + hi) / 2;
      var anchor := ReadAnchor(idx, mid);
      if Less(anchor, target) {
        SortedBelow(AnchorsOf(idx), target, mid);
        lo := mid + 1;
      } else {
        SortedAbove(AnchorsOf(idx), target, mid);
        hi := mid;
      }
    }
  }

  method ReadAnchor(idx: Index, i: nat) returns (anchor: bytes)
    requires Sound(idx) && i < idx.entries
    ensures anchor == AnchorsOf(idx)[i]
  {
    hide Sound, AnchorAt, AnchorsOf, Field;
    SoundIsReadable(idx, i);
    return AnchorAt(idx, i);
  }

  /** Adds the matching placeholder anchors that are not in the list yet. */
  method PushWildcardMatches(idx: Index, query: Query, direct: seq<nat>) returns (idxs: seq<nat>)
    requires Sound(idx) && direct == Pick(AnchorsOf(idx), Direct(query))
    ensures idxs == Visited(AnchorsOf(idx), query)
  {
    hide Sound, AnchorsOf, Pick, WildAt, HasWildcard, IsDirect;
    ghost var anchors := AnchorsOf(idx);
    ghost var wild := Pick(anchors, WithPlaceholder);
    SoundWilds(idx);
    PickIs(anchors, WithPlaceholder);
    PickIs(anchors, Direct(query));
    idxs := direct;
    ghost var upTo := 0;
    PickStart(anchors, Indirect(query));
    for k := 0 to idx.wildN
      invariant 0 <= upTo <= |anchors|
      invariant upTo == if k == 0 then 0 else wild[k - 1] + 1
      invariant idxs == direct + Pick(anchors[..upTo], Indirect(query))
    {
      var i := WildAt(idx, k);
      assert i == wild[k] && i in wild;
      SkipToNext(anchors, query, wild, k, upTo);
      PickStep(anchors, Indirect(query), i);
      PickIs(anchors[..i], Indirect(query));
      upTo := i + 1;
      if i in idxs {
        continue;
      }
      var anchor := ReadAnchor(idx, i);
      var found := query.Test(anchor);
      if found {
        idxs := idxs + [i];
      }
    }
    SkipToNext(anchors, query, wild, idx.wildN, upTo);
    assert anchors[..|anchors|] == anchors;
  }

  lemma PickStart(anchors: seq<bytes>, selector: Selector)
    ensures Pick(anchors[..0], selector) == []
  {}

  /** Between two listed placeholders nothing indirect can be picked. */
  lemma SkipToNext(anchors: seq<bytes>, query: Query, wild: seq<nat>, k: nat, upTo: nat)
    requires wild == Pick(anchors, WithPlaceholder) && k <= |wild|
    requires upTo == if k == 0 then 0 else wild[k - 1] + 1
    requires upTo <= |anchors|
    ensures var next := if k < |wild| then wild[k] else |anchors|;
            upTo <= next <= |anchors|
            && Pick(anchors[..next], Indirect(query)) == Pick(anchors[..upTo], Indirect(query))
  {
    hide Pick, HasWildcard, IsDirect;
    PickIs(anchors, WithPlaceholder);
    var next := if k < |wild| then wild[k] else |anchors|;
    forall i | upTo <= i < next ensures !HasWildcard(anchors[i]) {
      assert i !in wild by {
        forall j | 0 <= j < |wild| ensures wild[j] != i {}
      }
      assert i in wild <==> WithPlaceholder.Selects(anchors[i]);
    }
    PickNothing(anchors, Indirect(query), upTo, next);
  }

  method Collect(idx: Index, idxs: seq<nat>) returns (locations: seq<Location>)
    requires forall i :: i in idxs ==> Readable(idx, i)
    ensures locations == LocationsOfAll(idx, idxs)
  {
    hide Readable, LocationsOf;
    locations := [];
    for n := 0 to |idxs|
      invariant locations == LocationsOfAll(idx, idxs[..n])
    {
      var more := ReadLocations(idx, idxs[n]);
      locations := locations + more;
      assert idxs[..n + 1][..n] == idxs[..n];
    }
    assert idxs[..|idxs|] == idxs;
  }

  method ReadLocations(idx: Index, i: nat) returns (locations: seq<Location>)
    requires Readable(idx, i)
    ensures locations == LocationsOf(idx, i)
  {
    hide Field, Read32, Read64;
    locations := [];
    var first, count := Field(idx, i, 2), Field(idx, i, 3);
    for k := 0 to count
      invariant locations == LocationsOf(idx, i)[..k]
    {
      assert LocationReadable(idx, first + k);
      locations := locations + [ReadLocation(idx, first + k)];
    }
  }

  method Lookup(idx: Index, query: Query) returns (locations: seq<Location>)
    requires Sound(idx)
    ensures locations == Found(idx, query)
  {
    hide Sound, Visited, Pick, Readable;
    var direct;
    match query {
      case Exact(target) => direct := SearchExact(idx, target);
      case UnderKey(path) => direct := SearchKey(idx, path);
    }
    var idxs := PushWildcardMatches(idx, query, direct);
    VisitedAreReadable(idx, query);
    locations := Collect(idx, idxs);
  }

  method SearchExact(idx: Index, target: bytes) returns (direct: seq<nat>)
    requires Sound(idx)
    ensures direct == Pick(AnchorsOf(idx), Direct(Exact(target)))
  {
    hide Sound, Pick, AnchorsOf;
    var i := LowerBound(idx, target);
    PickEqual(AnchorsOf(idx), target, i);
    direct := [];
    if i < idx.entries {
      var anchor := ReadAnchor(idx, i);
      if anchor == target {
        direct := [i];
      }
    }
  }

  /** Seeks the lower bound and walks forward while the prefix holds. */
  method SearchKey(idx: Index, path: bytes) returns (direct: seq<nat>)
    requires Sound(idx)
    ensures direct == Pick(AnchorsOf(idx), Direct(UnderKey(path)))
  {
    hide Sound, Pick, AnchorsOf, Less, StartsWith, IsUnderKey;
    ghost var anchors := AnchorsOf(idx);
    var lo := LowerBound(idx, path);
    var i := lo;
    direct := [];
    PrefixRangeBelow(anchors, path, lo);
    PickNothing(anchors, Direct(UnderKey(path)), 0, lo);
    PickStart(anchors, Direct(UnderKey(path)));
    while i < idx.entries
      invariant lo <= i <= idx.entries
      invariant direct == Pick(anchors[..i], Direct(UnderKey(path)))
    {
      var anchor := ReadAnchor(idx, i);
      if !StartsWith(anchor, path) {
        break;
      }
      var under := MatchesUnderKey(anchor, path);
      if under {
        direct := direct + [i];
      }
      PickStep(anchors, Direct(UnderKey(path)), i);
      i := i + 1;
    }
    PrefixRange(anchors, path, lo, i);
    PickNothing(anchors, Direct(UnderKey(path)), i, |anchors|);
    assert anchors[..|anchors|] == anchors;
  }

  lemma PrefixRangeBelow(anchors: seq<bytes>, q: bytes, lo: nat)
    requires IsLowerBound(anchors, q, lo)
    ensures forall i :: 0 <= i < lo ==> !StartsWith(anchors[i], q)
  {
    forall i | 0 <= i < lo ensures !StartsWith(anchors[i], q) {
      BelowPrefix(q, anchors[i]);
    }
  }
}
