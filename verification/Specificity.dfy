/** Which matches survive ranking (`specificity`, `apply_specificity` in query.rs). */
module Specificity {
  import opened Bytes
  import opened Pattern
  import opened Fragment
  import opened Scan

  /** The parts between the separators. */
  function Split(s: bytes): (parts: seq<bytes>)
    ensures parts != []
  {
    if s == [] then [[]]
    else if s[0] == BACKSLASH then [[]] + Split(s[1..])
    else
      var parts := Split(s[1..]);
      [[s[0]] + parts[0]] + parts[1..]
  }

  ghost function Class(component: bytes): byte {
    if !HasWildcard(component) then 0 else if HasSpanning(component) then 2 else 1
  }

  ghost function Classes(components: seq<bytes>): (r: bytes)
    ensures |r| == |components| && forall i :: 0 <= i < |r| ==> r[i] == Class(components[i])
  {
    seq(|components|, i requires 0 <= i < |components| => Class(components[i]))
  }

  /** One class per component, compared left to right; lower is more specific. */
  ghost function Rank(anchor: bytes): bytes {
    Classes(Split(anchor))
  }

  method ComputeRank(anchor: bytes) returns (rank: bytes)
    ensures rank == Rank(anchor)
  {
    var components := Split(anchor);
    rank := [];
    for i := 0 to |components|
      invariant |rank| == i && forall j :: 0 <= j < i ==> rank[j] == Class(components[j])
    {
      var class_: byte := 0;
      if HasWildcard(components[i]) {
        var spans := SpansComponents(components[i]);
        class_ := if spans then 2 else 1;
      }
      rank := rank + [class_];
    }
  }

  // ----- the filter -----

  /** No hit of the same kind ranks lower. */
  ghost predicate IsBest(hit: Hit, hits: seq<Hit>) {
    forall g :: g in hits && g.record.Kind() == hit.record.Kind()
      ==> AtMost(Rank(hit.record.anchor), Rank(g.record.anchor))
  }

  ghost function KeepBest(hits: seq<Hit>, all: seq<Hit>): seq<Hit> {
    if hits == [] then []
    else KeepBest(hits[..|hits| - 1], all) + (if IsBest(hits[|hits| - 1], all) then [hits[|hits| - 1]] else [])
  }

  /** In order, exactly the lexicographic minima of each kind. */
  ghost function MostSpecific(hits: seq<Hit>): seq<Hit> {
    KeepBest(hits, hits)
  }

  ghost predicate MinRank(hits: seq<Hit>, kind: Kind, best: Option<bytes>) {
    match best
    case None => forall g :: g in hits ==> g.record.Kind() != kind
    case Some(b) =>
      && (forall g :: g in hits && g.record.Kind() == kind ==> AtMost(b, Rank(g.record.anchor)))
      && exists g :: g in hits && g.record.Kind() == kind && Rank(g.record.anchor) == b
  }

  method LowestRank(hits: seq<Hit>, kind: Kind) returns (best: Option<bytes>)
    ensures MinRank(hits, kind, best)
  {
    hide Rank, Less;
    best := None;
    for i := 0 to |hits|
      invariant MinRank(hits[..i], kind, best)
    {
      assert hits[..i + 1] == hits[..i] + [hits[i]];
      if hits[i].record.Kind() == kind {
        var rank := ComputeRank(hits[i].record.anchor);
        if best.None? || Less(rank, best.value) {
          LowerMinRank(hits[..i], hits[i], kind, best);
          best := Some(rank);
        } else {
          KeepMinRank(hits[..i], hits[i], kind, best);
        }
      } else {
        KeepMinRank(hits[..i], hits[i], kind, best);
      }
    }
    assert hits[..|hits|] == hits;
  }

  lemma {:induction false} LowerMinRank(hits: seq<Hit>, hit: Hit, kind: Kind, best: Option<bytes>)
    requires MinRank(hits, kind, best) && hit.record.Kind() == kind
    requires best.Some? ==> Less(Rank(hit.record.anchor), best.value)
    ensures MinRank(hits + [hit], kind, Some(Rank(hit.record.anchor)))
  {
    hide Rank, Less;
    var rank := Rank(hit.record.anchor);
    LessIrreflexive(rank);
    forall g | g in hits + [hit] && g.record.Kind() == kind ensures AtMost(rank, Rank(g.record.anchor)) {
      if g in hits {
        LessAtMostTransitive(rank, best.value, Rank(g.record.anchor));
        LessAsymmetric(rank, Rank(g.record.anchor));
      }
    }
    assert hit in hits + [hit];
  }

  lemma KeepMinRank(hits: seq<Hit>, hit: Hit, kind: Kind, best: Option<bytes>)
    requires MinRank(hits, kind, best)
    requires hit.record.Kind() == kind ==> best.Some? && AtMost(best.value, Rank(hit.record.anchor))
    ensures MinRank(hits + [hit], kind, best)
  {
    hide Rank, Less;
    if best.Some? {
      var g :| g in hits && g.record.Kind() == kind && Rank(g.record.anchor) == best.value;
      assert g in hits + [hit];
    }
  }

  ghost predicate IsBestOf(kind: Kind, hit: Hit, hits: seq<Hit>) {
    hit.record.Kind() == kind ==> IsBest(hit, hits)
  }

  /** One pass: drops what is not minimal within `kind`. */
  ghost function Pass(kind: Kind, hits: seq<Hit>, all: seq<Hit>): seq<Hit> {
    if hits == [] then []
    else
      var n := |hits| - 1;
      Pass(kind, hits[..n], all) + (if IsBestOf(kind, hits[n], all) then [hits[n]] else [])
  }

  method RetainBest(kind: Kind, hits: seq<Hit>) returns (kept: seq<Hit>)
    ensures kept == Pass(kind, hits, hits)
  {
    hide Rank, Less, IsBest;
    var best := LowestRank(hits, kind);
    kept := [];
    for i := 0 to |hits|
      invariant kept == Pass(kind, hits[..i], hits)
    {
      assert hits[..i + 1][..i] == hits[..i];
      assert hits[i] in hits;
      if hits[i].record.Kind() != kind {
        kept := kept + [hits[i]];
      } else {
        var rank := ComputeRank(hits[i].record.anchor);
        BestIsMin(hits, hits[i], kind, best.value);
        if rank == best.value {
          kept := kept + [hits[i]];
        }
      }
    }
    assert hits[..|hits|] == hits;
  }

  lemma {:induction false} BestIsMin(hits: seq<Hit>, hit: Hit, kind: Kind, best: bytes)
    requires MinRank(hits, kind, Some(best)) && hit in hits && hit.record.Kind() == kind
    ensures IsBest(hit, hits) <==> Rank(hit.record.anchor) == best
  {
    hide Rank, Less;
    LessTotal(best, Rank(hit.record.anchor));
    var g :| g in hits && g.record.Kind() == kind && Rank(g.record.anchor) == best;
    assert IsBest(hit, hits) ==> AtMost(Rank(hit.record.anchor), Rank(g.record.anchor));
  }

  method ApplySpecificity(hits: seq<Hit>) returns (kept: seq<Hit>)
    ensures kept == MostSpecific(hits)
  {
    hide IsBest;
    var keys := RetainBest(Key, hits);
    kept := RetainBest(Value, keys);
    TwoPasses(hits);
  }

  lemma {:induction false} PassMembers(kind: Kind, hits: seq<Hit>, all: seq<Hit>)
    ensures forall h :: h in Pass(kind, hits, all) <==> h in hits && IsBestOf(kind, h, all)
  {
    hide IsBestOf;
    if hits != [] {
      var n := |hits| - 1;
      PassMembers(kind, hits[..n], all);
      assert hits == hits[..n] + [hits[n]];
    }
  }

  /** The first pass does not change what is minimal in the second. */
  lemma TwoPasses(hits: seq<Hit>)
    ensures Pass(Value, Pass(Key, hits, hits), Pass(Key, hits, hits)) == MostSpecific(hits)
  {
    hide Rank, Less;
    var keys := Pass(Key, hits, hits);
    PassMembers(Key, hits, hits);
    forall h: Hit | h.record.Kind() == Value ensures IsBest(h, keys) <==> IsBest(h, hits) {
      assert forall g: Hit :: g.record.Kind() == Value ==> (g in keys <==> g in hits);
    }
    hide IsBest;
    PassPass(hits, hits, keys);
  }

  lemma {:induction false} PassPass(hits: seq<Hit>, all: seq<Hit>, keys: seq<Hit>)
    requires forall h: Hit :: h.record.Kind() == Value ==> (IsBest(h, keys) <==> IsBest(h, all))
    ensures Pass(Value, Pass(Key, hits, all), keys) == KeepBest(hits, all)
  {
    hide IsBest;
    if hits != [] {
      var n := |hits| - 1;
      PassPass(hits[..n], all, keys);
      var front := Pass(Key, hits[..n], all);
      if IsBestOf(Key, hits[n], all) {
        assert (front + [hits[n]])[..|front|] == front;
      } else {
        assert front + [] == front;
      }
    }
  }

  // ----- what survives -----

  lemma {:induction false} KeepBestMembers(hits: seq<Hit>, all: seq<Hit>)
    ensures forall h :: h in KeepBest(hits, all) <==> h in hits && IsBest(h, all)
  {
    hide IsBest;
    if hits != [] {
      var n := |hits| - 1;
      KeepBestMembers(hits[..n], all);
      assert hits == hits[..n] + [hits[n]];
    }
  }

  /** Some hit of every kind present is minimal, so ranking never empties an answer. */
  lemma {:induction false} SomeBest(hits: seq<Hit>, kind: Kind, n: nat) returns (best: Hit)
    requires n <= |hits| && exists i :: 0 <= i < n && hits[i].record.Kind() == kind
    ensures best in hits && best.record.Kind() == kind
    ensures forall i :: 0 <= i < n && hits[i].record.Kind() == kind
              ==> AtMost(Rank(best.record.anchor), Rank(hits[i].record.anchor))
  {
    hide Rank, Less;
    if exists i :: 0 <= i < n - 1 && hits[i].record.Kind() == kind {
      best := SomeBest(hits, kind, n - 1);
      var last := hits[n - 1];
      if last.record.Kind() == kind && Less(Rank(last.record.anchor), Rank(best.record.anchor)) {
        forall i | 0 <= i < n && hits[i].record.Kind() == kind
          ensures AtMost(Rank(last.record.anchor), Rank(hits[i].record.anchor))
        {
          LessIrreflexive(Rank(last.record.anchor));
          if i < n - 1 {
            LessAtMostTransitive(Rank(last.record.anchor), Rank(best.record.anchor), Rank(hits[i].record.anchor));
            LessAsymmetric(Rank(last.record.anchor), Rank(hits[i].record.anchor));
          }
        }
        best := last;
      }
    } else {
      best := hits[n - 1];
      LessIrreflexive(Rank(best.record.anchor));
    }
  }

  lemma MostSpecificIsNonempty(hits: seq<Hit>)
    ensures MostSpecific(hits) == [] <==> hits == []
    ensures forall h :: h in MostSpecific(hits) <==> h in hits && IsBest(h, hits)
  {
    hide Rank, Less;
    KeepBestMembers(hits, hits);
    if hits != [] {
      assert hits[0].record.Kind() == hits[0].record.Kind();
      var best := SomeBest(hits, hits[0].record.Kind(), |hits|);
      assert IsBest(best, hits);
      assert best in MostSpecific(hits);
    }
  }

  // ----- a concrete page wins its kind -----

  ghost predicate AnyWildcard(parts: seq<bytes>) {
    parts != [] && (HasWildcard(parts[0]) || AnyWildcard(parts[1..]))
  }

  lemma {:induction false} SplitWildcards(s: bytes)
    ensures HasWildcard(s) <==> AnyWildcard(Split(s))
  {
    if s != [] {
      var rest := Split(s[1..]);
      SplitWildcards(s[1..]);
      assert s == [s[0]] + s[1..];
      if s[0] == BACKSLASH {
        assert Split(s)[0] == [] && Split(s)[1..] == rest;
      } else {
        assert Split(s)[0] == [s[0]] + rest[0] && Split(s)[1..] == rest[1..];
      }
    }
  }

  lemma {:induction false} AnyWildcardClasses(parts: seq<bytes>)
    ensures !AnyWildcard(parts) <==> forall i :: 0 <= i < |parts| ==> Classes(parts)[i] == 0
  {
    hide HasWildcard, HasSpanning;
    if parts != [] {
      AnyWildcardClasses(parts[1..]);
      assert Classes(parts) == [Class(parts[0])] + Classes(parts[1..]);
    }
  }

  lemma ConcreteRank(anchor: bytes)
    ensures !HasWildcard(anchor) <==> forall i :: 0 <= i < |Rank(anchor)| ==> Rank(anchor)[i] == 0
  {
    hide Split, HasWildcard, HasSpanning, AnyWildcard, Classes;
    SplitWildcards(anchor);
    AnyWildcardClasses(Split(anchor));
    var rank := Rank(anchor);
    assert rank == Classes(Split(anchor)) && |rank| == |Split(anchor)|;
    if forall i :: 0 <= i < |rank| ==> rank[i] == 0 {
      assert forall i :: 0 <= i < |Split(anchor)| ==> Classes(Split(anchor))[i] == 0;
    }
  }

  lemma {:induction false} ZerosAreLowest(a: bytes, zeros: bytes)
    requires AtMost(a, zeros) && forall i :: 0 <= i < |zeros| ==> zeros[i] == 0
    ensures forall i :: 0 <= i < |a| ==> a[i] == 0
  {
    if a != [] {
      if zeros != [] {
        ZerosAreLowest(a[1..], zeros[1..]);
        forall i | 1 <= i < |a| ensures a[i] == 0 { assert a[i] == a[1..][i - 1]; }
      }
    }
  }

  /**
    If any match of a kind names no family, every surviving match of that kind is
    a page about exactly the queried anchor.
  */
  lemma ConcretePageWins(hits: seq<Hit>, query: bytes, concrete: Hit, kept: Hit)
    requires forall h :: h in hits ==> IsExact(h.record.anchor, query)
    requires concrete in hits && !HasWildcard(concrete.record.anchor)
    requires kept in MostSpecific(hits) && kept.record.Kind() == concrete.record.Kind()
    ensures kept.record.anchor == query
  {
    hide Rank, HasWildcard, IsExact, Less;
    MostSpecificIsNonempty(hits);
    ConcreteRank(concrete.record.anchor);
    ConcreteRank(kept.record.anchor);
    ZerosAreLowest(Rank(kept.record.anchor), Rank(concrete.record.anchor));
    ConcreteMatches(kept.record.anchor, query);
  }

  /** Then the survivors of that kind are all its matches about the queried anchor. */
  lemma ConcretePagesStay(hits: seq<Hit>, query: bytes, concrete: Hit, h: Hit)
    requires forall g :: g in hits ==> IsExact(g.record.anchor, query)
    requires concrete in hits && !HasWildcard(concrete.record.anchor)
    requires h.record.Kind() == concrete.record.Kind()
    ensures h in MostSpecific(hits) <==> h in hits && h.record.anchor == query
  {
    hide Rank, HasWildcard, IsExact, Less, MostSpecific;
    MostSpecificIsNonempty(hits);
    if h in MostSpecific(hits) {
      ConcretePageWins(hits, query, concrete, h);
    }
    if h in hits && h.record.anchor == query {
      var best := SomeBest(hits, h.record.Kind(), |hits|);
      assert IsBest(best, hits);
      ConcretePageWins(hits, query, concrete, best);
      assert IsBest(h, hits);
    }
  }

  // ----- what a lower rank means -----

  /** The components joined by the separator. */
  function JoinParts(parts: seq<bytes>): bytes
    requires parts != []
  {
    if |parts| == 1 then parts[0] else parts[0] + [92] + JoinParts(parts[1..])
  }

  /** The components are what lies between the separators. */
  lemma {:induction false} SplitIs(s: bytes)
    ensures JoinParts(Split(s)) == s
    ensures forall i :: 0 <= i < |Split(s)| ==> 92 !in Split(s)[i]
  {
    if s != [] {
      var rest := Split(s[1..]);
      SplitIs(s[1..]);
      assert s == [s[0]] + s[1..];
      if s[0] == BACKSLASH {
        assert Split(s)[1..] == rest;
        assert [] + [92] + JoinParts(rest) == [92] + JoinParts(rest);
      } else {
        assert Split(s)[0] == [s[0]] + rest[0] && Split(s)[1..] == rest[1..];
        if |rest| > 1 {
          assert [s[0]] + rest[0] + [92] + JoinParts(rest[1..]) == [s[0]] + (rest[0] + [92] + JoinParts(rest[1..]));
        }
      }
    }
  }

  /** Both are literal, both hold placeholders of one component only, or both span. */
  ghost predicate Alike(c: bytes, d: bytes) {
    (HasWildcard(c) <==> HasWildcard(d)) && (HasSpanning(c) <==> HasSpanning(d))
  }

  /** A literal against a family, or a family within one component against a spanning one. */
  ghost predicate Narrower(c: bytes, d: bytes) {
    || (!HasWildcard(c) && HasWildcard(d))
    || (HasWildcard(c) && !HasSpanning(c) && HasSpanning(d))
  }

  ghost predicate NarrowerAt(cs: seq<bytes>, ds: seq<bytes>, i: nat) {
    && i <= |cs| && i < |ds|
    && (forall j :: 0 <= j < i ==> Alike(cs[j], ds[j]))
    && (i == |cs| || Narrower(cs[i], ds[i]))
  }

  /** The first component in which they are not alike is narrower, or comes when the first has ended. */
  ghost predicate MoreSpecific(a: bytes, b: bytes) {
    exists i: nat :: NarrowerAt(Split(a), Split(b), i)
  }

  lemma {:induction false} SpanningHasABracket(component: bytes)
    ensures HasSpanning(component) ==> HasWildcard(component)
    decreases |component|
  {
    if component != [] {
      var w := HeadWidth(component);
      SpanningHasABracket(component[w..]);
      assert component == component[..w] + component[w..];
      assert Tokens(component) == [HeadToken(component)] + Tokens(component[w..]);
      assert HeadToken(component).Wildcard? ==> component[0] == LT;
    }
  }

  lemma ClassTells(c: bytes, d: bytes)
    ensures Class(c) == Class(d) <==> Alike(c, d)
    ensures Class(c) < Class(d) <==> Narrower(c, d)
  {
    hide HasWildcard, HasSpanning;
    SpanningHasABracket(c);
    SpanningHasABracket(d);
  }

  lemma {:induction false} LessIsNarrower(cs: seq<bytes>, ds: seq<bytes>)
    ensures Less(Classes(cs), Classes(ds)) <==> exists i: nat :: NarrowerAt(cs, ds, i)
    decreases |cs|
  {
    hide Class, Alike, Narrower;
    if ds == [] {
      assert Classes(ds) == [];
    } else if cs == [] {
      assert Classes(cs) == [];
      assert NarrowerAt(cs, ds, 0);
    } else {
      ClassTells(cs[0], ds[0]);
      ClassesTail(cs);
      ClassesTail(ds);
      LessIsNarrower(cs[1..], ds[1..]);
      NarrowerNext(cs, ds);
    }
  }

  lemma ClassesTail(cs: seq<bytes>)
    requires cs != []
    ensures Classes(cs)[0] == Class(cs[0]) && Classes(cs)[1..] == Classes(cs[1..])
  {
    hide Class;
  }

  lemma NarrowerNext(cs: seq<bytes>, ds: seq<bytes>)
    requires cs != [] && ds != []
    ensures (exists i: nat :: NarrowerAt(cs, ds, i)) <==>
            Narrower(cs[0], ds[0])
            || (Alike(cs[0], ds[0]) && exists i: nat :: NarrowerAt(cs[1..], ds[1..], i))
  {
    hide Alike, Narrower;
    if i: nat :| NarrowerAt(cs, ds, i) {
      if i > 0 { assert NarrowerAt(cs[1..], ds[1..], i - 1); }
    }
    if Narrower(cs[0], ds[0]) {
      assert NarrowerAt(cs, ds, 0);
    }
    if i: nat :| Alike(cs[0], ds[0]) && NarrowerAt(cs[1..], ds[1..], i) {
      forall j | 0 <= j < i + 1 ensures Alike(cs[j], ds[j]) {
        if j > 0 { assert Alike(cs[1..][j - 1], ds[1..][j - 1]); }
      }
      assert NarrowerAt(cs, ds, i + 1);
    }
  }

  /** Kept are exactly the hits than which no other of their kind is more specific. */
  lemma NarrowestAreKept(hits: seq<Hit>, h: Hit)
    ensures h in MostSpecific(hits) <==>
            h in hits && forall g :: g in hits && g.record.Kind() == h.record.Kind()
                           ==> !MoreSpecific(g.record.anchor, h.record.anchor)
  {
    hide MostSpecific, Less, Classes, Split;
    MostSpecificIsNonempty(hits);
    forall g | g in hits && g.record.Kind() == h.record.Kind()
      ensures AtMost(Rank(h.record.anchor), Rank(g.record.anchor))
              <==> !MoreSpecific(g.record.anchor, h.record.anchor)
    {
      LessIsNarrower(Split(g.record.anchor), Split(h.record.anchor));
    }
  }
}
