/**
  Lookups over the sorted anchors of an index (crates/registry-manual/src/index.rs):
  a binary search for the concrete anchors and a pass over those with placeholders.
*/
module Anchors {
  import opened Bytes
  import opened Pattern

  ghost predicate Sorted(anchors: seq<bytes>) {
    forall i, j :: 0 <= i < j < |anchors| ==> Less(anchors[i], anchors[j])
  }

  // ----- which anchors a pass selects -----

  /** Found by the search: equal to an exact query, or under and spelled from a key. */
  ghost predicate IsDirect(query: Query, anchor: bytes) {
    match query
    case Exact(q) => anchor == q
    case UnderKey(q) => StartsWith(anchor, q) && IsUnderKey(anchor, q)
  }

  datatype Selector = WithPlaceholder | Direct(query: Query) | Indirect(query: Query) {
    ghost predicate Selects(anchor: bytes) {
      match this
      case WithPlaceholder => HasWildcard(anchor)
      case Direct(query) => IsDirect(query, anchor)
      case Indirect(query) => !IsDirect(query, anchor) && HasWildcard(anchor) && query.Accepts(anchor)
    }
  }

  /** The positions a selector picks, ascending. */
  ghost function Pick(anchors: seq<bytes>, selector: Selector): seq<nat> {
    if anchors == [] then []
    else
      var n := |anchors| - 1;
      Pick(anchors[..n], selector) + (if selector.Selects(anchors[n]) then [n] else [])
  }

  ghost predicate StrictlyAscending(idxs: seq<nat>) {
    forall i, j :: 0 <= i < j < |idxs| ==> idxs[i] < idxs[j]
  }

  lemma {:induction false} PickMembers(anchors: seq<bytes>, selector: Selector)
    ensures forall i :: i in Pick(anchors, selector) <==> 0 <= i < |anchors| && selector.Selects(anchors[i])
  {
    hide Selector.Selects;
    if anchors != [] {
      var n := |anchors| - 1;
      var front := anchors[..n];
      PickMembers(front, selector);
      assert forall i :: 0 <= i < n ==> front[i] == anchors[i];
    }
  }

  lemma {:induction false} PickAscends(anchors: seq<bytes>, selector: Selector)
    ensures StrictlyAscending(Pick(anchors, selector))
    ensures forall k :: 0 <= k < |Pick(anchors, selector)| ==> Pick(anchors, selector)[k] < |anchors|
  {
    hide Selector.Selects;
    if anchors != [] {
      PickAscends(anchors[..|anchors| - 1], selector);
    }
  }

  lemma PickIs(anchors: seq<bytes>, selector: Selector)
    ensures forall i :: i in Pick(anchors, selector) <==> 0 <= i < |anchors| && selector.Selects(anchors[i])
    ensures StrictlyAscending(Pick(anchors, selector))
    ensures forall k :: 0 <= k < |Pick(anchors, selector)| ==> Pick(anchors, selector)[k] < |anchors|
  {
    hide Pick, StrictlyAscending, Selector.Selects;
    PickMembers(anchors, selector);
    PickAscends(anchors, selector);
  }

  lemma PickStep(anchors: seq<bytes>, selector: Selector, n: nat)
    requires n < |anchors|
    ensures Pick(anchors[..n + 1], selector) ==
            Pick(anchors[..n], selector) + (if selector.Selects(anchors[n]) then [n] else [])
  {
    assert anchors[..n + 1][..n] == anchors[..n];
  }

  lemma {:induction false} PickPrefix(anchors: seq<bytes>, selector: Selector, n: nat)
    requires n <= |anchors|
    ensures Pick(anchors[..n], selector) <= Pick(anchors, selector)
    decreases |anchors| - n
  {
    if n == |anchors| {
      assert anchors[..n] == anchors;
    } else {
      PickStep(anchors, selector, n);
      PickPrefix(anchors, selector, n + 1);
    }
  }

  /** The positions a lookup visits: the searched ones, then the placeholder pass. */
  ghost function Visited(anchors: seq<bytes>, query: Query): seq<nat> {
    Pick(anchors, Direct(query)) + Pick(anchors, Indirect(query))
  }

  ghost predicate Once(idxs: seq<nat>) {
    forall i, j :: 0 <= i < j < |idxs| ==> idxs[i] != idxs[j]
  }

  /** A match the binary search cannot reach bears a placeholder. */
  lemma AcceptedIsReached(anchor: bytes, query: Query)
    ensures query.Accepts(anchor) ==> IsDirect(query, anchor) || HasWildcard(anchor)
  {
    if !HasWildcard(anchor) {
      ConcreteMatches(anchor, query.text);
    }
  }

  /**
    A lookup visits exactly the anchors that match, each once; an exact one also
    visits the anchor spelled like the query, whether or not it matches itself.
  */
  lemma VisitsExactly(anchors: seq<bytes>, query: Query)
    ensures Once(Visited(anchors, query))
    ensures forall i :: i in Visited(anchors, query) <==>
              0 <= i < |anchors| && (query.Accepts(anchors[i]) || query == Exact(anchors[i]))
  {
    var direct, indirect := Pick(anchors, Direct(query)), Pick(anchors, Indirect(query));
    PickIs(anchors, Direct(query));
    PickIs(anchors, Indirect(query));
    forall i | 0 <= i < |anchors|
      ensures i in Visited(anchors, query) <==> query.Accepts(anchors[i]) || query == Exact(anchors[i])
    {
      AcceptedIsReached(anchors[i], query);
    }
    forall i, j | 0 <= i < |direct| && 0 <= j < |indirect| ensures direct[i] != indirect[j] {
      assert direct[i] in direct && indirect[j] in indirect;
    }
  }

  // ----- the searches -----

  ghost predicate IsLowerBound(anchors: seq<bytes>, target: bytes, at: nat) {
    at <= |anchors|
    && (forall i :: 0 <= i < at ==> Less(anchors[i], target))
    && (forall i :: at <= i < |anchors| ==> AtMost(target, anchors[i]))
  }

  lemma SortedBelow(anchors: seq<bytes>, target: bytes, mid: nat)
    requires Sorted(anchors) && mid < |anchors| && Less(anchors[mid], target)
    ensures forall i :: 0 <= i <= mid ==> Less(anchors[i], target)
  {
    forall i | 0 <= i < mid ensures Less(anchors[i], target) {
      LessTransitive(anchors[i], anchors[mid], target);
    }
  }

  lemma SortedAbove(anchors: seq<bytes>, target: bytes, mid: nat)
    requires Sorted(anchors) && mid < |anchors| && AtMost(target, anchors[mid])
    ensures forall i :: mid <= i < |anchors| ==> AtMost(target, anchors[i])
  {
    forall i | mid < i < |anchors| ensures AtMost(target, anchors[i]) {
      AtMostLessTransitive(target, anchors[mid], anchors[i]);
      LessAsymmetric(target, anchors[i]);
    }
  }

  /** At most one anchor equals the target, and it sits at the lower bound. */
  lemma {:induction false} PickEqual(anchors: seq<bytes>, q: bytes, at: nat)
    requires Sorted(anchors) && IsLowerBound(anchors, q, at)
    ensures Pick(anchors, Direct(Exact(q))) == if at < |anchors| && anchors[at] == q then [at] else []
  {
    var picked := Pick(anchors, Direct(Exact(q)));
    PickIs(anchors, Direct(Exact(q)));
    LessIrreflexive(q);
    forall i | at < i < |anchors| ensures anchors[i] != q {
      AtMostLessTransitive(q, anchors[at], anchors[i]);
    }
    SingletonOrEmpty(picked, at);
  }

  lemma SingletonOrEmpty(idxs: seq<nat>, at: nat)
    requires StrictlyAscending(idxs) && forall i :: i in idxs ==> i == at
    ensures idxs == if at in idxs then [at] else []
  {
    if |idxs| > 0 {
      assert idxs[0] in idxs;
      assert idxs[|idxs| - 1] in idxs;
    }
  }

  lemma BelowPrefix(q: bytes, x: bytes)
    requires Less(x, q)
    ensures !StartsWith(x, q)
  {
    if StartsWith(x, q) { PrefixAtMost(x, q); }
  }

  lemma PastPrefix(q: bytes, y: bytes, x: bytes)
    requires AtMost(q, y) && Less(y, x) && !StartsWith(y, q)
    ensures !StartsWith(x, q)
  {
    if StartsWith(x, q) { PrefixRangeIsConvex(q, y, x); }
  }

  /** Anchors extending the query are contiguous from its lower bound on. */
  lemma PrefixRange(anchors: seq<bytes>, q: bytes, lo: nat, end: nat)
    requires Sorted(anchors) && IsLowerBound(anchors, q, lo) && lo <= end <= |anchors|
    requires end < |anchors| ==> !StartsWith(anchors[end], q)
    ensures forall i :: 0 <= i < lo || end <= i < |anchors| ==> !StartsWith(anchors[i], q)
  {
    forall i | 0 <= i < lo ensures !StartsWith(anchors[i], q) {
      BelowPrefix(q, anchors[i]);
    }
    forall i | end < i < |anchors| ensures !StartsWith(anchors[i], q) {
      PastPrefix(q, anchors[end], anchors[i]);
    }
  }

  lemma {:induction false} PickNothing(anchors: seq<bytes>, selector: Selector, lo: nat, hi: nat)
    requires lo <= hi <= |anchors| && forall i :: lo <= i < hi ==> !selector.Selects(anchors[i])
    ensures Pick(anchors[..hi], selector) == Pick(anchors[..lo], selector)
  {
    if lo < hi {
      PickNothing(anchors, selector, lo, hi - 1);
      PickStep(anchors, selector, hi - 1);
    }
  }
}
