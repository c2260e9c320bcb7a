/**
  Byte strings, their lexicographic order (the order of Rust's `&[u8]` and `str`),
  and the few sequence functions the other modules share.
*/
module Bytes {
  newtype byte = x: int | 0 <= x < 256
  type bytes = seq<byte>

  datatype Option<+T> = None | Some(value: T)

  const LF: byte := 10
  const CR: byte := 13
  const SPACE: byte := 32

  /** Strict lexicographic order. */
  predicate Less(a: bytes, b: bytes) {
    b != [] && (a == [] || a[0] < b[0] || (a[0] == b[0] && Less(a[1..], b[1..])))
  }

  predicate AtMost(a: bytes, b: bytes) {
    !Less(b, a)
  }

  lemma {:induction false} LessIrreflexive(a: bytes)
    ensures !Less(a, a)
  {
    if a != [] {
      LessIrreflexive(a[1..]);
    }
  }

  lemma {:induction false} LessTotal(a: bytes, b: bytes)
    ensures Less(a, b) || a == b || Less(b, a)
  {
    if a != [] && b != [] && a[0] == b[0] {
      LessTotal(a[1..], b[1..]);
      assert a == [a[0]] + a[1..] && b == [b[0]] + b[1..];
    }
  }

  /** Two strings differ first where the one that comes first has the smaller byte, or ends. */
  lemma {:induction false} LessIs(a: bytes, b: bytes)
    ensures Less(a, b) <==>
            exists k :: 0 <= k <= |a| && k < |b| && a[..k] == b[..k] && (k == |a| || a[k] < b[k])
  {
    if a == [] {
      assert b != [] ==> a[..0] == b[..0];
    } else if b != [] {
      LessIs(a[1..], b[1..]);
      if a[0] < b[0] {
        assert a[..0] == b[..0];
      } else if a[0] == b[0] && Less(a, b) {
        var k :| 0 <= k <= |a[1..]| && k < |b[1..]| && a[1..][..k] == b[1..][..k]
                 && (k == |a[1..]| || a[1..][k] < b[1..][k]);
        assert a[..k + 1] == [a[0]] + a[1..][..k] && b[..k + 1] == [b[0]] + b[1..][..k];
      }
      if k :| 0 <= k <= |a| && k < |b| && a[..k] == b[..k] && (k == |a| || a[k] < b[k]) {
        if k > 0 {
          assert a[..k][0] == a[0] && b[..k][0] == b[0];
          assert a[1..][..k - 1] == a[..k][1..] && b[1..][..k - 1] == b[..k][1..];
        }
      }
    }
  }

  lemma {:induction false} LessTransitive(a: bytes, b: bytes, c: bytes)
    requires Less(a, b) && Less(b, c)
    ensures Less(a, c)
  {
    if a != [] && a[0] == b[0] && b[0] == c[0] {
      LessTransitive(a[1..], b[1..], c[1..]);
    }
  }

  lemma LessAsymmetric(a: bytes, b: bytes)
    requires Less(a, b)
    ensures !Less(b, a)
  {
    if Less(b, a) {
      LessTransitive(a, b, a);
      LessIrreflexive(a);
    }
  }

  lemma LessAtMostTransitive(a: bytes, b: bytes, c: bytes)
    requires Less(a, b) && AtMost(b, c)
    ensures Less(a, c)
  {
    LessTotal(b, c);
    if Less(b, c) { LessTransitive(a, b, c); }
  }

  lemma AtMostLessTransitive(a: bytes, b: bytes, c: bytes)
    requires AtMost(a, b) && Less(b, c)
    ensures Less(a, c)
  {
    LessTotal(a, b);
    if Less(a, b) { LessTransitive(a, b, c); }
  }

  predicate StartsWith(s: bytes, prefix: bytes) {
    prefix <= s
  }

  lemma {:induction false} PrefixAtMost(s: bytes, prefix: bytes)
    requires prefix <= s
    ensures AtMost(prefix, s)
  {
    if s != [] && prefix != [] {
      PrefixAtMost(s[1..], prefix[1..]);
    }
  }

  /** Between a string and one of its extensions lie only extensions of it. */
  lemma {:induction false} PrefixRangeIsConvex(prefix: bytes, y: bytes, x: bytes)
    requires AtMost(prefix, y) && Less(y, x) && prefix <= x
    ensures prefix <= y
  {
    if prefix != [] {
      assert y != [];
      assert prefix[0] == x[0];
      assert y[0] == x[0];
      PrefixRangeIsConvex(prefix[1..], y[1..], x[1..]);
    }
  }

  lemma SubSlice(b: bytes, lo: nat, t: bytes, x: nat, y: nat)
    requires lo + |t| <= |b| && b[lo..lo + |t|] == t && x <= y <= |t|
    ensures b[lo + x..lo + y] == t[x..y]
  {
    forall j | 0 <= j < y - x ensures b[lo + x..lo + y][j] == t[x..y][j] {
      assert t[x + j] == b[lo..lo + |t|][x + j];
    }
  }

  lemma SliceJoin(b: bytes, x: nat, y: nat, z: nat)
    requires x <= y <= z <= |b|
    ensures b[x..z] == b[x..y] + b[y..z]
  {}

  function Concat(parts: seq<bytes>): bytes {
    if parts == [] then [] else parts[0] + Concat(parts[1..])
  }

  lemma {:induction false} ConcatAppend(xs: seq<bytes>, ys: seq<bytes>)
    ensures Concat(xs + ys) == Concat(xs) + Concat(ys)
  {
    if xs == [] {
      assert xs + ys == ys;
    } else {
      assert (xs + ys)[1..] == xs[1..] + ys;
      ConcatAppend(xs[1..], ys);
    }
  }

  lemma ConcatSnoc(xs: seq<bytes>, y: bytes)
    ensures Concat(xs + [y]) == Concat(xs) + y
  {
    ConcatAppend(xs, [y]);
    assert Concat([y]) == y + Concat([]);
  }

  lemma ConcatHead(xs: seq<bytes>)
    requires xs != []
    ensures Concat(xs) == xs[0] + Concat(xs[1..])
  {}

  lemma ConcatSplit(xs: seq<bytes>, i: nat)
    requires i < |xs|
    ensures Concat(xs) == Concat(xs[..i]) + xs[i] + Concat(xs[i + 1..])
  {
    hide Concat;
    assert xs == xs[..i] + xs[i..];
    ConcatAppend(xs[..i], xs[i..]);
    assert xs[i..][1..] == xs[i + 1..];
    ConcatHead(xs[i..]);
    var front, back := Concat(xs[..i]), Concat(xs[i + 1..]);
    assert front + (xs[i] + back) == front + xs[i] + back;
  }
}
