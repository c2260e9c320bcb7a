/**
  Anchor patterns of the registry manual (crates/registry-manual/src/pattern.rs).
  An anchor is cut into tokens; a `<...>` token stands for one or more bytes.
  `Walk` is the two-row dynamic program; it is proved against the set of ways of
  laying the tokens over the query, and against the backtracking matcher.
*/
module Pattern {
  import opened Bytes

  const LT: byte := 60
  const GT: byte := 62
  const DOT: byte := 46
  const BACKSLASH: byte := 92

  datatype Token = Literal(b: byte) | Wildcard(spans: bool)

  // ----- tokens of an anchor -----

  function IndexOf(s: bytes, b: byte): (r: Option<nat>)
    ensures r.None? ==> b !in s
    ensures r.Some? ==> r.value < |s| && s[r.value] == b && b !in s[..r.value]
  {
    if s == [] then None
    else if s[0] == b then Some(0)
    else
      match IndexOf(s[1..], b)
      case None => None
      case Some(i) => assert s[..i + 1] == [s[0]] + s[1..][..i]; Some(i + 1)
  }

  predicate HasWildcard(anchor: bytes) {
    LT in anchor
  }

  predicate EndsWithDots(s: bytes) {
    |s| >= 3 && s[|s| - 3..] == [DOT, DOT, DOT]
  }

  /** The width of a leading placeholder and whether it crosses separators. */
  function Placeholder(anchor: bytes): (r: Option<(nat, bool)>)
    ensures r.Some? ==> 2 <= r.value.0 <= |anchor| && anchor[0] == LT
  {
    if anchor == [] || anchor[0] != LT then None
    else
      match IndexOf(anchor, GT)
      case None => None
      case Some(close) => Some((close + 1, EndsWithDots(anchor[1..close])))
  }

  function HeadToken(anchor: bytes): Token
    requires anchor != []
  {
    match Placeholder(anchor)
    case Some((_, spans)) => Wildcard(spans)
    case None => Literal(anchor[0])
  }

  function HeadWidth(anchor: bytes): (w: nat)
    requires anchor != []
    ensures 1 <= w <= |anchor|
  {
    match Placeholder(anchor)
    case Some((width, _)) => width
    case None => 1
  }

  function Tokens(anchor: bytes): (ts: seq<Token>)
    ensures |ts| <= |anchor|
  {
    if anchor == [] then [] else [HeadToken(anchor)] + Tokens(anchor[HeadWidth(anchor)..])
  }

  /** What is left of the anchor after its first `k` tokens. */
  function Rest(anchor: bytes, k: nat): (r: bytes)
    requires k <= |Tokens(anchor)|
    ensures Tokens(r) == Tokens(anchor)[k..]
  {
    if k == 0 then anchor else Rest(anchor[HeadWidth(anchor)..], k - 1)
  }

  // ----- what an anchor denotes -----

  predicate Allowed(b: byte, spans: bool) {
    b != SPACE && (spans || b != BACKSLASH)
  }

  ghost predicate AllAllowed(piece: bytes, spans: bool) {
    forall i :: 0 <= i < |piece| ==> Allowed(piece[i], spans)
  }

  ghost predicate Fits(t: Token, piece: bytes) {
    match t
    case Literal(b) => piece == [b]
    case Wildcard(spans) => piece != [] && AllAllowed(piece, spans)
  }

  ghost predicate Covers(ts: seq<Token>, pieces: seq<bytes>) {
    |pieces| == |ts| && forall i :: 0 <= i < |ts| ==> Fits(ts[i], pieces[i])
  }

  /** The query can be cut into one fitting piece per token. */
  ghost predicate Denotes(ts: seq<Token>, query: bytes) {
    exists pieces :: Covers(ts, pieces) && Concat(pieces) == query
  }

  /** Some token boundary has the whole query before it and an acceptable rest. */
  ghost predicate Matches(anchor: bytes, query: bytes, tailOk: bytes -> bool) {
    exists k :: 0 <= k <= |Tokens(anchor)|
      && Denotes(Tokens(anchor)[..k], query) && tailOk(Rest(anchor, k))
  }

  predicate AtEnd(rest: bytes) {
    rest == []
  }

  predicate AtEndOrSpace(rest: bytes) {
    rest == [] || rest[0] == SPACE
  }

  ghost predicate IsExact(anchor: bytes, query: bytes) {
    Matches(anchor, query, AtEnd)
  }

  ghost predicate IsUnderKey(anchor: bytes, query: bytes) {
    Matches(anchor, query, AtEndOrSpace)
  }

  lemma DenotesNone(query: bytes)
    ensures Denotes([], query) <==> query == []
  {
    if query == [] {
      assert Covers([], []) && Concat([]) == query;
    }
  }

  lemma DenotesSnoc(ts: seq<Token>, t: Token, query: bytes)
    ensures Denotes(ts + [t], query) <==>
            exists m :: 0 <= m <= |query| && Denotes(ts, query[..m]) && Fits(t, query[m..])
  {
    if Denotes(ts + [t], query) {
      var pieces :| Covers(ts + [t], pieces) && Concat(pieces) == query;
      var front, piece := pieces[..|ts|], pieces[|ts|];
      assert pieces == front + [piece];
      ConcatSnoc(front, piece);
      assert Covers(ts, front) by {
        forall i | 0 <= i < |ts| ensures Fits(ts[i], front[i]) {
          assert (ts + [t])[i] == ts[i];
        }
      }
      assert Fits((ts + [t])[|ts|], piece);
      var m := |Concat(front)|;
      assert query[..m] == Concat(front) && query[m..] == piece;
    }
    if m :| 0 <= m <= |query| && Denotes(ts, query[..m]) && Fits(t, query[m..]) {
      var front :| Covers(ts, front) && Concat(front) == query[..m];
      ConcatSnoc(front, query[m..]);
      assert Covers(ts + [t], front + [query[m..]]);
      assert query[..m] + query[m..] == query;
    }
  }

  lemma DenotesCons(t: Token, ts: seq<Token>, query: bytes)
    ensures Denotes([t] + ts, query) <==>
            exists m :: 0 <= m <= |query| && Fits(t, query[..m]) && Denotes(ts, query[m..])
  {
    if Denotes([t] + ts, query) {
      var pieces :| Covers([t] + ts, pieces) && Concat(pieces) == query;
      var m := |pieces[0]|;
      assert Covers(ts, pieces[1..]) by {
        forall i | 0 <= i < |ts| ensures Fits(ts[i], pieces[1..][i]) {
          assert ([t] + ts)[i + 1] == ts[i];
        }
      }
      assert Fits(([t] + ts)[0], pieces[0]);
      assert query[..m] == pieces[0] && query[m..] == Concat(pieces[1..]);
    }
    if m :| 0 <= m <= |query| && Fits(t, query[..m]) && Denotes(ts, query[m..]) {
      var back :| Covers(ts, back) && Concat(back) == query[m..];
      var pieces := [query[..m]] + back;
      assert Covers([t] + ts, pieces);
      assert pieces[1..] == back;
      assert Concat(pieces) == query[..m] + query[m..] == query;
    }
  }

  /** If the first tokens match no prefix of the query, no more tokens will help. */
  lemma {:induction false} DenotesBlocked(ts: seq<Token>, k: nat, query: bytes)
    requires k <= |ts|
    requires forall m :: 0 <= m <= |query| ==> !Denotes(ts[..k], query[..m])
    ensures !Denotes(ts, query)
    decreases |ts|
  {
    if k == |ts| {
      assert ts[..k] == ts && query[..|query|] == query;
    } else {
      var front, t := ts[..|ts| - 1], ts[|ts| - 1];
      assert ts == front + [t] && front[..k] == ts[..k];
      DenotesSnoc(front, t, query);
      forall m | 0 <= m <= |query| ensures !Denotes(front, query[..m]) {
        forall n | 0 <= n <= m ensures !Denotes(ts[..k], query[..m][..n]) {
          assert query[..m][..n] == query[..n];
        }
        DenotesBlocked(front, k, query[..m]);
      }
    }
  }

  // ----- the dynamic program -----

  ghost predicate RowIs(row: seq<bool>, ts: seq<Token>, query: bytes) {
    |row| == |query| + 1 && forall i :: 0 <= i <= |query| ==> row[i] == Denotes(ts, query[..i])
  }

  lemma RowStart(query: bytes, row: seq<bool>)
    requires |row| == |query| + 1 && forall i :: 0 <= i <= |query| ==> row[i] == (i == 0)
    ensures RowIs(row, [], query)
  {
    forall i | 0 <= i <= |query| ensures Denotes([], query[..i]) == (i == 0) {
      DenotesNone(query[..i]);
    }
  }

  lemma DenotesSnocAt(ts: seq<Token>, t: Token, query: bytes, i: nat)
    requires i <= |query|
    ensures Denotes(ts + [t], query[..i]) <==>
            exists m :: 0 <= m <= i && Denotes(ts, query[..m]) && Fits(t, query[m..i])
  {
    DenotesSnoc(ts, t, query[..i]);
    forall m | 0 <= m <= i ensures query[..i][..m] == query[..m] && query[..i][m..] == query[m..i] {}
  }

  /** A literal moves every reachable prefix on by one byte. */
  lemma RowLiteral(row: seq<bool>, next: seq<bool>, ts: seq<Token>, b: byte, query: bytes)
    requires RowIs(row, ts, query) && |next| == |query| + 1 && !next[0]
    requires forall i :: 0 <= i < |query| ==> next[i + 1] == (row[i] && b == query[i])
    ensures RowIs(next, ts + [Literal(b)], query)
  {
    forall i | 0 <= i <= |query| ensures next[i] == Denotes(ts + [Literal(b)], query[..i]) {
      DenotesSnocAt(ts, Literal(b), query, i);
      if i > 0 {
        assert query[i - 1..i] == [query[i - 1]];
        assert next[i - 1 + 1] == (row[i - 1] && b == query[i - 1]);
      }
    }
  }

  ghost predicate WildcardRow(row: seq<bool>, next: seq<bool>, query: bytes, spans: bool) {
    && |row| == |next| == |query| + 1 && !next[0]
    && forall i :: 0 <= i < |query| ==>
         next[i + 1] == (Allowed(query[i], spans) && (row[i] || next[i]))
  }

  lemma {:induction false} WildcardRowAt(row: seq<bool>, next: seq<bool>, query: bytes, spans: bool, i: nat)
    requires WildcardRow(row, next, query, spans) && i <= |query|
    ensures next[i] <==> exists m :: 0 <= m < i && row[m] && AllAllowed(query[m..i], spans)
  {
    if i > 0 {
      var j := i - 1;
      WildcardRowAt(row, next, query, spans, j);
      assert next[j + 1] == (Allowed(query[j], spans) && (row[j] || next[j]));
      forall m | 0 <= m < i
        ensures AllAllowed(query[m..i], spans) <==> AllAllowed(query[m..j], spans) && Allowed(query[j], spans)
      {
        assert query[m..i] == query[m..j] + [query[j]];
        assert query[m..i][|query[m..j]|] == query[j];
        assert forall n :: 0 <= n < |query[m..j]| ==> query[m..j][n] == query[m..i][n];
      }
      assert AllAllowed(query[j..j], spans);
    }
  }

  /** A placeholder extends every reachable prefix by any run of allowed bytes. */
  lemma RowWildcard(row: seq<bool>, next: seq<bool>, ts: seq<Token>, spans: bool, query: bytes)
    requires RowIs(row, ts, query) && WildcardRow(row, next, query, spans)
    ensures RowIs(next, ts + [Wildcard(spans)], query)
  {
    forall i | 0 <= i <= |query| ensures next[i] == Denotes(ts + [Wildcard(spans)], query[..i]) {
      DenotesSnocAt(ts, Wildcard(spans), query, i);
      WildcardRowAt(row, next, query, spans, i);
      forall m | 0 <= m <= i
        ensures Fits(Wildcard(spans), query[m..i]) <==> m < i && AllAllowed(query[m..i], spans) {}
    }
  }

  /** Every write to a row goes through here and is counted. */
  method SetCell(row: array<bool>, i: nat, value: bool, ghost count: nat) returns (ghost written: nat)
    requires i < row.Length
    modifies row
    ensures row[..] == old(row[..])[i := value] && written == count + 1
  {
    row[i] := value;
    written := count + 1;
  }

  method ClearRow(row: array<bool>, ghost count: nat) returns (ghost written: nat)
    modifies row
    ensures forall i :: 0 <= i < row.Length ==> !row[i]
    ensures written == count + row.Length
  {
    written := count;
    for i := 0 to row.Length
      invariant forall j :: 0 <= j < i ==> !row[..][j]
      invariant written == count + i
    {
      written := SetCell(row, i, false, written);
    }
  }

  method FillWildcardRow(reachable: array<bool>, next: array<bool>, query: bytes, spans: bool, ghost count: nat)
    returns (ghost written: nat)
    requires reachable != next && reachable.Length == next.Length == |query| + 1 && !next[0]
    modifies next
    ensures WildcardRow(reachable[..], next[..], query, spans)
    ensures written == count + |query|
  {
    written := count;
    for i := 0 to |query|
      invariant !next[..][0] && written == count + i
      invariant forall j :: 0 <= j < i ==>
                  next[..][j + 1] == (Allowed(query[j], spans) && (reachable[j] || next[..][j]))
    {
      written := SetCell(next, i + 1, Allowed(query[i], spans) && (reachable[i] || next[i]), written);
    }
  }

  method FillLiteralRow(reachable: array<bool>, next: array<bool>, query: bytes, b: byte, ghost count: nat)
    returns (ghost written: nat)
    requires reachable != next && reachable.Length == next.Length == |query| + 1 && !next[0]
    modifies next
    ensures !next[0]
    ensures forall i :: 0 <= i < |query| ==> next[i + 1] == (reachable[i] && b == query[i])
    ensures written == count + |query|
  {
    written := count;
    for i := 0 to |query|
      invariant !next[..][0] && written == count + i
      invariant forall j :: 0 <= j < i ==> next[..][j + 1] == (reachable[j] && b == query[j])
    {
      written := SetCell(next, i + 1, reachable[i] && b == query[i], written);
    }
  }

  /** One token further: computes the next row and the width consumed. */
  method StepRow(anchor: bytes, query: bytes, ghost k: nat, remaining: bytes,
                 reachable: array<bool>, next: array<bool>, ghost count: nat)
    returns (width: nat, ghost written: nat)
    requires reachable != next && reachable.Length == next.Length == |query| + 1
    requires k <= |Tokens(anchor)| && remaining == Rest(anchor, k) && remaining != []
    requires RowIs(reachable[..], Tokens(anchor)[..k], query)
    modifies next
    ensures k < |Tokens(anchor)|
    ensures width == HeadWidth(remaining) && Rest(anchor, k + 1) == remaining[width..]
    ensures RowIs(next[..], Tokens(anchor)[..k + 1], query)
    ensures written == count + RowCost(query)
  {
    hide RowIs, Tokens, Rest, WildcardRow;
    RestStep(anchor, k);
    ghost var ts := Tokens(anchor);
    assert ts[..k + 1] == ts[..k] + [HeadToken(remaining)];
    written := ClearRow(next, count);
    match Placeholder(remaining) {
      case Some((w, spans)) =>
        written := FillWildcardRow(reachable, next, query, spans, written);
        RowWildcard(reachable[..], next[..], ts[..k], spans, query);
        width := w;
      case None =>
        written := FillLiteralRow(reachable, next, query, remaining[0], written);
        RowLiteral(reachable[..], next[..], ts[..k], remaining[0], query);
        width := 1;
    }
  }

  /** The writes for one token: the row is cleared and then filled behind its first cell. */
  function RowCost(query: bytes): nat {
    2 * |query| + 1
  }

  ghost predicate NoneBefore(anchor: bytes, query: bytes, tailOk: bytes -> bool, k: nat)
    requires k <= |Tokens(anchor)|
  {
    forall j :: 0 <= j < k ==> !(Denotes(Tokens(anchor)[..j], query) && tailOk(Rest(anchor, j)))
  }

  /**
    Two reused rows, cleared and filled once for each token; no backtracking. The first
    write marks the empty prefix.
  */
  method Walk(anchor: bytes, query: bytes, tailOk: bytes -> bool) returns (found: bool, ghost written: nat)
    ensures found <==> Matches(anchor, query, tailOk)
    ensures written <= 1 + |anchor| * RowCost(query)
  {
    hide Tokens, Rest, RowIs, Denotes, Matches, NoneBefore, RowCost;
    RestStart(anchor, query, tailOk);
    var reachable := new bool[|query| + 1](i => false);
    var next := new bool[|query| + 1](i => false);
    written := SetCell(reachable, 0, true, 0);
    var offset := 0;
    ghost var k := 0;
    RowStart(query, reachable[..]);
    while true
      invariant fresh(reachable) && fresh(next) && reachable != next
      invariant reachable.Length == next.Length == |query| + 1
      invariant 0 <= offset <= |anchor| && 0 <= k <= |Tokens(anchor)|
      invariant anchor[offset..] == Rest(anchor, k)
      invariant RowIs(reachable[..], Tokens(anchor)[..k], query)
      invariant NoneBefore(anchor, query, tailOk, k)
      invariant written == 1 + k * RowCost(query)
      decreases |anchor| - offset
    {
      LastCell(reachable[..], Tokens(anchor)[..k], query);
      CellBound(k, |anchor|, RowCost(query));
      ghost var row := reachable[..];
      if reachable[|query|] && tailOk(anchor[offset..]) {
        MatchesAt(anchor, query, tailOk, k);
        return true, written;
      }
      NoneHere(anchor, query, tailOk, k);
      if offset == |anchor| {
        return false, written;
      }
      var width;
      width, written := StepRow(anchor, query, k, anchor[offset..], reachable, next, written);
      offset := offset + width;
      k := k + 1;
      OneMoreRow(k, RowCost(query));
      if forall i :: 0 <= i < next.Length ==> !next[i] {
        NoRowAfterEmptyRow(anchor, query, tailOk, next[..], k);
        CellBound(k, |anchor|, RowCost(query));
        return false, written;
      }
      reachable, next := next, reachable;
    }
  }

  lemma RestStart(anchor: bytes, query: bytes, tailOk: bytes -> bool)
    ensures Rest(anchor, 0) == anchor && NoneBefore(anchor, query, tailOk, 0) && Tokens(anchor)[..0] == []
  {}

  lemma MatchesAt(anchor: bytes, query: bytes, tailOk: bytes -> bool, k: nat)
    requires k <= |Tokens(anchor)| && Denotes(Tokens(anchor)[..k], query) && tailOk(Rest(anchor, k))
    ensures Matches(anchor, query, tailOk)
  {}

  /** No match up to here, and none at all once nothing of the anchor is left. */
  lemma NoneHere(anchor: bytes, query: bytes, tailOk: bytes -> bool, k: nat)
    requires k <= |Tokens(anchor)| && NoneBefore(anchor, query, tailOk, k)
    requires !(Denotes(Tokens(anchor)[..k], query) && tailOk(Rest(anchor, k)))
    ensures k < |Tokens(anchor)| ==> NoneBefore(anchor, query, tailOk, k + 1)
    ensures Rest(anchor, k) == [] ==> !Matches(anchor, query, tailOk)
  {
    hide Denotes;
    if Rest(anchor, k) == [] {
      assert Tokens(Rest(anchor, k)) == Tokens(anchor)[k..];
      assert |Tokens(anchor)| == k;
    }
  }

  lemma OneMoreRow(k: nat, cost: nat)
    requires k > 0
    ensures 1 + (k - 1) * cost + cost == 1 + k * cost
  {}

  lemma LastCell(row: seq<bool>, ts: seq<Token>, query: bytes)
    requires RowIs(row, ts, query)
    ensures row[|query|] == Denotes(ts, query)
  {
    assert query[..|query|] == query;
  }

  lemma CellBound(k: nat, a: nat, cost: nat)
    requires k <= a
    ensures k * cost <= a * cost
  {
    assert (a - k) * cost >= 0;
  }

  lemma {:induction false} RestStep(anchor: bytes, k: nat)
    requires k <= |Tokens(anchor)| && Rest(anchor, k) != []
    ensures k < |Tokens(anchor)|
    ensures Tokens(anchor)[k] == HeadToken(Rest(anchor, k))
    ensures Rest(anchor, k + 1) == Rest(anchor, k)[HeadWidth(Rest(anchor, k))..]
  {
    assert Tokens(Rest(anchor, k)) == Tokens(anchor)[k..];
    if k > 0 {
      RestStep(anchor[HeadWidth(anchor)..], k - 1);
    }
  }

  lemma NoRowAfterEmptyRow(anchor: bytes, query: bytes, tailOk: bytes -> bool, row: seq<bool>, k: nat)
    requires k <= |Tokens(anchor)| && RowIs(row, Tokens(anchor)[..k], query)
    requires forall i :: 0 <= i < |row| ==> !row[i]
    requires NoneBefore(anchor, query, tailOk, k)
    ensures !Matches(anchor, query, tailOk)
  {
    var ts := Tokens(anchor);
    forall j | k <= j <= |ts| ensures !Denotes(ts[..j], query) {
      assert ts[..j][..k] == ts[..k];
      DenotesBlocked(ts[..j], k, query);
    }
  }

  // ----- the backtracking matcher the program replaced -----

  ghost predicate Backtrack(anchor: bytes, query: bytes, tailOk: bytes -> bool)
    decreases |anchor|
  {
    if query == [] then tailOk(anchor)
    else if anchor == [] then false
    else
      match Placeholder(anchor)
      case Some((width, spans)) =>
        exists i :: 0 < i <= |query| && AllAllowed(query[..i], spans)
                    && Backtrack(anchor[width..], query[i..], tailOk)
      case None => anchor[0] == query[0] && Backtrack(anchor[1..], query[1..], tailOk)
  }

  lemma DenotesNothing(ts: seq<Token>)
    ensures Denotes(ts, []) <==> ts == []
  {
    if ts == [] {
      DenotesNone([]);
    } else {
      assert [ts[0]] + ts[1..] == ts;
      DenotesCons(ts[0], ts[1..], []);
    }
  }

  lemma TokensUnfold(anchor: bytes)
    requires anchor != []
    ensures Tokens(anchor) == [HeadToken(anchor)] + Tokens(anchor[HeadWidth(anchor)..])
    ensures forall k :: 0 <= k <= |Tokens(anchor[HeadWidth(anchor)..])|
              ==> Rest(anchor, k + 1) == Rest(anchor[HeadWidth(anchor)..], k)
  {}

  lemma MatchesStep(anchor: bytes, query: bytes, tailOk: bytes -> bool)
    requires anchor != [] && query != []
    ensures Matches(anchor, query, tailOk) <==>
            exists m :: 0 <= m <= |query| && Fits(HeadToken(anchor), query[..m])
                        && Matches(anchor[HeadWidth(anchor)..], query[m..], tailOk)
  {
    hide Tokens, Rest, HeadWidth, HeadToken, Fits, Denotes;
    TokensUnfold(anchor);
    var ts, back := Tokens(anchor), anchor[HeadWidth(anchor)..];
    if Matches(anchor, query, tailOk) {
      var k :| 0 <= k <= |ts| && Denotes(ts[..k], query) && tailOk(Rest(anchor, k));
      assert k > 0 by { DenotesNone(query); assert ts[..0] == []; }
      assert ts[..k] == [ts[0]] + Tokens(back)[..k - 1];
      DenotesCons(ts[0], Tokens(back)[..k - 1], query);
      assert Rest(anchor, k - 1 + 1) == Rest(back, k - 1);
    }
    if m :| 0 <= m <= |query| && Fits(HeadToken(anchor), query[..m]) && Matches(back, query[m..], tailOk) {
      var k :| 0 <= k <= |Tokens(back)| && Denotes(Tokens(back)[..k], query[m..]) && tailOk(Rest(back, k));
      assert ts[..k + 1] == [ts[0]] + Tokens(back)[..k];
      DenotesCons(ts[0], Tokens(back)[..k], query);
      assert Rest(anchor, k + 1) == Rest(back, k);
    }
  }

  /** The dynamic program and the backtracking search decide the same relation. */
  lemma {:induction false} BacktrackRefined(anchor: bytes, query: bytes, tailOk: bytes -> bool)
    ensures Backtrack(anchor, query, tailOk) <==> Matches(anchor, query, tailOk)
    decreases |anchor|
  {
    if query == [] {
      MatchesNothing(anchor, tailOk);
    } else if anchor == [] {
      DenotesNone(query);
      assert Tokens(anchor)[..0] == [];
    } else {
      MatchesStep(anchor, query, tailOk);
      var back := anchor[HeadWidth(anchor)..];
      forall m | 0 <= m <= |query|
        ensures Backtrack(back, query[m..], tailOk) <==> Matches(back, query[m..], tailOk)
      {
        BacktrackRefined(back, query[m..], tailOk);
      }
      if Placeholder(anchor).None? {
        forall m | 0 <= m <= |query|
          ensures Fits(Literal(anchor[0]), query[..m]) <==> m == 1 && query[0] == anchor[0]
        {
          assert m > 0 ==> query[..m][0] == query[0];
          assert |[anchor[0]]| == 1;
        }
      }
    }
  }

  lemma MatchesNothing(anchor: bytes, tailOk: bytes -> bool)
    ensures Matches(anchor, [], tailOk) <==> tailOk(anchor)
  {
    var ts := Tokens(anchor);
    forall k | 0 <= k <= |ts| ensures Denotes(ts[..k], []) <==> k == 0 {
      DenotesNothing(ts[..k]);
    }
    assert Rest(anchor, 0) == anchor;
  }

  // ----- exact matches and the value boundary -----

  lemma {:induction false} RestEmpty(anchor: bytes, k: nat)
    requires k <= |Tokens(anchor)|
    ensures Rest(anchor, k) == [] <==> k == |Tokens(anchor)|
  {
    assert Tokens(Rest(anchor, k)) == Tokens(anchor)[k..];
    assert Rest(anchor, k) != [] ==> Tokens(Rest(anchor, k)) != [];
  }

  /** An exact match lays all the tokens over all of the query. */
  lemma ExactIsDenotes(anchor: bytes, query: bytes)
    ensures IsExact(anchor, query) <==> Denotes(Tokens(anchor), query)
  {
    var ts := Tokens(anchor);
    forall k | 0 <= k <= |ts| ensures AtEnd(Rest(anchor, k)) <==> k == |ts| {
      RestEmpty(anchor, k);
    }
    assert ts[..|ts|] == ts;
  }

  function Count(s: bytes, b: byte): nat {
    if s == [] then 0 else (if s[0] == b then 1 else 0) + Count(s[1..], b)
  }

  function LiteralCount(ts: seq<Token>, b: byte): nat {
    if ts == [] then 0 else (if ts[0] == Literal(b) then 1 else 0) + LiteralCount(ts[1..], b)
  }

  lemma {:induction false} CountAppend(s: bytes, t: bytes, b: byte)
    ensures Count(s + t, b) == Count(s, b) + Count(t, b)
  {
    if s == [] {
      assert s + t == t;
    } else {
      assert (s + t)[1..] == s[1..] + t;
      CountAppend(s[1..], t, b);
    }
  }

  lemma {:induction false} CountNone(s: bytes, b: byte)
    requires forall i :: 0 <= i < |s| ==> s[i] != b
    ensures Count(s, b) == 0
  {
    if s != [] { CountNone(s[1..], b); }
  }

  /** A byte no placeholder may swallow occurs in the query as often as it is spelled out. */
  lemma {:induction false} CountPreserved(ts: seq<Token>, query: bytes, b: byte)
    requires Denotes(ts, query)
    requires forall spans :: Wildcard(spans) in ts ==> !Allowed(b, spans)
    ensures Count(query, b) == LiteralCount(ts, b)
  {
    hide Denotes;
    if ts == [] {
      DenotesNone(query);
    } else {
      assert ts == [ts[0]] + ts[1..];
      DenotesCons(ts[0], ts[1..], query);
      var m :| 0 <= m <= |query| && Fits(ts[0], query[..m]) && Denotes(ts[1..], query[m..]);
      CountPreserved(ts[1..], query[m..], b);
      assert query == query[..m] + query[m..];
      CountAppend(query[..m], query[m..], b);
      match ts[0]
      case Literal(c) => assert query[..m] == [c]; assert Count([c], b) == (if c == b then 1 else 0) + Count([], b);
      case Wildcard(spans) => assert !Allowed(b, spans); CountNone(query[..m], b);
    }
  }

  lemma SpacesAreNeverSwallowed(anchor: bytes, query: bytes)
    requires IsExact(anchor, query)
    ensures Count(query, SPACE) == LiteralCount(Tokens(anchor), SPACE)
  {
    ExactIsDenotes(anchor, query);
    CountPreserved(Tokens(anchor), query, SPACE);
  }

  lemma SeparatorsNeedASpanningPlaceholder(anchor: bytes, query: bytes)
    requires IsExact(anchor, query) && !HasSpanning(anchor)
    ensures Count(query, BACKSLASH) == LiteralCount(Tokens(anchor), BACKSLASH)
  {
    ExactIsDenotes(anchor, query);
    CountPreserved(Tokens(anchor), query, BACKSLASH);
  }

  lemma TokensStep(anchor: bytes, t: Token)
    requires anchor != []
    ensures t in Tokens(anchor) <==> t == HeadToken(anchor) || t in Tokens(anchor[HeadWidth(anchor)..])
  {
    assert Tokens(anchor) == [HeadToken(anchor)] + Tokens(anchor[HeadWidth(anchor)..]);
  }

  ghost predicate HasSpanning(anchor: bytes) {
    Wildcard(true) in Tokens(anchor)
  }

  /** Position of the first `>` at or after `i`. */
  function CloseFrom(anchor: bytes, i: nat): (r: Option<nat>)
    requires i < |anchor|
    ensures r.Some? ==> i <= r.value < |anchor| && anchor[r.value] == GT
  {
    match IndexOf(anchor[i..], GT)
    case None => None
    case Some(close) => Some(i + close)
  }

  lemma SpanningStep(anchor: bytes, i: nat)
    requires i < |anchor|
    ensures anchor[i] != LT ==> (HasSpanning(anchor[i..]) <==> HasSpanning(anchor[i + 1..]))
    ensures anchor[i] == LT && CloseFrom(anchor, i).None? ==> !HasSpanning(anchor[i..])
    ensures anchor[i] == LT && CloseFrom(anchor, i).Some? ==>
              var close := CloseFrom(anchor, i).value;
              HasSpanning(anchor[i..]) <==>
              EndsWithDots(anchor[i + 1..close]) || HasSpanning(anchor[close + 1..])
  {
    hide IndexOf, Tokens, EndsWithDots;
    var rest := anchor[i..];
    TokensStep(rest, Wildcard(true));
    assert rest[HeadWidth(rest)..] == anchor[i + HeadWidth(rest)..];
    match IndexOf(rest, GT)
    case None => NoCloseNoPlaceholder(rest);
    case Some(close) => assert close > 0 ==> rest[1..close] == anchor[i + 1..i + close];
  }

  /** The bracket scan used for ranking sees exactly the matcher's spanning placeholders. */
  method SpansComponents(anchor: bytes) returns (spans: bool)
    ensures spans <==> HasSpanning(anchor)
  {
    hide HasSpanning, HasWildcard, IndexOf, CloseFrom, EndsWithDots;
    NothingSpans();
    var i := 0;
    assert anchor[0..] == anchor;
    while i < |anchor|
      invariant 0 <= i <= |anchor|
      invariant HasSpanning(anchor) <==> HasSpanning(anchor[i..])
    {
      SpanningStep(anchor, i);
      if anchor[i] != LT {
        i := i + 1;
        continue;
      }
      var close := CloseFrom(anchor, i);
      if close.None? {
        return false;
      }
      if EndsWithDots(anchor[i + 1..close.value]) {
        return true;
      }
      i := close.value + 1;
    }
    assert anchor[i..] == [];
    return false;
  }

  lemma NothingSpans()
    ensures !HasSpanning([])
  {}

  lemma {:induction false} NoCloseNoPlaceholder(anchor: bytes)
    requires GT !in anchor
    ensures forall spans :: Wildcard(spans) !in Tokens(anchor)
  {
    if anchor != [] {
      NoCloseNoPlaceholder(anchor[1..]);
    }
  }

  // ----- concrete anchors -----

  function Literals(s: bytes): (ts: seq<Token>)
    ensures |ts| == |s| && forall i :: 0 <= i < |s| ==> ts[i] == Literal(s[i])
  {
    seq(|s|, i requires 0 <= i < |s| => Literal(s[i]))
  }

  lemma {:induction false} ConcreteTokens(anchor: bytes)
    requires !HasWildcard(anchor)
    ensures Tokens(anchor) == Literals(anchor)
  {
    if anchor != [] {
      ConcreteTokens(anchor[1..]);
    }
  }

  lemma {:induction false} ConcreteRest(anchor: bytes, k: nat)
    requires !HasWildcard(anchor) && k <= |anchor|
    ensures k <= |Tokens(anchor)| && Rest(anchor, k) == anchor[k..]
  {
    ConcreteTokens(anchor);
    if k > 0 {
      ConcreteRest(anchor[1..], k - 1);
      assert anchor[1..][k - 1..] == anchor[k..];
    }
  }

  lemma {:induction false} LiteralsDenote(s: bytes, query: bytes)
    ensures Denotes(Literals(s), query) <==> s == query
  {
    if s == [] {
      DenotesNone(query);
    } else {
      var front, b := s[..|s| - 1], s[|s| - 1];
      assert Literals(s) == Literals(front) + [Literal(b)];
      DenotesSnoc(Literals(front), Literal(b), query);
      forall m | 0 <= m <= |query|
        ensures Denotes(Literals(front), query[..m]) && Fits(Literal(b), query[m..]) <==>
                query == s && m == |front|
      {
        LiteralsDenote(front, query[..m]);
        assert query == query[..m] + query[m..] && s == front + [b];
      }
    }
  }

  /** Without a `<` the matcher is byte equality, and prefix plus space for a key. */
  lemma ConcreteMatches(anchor: bytes, query: bytes)
    requires !HasWildcard(anchor)
    ensures IsExact(anchor, query) <==> anchor == query
    ensures IsUnderKey(anchor, query) <==>
            anchor == query
            || (|anchor| > |query| && StartsWith(anchor, query) && anchor[|query|] == SPACE)
  {
    ConcretePrefix(anchor, query, AtEnd);
    ConcretePrefix(anchor, query, AtEndOrSpace);
  }

  lemma {:induction false} ConcreteBoundary(anchor: bytes, query: bytes, k: nat)
    requires !HasWildcard(anchor) && k <= |anchor|
    ensures k <= |Tokens(anchor)| && Rest(anchor, k) == anchor[k..]
    ensures Denotes(Tokens(anchor)[..k], query) <==> anchor[..k] == query
  {
    ConcreteTokens(anchor);
    assert Tokens(anchor)[..k] == Literals(anchor[..k]);
    LiteralsDenote(anchor[..k], query);
    ConcreteRest(anchor, k);
  }

  lemma ConcretePrefix(anchor: bytes, query: bytes, tailOk: bytes -> bool)
    requires !HasWildcard(anchor)
    ensures Matches(anchor, query, tailOk) <==> query <= anchor && tailOk(anchor[|query|..])
  {
    if query <= anchor {
      ConcreteBoundary(anchor, query, |query|);
      assert anchor[..|query|] == query;
    }
    if Matches(anchor, query, tailOk) {
      var k :| 0 <= k <= |Tokens(anchor)| && Denotes(Tokens(anchor)[..k], query) && tailOk(Rest(anchor, k));
      ConcreteBoundary(anchor, query, k);
    }
  }

  /** The two questions a reader can ask of the manual. */
  datatype Query = Exact(text: bytes) | UnderKey(text: bytes) {
    ghost predicate Accepts(anchor: bytes) {
      match this
      case Exact(q) => IsExact(anchor, q)
      case UnderKey(q) => IsUnderKey(anchor, q)
    }

    method Test(anchor: bytes) returns (found: bool)
      ensures found <==> Accepts(anchor)
    {
      match this
      case Exact(q) => found := MatchesExact(anchor, q);
      case UnderKey(q) => found := MatchesUnderKey(anchor, q);
    }
  }

  method MatchesExact(anchor: bytes, query: bytes) returns (found: bool)
    ensures found <==> IsExact(anchor, query)
  {
    if !HasWildcard(anchor) {
      ConcreteMatches(anchor, query);
      return anchor == query;
    }
    ghost var written;
    found, written := Walk(anchor, query, AtEnd);
  }

  method MatchesUnderKey(anchor: bytes, query: bytes) returns (found: bool)
    ensures found <==> IsUnderKey(anchor, query)
  {
    if !HasWildcard(anchor) {
      ConcreteMatches(anchor, query);
      return anchor == query
        || (|anchor| > |query| && StartsWith(anchor, query) && anchor[|query|] == SPACE);
    }
    ghost var written;
    found, written := Walk(anchor, query, AtEndOrSpace);
  }

  // ----- an anchor as a query for itself -----

  /** The bytes each token is spelled with. */
  function Spelling(anchor: bytes): (pieces: seq<bytes>)
    ensures |pieces| == |Tokens(anchor)| && Concat(pieces) == anchor
  {
    if anchor == [] then []
    else
      var w := HeadWidth(anchor);
      assert anchor == anchor[..w] + anchor[w..];
      [anchor[..w]] + Spelling(anchor[w..])
  }

  ghost predicate CleanPlaceholders(anchor: bytes) {
    forall i, spans :: 0 <= i < |Tokens(anchor)| && Tokens(anchor)[i] == Wildcard(spans)
      ==> AllAllowed(Spelling(anchor)[i], spans)
  }

  lemma {:induction false} LiteralSpelling(anchor: bytes, i: nat)
    requires i < |Tokens(anchor)|
    ensures Spelling(anchor)[i] != []
    ensures Tokens(anchor)[i].Literal? ==> Spelling(anchor)[i] == [Tokens(anchor)[i].b]
  {
    if i > 0 { LiteralSpelling(anchor[HeadWidth(anchor)..], i - 1); }
  }

  /** Bytes of the spelling, counted by the token that spells them. */
  lemma {:induction false} CountSpelling(anchor: bytes, b: byte)
    ensures Count(anchor, b) >= LiteralCount(Tokens(anchor), b)
    ensures Count(anchor, b) == LiteralCount(Tokens(anchor), b) ==>
              forall i :: 0 <= i < |Tokens(anchor)| && Tokens(anchor)[i].Wildcard? ==> b !in Spelling(anchor)[i]
  {
    if anchor != [] {
      var w := HeadWidth(anchor);
      var head, back := anchor[..w], anchor[w..];
      assert anchor == head + back;
      CountAppend(head, back, b);
      CountSpelling(back, b);
      CountPositive(head, b);
      match HeadToken(anchor) {
        case Literal(c) => assert head == [c]; assert Count([c], b) == (if c == b then 1 else 0) + Count([], b);
        case Wildcard(_) =>
      }
    }
  }

  lemma {:induction false} CountPositive(s: bytes, b: byte)
    ensures b in s <==> Count(s, b) > 0
  {
    if s != [] {
      assert s == [s[0]] + s[1..];
      CountPositive(s[1..], b);
    }
  }

  /**
    An anchor is found by its own spelling when its placeholders hold no byte they
    do not stand for. A space inside a placeholder always prevents it; without a
    spanning placeholder the condition is exact.
  */
  lemma {:induction false} OwnSpelling(anchor: bytes)
    ensures CleanPlaceholders(anchor) ==> IsExact(anchor, anchor)
    ensures !HasSpanning(anchor) ==> (IsExact(anchor, anchor) <==> CleanPlaceholders(anchor))
    ensures (exists i :: 0 <= i < |Tokens(anchor)| && Tokens(anchor)[i].Wildcard? && SPACE in Spelling(anchor)[i])
            ==> !IsExact(anchor, anchor)
  {
    var ts, pieces := Tokens(anchor), Spelling(anchor);
    ExactIsDenotes(anchor, anchor);
    forall i | 0 <= i < |ts| ensures pieces[i] != [] && (ts[i].Literal? ==> pieces[i] == [ts[i].b]) {
      LiteralSpelling(anchor, i);
    }
    if CleanPlaceholders(anchor) {
      assert Covers(ts, pieces) by {
        forall i | 0 <= i < |ts| ensures Fits(ts[i], pieces[i]) {
          match ts[i] case Literal(_) => case Wildcard(spans) =>
        }
      }
    }
    if IsExact(anchor, anchor) {
      SpacesAreNeverSwallowed(anchor, anchor);
      CountSpelling(anchor, SPACE);
      if !HasSpanning(anchor) {
        SeparatorsNeedASpanningPlaceholder(anchor, anchor);
        CountSpelling(anchor, BACKSLASH);
      }
    }
  }

  lemma {:induction false} FirstAt(s: bytes, b: byte, i: nat)
    requires i < |s| && s[i] == b && b !in s[..i]
    ensures IndexOf(s, b) == Some(i)
  {
    if i > 0 {
      assert s[..i] == [s[0]] + s[1..][..i - 1];
      FirstAt(s[1..], b, i - 1);
    }
  }

  /** A placeholder in front of `rest`. */
  lemma LeadingPlaceholder(inside: bytes, rest: bytes)
    requires GT !in inside && inside != []
    ensures var anchor := [LT] + inside + [GT] + rest;
            && Tokens(anchor) == [Wildcard(EndsWithDots(inside))] + Tokens(rest)
            && Spelling(anchor) == [[LT] + inside + [GT]] + Spelling(rest)
  {
    hide EndsWithDots;
    var anchor := [LT] + inside + [GT] + rest;
    var close := |inside| + 1;
    assert anchor[..close] == [LT] + inside && anchor[1..close] == inside;
    FirstAt(anchor, GT, close);
    assert anchor[..close + 1] == [LT] + inside + [GT];
    assert anchor[close + 1..] == rest;
  }

  lemma LiteralHead(b: byte, rest: bytes)
    requires b != LT
    ensures Tokens([b] + rest) == [Literal(b)] + Tokens(rest)
  {
    assert ([b] + rest)[1..] == rest;
  }

  /** Bytes in front of the first bracket stand for themselves. */
  lemma {:induction false} FrontMatches(front: bytes, rest: bytes, query: bytes)
    requires LT !in front
    ensures Denotes(Tokens(front + rest), query) <==> front <= query && Denotes(Tokens(rest), query[|front|..])
    decreases |front|
  {
    hide Denotes, Tokens;
    if front == [] {
      assert front + rest == rest && query[0..] == query;
    } else {
      assert front == [front[0]] + front[1..];
      assert front + rest == [front[0]] + (front[1..] + rest);
      LiteralHead(front[0], front[1..] + rest);
      DenotesCons(Literal(front[0]), Tokens(front[1..] + rest), query);
      if query != [] {
        FrontMatches(front[1..], rest, query[1..]);
        assert query == [query[0]] + query[1..];
        if |front| <= |query| {
          assert query[1..][|front| - 1..] == query[|front|..];
        }
      }
    }
  }

  /** A piece that a placeholder with this text inside stands for. */
  predicate StandsFor(inside: bytes, piece: bytes) {
    piece != [] && 32 !in piece && (92 !in piece || (|inside| >= 3 && inside[|inside| - 3..] == [46, 46, 46]))
  }

  lemma StandsForFits(inside: bytes, piece: bytes)
    ensures StandsFor(inside, piece) <==> Fits(Wildcard(EndsWithDots(inside)), piece)
  {
    var spans := EndsWithDots(inside);
    assert AllAllowed(piece, spans) ==> 32 !in piece && (spans || 92 !in piece);
  }

  lemma LiteralsOnly(back: bytes, query: bytes)
    requires LT !in back
    ensures Denotes(Tokens(back), query) <==> query == back
  {
    hide Denotes, Tokens;
    assert back + [] == back;
    FrontMatches(back, [], query);
    NoTokens();
    if back <= query {
      DenotesNone(query[|back|..]);
    }
  }

  lemma PlaceholderMatches(inside: bytes, back: bytes, query: bytes)
    requires GT !in inside && inside != [] && LT !in back
    ensures Denotes(Tokens([LT] + inside + [GT] + back), query) <==>
            exists piece :: query == piece + back && StandsFor(inside, piece)
  {
    hide Denotes, Tokens, StandsFor, Fits;
    LeadingPlaceholder(inside, back);
    var t := Wildcard(EndsWithDots(inside));
    DenotesCons(t, Tokens(back), query);
    forall m | 0 <= m <= |query|
      ensures Fits(t, query[..m]) && Denotes(Tokens(back), query[m..])
              <==> StandsFor(inside, query[..m]) && query == query[..m] + back
    {
      StandsForFits(inside, query[..m]);
      LiteralsOnly(back, query[m..]);
      assert query == query[..m] + query[m..];
    }
    if piece :| query == piece + back && StandsFor(inside, piece) {
      assert query[..|piece|] == piece;
    }
  }

  /**
    A page with one placeholder answers exactly the queries that have its text before
    and behind it and, in between, one or more bytes that are no space, and no separator
    unless the placeholder ends in three dots.
  */
  lemma FamilyPage(front: bytes, inside: bytes, back: bytes, query: bytes)
    requires LT !in front && GT !in inside && inside != [] && LT !in back
    ensures IsExact(front + ([60] + inside + [62] + back), query) <==>
            exists piece :: query == front + (piece + back) && StandsFor(inside, piece)
  {
    hide IsExact, Denotes, Tokens, StandsFor;
    var rest := [LT] + inside + [GT] + back;
    ExactIsDenotes(front + rest, query);
    FrontMatches(front, rest, query);
    if front <= query {
      PlaceholderMatches(inside, back, query[|front|..]);
      assert query == front + query[|front|..];
    }
    if piece :| query == front + (piece + back) && StandsFor(inside, piece) {
      assert front <= query && query[|front|..] == piece + back;
    }
  }

  /** `<a\b><x...>`: the second placeholder stands for all that the first cannot. */
  const CROSSING: bytes := [LT] + [97, BACKSLASH, 98] + [GT] + [LT, 120, DOT, DOT, DOT, GT]

  /** With a spanning placeholder an anchor may be found by its own spelling though not clean. */
  lemma NeighbourStandsIn()
    ensures HasSpanning(CROSSING) && IsExact(CROSSING, CROSSING) && !CleanPlaceholders(CROSSING)
  {
    hide Tokens, Spelling, IsExact;
    var first, second := [97, BACKSLASH, 98], [120, DOT, DOT, DOT];
    assert [LT] + second + [GT] + [] == [LT, 120, DOT, DOT, DOT, GT];
    LeadingPlaceholder(first, [LT] + second + [GT] + []);
    LeadingPlaceholder(second, []);
    var ts := Tokens(CROSSING);
    assert Tokens([]) == [] && |Spelling([])| == 0 by { NoTokens(); }
    assert second[1..] == [DOT, DOT, DOT];
    assert ts == [Wildcard(false), Wildcard(true)] && ts[1] == Wildcard(true);
    assert Spelling(CROSSING)[0] == [LT] + first + [GT] && Spelling(CROSSING)[0][2] == BACKSLASH;
    var pieces := [CROSSING[..1], CROSSING[1..]];
    assert Covers(ts, pieces);
    assert pieces[1..] == [CROSSING[1..]];
    ConcatOne(CROSSING[1..]);
    assert Concat(pieces) == CROSSING;
    ExactIsDenotes(CROSSING, CROSSING);
  }

  lemma NoTokens()
    ensures Tokens([]) == [] && Spelling([]) == []
  {}

  lemma ConcatOne(piece: bytes)
    ensures Concat([piece]) == piece
  {
    assert [piece][1..] == [];
  }
}
