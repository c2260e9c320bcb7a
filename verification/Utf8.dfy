/**
  Rust's `str`: which byte strings are well-formed UTF-8 (RFC 3629, section 4), where
  such a string may be cut, and the white space that `str::trim` takes off.
*/
module Utf8 {
  import opened Bytes

  predicate InRange(b: byte, low: byte, high: byte) {
    low <= b <= high
  }

  predicate IsContinuation(b: byte) {
    InRange(b, 0x80, 0xBF)
  }

  predicate Continues(s: bytes, n: nat)
    requires n <= |s|
  {
    forall i :: 0 <= i < n ==> IsContinuation(s[i])
  }

  /** The width of the leading character, or 0 if none is well formed. */
  function CharWidth(s: bytes): (w: nat)
    ensures w <= |s|
    ensures w > 0 ==> !IsContinuation(s[0]) && Continues(s[1..], w - 1)
  {
    if s == [] then 0
    else if s[0] < 0x80 then 1
    else if |s| >= 2 && InRange(s[0], 0xC2, 0xDF) && IsContinuation(s[1]) then 2
    else if |s| >= 3 && InRange(s[0], 0xE0, 0xEF) && ThirdsFollow(s[0], s[1], s[2]) then 3
    else if |s| >= 4 && InRange(s[0], 0xF0, 0xF4) && FourthsFollow(s[0], s[1], s[2], s[3]) then 4
    else 0
  }

  predicate ThirdsFollow(lead: byte, b: byte, c: byte) {
    InRange(b, if lead == 0xE0 then 0xA0 else 0x80, if lead == 0xED then 0x9F else 0xBF) && IsContinuation(c)
  }

  predicate FourthsFollow(lead: byte, b: byte, c: byte, d: byte) {
    InRange(b, if lead == 0xF0 then 0x90 else 0x80, if lead == 0xF4 then 0x8F else 0xBF)
    && IsContinuation(c) && IsContinuation(d)
  }

  predicate IsUtf8(s: bytes)
    decreases |s|
  {
    s == [] || (CharWidth(s) > 0 && IsUtf8(s[CharWidth(s)..]))
  }

  // ----- it is the encoding of scalar values -----

  predicate IsScalar(c: nat) {
    c < 0xD800 || 0xE000 <= c < 0x110000
  }

  function Tail(c: nat): byte {
    (0x80 + c % 64) as byte
  }

  /** The encoding of a scalar value (table in section 3 of RFC 3629). */
  function EncodeScalar(c: nat): bytes
    requires IsScalar(c)
  {
    if c < 0x80 then [c as byte]
    else if c < 0x800 then [(0xC0 + c / 64) as byte, Tail(c)]
    else if c < 0x10000 then [(0xE0 + c / 64 / 64) as byte, Tail(c / 64), Tail(c)]
    else [(0xF0 + c / 64 / 64 / 64) as byte, Tail(c / 64 / 64), Tail(c / 64), Tail(c)]
  }

  function ScalarOf(s: bytes): nat
    requires CharWidth(s) > 0
  {
    match CharWidth(s)
    case 1 => s[0] as nat
    case 2 => (s[0] - 0xC0) as nat * 64 + (s[1] - 0x80) as nat
    case 3 => ((s[0] - 0xE0) as nat * 64 + (s[1] - 0x80) as nat) * 64 + (s[2] - 0x80) as nat
    case _ => (((s[0] - 0xF0) as nat * 64 + (s[1] - 0x80) as nat) * 64 + (s[2] - 0x80) as nat) * 64
              + (s[3] - 0x80) as nat
  }

  lemma CharIsEncoded(s: bytes)
    requires CharWidth(s) > 0
    ensures IsScalar(ScalarOf(s)) && EncodeScalar(ScalarOf(s)) == s[..CharWidth(s)]
  {
    match CharWidth(s) {
      case 1 =>
      case 2 =>
        SixBits((s[0] - 0xC0) as nat, s[1]);
      case 3 =>
        SixBits((s[0] - 0xE0) as nat, s[1]);
        SixBits((s[0] - 0xE0) as nat * 64 + (s[1] - 0x80) as nat, s[2]);
      case _ =>
        SixBits((s[0] - 0xF0) as nat, s[1]);
        SixBits((s[0] - 0xF0) as nat * 64 + (s[1] - 0x80) as nat, s[2]);
        SixBits(((s[0] - 0xF0) as nat * 64 + (s[1] - 0x80) as nat) * 64 + (s[2] - 0x80) as nat, s[3]);
    }
  }

  lemma SixBits(high: nat, b: byte)
    requires IsContinuation(b)
    ensures var c := high * 64 + (b - 0x80) as nat;
            c / 64 == high && Tail(c) == b
  {}

  lemma EncodedIsAChar(c: nat, rest: bytes)
    requires IsScalar(c)
    ensures CharWidth(EncodeScalar(c) + rest) == |EncodeScalar(c)|
  {}

  function EncodeScalars(cs: seq<nat>): bytes
    requires forall i :: 0 <= i < |cs| ==> IsScalar(cs[i])
  {
    if cs == [] then [] else EncodeScalar(cs[0]) + EncodeScalars(cs[1..])
  }

  /** A string is UTF-8 iff it encodes some sequence of scalar values. */
  lemma {:induction false} Utf8IsEncoded(s: bytes)
    ensures IsUtf8(s) <==> exists cs: seq<nat> ::
              (forall i :: 0 <= i < |cs| ==> IsScalar(cs[i])) && EncodeScalars(cs) == s
  {
    hide CharWidth, EncodeScalar, IsUtf8, EncodeScalars;
    if IsUtf8(s) {
      var cs := DecodeAll(s);
    }
    forall cs: seq<nat> | (forall i :: 0 <= i < |cs| ==> IsScalar(cs[i])) && EncodeScalars(cs) == s
      ensures IsUtf8(s)
    {
      EncodedIsUtf8(cs);
    }
  }

  lemma {:induction false} DecodeAll(s: bytes) returns (cs: seq<nat>)
    requires IsUtf8(s)
    ensures (forall i :: 0 <= i < |cs| ==> IsScalar(cs[i])) && EncodeScalars(cs) == s
    decreases |s|
  {
    hide CharWidth, EncodeScalar, ScalarOf;
    cs := [];
    if s != [] {
      var w := CharWidth(s);
      CharIsEncoded(s);
      var rest := DecodeAll(s[w..]);
      cs := [ScalarOf(s)] + rest;
      assert cs[1..] == rest && s == s[..w] + s[w..];
    }
  }

  lemma {:induction false} EncodedIsUtf8(cs: seq<nat>)
    requires forall i :: 0 <= i < |cs| ==> IsScalar(cs[i])
    ensures IsUtf8(EncodeScalars(cs))
  {
    hide CharWidth, EncodeScalar;
    if cs != [] {
      var first, rest := EncodeScalar(cs[0]), EncodeScalars(cs[1..]);
      EncodedIsUtf8(cs[1..]);
      EncodedIsAChar(cs[0], rest);
      assert (first + rest)[|first|..] == rest;
      EncodedWidth(cs[0]);
    }
  }

  lemma EncodedWidth(c: nat)
    requires IsScalar(c)
    ensures |EncodeScalar(c)| > 0
  {}

  ghost predicate AllUtf8(parts: seq<bytes>) {
    forall i :: 0 <= i < |parts| ==> IsUtf8(parts[i])
  }

  // ----- cutting -----

  /** No character is cut in front of `b`. */
  predicate AtBoundary(b: bytes) {
    b == [] || !IsContinuation(b[0])
  }

  lemma WidthOfPrefix(a: bytes, b: bytes)
    requires a != [] && AtBoundary(b) && CharWidth(a + b) > 0
    ensures CharWidth(a + b) == CharWidth(a)
  {
    if b == [] {
      assert a + b == a;
    } else {
      assert (a + b)[1..][|a| - 1] == b[0];
    }
  }

  lemma {:induction false} CutUtf8(a: bytes, b: bytes)
    requires IsUtf8(a + b) && AtBoundary(b)
    ensures IsUtf8(a) && IsUtf8(b)
    decreases |a|
  {
    if a == [] {
      assert a + b == b;
    } else {
      WidthOfPrefix(a, b);
      var w := CharWidth(a);
      assert (a + b)[w..] == a[w..] + b;
      CutUtf8(a[w..], b);
    }
  }

  /** What follows an ASCII byte starts a character. */
  lemma AfterAscii(a: bytes, c: byte, b: bytes)
    requires IsUtf8(a + [c] + b) && c < 0x80
    ensures IsUtf8(a) && IsUtf8(b)
  {
    assert a + [c] + b == a + ([c] + b);
    CutUtf8(a, [c] + b);
    assert ([c] + b)[1..] == b;
  }

  lemma {:induction false} AfterAsciiPrefix(prefix: bytes, b: bytes)
    requires IsUtf8(prefix + b) && forall i :: 0 <= i < |prefix| ==> prefix[i] < 0x80
    ensures IsUtf8(b)
    decreases |prefix|
  {
    if prefix == [] {
      assert prefix + b == b;
    } else {
      assert (prefix + b)[1..] == prefix[1..] + b;
      AfterAsciiPrefix(prefix[1..], b);
    }
  }

  // ----- white space -----

  /** The width of a leading white-space character (Unicode's White_Space), or 0. */
  function SpaceWidth(s: bytes): (w: nat)
    ensures w <= |s|
  {
    if |s| >= 1 && (s[0] == SPACE || InRange(s[0], 9, 13)) then 1
    else if |s| >= 2 && s[0] == 0xC2 && (s[1] == 0x85 || s[1] == 0xA0) then 2
    else if |s| >= 3 && IsWideSpace(s[0], s[1], s[2]) then 3
    else 0
  }

  predicate IsWideSpace(a: byte, b: byte, c: byte) {
    || (a == 0xE1 && b == 0x9A && c == 0x80)
    || (a == 0xE2 && b == 0x80 && (InRange(c, 0x80, 0x8A) || c == 0xA8 || c == 0xA9 || c == 0xAF))
    || (a == 0xE2 && b == 0x81 && c == 0x9F)
    || (a == 0xE3 && b == 0x80 && c == 0x80)
  }

  /** The width of the white-space character at the end, or 0. */
  function LastSpaceWidth(s: bytes): (w: nat)
    ensures w <= |s|
  {
    if |s| >= 1 && SpaceWidth(s[|s| - 1..]) == 1 then 1
    else if |s| >= 2 && SpaceWidth(s[|s| - 2..]) == 2 then 2
    else if |s| >= 3 && SpaceWidth(s[|s| - 3..]) == 3 then 3
    else 0
  }

  /** The white-space characters are 25 scalar values. */
  lemma WhiteSpaceIs(c: nat, rest: bytes)
    requires IsScalar(c)
    ensures SpaceWidth(EncodeScalar(c) + rest) > 0 <==>
            || 9 <= c <= 13 || c == 0x20 || c == 0x85 || c == 0xA0 || c == 0x1680 || 0x2000 <= c <= 0x200A
            || c == 0x2028 || c == 0x2029 || c == 0x202F || c == 0x205F || c == 0x3000
  {}

  function TrimStart(s: bytes): bytes
    decreases |s|
  {
    if SpaceWidth(s) == 0 then s else TrimStart(s[SpaceWidth(s)..])
  }

  function TrimEnd(s: bytes): bytes
    decreases |s|
  {
    if LastSpaceWidth(s) == 0 then s else TrimEnd(s[..|s| - LastSpaceWidth(s)])
  }

  function Trim(s: bytes): bytes {
    TrimEnd(TrimStart(s))
  }

  lemma LastSpaceIs(s: bytes)
    ensures var w := LastSpaceWidth(s); w > 0 ==> SpaceWidth(s[|s| - w..]) == w
  {
    hide SpaceWidth;
  }

  lemma SpaceIsAChar(s: bytes)
    requires SpaceWidth(s) > 0
    ensures CharWidth(s) == SpaceWidth(s)
  {}

  predicate AllSpace(s: bytes)
    decreases |s|
  {
    s == [] || (SpaceWidth(s) > 0 && AllSpace(s[SpaceWidth(s)..]))
  }

  lemma NoSpaceAtAll()
    ensures AllSpace([])
  {}

  lemma SpaceExtends(a: bytes, b: bytes)
    requires SpaceWidth(a) > 0
    ensures SpaceWidth(a + b) == SpaceWidth(a)
  {}

  lemma {:induction false} AllSpaceAppend(a: bytes, b: bytes)
    requires AllSpace(a) && AllSpace(b)
    ensures AllSpace(a + b)
    decreases |a|
  {
    hide SpaceWidth;
    if a == [] {
      assert a + b == b;
    } else {
      SpaceExtends(a, b);
      assert (a + b)[SpaceWidth(a)..] == a[SpaceWidth(a)..] + b;
      AllSpaceAppend(a[SpaceWidth(a)..], b);
    }
  }

  lemma TrimStartStep(s: bytes)
    ensures TrimStart(s) == if SpaceWidth(s) == 0 then s else TrimStart(s[SpaceWidth(s)..])
  {}

  lemma {:induction false} TrimStartIs(s: bytes) returns (lead: bytes)
    ensures s == lead + TrimStart(s) && AllSpace(lead) && SpaceWidth(TrimStart(s)) == 0
    decreases |s|
  {
    hide SpaceWidth, AllSpace, TrimStart;
    TrimStartStep(s);
    var w := SpaceWidth(s);
    lead := [];
    NoSpaceAtAll();
    if w > 0 {
      var more := TrimStartIs(s[w..]);
      OneSpace(s);
      AllSpaceAppend(s[..w], more);
      Regroup(s[..w], more, TrimStart(s));
      assert s == s[..w] + s[w..];
      lead := s[..w] + more;
    }
  }

  lemma Regroup(a: bytes, b: bytes, c: bytes)
    ensures a + b + c == a + (b + c)
  {}

  lemma {:induction false} TrimStartUtf8(s: bytes)
    requires IsUtf8(s)
    ensures IsUtf8(TrimStart(s))
    decreases |s|
  {
    hide SpaceWidth, CharWidth;
    if SpaceWidth(s) > 0 {
      SpaceIsAChar(s);
      TrimStartUtf8(s[SpaceWidth(s)..]);
    }
  }

  lemma OneSpace(s: bytes)
    requires SpaceWidth(s) > 0
    ensures AllSpace(s[..SpaceWidth(s)])
  {
    assert SpaceWidth(s[..SpaceWidth(s)]) == SpaceWidth(s);
  }

  lemma {:induction false} TrimEndIs(s: bytes) returns (trail: bytes)
    ensures s == TrimEnd(s) + trail && AllSpace(trail) && LastSpaceWidth(TrimEnd(s)) == 0
    decreases |s|
  {
    hide SpaceWidth, LastSpaceWidth, AllSpace;
    var w := LastSpaceWidth(s);
    if w == 0 {
      trail := [];
      NoSpaceAtAll();
    } else {
      var kept, space := s[..|s| - w], s[|s| - w..];
      LastSpaceIs(s);
      var more := TrimEndIs(kept);
      OneSpace(space);
      assert space[..w] == space;
      AllSpaceAppend(more, space);
      trail := more + space;
      Regroup(TrimEnd(kept), more, space);
      assert s == kept + space;
    }
  }

  lemma {:induction false} TrimEndUtf8(s: bytes)
    requires IsUtf8(s)
    ensures IsUtf8(TrimEnd(s))
    decreases |s|
  {
    hide SpaceWidth, CharWidth, LastSpaceWidth;
    var w := LastSpaceWidth(s);
    if w > 0 {
      var kept, space := s[..|s| - w], s[|s| - w..];
      LastSpaceIs(s);
      assert s == kept + space;
      SpaceIsAChar(space);
      CutUtf8(kept, space);
      TrimEndUtf8(kept);
    }
  }

  /**
    Trimming takes white space off both ends and leaves none there; of UTF-8 it
    leaves UTF-8.
  */
  lemma TrimIs(s: bytes) returns (lead: bytes, trail: bytes)
    ensures s == lead + Trim(s) + trail && AllSpace(lead) && AllSpace(trail)
    ensures SpaceWidth(Trim(s)) == 0 && LastSpaceWidth(Trim(s)) == 0
    ensures IsUtf8(s) ==> IsUtf8(Trim(s))
  {
    hide TrimStart, TrimEnd, LastSpaceWidth, SpaceWidth;
    lead := TrimStartIs(s);
    trail := TrimEndIs(TrimStart(s));
    NoSpaceBefore(Trim(s), trail);
    Regroup(lead, Trim(s), trail);
    if IsUtf8(s) {
      TrimStartUtf8(s);
      TrimEndUtf8(TrimStart(s));
    }
  }

  lemma NoSpaceBefore(a: bytes, b: bytes)
    requires SpaceWidth(a + b) == 0
    ensures SpaceWidth(a) == 0
  {
    hide SpaceWidth;
    if SpaceWidth(a) > 0 {
      SpaceExtends(a, b);
    }
  }

  lemma TrimNothing(s: bytes)
    requires SpaceWidth(s) == 0 && LastSpaceWidth(s) == 0
    ensures Trim(s) == s
  {
    hide SpaceWidth, LastSpaceWidth;
  }

  lemma NoSpaceAt(s: bytes)
    requires s != [] && 33 <= s[0] < 0x80
    ensures SpaceWidth(s) == 0
  {}

  lemma LettersAreTrimmed(s: bytes)
    requires s != [] && forall i :: 0 <= i < |s| ==> 33 <= s[i] < 0x80
    ensures Trim(s) == s
  {
    hide SpaceWidth, Trim;
    NoSpaceAt(s);
    NoSpaceAt(s[|s| - 1..]);
    if |s| >= 2 { NoSpaceAt(s[|s| - 2..]); }
    if |s| >= 3 { NoSpaceAt(s[|s| - 3..]); }
    TrimNothing(s);
  }
}
