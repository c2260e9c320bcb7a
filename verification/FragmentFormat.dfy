/** Records written as fenced documents are read back (crates/registry-manual/src/fragment.rs 1-19, 108-256). */
module FragmentFormat {
  import opened Bytes
  import opened Utf8
  import opened Fragment

  const CANONICAL: bytes := [99, 97, 110, 111, 110, 105, 99, 97, 108]
  const TYPE: bytes := [116, 121, 112, 101]
  const DEFAULT: bytes := [100, 101, 102, 97, 117, 108, 116]
  const VALID: bytes := [118, 97, 108, 105, 100]
  const APPLIES: bytes := [97, 112, 112, 108, 105, 101, 115]
  const DEPRECATED: bytes := [100, 101, 112, 114, 101, 99, 97, 116, 101, 100]

  /** `key: value` */
  function FieldLine(key: bytes, value: bytes): bytes {
    key + ([58] + if value == [] then [] else [32] + value)
  }

  function FieldText(key: bytes, value: Option<bytes>): bytes {
    match value case None => [] case Some(v) => FieldLine(key, v) + [10]
  }

  function HeaderText(r: Record): bytes {
    FieldText(CANONICAL, Some(r.canonical)) + (FieldText(TYPE, r.valueType) + (FieldText(DEFAULT, r.default)
    + (FieldText(VALID, r.valid) + (FieldText(APPLIES, r.applies) + (FieldText(DEPRECATED, r.deprecated) + [])))))
  }

  /** The fence line, a line for each field, a blank line and the body. */
  function FormatRecord(r: Record): bytes {
    [45, 45, 45, 32] + r.anchor + ([10] + (HeaderText(r) + ([10] + (r.body + [10]))))
  }

  function Format(rs: seq<Record>): bytes {
    if rs == [] then [] else FormatRecord(rs[0]) + Format(rs[1..])
  }

  // ----- what can be written -----

  /** One line of text without white space at its ends. */
  predicate IsLine(s: bytes) {
    LF !in s && SpaceWidth(s) == 0 && LastSpaceWidth(s) == 0
  }

  predicate IsLineIfAny(value: Option<bytes>) {
    value.Some? ==> IsLine(value.value)
  }

  ghost predicate NoFences(text: bytes) {
    forall at :: 0 <= at <= |text| && LineStart(text, at) ==> FenceAnchor(LineAt(text, at)) == None
  }

  /** A record whose fields are trimmed lines and whose body has no fence and no newline at its ends. */
  ghost predicate Writable(r: Record) {
    && r.anchor != [] && IsLine(r.anchor) && IsLine(r.canonical)
    && IsLineIfAny(r.valueType) && IsLineIfAny(r.default) && IsLineIfAny(r.valid)
    && IsLineIfAny(r.applies) && IsLineIfAny(r.deprecated)
    && (r.body != [] ==> r.body[0] != LF && r.body[|r.body| - 1] != LF) && NoFences(r.body)
  }

  // ----- one field -----

  /** White space that starts with an ASCII byte is that byte. */
  lemma SpacesAreShort(s: bytes)
    requires s != [] && s[0] < 0x80
    ensures SpaceWidth(s) <= 1
  {}

  predicate EndsInSpace(s: bytes, k: nat)
    requires k <= |s|
  {
    SpaceWidth(s[|s| - k..]) == k
  }

  lemma EndIs(s: bytes)
    ensures LastSpaceWidth(s) == 0 <==>
            (|s| >= 1 ==> !EndsInSpace(s, 1)) && (|s| >= 2 ==> !EndsInSpace(s, 2)) && (|s| >= 3 ==> !EndsInSpace(s, 3))
  {
    hide SpaceWidth;
  }

  lemma SameEnd(front: bytes, s: bytes, k: nat)
    requires k <= |s|
    ensures EndsInSpace(front + s, k) == EndsInSpace(s, k)
  {
    hide SpaceWidth;
    var t := front + s;
    assert t[|t| - k..] == s[|s| - k..];
  }

  lemma AsciiEnd(front: bytes, s: bytes, k: nat)
    requires |s| < k <= |front + s| && front[|front + s| - k] < 0x80 && k > 1
    ensures !EndsInSpace(front + s, k)
  {
    hide SpaceWidth;
    var t := front + s;
    assert t[|t| - k..][0] == front[|t| - k];
    SpacesAreShort(t[|t| - k..]);
  }

  /** White space at the end of `front + s`, where `front` ends in ASCII, is at the end of `s`. */
  lemma LastSpaceBehind(front: bytes, s: bytes)
    requires |front| > 1 && front[|front| - 1] < 0x80 && front[|front| - 2] < 0x80
    requires s != [] && LastSpaceWidth(s) == 0
    ensures LastSpaceWidth(front + s) == 0
  {
    hide LastSpaceWidth, EndsInSpace;
    EndIs(s);
    EndIs(front + s);
    SameEnd(front, s, 1);
    if |s| >= 2 { SameEnd(front, s, 2); } else { AsciiEnd(front, s, 2); }
    if |s| >= 3 { SameEnd(front, s, 3); } else { AsciiEnd(front, s, 3); }
  }

  predicate IsKey(key: bytes) {
    key != [] && forall i :: 0 <= i < |key| ==> 97 <= key[i] <= 122
  }

  lemma TrimBehindSpace(value: bytes)
    requires IsLine(value)
    ensures Trim(if value == [] then [] else [32] + value) == value
  {
    if value != [] {
      assert ([32] + value)[1..] == value;
      hide LastSpaceWidth;
      assert SpaceWidth([32] + value) == 1;
      hide SpaceWidth;
      TrimStartStep([32] + value);
      TrimStartStep(value);
    }
  }

  lemma FieldLineIsTrimmed(key: bytes, value: bytes)
    requires IsKey(key) && IsLine(value)
    ensures Trim(FieldLine(key, value)) == FieldLine(key, value)
  {
    var line := FieldLine(key, value);
    hide SpaceWidth, LastSpaceWidth;
    NoSpaceAt(line);
    if value == [] {
      LettersAreTrimmed(line);
    } else {
      var front := key + [58, 32];
      assert line == front + value;
      LastSpaceBehind(front, value);
      TrimNothing(line);
    }
  }

  lemma ValueInField(key: bytes, value: bytes, name: string)
    requires IsKey(key) && IsLine(value)
    ensures ValueIn(FieldLine(key, value), name) == if Spells(key, name) then Some(value) else None
  {
    hide Trim, Spells, SplitColon;
    FieldLineIsTrimmed(key, value);
    var rest := if value == [] then [] else [32] + value;
    SplitColonIs(FieldLine(key, value), key, rest);
    LettersAreTrimmed(key);
    TrimBehindSpace(value);
  }

  lemma LastValueStep(line: bytes, rest: bytes, name: string)
    requires LF !in line
    ensures LastValue(line + ([10] + rest), name) == Later(ValueIn(line, name), LastValue(rest, name))
  {
    hide ValueIn, LineLength;
    var text := line + ([10] + rest);
    LineLengthIs(line, [10] + rest);
    assert text[..|line|] == line && text[|line| + 1..] == rest;
  }

  lemma LastValueOver(key: bytes, value: Option<bytes>, rest: bytes, name: string)
    requires IsKey(key) && IsLineIfAny(value)
    ensures LastValue(FieldText(key, value) + rest, name)
            == Later(if Spells(key, name) then value else None, LastValue(rest, name))
  {
    hide Spells, LastValue, ValueIn, Trim;
    match value
    case None => assert FieldText(key, value) + rest == rest;
    case Some(v) =>
      assert FieldText(key, value) + rest == FieldLine(key, v) + ([10] + rest);
      LastValueStep(FieldLine(key, v), rest, name);
      ValueInField(key, v, name);
  }

  lemma NoValue(name: string)
    ensures LastValue([], name) == None
  {}

  lemma KeysSpell()
    ensures Spells(CANONICAL, "canonical") && Spells(TYPE, "type") && Spells(DEFAULT, "default")
    ensures Spells(VALID, "valid") && Spells(APPLIES, "applies") && Spells(DEPRECATED, "deprecated")
    ensures IsKey(CANONICAL) && IsKey(TYPE) && IsKey(DEFAULT) && IsKey(VALID) && IsKey(APPLIES) && IsKey(DEPRECATED)
  {
    hide Spells;
    SpellsLetters(CANONICAL, "canonical");
    SpellsLetters(TYPE, "type");
    SpellsLetters(DEFAULT, "default");
    SpellsLetters(VALID, "valid");
    SpellsLetters(APPLIES, "applies");
    SpellsLetters(DEPRECATED, "deprecated");
  }

  /** What the field of this key gives to this name. */
  lemma OneField(r: Record, name: string)
    requires Writable(r)
    ensures LastValue(HeaderText(r), name)
            == Later(if Spells(CANONICAL, name) then Some(r.canonical) else None,
               Later(if Spells(TYPE, name) then r.valueType else None,
               Later(if Spells(DEFAULT, name) then r.default else None,
               Later(if Spells(VALID, name) then r.valid else None,
               Later(if Spells(APPLIES, name) then r.applies else None,
                     if Spells(DEPRECATED, name) then r.deprecated else None)))))
  {
    hide LastValue, Spells, FieldText, IsLine, NoFences;
    KeysSpell();
    var t6 := FieldText(DEPRECATED, r.deprecated) + [];
    var t5 := FieldText(APPLIES, r.applies) + t6;
    var t4 := FieldText(VALID, r.valid) + t5;
    var t3 := FieldText(DEFAULT, r.default) + t4;
    var t2 := FieldText(TYPE, r.valueType) + t3;
    LastValueOver(CANONICAL, Some(r.canonical), t2, name);
    LastValueOver(TYPE, r.valueType, t3, name);
    LastValueOver(DEFAULT, r.default, t4, name);
    LastValueOver(VALID, r.valid, t5, name);
    LastValueOver(APPLIES, r.applies, t6, name);
    LastValueOver(DEPRECATED, r.deprecated, [], name);
    NoValue(name);
  }

  lemma HeaderIsRead(r: Record)
    requires Writable(r)
    ensures HeaderOf(HeaderText(r))
            == Header(Some(r.canonical), r.valueType, r.default, r.valid, r.applies, r.deprecated)
  {
    hide LastValue, Spells, HeaderText, Writable;
    KeysSpell();
    OneName(CANONICAL);
    OneName(TYPE);
    OneName(DEFAULT);
    OneName(VALID);
    OneName(APPLIES);
    OneName(DEPRECATED);
    OneField(r, "canonical");
    OneField(r, "type");
    OneField(r, "default");
    OneField(r, "valid");
    OneField(r, "applies");
    OneField(r, "deprecated");
  }

  // ----- where the header ends -----

  lemma FirstBlankBehind(text: bytes, at: nat, line: bytes, rest: bytes)
    requires at < |text| && text[at..] == line + ([10] + rest) && LF !in line && StripCr(line) != []
    ensures at + |line| + 1 <= |text| && text[at + |line| + 1..] == rest
    ensures FirstBlank(text, at) == FirstBlank(text, at + |line| + 1)
  {
    hide StripCr, LineLength;
    LineLengthIs(line, [10] + rest);
    assert text[at..at + |line|] == text[at..][..|line|] == line;
    assert text[at + |line| + 1..] == text[at..][|line| + 1..];
  }

  lemma FirstBlankHere(text: bytes, at: nat, rest: bytes)
    requires at <= |text| && text[at..] == [10] + rest
    ensures FirstBlank(text, at) == Some((at, at + 1)) && text[at + 1..] == rest
  {
    assert text[at..][1..] == text[at + 1..];
    assert text[at..at] == [];
  }

  lemma FieldLineHasText(key: bytes, value: bytes)
    requires IsKey(key) && IsLine(value)
    ensures LF !in FieldLine(key, value) && StripCr(FieldLine(key, value)) != []
    ensures FieldLine(key, value) != [] && FieldLine(key, value)[0] == key[0]
  {
    hide SpaceWidth, LastSpaceWidth;
  }

  lemma FirstBlankOver(text: bytes, at: nat, key: bytes, value: Option<bytes>, rest: bytes)
    requires IsKey(key) && IsLineIfAny(value) && at <= |text| && text[at..] == FieldText(key, value) + rest
    ensures at + |FieldText(key, value)| <= |text| && text[at + |FieldText(key, value)|..] == rest
    ensures FirstBlank(text, at) == FirstBlank(text, at + |FieldText(key, value)|)
  {
    hide FirstBlank, StripCr, IsLine, FieldLine;
    match value
    case None => assert FieldText(key, value) + rest == rest;
    case Some(v) =>
      FieldLineHasText(key, v);
      assert FieldText(key, value) + rest == FieldLine(key, v) + ([10] + rest);
      FirstBlankBehind(text, at, FieldLine(key, v), rest);
  }

  /** The header ends before the first blank line. */
  lemma HeaderEnds(r: Record, rest: bytes)
    requires Writable(r)
    ensures HeaderBody(HeaderText(r) + ([10] + rest)) == (HeaderText(r), rest)
  {
    hide FirstBlank, HeaderText, Writable;
    var text, at := HeaderText(r) + ([10] + rest), |HeaderText(r)|;
    HeaderHasNoBlank(r, [10] + rest);
    FirstBlankHere(text, at, rest);
    assert text[..at] == HeaderText(r);
  }

  lemma HeaderHasNoBlank(r: Record, end: bytes)
    requires Writable(r)
    ensures var text := HeaderText(r) + end;
            text[|HeaderText(r)|..] == end && FirstBlank(text, 0) == FirstBlank(text, |HeaderText(r)|)
  {
    hide FirstBlank, FieldText, IsLine, NoFences, IsKey, Spells;
    KeysSpell();
    var text := HeaderText(r) + end;
    var t1 := FieldText(CANONICAL, Some(r.canonical));
    var t2, t3, t4 := FieldText(TYPE, r.valueType), FieldText(DEFAULT, r.default), FieldText(VALID, r.valid);
    var t5, t6 := FieldText(APPLIES, r.applies), FieldText(DEPRECATED, r.deprecated);
    SixParts(t1, t2, t3, t4, t5, t6, end);
    var a5 := t6 + end;
    var a4 := t5 + a5;
    var a3 := t4 + a4;
    var a2 := t3 + a3;
    var a1 := t2 + a2;
    WholeSlice(text);
    FirstBlankOver(text, 0, CANONICAL, Some(r.canonical), a1);
    FirstBlankOver(text, |t1|, TYPE, r.valueType, a2);
    FirstBlankOver(text, |t1| + |t2|, DEFAULT, r.default, a3);
    FirstBlankOver(text, |t1| + |t2| + |t3|, VALID, r.valid, a4);
    FirstBlankOver(text, |t1| + |t2| + |t3| + |t4|, APPLIES, r.applies, a5);
    FirstBlankOver(text, |t1| + |t2| + |t3| + |t4| + |t5|, DEPRECATED, r.deprecated, end);
    SixLengths(t1, t2, t3, t4, t5, t6);
  }

  lemma WholeSlice(text: bytes)
    ensures text[0..] == text
  {}

  lemma SixLengths(a: bytes, b: bytes, c: bytes, d: bytes, e: bytes, f: bytes)
    ensures |a + (b + (c + (d + (e + (f + [])))))| == |a| + |b| + |c| + |d| + |e| + |f|
  {}

  lemma SixParts(a: bytes, b: bytes, c: bytes, d: bytes, e: bytes, f: bytes, end: bytes)
    ensures a + (b + (c + (d + (e + (f + []))))) + end == a + (b + (c + (d + (e + (f + end)))))
  {}

  lemma BodyIsTrimmed(body: bytes)
    requires body != [] ==> body[0] != LF && body[|body| - 1] != LF
    ensures TrimNewlines(body + [10]) == body
  {
    if body != [] {
      assert (body + [10])[..|body|] == body;
    }
  }

  /** The record of a written block. */
  lemma BlockIsRead(fence: Fence, r: Record)
    requires Writable(r) && fence.anchor == r.anchor
    ensures BlockRecord(fence, FormatRecord(r)) == Some(r.(fenceOffset := fence.offset))
  {
    hide HeaderText, HeaderOf, HeaderBody, TrimNewlines, NoFences, LineLength, SpaceWidth, LastSpaceWidth;
    var line, after := [45, 45, 45, 32] + r.anchor, HeaderText(r) + ([10] + (r.body + [10]));
    var block := FormatRecord(r);
    LineLengthIs(line, [10] + after);
    assert block[|line| + 1..] == after;
    HeaderEnds(r, r.body + [10]);
    HeaderIsRead(r);
    BodyIsTrimmed(r.body);
  }

  // ----- where the fences are -----

  lemma FencesBehind(line: bytes, rest: bytes, offset: nat, number: nat)
    requires LF !in line
    ensures Fences(line + ([10] + rest), offset, number)
            == LineFence(line, offset, number) + Fences(rest, offset + |line| + 1, number + 1)
  {
    hide Fences, FenceAnchor, LineFence, LineLength;
    var text := line + ([10] + rest);
    FencesUnfold(text, offset, number);
    LineLengthIs(line, [10] + rest);
    assert text[..|line|] == line && text[|line| + 1..] == rest;
  }

  lemma FencesOver(key: bytes, value: Option<bytes>, rest: bytes, offset: nat, number: nat)
    requires IsKey(key) && IsLineIfAny(value)
    ensures Fences(FieldText(key, value) + rest, offset, number)
            == Fences(rest, offset + |FieldText(key, value)|, if value.Some? then number + 1 else number)
  {
    hide Fences, StripCr, IsLine, FieldLine, Trim;
    match value
    case None => assert FieldText(key, value) + rest == rest;
    case Some(v) =>
      var line := FieldLine(key, v);
      FieldLineHasText(key, v);
      assert FieldText(key, value) + rest == line + ([10] + rest);
      FencesBehind(line, rest, offset, number);
      assert !StartsWith(line, FENCE) by { assert line[0] != FENCE[0]; }
  }

  lemma BodyLine(body: bytes, at: nat)
    requires NoFences(body) && at <= |body| + 1 && LineStart(body + [10], at)
    ensures FenceAnchor(LineAt(body + [10], at)) == None
  {
    hide LineLength, Trim;
    var text := body + [10];
    if at <= |body| {
      assert LineStart(body, at);
      var n := LineLength(body[at..]);
      LineEnds(body[at..]);
      assert body[at..] == body[at..][..n] + body[at..][n..];
      assert text[at..] == body[at..][..n] + (body[at..][n..] + [10]);
      LineLengthIs(body[at..][..n], body[at..][n..] + [10]);
      assert LineAt(text, at) == LineAt(body, at);
    } else {
      assert LineAt(text, at) == [];
    }
  }

  lemma NoFencesBehind(body: bytes, offset: nat, number: nat)
    requires NoFences(body)
    ensures Fences(body + [10], offset, number + 1) == []
  {
    hide Fences, LineAt, FenceAnchor;
    var text := body + [10];
    assert text[0..] == text;
    FencesShift(text, 0, 1, offset, number);
    var fences := Fences(text, 0, 1);
    if fences != [] {
      var f := fences[0];
      FencesAreFenceLines(text, 0, 1, f.offset, f.anchor);
      BodyLine(body, f.offset);
    }
  }

  lemma NoFencesAfter(r: Record, offset: nat, number: nat)
    requires Writable(r) && number > 0
    ensures Fences(HeaderText(r) + ([10] + (r.body + [10])), offset, number) == []
  {
    hide Fences, FieldText, IsKey, Spells, NoFences, IsLine, FenceAnchor;
    KeysSpell();
    var end := [10] + (r.body + [10]);
    var t1 := FieldText(CANONICAL, Some(r.canonical));
    var t2, t3, t4 := FieldText(TYPE, r.valueType), FieldText(DEFAULT, r.default), FieldText(VALID, r.valid);
    var t5, t6 := FieldText(APPLIES, r.applies), FieldText(DEPRECATED, r.deprecated);
    SixParts(t1, t2, t3, t4, t5, t6, end);
    var a5 := t6 + end;
    var a4 := t5 + a5;
    var a3 := t4 + a4;
    var a2 := t3 + a3;
    var a1 := t2 + a2;
    var o, n := offset, number;
    FencesOver(CANONICAL, Some(r.canonical), a1, o, n);
    o, n := o + |t1|, n + 1;
    FencesOver(TYPE, r.valueType, a2, o, n);
    o, n := o + |t2|, if r.valueType.Some? then n + 1 else n;
    FencesOver(DEFAULT, r.default, a3, o, n);
    o, n := o + |t3|, if r.default.Some? then n + 1 else n;
    FencesOver(VALID, r.valid, a4, o, n);
    o, n := o + |t4|, if r.valid.Some? then n + 1 else n;
    FencesOver(APPLIES, r.applies, a5, o, n);
    o, n := o + |t5|, if r.applies.Some? then n + 1 else n;
    FencesOver(DEPRECATED, r.deprecated, end, o, n);
    o, n := o + |t6|, if r.deprecated.Some? then n + 1 else n;
    assert end == [] + ([10] + (r.body + [10]));
    FencesBehind([], r.body + [10], o, n);
    NoFencesBehind(r.body, o + 1, n);
    assert LineFence([], o, n) == [] by { EmptyLine(o, n); }
  }

  lemma EmptyLine(offset: nat, number: nat)
    ensures LineFence([], offset, number) == []
  {}

  lemma OneFence(r: Record)
    requires Writable(r)
    ensures Fences(FormatRecord(r), 0, 1) == [Fence(0, 1, r.anchor)]
  {
    hide Fences, HeaderText, NoFences, SpaceWidth, LastSpaceWidth, Trim;
    var line := [45, 45, 45, 32] + r.anchor;
    assert line[4..] == r.anchor;
    TrimNothing(r.anchor);
    FencesBehind(line, HeaderText(r) + ([10] + (r.body + [10])), 0, 1);
    NoFencesAfter(r, |line| + 1, 2);
    assert [Fence(0, 1, r.anchor)] + [] == [Fence(0, 1, r.anchor)];
  }

  // ----- whole fragments -----

  lemma OneRecord(r: Record)
    requires Writable(r)
    ensures ParsedRecords(FormatRecord(r)) == [r.(fenceOffset := 0)] && ParsedIssues(FormatRecord(r)) == []
  {
    hide Fences, FormatRecord, BlockRecord, Writable;
    var text := FormatRecord(r);
    OneFence(r);
    BlockIsRead(Fence(0, 1, r.anchor), r);
    ParsedIs(text);
    RecordsStep(text, [Fence(0, 1, r.anchor)]);
    NoRecords(text);
    assert text[0..|text|] == text;
    assert [r.(fenceOffset := 0)] + [] == [r.(fenceOffset := 0)];
  }

  /** The records, each at the first byte that was written for it. */
  function Placed(rs: seq<Record>, from: nat): seq<Record> {
    if rs == [] then [] else [rs[0].(fenceOffset := from)] + Placed(rs[1..], from + |FormatRecord(rs[0])|)
  }

  lemma {:induction false} PlacedShift(rs: seq<Record>, from: nat, delta: nat)
    ensures ShiftRecords(Placed(rs, from), delta) == Placed(rs, from + delta)
    decreases |rs|
  {
    hide FormatRecord;
    if rs != [] {
      PlacedShift(rs[1..], from + |FormatRecord(rs[0])|, delta);
    }
  }

  lemma WrittenIsWhole(r: Record)
    ensures Whole(FormatRecord(r)) && FormatRecord(r) != []
  {
    hide HeaderText;
  }

  lemma OpensWithFence(r: Record, rest: bytes)
    requires Writable(r)
    ensures FenceAnchor(LineAt(FormatRecord(r) + rest, 0)).Some?
  {
    hide HeaderText, NoFences, SpaceWidth, LastSpaceWidth, Trim, LineLength;
    var line := [45, 45, 45, 32] + r.anchor;
    var after := [10] + (HeaderText(r) + ([10] + (r.body + [10]))) + rest;
    assert FormatRecord(r) + rest == line + after;
    LineLengthIs(line, after);
    assert (line + after)[0..] == line + after && (line + after)[0..|line|] == line;
    assert line[4..] == r.anchor;
    TrimNothing(r.anchor);
  }

  /** Parsing a fragment written from any such records gives them back, and nothing else, each at its own place. */
  lemma {:induction false} ParseUndoesFormat(rs: seq<Record>)
    requires forall i :: 0 <= i < |rs| ==> Writable(rs[i])
    ensures ParsedRecords(Format(rs)) == Placed(rs, 0) && ParsedIssues(Format(rs)) == []
    decreases |rs|
  {
    hide FormatRecord, Writable, LineAt, FenceAnchor, ParsedRecords, ParsedIssues, Whole;
    if rs == [] {
      NothingWritten();
    } else {
      var a, rest := FormatRecord(rs[0]), rs[1..];
      OneRecord(rs[0]);
      ParseUndoesFormat(rest);
      if rest == [] {
        assert a + [] == a;
      } else {
        WrittenIsWhole(rs[0]);
        OpensWithFence(rest[0], Format(rest[1..]));
        ParseCompose(a, Format(rest));
        PlacedShift(rest, 0, |a|);
      }
    }
  }

  lemma NothingWritten()
    ensures ParsedRecords([]) == [] && ParsedIssues([]) == []
  {
    ParsedIs([]);
    assert Fences([], 0, 1) == [];
  }

  /** A record is a value page iff one of the lines written for it is a type, default, valid or applies line. */
  lemma ValuePages(r: Record)
    ensures r.Kind() == Value <==>
            exists v :: r.valueType == Some(v) || r.default == Some(v) || r.valid == Some(v) || r.applies == Some(v)
  {}
}
