/**
  Fragment files of the registry manual (crates/registry-manual/src/fragment.rs):
  a run of records, each opened by a `--- <anchor>` fence line.
*/
module Fragment {
  import opened Bytes
  import opened Utf8

  datatype Kind = Key | Value

  datatype Record = Record(
    fenceOffset: nat,
    anchor: bytes,
    canonical: bytes,
    valueType: Option<bytes>,
    default: Option<bytes>,
    valid: Option<bytes>,
    applies: Option<bytes>,
    deprecated: Option<bytes>,
    body: bytes)
  {
    function Kind(): Kind {
      if valueType.Some? || default.Some? || valid.Some? || applies.Some? then Value else Key
    }

    function Shift(delta: nat): Record {
      this.(fenceOffset := fenceOffset + delta)
    }
  }

  /** A fence whose record has no `canonical:` field, by its 1-based line number. */
  datatype Issue = Issue(line: nat) {
    function Shift(delta: nat): Issue {
      Issue(line + delta)
    }
  }

  datatype Fence = Fence(offset: nat, line: nat, anchor: bytes) {
    function Shift(delta: nat, lines: nat): Fence {
      Fence(offset + delta, line + lines, anchor)
    }
  }

  datatype Header = Header(
    canonical: Option<bytes>,
    valueType: Option<bytes>,
    default: Option<bytes>,
    valid: Option<bytes>,
    applies: Option<bytes>,
    deprecated: Option<bytes>)

  const EMPTY_HEADER := Header(None, None, None, None, None, None)
  const COLON: byte := 58

  // ----- text helpers -----

  function TrimNewlines(s: bytes): bytes
    decreases |s|
  {
    if s == [] then s
    else if s[0] == LF then TrimNewlines(s[1..])
    else if s[|s| - 1] == LF then TrimNewlines(s[..|s| - 1])
    else s
  }

  /** The name in small letters, whatever the case of the key. */
  predicate Spells(key: bytes, name: string) {
    if key == [] || name == "" then |key| == |name|
    else SmallLetter(key[0]) as int == name[0] as int && Spells(key[1..], name[1..])
  }

  function SmallLetter(b: byte): byte {
    if 65 <= b <= 90 then b + 32 else b
  }

  /** Length of the first line, without its newline. */
  function LineLength(text: bytes): (n: nat)
    ensures n <= |text|
  {
    if text == [] || text[0] == LF then 0 else 1 + LineLength(text[1..])
  }

  lemma {:induction false} LineEnds(text: bytes)
    ensures LF !in text[..LineLength(text)]
    ensures LineLength(text) < |text| ==> text[LineLength(text)] == LF
  {
    if text != [] && text[0] != LF {
      LineEnds(text[1..]);
      assert text[..LineLength(text)] == [text[0]] + text[1..][..LineLength(text[1..])];
    }
  }

  lemma {:induction false} LineLengthIs(line: bytes, rest: bytes)
    requires LF !in line && (rest == [] || rest[0] == LF)
    ensures LineLength(line + rest) == |line|
  {
    if line == [] {
      assert line + rest == rest;
    } else {
      assert (line + rest)[1..] == line[1..] + rest;
      LineLengthIs(line[1..], rest);
    }
  }

  // ----- fences -----

  const FENCE: bytes := [45, 45, 45, 32]

  function FenceAnchor(line: bytes): (anchor: Option<bytes>)
    ensures anchor.Some? ==> |line| > |FENCE|
  {
    if !StartsWith(line, FENCE) then None
    else
      var anchor := Trim(line[|FENCE|..]);
      if anchor == [] then None else Some(anchor)
  }

  function LineFence(line: bytes, offset: nat, number: nat): seq<Fence> {
    match FenceAnchor(line)
    case Some(anchor) => [Fence(offset, number, anchor)]
    case None => []
  }

  /** The fences of a text that starts at `offset` and line `number` of its file. */
  function Fences(text: bytes, offset: nat, number: nat): seq<Fence>
    decreases |text|
  {
    var n := LineLength(text);
    LineFence(text[..n], offset, number)
    + (if n == |text| then [] else Fences(text[n + 1..], offset + n + 1, number + 1))
  }

  lemma {:induction false} FencesStep(text: bytes, offset: nat, number: nat)
    requires offset <= |text|
    ensures var n := LineLength(text[offset..]);
            var next := offset + n + 1;
            Fences(text[offset..], offset, number) ==
            LineFence(text[offset..offset + n], offset, number)
            + if offset + n == |text| then [] else Fences(text[next..], next, number + 1)
  {
    hide LineLength, LineFence;
    var n := LineLength(text[offset..]);
    assert text[offset..][..n] == text[offset..offset + n];
    if offset + n < |text| {
      assert text[offset..][n + 1..] == text[offset + n + 1..];
    }
  }

  method FindFences(text: bytes) returns (fences: seq<Fence>)
    ensures fences == Fences(text, 0, 1)
  {
    hide LineLength, FenceAnchor, Fences;
    fences := [];
    var offset, number := 0, 1;
    assert text[0..] == text;
    while true
      invariant 0 <= offset <= |text|
      invariant fences + Fences(text[offset..], offset, number) == Fences(text, 0, 1)
      decreases |text| - offset
    {
      FencesStep(text, offset, number);
      var n := LineLength(text[offset..]);
      match FenceAnchor(text[offset..offset + n]) {
        case Some(anchor) => fences := fences + [Fence(offset, number, anchor)];
        case None =>
      }
      if offset + n == |text| {
        return;
      }
      offset, number := offset + n + 1, number + 1;
    }
  }

  // ----- one record -----

  function StripCr(line: bytes): bytes {
    if line != [] && line[|line| - 1] == CR then line[..|line| - 1] else line
  }

  /** Bounds of the first blank line at or after the line that starts at `at`. */
  function FirstBlank(text: bytes, at: nat): (r: Option<(nat, nat)>)
    requires at <= |text|
    ensures r.Some? ==> at <= r.value.0 <= r.value.1 <= |text|
    decreases |text| - at
  {
    if at == |text| then None
    else
      var n := LineLength(text[at..]);
      if StripCr(text[at..at + n]) == [] then Some((at, if at + n == |text| then at + n else at + n + 1))
      else if at + n == |text| then None
      else FirstBlank(text, at + n + 1)
  }

  /** A line begins here with nothing on it, but maybe a carriage return. */
  predicate BlankAt(text: bytes, i: nat) {
    && i < |text| && (i == 0 || text[i - 1] == 10)
    && (text[i] == 10 || (text[i] == 13 && (i + 1 == |text| || text[i + 1] == 10)))
  }

  /** The line that begins here ends at the next newline, and is the only one to begin before it. */
  lemma LineBegun(text: bytes, at: nat)
    requires at <= |text| && (at == 0 || text[at - 1] == 10)
    ensures var n := LineLength(text[at..]);
            && (forall i :: at <= i < at + n ==> text[i] != 10)
            && (at + n < |text| ==> text[at + n] == 10)
            && (forall i :: at < i <= at + n ==> !BlankAt(text, i))
  {
    LineEnds(text[at..]);
    var n := LineLength(text[at..]);
    hide LineLength;
    forall i | at <= i < at + n ensures text[i] != 10 {
      assert text[at..][..n][i - at] == text[i];
    }
    assert at + n < |text| ==> text[at..][n] == 10;
  }

  lemma BlankLineAt(text: bytes, at: nat, n: nat)
    requires at < |text| && at + n <= |text| && (at == 0 || text[at - 1] == 10)
    requires (forall i :: at <= i < at + n ==> text[i] != 10) && (at + n < |text| ==> text[at + n] == 10)
    ensures StripCr(text[at..at + n]) == [] <==> BlankAt(text, at)
    ensures BlankAt(text, at) ==> n == if text[at] == 10 then 0 else 1
  {
    var line := text[at..at + n];
    assert n > 0 ==> line[0] == text[at] && line[n - 1] == text[at + n - 1];
    assert n > 1 ==> text[at + 1] != 10;
  }

  /** The first blank line ends behind its newline; there is none iff no line is blank. */
  lemma {:induction false} FirstBlankIs(text: bytes, at: nat)
    requires at <= |text| && (at == 0 || text[at - 1] == 10)
    ensures match FirstBlank(text, at)
            case None => forall i :: at <= i < |text| ==> !BlankAt(text, i)
            case Some((start, end)) =>
              && BlankAt(text, start) && (forall i :: at <= i < start ==> !BlankAt(text, i))
              && end == if text[start] == 10 || start + 1 == |text| then start + 1 else start + 2
    decreases |text| - at
  {
    hide LineLength, StripCr, BlankAt;
    if at < |text| {
      LineBegun(text, at);
      var n := LineLength(text[at..]);
      BlankLineAt(text, at, n);
      if !BlankAt(text, at) && at + n < |text| {
        FirstBlankIs(text, at + n + 1);
      }
    }
  }

  /** Header and body, separated by the first blank line. */
  function HeaderBody(text: bytes): (bytes, bytes) {
    match FirstBlank(text, 0)
    case None => (text, [])
    case Some((start, end)) => (text[..start], text[end..])
  }

  method SplitHeaderBody(text: bytes) returns (header: bytes, body: bytes)
    ensures (header, body) == HeaderBody(text)
  {
    hide LineLength, StripCr;
    var idx := 0;
    while idx < |text|
      invariant 0 <= idx <= |text| && FirstBlank(text, 0) == FirstBlank(text, idx)
    {
      var n := LineLength(text[idx..]);
      if StripCr(text[idx..idx + n]) == [] {
        return text[..idx], text[if idx + n == |text| then idx + n else idx + n + 1..];
      }
      if idx + n == |text| {
        break;
      }
      idx := idx + n + 1;
    }
    return text, [];
  }

  function SplitColon(line: bytes): Option<(bytes, bytes)> {
    if line == [] then None
    else if line[0] == COLON then Some(([], line[1..]))
    else
      match SplitColon(line[1..])
      case None => None
      case Some((key, value)) => Some(([line[0]] + key, value))
  }

  /** The split is at the first colon, if there is one. */
  lemma {:induction false} SplitColonIs(line: bytes, key: bytes, value: bytes)
    ensures SplitColon(line) == Some((key, value)) <==> line == key + ([58] + value) && 58 !in key
    ensures SplitColon(line) == None <==> 58 !in line
  {
    if line != [] {
      assert line == [line[0]] + line[1..];
      if line[0] == COLON {
        assert line == key + ([58] + value) && 58 !in key ==> key == [];
        assert line == [] + ([58] + line[1..]);
        assert line == [] + ([58] + value) ==> value == line[1..];
      } else if key != [] {
        SplitColonIs(line[1..], key[1..], value);
        assert key == [key[0]] + key[1..];
        assert line == key + ([58] + value) ==> line[1..] == key[1..] + ([58] + value);
      } else {
        SplitColonIs(line[1..], [], value);
      }
    }
  }

  const NAMES: set<string> := {"canonical", "type", "default", "valid", "applies", "deprecated"}

  /** The value a header line gives to a field. */
  function ValueIn(line: bytes, name: string): Option<bytes> {
    match SplitColon(Trim(line))
    case None => None
    case Some((key, value)) => if Spells(Trim(key), name) then Some(Trim(value)) else None
  }

  /** The value in the last line that gives this field one. */
  function LastValue(text: bytes, name: string): Option<bytes>
    decreases |text|
  {
    var n := LineLength(text);
    Later(ValueIn(text[..n], name), if n == |text| then None else LastValue(text[n + 1..], name))
  }

  function Later(value: Option<bytes>, later: Option<bytes>): Option<bytes> {
    if later.Some? then later else value
  }

  function HeaderOf(text: bytes): Header {
    Header(LastValue(text, "canonical"), LastValue(text, "type"), LastValue(text, "default"),
           LastValue(text, "valid"), LastValue(text, "applies"), LastValue(text, "deprecated"))
  }

  /** Sets the field a line names; lines of other fields are ignored. */
  function SetField(h: Header, line: bytes): Header {
    match SplitColon(Trim(line))
    case None => h
    case Some((rawKey, rawValue)) =>
      var key, value := Trim(rawKey), Some(Trim(rawValue));
      if Spells(key, "canonical") then h.(canonical := value)
      else if Spells(key, "type") then h.(valueType := value)
      else if Spells(key, "default") then h.(default := value)
      else if Spells(key, "valid") then h.(valid := value)
      else if Spells(key, "applies") then h.(applies := value)
      else if Spells(key, "deprecated") then h.(deprecated := value)
      else h
  }

  function Over(h: Header, later: Header): Header {
    Header(Later(h.canonical, later.canonical), Later(h.valueType, later.valueType), Later(h.default, later.default),
           Later(h.valid, later.valid), Later(h.applies, later.applies), Later(h.deprecated, later.deprecated))
  }

  lemma SetFieldIs(h: Header, line: bytes)
    ensures SetField(h, line)
            == Over(h, Header(ValueIn(line, "canonical"), ValueIn(line, "type"),
                              ValueIn(line, "default"), ValueIn(line, "valid"),
                              ValueIn(line, "applies"), ValueIn(line, "deprecated")))
  {
    hide SplitColon, Trim, Spells;
    var split := SplitColon(Trim(line));
    if split.Some? {
      OneName(Trim(split.value.0));
    }
  }

  /** A key spells at most one of the names. */
  lemma OneName(key: bytes)
    ensures forall a, b :: a in NAMES && b in NAMES && Spells(key, a) && Spells(key, b) ==> a == b
  {
    hide Spells;
    forall a, b | a in NAMES && b in NAMES && Spells(key, a) && Spells(key, b) ensures a == b {
      SpelledOnce(key, a, b);
    }
  }

  lemma {:induction false} SpelledOnce(key: bytes, a: string, b: string)
    requires Spells(key, a) && Spells(key, b)
    ensures a == b
    decreases |key|
  {
    if key != [] && a != "" && b != "" {
      SpelledOnce(key[1..], a[1..], b[1..]);
      assert a == [a[0]] + a[1..] && b == [b[0]] + b[1..];
    }
  }

  lemma {:induction false} SpellsLetters(key: bytes, name: string)
    requires |key| == |name| && forall i :: 0 <= i < |key| ==> key[i] as int == name[i] as int && 97 <= key[i] <= 122
    ensures Spells(key, name)
  {
    if key != [] {
      SpellsLetters(key[1..], name[1..]);
    }
  }

  /** One line more of the header: what later lines give goes over it. */
  lemma HeaderStep(h: Header, text: bytes)
    ensures var n := LineLength(text);
            var h' := SetField(h, text[..n]);
            Over(h, HeaderOf(text)) == if n == |text| then h' else Over(h', HeaderOf(text[n + 1..]))
  {
    hide LineLength, SetField, ValueIn;
    SetFieldIs(h, text[..LineLength(text)]);
  }

  method ParseHeader(text: bytes) returns (h: Header)
    ensures h == HeaderOf(text)
  {
    hide SetField, LineLength, HeaderOf, Over;
    h := EMPTY_HEADER;
    var at := 0;
    assert text[0..] == text;
    NothingBefore(text);
    while true
      invariant 0 <= at <= |text|
      invariant Over(h, HeaderOf(text[at..])) == HeaderOf(text)
      decreases |text| - at
    {
      var n := LineLength(text[at..]);
      HeaderStep(h, text[at..]);
      h := SetField(h, text[at..][..n]);
      if at + n == |text| {
        return;
      }
      assert text[at..][n + 1..] == text[at + n + 1..];
      at := at + n + 1;
    }
  }

  lemma NothingBefore(text: bytes)
    ensures Over(EMPTY_HEADER, HeaderOf(text)) == HeaderOf(text)
  {
    hide LastValue;
  }

  /** The record of a block of text that starts with its fence line. */
  function BlockRecord(fence: Fence, block: bytes): Option<Record> {
    var n := LineLength(block);
    var (headerText, body) := HeaderBody(if n == |block| then [] else block[n + 1..]);
    var h := HeaderOf(headerText);
    match h.canonical
    case None => None
    case Some(canonical) =>
      Some(Record(fence.offset, fence.anchor, canonical, h.valueType, h.default, h.valid,
                  h.applies, h.deprecated, TrimNewlines(body)))
  }

  // ----- a whole fragment -----

  /** Strictly ascending offsets between `lo` and `hi`. */
  ghost predicate Ascending(fences: seq<Fence>, lo: nat, hi: nat) {
    fences != [] ==>
      lo <= fences[0].offset < hi && Ascending(fences[1..], fences[0].offset + 1, hi)
  }

  lemma {:induction false} AscendingWiden(fences: seq<Fence>, lo: nat, hi: nat, lo': nat, hi': nat)
    requires Ascending(fences, lo, hi) && lo' <= lo && hi <= hi'
    ensures Ascending(fences, lo', hi')
  {
    if fences != [] {
      AscendingWiden(fences[1..], fences[0].offset + 1, hi, fences[0].offset + 1, hi');
    }
  }

  function BlockEnd(text: bytes, fences: seq<Fence>): nat
    requires fences != []
  {
    if |fences| > 1 then fences[1].offset else |text|
  }

  function Records(text: bytes, fences: seq<Fence>): seq<Record>
    requires Ascending(fences, 0, |text|)
  {
    if fences == [] then []
    else
      AscendingWiden(fences[1..], fences[0].offset + 1, |text|, 0, |text|);
      match BlockRecord(fences[0], text[fences[0].offset..BlockEnd(text, fences)])
      case Some(r) => [r] + Records(text, fences[1..])
      case None => Records(text, fences[1..])
  }

  function Issues(text: bytes, fences: seq<Fence>): seq<Issue>
    requires Ascending(fences, 0, |text|)
  {
    if fences == [] then []
    else
      AscendingWiden(fences[1..], fences[0].offset + 1, |text|, 0, |text|);
      match BlockRecord(fences[0], text[fences[0].offset..BlockEnd(text, fences)])
      case Some(_) => Issues(text, fences[1..])
      case None => [Issue(fences[0].line)] + Issues(text, fences[1..])
  }

  lemma RecordsStep(text: bytes, fences: seq<Fence>)
    requires fences != [] && Ascending(fences, 0, |text|)
    ensures Ascending(fences[1..], 0, |text|)
    ensures fences[0].offset <= BlockEnd(text, fences) <= |text|
    ensures var first := BlockRecord(fences[0], text[fences[0].offset..BlockEnd(text, fences)]);
            && Records(text, fences) == (if first.Some? then [first.value] else []) + Records(text, fences[1..])
            && Issues(text, fences) ==
               (if first.Some? then [] else [Issue(fences[0].line)]) + Issues(text, fences[1..])
  {
    hide BlockRecord;
    AscendingWiden(fences[1..], fences[0].offset + 1, |text|, 0, |text|);
  }

  lemma {:induction false} FencesAscend(text: bytes, offset: nat, number: nat)
    ensures Ascending(Fences(text, offset, number), offset, offset + |text|)
    decreases |text|
  {
    hide LineLength, Fences, FenceAnchor;
    FencesUnfold(text, offset, number);
    var n := LineLength(text);
    var head := LineFence(text[..n], offset, number);
    if n < |text| {
      var rest := Fences(text[n + 1..], offset + n + 1, number + 1);
      FencesAscend(text[n + 1..], offset + n + 1, number + 1);
      AscendingAppend(head, rest, offset, offset + n + 1, offset + |text|);
    }
  }

  lemma {:induction false} FencesUnfold(text: bytes, offset: nat, number: nat)
    ensures var n := LineLength(text);
            Fences(text, offset, number) ==
            LineFence(text[..n], offset, number)
            + (if n == |text| then [] else Fences(text[n + 1..], offset + n + 1, number + 1))
    ensures Ascending(LineFence(text[..LineLength(text)], offset, number), offset, offset + LineLength(text))
  {
    hide LineLength, FenceAnchor;
  }

  function ParsedRecords(text: bytes): seq<Record> {
    hide *;
    FencesAscend(text, 0, 1);
    Records(text, Fences(text, 0, 1))
  }

  function ParsedIssues(text: bytes): seq<Issue> {
    hide *;
    FencesAscend(text, 0, 1);
    Issues(text, Fences(text, 0, 1))
  }

  method Parse(text: bytes) returns (records: seq<Record>, issues: seq<Issue>)
    ensures records == ParsedRecords(text)
    ensures issues == ParsedIssues(text)
  {
    hide LineLength, HeaderBody, HeaderOf, TrimNewlines, Fences, Records, Issues, Ascending,
      ParsedRecords, ParsedIssues;
    records, issues := [], [];
    var fences := FindFences(text);
    ParsedIs(text);
    assert fences[0..] == fences;
    for i := 0 to |fences|
      invariant Ascending(fences[i..], 0, |text|)
      invariant records + Records(text, fences[i..]) == ParsedRecords(text)
      invariant issues + Issues(text, fences[i..]) == ParsedIssues(text)
    {
      RecordsStep(text, fences[i..]);
      assert fences[i..][1..] == fences[i + 1..];
      var end := if i + 1 < |fences| then fences[i + 1].offset else |text|;
      var block := text[fences[i].offset..end];
      var n := LineLength(block);
      var headerText, body := SplitHeaderBody(if n == |block| then [] else block[n + 1..]);
      var h := ParseHeader(headerText);
      match h.canonical {
        case None =>
          issues := issues + [Issue(fences[i].line)];
        case Some(canonical) =>
          records := records + [Record(fences[i].offset, fences[i].anchor, canonical, h.valueType, h.default,
                                       h.valid, h.applies, h.deprecated, TrimNewlines(body))];
      }
    }
    NoRecords(text);
    assert fences[|fences|..] == [];
  }

  // ----- offsets point at the fence lines -----

  predicate LineStart(text: bytes, at: nat) {
    at <= |text| && (at == 0 || text[at - 1] == LF)
  }

  function LineAt(text: bytes, at: nat): bytes
    requires at <= |text|
  {
    text[at..at + LineLength(text[at..])]
  }

  ghost predicate IsFenceAt(text: bytes, at: nat, anchor: bytes) {
    LineStart(text, at) && FenceAnchor(LineAt(text, at)) == Some(anchor)
  }

  ghost predicate HasFence(fences: seq<Fence>, at: nat, anchor: bytes) {
    exists f :: f in fences && f.offset == at && f.anchor == anchor
  }

  lemma HasFenceCons(f: Fence, fences: seq<Fence>, at: nat, anchor: bytes)
    ensures HasFence([f] + fences, at, anchor) <==>
            (f.offset == at && f.anchor == anchor) || HasFence(fences, at, anchor)
  {
    if HasFence(fences, at, anchor) {
      var g :| g in fences && g.offset == at && g.anchor == anchor;
      assert g in [f] + fences;
    }
    assert f in [f] + fences;
  }

  /** Inside a line there is no other line start. */
  lemma OnlyLineStart(text: bytes, at: nat, p: nat)
    requires at <= |text| && at < p <= at + LineLength(text[at..])
    ensures !LineStart(text, p)
  {
    LineEnds(text[at..]);
    assert text[at..][..LineLength(text[at..])][p - 1 - at] == text[p - 1];
  }

  /** The fences are exactly the lines that carry an anchor, at their first byte. */
  lemma {:induction false} FencesAreFenceLines(text: bytes, from: nat, number: nat, at: nat, anchor: bytes)
    requires LineStart(text, from)
    ensures HasFence(Fences(text[from..], from, number), at, anchor) <==>
            from <= at && IsFenceAt(text, at, anchor)
    decreases |text| - from
  {
    hide LineLength, FenceAnchor, Fences, HasFence;
    var n := LineLength(text[from..]);
    var next := from + n + 1;
    if from < at < next {
      OnlyLineStart(text, from, at);
    }
    LineEnds(text[from..]);
    FencesStep(text, from, number);
    assert LineAt(text, from) == text[from..from + n];
    var rest := if from + n == |text| then [] else Fences(text[next..], next, number + 1);
    if from + n < |text| {
      FencesAreFenceLines(text, next, number + 1, at, anchor);
    } else {
      HasNoFence(at, anchor);
    }
    match FenceAnchor(text[from..from + n])
    case Some(a) => HasFenceCons(Fence(from, number, a), rest, at, anchor);
    case None => assert [] + rest == rest;
  }

  lemma HasNoFence(at: nat, anchor: bytes)
    ensures !HasFence([], at, anchor)
  {}

  lemma {:induction false} RecordsComeFromFences(text: bytes, fences: seq<Fence>, r: Record)
    requires Ascending(fences, 0, |text|) && r in Records(text, fences)
    ensures HasFence(fences, r.fenceOffset, r.anchor)
  {
    hide BlockRecord;
    AscendingWiden(fences[1..], fences[0].offset + 1, |text|, 0, |text|);
    assert fences == [fences[0]] + fences[1..];
    HasFenceCons(fences[0], fences[1..], r.fenceOffset, r.anchor);
    var first := BlockRecord(fences[0], text[fences[0].offset..BlockEnd(text, fences)]);
    if first == Some(r) {
      BlockRecordFence(fences[0], text[fences[0].offset..BlockEnd(text, fences)]);
    } else {
      RecordsComeFromFences(text, fences[1..], r);
    }
  }

  lemma BlockRecordFence(f: Fence, block: bytes)
    ensures BlockRecord(f, block).Some? ==>
              BlockRecord(f, block).value.fenceOffset == f.offset && BlockRecord(f, block).value.anchor == f.anchor
  {
    hide LineLength, HeaderBody, HeaderOf, TrimNewlines;
  }

  lemma {:induction false} FencesGiveRecordsOrIssues(text: bytes, fences: seq<Fence>, f: Fence)
    requires Ascending(fences, 0, |text|) && f in fences
    ensures (exists r :: r in Records(text, fences) && r.fenceOffset == f.offset && r.anchor == f.anchor)
            || Issue(f.line) in Issues(text, fences)
  {
    hide BlockRecord;
    AscendingWiden(fences[1..], fences[0].offset + 1, |text|, 0, |text|);
    if f == fences[0] {
      BlockRecordFence(f, text[f.offset..BlockEnd(text, fences)]);
      match BlockRecord(f, text[f.offset..BlockEnd(text, fences)])
      case Some(r) => assert r in Records(text, fences);
      case None =>
    } else {
      FencesGiveRecordsOrIssues(text, fences[1..], f);
      if r :| r in Records(text, fences[1..]) && r.fenceOffset == f.offset && r.anchor == f.anchor {
        assert r in Records(text, fences);
      }
    }
  }

  /** A record's offset is the first byte of the line that carries its anchor. */
  lemma {:induction false} RecordOffsets(text: bytes, r: Record)
    requires r in ParsedRecords(text)
    ensures IsFenceAt(text, r.fenceOffset, r.anchor)
  {
    hide Fences, Ascending, FenceAnchor, Records, LineLength, BlockRecord;
    var fences := Fences(text, 0, 1);
    FencesAscend(text, 0, 1);
    RecordsComeFromFences(text, fences, r);
    assert text[0..] == text;
    FencesAreFenceLines(text, 0, 1, r.fenceOffset, r.anchor);
  }

  function Newlines(text: bytes): nat {
    if text == [] then 0 else (if text[0] == LF then 1 else 0) + Newlines(text[1..])
  }

  lemma {:induction false} NewlinesOfLine(line: bytes, rest: bytes)
    requires LF !in line
    ensures Newlines(line + [LF] + rest) == 1 + Newlines(rest)
  {
    if line == [] {
      assert (line + [LF] + rest)[1..] == rest;
    } else {
      assert (line + [LF] + rest)[1..] == line[1..] + [LF] + rest;
      NewlinesOfLine(line[1..], rest);
    }
  }

  lemma {:induction false} NoNewlines(line: bytes)
    requires LF !in line
    ensures Newlines(line) == 0
  {
    if line != [] {
      NoNewlines(line[1..]);
    }
  }

  /** The number of a fence is that of its line, counted from `number` at `offset`. */
  lemma {:induction false} FenceNumbers(text: bytes, offset: nat, number: nat, f: Fence)
    requires f in Fences(text, offset, number)
    ensures offset <= f.offset <= offset + |text| && f.line == number + Newlines(text[..f.offset - offset])
    decreases |text|
  {
    hide LineLength, Fences, FenceAnchor, Newlines;
    FencesUnfold(text, offset, number);
    var n := LineLength(text);
    LineEnds(text);
    if f in LineFence(text[..n], offset, number) {
      assert text[..0] == [];
      NoNewlines([]);
    } else {
      FenceNumbers(text[n + 1..], offset + n + 1, number + 1, f);
      var k := f.offset - offset;
      assert text[..k] == text[..n] + [LF] + text[n + 1..][..k - n - 1];
      NewlinesOfLine(text[..n], text[n + 1..][..k - n - 1]);
    }
  }

  /** No fence line is lost: it opens a record or is reported by its line number, counted from 1. */
  lemma {:induction false} FenceLinesAreParsed(text: bytes, at: nat, anchor: bytes)
    requires IsFenceAt(text, at, anchor)
    ensures (exists r :: r in ParsedRecords(text) && r.fenceOffset == at && r.anchor == anchor)
            || Issue(1 + Newlines(text[..at])) in ParsedIssues(text)
  {
    hide Fences, Ascending, FenceAnchor, Records, Issues, LineLength, BlockRecord, Newlines;
    var fences := Fences(text, 0, 1);
    FencesAscend(text, 0, 1);
    assert text[0..] == text;
    FencesAreFenceLines(text, 0, 1, at, anchor);
    var f :| f in fences && f.offset == at && f.anchor == anchor;
    FencesGiveRecordsOrIssues(text, fences, f);
    FenceNumbers(text, 0, 1, f);
  }

  ghost predicate OffsetsAscend(records: seq<Record>) {
    forall i, j :: 0 <= i < j < |records| ==> records[i].fenceOffset < records[j].fenceOffset
  }

  ghost predicate OffsetsFrom(records: seq<Record>, lo: nat) {
    forall i :: 0 <= i < |records| ==> lo <= records[i].fenceOffset
  }

  lemma {:induction false} RecordsAscend(text: bytes, fences: seq<Fence>, lo: nat)
    requires Ascending(fences, 0, |text|) && Ascending(fences, lo, |text|)
    ensures OffsetsAscend(Records(text, fences)) && OffsetsFrom(Records(text, fences), lo)
  {
    hide BlockRecord, Records;
    if fences == [] {
      NoRecords(text);
    } else {
      RecordsStep(text, fences);
      var block := text[fences[0].offset..BlockEnd(text, fences)];
      BlockRecordFence(fences[0], block);
      RecordsAscend(text, fences[1..], fences[0].offset + 1);
      var rest := Records(text, fences[1..]);
      match BlockRecord(fences[0], block)
      case Some(r) => assert Records(text, fences) == [r] + rest;
      case None => assert Records(text, fences) == rest;
    }
  }

  lemma {:induction false} ParsedOffsetsAscend(text: bytes)
    ensures OffsetsAscend(ParsedRecords(text))
  {
    hide Fences, Records, Ascending, OffsetsAscend;
    FencesAscend(text, 0, 1);
    RecordsAscend(text, Fences(text, 0, 1), 0);
  }

  // ----- parsing is compositional -----

  function ShiftFences(fences: seq<Fence>, delta: nat, lines: nat): (r: seq<Fence>)
    ensures |r| == |fences| && forall i :: 0 <= i < |r| ==> r[i] == fences[i].Shift(delta, lines)
  {
    seq(|fences|, i requires 0 <= i < |fences| => fences[i].Shift(delta, lines))
  }

  function ShiftRecords(records: seq<Record>, delta: nat): (r: seq<Record>)
    ensures |r| == |records| && forall i :: 0 <= i < |r| ==> r[i] == records[i].Shift(delta)
  {
    seq(|records|, i requires 0 <= i < |records| => records[i].Shift(delta))
  }

  function ShiftIssues(issues: seq<Issue>, delta: nat): (r: seq<Issue>)
    ensures |r| == |issues| && forall i :: 0 <= i < |r| ==> r[i] == issues[i].Shift(delta)
  {
    seq(|issues|, i requires 0 <= i < |issues| => issues[i].Shift(delta))
  }

  ghost predicate Whole(a: bytes) {
    a == [] || a[|a| - 1] == LF
  }

  lemma {:induction false} FencesShift(text: bytes, offset: nat, number: nat, delta: nat, lines: nat)
    ensures Fences(text, offset + delta, number + lines) == ShiftFences(Fences(text, offset, number), delta, lines)
    decreases |text|
  {
    hide LineLength, FenceAnchor, Fences;
    FencesUnfold(text, offset, number);
    FencesUnfold(text, offset + delta, number + lines);
    var n := LineLength(text);
    if n < |text| {
      FencesShift(text[n + 1..], offset + n + 1, number + 1, delta, lines);
    }
  }

  lemma {:induction false} FencesOfLine(line: bytes, rest: bytes, offset: nat, number: nat)
    requires LF !in line
    ensures Fences(line + [LF] + rest, offset, number) ==
            LineFence(line, offset, number) + Fences(rest, offset + |line| + 1, number + 1)
  {
    hide LineLength, LineFence;
    var text := line + [LF] + rest;
    assert text == line + ([LF] + rest);
    LineLengthIs(line, [LF] + rest);
    assert text[..|line|] == line && text[|line| + 1..] == rest;
  }

  lemma {:induction false} FencesCompose(a: bytes, b: bytes, offset: nat, number: nat)
    requires Whole(a)
    ensures Fences(a + b, offset, number) ==
            Fences(a, offset, number) + Fences(b, offset + |a|, number + Newlines(a))
    decreases |a|
  {
    hide Fences, LineLength, LineFence;
    if a == [] {
      assert a + b == b;
      assert Fences(a, offset, number) == [] by { NoFenceInNothing(offset, number); }
    } else {
      LineEnds(a);
      var n := LineLength(a);
      forall i | 0 <= i < n ensures a[i] != LF { assert a[..n][i] == a[i]; }
      var line, back := a[..n], a[n + 1..];
      assert a == line + [LF] + back;
      assert a + b == line + [LF] + (back + b);
      NewlinesOfLine(line, back);
      FencesOfLine(line, back, offset, number);
      FencesOfLine(line, back + b, offset, number);
      assert Whole(back) by { assert back != [] ==> back[|back| - 1] == a[|a| - 1]; }
      FencesCompose(back, b, offset + n + 1, number + 1);
    }
  }

  lemma NoFenceInNothing(offset: nat, number: nat)
    ensures Fences([], offset, number) == []
  {}

  lemma {:induction false} BlockRecordShift(f: Fence, block: bytes, delta: nat, lines: nat)
    ensures BlockRecord(f.Shift(delta, lines), block) ==
            match BlockRecord(f, block) case None => None case Some(r) => Some(r.Shift(delta))
  {
    hide LineLength, HeaderBody, HeaderOf, TrimNewlines;
  }

  lemma {:induction false} AscendingShift(fences: seq<Fence>, lo: nat, hi: nat, delta: nat, lines: nat)
    requires Ascending(fences, lo, hi)
    ensures Ascending(ShiftFences(fences, delta, lines), lo + delta, hi + delta)
  {
    if fences != [] {
      assert ShiftFences(fences, delta, lines)[1..] == ShiftFences(fences[1..], delta, lines);
      AscendingShift(fences[1..], fences[0].offset + 1, hi, delta, lines);
    }
  }

  /** The fences of `b` shifted behind `a` give the shifted records and issues. */
  lemma {:induction false} RecordsShift(a: bytes, b: bytes, fences: seq<Fence>, lines: nat)
    requires Ascending(fences, 0, |b|) && Ascending(ShiftFences(fences, |a|, lines), 0, |a + b|)
    ensures Records(a + b, ShiftFences(fences, |a|, lines)) == ShiftRecords(Records(b, fences), |a|)
    ensures Issues(a + b, ShiftFences(fences, |a|, lines)) == ShiftIssues(Issues(b, fences), lines)
    decreases |fences|
  {
    hide BlockRecord, Records, Issues, Ascending, ShiftFences, ShiftRecords, ShiftIssues;
    if fences == [] {
      assert ShiftFences(fences, |a|, lines) == [];
      NoRecords(b);
      NoRecords(a + b);
    } else {
      var shifted := ShiftFences(fences, |a|, lines);
      RecordsStep(b, fences);
      RecordsStep(a + b, shifted);
      assert shifted[1..] == ShiftFences(fences[1..], |a|, lines);
      RecordsShift(a, b, fences[1..], lines);
      var end := BlockEnd(b, fences);
      assert BlockEnd(a + b, shifted) == |a| + end;
      assert (a + b)[|a| + fences[0].offset..|a| + end] == b[fences[0].offset..end];
      BlockRecordShift(fences[0], b[fences[0].offset..end], |a|, lines);
      assert BlockRecord(shifted[0], (a + b)[shifted[0].offset..BlockEnd(a + b, shifted)]) ==
             BlockRecord(fences[0].Shift(|a|, lines), b[fences[0].offset..end]);
      match BlockRecord(fences[0], b[fences[0].offset..end])
      case Some(r) =>
        assert Records(a + b, shifted) == [r.Shift(|a|)] + Records(a + b, shifted[1..]);
        assert Issues(a + b, shifted) == Issues(a + b, shifted[1..]);
        assert Records(b, fences) == [r] + Records(b, fences[1..]);
        assert ShiftRecords(Records(b, fences), |a|) == [r.Shift(|a|)] + ShiftRecords(Records(b, fences[1..]), |a|);
        assert Issues(b, fences) == Issues(b, fences[1..]);
      case None =>
        var issue := Issue(fences[0].line);
        assert Issues(a + b, shifted) == [issue.Shift(lines)] + Issues(a + b, shifted[1..]);
        assert Records(a + b, shifted) == Records(a + b, shifted[1..]);
        assert Issues(b, fences) == [issue] + Issues(b, fences[1..]);
        assert ShiftIssues(Issues(b, fences), lines)
               == [issue.Shift(lines)] + ShiftIssues(Issues(b, fences[1..]), lines);
        assert Records(b, fences) == Records(b, fences[1..]);
    }
  }

  lemma {:induction false} AscendingAppend(front: seq<Fence>, back: seq<Fence>, lo: nat, mid: nat, hi: nat)
    requires Ascending(front, lo, mid) && Ascending(back, mid, hi) && lo <= mid <= hi
    ensures Ascending(front + back, lo, hi)
  {
    if front == [] {
      assert front + back == back;
      AscendingWiden(back, mid, hi, lo, hi);
    } else {
      assert (front + back)[1..] == front[1..] + back;
      AscendingAppend(front[1..], back, front[0].offset + 1, mid, hi);
    }
  }

  /** Fences behind the end of `a` leave the blocks of `a` unchanged. */
  lemma {:induction false} RecordsCompose(a: bytes, b: bytes, front: seq<Fence>, back: seq<Fence>)
    requires Ascending(front, 0, |a|) && Ascending(back, |a|, |a + b|)
    requires back != [] && back[0].offset == |a|
    ensures Ascending(back, 0, |a + b|) && Ascending(front + back, 0, |a + b|)
    ensures Records(a + b, front + back) == Records(a, front) + Records(a + b, back)
    ensures Issues(a + b, front + back) == Issues(a, front) + Issues(a + b, back)
    decreases |front|
  {
    hide BlockRecord, Records, Issues;
    AscendingWiden(back, |a|, |a + b|, 0, |a + b|);
    AscendingAppend(front, back, 0, |a|, |a + b|);
    if front == [] {
      assert front + back == back;
      NoRecords(a);
    } else {
      hide Ascending;
      RecordsStep(a, front);
      RecordsStep(a + b, front + back);
      assert (front + back)[1..] == front[1..] + back;
      RecordsCompose(a, b, front[1..], back);
      var end := BlockEnd(a, front);
      assert BlockEnd(a + b, front + back) == end;
      assert (a + b)[front[0].offset..end] == a[front[0].offset..end];
    }
  }

  lemma NoRecords(text: bytes)
    ensures Records(text, []) == [] && Issues(text, []) == []
  {}

  lemma {:induction false} ParsedIs(text: bytes)
    ensures Ascending(Fences(text, 0, 1), 0, |text|)
    ensures ParsedRecords(text) == Records(text, Fences(text, 0, 1))
    ensures ParsedIssues(text) == Issues(text, Fences(text, 0, 1))
  {
    hide Fences, Records, Issues, Ascending;
    FencesAscend(text, 0, 1);
  }

  lemma {:induction false} FirstFence(b: bytes)
    requires FenceAnchor(LineAt(b, 0)).Some?
    ensures Fences(b, 0, 1) != [] && Fences(b, 0, 1)[0].offset == 0
  {
    hide LineLength, FenceAnchor;
    assert b[0..] == b && b[..LineLength(b)] == LineAt(b, 0);
  }

  /** The fences of `a + b` are those of `a` and the shifted ones of `b`. */
  lemma {:induction false} FencesOfBoth(a: bytes, b: bytes) returns (shifted: seq<Fence>)
    requires Whole(a) && FenceAnchor(LineAt(b, 0)).Some?
    ensures shifted == ShiftFences(Fences(b, 0, 1), |a|, Newlines(a))
    ensures Fences(a + b, 0, 1) == Fences(a, 0, 1) + shifted
    ensures shifted != [] && shifted[0].offset == |a|
    ensures Ascending(shifted, |a|, |a + b|) && Ascending(shifted, 0, |a + b|)
  {
    hide Fences, Ascending, FenceAnchor, LineLength, LineAt, Newlines, Whole, ShiftFences;
    FirstFence(b);
    FencesAscend(b, 0, 1);
    FencesCompose(a, b, 0, 1);
    FencesShift(b, 0, 1, |a|, Newlines(a));
    shifted := ShiftFences(Fences(b, 0, 1), |a|, Newlines(a));
    AscendingShift(Fences(b, 0, 1), 0, |b|, |a|, Newlines(a));
    AscendingWiden(shifted, |a|, |a + b|, 0, |a + b|);
  }

  /**
    Parsing `a + b`, where `a` ends at a line end and `b` opens with a fence, is
    parsing both and shifting the second by the bytes and lines of the first.
  */
  lemma {:induction false} ParseCompose(a: bytes, b: bytes)
    requires Whole(a) && FenceAnchor(LineAt(b, 0)).Some?
    ensures ParsedRecords(a + b) == ParsedRecords(a) + ShiftRecords(ParsedRecords(b), |a|)
    ensures ParsedIssues(a + b) == ParsedIssues(a) + ShiftIssues(ParsedIssues(b), Newlines(a))
  {
    hide *;
    var shifted := FencesOfBoth(a, b);
    ParsedIs(a);
    ParsedIs(b);
    ParsedIs(a + b);
    RecordsShift(a, b, Fences(b, 0, 1), Newlines(a));
    RecordsCompose(a, b, Fences(a, 0, 1), shifted);
  }

  // ----- anchors are text -----

  lemma LaterLinesUtf8(text: bytes, at: nat)
    requires IsUtf8(text) && LineStart(text, at)
    ensures IsUtf8(text[at..])
  {
    hide IsUtf8;
    if at == 0 {
      assert text[at..] == text;
    } else {
      assert text == text[..at - 1] + [LF] + text[at..];
      AfterAscii(text[..at - 1], LF, text[at..]);
    }
  }

  lemma FirstLineUtf8(text: bytes)
    requires IsUtf8(text)
    ensures IsUtf8(text[..LineLength(text)])
  {
    hide IsUtf8, LineLength;
    var n := LineLength(text);
    LineEnds(text);
    assert text == text[..n] + text[n..];
    CutUtf8(text[..n], text[n..]);
  }

  lemma {:induction false} FenceAnchorUtf8(line: bytes)
    requires IsUtf8(line) && FenceAnchor(line).Some?
    ensures IsUtf8(FenceAnchor(line).value)
  {
    hide IsUtf8, Trim;
    var rest := line[|FENCE|..];
    assert line == FENCE + rest;
    AfterAsciiPrefix(FENCE, rest);
    var _, _ := TrimIs(rest);
  }

  lemma SameLine(text: bytes, at: nat)
    requires at <= |text|
    ensures LineAt(text, at) == text[at..][..LineLength(text[at..])]
  {
    hide LineLength;
  }

  /** The anchors of a text in UTF-8 are in UTF-8: lines and trimming never cut a character. */
  lemma {:induction false} AnchorsAreUtf8(text: bytes, r: Record)
    requires IsUtf8(text) && r in ParsedRecords(text)
    ensures IsUtf8(r.anchor)
  {
    hide IsUtf8, FenceAnchor, ParsedRecords, LineAt;
    RecordOffsets(text, r);
    LaterLinesUtf8(text, r.fenceOffset);
    FirstLineUtf8(text[r.fenceOffset..]);
    SameLine(text, r.fenceOffset);
    FenceAnchorUtf8(LineAt(text, r.fenceOffset));
  }
}
