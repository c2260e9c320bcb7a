/**
  cat's line printer as a transducer of bytes, and what it shows of a text
  (src/uu/cat/src/cat.rs 113-160, 529-705).
*/
module Cat {
  import opened Bytes

  const TAB: byte := 9
  const DOLLAR: byte := 36
  const CARET: byte := 94

  datatype NumberingMode = NoNumbers | NonEmpty | All

  /** `numeral` is the text of the n-th line number. */
  datatype Options = Options(
    number: NumberingMode,
    squeezeBlank: bool,
    showTabs: bool,
    showEnds: bool,
    showNonprint: bool,
    numeral: nat -> bytes)
  {
    function Tab(): bytes {
      if showTabs then [CARET, 73] else [TAB]
    }

    function EndOfLine(): bytes {
      if showEnds then [DOLLAR, LF] else [LF]
    }

    predicate CanPrintFast() {
      !(showTabs || showNonprint || showEnds || squeezeBlank || number != NoNumbers)
    }

    /** A run of ordinary bytes ends at these. */
    predicate Stops(b: byte) {
      b == LF || (b == CR && !showNonprint)
    }

    /** How a byte other than a newline shows. */
    function Render(b: byte): (r: bytes) {
      if !showNonprint then (if b == TAB && showTabs then [CARET, 73] else [b])
      else if b == TAB then Tab()
      else if b < 32 then [CARET, b + 64]
      else if b < 127 then [b]
      else if b == 127 then [CARET, 63]
      else if b < 160 then [77, 45, CARET, b - 64]
      else if b < 255 then [77, 45, b - 128]
      else [77, 45, CARET, 63]
    }

    function RenderAll(text: bytes): bytes {
      if text == [] then [] else Render(text[0]) + RenderAll(text[1..])
    }
  }

  // ----- the transducer -----

  /**
    Where the output stands: at a line start; inside a line; inside a line that an
    earlier read began; or with a carriage return held back.
  */
  datatype Mode = Start | Mid | Carried | Pending

  datatype State = State(mode: Mode, blankKept: bool, lineNumber: nat)

  datatype Shown = Shown(state: State, out: bytes)

  const INITIAL := State(Start, false, 0)

  /** A line goes on: what was held back is written, or the line's number. */
  function Enter(o: Options, s: State): Shown {
    if s.mode == Pending then Shown(State(Mid, false, s.lineNumber), [CR])
    else if s.mode == Start && o.number != NoNumbers then
      Shown(State(Mid, false, s.lineNumber + 1), o.numeral(s.lineNumber))
    else Shown(State(Mid, false, s.lineNumber), [])
  }

  function NewLine(o: Options, s: State): Shown {
    match s.mode
    case Mid => Shown(s.(mode := Start), o.EndOfLine())
    case Carried => Shown(State(Start, true, s.lineNumber), o.EndOfLine())
    case Pending => Shown(s.(mode := Start), (if o.showEnds then [CARET, 77] else [CR]) + o.EndOfLine())
    case Start =>
      if o.squeezeBlank && s.blankKept then Shown(s, [])
      else if o.number == All then Shown(State(Start, true, s.lineNumber + 1), o.numeral(s.lineNumber) + o.EndOfLine())
      else Shown(State(Start, true, s.lineNumber), o.EndOfLine())
  }

  function Step(o: Options, s: State, b: byte): Shown {
    if b == LF then NewLine(o, s)
    else
      var entered := Enter(o, s);
      if o.Stops(b) then Shown(entered.state.(mode := Pending), entered.out)
      else Shown(entered.state, entered.out + o.Render(b))
  }

  function Run(o: Options, s: State, text: bytes): Shown
    decreases |text|
  {
    if text == [] then Shown(s, [])
    else
      var first := Step(o, s, text[0]);
      var rest := Run(o, first.state, text[1..]);
      Shown(rest.state, first.out + rest.out)
  }

  /** All that is remembered of a line cut by the end of a read. */
  function Boundary(s: State): State {
    if s.mode == Mid then s.(mode := Carried) else s
  }

  function RunReads(o: Options, s: State, pulls: seq<bytes>): Shown
    decreases |pulls|
  {
    if pulls == [] then Shown(s, [])
    else
      var first := Run(o, s, pulls[0]);
      var rest := RunReads(o, Boundary(first.state), pulls[1..]);
      Shown(rest.state, first.out + rest.out)
  }

  /** A carriage return still held back at the end of all input. */
  function Flush(s: State): bytes {
    if s.mode == Pending then [CR] else []
  }

  lemma {:induction false} RunAppend(o: Options, s: State, a: bytes, b: bytes)
    ensures var first := Run(o, s, a);
            var rest := Run(o, first.state, b);
            Run(o, s, a + b) == Shown(rest.state, first.out + rest.out)
    decreases |a|
  {
    hide Step;
    if a == [] {
      assert a + b == b;
      assert [] + Run(o, s, b).out == Run(o, s, b).out;
    } else {
      assert (a + b)[1..] == a[1..] + b;
      var first := Step(o, s, a[0]);
      RunAppend(o, first.state, a[1..], b);
      var middle := Run(o, first.state, a[1..]);
      var rest := Run(o, middle.state, b);
      assert first.out + (middle.out + rest.out) == (first.out + middle.out) + rest.out;
    }
  }

  // ----- what a text shows, line by line -----

  function LineLength(text: bytes): (n: nat)
    ensures n <= |text| && (forall i :: 0 <= i < n ==> text[i] != LF) && (n < |text| ==> text[n] == LF)
  {
    if text == [] || text[0] == LF then 0 else 1 + LineLength(text[1..])
  }

  /** A finished line, without its newline: a carriage return at its end shows when ends do. */
  function LineText(o: Options, line: bytes): bytes {
    if line != [] && line[|line| - 1] == CR && !o.showNonprint && o.showEnds
    then o.RenderAll(line[..|line| - 1]) + [CARET, 77]
    else o.RenderAll(line)
  }

  predicate IsNumbered(o: Options, line: bytes) {
    o.number == All || (o.number == NonEmpty && line != [])
  }

  function Numbering(o: Options, line: bytes, n: nat): bytes {
    if IsNumbered(o, line) then o.numeral(n) else []
  }

  /**
    The display of a text from line number `n`: each line with its number and its end; a
    blank line after a blank one is left out when squeezing; a last line without newline
    is shown as it is, and not at all when empty.
  */
  function Display(o: Options, text: bytes, n: nat, afterBlank: bool): bytes
    decreases |text|
  {
    var k := LineLength(text);
    var line := text[..k];
    if k == |text| then (if line == [] then [] else Numbering(o, line, n) + o.RenderAll(line))
    else if line == [] && afterBlank && o.squeezeBlank then Display(o, text[k + 1..], n, true)
    else
      Numbering(o, line, n) + LineText(o, line) + o.EndOfLine()
      + Display(o, text[k + 1..], if IsNumbered(o, line) then n + 1 else n, line == [])
  }

  lemma {:induction false} RenderAppend(o: Options, a: bytes, b: bytes)
    ensures o.RenderAll(a + b) == o.RenderAll(a) + o.RenderAll(b)
    decreases |a|
  {
    if a == [] {
      assert a + b == b;
    } else {
      assert (a + b)[1..] == a[1..] + b;
      RenderAppend(o, a[1..], b);
      assert o.Render(a[0]) + (o.RenderAll(a[1..]) + o.RenderAll(b))
             == o.Render(a[0]) + o.RenderAll(a[1..]) + o.RenderAll(b);
    }
  }

  ghost predicate NoNewline(text: bytes) {
    forall i :: 0 <= i < |text| ==> text[i] != LF
  }

  /** A line that was begun. */
  predicate Inside(s: State) {
    (s.mode.Mid? || s.mode.Pending?) && !s.blankKept
  }

  lemma StepInside(o: Options, s: State, b: byte)
    requires Inside(s) && b != LF
    ensures var t := Step(o, s, b);
            && t.state == s.(mode := if o.Stops(b) then Pending else Mid)
            && t.out + Flush(t.state) == Flush(s) + o.Render(b)
  {}

  /** Inside a line everything shows, but for a carriage return held back at its end. */
  lemma {:induction false} InsideLine(o: Options, s: State, text: bytes)
    requires NoNewline(text) && Inside(s)
    ensures var t := Run(o, s, text);
            && t.state == s.(mode := if text == [] then s.mode else if o.Stops(text[|text| - 1]) then Pending else Mid)
            && t.out + Flush(t.state) == Flush(s) + o.RenderAll(text)
    decreases |text|
  {
    hide Step, Flush, Options.Render;
    if text != [] {
      var first := Step(o, s, text[0]);
      StepInside(o, s, text[0]);
      InsideLine(o, first.state, text[1..]);
      var rest := Run(o, first.state, text[1..]);
      calc {
        first.out + rest.out + Flush(rest.state);
      == first.out + (rest.out + Flush(rest.state));
      == first.out + (Flush(first.state) + o.RenderAll(text[1..]));
      == (first.out + Flush(first.state)) + o.RenderAll(text[1..]);
      == Flush(s) + o.Render(text[0]) + o.RenderAll(text[1..]);
      == Flush(s) + (o.Render(text[0]) + o.RenderAll(text[1..]));
      }
    }
  }

  lemma RunStep(o: Options, s: State, text: bytes)
    requires text != []
    ensures var first := Step(o, s, text[0]);
            var rest := Run(o, first.state, text[1..]);
            Run(o, s, text) == Shown(rest.state, first.out + rest.out)
  {}

  lemma StepEnters(o: Options, s: State, b: byte)
    requires s.mode.Start? && b != LF
    ensures var e := Enter(o, s);
            && Inside(e.state)
            && Step(o, s, b).state == Step(o, e.state, b).state
            && Step(o, s, b).out == e.out + Step(o, e.state, b).out
  {
    hide Options.Render;
  }

  /** Between lines: the next line has not begun, or its number has just been written. */
  lemma {:induction false} LineBegins(o: Options, s: State, text: bytes)
    requires s.mode.Start? && text != [] && text[0] != LF
    ensures var e := Enter(o, s);
            && Inside(e.state)
            && Run(o, s, text).state == Run(o, e.state, text).state
            && Run(o, s, text).out == e.out + Run(o, e.state, text).out
  {
    hide Step, Enter, Run;
    var e := Enter(o, s);
    StepEnters(o, s, text[0]);
    RunStep(o, s, text);
    RunStep(o, e.state, text);
    var a, b := Step(o, s, text[0]), Step(o, e.state, text[0]);
    var rest := Run(o, a.state, text[1..]).out;
    assert e.out + (b.out + rest) == e.out + b.out + rest;
  }

  /** One finished line of the transducer is one line of the display. */
  lemma OneLine(o: Options, s: State, line: bytes)
    requires s.mode.Start? && NoNewline(line)
    ensures var t := Run(o, s, line + [LF]);
            if line == [] && s.blankKept && o.squeezeBlank then t == Shown(s, [])
            else
              && t.state == State(Start, line == [], if IsNumbered(o, line) then s.lineNumber + 1 else s.lineNumber)
              && t.out == Numbering(o, line, s.lineNumber) + LineText(o, line) + o.EndOfLine()
  {
    if line == [] {
      BlankLine(o, s);
      assert line + [LF] == [LF];
    } else {
      FullLine(o, s, line);
      hide Run, Numbering, LineText, Options.EndOfLine;
      var n, text, end := Numbering(o, line, s.lineNumber), LineText(o, line), o.EndOfLine();
      assert n + (text + end) == n + text + end;
    }
  }

  lemma FullLine(o: Options, s: State, line: bytes)
    requires s.mode.Start? && line != [] && NoNewline(line)
    ensures var t := Run(o, s, line + [LF]);
            && t.state == State(Start, false, if IsNumbered(o, line) then s.lineNumber + 1 else s.lineNumber)
            && t.out == Numbering(o, line, s.lineNumber) + (LineText(o, line) + o.EndOfLine())
  {
    hide Run, Step, LineText, Options.RenderAll, Options.EndOfLine, Enter, Numbering, IsNumbered, NoNewline,
      Options.Stops;
    var e := Enter(o, s);
    EnterLine(o, s, line);
    LineBegins(o, s, line);
    RunAppend(o, s, line, [LF]);
    InsideLine(o, e.state, line);
    var inside := Run(o, e.state, line);
    RunOne(o, inside.state, LF);
    LineOut(o, inside, line);
    var end := Step(o, inside.state, LF).out;
    assert e.out + inside.out + end == e.out + (inside.out + end);
  }

  lemma BlankLine(o: Options, s: State)
    requires s.mode.Start?
    ensures Run(o, s, [LF]) ==
            if s.blankKept && o.squeezeBlank then Shown(s, [])
            else
              Shown(State(Start, true, if o.number == All then s.lineNumber + 1 else s.lineNumber),
                    Numbering(o, [], s.lineNumber) + LineText(o, []) + o.EndOfLine())
  {
    RunOne(o, s, LF);
    hide Options.EndOfLine, Run;
    assert Numbering(o, [], s.lineNumber) + LineText(o, []) == Numbering(o, [], s.lineNumber);
    assert [] + o.EndOfLine() == o.EndOfLine();
  }

  lemma EnterLine(o: Options, s: State, line: bytes)
    requires s.mode.Start? && line != [] && NoNewline(line)
    ensures var e := Enter(o, s);
            && line[0] != LF
            && e.state == State(Mid, false, if IsNumbered(o, line) then s.lineNumber + 1 else s.lineNumber)
            && e.out == Numbering(o, line, s.lineNumber)
            && Flush(e.state) + o.RenderAll(line) == o.RenderAll(line)
  {
    hide Options.RenderAll;
  }

  lemma {:induction false} LineOut(o: Options, inside: Shown, line: bytes)
    requires line != [] && NoNewline(line)
    requires !inside.state.blankKept && inside.state.mode == if o.Stops(line[|line| - 1]) then Pending else Mid
    requires inside.out + Flush(inside.state) == o.RenderAll(line)
    ensures inside.out + Step(o, inside.state, LF).out == LineText(o, line) + o.EndOfLine()
    ensures Step(o, inside.state, LF).state == inside.state.(mode := Start)
  {
    hide Options.RenderAll, Options.EndOfLine;
    var end := o.EndOfLine();
    if o.Stops(line[|line| - 1]) {
      var front := line[..|line| - 1];
      assert line == front + [CR];
      RenderAppend(o, front, [CR]);
      RenderOne(o, CR);
      SameFront(inside.out, o.RenderAll(front), CR);
      assert inside.out + ([CARET, 77] + end) == inside.out + [CARET, 77] + end;
      assert inside.out + ([CR] + end) == inside.out + [CR] + end;
    } else {
      assert inside.out + [] == inside.out;
    }
  }

  lemma SameFront(a: bytes, b: bytes, last: byte)
    requires a + [last] == b + [last]
    ensures a == b
  {
    assert a == (a + [last])[..|a|] && b == (b + [last])[..|b|];
  }

  lemma RunOne(o: Options, s: State, b: byte)
    ensures Run(o, s, [b]) == Step(o, s, b)
  {
    hide Step;
    var first := Step(o, s, b);
    assert [b][1..] == [];
    assert first.out + [] == first.out;
  }

  lemma RenderOne(o: Options, b: byte)
    ensures o.RenderAll([b]) == o.Render(b)
  {
    hide Options.Render;
    assert [b][1..] == [];
    assert o.Render(b) + [] == o.Render(b);
  }

  /** Read in one piece, a text shows as its display, whatever the options. */
  lemma {:induction false} ShowsTheDisplay(o: Options, text: bytes, s: State)
    requires s.mode.Start?
    ensures var t := Run(o, s, text);
            t.out + Flush(t.state) == Display(o, text, s.lineNumber, s.blankKept)
    decreases |text|
  {
    hide Options.RenderAll, LineText, Step;
    var k := LineLength(text);
    var line := text[..k];
    if k == |text| {
      assert line == text;
      if text != [] {
        LineBegins(o, s, text);
        var e := Enter(o, s);
        InsideLine(o, e.state, text);
        var inside := Run(o, e.state, text);
        hide Run;
        assert e.out + inside.out + Flush(inside.state) == e.out + (inside.out + Flush(inside.state));
        assert [] + o.RenderAll(text) == o.RenderAll(text);
      }
    } else {
      assert text == line + [LF] + text[k + 1..];
      RunAppend(o, s, line + [LF], text[k + 1..]);
      OneLine(o, s, line);
      var first := Run(o, s, line + [LF]);
      var rest := Run(o, first.state, text[k + 1..]);
      ShowsTheDisplay(o, text[k + 1..], first.state);
      hide Run;
      assert first.out + rest.out + Flush(rest.state) == first.out + (rest.out + Flush(rest.state));
      assert [] + Display(o, text[k + 1..], first.state.lineNumber, first.state.blankKept)
             == Display(o, text[k + 1..], first.state.lineNumber, first.state.blankKept);
    }
  }

  lemma {:induction false} PlainRender(o: Options, text: bytes)
    requires !o.showNonprint && !o.showTabs
    ensures o.RenderAll(text) == text
    decreases |text|
  {
    if text != [] {
      PlainRender(o, text[1..]);
      assert text == [text[0]] + text[1..];
    }
  }

  lemma PlainLine(o: Options, line: bytes, n: nat)
    requires o.CanPrintFast()
    ensures !IsNumbered(o, line) && Numbering(o, line, n) == [] && LineText(o, line) == line
    ensures o.EndOfLine() == [LF] && o.RenderAll(line) == line
  {
    PlainRender(o, line);
  }

  /** With nothing to show the display is the text itself, so copying it fast shows the same. */
  lemma {:induction false} FastCopyAgrees(o: Options, text: bytes, n: nat, afterBlank: bool)
    requires o.CanPrintFast()
    ensures Display(o, text, n, afterBlank) == text
    decreases |text|
  {
    hide Options.RenderAll, LineText, Numbering, IsNumbered, Options.EndOfLine;
    var k := LineLength(text);
    var line := text[..k];
    PlainLine(o, line, n);
    if k == |text| {
      assert line == text && [] + text == text;
    } else {
      FastCopyAgrees(o, text[k + 1..], n, line == []);
      assert text == line + [LF] + text[k + 1..];
      assert [] + line + [LF] == line + [LF];
    }
  }

  // ----- how the input is cut into reads -----

  function Newlines(text: bytes): nat {
    if text == [] then 0 else (if text[0] == LF then 1 else 0) + Newlines(text[1..])
  }

  lemma {:induction false} NewlinesAppend(a: bytes, b: bytes)
    ensures Newlines(a + b) == Newlines(a) + Newlines(b)
    decreases |a|
  {
    if a == [] {
      assert a + b == b;
    } else {
      assert (a + b)[1..] == a[1..] + b;
      NewlinesAppend(a[1..], b);
    }
  }

  ghost predicate PlainNumerals(o: Options) {
    forall n: nat :: NoNewline(o.numeral(n))
  }

  /** A cut that shows: inside a line whose end is followed by a blank line. */
  predicate Hazard(o: Options, before: bytes, after: bytes) {
    && o.squeezeBlank && before != [] && !o.Stops(before[|before| - 1])
    && |after| >= 2 && after[0] == after[1] == LF
  }

  function Hazards(o: Options, before: bytes, pulls: seq<bytes>): nat
    decreases |pulls|
  {
    if pulls == [] then 0
    else (if Hazard(o, before, Concat(pulls)) then 1 else 0) + Hazards(o, before + pulls[0], pulls[1..])
  }

  /** `s`, read in pieces, forgets that its line was not blank; `t`, read whole, does not. */
  predicate Ahead(s: State, t: State) {
    s.mode.Start? && t.mode.Start? && s.blankKept && !t.blankKept
  }

  /** The two after the same bytes, `lost` newlines apart. */
  ghost predicate Abreast(o: Options, s: State, t: State, lost: nat) {
    && (s.mode == t.mode || (s.mode.Carried? && t.mode.Mid?))
    && (lost == 0 ==> s.lineNumber == t.lineNumber)
    && (o.squeezeBlank ==> s.blankKept == t.blankKept || Ahead(s, t))
    && (!t.mode.Start? ==> !t.blankKept)
  }

  /** Newlines that `s` will still lose, given what follows. */
  function Due(o: Options, s: State, t: State, after: bytes): nat {
    if !o.squeezeBlank then 0
    else if s.mode.Carried? && t.mode.Mid? && |after| >= 2 && after[0] == after[1] == LF then 1
    else if Ahead(s, t) && after != [] && after[0] == LF then 1
    else 0
  }

  /** A newline that the squeezing takes from `s` alone. */
  function Lost(o: Options, s: State, t: State, b: byte): nat {
    if o.squeezeBlank && Ahead(s, t) && b == LF then 1 else 0
  }

  lemma StepAbreast(o: Options, s: State, t: State, lost: nat, b: byte, after: bytes)
    requires PlainNumerals(o) && Abreast(o, s, t, lost)
    ensures var p, q, d := Step(o, s, b), Step(o, t, b), Lost(o, s, t, b);
            && Abreast(o, p.state, q.state, lost + d)
            && Newlines(q.out) == Newlines(p.out) + d
            && (lost + d == 0 ==> p.out == q.out)
            && Due(o, s, t, [b] + after) == d + Due(o, p.state, q.state, after)
  {
    hide Newlines, Options.Render;
    OutNewlines(o, s, b);
    OutNewlines(o, t, b);
  }

  /** Only the end of a line writes a newline, and always one. */
  lemma OutNewlines(o: Options, s: State, b: byte)
    requires PlainNumerals(o)
    ensures Newlines(Step(o, s, b).out)
            == if b == LF && !(s.mode.Start? && o.squeezeBlank && s.blankKept) then 1 else 0
  {
    hide Newlines;
    var out := Step(o, s, b).out;
    var entered := Enter(o, s).out;
    assert NoNewline(o.numeral(s.lineNumber));
    NoNewlines(o.numeral(s.lineNumber));
    EndsWithOne(o);
    NoNewlines([]);
    NoNewlines([CR]);
    NoNewlines([CARET, 77]);
    if b == LF {
      NewlinesAppend(o.numeral(s.lineNumber), o.EndOfLine());
      NewlinesAppend([CR], o.EndOfLine());
      NewlinesAppend([CARET, 77], o.EndOfLine());
    } else {
      NoNewlines(o.Render(b));
      NewlinesAppend(entered, o.Render(b));
    }
  }

  lemma {:induction false} NoNewlines(text: bytes)
    requires NoNewline(text)
    ensures Newlines(text) == 0
  {
    if text != [] {
      NoNewlines(text[1..]);
    }
  }

  lemma EndsWithOne(o: Options)
    ensures Newlines(o.EndOfLine()) == 1
  {
    assert [DOLLAR, LF][1..] == [LF] && [LF][1..] == [];
    assert Newlines([LF]) == 1;
  }

  /** Newlines lost within one read. */
  function LostIn(o: Options, s: State, t: State, read: bytes): nat
    decreases |read|
  {
    if read == [] then 0
    else
      Lost(o, s, t, read[0]) + LostIn(o, Step(o, s, read[0]).state, Step(o, t, read[0]).state, read[1..])
  }

  lemma {:induction false} RunAbreast(o: Options, s: State, t: State, lost: nat, read: bytes, after: bytes)
    requires PlainNumerals(o) && Abreast(o, s, t, lost)
    ensures var p, q, d := Run(o, s, read), Run(o, t, read), LostIn(o, s, t, read);
            && Abreast(o, p.state, q.state, lost + d)
            && Newlines(q.out) == Newlines(p.out) + d
            && (lost + d == 0 ==> p.out == q.out)
            && Due(o, s, t, read + after) == d + Due(o, p.state, q.state, after)
    decreases |read|
  {
    hide Step, Abreast, Due, Lost, PlainNumerals, Newlines;
    if read == [] {
      assert [] + after == after;
    } else {
      assert read + after == [read[0]] + (read[1..] + after);
      StepAbreast(o, s, t, lost, read[0], read[1..] + after);
      var p, q := Step(o, s, read[0]), Step(o, t, read[0]);
      RunAbreast(o, p.state, q.state, lost + Lost(o, s, t, read[0]), read[1..], after);
      NewlinesAppend(p.out, Run(o, p.state, read[1..]).out);
      NewlinesAppend(q.out, Run(o, q.state, read[1..]).out);
    }
  }

  /** Where a run stands depends on its last byte alone. */
  lemma {:induction false} ModeAfter(o: Options, t: State, read: bytes)
    requires read != []
    ensures var last := read[|read| - 1];
            Run(o, t, read).state.mode == if last == LF then Start else if o.Stops(last) then Pending else Mid
    decreases |read|
  {
    var first := Step(o, t, read[0]);
    if |read| > 1 {
      ModeAfter(o, first.state, read[1..]);
    }
  }

  /** The end of a read, where a hazard becomes due. */
  lemma BoundaryAbreast(o: Options, s: State, t: State, lost: nat, before: bytes, after: bytes)
    requires Abreast(o, s, t, lost) && before != []
    requires var last := before[|before| - 1];
             s.mode == t.mode == if last == LF then Start else if o.Stops(last) then Pending else Mid
    ensures Abreast(o, Boundary(s), t, lost)
    ensures Due(o, Boundary(s), t, after) == Due(o, s, t, after) + if Hazard(o, before, after) then 1 else 0
  {}

  lemma {:induction false} ReadsAbreast(o: Options, s: State, t: State, lost: nat, before: bytes, pulls: seq<bytes>)
    returns (d: nat)
    requires PlainNumerals(o) && Abreast(o, s, t, lost) && forall i :: 0 <= i < |pulls| ==> pulls[i] != []
    ensures var p, q := RunReads(o, s, pulls), Run(o, t, Concat(pulls));
            && Newlines(q.out) == Newlines(p.out) + d
            && (lost + d == 0 ==> p.out == q.out && p.state.mode.Pending? == q.state.mode.Pending?)
            && Due(o, s, t, Concat(pulls)) + Hazards(o, before, pulls)
               == d + if pulls != [] && Hazard(o, before, Concat(pulls)) then 1 else 0
    decreases |pulls|
  {
    hide Step, Abreast, Due, Lost, PlainNumerals, Newlines, Hazard, LostIn, Run;
    if pulls == [] {
      NothingMore(o, s, t, lost, before);
      return 0;
    }
    var read, rest := pulls[0], Concat(pulls[1..]);
    RunAbreast(o, s, t, lost, read, rest);
    RunAppend(o, t, read, rest);
    var p, q := Run(o, s, read), Run(o, t, read);
    ModeAfter(o, s, read);
    ModeAfter(o, t, read);
    LastByte(before, read);
    BoundaryAbreast(o, p.state, q.state, lost + LostIn(o, s, t, read), before + read, rest);
    var more := ReadsAbreast(o, Boundary(p.state), q.state, lost + LostIn(o, s, t, read), before + read, pulls[1..]);
    d := LostIn(o, s, t, read) + more;
    if pulls[1..] == [] {
      NothingMore(o, Boundary(p.state), q.state, lost + LostIn(o, s, t, read), before + read);
    }
    NewlinesAppend(p.out, RunReads(o, Boundary(p.state), pulls[1..]).out);
    NewlinesAppend(q.out, Run(o, q.state, rest).out);
  }

  lemma NothingMore(o: Options, s: State, t: State, lost: nat, before: bytes)
    requires Abreast(o, s, t, lost)
    ensures Concat([]) == [] && Run(o, t, []) == Shown(t, []) && Due(o, s, t, []) == 0
    ensures s.mode.Pending? == t.mode.Pending? && !Hazard(o, before, [])
    ensures Newlines([]) == 0
  {}

  /**
    The output is the same however the input is cut into reads, unless blank lines are
    squeezed and a read ends inside a line that a blank line follows: then a newline is
    lost at each such cut.
  */
  lemma {:induction false} WhenReadsShow(o: Options, pulls: seq<bytes>)
    requires PlainNumerals(o) && forall i :: 0 <= i < |pulls| ==> pulls[i] != []
    ensures var p, q := RunReads(o, INITIAL, pulls), Run(o, INITIAL, Concat(pulls));
            && (p.out + Flush(p.state) == q.out + Flush(q.state) <==> Hazards(o, [], pulls) == 0)
            && Newlines(q.out) == Newlines(p.out) + Hazards(o, [], pulls)
  {
    var d := ReadsAbreast(o, INITIAL, INITIAL, 0, [], pulls);
    var p, q := RunReads(o, INITIAL, pulls), Run(o, INITIAL, Concat(pulls));
    hide Run, RunReads, Hazards, Newlines;
    assert d == Hazards(o, [], pulls);
    NewlinesAppend(p.out, Flush(p.state));
    NewlinesAppend(q.out, Flush(q.state));
    NoNewlines(Flush(p.state));
    NoNewlines(Flush(q.state));
  }

  lemma {:induction false} NoSqueezeNoHazard(o: Options, before: bytes, pulls: seq<bytes>)
    requires !o.squeezeBlank
    ensures Hazards(o, before, pulls) == 0
    decreases |pulls|
  {
    if pulls != [] {
      NoSqueezeNoHazard(o, before + pulls[0], pulls[1..]);
    }
  }

  /** Without squeezing, every way of reading shows the display of the whole input. */
  lemma {:induction false} ReadsShowTheDisplay(o: Options, pulls: seq<bytes>)
    requires PlainNumerals(o) && !o.squeezeBlank && forall i :: 0 <= i < |pulls| ==> pulls[i] != []
    ensures var p := RunReads(o, INITIAL, pulls);
            p.out + Flush(p.state) == Display(o, Concat(pulls), 0, false)
  {
    WhenReadsShow(o, pulls);
    NoSqueezeNoHazard(o, [], pulls);
    ShowsTheDisplay(o, Concat(pulls), INITIAL);
  }

  /** The shortest input whose reads show: `a`, then two newlines, read in two pieces. */
  lemma SplitReadLosesABlankLine(o: Options)
    requires PlainNumerals(o) && o.squeezeBlank
    ensures Hazards(o, [], [[97], [LF, LF]]) == 1
    ensures RunReads(o, INITIAL, [[97], [LF, LF]]).out != Run(o, INITIAL, [97, LF, LF]).out
  {
    var pulls: seq<bytes> := [[97], [LF, LF]];
    assert pulls[1..] == [[LF, LF]] && pulls[1..][1..] == [];
    assert Concat(pulls[1..]) == [LF, LF] by {
      assert [LF, LF] + [] == [LF, LF];
    }
    assert Concat(pulls) == [97, LF, LF];
    assert [] + pulls[0] == [97];
    assert Hazards(o, [97] + pulls[1], pulls[1..][1..]) == 0;
    assert Hazards(o, [97], pulls[1..]) == 1;
    assert Hazards(o, [], pulls) == 1;
    WhenReadsShow(o, pulls);
  }

  /** No shorter input has such a cut. */
  lemma {:induction false} ShorterInputsHaveNoHazard(o: Options, before: bytes, pulls: seq<bytes>)
    requires |before| + |Concat(pulls)| < 3
    ensures Hazards(o, before, pulls) == 0
    decreases |pulls|
  {
    if pulls != [] {
      ShorterInputsHaveNoHazard(o, before + pulls[0], pulls[1..]);
    }
  }

  lemma LastByte(before: bytes, read: bytes)
    requires read != []
    ensures (before + read)[|before + read| - 1] == read[|read| - 1]
  {}
}
