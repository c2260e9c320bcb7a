/** The line printer itself: `print_lines`, its writers and the state kept between files (cat.rs 402-421, 529-705). */
module CatPrinter {
  import opened Bytes
  import opened Cat

  /** The reads of one file: an empty one is its end. */
  function Taken(pulls: seq<bytes>): (r: seq<bytes>)
    ensures forall i :: 0 <= i < |r| ==> r[i] != []
  {
    if pulls == [] || pulls[0] == [] then [] else [pulls[0]] + Taken(pulls[1..])
  }

  function AllTaken(files: seq<seq<bytes>>): (r: seq<bytes>)
    ensures forall i :: 0 <= i < |r| ==> r[i] != []
  {
    if files == [] then [] else Taken(files[0]) + AllTaken(files[1..])
  }

  ghost predicate Ordinary(o: Options, text: bytes) {
    forall i :: 0 <= i < |text| ==> !o.Stops(text[i])
  }

  lemma {:induction false} InsideOrdinary(o: Options, e: State, text: bytes)
    requires Ordinary(o, text) && e.mode.Mid? && !e.blankKept
    ensures Run(o, e, text) == Shown(e, o.RenderAll(text))
    decreases |text|
  {
    if text != [] {
      InsideOrdinary(o, e, text[1..]);
    }
  }

  lemma OrdinaryStep(o: Options, s: State, b: byte)
    requires !o.Stops(b) && !s.mode.Mid?
    ensures var e := Enter(o, s);
            Step(o, s, b) == Shown(e.state, e.out + o.Render(b)) && e.state.mode.Mid? && !e.state.blankKept
  {}

  /** A run of ordinary bytes from where a read or a line left off. */
  lemma OrdinaryRun(o: Options, s: State, text: bytes)
    requires Ordinary(o, text) && text != [] && !s.mode.Mid?
    ensures var e := Enter(o, s);
            Run(o, s, text) == Shown(e.state, e.out + o.RenderAll(text))
  {
    hide Run, Step, Enter, Options.Render, Options.Stops;
    var e, rest := Enter(o, s), o.RenderAll(text[1..]);
    OrdinaryStep(o, s, text[0]);
    InsideOrdinary(o, e.state, text[1..]);
    RunStep(o, s, text);
    assert e.out + o.Render(text[0]) + rest == e.out + (o.Render(text[0]) + rest);
  }

  /** The byte that ends the run: a newline, or a carriage return to hold back. */
  lemma RunToStop(o: Options, s: State, text: bytes, stop: byte)
    requires Ordinary(o, text) && o.Stops(stop) && !s.mode.Mid? && (text == [] ==> stop == CR)
    ensures var e := Enter(o, s);
            Run(o, s, text + [stop])
            == if stop == LF then Shown(e.state.(mode := Start), e.out + o.RenderAll(text) + o.EndOfLine())
               else Shown(e.state.(mode := Pending), e.out + o.RenderAll(text))
  {
    RunAppend(o, s, text, [stop]);
    if text == [] {
      assert text + [stop] == [stop];
      RunOne(o, s, stop);
      assert Enter(o, s).out + [] == Enter(o, s).out;
    } else {
      OrdinaryRun(o, s, text);
      var e := Enter(o, s);
      assert Run(o, s, text).state == e.state && e.state.mode.Mid?;
      RunOne(o, e.state, stop);
      hide Run, Options.RenderAll, Options.EndOfLine;
      assert e.out + o.RenderAll(text) + [] == e.out + o.RenderAll(text);
    }
  }

  /** The first byte that is one of `stops`. */
  method Position(text: bytes, stops: set<byte>) returns (p: Option<nat>)
    ensures p.None? ==> forall i :: 0 <= i < |text| ==> text[i] !in stops
    ensures p.Some? ==> p.value < |text| && text[p.value] in stops
                        && forall i :: 0 <= i < p.value ==> text[i] !in stops
  {
    for i := 0 to |text|
      invariant forall k :: 0 <= k < i ==> text[k] !in stops
    {
      if text[i] in stops {
        return Some(i);
      }
    }
    p := None;
  }

  class Printer {
    const o: Options
    var lineNumber: nat
    var atLineStart: bool
    var skippedCarriageReturn: bool
    var oneBlankKept: bool
    var out: bytes

    constructor (o: Options)
      ensures this.o == o && out == [] && Standing() == INITIAL
    {
      this.o := o;
      lineNumber, atLineStart, skippedCarriageReturn, oneBlankKept, out := 0, true, false, false, [];
    }

    /** While a carriage return is held back, it does not matter whether a line has started. */
    ghost function Standing(): (s: State)
      reads this
      ensures !s.mode.Mid?
    {
      State(if skippedCarriageReturn then Pending else if atLineStart then Start else Carried, oneBlankKept, lineNumber)
    }

    method WriteNumber()
      modifies this`out, this`lineNumber
      ensures out == old(out) + o.numeral(old(lineNumber)) && lineNumber == old(lineNumber) + 1
    {
      out := out + o.numeral(lineNumber);
      lineNumber := lineNumber + 1;
    }

    /** A newline at the start of the loop; the caller notes that a line starts. */
    method WriteNewLine()
      modifies this
      ensures !skippedCarriageReturn
      ensures var t := NewLine(o, old(Standing()));
              out == old(out) + t.out && t.state == State(Start, oneBlankKept, lineNumber)
    {
      if skippedCarriageReturn {
        if o.showEnds {
          out := out + [CARET, 77];
        } else {
          out := out + [CR];
        }
        skippedCarriageReturn := false;
        out := out + o.EndOfLine();
        return;
      }
      if !atLineStart || !o.squeezeBlank || !oneBlankKept {
        oneBlankKept := true;
        if atLineStart && o.number == All {
          WriteNumber();
        }
        out := out + o.EndOfLine();
      }
    }

    /** Writes ordinary bytes as they show and returns how many there were. */
    method WriteEnd(inBuf: bytes) returns (n: nat)
      modifies this`out
      ensures n <= |inBuf| && Ordinary(o, inBuf[..n]) && (n < |inBuf| ==> o.Stops(inBuf[n]))
      ensures out == old(out) + o.RenderAll(inBuf[..n])
    {
      if o.showNonprint {
        n := WriteNonprintToEnd(inBuf);
      } else if o.showTabs {
        n := WriteTabToEnd(inBuf);
      } else {
        n := WriteToEnd(inBuf);
      }
    }

    method WriteToEnd(inBuf: bytes) returns (n: nat)
      requires !o.showNonprint && !o.showTabs
      modifies this`out
      ensures n <= |inBuf| && Ordinary(o, inBuf[..n]) && (n < |inBuf| ==> o.Stops(inBuf[n]))
      ensures out == old(out) + o.RenderAll(inBuf[..n])
    {
      var p := Position(inBuf, {LF, CR});
      n := if p.Some? then p.value else |inBuf|;
      out := out + inBuf[..n];
      AsItIs(o, inBuf[..n]);
    }

    method WriteTabToEnd(inBuf: bytes) returns (n: nat)
      requires !o.showNonprint && o.showTabs
      modifies this`out
      ensures n <= |inBuf| && Ordinary(o, inBuf[..n]) && (n < |inBuf| ==> o.Stops(inBuf[n]))
      ensures out == old(out) + o.RenderAll(inBuf[..n])
    {
      hide Options.RenderAll;
      var count := 0;
      RenderNothing(o);
      while true
        invariant 0 <= count <= |inBuf| && Ordinary(o, inBuf[..count])
        invariant out == old(out) + o.RenderAll(inBuf[..count])
        decreases |inBuf| - count
      {
        var rest := inBuf[count..];
        var p := Position(rest, {LF, TAB, CR});
        var k := if p.Some? then p.value else |rest|;
        out := out + rest[..k];
        assert rest[..k] == inBuf[count..count + k];
        SliceJoin(inBuf, 0, count, count + k);
        AsItIs(o, rest[..k]);
        RenderAppend(o, inBuf[..count], rest[..k]);
        if p.Some? && rest[k] == TAB {
          out := out + [CARET, 73];
          assert inBuf[..count + k + 1] == inBuf[..count + k] + [TAB];
          RenderAppend(o, inBuf[..count + k], [TAB]);
          RenderOne(o, TAB);
          count := count + k + 1;
        } else {
          return count + k;
        }
      }
    }

    method WriteNonprintToEnd(inBuf: bytes) returns (count: nat)
      requires o.showNonprint
      modifies this`out
      ensures count <= |inBuf| && Ordinary(o, inBuf[..count]) && (count < |inBuf| ==> o.Stops(inBuf[count]))
      ensures out == old(out) + o.RenderAll(inBuf[..count])
    {
      hide Options.RenderAll;
      count := 0;
      RenderNothing(o);
      while count < |inBuf|
        invariant count <= |inBuf| && Ordinary(o, inBuf[..count])
        invariant out == old(out) + o.RenderAll(inBuf[..count])
      {
        var b := inBuf[count];
        if b == LF {
          break;
        }
        if b == 9 {
          out := out + o.Tab();
        } else if b <= 8 || 10 <= b <= 31 {
          out := out + [CARET, b + 64];
        } else if 32 <= b <= 126 {
          out := out + [b];
        } else if b == 127 {
          out := out + [CARET, 63];
        } else if 128 <= b <= 159 {
          out := out + [77, 45, CARET, b - 64];
        } else if 160 <= b <= 254 {
          out := out + [77, 45, b - 128];
        } else {
          out := out + [77, 45, CARET, 63];
        }
        assert inBuf[..count + 1] == inBuf[..count] + [b];
        RenderAppend(o, inBuf[..count], [b]);
        RenderOne(o, b);
        count := count + 1;
      }
    }

    /** The carriage return held back, or the number of a new line. */
    method StartRun()
      modifies this
      ensures var e := Enter(o, old(Standing()));
              out == old(out) + e.out && e.state == State(Mid, false, lineNumber)
      ensures !skippedCarriageReturn && !oneBlankKept
    {
      if skippedCarriageReturn {
        out := out + [CR];
        skippedCarriageReturn := false;
        atLineStart := false;
      }
      oneBlankKept := false;
      if atLineStart && o.number != NoNumbers {
        WriteNumber();
      }
    }

    /** What follows a line start or a break: a run of ordinary bytes, up to its stop or the end of the read. */
    method PrintRun(inBuf: bytes, pos: nat) returns (end: nat)
      requires pos < |inBuf| && inBuf[pos] != LF
      modifies this
      ensures pos < end <= |inBuf|
      ensures var t := Run(o, old(Standing()), inBuf[pos..end]);
              && out == old(out) + t.out && Standing() == Boundary(t.state)
              && (end < |inBuf| ==> !t.state.mode.Mid?)
    {
      hide Run, Options.RenderAll, Options.EndOfLine, Enter;
      ghost var s := Standing();
      StartRun();
      var offset := WriteEnd(inBuf[pos..]);
      ghost var text := inBuf[pos..][..offset];
      if offset + pos == |inBuf| {
        assert inBuf[pos..|inBuf|] == text;
        OrdinaryRun(o, s, text);
        atLineStart := false;
        return |inBuf|;
      }
      var stop := inBuf[pos + offset];
      end := pos + offset + 1;
      assert inBuf[pos..end] == text + [stop];
      RunToStop(o, s, text, stop);
      if stop == CR {
        skippedCarriageReturn := true;
      } else {
        assert stop == LF;
        out := out + o.EndOfLine();
        atLineStart := true;
      }
    }

    /** Prints one read. */
    method PrintRead(inBuf: bytes)
      modifies this
      ensures var t := Run(o, old(Standing()), inBuf);
              out == old(out) + t.out && Standing() == Boundary(t.state)
    {
      hide Run, NewLine, Printer.Standing;
      ghost var s0 := Standing();
      var pos := 0;
      RunNothing(o, s0);
      assert inBuf[..0] == [];
      while pos < |inBuf|
        invariant 0 <= pos <= |inBuf|
        invariant Standing() == Boundary(Run(o, s0, inBuf[..pos]).state)
        invariant pos < |inBuf| ==> !Run(o, s0, inBuf[..pos]).state.mode.Mid?
        invariant out == old(out) + Run(o, s0, inBuf[..pos]).out
      {
        ghost var s, done := Standing(), inBuf[..pos];
        if inBuf[pos] == LF {
          assert inBuf[..pos + 1] == done + [LF];
          RunAppend(o, s0, done, [LF]);
          RunNewline(o, s);
          WriteNewLine();
          NoteLineStart();
          pos := pos + 1;
          continue;
        }
        var end := PrintRun(inBuf, pos);
        assert inBuf[..end] == done + inBuf[pos..end];
        RunAppend(o, s0, done, inBuf[pos..end]);
        pos := end;
      }
      assert inBuf[..pos] == inBuf;
    }

    method NoteLineStart()
      requires !skippedCarriageReturn
      modifies this`atLineStart
      ensures Standing() == State(Start, oneBlankKept, lineNumber)
    {
      atLineStart := true;
    }

    method PrintLines(pulls: seq<bytes>)
      modifies this
      ensures var t := RunReads(o, old(Standing()), Taken(pulls));
              out == old(out) + t.out && Standing() == t.state
    {
      hide Run, Boundary, Printer.Standing;
      ghost var whole := RunReads(o, Standing(), Taken(pulls));
      ghost var printed: bytes := [];
      var i := 0;
      assert pulls[0..] == pulls;
      assert [] + whole.out == whole.out;
      while i < |pulls| && pulls[i] != []
        invariant i <= |pulls| && out == old(out) + printed
        invariant var rest := RunReads(o, Standing(), Taken(pulls[i..]));
                  whole == Shown(rest.state, printed + rest.out)
      {
        ghost var first := Run(o, Standing(), pulls[i]);
        assert pulls[i..][1..] == pulls[i + 1..];
        assert Taken(pulls[i..]) == [pulls[i]] + Taken(pulls[i + 1..]);
        assert ([pulls[i]] + Taken(pulls[i + 1..]))[1..] == Taken(pulls[i + 1..]);
        ghost var rest := RunReads(o, Boundary(first.state), Taken(pulls[i + 1..]));
        assert printed + (first.out + rest.out) == printed + first.out + rest.out;
        PrintRead(pulls[i]);
        printed := printed + first.out;
        i := i + 1;
      }
      assert printed + [] == printed;
    }

    /** Copies one file. */
    method PrintFast(pulls: seq<bytes>)
      modifies this`out
      ensures out == old(out) + Concat(Taken(pulls))
      ensures Standing() == old(Standing())
    {
      hide Printer.Standing, Taken, Concat;
      var i := 0;
      ghost var copied: bytes := [];
      assert pulls[0..] == pulls;
      while i < |pulls| && pulls[i] != []
        invariant i <= |pulls| && out == old(out) + copied && Standing() == old(Standing())
        invariant Concat(Taken(pulls)) == copied + Concat(Taken(pulls[i..]))
      {
        NextRead(pulls, i);
        Copy(pulls[i]);
        Associate(copied, pulls[i], Concat(Taken(pulls[i + 1..])));
        copied := copied + pulls[i];
        i := i + 1;
      }
      NextRead(pulls, i);
      assert copied + [] == copied;
    }

    /** One file: copied as it is when nothing is to be shown. */
    method CatHandle(pulls: seq<bytes>)
      modifies this
      ensures if o.CanPrintFast() then out == old(out) + Concat(Taken(pulls)) && Standing() == old(Standing())
              else
                var t := RunReads(o, old(Standing()), Taken(pulls));
                out == old(out) + t.out && Standing() == t.state
    {
      hide Options.CanPrintFast, Printer.Standing, Taken, Concat, RunReads;
      if o.CanPrintFast() {
        PrintFast(pulls);
      } else {
        PrintLines(pulls);
      }
    }

    method Copy(read: bytes)
      modifies this`out
      ensures out == old(out) + read && Standing() == old(Standing())
    {
      out := out + read;
    }
  }

  lemma Associate(a: bytes, b: bytes, c: bytes)
    ensures a + (b + c) == a + b + c
  {}

  lemma NextRead(pulls: seq<bytes>, i: nat)
    requires i <= |pulls|
    ensures Concat(Taken(pulls[i..]))
            == if i == |pulls| || pulls[i] == [] then [] else pulls[i] + Concat(Taken(pulls[i + 1..]))
  {
    if i < |pulls| {
      assert pulls[i..][1..] == pulls[i + 1..];
      assert ([pulls[i]] + Taken(pulls[i + 1..]))[1..] == Taken(pulls[i + 1..]);
    }
  }

  lemma {:induction false} RunReadsAppend(o: Options, s: State, a: seq<bytes>, b: seq<bytes>)
    ensures var first := RunReads(o, s, a);
            var rest := RunReads(o, first.state, b);
            RunReads(o, s, a + b) == Shown(rest.state, first.out + rest.out)
    decreases |a|
  {
    hide Run, Boundary;
    if a == [] {
      assert a + b == b;
      assert [] + RunReads(o, s, b).out == RunReads(o, s, b).out;
    } else {
      assert (a + b)[1..] == a[1..] + b;
      var first := Run(o, s, a[0]);
      RunReadsAppend(o, Boundary(first.state), a[1..], b);
      var middle := RunReads(o, Boundary(first.state), a[1..]);
      var rest := RunReads(o, middle.state, b);
      assert first.out + (middle.out + rest.out) == (first.out + middle.out) + rest.out;
    }
  }

  /** All files, read one after the other with one state, and the carriage return still held back. */
  method CatFiles(files: seq<seq<bytes>>, o: Options) returns (output: bytes)
    ensures var t := RunReads(o, INITIAL, AllTaken(files));
            output == if o.CanPrintFast() then Concat(AllTaken(files)) else t.out + Flush(t.state)
  {
    hide Run, Options.CanPrintFast, Taken, Boundary;
    var printer := new Printer(o);
    assert files[..0] == [];
    for i := 0 to |files|
      invariant printer.o == o && fresh(printer)
      invariant if o.CanPrintFast() then
                  printer.out == Concat(AllTaken(files[..i])) && printer.Standing() == INITIAL
                else
                  var t := RunReads(o, INITIAL, AllTaken(files[..i]));
                  printer.out == t.out && printer.Standing() == t.state
    {
      printer.CatHandle(files[i]);
      AllTakenSnoc(files, i);
      RunReadsAppend(o, INITIAL, AllTaken(files[..i]), Taken(files[i]));
      ConcatAppend(AllTaken(files[..i]), Taken(files[i]));
    }
    assert files[..|files|] == files;
    output := printer.out;
    if printer.skippedCarriageReturn {
      output := output + [CR];
    }
  }

  lemma {:induction false} AllTakenSnoc(files: seq<seq<bytes>>, n: nat)
    requires n < |files|
    ensures AllTaken(files[..n + 1]) == AllTaken(files[..n]) + Taken(files[n])
    decreases n
  {
    hide Taken;
    if n == 0 {
      assert files[..1][1..] == [] && files[..1][0] == files[0] && files[..0] == [];
      assert Taken(files[0]) + [] == [] + Taken(files[0]);
    } else {
      AllTakenSnoc(files[1..], n - 1);
      assert files[..n + 1][1..] == files[1..][..n] && files[..n][1..] == files[1..][..n - 1];
    }
  }

  /** Whatever is shown, and however files are read: without squeezing, the display of their concatenation. */
  lemma FilesShowTheDisplay(o: Options, files: seq<seq<bytes>>)
    requires PlainNumerals(o) && !o.squeezeBlank
    ensures var t := RunReads(o, INITIAL, AllTaken(files));
            (if o.CanPrintFast() then Concat(AllTaken(files)) else t.out + Flush(t.state))
            == Display(o, Concat(AllTaken(files)), 0, false)
  {
    hide Run, RunReads, Display, AllTaken, Concat, Flush;
    if o.CanPrintFast() {
      FastCopyAgrees(o, Concat(AllTaken(files)), 0, false);
    } else {
      ReadsShowTheDisplay(o, AllTaken(files));
    }
  }

  lemma RenderNothing(o: Options)
    ensures o.RenderAll([]) == []
  {}

  lemma RunNothing(o: Options, s: State)
    ensures Run(o, s, []) == Shown(s, [])
  {}

  lemma RunNewline(o: Options, s: State)
    ensures Run(o, s, [LF]) == NewLine(o, s)
  {
    RunOne(o, s, LF);
  }

  /** Neither tabs nor anything else is shown specially. */
  lemma {:induction false} AsItIs(o: Options, text: bytes)
    requires !o.showNonprint && forall i :: 0 <= i < |text| ==> !(o.showTabs && text[i] == TAB)
    ensures o.RenderAll(text) == text
    decreases |text|
  {
    if text != [] {
      AsItIs(o, text[1..]);
      assert text == [text[0]] + text[1..];
    }
  }
}
