/** What the output of comm tells: which column a line is in, and the files themselves (comm.rs 198-310). */
module CommColumns {
  import opened Bytes
  import opened Comm

  // ----- one line -----

  predicate IsShown(o: Options, e: Event) {
    match e
    case First(_) => !o.noColumn1
    case Second(_) => !o.noColumn2
    case Both(_) => !o.noColumn3
  }

  /** The number of shown columns to the left of the event's own. */
  function ColumnsLeft(o: Options, e: Event): nat {
    var one, two := if o.noColumn1 then 0 else 1, if o.noColumn2 then 0 else 1;
    match e
    case First(_) => 0
    case Second(_) => one
    case Both(_) => one + two
  }

  /** How many copies of `d` a text starts with. */
  function Leading(text: bytes, d: bytes): nat
    requires d != []
    decreases |text|
  {
    if d <= text then 1 + Leading(text[|d|..], d) else 0
  }

  function Copies(d: bytes, n: nat): (r: bytes)
    ensures |r| == n * |d|
  {
    if n == 0 then [] else d + Copies(d, n - 1)
  }

  lemma {:induction false} LeadingCopies(d: bytes, n: nat, line: bytes)
    requires d != [] && !(d <= line)
    ensures Leading(Copies(d, n) + line, d) == n
  {
    if n == 0 {
      assert Copies(d, 0) + line == line;
    } else {
      LeadingCopies(d, n - 1, line);
      assert Copies(d, n) + line == d + (Copies(d, n - 1) + line);
      assert (d + (Copies(d, n - 1) + line))[|d|..] == Copies(d, n - 1) + line;
    }
  }

  /** A line stands behind one delimiter for each shown column to its left; a hidden one leaves nothing. */
  lemma ShownIs(o: Options, e: Event)
    ensures Shown(o, e) == if IsShown(o, e) then Copies(o.delimiter, ColumnsLeft(o, e)) + e.line else []
  {
    var d := o.delimiter;
    assert Copies(d, 0) == [] && Copies(d, 1) == d + [] == d && Copies(d, 2) == d + d;
    assert [] + e.line == e.line && [] + d == d && d + [] == d;
  }

  /** So the delimiters before a line count the shown columns to its left, if it starts with none itself. */
  lemma ShownStands(o: Options, e: Event)
    requires o.delimiter != [] && !(o.delimiter <= e.line) && IsShown(o, e)
    ensures Leading(Shown(o, e), o.delimiter) == ColumnsLeft(o, e)
    ensures Shown(o, e) == Copies(o.delimiter, ColumnsLeft(o, e)) + e.line
  {
    hide Leading, Shown, Copies;
    ShownIs(o, e);
    LeadingCopies(o.delimiter, ColumnsLeft(o, e), e.line);
  }

  /** Two shown events that show the same are the same. */
  lemma ShownTellsTheEvent(o: Options, e: Event, f: Event)
    requires o.delimiter != [] && !(o.delimiter <= e.line) && !(o.delimiter <= f.line)
    requires IsShown(o, e) && IsShown(o, f) && Shown(o, e) == Shown(o, f)
    ensures e == f
  {
    hide Shown, Leading, Copies;
    ShownStands(o, e);
    ShownStands(o, f);
    var d, n := o.delimiter, ColumnsLeft(o, e);
    assert (Copies(d, n) + e.line)[|Copies(d, n)|..] == e.line;
    assert (Copies(d, n) + f.line)[|Copies(d, n)|..] == f.line;
  }

  // ----- all lines -----

  /** The events whose columns are shown. */
  function Showing(o: Options, events: seq<Event>): seq<Event> {
    if events == [] then []
    else (if IsShown(o, events[0]) then [events[0]] else []) + Showing(o, events[1..])
  }

  lemma {:induction false} ShownCons(o: Options, e: Event, rest: seq<Event>)
    ensures ShownAll(o, [e] + rest) == Shown(o, e) + ShownAll(o, rest)
    decreases |rest|
  {
    hide Shown;
    var all := [e] + rest;
    if rest == [] {
      assert all == [e] && all[..0] == [];
      assert [] + Shown(o, e) == Shown(o, e) + [];
    } else {
      var n := |rest| - 1;
      assert all[..|all| - 1] == [e] + rest[..n];
      ShownCons(o, e, rest[..n]);
      assert Shown(o, e) + ShownAll(o, rest[..n]) + Shown(o, rest[n])
             == Shown(o, e) + (ShownAll(o, rest[..n]) + Shown(o, rest[n]));
    }
  }

  /** Lines of a file end once, and none starts with the delimiter. */
  ghost predicate Plain(o: Options, line: bytes) {
    && line != [] && line[|line| - 1] == o.ending && o.ending !in line[..|line| - 1]
    && !(o.delimiter <= line)
  }

  ghost predicate AllPlain(o: Options, events: seq<Event>) {
    forall i :: 0 <= i < |events| ==> Plain(o, events[i].line)
  }

  /** With a column hidden exactly its lines are missing. */
  lemma {:induction false} HiddenLinesAreMissing(o: Options, events: seq<Event>)
    requires o.delimiter != [] && AllPlain(o, events)
    ensures ShownAll(o, events) == ShownAll(o, Showing(o, events))
    decreases |events|
  {
    hide Shown, Leading, ShownAll, Plain;
    if events != [] {
      var e, rest := events[0], events[1..];
      assert events == [e] + rest;
      HiddenLinesAreMissing(o, rest);
      ShownIs(o, e);
      ShownCons(o, e, rest);
      ShownCons(o, e, Showing(o, rest));
      assert [] + Showing(o, rest) == Showing(o, rest);
      assert [] + ShownAll(o, rest) == ShownAll(o, rest);
    } else {
      assert Showing(o, []) == [];
    }
  }

  lemma {:induction false} FirstEnding(a: bytes, b: bytes, ending: byte, x: bytes, y: bytes)
    requires ending !in a && ending !in b && a + [ending] + x == b + [ending] + y
    ensures a == b && x == y
    decreases |a|
  {
    var l, r := a + [ending] + x, b + [ending] + y;
    assert l[0] == (if a == [] then ending else a[0]) && r[0] == (if b == [] then ending else b[0]);
    if a == [] {
      assert l[1..] == x && r[1..] == y;
    } else {
      assert l[1..] == a[1..] + [ending] + x && r[1..] == b[1..] + [ending] + y;
      FirstEnding(a[1..], b[1..], ending, x, y);
      assert a == [a[0]] + a[1..] && b == [b[0]] + b[1..];
    }
  }

  lemma {:induction false} NotInCopies(d: bytes, n: nat, b: byte)
    requires b !in d
    ensures b !in Copies(d, n)
  {
    if n > 0 {
      NotInCopies(d, n - 1, b);
    }
  }

  /** What is shown of an event ends at its only terminator. */
  lemma ShownEnds(o: Options, e: Event) returns (body: bytes)
    requires o.delimiter != [] && o.ending !in o.delimiter && Plain(o, e.line) && IsShown(o, e)
    ensures Shown(o, e) == body + [o.ending] && o.ending !in body
  {
    hide Shown, Copies;
    var line, before := e.line, Copies(o.delimiter, ColumnsLeft(o, e));
    ShownIs(o, e);
    NotInCopies(o.delimiter, ColumnsLeft(o, e), o.ending);
    body := before + line[..|line| - 1];
    hide IsShown;
    LastApart(before, line);
  }

  lemma LastApart(before: bytes, line: bytes)
    requires line != []
    ensures before + line == before + line[..|line| - 1] + [line[|line| - 1]]
  {}

  lemma {:induction false} ShowingTold(o: Options, es: seq<Event>, fs: seq<Event>)
    requires o.delimiter != [] && o.ending !in o.delimiter && AllPlain(o, es) && AllPlain(o, fs)
    requires forall i :: 0 <= i < |es| ==> IsShown(o, es[i])
    requires forall i :: 0 <= i < |fs| ==> IsShown(o, fs[i])
    requires ShownAll(o, es) == ShownAll(o, fs)
    ensures es == fs
    decreases |es|
  {
    hide Shown, ShownAll, IsShown, Plain;
    NothingShown(o);
    if es != [] {
      assert es == [es[0]] + es[1..];
      ShownCons(o, es[0], es[1..]);
      var a := ShownEnds(o, es[0]);
      if fs != [] {
        assert fs == [fs[0]] + fs[1..];
        ShownCons(o, fs[0], fs[1..]);
        var b := ShownEnds(o, fs[0]);
        FirstEnding(a, b, o.ending, ShownAll(o, es[1..]), ShownAll(o, fs[1..]));
        PlainStarts(o, es[0].line);
        PlainStarts(o, fs[0].line);
        ShownTellsTheEvent(o, es[0], fs[0]);
        ShowingTold(o, es[1..], fs[1..]);
      }
    } else if fs != [] {
      assert fs == [fs[0]] + fs[1..];
      ShownCons(o, fs[0], fs[1..]);
      var b := ShownEnds(o, fs[0]);
    }
  }

  lemma NothingShown(o: Options)
    ensures ShownAll(o, []) == []
  {}

  lemma PlainStarts(o: Options, line: bytes)
    requires Plain(o, line)
    ensures !(o.delimiter <= line)
  {}

  lemma {:induction false} ShowingIsShown(o: Options, events: seq<Event>)
    requires AllPlain(o, events)
    ensures AllPlain(o, Showing(o, events))
    ensures forall i :: 0 <= i < |Showing(o, events)| ==> IsShown(o, Showing(o, events)[i])
    ensures !o.noColumn1 && !o.noColumn2 && !o.noColumn3 ==> Showing(o, events) == events
  {
    hide Plain;
    if events != [] {
      assert events == [events[0]] + events[1..];
      ShowingIsShown(o, events[1..]);
    }
  }

  /**
    The output determines the lines of every shown column and their order, for any
    delimiter that holds no terminator and starts no line.
  */
  lemma OutputTellsTheColumns(o: Options, es: seq<Event>, fs: seq<Event>)
    requires o.delimiter != [] && o.ending !in o.delimiter && AllPlain(o, es) && AllPlain(o, fs)
    ensures ShownAll(o, es) == ShownAll(o, fs) <==> Showing(o, es) == Showing(o, fs)
  {
    hide ShownAll, Showing, IsShown, AllPlain;
    HiddenLinesAreMissing(o, es);
    HiddenLinesAreMissing(o, fs);
    ShowingIsShown(o, es);
    ShowingIsShown(o, fs);
    if ShownAll(o, es) == ShownAll(o, fs) {
      ShowingTold(o, Showing(o, es), Showing(o, fs));
    }
  }

  // ----- the files -----

  ghost predicate NoLineStarts(o: Options, text: bytes) {
    forall i :: 0 <= i < |LinesOf(text, o.ending)| ==> !(o.delimiter <= LinesOf(text, o.ending)[i])
  }

  lemma {:induction false} EventLines(a: seq<bytes>, b: seq<bytes>)
    ensures forall i :: 0 <= i < |Merge(a, b)| ==> Merge(a, b)[i].line in a || Merge(a, b)[i].line in b
    decreases |a| + |b|
  {
    if a != [] || b != [] {
      MergeNextEvent(a, b);
      hide Merge, Less, NextEvent;
      var e := NextEvent(a, b);
      var a', b' := if e.Second? then a else a[1..], if e.First? then b else b[1..];
      EventLines(a', b');
    }
  }

  lemma {:induction false} FilesArePlain(o: Options, text1: bytes, text2: bytes)
    requires NoLineStarts(o, text1) && NoLineStarts(o, text2)
    ensures AllPlain(o, Merge(LinesOf(text1, o.ending), LinesOf(text2, o.ending)))
  {
    hide Merge, LinesOf;
    var a, b := LinesOf(text1, o.ending), LinesOf(text2, o.ending);
    forall i | 0 <= i < |a| ensures Plain(o, a[i]) {
      LinesEndOnce(text1, o.ending, i);
    }
    forall i | 0 <= i < |b| ensures Plain(o, b[i]) {
      LinesEndOnce(text2, o.ending, i);
    }
    EventLines(a, b);
  }

  /** With all columns shown and nothing checked, the output tells both files, line by line. */
  lemma OutputTellsTheFiles(o: Options, text1: bytes, text2: bytes, text3: bytes, text4: bytes)
    requires o.delimiter != [] && o.ending !in o.delimiter && !o.noColumn1 && !o.noColumn2 && !o.noColumn3
    requires NoLineStarts(o, text1) && NoLineStarts(o, text2) && NoLineStarts(o, text3) && NoLineStarts(o, text4)
    requires ShownAll(o, Merge(LinesOf(text1, o.ending), LinesOf(text2, o.ending)))
             == ShownAll(o, Merge(LinesOf(text3, o.ending), LinesOf(text4, o.ending)))
    ensures LinesOf(text1, o.ending) == LinesOf(text3, o.ending)
    ensures LinesOf(text2, o.ending) == LinesOf(text4, o.ending)
  {
    hide Merge, LinesOf, ShownAll, FromFirst, FromSecond, AllPlain, NoLineStarts, Showing;
    var es := Merge(LinesOf(text1, o.ending), LinesOf(text2, o.ending));
    var fs := Merge(LinesOf(text3, o.ending), LinesOf(text4, o.ending));
    FilesArePlain(o, text1, text2);
    FilesArePlain(o, text3, text4);
    OutputTellsTheColumns(o, es, fs);
    ShowingIsShown(o, es);
    ShowingIsShown(o, fs);
    MergeKeepsBothFiles(LinesOf(text1, o.ending), LinesOf(text2, o.ending));
    MergeKeepsBothFiles(LinesOf(text3, o.ending), LinesOf(text4, o.ending));
  }

  // ----- checking and totals -----

  /** When a run fails, by its three switches. */
  lemma FailsWhen(o: Options, sameFiles: bool)
    ensures o.noCheckOrder ==> !ShouldCheck(o, sameFiles)
    ensures !o.noCheckOrder && o.checkOrder ==> ShouldCheck(o, sameFiles)
    ensures !o.noCheckOrder && !o.checkOrder ==> (ShouldCheck(o, sameFiles) <==> !sameFiles)
  {}

  /** The totals of sorted files: what is only in the first, only in the second, and in both. */
  lemma TotalsOfSorted(o: Options, a: seq<bytes>, b: seq<bytes>)
    requires o.total && !HasDescent(a) && !HasDescent(b)
    ensures Totals(o, Merge(a, b))
            == o.numeral(|multiset(a) - multiset(b)|) + o.delimiter + o.numeral(|multiset(b) - multiset(a)|)
               + o.delimiter + o.numeral(|multiset(a) * multiset(b)|) + o.delimiter + o.totalWord + [o.ending]
  {
    hide Merge, HasDescent, Column1, Column2, Column3;
    MergeClassifies(a, b);
    var events := Merge(a, b);
    assert |multiset(Column1(events))| == |Column1(events)|;
    assert |multiset(Column2(events))| == |Column2(events)|;
    assert |multiset(Column3(events))| == |Column3(events)|;
  }
}
