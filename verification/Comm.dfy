/** Comparing two files line by line (src/uu/comm/src/comm.rs 76-127, 198-326). */
module Comm {
  import opened Bytes

  // ----- lines -----

  /** The lines of a file, each with its terminator; the last one is given one if it has none. */
  function LinesOf(text: bytes, ending: byte): (lines: seq<bytes>)
    ensures forall i :: 0 <= i < |lines| ==> lines[i] != []
    decreases |text|
  {
    if text == [] then []
    else
      var n := Until(text, ending);
      [Terminated(text[..n], ending)] + LinesOf(text[n..], ending)
  }

  /** Up to and with the first terminator. */
  function Until(text: bytes, ending: byte): (n: nat)
    ensures n <= |text| && (text != [] ==> n > 0)
    ensures forall i :: 0 <= i < n - 1 ==> text[i] != ending
    ensures n < |text| ==> n > 0 && text[n - 1] == ending
  {
    if text == [] then 0 else if text[0] == ending then 1 else 1 + Until(text[1..], ending)
  }

  function Terminated(line: bytes, ending: byte): (r: bytes)
    ensures r != [] && r[|r| - 1] == ending
  {
    if line != [] && line[|line| - 1] == ending then line else line + [ending]
  }

  /** The lines are the file, but for the terminator it may lack. */
  lemma {:induction false} LinesAreTheFile(text: bytes, ending: byte)
    ensures Concat(LinesOf(text, ending)) == if text == [] then [] else Terminated(text, ending)
    decreases |text|
  {
    if text != [] {
      var n := Until(text, ending);
      var line, rest := text[..n], text[n..];
      assert text == line + rest;
      LinesAreTheFile(rest, ending);
      ConcatHeadTail(Terminated(line, ending), LinesOf(rest, ending));
      assert LinesOf(text, ending) == [Terminated(line, ending)] + LinesOf(rest, ending);
      hide LinesOf, Concat;
      if rest == [] {
        assert line == text;
        assert Terminated(text, ending) + [] == Terminated(text, ending);
      } else {
        assert line[|line| - 1] == ending;
        TerminatedTail(line, rest, ending);
      }
    }
  }

  lemma ConcatHeadTail(line: bytes, lines: seq<bytes>)
    ensures Concat([line] + lines) == line + Concat(lines)
  {
    assert ([line] + lines)[1..] == lines;
  }

  lemma TerminatedTail(line: bytes, rest: bytes, ending: byte)
    requires rest != []
    ensures line + Terminated(rest, ending) == Terminated(line + rest, ending)
  {
    assert (line + rest)[|line + rest| - 1] == rest[|rest| - 1];
    assert line + (rest + [ending]) == line + rest + [ending];
  }

  // ----- the merge -----

  datatype Event = First(line: bytes) | Second(line: bytes) | Both(line: bytes)

  function Merge(a: seq<bytes>, b: seq<bytes>): seq<Event>
    decreases |a| + |b|
  {
    if a == [] && b == [] then []
    else if b == [] || (a != [] && Less(a[0], b[0])) then [First(a[0])] + Merge(a[1..], b)
    else if a == [] || Less(b[0], a[0]) then [Second(b[0])] + Merge(a, b[1..])
    else [Both(a[0])] + Merge(a[1..], b[1..])
  }

  /** The lines of the events that `of` takes. */
  function Column(events: seq<Event>, of: Event -> bool): seq<bytes> {
    if events == [] then [] else (if of(events[0]) then [events[0].line] else []) + Column(events[1..], of)
  }

  function Column1(events: seq<Event>): seq<bytes> {
    Column(events, (e: Event) => e.First?)
  }

  function Column2(events: seq<Event>): seq<bytes> {
    Column(events, (e: Event) => e.Second?)
  }

  function Column3(events: seq<Event>): seq<bytes> {
    Column(events, (e: Event) => e.Both?)
  }

  /** The lines that come from the first file: columns 1 and 3. */
  function FromFirst(events: seq<Event>): seq<bytes> {
    Column(events, (e: Event) => !e.Second?)
  }

  function FromSecond(events: seq<Event>): seq<bytes> {
    Column(events, (e: Event) => !e.First?)
  }

  lemma {:induction false} ColumnAppend(a: seq<Event>, b: seq<Event>, of: Event -> bool)
    ensures Column(a + b, of) == Column(a, of) + Column(b, of)
    decreases |a|
  {
    if a == [] {
      assert a + b == b;
    } else {
      assert (a + b)[1..] == a[1..] + b;
      ColumnAppend(a[1..], b, of);
    }
  }

  lemma MergeNext(a: seq<bytes>, b: seq<bytes>)
    requires a != [] || b != []
    ensures if b == [] || (a != [] && Less(a[0], b[0])) then Merge(a, b) == [First(a[0])] + Merge(a[1..], b)
            else if a == [] || Less(b[0], a[0]) then Merge(a, b) == [Second(b[0])] + Merge(a, b[1..])
            else a[0] == b[0] && Merge(a, b) == [Both(a[0])] + Merge(a[1..], b[1..])
  {
    if a != [] && b != [] {
      LessTotal(a[0], b[0]);
    }
  }

  /** The event of the next lines. */
  function NextEvent(a: seq<bytes>, b: seq<bytes>): Event
    requires a != [] || b != []
  {
    if b == [] || (a != [] && Less(a[0], b[0])) then First(a[0])
    else if a == [] || Less(b[0], a[0]) then Second(b[0])
    else Both(a[0])
  }

  lemma MergeNextEvent(a: seq<bytes>, b: seq<bytes>)
    requires a != [] || b != []
    ensures var e := NextEvent(a, b);
            && (!e.Second? ==> a != [] && a[0] == e.line) && (!e.First? ==> b != [] && b[0] == e.line)
            && Merge(a, b) == [e] + Merge(if e.Second? then a else a[1..], if e.First? then b else b[1..])
  {
    MergeNext(a, b);
    hide Merge, Less;
  }

  lemma FromHead(e: Event, rest: seq<Event>)
    ensures FromFirst([e] + rest) == if e.Second? then FromFirst(rest) else [e.line] + FromFirst(rest)
    ensures FromSecond([e] + rest) == if e.First? then FromSecond(rest) else [e.line] + FromSecond(rest)
  {
    assert ([e] + rest)[1..] == rest;
  }

  lemma Uncons(lines: seq<bytes>)
    requires lines != []
    ensures lines == [lines[0]] + lines[1..]
  {}

  /** Columns 1 and 3 are the first file, columns 2 and 3 the second: no line is lost, added or moved. */
  lemma {:induction false} MergeKeepsBothFiles(a: seq<bytes>, b: seq<bytes>)
    ensures FromFirst(Merge(a, b)) == a && FromSecond(Merge(a, b)) == b
    decreases |a| + |b|
  {
    if a != [] || b != [] {
      hide Merge, NextEvent, FromFirst, FromSecond, Less;
      var e := NextEvent(a, b);
      MergeNextEvent(a, b);
      var a', b' := if e.Second? then a else a[1..], if e.First? then b else b[1..];
      MergeKeepsBothFiles(a', b');
      FromHead(e, Merge(a', b'));
      if !e.Second? { Uncons(a); }
      if !e.First? { Uncons(b); }
    }
  }

  // ----- sorted files -----

  /** A line below the one before it. */
  ghost predicate HasDescent(lines: seq<bytes>) {
    exists i :: 0 < i < |lines| && DescendsAt(lines, i)
  }

  predicate DescendsAt(lines: seq<bytes>, i: nat)
    requires 0 < i < |lines|
  {
    Less(lines[i], lines[i - 1])
  }

  lemma TailHasNone(lines: seq<bytes>)
    requires lines != [] && !HasDescent(lines)
    ensures !HasDescent(lines[1..])
    ensures |lines| > 1 ==> AtMost(lines[0], lines[1])
  {
    forall i | 0 < i < |lines[1..]|
      ensures !DescendsAt(lines[1..], i)
    {
      assert !DescendsAt(lines, i + 1);
    }
    if |lines| > 1 {
      assert !DescendsAt(lines, 1);
    }
  }

  lemma {:induction false} BelowAllOf(x: bytes, lines: seq<bytes>)
    requires lines != [] && Less(x, lines[0]) && !HasDescent(lines)
    ensures x !in lines
    decreases |lines|
  {
    LessIrreflexive(x);
    TailHasNone(lines);
    if |lines| > 1 {
      LessAtMostTransitive(x, lines[0], lines[1]);
      BelowAllOf(x, lines[1..]);
    }
    assert lines == [lines[0]] + lines[1..];
  }

  lemma ColumnNext(e: Event, rest: seq<Event>)
    ensures Column1([e] + rest) == (if e.First? then [e.line] else []) + Column1(rest)
    ensures Column2([e] + rest) == (if e.Second? then [e.line] else []) + Column2(rest)
    ensures Column3([e] + rest) == (if e.Both? then [e.line] else []) + Column3(rest)
  {
    assert ([e] + rest)[1..] == rest;
  }

  ghost predicate Classifies(events: seq<Event>, a: multiset<bytes>, b: multiset<bytes>) {
    && multiset(Column1(events)) == a - b
    && multiset(Column2(events)) == b - a
    && multiset(Column3(events)) == a * b
  }

  lemma {:induction false} ClassifyNext(e: Event, rest: seq<Event>, a: multiset<bytes>, b: multiset<bytes>)
    requires Classifies(rest, a, b)
    ensures e.First? && e.line !in b ==> Classifies([e] + rest, multiset{e.line} + a, b)
    ensures e.Second? && e.line !in a ==> Classifies([e] + rest, a, multiset{e.line} + b)
    ensures e.Both? ==> Classifies([e] + rest, multiset{e.line} + a, multiset{e.line} + b)
  {
    ColumnNext(e, rest);
    hide Column1, Column2, Column3, Less;
    match e
    case First(x) =>
      assert multiset([x] + Column1(rest)) == multiset{x} + multiset(Column1(rest));
      if x !in b { OneMore(x, a, b); }
    case Second(x) =>
      assert multiset([x] + Column2(rest)) == multiset{x} + multiset(Column2(rest));
      if x !in a { OneMore(x, b, a); }
    case Both(x) =>
      assert multiset([x] + Column3(rest)) == multiset{x} + multiset(Column3(rest));
      OneMoreInBoth(x, a, b);
  }

  /** Sorted files: column 3 is their intersection, columns 1 and 2 what each has more, counted by occurrences. */
  lemma {:induction false} MergeClassifies(a: seq<bytes>, b: seq<bytes>)
    requires !HasDescent(a) && !HasDescent(b)
    ensures Classifies(Merge(a, b), multiset(a), multiset(b))
    decreases |a| + |b|
  {
    if a != [] || b != [] {
      MergeNext(a, b);
      hide Merge, Classifies, HasDescent, Less;
      if b == [] || (a != [] && Less(a[0], b[0])) {
        TailHasNone(a);
        HeadAndTail(a);
        if b != [] {
          BelowAllOf(a[0], b);
        }
        MergeClassifies(a[1..], b);
        ClassifyNext(First(a[0]), Merge(a[1..], b), multiset(a[1..]), multiset(b));
      } else if a == [] || Less(b[0], a[0]) {
        TailHasNone(b);
        HeadAndTail(b);
        if a != [] {
          BelowAllOf(b[0], a);
        }
        MergeClassifies(a, b[1..]);
        ClassifyNext(Second(b[0]), Merge(a, b[1..]), multiset(a), multiset(b[1..]));
      } else {
        TailHasNone(a);
        TailHasNone(b);
        HeadAndTail(a);
        HeadAndTail(b);
        MergeClassifies(a[1..], b[1..]);
        ClassifyNext(Both(a[0]), Merge(a[1..], b[1..]), multiset(a[1..]), multiset(b[1..]));
      }
    }
  }

  lemma HeadAndTail(lines: seq<bytes>)
    requires lines != []
    ensures multiset(lines) == multiset{lines[0]} + multiset(lines[1..])
  {
    assert lines == [lines[0]] + lines[1..];
  }

  lemma OneMore(x: bytes, m: multiset<bytes>, n: multiset<bytes>)
    requires x !in n
    ensures (multiset{x} + m) - n == multiset{x} + (m - n)
    ensures n - (multiset{x} + m) == n - m
    ensures (multiset{x} + m) * n == m * n && n * (multiset{x} + m) == n * m
  {}

  lemma OneMoreInBoth(x: bytes, m: multiset<bytes>, n: multiset<bytes>)
    ensures (multiset{x} + m) - (multiset{x} + n) == m - n
    ensures (multiset{x} + n) - (multiset{x} + m) == n - m
    ensures (multiset{x} + m) * (multiset{x} + n) == multiset{x} + m * n
  {}

  // ----- the order compared is that of whole lines with their terminator -----

  /** `y` goes on from `x` with a byte below the terminator, so with terminators it comes first. */
  predicate Overtakes(x: bytes, y: bytes, ending: byte) {
    |x| < |y| && x == y[..|x|] && y[|x|] < ending
  }

  /** The order with terminators, in terms of the lines without them. */
  predicate LessTerminated(x: bytes, y: bytes, ending: byte) {
    (Less(x, y) && !Overtakes(x, y, ending)) || Overtakes(y, x, ending)
  }

  lemma {:induction false} TerminatorOrder(x: bytes, y: bytes, ending: byte)
    requires ending !in x && ending !in y
    ensures Less(x + [ending], y + [ending]) <==> LessTerminated(x, y, ending)
    decreases |x|
  {
    if x == [] {
      assert [] + [ending] == [ending];
      assert y != [] ==> (y + [ending])[0] == y[0];
    } else if y == [] {
      assert [] + [ending] == [ending] && (x + [ending])[0] == x[0];
    } else {
      assert (x + [ending])[1..] == x[1..] + [ending] && (y + [ending])[1..] == y[1..] + [ending];
      if x[0] == y[0] {
        TerminatorOrder(x[1..], y[1..], ending);
        OvertakesNext(x, y, ending);
        OvertakesNext(y, x, ending);
      }
    }
  }

  lemma OvertakesNext(x: bytes, y: bytes, ending: byte)
    requires x != [] && y != [] && x[0] == y[0]
    ensures Overtakes(x, y, ending) <==> Overtakes(x[1..], y[1..], ending)
  {
    assert x == [x[0]] + x[1..] && y == [y[0]] + y[1..];
    if |x| < |y| {
      assert y[..|x|] == [y[0]] + y[1..][..|x| - 1];
      assert y[|x|] == y[1..][|x| - 1];
    }
  }

  /** With zero terminators the two orders agree on all lines. */
  lemma ZeroTerminatorAgrees(x: bytes, y: bytes)
    requires 0 !in x && 0 !in y
    ensures Less(x + [0], y + [0]) <==> Less(x, y)
  {
    TerminatorOrder(x, y, 0);
  }

  /** With any other terminator they differ: a byte below it puts the longer of two lines first. */
  lemma {:induction false} TerminatorChangesTheOrder(line: bytes, more: bytes, ending: byte)
    requires more != [] && more[0] < ending
    ensures Less(line, line + more) && Less(line + more + [ending], line + [ending])
    decreases |line|
  {
    if line == [] {
      assert [] + more == more && [] + [ending] == [ending];
    } else {
      assert (line + more)[1..] == line[1..] + more;
      assert (line + more + [ending])[1..] == line[1..] + more + [ending];
      assert (line + [ending])[1..] == line[1..] + [ending];
      TerminatorChangesTheOrder(line[1..], more, ending);
    }
  }

  /** The lines without their terminators. */
  function Bare(lines: seq<bytes>): (bare: seq<bytes>)
    requires forall i :: 0 <= i < |lines| ==> lines[i] != []
    ensures |bare| == |lines| && forall i :: 0 <= i < |lines| ==> bare[i] == lines[i][..|lines[i]| - 1]
  {
    seq(|lines|, i requires 0 <= i < |lines| => lines[i][..|lines[i]| - 1])
  }

  lemma {:induction false} LinesEndOnce(text: bytes, ending: byte, i: nat)
    requires i < |LinesOf(text, ending)|
    ensures var line := LinesOf(text, ending)[i];
            line == line[..|line| - 1] + [ending] && ending !in line[..|line| - 1]
    decreases |text|
  {
    var n := Until(text, ending);
    if i == 0 {
      var line := Terminated(text[..n], ending);
      assert line == line[..|line| - 1] + [line[|line| - 1]];
      assert forall k :: 0 <= k < |line| - 1 ==> line[k] == text[k];
    } else {
      LinesEndOnce(text[n..], ending, i - 1);
    }
  }

  /** A file passes the check iff no line, without its terminator, is below the one before it in that order. */
  lemma CheckedOrder(text: bytes, ending: byte)
    ensures var bare := Bare(LinesOf(text, ending));
            HasDescent(LinesOf(text, ending))
            <==> exists i :: 0 < i < |bare| && LessTerminated(bare[i], bare[i - 1], ending)
  {
    hide LessTerminated, LinesOf, Less;
    var lines := LinesOf(text, ending);
    var bare := Bare(lines);
    forall i | 0 < i < |lines| ensures DescendsAt(lines, i) <==> LessTerminated(bare[i], bare[i - 1], ending) {
      LinesEndOnce(text, ending, i);
      LinesEndOnce(text, ending, i - 1);
      TerminatorOrder(bare[i], bare[i - 1], ending);
    }
  }

  /** With zero terminators the check is that of the lines themselves. */
  lemma ZeroCheckedOrder(text: bytes)
    ensures HasDescent(LinesOf(text, 0)) <==> HasDescent(Bare(LinesOf(text, 0)))
  {
    hide LinesOf, Less;
    CheckedOrder(text, 0);
    var bare := Bare(LinesOf(text, 0));
    forall i | 0 < i < |bare| ensures DescendsAt(bare, i) <==> LessTerminated(bare[i], bare[i - 1], 0) {
    }
  }

  // ----- order checking -----

  function Descends(previous: bytes, line: bytes): bool {
    previous != [] && Less(line, previous)
  }

  function Stops(e: Event, last1: bytes, last2: bytes): bool {
    (!e.Second? && Descends(last1, e.line)) || (!e.First? && Descends(last2, e.line))
  }

  /** With strict checking the run stops before the first line out of order. */
  function Executed(events: seq<Event>, last1: bytes, last2: bytes): seq<Event>
    decreases |events|
  {
    if events == [] || Stops(events[0], last1, last2) then []
    else
      var e := events[0];
      [e] + Executed(events[1..], if e.Second? then last1 else e.line, if e.First? then last2 else e.line)
  }

  function LastOf(lines: seq<bytes>): bytes {
    if lines == [] then [] else lines[|lines| - 1]
  }

  class OrderChecker {
    const checkOrder: bool
    var lastLine: bytes
    var hasError: bool

    constructor (checkOrder: bool)
      ensures this.checkOrder == checkOrder && lastLine == [] && !hasError
    {
      this.checkOrder := checkOrder;
      lastLine, hasError := [], false;
    }

    /** It has seen these lines. */
    ghost predicate Saw(lines: seq<bytes>)
      reads this
    {
      lastLine == LastOf(lines) && (hasError <==> HasDescent(lines))
    }

    method VerifyOrder(line: bytes, ghost seen: seq<bytes>) returns (ok: bool)
      requires Saw(seen) && forall i :: 0 <= i < |seen| ==> seen[i] != []
      modifies this
      ensures Saw(seen + [line])
      ensures ok <==> !Descends(old(lastLine), line) || !checkOrder
    {
      DescentSnoc(seen, line);
      if lastLine == [] {
        lastLine := line;
        return true;
      }
      var isOrdered := AtMost(lastLine, line);
      if !isOrdered && !hasError {
        hasError := true;
      }
      lastLine := line;
      ok := isOrdered || !checkOrder;
    }
  }

  lemma DescentSnoc(lines: seq<bytes>, line: bytes)
    requires forall i :: 0 <= i < |lines| ==> lines[i] != []
    ensures HasDescent(lines + [line]) <==> HasDescent(lines) || Descends(LastOf(lines), line)
  {
    var all := lines + [line];
    assert forall i :: 0 < i < |lines| ==> DescendsAt(all, i) == DescendsAt(lines, i);
    if lines != [] {
      assert DescendsAt(all, |lines|) <==> Descends(LastOf(lines), line);
    }
  }

  lemma DescentAppend(a: seq<bytes>, b: seq<bytes>)
    requires HasDescent(a)
    ensures HasDescent(a + b)
  {
    var i :| 0 < i < |a| && DescendsAt(a, i);
    assert DescendsAt(a + b, i);
  }

  // ----- a run -----

  /** `numeral` is the text of a count, `totalWord` the word behind the three of them. */
  datatype Options = Options(
    noColumn1: bool,
    noColumn2: bool,
    noColumn3: bool,
    delimiter: bytes,
    ending: byte,
    checkOrder: bool,
    noCheckOrder: bool,
    total: bool,
    numeral: nat -> bytes,
    totalWord: bytes)

  function Shown(o: Options, e: Event): bytes {
    var width1, width2 := if o.noColumn1 then [] else o.delimiter, if o.noColumn2 then [] else o.delimiter;
    match e
    case First(line) => if o.noColumn1 then [] else line
    case Second(line) => if o.noColumn2 then [] else width1 + line
    case Both(line) => if o.noColumn3 then [] else width1 + width2 + line
  }

  function ShownAll(o: Options, events: seq<Event>): bytes {
    if events == [] then [] else ShownAll(o, events[..|events| - 1]) + Shown(o, events[|events| - 1])
  }

  function Totals(o: Options, events: seq<Event>): bytes {
    if o.total then TotalLine(o, |Column1(events)|, |Column2(events)|, |Column3(events)|) else []
  }

  function TotalLine(o: Options, total1: nat, total2: nat, total3: nat): bytes {
    o.numeral(total1) + o.delimiter + o.numeral(total2) + o.delimiter + o.numeral(total3) + o.delimiter
    + o.totalWord + [o.ending]
  }

  /** Checking is on unless switched off; files known to be the same are checked only on request. */
  predicate ShouldCheck(o: Options, sameFiles: bool) {
    !o.noCheckOrder && (o.checkOrder || !sameFiles)
  }

  /** The events of a run: all of them, unless strict checking stops it. */
  function Events(o: Options, sameFiles: bool, a: seq<bytes>, b: seq<bytes>): seq<Event> {
    if ShouldCheck(o, sameFiles) && o.checkOrder then Executed(Merge(a, b), [], []) else Merge(a, b)
  }

  /** A reader and the line in hand: `count` bytes were read for it, 0 at the end of the file. */
  class LineReader {
    const ending: byte
    var rest: bytes
    var count: nat
    var line: bytes

    constructor (text: bytes, ending: byte)
      ensures this.ending == ending && Valid() && Left() == LinesOf(text, ending)
    {
      this.ending := ending;
      rest, count, line := text, 0, [ending];
      new;
      Next();
    }

    ghost predicate Valid()
      reads this
    {
      line != [] && (count == 0 ==> rest == [])
    }

    /** The line in hand and those still to be read. */
    ghost function Left(): (lines: seq<bytes>)
      reads this
      ensures if count == 0 then lines == [] else lines != [] && lines[0] == line
    {
      if count == 0 then [] else [line] + LinesOf(rest, ending)
    }

    method Next()
      modifies this
      ensures Valid() && Left() == LinesOf(old(rest), ending)
    {
      count := Until(rest, ending);
      line := rest[..count];
      if line == [] || line[|line| - 1] != ending {
        line := line + [ending];
      }
      rest := rest[count..];
    }

    method ReadLine()
      requires Valid() && count != 0
      modifies this
      ensures Valid() && Left() == old(Left())[1..]
    {
      Next();
    }
  }

  lemma FromNext(done: seq<Event>, e: Event)
    ensures FromFirst(done + [e]) == if e.Second? then FromFirst(done) else FromFirst(done) + [e.line]
    ensures FromSecond(done + [e]) == if e.First? then FromSecond(done) else FromSecond(done) + [e.line]
  {
    ColumnAppend(done, [e], (x: Event) => !x.Second?);
    ColumnAppend(done, [e], (x: Event) => !x.First?);
    assert [e][1..] == [];
  }

  lemma CountNext(done: seq<Event>, e: Event)
    ensures |Column1(done + [e])| == |Column1(done)| + (if e.First? then 1 else 0)
    ensures |Column2(done + [e])| == |Column2(done)| + (if e.Second? then 1 else 0)
    ensures |Column3(done + [e])| == |Column3(done)| + (if e.Both? then 1 else 0)
  {
    ColumnAppend(done, [e], (x: Event) => x.First?);
    ColumnAppend(done, [e], (x: Event) => x.Second?);
    ColumnAppend(done, [e], (x: Event) => x.Both?);
    assert [e][1..] == [];
  }

  /** The lines an event shows to a checker pass it, or the run stops there. */
  method VerifyEvent(e: Event, checker1: OrderChecker, checker2: OrderChecker, ghost done: seq<Event>)
    returns (ok: bool)
    requires checker1 != checker2 && checker1.checkOrder == checker2.checkOrder
    requires checker1.Saw(FromFirst(done)) && checker2.Saw(FromSecond(done))
    requires forall i :: 0 <= i < |FromFirst(done)| ==> FromFirst(done)[i] != []
    requires forall i :: 0 <= i < |FromSecond(done)| ==> FromSecond(done)[i] != []
    modifies checker1, checker2
    ensures ok <==> !(checker1.checkOrder && Stops(e, LastOf(FromFirst(done)), LastOf(FromSecond(done))))
    ensures ok ==> checker1.Saw(FromFirst(done + [e])) && checker2.Saw(FromSecond(done + [e]))
    ensures ok && checker1.checkOrder && !old(checker1.hasError) && !old(checker2.hasError) ==>
              !checker1.hasError && !checker2.hasError
    ensures !ok ==> (checker1.hasError && HasDescent(FromFirst(done + [e])))
                    || (checker2.hasError && HasDescent(FromSecond(done + [e])))
  {
    FromNext(done, e);
    hide FromFirst, FromSecond, HasDescent;
    match e
    case First(line) =>
      DescentSnoc(FromFirst(done), line);
      ok := checker1.VerifyOrder(line, FromFirst(done));
    case Second(line) =>
      DescentSnoc(FromSecond(done), line);
      ok := checker2.VerifyOrder(line, FromSecond(done));
    case Both(line) =>
      DescentSnoc(FromFirst(done), line);
      DescentSnoc(FromSecond(done), line);
      ok := checker1.VerifyOrder(line, FromFirst(done));
      if ok {
        ok := checker2.VerifyOrder(line, FromSecond(done));
      }
  }

  lemma ExecutedNext(e: Event, rest: seq<Event>, last1: bytes, last2: bytes)
    ensures Executed([e] + rest, last1, last2)
            == if Stops(e, last1, last2) then []
               else [e] + Executed(rest, if e.Second? then last1 else e.line, if e.First? then last2 else e.line)
  {
    assert ([e] + rest)[1..] == rest;
  }

  /** Where a merge stands: what it has done, and what is left of both files. */
  ghost predicate Reached(a: seq<bytes>, b: seq<bytes>, strict: bool, done: seq<Event>,
                          a': seq<bytes>, b': seq<bytes>)
  {
    && Merge(a, b) == done + Merge(a', b')
    && a == FromFirst(done) + a' && b == FromSecond(done) + b'
    && (strict ==>
          Executed(Merge(a, b), [], [])
          == done + Executed(Merge(a', b'), LastOf(FromFirst(done)), LastOf(FromSecond(done))))
  }

  lemma ReachedStart(a: seq<bytes>, b: seq<bytes>, strict: bool)
    ensures Reached(a, b, strict, [], a, b)
  {
    assert [] + Merge(a, b) == Merge(a, b) && [] + a == a && [] + b == b;
    assert [] + Executed(Merge(a, b), [], []) == Executed(Merge(a, b), [], []);
  }

  lemma ReachedNext(a: seq<bytes>, b: seq<bytes>, strict: bool, done: seq<Event>, a': seq<bytes>, b': seq<bytes>)
    requires Reached(a, b, strict, done, a', b') && (a' != [] || b' != [])
    ensures var e := NextEvent(a', b');
            var a'', b'' := if e.Second? then a' else a'[1..], if e.First? then b' else b'[1..];
            var stops := strict && Stops(e, LastOf(FromFirst(done)), LastOf(FromSecond(done)));
            && a == FromFirst(done + [e]) + a'' && b == FromSecond(done + [e]) + b''
            && (stops ==> Executed(Merge(a, b), [], []) == done)
            && (!stops ==> Reached(a, b, strict, done + [e], a'', b''))
  {
    hide Merge, Executed, FromFirst, FromSecond, Less, Stops, NextEvent, LastOf;
    var e := NextEvent(a', b');
    MergeNextEvent(a', b');
    var a'', b'' := if e.Second? then a' else a'[1..], if e.First? then b' else b'[1..];
    TakeNext(done, e, a', a'', b', b'');
    assert done + ([e] + Merge(a'', b'')) == done + [e] + Merge(a'', b'');
    if strict {
      ExecuteNext(done, e, Merge(a'', b''));
    }
  }

  lemma LastSnoc(lines: seq<bytes>, line: bytes)
    ensures LastOf(lines + [line]) == line
  {}

  lemma {:induction false} ExecuteNext(done: seq<Event>, e: Event, rest: seq<Event>)
    ensures var last1, last2 := LastOf(FromFirst(done)), LastOf(FromSecond(done));
            done + Executed([e] + rest, last1, last2)
            == if Stops(e, last1, last2) then done
               else done + [e] + Executed(rest, LastOf(FromFirst(done + [e])), LastOf(FromSecond(done + [e])))
  {
    hide Executed, FromFirst, FromSecond, Stops, LastOf;
    var last1, last2 := LastOf(FromFirst(done)), LastOf(FromSecond(done));
    FromNext(done, e);
    LastSnoc(FromFirst(done), e.line);
    LastSnoc(FromSecond(done), e.line);
    ExecutedNext(e, rest, last1, last2);
    if Stops(e, last1, last2) {
      assert done + [] == done;
    } else {
      var next1, next2 := if e.Second? then last1 else e.line, if e.First? then last2 else e.line;
      var more := Executed(rest, next1, next2);
      assert LastOf(FromFirst(done + [e])) == next1;
      assert LastOf(FromSecond(done + [e])) == next2;
      assert done + ([e] + more) == done + [e] + more;
    }
  }

  lemma TakeNext(done: seq<Event>, e: Event, a: seq<bytes>, a': seq<bytes>, b: seq<bytes>, b': seq<bytes>)
    requires if e.Second? then a' == a else a != [] && a[0] == e.line && a' == a[1..]
    requires if e.First? then b' == b else b != [] && b[0] == e.line && b' == b[1..]
    ensures FromFirst(done) + a == FromFirst(done + [e]) + a'
    ensures FromSecond(done) + b == FromSecond(done + [e]) + b'
  {
    FromNext(done, e);
    hide FromFirst, FromSecond;
    if !e.Second? {
      assert a == [e.line] + a';
      assert FromFirst(done) + ([e.line] + a') == FromFirst(done) + [e.line] + a';
    }
    if !e.First? {
      assert b == [e.line] + b';
      assert FromSecond(done) + ([e.line] + b') == FromSecond(done) + [e.line] + b';
    }
  }

  lemma Nonempty(lines: seq<bytes>, front: seq<bytes>)
    requires front <= lines && forall i :: 0 <= i < |lines| ==> lines[i] != []
    ensures forall i :: 0 <= i < |front| ==> front[i] != []
  {}

  lemma DescentInFront(front: seq<bytes>, lines: seq<bytes>)
    requires front <= lines
    ensures HasDescent(front) ==> HasDescent(lines)
  {
    if HasDescent(front) {
      DescentAppend(front, lines[|front|..]);
      assert front + lines[|front|..] == lines;
    }
  }

  lemma ShownSnoc(o: Options, done: seq<Event>, e: Event)
    ensures ShownAll(o, done + [e]) == ShownAll(o, done) + Shown(o, e)
  {
    assert (done + [e])[..|done|] == done;
  }

  /** What a checked run has seen so far. */
  ghost predicate Checked(check: bool, strict: bool, checker1: OrderChecker, checker2: OrderChecker, done: seq<Event>)
    reads checker1, checker2
  {
    && checker1 != checker2 && checker1.checkOrder == checker2.checkOrder
    && (strict ==> check && checker1.checkOrder) && (check && checker1.checkOrder ==> strict)
    && (if check then
          checker1.Saw(FromFirst(done)) && checker2.Saw(FromSecond(done))
          && (strict ==> !checker1.hasError && !checker2.hasError)
        else !checker1.hasError && !checker2.hasError)
  }

  /** Checks the event if the run is checked at all. */
  method CheckEvent(e: Event, check: bool, ghost strict: bool, checker1: OrderChecker, checker2: OrderChecker,
                    ghost a: seq<bytes>, ghost b: seq<bytes>, ghost done: seq<Event>)
    returns (ok: bool)
    requires Checked(check, strict, checker1, checker2, done)
    requires forall i :: 0 <= i < |a| ==> a[i] != []
    requires forall i :: 0 <= i < |b| ==> b[i] != []
    requires FromFirst(done + [e]) <= a && FromSecond(done + [e]) <= b
    modifies checker1, checker2
    ensures ok <==> !(strict && Stops(e, LastOf(FromFirst(done)), LastOf(FromSecond(done))))
    ensures ok ==> Checked(check, strict, checker1, checker2, done + [e])
    ensures !ok ==> (checker1.hasError || checker2.hasError) && (HasDescent(a) || HasDescent(b))
  {
    if !check {
      return true;
    }
    FromNext(done, e);
    hide FromFirst, FromSecond, HasDescent, Stops, LastOf;
    Nonempty(a, FromFirst(done));
    Nonempty(b, FromSecond(done));
    ok := VerifyEvent(e, checker1, checker2, done);
    if !ok {
      DescentInFront(FromFirst(done + [e]), a);
      DescentInFront(FromSecond(done + [e]), b);
    }
  }

  /** Which of the two lines in hand comes next, or both. */
  method NextOf(reader1: LineReader, reader2: LineReader) returns (e: Event)
    requires reader1.count != 0 || reader2.count != 0
    ensures e == NextEvent(reader1.Left(), reader2.Left())
    ensures !e.Second? ==> reader1.count != 0
    ensures !e.First? ==> reader2.count != 0
  {
    hide Less, LinesOf;
    var ra, rb := reader1.line, reader2.line;
    if reader1.count == 0 {
      e := Second(rb);
    } else if reader2.count == 0 || Less(ra, rb) {
      e := First(ra);
    } else if Less(rb, ra) {
      e := Second(rb);
    } else {
      e := Both(ra);
    }
  }

  method ReadOn(e: Event, reader1: LineReader, reader2: LineReader)
    requires reader1 != reader2 && reader1.Valid() && reader2.Valid()
    requires (!e.Second? ==> reader1.count != 0) && (!e.First? ==> reader2.count != 0)
    modifies reader1, reader2
    ensures reader1.Valid() && reader2.Valid()
    ensures reader1.Left() == if e.Second? then old(reader1.Left()) else old(reader1.Left())[1..]
    ensures reader2.Left() == if e.First? then old(reader2.Left()) else old(reader2.Left())[1..]
  {
    hide LineReader.Left, LineReader.Valid;
    if !e.Second? {
      reader1.ReadLine();
    }
    if !e.First? {
      reader2.ReadLine();
    }
  }

  /** One event: checked, and its lines taken from the readers. */
  method Round(check: bool, ghost strict: bool, checker1: OrderChecker, checker2: OrderChecker,
               reader1: LineReader, reader2: LineReader,
               ghost a: seq<bytes>, ghost b: seq<bytes>, ghost done: seq<Event>)
    returns (ok: bool, e: Event)
    requires reader1 != reader2 && reader1.Valid() && reader2.Valid() && (reader1.count != 0 || reader2.count != 0)
    requires Checked(check, strict, checker1, checker2, done)
    requires Reached(a, b, strict, done, reader1.Left(), reader2.Left())
    requires forall i :: 0 <= i < |a| ==> a[i] != []
    requires forall i :: 0 <= i < |b| ==> b[i] != []
    modifies checker1, checker2, reader1, reader2
    ensures reader1.Valid() && reader2.Valid()
    ensures ok ==>
              && Checked(check, strict, checker1, checker2, done + [e])
              && Reached(a, b, strict, done + [e], reader1.Left(), reader2.Left())
              && |reader1.Left()| + |reader2.Left()| < old(|reader1.Left()| + |reader2.Left()|)
    ensures !ok ==>
              && strict && Executed(Merge(a, b), [], []) == done
              && (checker1.hasError || checker2.hasError) && (HasDescent(a) || HasDescent(b))
              && reader1.Left() == old(reader1.Left()) && reader2.Left() == old(reader2.Left())
  {
    hide Merge, Executed, FromFirst, FromSecond, HasDescent, Less, LastOf, Reached, NextEvent, Stops, Checked,
      LineReader.Left, LineReader.Valid;
    e := NextOf(reader1, reader2);
    ReachedNext(a, b, strict, done, reader1.Left(), reader2.Left());
    ok := CheckEvent(e, check, strict, checker1, checker2, a, b, done);
    if ok {
      ReadOn(e, reader1, reader2);
    }
  }

  /**
    The whole comparison. The events shown are the merge of the two files, cut short only
    by strict checking; the totals count them; the run fails iff it is checked and one of
    the files has a line below the one before it.
  */
  method Compare(text1: bytes, text2: bytes, o: Options, sameFiles: bool) returns (output: bytes, failed: bool)
    ensures var a, b := LinesOf(text1, o.ending), LinesOf(text2, o.ending);
            var events := Events(o, sameFiles, a, b);
            && output == ShownAll(o, events) + Totals(o, events)
            && (failed <==> ShouldCheck(o, sameFiles) && (HasDescent(a) || HasDescent(b)))
  {
    hide LinesOf, Merge, Executed, FromFirst, FromSecond, Column1, Column2, Column3, ShownAll, Shown, HasDescent,
      Less, LastOf, Reached, NextEvent, Stops, Checked, LineReader.Left, LineReader.Valid;
    ghost var lines1, lines2 := LinesOf(text1, o.ending), LinesOf(text2, o.ending);
    var reader1 := new LineReader(text1, o.ending);
    var reader2 := new LineReader(text2, o.ending);
    var total1, total2, total3 := 0, 0, 0;
    var check := ShouldCheck(o, sameFiles);
    var checker1 := new OrderChecker(o.checkOrder);
    var checker2 := new OrderChecker(o.checkOrder);
    ghost var strict := check && o.checkOrder;
    ghost var done: seq<Event> := [];
    output := [];
    Beginnings(o);
    ReachedStart(lines1, lines2, strict);
    CheckedStart(check, strict, checker1, checker2);
    var broke := false;
    while (reader1.count != 0 || reader2.count != 0) && !broke
      invariant fresh(reader1) && fresh(reader2) && fresh(checker1) && fresh(checker2)
      invariant reader1 != reader2 && reader1.Valid() && reader2.Valid()
      invariant output == ShownAll(o, done)
      invariant total1 == |Column1(done)| && total2 == |Column2(done)| && total3 == |Column3(done)|
      invariant !broke ==>
                  && Reached(lines1, lines2, strict, done, reader1.Left(), reader2.Left())
                  && Checked(check, strict, checker1, checker2, done)
      invariant broke ==>
                  && strict && Executed(Merge(lines1, lines2), [], []) == done
                  && (checker1.hasError || checker2.hasError) && (HasDescent(lines1) || HasDescent(lines2))
      decreases |reader1.Left()| + |reader2.Left()|, !broke
    {
      var ok, e := Round(check, strict, checker1, checker2, reader1, reader2, lines1, lines2, done);
      if !ok {
        broke := true;
      } else {
        output := output + Shown(o, e);
        ShownSnoc(o, done, e);
        CountNext(done, e);
        done := done + [e];
        match e {
          case First(_) => total1 := total1 + 1;
          case Second(_) => total2 := total2 + 1;
          case Both(_) => total3 := total3 + 1;
        }
      }
    }
    if !broke {
      ReachedEnd(lines1, lines2, strict, done);
      CheckedEnd(check, strict, checker1, checker2, done);
    }
    if o.total {
      output := output + TotalLine(o, total1, total2, total3);
    } else {
      assert output + [] == output;
    }
    failed := check && (checker1.hasError || checker2.hasError);
  }

  lemma Beginnings(o: Options)
    ensures ShownAll(o, []) == [] && Column1([]) == [] && Column2([]) == [] && Column3([]) == []
    ensures FromFirst([]) == [] && FromSecond([]) == [] && !HasDescent([]) && LastOf([]) == []
  {}

  lemma CheckedStart(check: bool, strict: bool, checker1: OrderChecker, checker2: OrderChecker)
    requires checker1 != checker2 && checker1.checkOrder == checker2.checkOrder
    requires strict == (check && checker1.checkOrder)
    requires checker1.lastLine == checker2.lastLine == [] && !checker1.hasError && !checker2.hasError
    ensures Checked(check, strict, checker1, checker2, [])
  {}

  lemma CheckedEnd(check: bool, strict: bool, checker1: OrderChecker, checker2: OrderChecker, done: seq<Event>)
    requires Checked(check, strict, checker1, checker2, done)
    ensures check && (checker1.hasError || checker2.hasError)
            <==> check && (HasDescent(FromFirst(done)) || HasDescent(FromSecond(done)))
  {}

  lemma ReachedEnd(a: seq<bytes>, b: seq<bytes>, strict: bool, done: seq<Event>)
    requires Reached(a, b, strict, done, [], [])
    ensures Merge(a, b) == done && FromFirst(done) == a && FromSecond(done) == b
    ensures strict ==> Executed(Merge(a, b), [], []) == done
  {
    assert done + [] == done && FromFirst(done) + [] == FromFirst(done) && FromSecond(done) + [] == FromSecond(done);
  }

  // ----- what a run shows -----

  lemma {:induction false} ColumnsCount(events: seq<Event>)
    ensures |Column1(events)| + |Column3(events)| == |FromFirst(events)|
    ensures |Column2(events)| + |Column3(events)| == |FromSecond(events)|
  {
    if events != [] {
      ColumnsCount(events[1..]);
    }
  }

  /** The totals of a run to the end account for every line of both files. */
  lemma TotalsAccount(a: seq<bytes>, b: seq<bytes>)
    ensures var events := Merge(a, b);
            |Column1(events)| + |Column3(events)| == |a| && |Column2(events)| + |Column3(events)| == |b|
  {
    MergeKeepsBothFiles(a, b);
    ColumnsCount(Merge(a, b));
  }

  ghost predicate InOrder(last: bytes, lines: seq<bytes>) {
    (lines != [] ==> !Descends(last, lines[0])) && !HasDescent(lines)
  }

  lemma InOrderNext(last: bytes, line: bytes, lines: seq<bytes>)
    requires line != []
    ensures InOrder(last, [line] + lines) <==> !Descends(last, line) && InOrder(line, lines)
  {
    var all := [line] + lines;
    assert all[1..] == lines;
    assert forall i :: 0 < i < |lines| ==> DescendsAt(all, i + 1) == DescendsAt(lines, i);
    if HasDescent(lines) {
      var i :| 0 < i < |lines| && DescendsAt(lines, i);
      assert DescendsAt(all, i + 1);
    }
    if lines != [] {
      assert DescendsAt(all, 1) <==> Descends(line, lines[0]);
    }
    if HasDescent(all) {
      var i :| 0 < i < |all| && DescendsAt(all, i);
      if i > 1 {
        assert DescendsAt(lines, i - 1);
      }
    }
  }

  /** Strict checking cuts a run short iff a file is out of order, and then shows the beginning of it. */
  lemma {:induction false} StrictRunIsWhole(events: seq<Event>, last1: bytes, last2: bytes)
    requires forall i :: 0 <= i < |events| ==> events[i].line != []
    ensures Executed(events, last1, last2) <= events
    ensures Executed(events, last1, last2) == events
            <==> InOrder(last1, FromFirst(events)) && InOrder(last2, FromSecond(events))
    decreases |events|
  {
    if events != [] {
      var e, rest := events[0], events[1..];
      assert events == [e] + rest;
      var next1, next2 := if e.Second? then last1 else e.line, if e.First? then last2 else e.line;
      ExecutedNext(e, rest, last1, last2);
      FromHead(e, rest);
      StrictRunIsWhole(rest, next1, next2);
      InOrderNext(last1, e.line, FromFirst(rest));
      InOrderNext(last2, e.line, FromSecond(rest));
      hide Executed, FromFirst, FromSecond, InOrder;
      assert Executed(events, last1, last2) == events ==> Executed(rest, next1, next2) == events[1..];
    }
  }

  /** The lines `a` and `a`, tab, `b` are in order, and the file that holds them fails the check. */
  method SortedFileFails(o: Options) returns (output: bytes, failed: bool)
    requires !o.noCheckOrder && o.ending == LF
    ensures var lines := LinesOf([97, LF, 97, 9, 98, LF], LF);
            lines == [[97, LF], [97, 9, 98, LF]] && !HasDescent(Bare(lines)) && failed
  {
    TwoLines();
    output, failed := Compare([97, LF, 97, 9, 98, LF], [], o, false);
    var lines := LinesOf([97, LF, 97, 9, 98, LF], LF);
    assert DescendsAt(lines, 1);
  }

  lemma TwoLines()
    ensures var lines := LinesOf([97, LF, 97, 9, 98, LF], LF);
            && lines == [[97, LF], [97, 9, 98, LF]] && !HasDescent(Bare(lines))
            && Less([97, 9, 98, LF], [97, LF])
  {
    CutInTwo();
    hide LinesOf;
    TerminatorChangesTheOrder([97], [9, 98], LF);
    var rest: bytes := [97, 9, 98, LF];
    assert [97] + [9, 98] + [LF] == rest && [97] + [LF] == [97, LF] && [97] + [9, 98] == [97, 9, 98];
    LessAsymmetric([97], [97, 9, 98]);
    hide Less;
    assert rest[..3] == [97, 9, 98] && [97, LF][..1] == [97];
  }

  lemma CutInTwo()
    ensures LinesOf([97, LF, 97, 9, 98, LF], LF) == [[97, LF], [97, 9, 98, LF]]
  {
    var text: bytes := [97, LF, 97, 9, 98, LF];
    var rest: bytes := [97, 9, 98, LF];
    assert text[1..][0] == LF && Until(text, LF) == 2 && text[..2] == [97, LF] && text[2..] == rest;
    assert rest[1..] == [9, 98, LF] && [9, 98, LF][1..] == [98, LF] && [98, LF][1..] == [LF];
    assert Until([98, LF], LF) == 2;
    assert Until([9, 98, LF], LF) == 3;
    assert Until(rest, LF) == 4 && rest[..4] == rest && rest[4..] == [];
    assert LinesOf(rest, LF) == [rest];
  }

  /**
    The lines `a` and `a`, tab, `b` against `a`, tab, `b`: both files are in order and
    share a line, and yet column 3 is empty; unchecked, nothing reports it.
  */
  method SharedLineIsMissed(o: Options) returns (output: bytes, failed: bool)
    requires o.noCheckOrder && o.ending == LF
    ensures var line: bytes := [97, 9, 98, LF];
            var a, b := LinesOf([97, LF] + line, LF), LinesOf(line, LF);
            && !HasDescent(Bare(a)) && !HasDescent(Bare(b)) && line in a && line in b
            && Merge(a, b) == [Second(line), First([97, LF]), First(line)] && Column3(Merge(a, b)) == []
            && output == ShownAll(o, Merge(a, b)) + Totals(o, Merge(a, b)) && !failed
  {
    ghost var line: bytes := [97, 9, 98, LF];
    TwoLines();
    assert [97, LF] + line == [97, LF, 97, 9, 98, LF];
    OneLine();
    MissedMerge();
    output, failed := Compare([97, LF, 97, 9, 98, LF], [97, 9, 98, LF], o, false);
  }

  lemma OneLine()
    ensures var line: bytes := [97, 9, 98, LF];
            LinesOf(line, LF) == [line] && !HasDescent(Bare([line]))
  {
    var rest: bytes := [97, 9, 98, LF];
    assert rest[1..] == [9, 98, LF] && [9, 98, LF][1..] == [98, LF] && [98, LF][1..] == [LF];
    assert Until([98, LF], LF) == 2;
    assert Until([9, 98, LF], LF) == 3;
    assert Until(rest, LF) == 4 && rest[..4] == rest && rest[4..] == [];
  }

  lemma MissedMerge()
    ensures var line: bytes := [97, 9, 98, LF];
            var events := Merge([[97, LF], line], [line]);
            events == [Second(line), First([97, LF]), First(line)] && Column3(events) == []
  {
    hide Less, Column3;
    var line: bytes := [97, 9, 98, LF];
    var a: seq<bytes> := [[97, LF], line];
    var none: seq<bytes> := [];
    TwoLines();
    LessAsymmetric(line, [97, LF]);
    assert a[1..] == [line] && [line][1..] == none;
    MergeNext(a, [line]);
    MergeNext(a, none);
    MergeNext([line], none);
    assert Merge(none, none) == [];
    NoThird(line);
  }

  lemma NoThird(line: bytes)
    ensures Column3([Second(line), First([97, LF]), First(line)]) == []
  {
    hide Column3;
    var none: seq<Event> := [];
    ColumnNext(First(line), none);
    ColumnNext(First([97, LF]), [First(line)]);
    ColumnNext(Second(line), [First([97, LF]), First(line)]);
    assert [First(line)] + none == [First(line)];
    assert [First([97, LF])] + [First(line)] == [First([97, LF]), First(line)];
    assert [Second(line)] + [First([97, LF]), First(line)] == [Second(line), First([97, LF]), First(line)];
    assert Column3(none) == [] by { NoColumn(); }
  }

  lemma NoColumn()
    ensures Column3([]) == []
  {}
}
