/** Runs of csplit that end out of order or not at all, and the rounds of one pattern. */
module CsplitCases {
  import opened Bytes
  import opened CsplitSpec
  import opened CsplitWriter
  import opened CsplitRun
  import opened CsplitLaws

  // ----- rounds of one pattern -----

  /**
    Round `i` of `n {k}` cuts before line `n + i*n`, or where the run stood; the rounds
    succeed iff the last cut is inside the input.
  */
  lemma {:induction false} LineCuts(lines: seq<bytes>, l: Look, n: nat, upTo: nat, k: nat, ith: nat, suppress: bool)
    requires Orderly(lines, l) && n > 0 && upTo > 0
    ensures var run := LineRounds(lines, l, n, upTo, Some(k), ith, suppress);
            && (run.end.GoOn? <==> k == 0 || Max(Cut(l), upTo + (k - 1) * n - 1) < |lines|)
            && (run.end.GoOn? ==> |run.pieces| == k && CutsAtMultiples(run.pieces, Cut(l), n, upTo))
    decreases k
  {
    hide LineRounds, LineStep, Orderly, Range, Trace, InOrder, CutsAtMultiples;
    LineRoundsUnfold(lines, l, n, upTo, Some(k), ith, suppress);
    LineStepCuts(lines, l, upTo, suppress);
    if k > 0 {
      var s := LineStep(lines, l, upTo, suppress);
      var p := Piece(s.out, s.dropped, true);
      CutsGrow(n, upTo, k);
      if s.outcome.Done? {
        LineCuts(lines, s.next, n, upTo + n, k - 1, ith + 1, suppress);
        StepRange(Cut(l), Max(Cut(l), upTo - 1), s);
        var rest := LineRounds(lines, s.next, n, upTo + n, Some(k - 1), ith + 1, suppress);
        if rest.end.GoOn? {
          LaterCuts(p, rest.pieces, Cut(l), Cut(s.next), n, upTo, k);
        }
      }
    } else {
      NoCuts(Cut(l), n, upTo);
    }
  }

  lemma NoCuts(from: nat, n: nat, upTo: nat)
    requires n > 0 && upTo > 0
    ensures CutsAtMultiples([], from, n, upTo)
  {}

  /** Round `i` gave the lines up to its multiple. */
  ghost predicate CutsAtMultiples(pieces: seq<Piece>, from: nat, n: nat, upTo: nat) {
    forall i :: 0 <= i < |pieces| ==>
      Trace(pieces[..i]) + pieces[i].lines == Range(from, Max(from, upTo + i * n - 1))
  }

  lemma {:induction false} LaterCuts(p: Piece, rest: seq<Piece>, from: nat, mid: nat, n: nat, upTo: nat, k: nat)
    requires upTo > 0 && from <= mid <= Max(from, upTo) && Max(from, upTo - 1) <= mid && |rest| + 1 == k && n > 0
    requires p.lines == Range(from, Max(from, upTo - 1)) && p.lines + p.dropped == Range(from, mid)
    requires CutsAtMultiples(rest, mid, n, upTo + n)
    ensures CutsAtMultiples([p] + rest, from, n, upTo)
  {
    hide Trace, Range;
    var pieces := [p] + rest;
    forall i | 0 <= i < k
      ensures Trace(pieces[..i]) + pieces[i].lines == Range(from, Max(from, upTo + i * n - 1))
    {
      if i == 0 {
        FirstCut(pieces);
      } else {
        CutsGrow(n, upTo, i);
        CutInside(p, rest, from, mid, Max(from, upTo + i * n - 1), i - 1);
      }
    }
  }

  lemma FirstCut(pieces: seq<Piece>)
    requires pieces != []
    ensures Trace(pieces[..0]) + pieces[0].lines == pieces[0].lines
  {}

  lemma StepRange(from: nat, at: nat, s: Step)
    requires from <= at && s.out == Range(from, at) && (s.dropped == [] || s.dropped == [at])
    ensures s.out + s.dropped == Range(from, at + |s.dropped|)
  {
    RangeSnoc(from, at);
  }

  lemma CutInside(p: Piece, rest: seq<Piece>, from: nat, mid: nat, end: nat, i: nat)
    requires from <= mid <= end && p.lines + p.dropped == Range(from, mid)
    requires i < |rest| && Trace(rest[..i]) + rest[i].lines == Range(mid, end)
    ensures Trace(([p] + rest)[..i + 1]) + ([p] + rest)[i + 1].lines == Range(from, end)
  {
    hide Trace, Range;
    assert ([p] + rest)[..i + 1] == [p] + rest[..i];
    TraceAppend([p], rest[..i]);
    TraceOne(p);
    RangeJoin(from, mid, end);
    var front, middle, last := p.lines + p.dropped, Trace(rest[..i]), rest[i].lines;
    assert front + middle + last == front + (middle + last);
  }

  lemma CutsGrow(n: nat, upTo: nat, k: nat)
    requires k > 0
    ensures upTo + (k - 1) * n >= upTo && upTo + n + (k - 2) * n == upTo + (k - 1) * n
    ensures upTo + n + (k - 1) * n == upTo + k * n
  {}

  /** Rounds of a line number that fail do so in the first round whose cut is not inside, and name it. */
  lemma {:induction false} FailingLine(lines: seq<bytes>, l: Look, n: nat, upTo: nat, left: Option<nat>, ith: nat,
                                       suppress: bool)
    requires Orderly(lines, l) && n > 0 && ith > 0
    ensures var run := LineRounds(lines, l, n, upTo, left, ith, suppress);
            run.end.Failed? ==>
              var j := |run.pieces|;
              && j > 0 && Max(Cut(l), upTo + (j - 1) * n - 1) >= |lines|
              && (j > 1 ==> Max(Cut(l), upTo + (j - 2) * n - 1) < |lines|)
              && run.end.error == if ith + j == 2 then LineOutOfRange else LineOutOfRangeOnRepetition(ith + j - 2)
    decreases if left.Some? then left.value else Max(0, |lines| + 1 - upTo)
  {
    hide LineRounds, LineStep, Orderly, Range;
    LineRoundsUnfold(lines, l, n, upTo, left, ith, suppress);
    LineStepCuts(lines, l, upTo, suppress);
    var s := LineStep(lines, l, upTo, suppress);
    if left != Some(0) && s.outcome.Done? {
      var left' := if left.None? then None else Some(left.value - 1);
      FailingLine(lines, s.next, n, upTo + n, left', ith + 1, suppress);
      var j := |LineRounds(lines, s.next, n, upTo + n, left', ith + 1, suppress).pieces|;
      if j > 0 {
        CutsGrow(n, upTo, j);
      }
    }
  }

  /** `n {*}` always runs past the last line: it never succeeds. */
  lemma {:induction false} EndlessLineRoundsFail(lines: seq<bytes>, l: Look, n: nat, upTo: nat, ith: nat,
                                                 suppress: bool)
    requires Proper(lines, l) && n > 0 && ith > 0
    ensures var run := LineRounds(lines, l, n, upTo, None, ith, suppress);
            run.end.Failed? && (run.end.error == LineOutOfRange || run.end.error.LineOutOfRangeOnRepetition?)
    decreases Max(0, |lines| + 1 - upTo)
  {
    hide LineRounds, LineStep, Proper;
    LineRoundsUnfold(lines, l, n, upTo, None, ith, suppress);
    var s := LineStep(lines, l, upTo, suppress);
    if s.outcome.Done? {
      EndlessLineRoundsFail(lines, s.next, n, upTo + n, ith + 1, suppress);
    }
  }

  /**
    `/re/ {*}` with safe searches cuts at most once for each line it still has to pull,
    and then ends the run without error, or with that of a short input.
  */
  lemma {:induction false} EndlessMatchRoundsEnd(lines: seq<bytes>, l: Look, regex: Regex, offset: int, kept: bool,
                                                 ith: nat, suppress: bool)
    requires Proper(lines, l) && ith > 0 && l.pulled <= |lines|
    ensures var r := MatchRounds(lines, l, regex, offset, kept, None, ith, suppress);
            && !r.end.GoOn?
            && (r.smooth ==> |r.pieces| <= |lines| - l.pulled + 1)
            && (r.smooth && r.end.Finished? ==> r.look == AllRead(lines))
            && (r.smooth && r.end.Failed? ==> r.end.error == LineOutOfRange)
    decreases |lines| - l.pulled, |l.held|
  {
    hide MatchRounds, MatchStep, Proper, Safe;
    MatchRoundsUnfold(lines, l, regex, offset, kept, None, ith, suppress);
    SafePulls(lines, l, regex, offset, suppress);
    var s := MatchStep(lines, l, regex, offset, suppress);
    ReaderIn(lines, s.next);
    if s.outcome.Done? && s.next != l {
      EndlessMatchRoundsEnd(lines, s.next, regex, offset, kept, ith + 1, suppress);
    }
  }

  lemma SafePulls(lines: seq<bytes>, l: Look, regex: Regex, offset: int, suppress: bool)
    requires Proper(lines, l) && l.pulled <= |lines|
    ensures var s := MatchStep(lines, l, regex, offset, suppress);
            Safe(lines, l, regex, offset, None) ==>
              && !s.outcome.Hangs?
              && (s.outcome.Done? ==> l.pulled < s.next.pulled)
              && (s.outcome == Err(MatchNotFound) ==> s.next == AllRead(lines))
              && (s.outcome.Err? ==> s.outcome.error.MatchNotFound? || s.outcome.error.LineOutOfRange?)
  {
    hide FirstMatch, IsMatch, Range;
  }

  /** The number of matching lines from `from` on. */
  function MatchesFrom(lines: seq<bytes>, regex: Regex, from: nat): nat
    requires from <= |lines|
    decreases |lines| - from
  {
    if from == |lines| then 0
    else (if IsMatch(regex, lines[from]) then 1 else 0) + MatchesFrom(lines, regex, from + 1)
  }

  lemma {:induction false} FirstOfMatches(lines: seq<bytes>, regex: Regex, from: nat)
    requires from <= |lines|
    ensures match FirstMatch(lines, regex, from)
            case None => MatchesFrom(lines, regex, from) == 0
            case Some(m) => MatchesFrom(lines, regex, from) == 1 + MatchesFrom(lines, regex, m + 1)
    decreases |lines| - from
  {
    hide IsMatch;
    if from < |lines| && !IsMatch(regex, lines[from]) {
      FirstOfMatches(lines, regex, from + 1);
    }
  }

  /**
    A regex without offset takes one matching line a round. Limited, it goes on iff there
    are enough of them, and fails in the round that finds none: by that round when an
    earlier one of several succeeded. Without a limit it ends the run behind the last.
  */
  lemma {:induction false} RoundsNeedMatches(lines: seq<bytes>, l: Look, regex: Regex, kept: bool, max: Option<nat>,
                                             ith: nat, suppress: bool)
    requires Proper(lines, l) && 0 < ith && (max.Some? ==> ith <= max.value + 1)
    ensures l.pulled <= |lines|
    ensures var run := MatchRounds(lines, l, regex, 0, kept, max, ith, suppress);
            var c := MatchesFrom(lines, regex, l.pulled);
            match max
            case None => run.end == Finished && |run.pieces| == c + 1
            case Some(k) =>
              if ith + c > k then run.end == GoOn && |run.pieces| == k + 1 - ith
              else
                && |run.pieces| == c + 1
                && run.end == Failed(if k == 1 || ith + c == 1 then MatchNotFound
                                     else MatchNotFoundOnRepetition(ith + c - 1))
    decreases if max.Some? then max.value + 1 - ith else |lines| - l.pulled
  {
    hide MatchRounds, IsMatch, FirstMatch, MatchesFrom, Safe, Stream, Range;
    MatchRoundsUnfold(lines, l, regex, 0, kept, max, ith, suppress);
    FirstOfMatches(lines, regex, l.pulled);
    var found := FirstMatch(lines, regex, l.pulled);
    if found.Some? && max != Some(ith - 1) {
      var next := MatchStep(lines, l, regex, 0, suppress).next;
      assert next.pulled == found.value + 1;
      RoundsNeedMatches(lines, next, regex, kept, max, ith + 1, suppress);
    }
  }

  /** A pattern is matched against the line without its newline, and without a carriage return before it. */
  lemma MatchedText(regex: Regex, text: bytes)
    ensures IsMatch(regex, text + [13, 10]) == regex(text)
    ensures (text == [] || text[|text| - 1] != 13) ==> IsMatch(regex, text + [10]) == regex(text)
    ensures (text == [] || text[|text| - 1] != 10) ==> IsMatch(regex, text) == regex(text)
  {
    assert (text + [13, 10])[..|text|] == text && (text + [10])[..|text|] == text;
  }

  // ----- a search back directly after a line number -----

  lemma OneMatchRound(lines: seq<bytes>, l: Look, regex: Regex, offset: int, kept: bool, suppress: bool)
    requires Proper(lines, l)
    ensures var s := MatchStep(lines, l, regex, offset, suppress);
            var p, safe := Piece(s.out, s.dropped, kept), Safe(lines, l, regex, offset, Some(1));
            MatchRounds(lines, l, regex, offset, kept, Some(1), 1, suppress)
            == match s.outcome
               case Done => Run([p], s.next, GoOn, safe)
               case Hangs => Run([p], s.next, Endless, safe)
               case Err(e) => Run([p], s.next, Failed(e), safe)
  {
    hide MatchStep, Safe, MatchRounds;
    var s := MatchStep(lines, l, regex, offset, suppress);
    MatchRoundsUnfold(lines, l, regex, offset, kept, Some(1), 1, suppress);
    if s.outcome.Done? {
      MatchRoundsUnfold(lines, s.next, regex, offset, kept, Some(1), 2, suppress);
      assert [Piece(s.out, s.dropped, kept)] + [] == [Piece(s.out, s.dropped, kept)];
    }
  }

  lemma OneLineRound(lines: seq<bytes>, l: Look, n: nat, suppress: bool)
    requires Proper(lines, l) && n > 0
    ensures var s := LineStep(lines, l, n, suppress);
            var p := Piece(s.out, s.dropped, true);
            LineRounds(lines, l, n, n, Some(1), 1, suppress)
            == if s.outcome.Done? then Run([p], s.next, GoOn, true) else Run([p], s.next, Failed(LineOutOfRange), true)
  {
    hide LineStep, LineRounds;
    var s := LineStep(lines, l, n, suppress);
    LineRoundsUnfold(lines, l, n, n, Some(1), 1, suppress);
    if s.outcome.Done? {
      LineRoundsUnfold(lines, s.next, n, n + n, Some(0), 2, suppress);
      assert [Piece(s.out, s.dropped, true)] + [] == [Piece(s.out, s.dropped, true)];
    }
  }

  /** `2 2` leaves line 2 to be read again. */
  lemma TwiceTheSameLine(lines: seq<bytes>)
    requires |lines| >= 2
    ensures LineRounds(lines, START, 2, 2, Some(1), 1, false)
            == Run([Piece([0], [], true)], Look([1], 2, false), GoOn, true)
    ensures LineRounds(lines, Look([1], 2, false), 2, 2, Some(1), 1, false)
            == Run([Piece([], [], true)], Look([1], 2, true), GoOn, true)
  {
    hide LineRounds;
    var l := Look([1], 2, false);
    OneLineRound(lines, START, 2, false);
    OneLineRound(lines, l, 2, false);
    var s, t := Stream(lines, START), Stream(lines, l);
    ReachIs(s, 2, 1);
    ReachIs(t, 2, 0);
    hide Reach;
    assert s[..1] == [0] && t[..0] == [] && t[0] == 1 && l.held[1..] == [];
  }

  /**
    `2 2 /re/-1`, in any input of two lines: the search is safe, and the run goes on, iff
    line 2 matches; if it does not, it is read again without end.
  */
  lemma RepeatedLine(lines: seq<bytes>, regex: Regex)
    requires |lines| >= 2
    ensures var patterns := [UpToLine(2, Times(1)), UpToLine(2, Times(1)), UpToMatch(regex, -1, Times(1))];
            var run := RunPatterns(lines, START, patterns, false);
            && ValidateLineNumbers(0, patterns) == None
            && (run.smooth <==> IsMatch(regex, lines[1]))
            && run.end == if IsMatch(regex, lines[1]) then GoOn else Endless
  {
    hide LineRounds, MatchRounds, RunPatterns, IsMatch;
    var line, back := UpToLine(2, Times(1)), UpToMatch(regex, -1, Times(1));
    var patterns := [line, line, back];
    assert patterns[1..] == [line, back] && [line, back][1..] == [back] && [back][1..] == [];
    assert ValidateLineNumbers(2, [back]) == None;
    TwiceTheSameLine(lines);
    var l := Look([1], 2, true);
    StuckHere(lines, l, regex, 1);
    OneMatchRound(lines, l, regex, -1, true, false);
    RunPatternsUnfold(lines, START, patterns, false);
    RunPatternsUnfold(lines, Look([1], 2, false), [line, back], false);
    RunPatternsUnfold(lines, l, [back], false);
    if IsMatch(regex, lines[1]) {
      RunPatternsUnfold(lines, MatchStep(lines, l, regex, -1, false).next, [], false);
    }
  }

  /** Repeated without limit it never ends either way: a match leaves everything as it was. */
  lemma RepeatedLineForEver(lines: seq<bytes>, regex: Regex)
    requires |lines| >= 2
    ensures var patterns := [UpToLine(2, Times(1)), UpToLine(2, Times(1)), UpToMatch(regex, -1, Always)];
            RunPatterns(lines, START, patterns, false).end == Endless
  {
    hide LineRounds, MatchRounds, RunPatterns, IsMatch;
    var line, back := UpToLine(2, Times(1)), UpToMatch(regex, -1, Always);
    var patterns := [line, line, back];
    assert patterns[1..] == [line, back] && [line, back][1..] == [back];
    assert Validated(patterns);
    TwiceTheSameLine(lines);
    var l := Look([1], 2, true);
    StuckHere(lines, l, regex, 1);
    assert l.held[1..] == [];
    MatchRoundsUnfold(lines, l, regex, -1, true, None, 1, false);
    RunPatternsUnfold(lines, START, patterns, false);
    RunPatternsUnfold(lines, Look([1], 2, false), [line, back], false);
    RunPatternsUnfold(lines, l, [back], false);
  }

  /** `/d/-2 1 /b/-1` over the lines a, b, c, d: line 3 is written before line 2. */
  lemma OrderLost(lines: seq<bytes>, atD: Regex, atB: Regex)
    requires |lines| == 4 && IsMatch(atB, lines[1])
    requires IsMatch(atD, lines[3]) && forall i :: 0 <= i < 3 ==> !IsMatch(atD, lines[i])
    ensures var patterns := [UpToMatch(atD, -2, Times(1)), UpToLine(1, Times(1)), UpToMatch(atB, -1, Times(1))];
            var run := RunPatterns(lines, START, patterns, false);
            && ValidateLineNumbers(0, patterns) == None && run.end == GoOn && !run.smooth
            && run.pieces == [Piece([0], [], true), Piece([], [], true), Piece([2], [], true)]
            && Stream(lines, run.look) == [1, 3]
  {
    hide LineRounds, MatchRounds, RunPatterns, IsMatch, FirstMatch, MatchStep, LineStep, Range;
    var p1, p2, p3 := UpToMatch(atD, -2, Times(1)), UpToLine(1, Times(1)), UpToMatch(atB, -1, Times(1));
    var l1, l2, l3 := Look([1, 2, 3], 4, false), Look([1, 2, 3], 4, true), Look([1, 3], 4, true);
    assert [p1, p2, p3][1..] == [p2, p3] && [p2, p3][1..] == [p3] && [p3][1..] == [];
    assert ValidateLineNumbers(1, [p3]) == None;
    assert ValidateLineNumbers(0, [p2, p3]) == None;
    assert Validated([p1, p2, p3]) && Validated([p2, p3]) && Validated([p3]);
    WindowOfFour(lines, atD);
    LineOfFour(lines);
    SpillOfFour(lines, atB);
    OneMatchRound(lines, START, atD, -2, true, false);
    OneLineRound(lines, l1, 1, false);
    OneMatchRound(lines, l2, atB, -1, true, false);
    RunPatternsUnfold(lines, START, [p1, p2, p3], false);
    RunPatternsUnfold(lines, l1, [p2, p3], false);
    RunPatternsUnfold(lines, l2, [p3], false);
    RunPatternsUnfold(lines, l3, [], false);
  }

  lemma LineOfFour(lines: seq<bytes>)
    requires |lines| == 4
    ensures LineStep(lines, Look([1, 2, 3], 4, false), 1, false) == Step([], [], Look([1, 2, 3], 4, true), Done)
  {
    var l := Look([1, 2, 3], 4, false);
    var s := Stream(lines, l);
    ReachIs(s, 1, 0);
    hide Reach;
    assert s[..0] == [] && l.held[1..] == [2, 3] && [1] + [2, 3] == [1, 2, 3];
  }

  lemma SpillOfFour(lines: seq<bytes>, regex: Regex)
    requires |lines| == 4 && IsMatch(regex, lines[1])
    ensures MatchStep(lines, Look([1, 2, 3], 4, true), regex, -1, false) == Step([2], [], Look([1, 3], 4, true), Done)
    ensures !Safe(lines, Look([1, 2, 3], 4, true), regex, -1, Some(1))
    ensures Stream(lines, Look([1, 3], 4, true)) == [1, 3]
  {
    hide IsMatch;
    var l := Look([1, 2, 3], 4, true);
    var rest := l.held[1..];
    assert rest == [2, 3] && rest[..1] == [2] && rest[1..] == [3] && [1] + [3] == [1, 3];
    assert [1, 3] + [] == [1, 3];
  }

  lemma WindowOfFour(lines: seq<bytes>, regex: Regex)
    requires |lines| == 4
    requires IsMatch(regex, lines[3]) && forall i :: 0 <= i < 3 ==> !IsMatch(regex, lines[i])
    ensures MatchStep(lines, START, regex, -2, false) == Step([0], [], Look([1, 2, 3], 4, false), Done)
  {
    StepIfMatches(lines, START, regex, -2, false, 3);
    hide MatchStep, IsMatch;
    var w := [] + Range(0, 3);
    assert w == [0, 1, 2] && w[..1] == [0] && w[1..] + [3] == [1, 2, 3] && w[1..1] == [];
  }

  lemma NextLine(b: byte, rest: bytes)
    requires b != LF
    ensures Lines([b, LF] + rest) == [[b, LF]] + Lines(rest)
  {
    var input := [b, LF] + rest;
    assert input[1..][0] == LF;
    assert LineEnd(input[1..]) == 1 && LineEnd(input) == 2;
    assert input[..2] == [b, LF] && input[2..] == rest;
  }

  /** The input a, b with `2 2 /a/-1` is never finished. */
  lemma NeverEnds(options: Options)
    requires !options.suppressMatched
    ensures var patterns := [UpToLine(2, Times(1)), UpToLine(2, Times(1)),
                             UpToMatch((line: bytes) => line == [97], -1, Times(1))];
            Expected(options, patterns, [97, LF, 98, LF]) == Unending
  {
    var regex := (line: bytes) => line == [97];
    NextLine(97, [98, LF]);
    NextLine(98, []);
    assert [97, LF] + [98, LF] == [97, LF, 98, LF] && [98, LF] + [] == [98, LF];
    var lines := Lines([97, LF, 98, LF]);
    assert lines == [[97, LF], [98, LF]];
    assert !IsMatch(regex, lines[1]) by {
      assert [98, LF][..1] == [98];
    }
    hide Lines, RunPatterns, FilesAfter, IsMatch;
    RepeatedLine(lines, regex);
  }

  /** The input a, b, c, d with `/d/-2 1 /b/-1` is written as a, c, b, d. */
  lemma WrittenOutOfOrder(options: Options)
    requires !options.suppressMatched && !options.elideEmptyFiles
    ensures var patterns := [UpToMatch((line: bytes) => line == [100], -2, Times(1)), UpToLine(1, Times(1)),
                             UpToMatch((line: bytes) => line == [98], -1, Times(1))];
            Expected(options, patterns, [97, LF, 98, LF, 99, LF, 100, LF])
            == Success([[97, LF], [], [99, LF], [98, LF, 100, LF]])
  {
    var atD, atB := (line: bytes) => line == [100], (line: bytes) => line == [98];
    var lines := Lines([97, LF, 98, LF, 99, LF, 100, LF]);
    LinesOfFour();
    MatchesOfFour(lines, atD, atB);
    hide Lines, RunPatterns, IsMatch, FilesAfter, FirstMatch, Stream, LineRounds, MatchRounds;
    OrderLost(lines, atD, atB);
    var last := Piece([1, 3], [], true);
    FourFiles(lines, last);
    assert [Piece([0], [], true), Piece([], [], true), Piece([2], [], true)] + [last]
           == [Piece([0], [], true), Piece([], [], true), Piece([2], [], true), last];
  }

  lemma LinesOfFour()
    ensures Lines([97, LF, 98, LF, 99, LF, 100, LF]) == [[97, LF], [98, LF], [99, LF], [100, LF]]
  {
    hide Lines, LineEnd;
    var d: bytes := [100, LF];
    var c := [99, LF] + d;
    var b := [98, LF] + c;
    LastLine(100);
    NextLine(99, d);
    NextLine(98, c);
    NextLine(97, b);
    assert [97, LF] + b == [97, LF, 98, LF, 99, LF, 100, LF];
  }

  lemma LastLine(b: byte)
    requires b != LF
    ensures Lines([b, LF]) == [[b, LF]]
  {
    NextLine(b, []);
    assert [b, LF] + [] == [b, LF];
  }

  lemma MatchesOfFour(lines: seq<bytes>, atD: Regex, atB: Regex)
    requires lines == [[97, LF], [98, LF], [99, LF], [100, LF]]
    requires forall line: bytes :: (atD(line) <==> line == [100]) && (atB(line) <==> line == [98])
    ensures IsMatch(atB, lines[1]) && IsMatch(atD, lines[3])
    ensures forall i :: 0 <= i < 3 ==> !IsMatch(atD, lines[i])
  {
    Stripped(97);
    Stripped(98);
    Stripped(99);
    Stripped(100);
    hide StripNewline;
    assert !IsMatch(atD, lines[0]) && !IsMatch(atD, lines[1]) && !IsMatch(atD, lines[2]);
  }

  lemma Stripped(b: byte)
    requires b != LF && b != CR
    ensures StripNewline([b, LF]) == [b]
  {
    assert [b, LF][..1] == [b];
  }

  lemma FourFiles(lines: seq<bytes>, last: Piece)
    requires lines == [[97, LF], [98, LF], [99, LF], [100, LF]] && last == Piece([1, 3], [], true)
    ensures FilesAfter([], lines, [Piece([0], [], true), Piece([], [], true), Piece([2], [], true), last], false)
            == [[97, LF], [], [99, LF], [98, LF, 100, LF]]
  {
    var a, b, c := Piece([0], [], true), Piece([], [], true), Piece([2], [], true);
    TextsOfFour(lines);
    hide TextAt, FilesAfter;
    var fs: seq<bytes> := [];
    assert [a, b, c, last] == [a] + [b] + [c] + [last] && [] + [a] == [a];
    NoPieces(fs, lines, false);
    FilesAfterOne(fs, lines, [], a, false);
    FilesAfterOne(fs, lines, [a], b, false);
    FilesAfterOne(fs, lines, [a] + [b], c, false);
    FilesAfterOne(fs, lines, [a] + [b] + [c], last, false);
  }

  lemma TextsOfFour(lines: seq<bytes>)
    requires lines == [[97, LF], [98, LF], [99, LF], [100, LF]]
    ensures TextAt(lines, []) == [] && TextAt(lines, [0]) == [97, LF] && TextAt(lines, [2]) == [99, LF]
    ensures TextAt(lines, [1, 3]) == [98, LF, 100, LF]
  {
    NoText(lines, []);
    TextSnoc(lines, [], 0);
    TextSnoc(lines, [], 2);
    TextSnoc(lines, [], 1);
    TextSnoc(lines, [1], 3);
    hide TextAt;
    var n: seq<nat> := [];
    assert n + [0] == [0] && n + [2] == [2] && n + [1] == [1] && [1] + [3] == [1, 3] && n[..0] == n;
    var e: bytes := [];
    assert e + lines[0] == lines[0] && e + lines[2] == lines[2] && e + lines[1] == lines[1];
    assert [98, LF] + [100, LF] == [98, LF, 100, LF];
  }
}
