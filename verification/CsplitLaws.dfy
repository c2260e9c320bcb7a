/** What csplit promises of a whole run, and when it keeps it (src/uu/csplit/src/csplit.rs 115-621). */
module CsplitLaws {
  import opened Bytes
  import opened CsplitSpec
  import opened CsplitWriter
  import opened CsplitRun

  // ----- where a round cuts -----

  /** The held lines are the last ones pulled, in order. */
  ghost predicate Orderly(lines: seq<bytes>, l: Look)
    ensures Orderly(lines, l) ==> Proper(lines, l) && |l.held| <= l.pulled <= |lines|
  {
    Proper(lines, l) && |l.held| <= l.pulled && l.held == Range(l.pulled - |l.held|, l.pulled)
  }

  /** The first line that is not out yet. */
  function Cut(l: Look): nat
    requires |l.held| <= l.pulled
  {
    l.pulled - |l.held|
  }

  lemma OrderlyStream(lines: seq<bytes>, l: Look)
    requires Orderly(lines, l)
    ensures Stream(lines, l) == Range(Cut(l), |lines|)
  {
    RangeJoin(Cut(l), l.pulled, |lines|);
  }

  lemma {:induction false} ReachIs(s: seq<nat>, n: nat, k: nat)
    requires k <= |s| && (forall i :: 0 <= i < k ==> s[i] + 1 < n) && (k < |s| ==> s[k] + 1 >= n)
    ensures Reach(s, n) == k
    decreases k
  {
    if k > 0 {
      assert forall i :: 0 <= i < |s[1..]| ==> s[1..][i] == s[i + 1];
      ReachIs(s[1..], n, k - 1);
    }
  }

  /** Line number `n` cuts before line `n`, never behind the previous cut. */
  lemma LineStepCuts(lines: seq<bytes>, l: Look, n: nat, suppress: bool)
    requires Orderly(lines, l)
    ensures var s, at := LineStep(lines, l, n, suppress), Max(Cut(l), n - 1);
            if at >= |lines| then
              s.out == Range(Cut(l), |lines|) && s.dropped == [] && s.outcome == Err(LineOutOfRange)
            else
              && s.out == Range(Cut(l), at) && s.outcome == Done
              && s.dropped == (if suppress && n == at + 1 then [at] else [])
              && Orderly(lines, s.next) && Cut(s.next) == at + |s.dropped|
  {
    hide Reach, Stream, Orderly, Range, Ahead, PutBack;
    var s, at := Stream(lines, l), Max(Cut(l), n - 1);
    OrderlyStream(lines, l);
    RangeAt(Cut(l), |lines|);
    if at >= |lines| {
      ReachIs(s, n, |s|);
    } else {
      var k := at - Cut(l);
      ReachIs(s, n, k);
      RangeSlice(Cut(l), |lines|, 0, k);
      assert s[..k] == s[0..k];
      AheadOrderly(lines, l, k + 1);
      PutBackOrderly(lines, Ahead(l, k + 1));
    }
  }

  lemma RangeAt(from: nat, end: nat)
    ensures forall i :: 0 <= i < |Range(from, end)| ==> Range(from, end)[i] == from + i
  {}

  lemma AheadOrderly(lines: seq<bytes>, l: Look, k: nat)
    requires Orderly(lines, l) && Cut(l) + k <= |lines|
    ensures Orderly(lines, Ahead(l, k)) && Cut(Ahead(l, k)) == Cut(l) + k
  {}

  lemma PutBackOrderly(lines: seq<bytes>, l: Look)
    requires Orderly(lines, l) && Cut(l) > 0
    ensures Orderly(lines, PutBack(l, Cut(l) - 1)) && Cut(PutBack(l, Cut(l) - 1)) == Cut(l) - 1
  {
    RangeJoin(Cut(l) - 1, Cut(l), l.pulled);
  }

  /**
    A regex that reads on cuts at its first match not pulled before, moved by the
    offset, never behind the previous cut, and fails when either side is too short.
  */
  lemma MatchStepCuts(lines: seq<bytes>, l: Look, regex: Regex, offset: int, suppress: bool)
    requires Orderly(lines, l) && !Stuck(l, offset)
    ensures var s := MatchStep(lines, l, regex, offset, suppress);
            match FirstMatch(lines, regex, l.pulled)
            case None => s.out == Range(Cut(l), |lines|) && s.dropped == [] && s.outcome == Err(MatchNotFound)
            case Some(m) =>
              var at := Max(Cut(l), m + offset);
              if offset > 0 && at > |lines| then
                s.out == Range(Cut(l), |lines|) && s.dropped == [] && s.outcome == Err(LineOutOfRange)
              else if m + 1 - at < -offset then s.out == [] && s.dropped == [] && s.outcome == Err(LineOutOfRange)
              else
                && s.out == Range(Cut(l), at) && s.outcome == Done
                && s.dropped == (if suppress && at == m + offset && at < |lines| then [at] else [])
                && Orderly(lines, s.next) && Cut(s.next) == at + |s.dropped|
  {
    hide FirstMatch, Stream, WindowStep, OffsetStep, IsMatch, Range, Orderly;
    var found := FirstMatch(lines, regex, l.pulled);
    OrderlyStream(lines, l);
    if found.Some? {
      if offset < 0 {
        WindowCuts(lines, l, found.value, -offset, suppress);
      } else {
        OffsetCuts(lines, l, found.value, offset, suppress);
      }
    }
  }

  lemma OffsetCuts(lines: seq<bytes>, l: Look, m: nat, offset: nat, suppress: bool)
    requires Orderly(lines, l) && l.pulled <= m < |lines|
    ensures var s, at := OffsetStep(lines, l, m, offset, suppress), m + offset;
            if at > |lines| then
              s.out == Range(Cut(l), |lines|) && s.dropped == [] && s.outcome == Err(LineOutOfRange)
            else
              && s.out == Range(Cut(l), at) && s.outcome == Done
              && s.dropped == (if suppress && at < |lines| then [at] else [])
              && Orderly(lines, s.next) && Cut(s.next) == at + |s.dropped|
  {
    OrderlyStream(lines, l);
    if m + offset <= |lines| {
      RangeJoin(Cut(l), l.pulled, m + offset);
    }
  }

  lemma WindowCuts(lines: seq<bytes>, l: Look, m: nat, keep: nat, suppress: bool)
    requires Orderly(lines, l) && l.pulled <= m < |lines| && keep > 0
    ensures var s, at := WindowStep(l, m, keep, suppress), Max(Cut(l), m - keep);
            if m + 1 - at < keep then s.out == [] && s.dropped == [] && s.outcome == Err(LineOutOfRange)
            else
              && s.out == Range(Cut(l), at) && s.outcome == Done
              && s.dropped == (if suppress && at == m - keep then [at] else [])
              && Orderly(lines, s.next) && Cut(s.next) == at + |s.dropped|
  {
    hide Range, CloseWindow;
    RangeJoin(Cut(l), l.pulled, m);
    CloseRange(Cut(l), m, keep, suppress);
    HeldOrderly(lines, Cut(WindowStep(l, m, keep, suppress).next), m);
  }

  lemma RangeParts(from: nat, m: nat, i: nat, j: nat)
    requires from <= m && i <= j <= m - from
    ensures var w := Range(from, m);
            w[..i] == Range(from, from + i) && w[i..j] == Range(from + i, from + j) && w[j..] == Range(from + j, m)
  {
    hide Range;
    var w := Range(from, m);
    RangeSlice(from, m, 0, i);
    RangeSlice(from, m, i, j);
    RangeSlice(from, m, j, m - from);
    assert w[..i] == w[0..i] && w[j..] == w[j..m - from];
  }

  lemma OneOrNone(at: nat, d: nat)
    requires d <= 1
    ensures Range(at, at + d) == if d == 1 then [at] else []
  {}

  /** A window of consecutive lines. */
  lemma CloseRange(from: nat, m: nat, keep: nat, suppress: bool)
    requires from <= m && keep > 0
    ensures var s, at := CloseWindow(Range(from, m), m, keep, suppress), Max(from, m - keep);
            var dropped := if suppress && at == m - keep then [at] else [];
            && s.out == Range(from, at) && s.dropped == dropped
            && s.next == Look(Range(at + |dropped|, m + 1), m + 1, false)
            && s.outcome == if |s.next.held| < keep then Err(LineOutOfRange) else Done
  {
    hide Range;
    var at := Max(from, m - keep);
    var over := at - from;
    var d := if suppress && at == m - keep then 1 else 0;
    RangeParts(from, m, over, over + d);
    RangeSnoc(at + d, m);
    OneOrNone(at, d);
  }

  lemma HeldOrderly(lines: seq<bytes>, from: nat, m: nat)
    requires from <= m + 1 && m < |lines|
    ensures var l := Look(Range(from, m + 1), m + 1, false); Orderly(lines, l) && Cut(l) == from
  {}

  // ----- the order of a run -----

  /** All lines that left the look-ahead, in the order in which they left. */
  function Trace(pieces: seq<Piece>): seq<nat> {
    if pieces == [] then [] else pieces[0].lines + pieces[0].dropped + Trace(pieces[1..])
  }

  lemma {:induction false} TraceAppend(a: seq<Piece>, b: seq<Piece>)
    ensures Trace(a + b) == Trace(a) + Trace(b)
    decreases |a|
  {
    if a == [] {
      assert a + b == b;
    } else {
      assert (a + b)[1..] == a[1..] + b;
      TraceAppend(a[1..], b);
      var first := a[0].lines + a[0].dropped;
      assert first + (Trace(a[1..]) + Trace(b)) == first + Trace(a[1..]) + Trace(b);
    }
  }

  lemma TraceOne(p: Piece)
    ensures Trace([p]) == p.lines + p.dropped
  {
    assert [p][1..] == [];
    assert p.lines + p.dropped + [] == p.lines + p.dropped;
  }

  /** Line after line from `from`, none missing and none twice. */
  predicate InOrder(trace: seq<nat>, from: nat) {
    trace == Range(from, from + |trace|)
  }

  lemma OrderSplits(a: seq<nat>, b: seq<nat>, from: nat)
    ensures InOrder(a + b, from) <==> InOrder(a, from) && InOrder(b, from + |a|)
  {
    var r := Range(from, from + |a| + |b|);
    RangeJoin(from, from + |a|, from + |a| + |b|);
    assert InOrder(a + b, from) ==> a == (a + b)[..|a|] && b == (a + b)[|a|..];
  }

  /** A run ends with its lines in order iff it was smooth, and is then fit to go on. */
  ghost predicate KeepsOrder(lines: seq<bytes>, l: Look, run: Run)
    requires Orderly(lines, l)
  {
    var trace := Trace(run.pieces);
    && (run.smooth <==> !run.end.Endless? && InOrder(trace, Cut(l)))
    && (run.smooth && (run.end.GoOn? || run.end.Finished?) ==>
          Orderly(lines, run.look) && Cut(run.look) == Cut(l) + |trace|)
  }

  lemma OrderJoins(lines: seq<bytes>, l: Look, first: Run, rest: Run)
    requires Orderly(lines, l) && first.end.GoOn? && KeepsOrder(lines, l, first)
    requires first.smooth ==> KeepsOrder(lines, first.look, rest)
    ensures KeepsOrder(lines, l, Join(first.pieces, first.smooth, rest))
  {
    hide Trace, InOrder, Orderly;
    TraceAppend(first.pieces, rest.pieces);
    OrderSplits(Trace(first.pieces), Trace(rest.pieces), Cut(l));
  }

  lemma LineStepInOrder(lines: seq<bytes>, l: Look, n: nat, suppress: bool)
    requires Orderly(lines, l)
    ensures var s := LineStep(lines, l, n, suppress);
            InOrder(s.out + s.dropped, Cut(l))
            && (s.outcome.Done? ==> Orderly(lines, s.next) && Cut(s.next) == Cut(l) + |s.out + s.dropped|)
  {
    LineStepCuts(lines, l, n, suppress);
    hide LineStep, Orderly;
    var at := Max(Cut(l), n - 1);
    if at < |lines| {
      RangeSnoc(Cut(l), at);
    }
  }

  /** A safe search keeps the order, and does not leave everything as it was when repeated without limit. */
  lemma SafeStepInOrder(lines: seq<bytes>, l: Look, regex: Regex, offset: int, max: Option<nat>, suppress: bool)
    requires Orderly(lines, l) && Safe(lines, l, regex, offset, max)
    ensures var s := MatchStep(lines, l, regex, offset, suppress);
            && !s.outcome.Hangs? && !(s.outcome.Done? && max.None? && s.next == l)
            && InOrder(s.out + s.dropped, Cut(l))
            && (s.outcome.Done? || (s.outcome.Err? && s.outcome.error.MatchNotFound?) ==>
                  Orderly(lines, s.next) && Cut(s.next) == Cut(l) + |s.out + s.dropped|)
  {
    hide MatchStep, FirstMatch, IsMatch, Orderly, Range;
    if Stuck(l, offset) {
      SafeWhenStuck(lines, l, regex, offset, max, suppress);
    } else {
      MatchStepCuts(lines, l, regex, offset, suppress);
      ReadsOn(lines, l, regex, offset, suppress);
      AllReadOrderly(lines);
      var found := FirstMatch(lines, regex, l.pulled);
      if found.Some? {
        RangeSnoc(Cut(l), Max(Cut(l), found.value + offset));
      }
      NoRangeAt(Cut(l));
      var s := MatchStep(lines, l, regex, offset, suppress);
      assert s.out + [] == s.out;
    }
  }

  lemma NoRangeAt(at: nat)
    ensures Range(at, at) == []
  {}

  lemma AllReadOrderly(lines: seq<bytes>)
    ensures Orderly(lines, AllRead(lines)) && Cut(AllRead(lines)) == |lines|
  {}

  lemma SafeWhenStuck(lines: seq<bytes>, l: Look, regex: Regex, offset: int, max: Option<nat>, suppress: bool)
    requires Orderly(lines, l) && Stuck(l, offset) && Safe(lines, l, regex, offset, max)
    ensures var s := MatchStep(lines, l, regex, offset, suppress);
            && s.out == [] && s.dropped == [] && s.next == l && InOrder([], Cut(l))
            && s.outcome == if |l.held| < -offset then Err(LineOutOfRange) else Done
  {
    hide IsMatch, StuckStep;
    StuckHere(lines, l, regex, -offset);
    assert l.held[1..][0..] == l.held[1..] && [l.held[0]] + l.held[1..] == l.held;
  }

  lemma ReadsOn(lines: seq<bytes>, l: Look, regex: Regex, offset: int, suppress: bool)
    requires Orderly(lines, l) && !Stuck(l, offset)
    ensures var s := MatchStep(lines, l, regex, offset, suppress);
            && !s.outcome.Hangs?
            && (s.outcome.Done? ==> s.next != l)
            && (s.outcome == Err(MatchNotFound) ==> s.next == AllRead(lines))
  {
    var found := FirstMatch(lines, regex, l.pulled);
    hide FirstMatch, IsMatch, Range, Stream;
  }

  /**
    Any other search: it never ends iff the first held line does not match; else it
    writes a line before its turn iff more lines wait behind than the offset reaches;
    else it changes nothing, and nothing limits it.
  */
  lemma UnsafeStep(lines: seq<bytes>, l: Look, regex: Regex, offset: int, max: Option<nat>, suppress: bool)
    requires Orderly(lines, l) && !Safe(lines, l, regex, offset, max)
    ensures var s, matched := MatchStep(lines, l, regex, offset, suppress), IsMatch(regex, lines[l.held[0]]);
            && (s.outcome.Hangs? <==> !matched)
            && (matched ==> (InOrder(s.out + s.dropped, Cut(l)) <==> |l.held| - 1 <= -offset))
            && (matched && |l.held| - 1 <= -offset ==> max.None? && s.outcome.Done? && s.next == l)
  {
    hide IsMatch;
    StuckHere(lines, l, regex, -offset);
    if IsMatch(regex, lines[l.held[0]]) {
      var s := MatchStep(lines, l, regex, offset, suppress);
      if |l.held| - 1 > -offset {
        var t := s.out + s.dropped;
        assert t[0] == l.held[1] == Cut(l) + 1;
        assert Range(Cut(l), Cut(l) + |t|)[0] == Cut(l);
      } else {
        assert l.held[1..][0..] == l.held[1..] && [l.held[0]] + l.held[1..] == l.held;
      }
    }
  }

  lemma OneRound(lines: seq<bytes>, l: Look, p: Piece, next: Look, smooth: bool)
    requires Orderly(lines, l)
    requires smooth <==> InOrder(p.lines + p.dropped, Cut(l))
    requires smooth ==> Orderly(lines, next) && Cut(next) == Cut(l) + |p.lines + p.dropped|
    ensures KeepsOrder(lines, l, Run([p], next, GoOn, smooth))
  {
    TraceOne(p);
  }

  lemma NoRound(lines: seq<bytes>, l: Look)
    requires Orderly(lines, l)
    ensures KeepsOrder(lines, l, Run([], l, GoOn, true))
  {}

  lemma {:induction false} LineRoundsKeepOrder(lines: seq<bytes>, l: Look, n: nat, upTo: nat, left: Option<nat>,
                                               ith: nat, suppress: bool)
    requires Orderly(lines, l) && n > 0
    ensures KeepsOrder(lines, l, LineRounds(lines, l, n, upTo, left, ith, suppress))
    decreases if left.Some? then left.value else Max(0, |lines| + 1 - upTo)
  {
    hide KeepsOrder, Orderly, LineStep, InOrder, Trace, LineRounds;
    LineRoundsUnfold(lines, l, n, upTo, left, ith, suppress);
    LineStepInOrder(lines, l, upTo, suppress);
    var s := LineStep(lines, l, upTo, suppress);
    var p := Piece(s.out, s.dropped, true);
    if left == Some(0) {
      NoRound(lines, l);
    } else if s.outcome.Done? {
      var left' := if left.None? then None else Some(left.value - 1);
      LineRoundsKeepOrder(lines, s.next, n, upTo + n, left', ith + 1, suppress);
      OneRound(lines, l, p, s.next, true);
      var rest := LineRounds(lines, s.next, n, upTo + n, left', ith + 1, suppress);
      OrderJoins(lines, l, Run([p], s.next, GoOn, true), rest);
    } else {
      LastRound(lines, l, p, s.next, LineRounds(lines, l, n, upTo, left, ith, suppress).end, true);
    }
  }

  /** A round after which there is no other. */
  lemma LastRound(lines: seq<bytes>, l: Look, p: Piece, next: Look, end: End, smooth: bool)
    requires Orderly(lines, l) && !end.GoOn?
    requires smooth <==> !end.Endless? && InOrder(p.lines + p.dropped, Cut(l))
    requires smooth && end.Finished? ==> Orderly(lines, next) && Cut(next) == Cut(l) + |p.lines + p.dropped|
    ensures KeepsOrder(lines, l, Run([p], next, end, smooth))
  {
    TraceOne(p);
  }

  lemma {:induction false} MatchRoundsKeepOrder(lines: seq<bytes>, l: Look, regex: Regex, offset: int, kept: bool,
                                                max: Option<nat>, ith: nat, suppress: bool)
    requires Orderly(lines, l) && ith > 0
    ensures KeepsOrder(lines, l, MatchRounds(lines, l, regex, offset, kept, max, ith, suppress))
    decreases if max.Some? then Max(0, max.value + 1 - ith) else |lines| - l.pulled, |l.held|
  {
    hide KeepsOrder, Orderly, MatchStep, InOrder, Trace, MatchRounds, Safe;
    MatchRoundsUnfold(lines, l, regex, offset, kept, max, ith, suppress);
    var s := MatchStep(lines, l, regex, offset, suppress);
    var p, safe := Piece(s.out, s.dropped, kept), Safe(lines, l, regex, offset, max);
    if safe {
      SafeStepInOrder(lines, l, regex, offset, max, suppress);
    } else {
      UnsafeStep(lines, l, regex, offset, max, suppress);
    }
    var run := MatchRounds(lines, l, regex, offset, kept, max, ith, suppress);
    if max.Some? && ith > max.value {
      NoRound(lines, l);
    } else if s.outcome.Done? && !(max.None? && s.next == l) {
      OneRound(lines, l, p, s.next, safe);
      var rest := MatchRounds(lines, s.next, regex, offset, kept, max, ith + 1, suppress);
      if safe {
        MatchRoundsKeepOrder(lines, s.next, regex, offset, kept, max, ith + 1, suppress);
      }
      OrderJoins(lines, l, Run([p], s.next, GoOn, safe), rest);
    } else {
      ErrorMeans(s.outcome, max, ith);
      LastRound(lines, l, p, s.next, run.end, safe);
    }
  }

  lemma ErrorMeans(outcome: Outcome, max: Option<nat>, ith: nat)
    ensures outcome.Err? && RoundError(outcome.error, max, ith) == None ==> outcome.error.MatchNotFound?
  {}

  /**
    A run of any patterns ends with its lines in order, none missing and none twice, if
    and only if every search it entered was safe.
  */
  lemma {:induction false} RunKeepsOrder(lines: seq<bytes>, l: Look, patterns: seq<Pattern>, suppress: bool)
    requires Orderly(lines, l) && Validated(patterns)
    ensures KeepsOrder(lines, l, RunPatterns(lines, l, patterns, suppress))
    decreases |patterns|
  {
    hide KeepsOrder, Orderly, LineRounds, MatchRounds, RunPatterns, InOrder, Trace;
    RunPatternsUnfold(lines, l, patterns, suppress);
    if patterns == [] {
      NoRound(lines, l);
    } else {
      match patterns[0] {
        case UpToLine(n, ex) => LineRoundsKeepOrder(lines, l, n, n, Limit(ex), 1, suppress);
        case UpToMatch(regex, offset, ex) =>
          MatchRoundsKeepOrder(lines, l, regex, offset, true, Limit(ex), 1, suppress);
        case SkipToMatch(regex, offset, ex) =>
          MatchRoundsKeepOrder(lines, l, regex, offset, false, Limit(ex), 1, suppress);
      }
      var rounds := PatternRounds(lines, l, patterns[0], suppress);
      hide PatternRounds;
      if rounds.end.GoOn? {
        SmoothIsOrderly(lines, l, rounds);
        if rounds.smooth {
          RunKeepsOrder(lines, rounds.look, patterns[1..], suppress);
        }
        OrderJoins(lines, l, rounds, RunPatterns(lines, rounds.look, patterns[1..], suppress));
      }
    }
  }

  lemma SmoothIsOrderly(lines: seq<bytes>, l: Look, run: Run)
    requires Orderly(lines, l) && KeepsOrder(lines, l, run)
    ensures run.smooth && (run.end.GoOn? || run.end.Finished?) ==> Orderly(lines, run.look)
  {}

  lemma StartOrderly(lines: seq<bytes>)
    ensures Orderly(lines, START) && Cut(START) == 0
  {}

  /** The program ends with its lines in order iff its searches were safe; then it has written all, or failed. */
  lemma EndsInOrder(options: Options, patterns: seq<Pattern>, input: bytes)
    requires ValidateLineNumbers(0, patterns) == None
    ensures var trace := Trace(PiecesOf(options, patterns, input));
            && (RunOf(options, patterns, input).smooth
                <==> !Expected(options, patterns, input).Unending? && InOrder(trace, 0))
            && (RunOf(options, patterns, input).smooth && Expected(options, patterns, input).Success? ==>
                  trace == Range(0, |Lines(input)|))
  {
    hide Lines, RunPatterns, Trace, FilesAfter, ValidateLineNumbers;
    AcceptedIffAscending(0, patterns);
    var lines := Lines(input);
    StartOrderly(lines);
    RunKeepsOrder(lines, START, patterns, options.suppressMatched);
    var run := RunOf(options, patterns, input);
    if run.end.GoOn? || run.end.Finished? {
      var last := LastPieces(lines, run.look, patterns, options.suppressMatched);
      TraceAppend(run.pieces, last);
      LastTrace(lines, run.look, patterns, options.suppressMatched);
      OrderSplits(Trace(run.pieces), Trace(last), 0);
      if run.smooth {
        OrderlyStream(lines, run.look);
        RangeJoin(0, Cut(run.look), |lines|);
      }
    }
  }

  lemma LastTrace(lines: seq<bytes>, l: Look, patterns: seq<Pattern>, suppress: bool)
    ensures Trace(LastPieces(lines, l, patterns, suppress)) == Stream(lines, l)
  {
    TraceOne(Piece(Stream(lines, l), [], true));
    assert Stream(lines, l) + [] == Stream(lines, l);
  }

  // ----- which runs never end -----

  /**
    What can be checked before a pattern: it searches back while lines are to be
    rewound, and the first of them does not match, or the rounds are not limited and
    enough lines wait for the search not to fail.
  */
  predicate NeverReturns(lines: seq<bytes>, l: Look, p: Pattern)
    requires Proper(lines, l)
  {
    && !p.UpToLine? && Limit(p.ex) != Some(0) && Stuck(l, p.offset)
    && (!IsMatch(p.regex, lines[l.held[0]]) || (p.ex.Always? && |l.held| >= -p.offset))
  }

  /** A search back among held lines: without end, too short, or met again in the same place. */
  lemma StuckGoesOn(lines: seq<bytes>, l: Look, regex: Regex, offset: int, suppress: bool)
    requires Proper(lines, l) && Stuck(l, offset)
    ensures var s := MatchStep(lines, l, regex, offset, suppress);
            && s.outcome == (if !IsMatch(regex, lines[l.held[0]]) then Hangs
                             else if |l.held| < -offset then Err(LineOutOfRange) else Done)
            && (s.outcome.Done? ==>
                  Stuck(s.next, offset) && s.next.held[0] == l.held[0] && |s.next.held| >= -offset)
  {
    hide IsMatch;
  }

  /** Any other search ends, having read on, and is not met by lines to rewind again. */
  lemma ReadingGoesOn(lines: seq<bytes>, l: Look, regex: Regex, offset: int, suppress: bool)
    requires Proper(lines, l) && !Stuck(l, offset)
    ensures var s := MatchStep(lines, l, regex, offset, suppress);
            !s.outcome.Hangs? && (s.outcome.Done? ==> s.next != l && !Stuck(s.next, offset))
  {
    hide FirstMatch, IsMatch, Range, Stream;
  }

  lemma {:induction false} MatchRoundsEndless(lines: seq<bytes>, l: Look, regex: Regex, offset: int, kept: bool,
                                              max: Option<nat>, ith: nat, suppress: bool)
    requires Proper(lines, l) && ith > 0
    ensures MatchRounds(lines, l, regex, offset, kept, max, ith, suppress).end.Endless? <==>
            && !(max.Some? && ith > max.value) && Stuck(l, offset)
            && (!IsMatch(regex, lines[l.held[0]]) || (max.None? && |l.held| >= -offset))
    decreases if max.Some? then Max(0, max.value + 1 - ith) else |lines| - l.pulled, |l.held|
  {
    hide MatchRounds, MatchStep, Safe, IsMatch;
    MatchRoundsUnfold(lines, l, regex, offset, kept, max, ith, suppress);
    var s := MatchStep(lines, l, regex, offset, suppress);
    ReaderIn(lines, s.next);
    if Stuck(l, offset) {
      StuckGoesOn(lines, l, regex, offset, suppress);
    } else {
      ReadingGoesOn(lines, l, regex, offset, suppress);
    }
    if !(max.Some? && ith > max.value) && s.outcome.Done? && !(max.None? && s.next == l) {
      MatchRoundsEndless(lines, s.next, regex, offset, kept, max, ith + 1, suppress);
    }
  }

  lemma {:induction false} LineRoundsEnd(lines: seq<bytes>, l: Look, n: nat, upTo: nat, left: Option<nat>, ith: nat,
                                         suppress: bool)
    requires Proper(lines, l) && n > 0
    ensures !LineRounds(lines, l, n, upTo, left, ith, suppress).end.Endless?
    decreases if left.Some? then left.value else Max(0, |lines| + 1 - upTo)
  {
    hide LineRounds, LineStep, Proper;
    LineRoundsUnfold(lines, l, n, upTo, left, ith, suppress);
    var s := LineStep(lines, l, upTo, suppress);
    if left != Some(0) && s.outcome.Done? {
      var left' := if left.None? then None else Some(left.value - 1);
      LineRoundsEnd(lines, s.next, n, upTo + n, left', ith + 1, suppress);
    }
  }

  lemma PatternEndless(lines: seq<bytes>, l: Look, p: Pattern, suppress: bool)
    requires Proper(lines, l) && (p.UpToLine? ==> p.n > 0)
    ensures PatternRounds(lines, l, p, suppress).end.Endless? <==> NeverReturns(lines, l, p)
  {
    hide LineRounds, MatchRounds, IsMatch, Proper;
    match p
    case UpToLine(n, ex) => LineRoundsEnd(lines, l, n, n, Limit(ex), 1, suppress);
    case UpToMatch(regex, offset, ex) => MatchRoundsEndless(lines, l, regex, offset, true, Limit(ex), 1, suppress);
    case SkipToMatch(regex, offset, ex) => MatchRoundsEndless(lines, l, regex, offset, false, Limit(ex), 1, suppress);
  }

  /** The patterns before number `k` run to their end, and leave a look-ahead from which it never returns. */
  ghost predicate StopsAt(lines: seq<bytes>, l: Look, patterns: seq<Pattern>, k: nat, suppress: bool)
    requires Proper(lines, l) && Validated(patterns) && k < |patterns|
  {
    RunPatternsProper(lines, l, patterns[..k], suppress);
    var before := RunPatterns(lines, l, patterns[..k], suppress);
    before.end.GoOn? && NeverReturns(lines, before.look, patterns[k])
  }

  lemma StopsLater(lines: seq<bytes>, l: Look, patterns: seq<Pattern>, k: nat, suppress: bool)
    requires Proper(lines, l) && Validated(patterns) && k < |patterns|
    ensures var rounds := PatternRounds(lines, l, patterns[0], suppress);
            && Proper(lines, rounds.look)
            && (StopsAt(lines, l, patterns, k, suppress) <==>
                  if k == 0 then NeverReturns(lines, l, patterns[0])
                  else rounds.end.GoOn? && StopsAt(lines, rounds.look, patterns[1..], k - 1, suppress))
  {
    hide PatternRounds, RunPatterns, NeverReturns, Proper;
    RunPatternsUnfold(lines, l, patterns, suppress);
    RunPatternsUnfold(lines, l, patterns[..k], suppress);
    if k > 0 {
      assert patterns[..k][1..] == patterns[1..][..k - 1];
      RunPatternsProper(lines, l, patterns[..k], suppress);
    }
  }

  /** A run never ends iff one of its patterns, reached with the others done, never returns. */
  lemma {:induction false} RunEndless(lines: seq<bytes>, l: Look, patterns: seq<Pattern>, suppress: bool)
    requires Proper(lines, l) && Validated(patterns)
    ensures RunPatterns(lines, l, patterns, suppress).end.Endless? <==>
            exists k :: 0 <= k < |patterns| && StopsAt(lines, l, patterns, k, suppress)
    decreases |patterns|
  {
    hide PatternRounds, RunPatterns, NeverReturns, Proper, StopsAt;
    RunPatternsUnfold(lines, l, patterns, suppress);
    if patterns != [] {
      var rounds := PatternRounds(lines, l, patterns[0], suppress);
      PatternEndless(lines, l, patterns[0], suppress);
      forall k | 0 <= k < |patterns|
        ensures StopsAt(lines, l, patterns, k, suppress) <==>
                if k == 0 then NeverReturns(lines, l, patterns[0])
                else rounds.end.GoOn? && StopsAt(lines, rounds.look, patterns[1..], k - 1, suppress)
      {
        StopsLater(lines, l, patterns, k, suppress);
      }
      if rounds.end.GoOn? {
        RunEndless(lines, rounds.look, patterns[1..], suppress);
        if k :| 0 <= k < |patterns[1..]| && StopsAt(lines, rounds.look, patterns[1..], k, suppress) {
          assert StopsAt(lines, l, patterns, k + 1, suppress);
        }
      } else if NeverReturns(lines, l, patterns[0]) {
        assert StopsAt(lines, l, patterns, 0, suppress);
      }
    }
  }

  /** Exactly which runs of the program never end. */
  lemma UnendingIff(options: Options, patterns: seq<Pattern>, input: bytes)
    ensures Expected(options, patterns, input).Unending? <==>
            && ValidateLineNumbers(0, patterns) == None && Validated(patterns) && Proper(Lines(input), START)
            && exists k :: 0 <= k < |patterns| && StopsAt(Lines(input), START, patterns, k, options.suppressMatched)
  {
    hide Lines, RunPatterns, FilesAfter, ValidateLineNumbers, StopsAt;
    if ValidateLineNumbers(0, patterns) == None {
      AcceptedIffAscending(0, patterns);
      RunEndless(Lines(input), START, patterns, options.suppressMatched);
    }
  }

  // ----- no line is lost or written twice, in order or not -----

  lemma LineStepPermutes(lines: seq<bytes>, l: Look, n: nat, suppress: bool)
    requires Proper(lines, l)
    ensures var s := LineStep(lines, l, n, suppress);
            s.out + s.dropped + Stream(lines, s.next) == Stream(lines, l)
  {
    hide Reach, Proper, Stream, Ahead, PutBack, Range;
    var s := Stream(lines, l);
    var k := Reach(s, n);
    NoneAhead(lines);
    if k == |s| {
      assert s + [] + [] == s;
    } else {
      StreamAhead(lines, l, k + 1);
      StreamPutBack(lines, Ahead(l, k + 1), s[k]);
      assert s[..k] + [s[k]] + s[k + 1..] == s;
      assert s[..k] + [] + ([s[k]] + s[k + 1..]) == s;
    }
  }

  lemma NoneAhead(lines: seq<bytes>)
    ensures Stream(lines, AllRead(lines)) == []
  {}

  lemma StreamPutBack(lines: seq<bytes>, l: Look, n: nat)
    ensures Stream(lines, PutBack(l, n)) == [n] + Stream(lines, l)
  {}

  lemma StreamAhead(lines: seq<bytes>, l: Look, k: nat)
    requires Proper(lines, l) && k <= |Stream(lines, l)|
    ensures Stream(lines, Ahead(l, k)) == Stream(lines, l)[k..]
  {}

  lemma MatchStepPermutes(lines: seq<bytes>, l: Look, regex: Regex, offset: int, suppress: bool)
    requires Proper(lines, l)
    ensures var s := MatchStep(lines, l, regex, offset, suppress);
            multiset(s.out + s.dropped + Stream(lines, s.next)) == multiset(Stream(lines, l))
  {
    hide Range, StuckStep, Stream, FirstMatch, IsMatch, WindowStep, OffsetStep, Proper;
    ReaderIn(lines, l);
    if Stuck(l, offset) {
      StuckPermutes(lines, l, regex, -offset);
    } else {
      var found := FirstMatch(lines, regex, l.pulled);
      if found.None? {
        NoneAhead(lines);
        assert Stream(lines, l) + [] + [] == Stream(lines, l);
      } else if offset < 0 {
        WindowPermutes(lines, l, found.value, -offset, suppress);
      } else {
        OffsetPermutes(lines, l, found.value, offset, suppress);
      }
    }
  }

  lemma StuckPermutes(lines: seq<bytes>, l: Look, regex: Regex, keep: nat)
    requires Proper(lines, l) && l.held != [] && l.rewound && keep > 0
    ensures var s := StuckStep(lines, l, regex, keep);
            multiset(s.out + s.dropped + Stream(lines, s.next)) == multiset(Stream(lines, l))
  {
    hide IsMatch, Range, StuckStep, Stream;
    StuckHere(lines, l, regex, keep);
    var first, rest, to := l.held[0], l.held[1..], Range(l.pulled, |lines|);
    assert l.held == [first] + rest;
    StreamHeld(lines, l, l.held);
    if IsMatch(regex, lines[first]) {
      var over := Max(0, |rest| - keep);
      StreamHeld(lines, l, [first] + rest[over..]);
      Reorder(first, rest, over, to);
      assert StuckStep(lines, l, regex, keep).out == rest[..over];
      assert StuckStep(lines, l, regex, keep).next == l.(held := [first] + rest[over..]);
    } else {
      assert StuckStep(lines, l, regex, keep).next == l;
      NothingTaken(Stream(lines, l));
    }
  }

  lemma StreamHeld(lines: seq<bytes>, l: Look, held: seq<nat>)
    ensures Stream(lines, l.(held := held)) == held + Range(l.pulled, |lines|)
    ensures l.(held := l.held) == l
  {}

  lemma NothingTaken(s: seq<nat>)
    ensures [] + [] + s == s
  {}

  lemma Reorder(x: nat, rest: seq<nat>, over: nat, to: seq<nat>)
    requires over <= |rest|
    ensures multiset(rest[..over] + [] + ([x] + rest[over..] + to)) == multiset([x] + rest + to)
  {
    assert rest == rest[..over] + rest[over..];
  }

  lemma WindowPermutes(lines: seq<bytes>, l: Look, m: nat, keep: nat, suppress: bool)
    requires l.pulled <= m < |lines|
    ensures var s := WindowStep(l, m, keep, suppress);
            s.out + s.dropped + Stream(lines, s.next) == Stream(lines, l)
  {
    hide Range;
    var w, to := l.held + Range(l.pulled, m), Range(m + 1, |lines|);
    RangeJoin(l.pulled, m, |lines|);
    RangeJoin(m, m + 1, |lines|);
    RangeSnoc(m, m);
    assert Range(m, m) == [] && [] + [m] == [m];
    CloseTakesAll(w, m, keep, suppress, to);
    assert l.held + (Range(l.pulled, m) + ([m] + to)) == w + ([m] + to);
  }

  lemma CloseTakesAll(w: seq<nat>, m: nat, keep: nat, suppress: bool, to: seq<nat>)
    ensures var s := CloseWindow(w, m, keep, suppress);
            s.out + s.dropped + (s.next.held + to) == w + ([m] + to)
  {
    var over := Max(0, |w| - keep);
    var d := if suppress && |w| >= keep > 0 then 1 else 0;
    TakeApart(w, over, over + d, [m] + to);
    assert w[over + d..] + [m] + to == w[over + d..] + ([m] + to);
  }

  lemma TakeApart(w: seq<nat>, i: nat, j: nat, rest: seq<nat>)
    requires i <= j <= |w|
    ensures w[..i] + w[i..j] + (w[j..] + rest) == w + rest
  {
    assert w == w[..i] + w[i..j] + w[j..];
  }

  lemma OffsetPermutes(lines: seq<bytes>, l: Look, m: nat, offset: nat, suppress: bool)
    requires l.pulled <= m < |lines|
    ensures var s := OffsetStep(lines, l, m, offset, suppress);
            s.out + s.dropped + Stream(lines, s.next) == Stream(lines, l)
  {
    hide Range;
    var at := m + offset;
    NoneAhead(lines);
    var s := Stream(lines, l);
    assert s + [] + [] == s;
    if at <= |lines| {
      RangeJoin(l.pulled, at, |lines|);
      var out := l.held + Range(l.pulled, at);
      assert s == out + Range(at, |lines|);
      assert out + [] + ([] + Range(at, |lines|)) == s;
      if at < |lines| {
        RangeJoin(at, at + 1, |lines|);
        RangeSnoc(at, at);
        assert Range(at, at) == [] && [] + [at] == [at];
        assert out + [at] + ([] + Range(at + 1, |lines|)) == s;
        assert out + [] + ([at] + Range(at + 1, |lines|)) == s;
      }
    }
  }

  ghost predicate Permutes(lines: seq<bytes>, l: Look, run: Run) {
    multiset(Trace(run.pieces) + Stream(lines, run.look)) == multiset(Stream(lines, l))
  }

  lemma PermutesJoin(lines: seq<bytes>, l: Look, first: Run, rest: Run)
    requires Permutes(lines, l, first) && Permutes(lines, first.look, rest)
    ensures Permutes(lines, l, Join(first.pieces, first.smooth, rest))
  {
    hide Trace, Stream;
    TraceAppend(first.pieces, rest.pieces);
  }

  lemma OnePermutes(lines: seq<bytes>, l: Look, p: Piece, next: Look, end: End, smooth: bool)
    requires multiset(p.lines + p.dropped + Stream(lines, next)) == multiset(Stream(lines, l))
    ensures Permutes(lines, l, Run([p], next, end, smooth))
  {
    TraceOne(p);
  }

  lemma {:induction false} LineRoundsPermute(lines: seq<bytes>, l: Look, n: nat, upTo: nat, left: Option<nat>,
                                             ith: nat, suppress: bool)
    requires Proper(lines, l) && n > 0
    ensures Permutes(lines, l, LineRounds(lines, l, n, upTo, left, ith, suppress))
    decreases if left.Some? then left.value else Max(0, |lines| + 1 - upTo)
  {
    hide Permutes, Proper, LineStep, LineRounds;
    LineRoundsUnfold(lines, l, n, upTo, left, ith, suppress);
    LineStepPermutes(lines, l, upTo, suppress);
    var s := LineStep(lines, l, upTo, suppress);
    var p := Piece(s.out, s.dropped, true);
    if left == Some(0) {
      NothingPermutes(lines, l);
    } else if s.outcome.Done? {
      var left' := if left.None? then None else Some(left.value - 1);
      LineRoundsPermute(lines, s.next, n, upTo + n, left', ith + 1, suppress);
      OnePermutes(lines, l, p, s.next, GoOn, true);
      PermutesJoin(lines, l, Run([p], s.next, GoOn, true),
                   LineRounds(lines, s.next, n, upTo + n, left', ith + 1, suppress));
    } else {
      OnePermutes(lines, l, p, s.next, LineRounds(lines, l, n, upTo, left, ith, suppress).end, true);
    }
  }

  lemma NothingPermutes(lines: seq<bytes>, l: Look)
    ensures Permutes(lines, l, Run([], l, GoOn, true))
  {
    assert [] + Stream(lines, l) == Stream(lines, l);
  }

  lemma {:induction false} MatchRoundsPermute(lines: seq<bytes>, l: Look, regex: Regex, offset: int, kept: bool,
                                              max: Option<nat>, ith: nat, suppress: bool)
    requires Proper(lines, l) && ith > 0
    ensures Permutes(lines, l, MatchRounds(lines, l, regex, offset, kept, max, ith, suppress))
    decreases if max.Some? then Max(0, max.value + 1 - ith) else |lines| - l.pulled, |l.held|
  {
    hide Permutes, Proper, MatchStep, MatchRounds, Safe;
    MatchRoundsUnfold(lines, l, regex, offset, kept, max, ith, suppress);
    MatchStepPermutes(lines, l, regex, offset, suppress);
    var s := MatchStep(lines, l, regex, offset, suppress);
    var p, safe := Piece(s.out, s.dropped, kept), Safe(lines, l, regex, offset, max);
    var run := MatchRounds(lines, l, regex, offset, kept, max, ith, suppress);
    ReaderIn(lines, s.next);
    if max.Some? && ith > max.value {
      NothingPermutes(lines, l);
    } else if s.outcome.Done? && !(max.None? && s.next == l) {
      MatchRoundsPermute(lines, s.next, regex, offset, kept, max, ith + 1, suppress);
      OnePermutes(lines, l, p, s.next, GoOn, safe);
      PermutesJoin(lines, l, Run([p], s.next, GoOn, safe),
                   MatchRounds(lines, s.next, regex, offset, kept, max, ith + 1, suppress));
    } else {
      OnePermutes(lines, l, p, s.next, run.end, safe);
    }
  }

  lemma {:induction false} RunPermutes(lines: seq<bytes>, l: Look, patterns: seq<Pattern>, suppress: bool)
    requires Proper(lines, l) && Validated(patterns)
    ensures Permutes(lines, l, RunPatterns(lines, l, patterns, suppress))
    decreases |patterns|
  {
    hide Permutes, Proper, LineRounds, MatchRounds, RunPatterns;
    RunPatternsUnfold(lines, l, patterns, suppress);
    if patterns == [] {
      NothingPermutes(lines, l);
    } else {
      match patterns[0] {
        case UpToLine(n, ex) => LineRoundsPermute(lines, l, n, n, Limit(ex), 1, suppress);
        case UpToMatch(regex, offset, ex) =>
          MatchRoundsPermute(lines, l, regex, offset, true, Limit(ex), 1, suppress);
        case SkipToMatch(regex, offset, ex) =>
          MatchRoundsPermute(lines, l, regex, offset, false, Limit(ex), 1, suppress);
      }
      var rounds := PatternRounds(lines, l, patterns[0], suppress);
      hide PatternRounds;
      if rounds.end.GoOn? {
        RunPermutes(lines, rounds.look, patterns[1..], suppress);
        PermutesJoin(lines, l, rounds, RunPatterns(lines, rounds.look, patterns[1..], suppress));
      }
    }
  }

  /** Every successful run, even one that loses the order, takes each line of the input exactly once. */
  lemma EveryLineOnce(options: Options, patterns: seq<Pattern>, input: bytes)
    requires Expected(options, patterns, input).Success?
    ensures multiset(Trace(PiecesOf(options, patterns, input))) == multiset(Range(0, |Lines(input)|))
  {
    hide Lines, RunPatterns, Trace, FilesAfter, ValidateLineNumbers, Proper;
    AcceptedIffAscending(0, patterns);
    var lines := Lines(input);
    StartOrderly(lines);
    OrderlyStream(lines, START);
    RunPermutes(lines, START, patterns, options.suppressMatched);
    var run := RunOf(options, patterns, input);
    LastTrace(lines, run.look, patterns, options.suppressMatched);
    TraceAppend(run.pieces, LastPieces(lines, run.look, patterns, options.suppressMatched));
  }

  // ----- conservation -----

  predicate NoSkip(patterns: seq<Pattern>) {
    forall i :: 0 <= i < |patterns| ==> !patterns[i].SkipToMatch?
  }

  /** Pieces that leave nothing out. */
  ghost predicate AllWritten(pieces: seq<Piece>) {
    forall i :: 0 <= i < |pieces| ==> pieces[i].kept && pieces[i].dropped == []
  }

  lemma {:induction false} WrittenTexts(files: seq<bytes>, lines: seq<bytes>, pieces: seq<Piece>, elide: bool)
    requires AllWritten(pieces)
    ensures Concat(FilesAfter(files, lines, pieces, elide)) == Concat(files) + TextAt(lines, Trace(pieces))
    decreases |pieces|
  {
    hide Concat, TextAt;
    if pieces == [] {
      assert TextAt(lines, []) == [] by { NoText(lines, []); }
      assert Concat(files) + [] == Concat(files);
    } else {
      var p := pieces[0];
      var files', text := AddPiece(files, TextAt(lines, p.lines), true, elide), TextAt(lines, p.lines);
      WrittenTexts(files', lines, pieces[1..], elide);
      AddPieceText(files, text, elide);
      assert p.lines + p.dropped == p.lines;
      TextAppend(lines, p.lines, Trace(pieces[1..]));
      assert Concat(files) + text + TextAt(lines, Trace(pieces[1..]))
             == Concat(files) + (text + TextAt(lines, Trace(pieces[1..])));
    }
  }

  lemma AddPieceText(files: seq<bytes>, text: bytes, elide: bool)
    ensures Concat(AddPiece(files, text, true, elide)) == Concat(files) + text
  {
    hide Concat;
    ConcatSnoc(files, text);
    assert Concat(files) + [] == Concat(files);
  }

  lemma {:induction false} LineRoundsWrite(lines: seq<bytes>, l: Look, n: nat, upTo: nat, left: Option<nat>, ith: nat)
    requires Proper(lines, l) && n > 0
    ensures AllWritten(LineRounds(lines, l, n, upTo, left, ith, false).pieces)
    decreases if left.Some? then left.value else Max(0, |lines| + 1 - upTo)
  {
    hide LineRounds, Proper, Reach, Ahead, Stream;
    LineRoundsUnfold(lines, l, n, upTo, left, ith, false);
    var s := LineStep(lines, l, upTo, false);
    if left != Some(0) && s.outcome.Done? {
      LineRoundsWrite(lines, s.next, n, upTo + n, if left.None? then None else Some(left.value - 1), ith + 1);
    }
  }

  lemma NothingDropped(lines: seq<bytes>, l: Look, regex: Regex, offset: int)
    requires Proper(lines, l)
    ensures MatchStep(lines, l, regex, offset, false).dropped == []
  {
    hide FirstMatch, IsMatch, Range;
  }

  lemma {:induction false} MatchRoundsWrite(lines: seq<bytes>, l: Look, regex: Regex, offset: int, max: Option<nat>,
                                            ith: nat)
    requires Proper(lines, l) && ith > 0
    ensures AllWritten(MatchRounds(lines, l, regex, offset, true, max, ith, false).pieces)
    decreases if max.Some? then Max(0, max.value + 1 - ith) else |lines| - l.pulled, |l.held|
  {
    hide MatchRounds, MatchStep, Proper, Safe;
    MatchRoundsUnfold(lines, l, regex, offset, true, max, ith, false);
    NothingDropped(lines, l, regex, offset);
    var s := MatchStep(lines, l, regex, offset, false);
    ReaderIn(lines, s.next);
    if !(max.Some? && ith > max.value) && s.outcome.Done? && !(max.None? && s.next == l) {
      MatchRoundsWrite(lines, s.next, regex, offset, max, ith + 1);
    }
  }

  lemma {:induction false} RunWrites(lines: seq<bytes>, l: Look, patterns: seq<Pattern>)
    requires Proper(lines, l) && Validated(patterns) && NoSkip(patterns)
    ensures AllWritten(RunPatterns(lines, l, patterns, false).pieces)
    decreases |patterns|
  {
    hide RunPatterns, LineRounds, MatchRounds, Proper;
    RunPatternsUnfold(lines, l, patterns, false);
    if patterns != [] {
      match patterns[0] {
        case UpToLine(n, ex) => LineRoundsWrite(lines, l, n, n, Limit(ex), 1);
        case UpToMatch(regex, offset, ex) => MatchRoundsWrite(lines, l, regex, offset, Limit(ex), 1);
      }
      var rounds := PatternRounds(lines, l, patterns[0], false);
      hide PatternRounds;
      if rounds.end.GoOn? {
        RunWrites(lines, rounds.look, patterns[1..]);
      }
    }
  }

  /** The files are the text of the lines as they left the look-ahead. */
  lemma FilesAreTheTrace(options: Options, patterns: seq<Pattern>, input: bytes)
    requires NoSkip(patterns) && !options.suppressMatched && ValidateLineNumbers(0, patterns) == None
    ensures var pieces := PiecesOf(options, patterns, input);
            Concat(FilesAfter([], Lines(input), pieces, options.elideEmptyFiles)) == TextAt(Lines(input), Trace(pieces))
  {
    hide RunPatterns, Lines, Concat, TextAt, Trace, FilesAfter, Proper, ValidateLineNumbers;
    AcceptedIffAscending(0, patterns);
    StartOrderly(Lines(input));
    RunWrites(Lines(input), START, patterns);
    var pieces := PiecesOf(options, patterns, input);
    WrittenTexts([], Lines(input), pieces, options.elideEmptyFiles);
    NoBytes();
  }

  /** With no `%re%`, nothing suppressed and safe searches, the files of a successful run are the input, cut up. */
  lemma Conserves(options: Options, patterns: seq<Pattern>, input: bytes)
    requires NoSkip(patterns) && !options.suppressMatched
    requires Expected(options, patterns, input).Success? && RunOf(options, patterns, input).smooth
    ensures Concat(Expected(options, patterns, input).files) == input
  {
    hide RunPatterns, Lines, Concat, TextAt, Trace, FilesAfter, ValidateLineNumbers;
    EndsInOrder(options, patterns, input);
    FilesAreTheTrace(options, patterns, input);
    TextOfFirst(Lines(input), |Lines(input)|);
    assert Lines(input)[..|Lines(input)|] == Lines(input);
  }

  /** Kept after a failure, they are still the beginning of it. */
  lemma ConservesAPrefix(options: Options, patterns: seq<Pattern>, input: bytes)
    requires NoSkip(patterns) && !options.suppressMatched && options.keepFiles
    requires Expected(options, patterns, input).Fault?
    requires ValidateLineNumbers(0, patterns) == None ==> RunOf(options, patterns, input).smooth
    ensures Concat(Expected(options, patterns, input).files) <= input
  {
    NoBytes();
    hide RunPatterns, Lines, Concat, TextAt, Trace, FilesAfter, ValidateLineNumbers;
    if ValidateLineNumbers(0, patterns) == None {
      var lines, trace := Lines(input), Trace(PiecesOf(options, patterns, input));
      EndsInOrder(options, patterns, input);
      FilesAreTheTrace(options, patterns, input);
      TextOfFirst(lines, |trace|);
      if |trace| <= |lines| {
        ConcatFront(lines, |trace|);
      } else {
        ConcatFront(lines, |lines|);
      }
    }
  }

  lemma ConcatFront(lines: seq<bytes>, k: nat)
    requires k <= |lines|
    ensures Concat(lines[..k]) <= Concat(lines)
  {
    hide Concat;
    assert lines == lines[..k] + lines[k..];
    ConcatAppend(lines[..k], lines[k..]);
  }

  lemma NoBytes()
    ensures Concat([]) == []
    ensures forall b: bytes :: [] + b == b
  {}

  lemma {:induction false} TextOfFirst(lines: seq<bytes>, k: nat)
    ensures TextAt(lines, Range(0, k)) == Concat(lines[..if k < |lines| then k else |lines|])
  {
    hide Concat;
    if k == 0 {
      NoBytes();
      assert Range(0, 0) == [] && lines[..0] == [];
    } else {
      TextOfFirst(lines, k - 1);
      RangeSnoc(0, k - 1);
      assert Range(0, k)[..k - 1] == Range(0, k - 1);
      if k <= |lines| {
        assert lines[..k] == lines[..k - 1] + [lines[k - 1]];
        ConcatSnoc(lines[..k - 1], lines[k - 1]);
      } else {
        assert TextAt(lines, Range(0, k - 1)) + [] == TextAt(lines, Range(0, k - 1));
      }
    }
  }

  predicate NoneEmpty(files: seq<bytes>) {
    forall i :: 0 <= i < |files| ==> files[i] != []
  }

  lemma {:induction false} ElidedAreNonempty(files: seq<bytes>, lines: seq<bytes>, pieces: seq<Piece>)
    requires NoneEmpty(files)
    ensures NoneEmpty(FilesAfter(files, lines, pieces, true))
    decreases |pieces|
  {
    hide TextAt;
    if pieces != [] {
      ElidedAreNonempty(AddPiece(files, TextAt(lines, pieces[0].lines), pieces[0].kept, true), lines, pieces[1..]);
    }
  }

  /** With empty files elided no run leaves one. */
  lemma NoEmptyFile(options: Options, patterns: seq<Pattern>, input: bytes)
    requires options.elideEmptyFiles && !Expected(options, patterns, input).Unending?
    ensures NoneEmpty(Expected(options, patterns, input).files)
  {
    hide FilesAfter, RunPatterns, Lines, ValidateLineNumbers;
    if ValidateLineNumbers(0, patterns) == None {
      ElidedAreNonempty([], Lines(input), PiecesOf(options, patterns, input));
    }
  }

  // ----- searches are safe unless they follow a line number -----

  predicate Negative(p: Pattern) {
    !p.UpToLine? && p.offset < 0
  }

  /** As parsed: every pattern is applied at least once, and no search back follows a line number. */
  ghost predicate Tame(patterns: seq<Pattern>) {
    && (forall i :: 0 <= i < |patterns| ==> patterns[i].ex != Times(0))
    && (forall i :: 0 < i < |patterns| && patterns[i - 1].UpToLine? ==> !Negative(patterns[i]))
  }

  lemma {:induction false} LineRoundsSmooth(lines: seq<bytes>, l: Look, n: nat, upTo: nat, left: Option<nat>, ith: nat,
                                            suppress: bool)
    requires Proper(lines, l) && n > 0
    ensures LineRounds(lines, l, n, upTo, left, ith, suppress).smooth
    decreases if left.Some? then left.value else Max(0, |lines| + 1 - upTo)
  {
    hide LineRounds, LineStep, Proper;
    LineRoundsUnfold(lines, l, n, upTo, left, ith, suppress);
    var s := LineStep(lines, l, upTo, suppress);
    if left != Some(0) && s.outcome.Done? {
      var left' := if left.None? then None else Some(left.value - 1);
      LineRoundsSmooth(lines, s.next, n, upTo + n, left', ith + 1, suppress);
    }
  }

  lemma StaysForward(lines: seq<bytes>, l: Look, regex: Regex, offset: int, suppress: bool)
    requires Proper(lines, l) && (offset < 0 ==> !l.rewound)
    ensures var s := MatchStep(lines, l, regex, offset, suppress); !s.next.rewound && !s.outcome.Hangs?
  {
    hide FirstMatch, IsMatch, Range;
  }

  lemma {:induction false} MatchRoundsSmooth(lines: seq<bytes>, l: Look, regex: Regex, offset: int, kept: bool,
                                             max: Option<nat>, ith: nat, suppress: bool)
    requires Proper(lines, l) && ith > 0 && (offset < 0 ==> !l.rewound)
    ensures var r := MatchRounds(lines, l, regex, offset, kept, max, ith, suppress);
            r.smooth && (!l.rewound || max == None || ith <= max.value ==> !r.look.rewound)
    decreases if max.Some? then Max(0, max.value + 1 - ith) else |lines| - l.pulled, |l.held|
  {
    hide MatchRounds, MatchStep, Proper;
    MatchRoundsUnfold(lines, l, regex, offset, kept, max, ith, suppress);
    StaysForward(lines, l, regex, offset, suppress);
    var s := MatchStep(lines, l, regex, offset, suppress);
    ReaderIn(lines, s.next);
    if !(max.Some? && ith > max.value) && s.outcome.Done? && !(max.None? && s.next == l) {
      MatchRoundsSmooth(lines, s.next, regex, offset, kept, max, ith + 1, suppress);
    }
  }

  lemma {:induction false} TameIsSmooth(lines: seq<bytes>, l: Look, patterns: seq<Pattern>, suppress: bool)
    requires Proper(lines, l) && Validated(patterns) && Tame(patterns)
    requires patterns != [] && Negative(patterns[0]) ==> !l.rewound
    ensures RunPatterns(lines, l, patterns, suppress).smooth
    decreases |patterns|
  {
    hide RunPatterns, LineRounds, MatchRounds, Proper;
    RunPatternsUnfold(lines, l, patterns, suppress);
    if patterns != [] {
      var p, rest := patterns[0], patterns[1..];
      assert forall i :: 0 < i < |rest| ==> rest[i - 1] == patterns[i] && rest[i] == patterns[i + 1];
      assert rest != [] ==> rest[0] == patterns[1];
      match p {
        case UpToLine(n, ex) => LineRoundsSmooth(lines, l, n, n, Limit(ex), 1, suppress);
        case UpToMatch(regex, offset, ex) =>
          MatchRoundsSmooth(lines, l, regex, offset, true, Limit(ex), 1, suppress);
        case SkipToMatch(regex, offset, ex) =>
          MatchRoundsSmooth(lines, l, regex, offset, false, Limit(ex), 1, suppress);
      }
      var rounds := PatternRounds(lines, l, p, suppress);
      if rounds.end.GoOn? {
        TameIsSmooth(lines, rounds.look, rest, suppress);
      }
    }
  }

  /** If no search back directly follows a line number, every search is safe, so the run ends in order. */
  lemma TameRunsAreSmooth(options: Options, patterns: seq<Pattern>, input: bytes)
    requires Tame(patterns) && ValidateLineNumbers(0, patterns) == None
    ensures RunOf(options, patterns, input).smooth && !Expected(options, patterns, input).Unending?
  {
    hide RunPatterns, Lines, FilesAfter, ValidateLineNumbers;
    AcceptedIffAscending(0, patterns);
    StartOrderly(Lines(input));
    TameIsSmooth(Lines(input), START, patterns, options.suppressMatched);
    EndsInOrder(options, patterns, input);
  }
}
