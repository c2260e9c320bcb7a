/**
  What csplit does, as a fold over the lines it takes in
  (src/uu/csplit/src/csplit.rs and patterns.rs). Lines are known by their numbers,
  counted from 0.
*/
module CsplitSpec {
  import opened Bytes

  /** A line with its terminator; a pattern matches the line without it. */
  type Regex = bytes -> bool

  datatype Execute = Always | Times(n: nat)

  datatype Pattern =
    | UpToLine(n: nat, ex: Execute)
    | UpToMatch(regex: Regex, offset: int, ex: Execute)
    | SkipToMatch(regex: Regex, offset: int, ex: Execute)

  datatype Options = Options(keepFiles: bool, elideEmptyFiles: bool, suppressMatched: bool)

  datatype Error =
    | LineOutOfRange
    | LineOutOfRangeOnRepetition(times: int)
    | MatchNotFound
    | MatchNotFoundOnRepetition(times: int)
    | LineNumberIsZero
    | LineNumberSmallerThanPrevious(current: nat, previous: nat)

  // ----- lines -----

  function LineEnd(input: bytes): (n: nat)
    requires input != []
    ensures 0 < n <= |input|
    ensures forall i :: 0 <= i < n - 1 ==> input[i] != LF
    ensures n < |input| ==> input[n - 1] == LF
  {
    if input[0] == LF || |input| == 1 then 1 else 1 + LineEnd(input[1..])
  }

  /** The lines of the input, each with its newline. */
  function Lines(input: bytes): (lines: seq<bytes>)
    ensures Concat(lines) == input
    ensures forall i :: 0 <= i < |lines| ==>
              lines[i] != [] && forall k :: 0 <= k < |lines[i]| - 1 ==> lines[i][k] != LF
    ensures forall i :: 0 <= i < |lines| - 1 ==> lines[i] != [] && lines[i][|lines[i]| - 1] == LF
  {
    if input == [] then []
    else
      var n := LineEnd(input);
      assert input == input[..n] + input[n..];
      [input[..n]] + Lines(input[n..])
  }

  function StripNewline(line: bytes): bytes {
    if line == [] || line[|line| - 1] != LF then line
    else if |line| > 1 && line[|line| - 2] == CR then line[..|line| - 2]
    else line[..|line| - 1]
  }

  predicate IsMatch(regex: Regex, line: bytes) {
    regex(StripNewline(line))
  }

  /** The first matching line at or after `from`. */
  function FirstMatch(lines: seq<bytes>, regex: Regex, from: nat): (m: Option<nat>)
    requires from <= |lines|
    ensures m.None? ==> forall i :: from <= i < |lines| ==> !IsMatch(regex, lines[i])
    ensures m.Some? ==> from <= m.value < |lines| && IsMatch(regex, lines[m.value])
                        && forall i :: from <= i < m.value ==> !IsMatch(regex, lines[i])
    decreases |lines| - from
  {
    if from == |lines| then None
    else if IsMatch(regex, lines[from]) then Some(from)
    else FirstMatch(lines, regex, from + 1)
  }

  // ----- numbered lines -----

  function Max(a: int, b: int): int {
    if a < b then b else a
  }

  /** The numbers from `from` up to `end`. */
  function Range(from: nat, end: nat): (r: seq<nat>)
    ensures |r| == Max(0, end - from)
  {
    if end <= from then [] else seq(end - from, (i: nat) => from + i)
  }

  lemma RangeJoin(from: nat, mid: nat, end: nat)
    requires from <= mid <= end
    ensures Range(from, end) == Range(from, mid) + Range(mid, end)
  {}

  lemma RangeSnoc(from: nat, end: nat)
    requires from <= end
    ensures Range(from, end + 1) == Range(from, end) + [end]
  {}

  lemma RangeSlice(from: nat, end: nat, i: nat, j: nat)
    requires i <= j <= |Range(from, end)|
    ensures Range(from, end)[i..j] == Range(from + i, from + j)
  {}

  /** The text of the lines with these numbers. */
  function TextAt(lines: seq<bytes>, numbers: seq<nat>): bytes
    decreases |numbers|
  {
    if numbers == [] then []
    else
      var last := numbers[|numbers| - 1];
      TextAt(lines, numbers[..|numbers| - 1]) + if last < |lines| then lines[last] else []
  }

  lemma TextSnoc(lines: seq<bytes>, numbers: seq<nat>, n: nat)
    requires n < |lines|
    ensures TextAt(lines, numbers + [n]) == TextAt(lines, numbers) + lines[n]
  {
    assert (numbers + [n])[..|numbers|] == numbers;
  }

  lemma {:induction false} TextAppend(lines: seq<bytes>, a: seq<nat>, b: seq<nat>)
    ensures TextAt(lines, a + b) == TextAt(lines, a) + TextAt(lines, b)
    decreases |b|
  {
    if b == [] {
      assert a + b == a;
      assert TextAt(lines, a) + [] == TextAt(lines, a);
    } else {
      var front, last := b[..|b| - 1], b[|b| - 1];
      assert (a + b)[..|a + b| - 1] == a + front;
      TextAppend(lines, a, front);
      var text := if last < |lines| then lines[last] else [];
      assert TextAt(lines, a) + (TextAt(lines, front) + text) == TextAt(lines, a) + TextAt(lines, front) + text;
    }
  }

  // ----- one round -----

  /**
    The look-ahead: lines held back, in the order in which they will be read again, the
    first line not yet pulled from the reader, and whether held lines are read first.
  */
  datatype Look = Look(held: seq<nat>, pulled: nat, rewound: bool)

  ghost predicate Proper(lines: seq<bytes>, l: Look) {
    l.pulled <= |lines| && forall i :: 0 <= i < |l.held| ==> l.held[i] < l.pulled
  }

  const START := Look([], 0, false)

  /** All the lines to come once the held ones are read again. */
  function Stream(lines: seq<bytes>, l: Look): seq<nat> {
    l.held + Range(l.pulled, |lines|)
  }

  /** The look-ahead after `k` lines of that stream. */
  function Ahead(l: Look, k: nat): Look {
    if k <= |l.held| then Look(l.held[k..], l.pulled, true) else Look([], l.pulled + k - |l.held|, false)
  }

  function PutBack(l: Look, n: nat): Look {
    l.(held := [n] + l.held)
  }

  function AllRead(lines: seq<bytes>): Look {
    Look([], |lines|, false)
  }

  datatype Outcome = Done | Err(error: Error) | Hangs

  /** Lines written, lines left out behind them, what is looked at next, and how the round ended. */
  datatype Step = Step(out: seq<nat>, dropped: seq<nat>, next: Look, outcome: Outcome)

  /** The first line of the stream that is not below line number `n`. */
  function Reach(s: seq<nat>, n: nat): (k: nat)
    ensures k <= |s| && (forall i :: 0 <= i < k ==> s[i] + 1 < n) && (k < |s| ==> s[k] + 1 >= n)
    decreases |s|
  {
    if s == [] || s[0] + 1 >= n then 0
    else
      var k := Reach(s[1..], n);
      assert forall i :: 0 < i < 1 + k ==> s[i] == s[1..][i - 1];
      1 + k
  }

  /** Up to line number `n`, which goes back unless it is the matched line to suppress. */
  function LineStep(lines: seq<bytes>, l: Look, n: nat, suppress: bool): Step {
    var s := Stream(lines, l);
    var k := Reach(s, n);
    if k == |s| then Step(s, [], AllRead(lines), Err(LineOutOfRange))
    else if suppress && s[k] + 1 == n then Step(s[..k], [s[k]], Ahead(l, k + 1), Done)
    else Step(s[..k], [], PutBack(Ahead(l, k + 1), s[k]), Done)
  }

  /** A negative offset searches the held lines and not the reader. */
  predicate Stuck(l: Look, offset: int) {
    offset < 0 && l.rewound && l.held != []
  }

  /** A regex: the first match not pulled before, moved by the offset. */
  function MatchStep(lines: seq<bytes>, l: Look, regex: Regex, offset: int, suppress: bool): Step
    requires Proper(lines, l)
  {
    if Stuck(l, offset) then StuckStep(lines, l, regex, -offset)
    else
      match FirstMatch(lines, regex, l.pulled)
      case None => Step(Stream(lines, l), [], AllRead(lines), Err(MatchNotFound))
      case Some(m) =>
        if offset < 0 then WindowStep(l, m, -offset, suppress) else OffsetStep(lines, l, m, offset, suppress)
  }

  /** From zero up: past the match, with one more line left out when suppressing. */
  function OffsetStep(lines: seq<bytes>, l: Look, m: nat, offset: nat, suppress: bool): Step {
    var at := m + offset;
    if at > |lines| then Step(Stream(lines, l), [], AllRead(lines), Err(LineOutOfRange))
    else
      var out := l.held + Range(l.pulled, at);
      if offset == 0 then
        if suppress then Step(out, [m], Look([], m + 1, false), Done) else Step(out, [], Look([m], m + 1, false), Done)
      else if suppress && at < |lines| then Step(out, [at], Look([], at + 1, false), Done)
      else Step(out, [], Look([], at, false), Done)
  }

  /** Below zero: the last `keep` lines before the match stay, or one less when suppressing. */
  function WindowStep(l: Look, m: nat, keep: nat, suppress: bool): Step {
    CloseWindow(l.held + Range(l.pulled, m), m, keep, suppress)
  }

  function CloseWindow(w: seq<nat>, m: nat, keep: nat, suppress: bool): Step {
    var over := Max(0, |w| - keep);
    var dropped := if suppress && |w| >= keep > 0 then 1 else 0;
    var held := w[over + dropped..] + [m];
    Step(w[..over], w[over..over + dropped], Look(held, m + 1, false),
         if |held| < keep then Err(LineOutOfRange) else Done)
  }

  /** Only the first held line is looked at: it is read again without end, or goes in front of the last others. */
  function StuckStep(lines: seq<bytes>, l: Look, regex: Regex, keep: nat): Step
    requires Proper(lines, l) && l.held != []
  {
    if !IsMatch(regex, lines[l.held[0]]) then Step([], [], l, Hangs)
    else
      var rest := l.held[1..];
      var over := Max(0, |rest| - keep);
      var held := [l.held[0]] + rest[over..];
      Step(rest[..over], [], l.(held := held), if |held| < keep then Err(LineOutOfRange) else Done)
  }

  lemma LineStepProper(lines: seq<bytes>, l: Look, n: nat, suppress: bool)
    requires Proper(lines, l)
    ensures var s := LineStep(lines, l, n, suppress);
            Proper(lines, s.next) && (s.outcome.Done? ==> n <= |lines|)
  {
    var s := Stream(lines, l);
    var k := Reach(s, n);
    hide Reach;
    if k < |s| {
      assert k >= |l.held| ==> s[k] == l.pulled + (k - |l.held|);
    }
  }

  /** A regex round that succeeds pulls a line, spills held ones, or changes nothing. */
  lemma MatchStepProper(lines: seq<bytes>, l: Look, regex: Regex, offset: int, suppress: bool)
    requires Proper(lines, l)
    ensures var s := MatchStep(lines, l, regex, offset, suppress);
            && Proper(lines, s.next)
            && (s.outcome.Done? ==>
                  || l.pulled < s.next.pulled
                  || (l.pulled == s.next.pulled && |s.next.held| < |l.held|)
                  || s.next == l)
  {
    hide FirstMatch, IsMatch, StuckStep, WindowStep, OffsetStep, Proper;
    if Stuck(l, offset) {
      StuckProper(lines, l, regex, -offset);
    } else {
      ReaderProper(lines, l);
      var m := FirstMatch(lines, regex, l.pulled);
      if m.Some? && offset < 0 {
        WindowProper(lines, l, m.value, -offset, suppress);
      } else if m.Some? {
        OffsetProper(lines, l, m.value, offset, suppress);
      }
    }
  }

  lemma ReaderProper(lines: seq<bytes>, l: Look)
    requires Proper(lines, l)
    ensures l.pulled <= |lines| && Proper(lines, AllRead(lines))
  {}

  lemma OffsetProper(lines: seq<bytes>, l: Look, m: nat, offset: nat, suppress: bool)
    requires Proper(lines, l) && l.pulled <= m < |lines|
    ensures var s := OffsetStep(lines, l, m, offset, suppress);
            Proper(lines, s.next) && (s.outcome.Done? ==> l.pulled < s.next.pulled)
  {}

  lemma StuckProper(lines: seq<bytes>, l: Look, regex: Regex, keep: nat)
    requires Proper(lines, l) && l.rewound && l.held != []
    ensures var s := StuckStep(lines, l, regex, keep);
            && Proper(lines, s.next) && l.pulled == s.next.pulled
            && (|s.next.held| < |l.held| || s.next == l)
  {
    hide IsMatch;
    if keep >= |l.held| - 1 {
      assert [l.held[0]] + l.held[1..][0..] == l.held;
    }
  }

  lemma WindowProper(lines: seq<bytes>, l: Look, m: nat, keep: nat, suppress: bool)
    requires Proper(lines, l) && l.pulled <= m < |lines|
    ensures var next := WindowStep(l, m, keep, suppress).next;
            Proper(lines, next) && l.pulled < next.pulled
  {}

  // ----- a whole run -----

  /** What one round wrote and left out, and whether it was kept. */
  datatype Piece = Piece(lines: seq<nat>, dropped: seq<nat>, kept: bool)

  /** How the rounds ended: with more to come, with the run over, with an error, or not at all. */
  datatype End = GoOn | Finished | Failed(error: Error) | Endless

  /** `smooth`: every search was entered in a state in which it keeps its promise (`Safe`). */
  datatype Run = Run(pieces: seq<Piece>, look: Look, end: End, smooth: bool)

  function Join(pieces: seq<Piece>, smooth: bool, run: Run): Run {
    run.(pieces := pieces + run.pieces, smooth := smooth && run.smooth)
  }

  /**
    What a caller can check before a search: a negative offset that meets held lines
    needs the first of them to match and the others not to be more than it reaches back;
    repeated without limit, it also needs so few of them that the search fails.
  */
  predicate Safe(lines: seq<bytes>, l: Look, regex: Regex, offset: int, max: Option<nat>)
    requires Proper(lines, l)
  {
    Stuck(l, offset) ==>
      IsMatch(regex, lines[l.held[0]]) && |l.held| - 1 <= -offset && (max.None? ==> |l.held| < -offset)
  }

  /** Rounds left: `None` is as many as possible. */
  function LineRounds(lines: seq<bytes>, l: Look, n: nat, upTo: nat, left: Option<nat>, ith: nat, suppress: bool): Run
    requires Proper(lines, l) && n > 0
    decreases if left.Some? then left.value else Max(0, |lines| + 1 - upTo)
  {
    if left == Some(0) then Run([], l, GoOn, true)
    else
      LineStepProper(lines, l, upTo, suppress);
      var s := LineStep(lines, l, upTo, suppress);
      var piece := Piece(s.out, s.dropped, true);
      if s.outcome.Done? then
        var left' := if left.None? then None else Some(left.value - 1);
        Join([piece], true, LineRounds(lines, s.next, n, upTo + n, left', ith + 1, suppress))
      else
        Run([piece], s.next, Failed(if ith == 1 then LineOutOfRange else LineOutOfRangeOnRepetition(ith - 1)), true)
  }

  /** Why a regex round that fails ends the run, or `None` when it may. */
  function RoundError(error: Error, max: Option<nat>, ith: nat): Option<Error> {
    if error.MatchNotFound? && max.None? then None
    else if error.MatchNotFound? && max != Some(1) && ith != 1 then Some(MatchNotFoundOnRepetition(ith - 1))
    else Some(error)
  }

  function MatchRounds(lines: seq<bytes>, l: Look, regex: Regex, offset: int, kept: bool,
                       max: Option<nat>, ith: nat, suppress: bool): Run
    requires Proper(lines, l) && ith > 0
    decreases if max.Some? then Max(0, max.value + 1 - ith) else |lines| - l.pulled, |l.held|
  {
    if max.Some? && ith > max.value then Run([], l, GoOn, true)
    else
      MatchStepProper(lines, l, regex, offset, suppress);
      var s := MatchStep(lines, l, regex, offset, suppress);
      var pieces, safe := [Piece(s.out, s.dropped, kept)], Safe(lines, l, regex, offset, max);
      match s.outcome
      case Hangs => Run(pieces, s.next, Endless, safe)
      case Err(error) =>
        (match RoundError(error, max, ith)
         case None => Run(pieces, s.next, Finished, safe)
         case Some(e) => Run(pieces, s.next, Failed(e), safe))
      case Done =>
        if max.None? && s.next == l then Run(pieces, l, Endless, safe)
        else Join(pieces, safe, MatchRounds(lines, s.next, regex, offset, kept, max, ith + 1, suppress))
  }

  function Limit(ex: Execute): Option<nat> {
    match ex case Always => None case Times(n) => Some(n)
  }

  ghost predicate Validated(patterns: seq<Pattern>) {
    forall i :: 0 <= i < |patterns| && patterns[i].UpToLine? ==> patterns[i].n > 0
  }

  function PatternRounds(lines: seq<bytes>, l: Look, p: Pattern, suppress: bool): Run
    requires Proper(lines, l) && (p.UpToLine? ==> p.n > 0)
  {
    match p
    case UpToLine(n, ex) => LineRounds(lines, l, n, n, Limit(ex), 1, suppress)
    case UpToMatch(regex, offset, ex) => MatchRounds(lines, l, regex, offset, true, Limit(ex), 1, suppress)
    case SkipToMatch(regex, offset, ex) => MatchRounds(lines, l, regex, offset, false, Limit(ex), 1, suppress)
  }

  function RunPatterns(lines: seq<bytes>, l: Look, patterns: seq<Pattern>, suppress: bool): Run
    requires Proper(lines, l) && Validated(patterns)
    decreases |patterns|
  {
    if patterns == [] then Run([], l, GoOn, true)
    else
      var rounds := PatternRounds(lines, l, patterns[0], suppress);
      if !rounds.end.GoOn? then rounds
      else
        PatternRoundsProper(lines, l, patterns[0], suppress);
        Join(rounds.pieces, rounds.smooth, RunPatterns(lines, rounds.look, patterns[1..], suppress))
  }

  // ----- the look-ahead stays proper -----

  lemma {:induction false} LineRoundsProper(lines: seq<bytes>, l: Look, n: nat, upTo: nat, left: Option<nat>,
                                            ith: nat, suppress: bool)
    requires Proper(lines, l) && n > 0
    ensures Proper(lines, LineRounds(lines, l, n, upTo, left, ith, suppress).look)
    decreases if left.Some? then left.value else Max(0, |lines| + 1 - upTo)
  {
    hide LineStep, MatchStep, Proper;
    if left != Some(0) {
      LineStepProper(lines, l, upTo, suppress);
      var s := LineStep(lines, l, upTo, suppress);
      if s.outcome.Done? {
        var left' := if left.None? then None else Some(left.value - 1);
        LineRoundsProper(lines, s.next, n, upTo + n, left', ith + 1, suppress);
      }
    }
  }

  lemma {:induction false} MatchRoundsProper(lines: seq<bytes>, l: Look, regex: Regex, offset: int, kept: bool,
                                             max: Option<nat>, ith: nat, suppress: bool)
    requires Proper(lines, l) && ith > 0
    ensures Proper(lines, MatchRounds(lines, l, regex, offset, kept, max, ith, suppress).look)
    decreases if max.Some? then Max(0, max.value + 1 - ith) else |lines| - l.pulled, |l.held|
  {
    MatchStepProper(lines, l, regex, offset, suppress);
    hide MatchStep, LineStep, Safe, Proper;
    if !(max.Some? && ith > max.value) {
      var s := MatchStep(lines, l, regex, offset, suppress);
      if s.outcome.Done? && !(max.None? && s.next == l) {
        MatchRoundsProper(lines, s.next, regex, offset, kept, max, ith + 1, suppress);
      }
    }
  }

  lemma PatternRoundsProper(lines: seq<bytes>, l: Look, p: Pattern, suppress: bool)
    requires Proper(lines, l) && (p.UpToLine? ==> p.n > 0)
    ensures Proper(lines, PatternRounds(lines, l, p, suppress).look)
  {
    match p
    case UpToLine(n, ex) => LineRoundsProper(lines, l, n, n, Limit(ex), 1, suppress);
    case UpToMatch(regex, offset, ex) => MatchRoundsProper(lines, l, regex, offset, true, Limit(ex), 1, suppress);
    case SkipToMatch(regex, offset, ex) => MatchRoundsProper(lines, l, regex, offset, false, Limit(ex), 1, suppress);
  }
}
