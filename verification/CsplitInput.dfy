/** The rewindable look-ahead over the input lines (`InputSplitter` in csplit.rs). */
module CsplitInput {
  import opened Bytes
  import opened CsplitSpec

  type Numbered = (nat, bytes)

  function Numbers(buffer: seq<Numbered>): (r: seq<nat>)
    ensures |r| == |buffer|
  {
    seq(|buffer|, i requires 0 <= i < |buffer| => buffer[i].0)
  }

  function Texts(buffer: seq<Numbered>): bytes
    decreases |buffer|
  {
    if buffer == [] then [] else Texts(buffer[..|buffer| - 1]) + buffer[|buffer| - 1].1
  }

  ghost predicate Genuine(lines: seq<bytes>, buffer: seq<Numbered>) {
    forall i :: 0 <= i < |buffer| ==> buffer[i].0 < |lines| && buffer[i].1 == lines[buffer[i].0]
  }

  lemma {:induction false} TextsAre(lines: seq<bytes>, buffer: seq<Numbered>)
    requires Genuine(lines, buffer)
    ensures Texts(buffer) == TextAt(lines, Numbers(buffer))
    decreases |buffer|
  {
    if buffer != [] {
      var front := buffer[..|buffer| - 1];
      TextsAre(lines, front);
      assert Numbers(buffer)[..|buffer| - 1] == Numbers(front);
    }
  }

  lemma NumbersOf(a: seq<Numbered>, b: seq<Numbered>)
    ensures Numbers(a + b) == Numbers(a) + Numbers(b)
  {}

  lemma NumbersSlice(a: seq<Numbered>, from: nat)
    requires from <= |a|
    ensures Numbers(a[from..]) == Numbers(a)[from..] && Numbers(a[..from]) == Numbers(a)[..from]
  {}

  class InputSplitter {
    const lines: seq<bytes>
    var pulled: nat
    var buffer: seq<Numbered>
    var size: nat
    var rewind: bool

    constructor (lines: seq<bytes>)
      ensures this.lines == lines && Valid() && State() == START
    {
      this.lines := lines;
      pulled, buffer, size, rewind := 0, [], 1, false;
    }

    /** Held lines are lines of the input that were pulled from the reader. */
    ghost predicate Valid()
      reads this
    {
      Genuine(lines, buffer) && Proper(lines, Look(Numbers(buffer), pulled, rewind))
    }

    ghost function State(): (l: Look)
      reads this
      ensures Valid() ==> Proper(lines, l)
      ensures l.pulled == pulled && l.rewound == rewind
    {
      Look(Numbers(buffer), pulled, rewind)
    }

    method RewindBuffer()
      requires Valid()
      modifies this`rewind
      ensures Valid() && State() == old(State()).(rewound := true)
    {
      rewind := true;
    }

    method SetSizeOfBuffer(n: nat)
      modifies this`size
      ensures size == n && State() == old(State()) && (old(Valid()) ==> Valid())
    {
      size := n;
    }

    /** Drops the oldest lines above the set size and returns their text. */
    method ShrinkBufferToSize() returns (text: bytes)
      requires Valid()
      modifies this`buffer
      ensures var held := old(State().held);
              var over := Max(0, |held| - size);
              Valid() && text == TextAt(lines, held[..over]) && State() == old(State()).(held := held[over..])
    {
      var over := if |buffer| > size then |buffer| - size else 0;
      TextsAre(lines, buffer[..over]);
      NumbersSlice(buffer, over);
      text := Texts(buffer[..over]);
      buffer := buffer[over..];
    }

    method DrainBuffer() returns (text: bytes)
      requires Valid()
      modifies this`buffer
      ensures Valid() && text == TextAt(lines, old(State().held)) && State() == old(State()).(held := [])
    {
      TextsAre(lines, buffer);
      text := Texts(buffer);
      buffer := [];
      assert Numbers([]) == [];
    }

    /** Pushes a line, or puts it in front while rewinding; a full buffer gives up its head. */
    method AddLineToBuffer(ln: nat, line: bytes) returns (head: Option<bytes>)
      requires Valid() && ln < pulled && line == lines[ln] && size > 0
      modifies this`buffer
      ensures Valid()
      ensures var l := old(State());
              if l.rewound then head == None && State() == PutBack(l, ln)
              else if |l.held| < size then head == None && State() == l.(held := l.held + [ln])
              else head == Some(lines[l.held[0]]) && State() == l.(held := l.held[1..] + [ln])
    {
      ghost var b := buffer;
      assert Numbers([(ln, line)]) == [ln];
      if rewind {
        NumbersOf([(ln, line)], b);
        buffer := [(ln, line)] + buffer;
        return None;
      } else if |buffer| >= size {
        NumbersSlice(b, 1);
        NumbersOf(b[1..], [(ln, line)]);
        head := Some(buffer[0].1);
        buffer := buffer[1..] + [(ln, line)];
      } else {
        NumbersOf(b, [(ln, line)]);
        buffer := buffer + [(ln, line)];
        return None;
      }
    }

    method Snapshot() returns (l: Look)
      ensures l == State()
    {
      l := Look(Numbers(buffer), pulled, rewind);
    }

    method BufferLen() returns (n: nat)
      ensures n == |State().held|
    {
      n := |buffer|;
    }

    /** The next line: the first held one while rewinding, else the reader's. */
    method Next() returns (item: Option<Numbered>)
      requires Valid()
      modifies this`pulled, this`buffer, this`rewind
      ensures Valid() && (item.Some? ==> item.value.0 < pulled)
      ensures var l := old(State());
              if l.rewound && l.held != [] then
                item == Some((l.held[0], lines[l.held[0]])) && State() == l.(held := l.held[1..])
              else if l.pulled < |lines| then
                item == Some((l.pulled, lines[l.pulled])) && State() == Look(l.held, l.pulled + 1, false)
              else item == None && State() == Look(l.held, l.pulled, false)
    {
      if rewind {
        if buffer != [] {
          NumbersSlice(buffer, 1);
          assert Numbers(buffer)[0] == buffer[0].0;
          item := Some(buffer[0]);
          buffer := buffer[1..];
          return;
        }
        rewind := false;
      }
      if pulled == |lines| {
        return None;
      }
      item := Some((pulled, lines[pulled]));
      pulled := pulled + 1;
    }

    /** Reading on from a rewound buffer gives the stream in order. */
    method NextOf(ghost l: Look, ghost k: nat) returns (item: Option<Numbered>)
      requires Valid() && Proper(lines, l) && k <= |Stream(lines, l)| && State() == Ahead(l, k)
      modifies this`pulled, this`buffer, this`rewind
      ensures Valid()
      ensures var s := Stream(lines, l);
              if k < |s| then
                s[k] < |lines| && item == Some((s[k], lines[s[k]])) && State() == Ahead(l, k + 1)
                && s[k] < pulled
              else item == None && State() == AllRead(lines)
    {
      item := Next();
    }
  }
}
