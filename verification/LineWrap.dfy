/** Wrapping encoded text at a width, a piece at a time (src/uu/base_common/src/lib.rs 349-391). */
module LineWrap {
  import opened Bytes

  /** Lines of `width` bytes, the last one maybe shorter, each with its newline; width 0 is no wrapping. */
  function Wrapped(e: bytes, width: nat): bytes {
    if width == 0 then e
    else if e == [] then []
    else if |e| <= width then e + [LF]
    else e[..width] + [LF] + Wrapped(e[width..], width)
  }

  /** The complete lines of `e`. */
  function FullLines(e: bytes, width: nat): bytes
    requires width > 0
  {
    if |e| < width then [] else e[..width] + [LF] + FullLines(e[width..], width)
  }

  /** What is left after them. */
  function Unfinished(e: bytes, width: nat): (r: bytes)
    requires width > 0
    ensures |r| < width
  {
    if |e| < width then e else Unfinished(e[width..], width)
  }

  lemma NextLine(e: bytes, width: nat)
    requires width > 0
    ensures if |e| < width then FullLines(e, width) == [] && Unfinished(e, width) == e
            else
              && FullLines(e, width) == e[..width] + [LF] + FullLines(e[width..], width)
              && Unfinished(e, width) == Unfinished(e[width..], width)
  {}

  lemma {:induction false} LinesGrow(e: bytes, more: bytes, width: nat)
    requires width > 0
    ensures FullLines(e + more, width) == FullLines(e, width) + FullLines(Unfinished(e, width) + more, width)
    ensures Unfinished(e + more, width) == Unfinished(Unfinished(e, width) + more, width)
    decreases |e|
  {
    if |e| >= width {
      assert (e + more)[..width] == e[..width] && (e + more)[width..] == e[width..] + more;
      LinesGrow(e[width..], more, width);
    }
  }

  /** Wrapping is the complete lines and the rest, which gets a newline only if there is one. */
  lemma {:induction false} WrappedIsLines(e: bytes, width: nat)
    requires width > 0
    ensures Wrapped(e, width)
            == FullLines(e, width) + (var r := Unfinished(e, width); if r == [] then [] else r + [LF])
    decreases |e|
  {
    if |e| >= width {
      assert e == e[..width] + e[width..];
      WrappedIsLines(e[width..], width);
      if |e| == width {
        assert e[width..] == [] && e[..width] == e;
      }
    }
  }

  /** Number of newlines: one for each line begun, and none at width 0. */
  lemma {:induction false} LinesBegun(e: bytes, width: nat)
    ensures |Wrapped(e, width)| == |e| + if width == 0 then 0 else (|e| + width - 1) / width
    ensures width == 0 ==> Wrapped(e, width) == e
    decreases |e|
  {
    if width > 0 && e != [] {
      if |e| > width {
        LinesBegun(e[width..], width);
      }
      OneLineFewer(|e|, width);
    } else if width > 0 {
      NoLines(width);
    }
  }

  lemma NoLines(width: nat)
    requires width > 0
    ensures (0 + width - 1) / width == 0
  {}

  lemma OneLineFewer(n: nat, width: nat)
    requires n > 0 && width > 0
    ensures (n + width - 1) / width == 1 + if n <= width then 0 else (n - width + width - 1) / width
  {
    DivideStep(n - 1, width);
  }

  lemma {:induction false} DivideStep(n: nat, width: nat)
    requires width > 0
    ensures (n + width) / width == n / width + 1
    ensures n < width ==> n / width == 0
  {
    var q, q' := n / width, (n + width) / width;
    assert (q + 1 - q') * width == (n + width) % width - n % width by {
      assert n == q * width + n % width && n + width == q' * width + (n + width) % width;
    }
    SmallMultiple(q + 1 - q', width);
  }

  predicate IsBreak(b: byte) {
    b == LF || b == CR
  }

  function WithoutBreaks(text: bytes): bytes {
    if text == [] then []
    else (if IsBreak(text[0]) then [] else [text[0]]) + WithoutBreaks(text[1..])
  }

  lemma {:induction false} WithoutBreaksAppend(a: bytes, b: bytes)
    ensures WithoutBreaks(a + b) == WithoutBreaks(a) + WithoutBreaks(b)
    decreases |a|
  {
    if a == [] {
      assert a + b == b;
    } else {
      assert (a + b)[1..] == a[1..] + b;
      WithoutBreaksAppend(a[1..], b);
    }
  }

  lemma {:induction false} NoBreaksToDrop(e: bytes)
    requires forall i :: 0 <= i < |e| ==> !IsBreak(e[i])
    ensures WithoutBreaks(e) == e
    decreases |e|
  {
    if e != [] {
      NoBreaksToDrop(e[1..]);
    }
  }

  lemma LineWithoutBreak(line: bytes)
    requires forall i :: 0 <= i < |line| ==> !IsBreak(line[i])
    ensures WithoutBreaks(line + [LF]) == line
  {
    NoBreaksToDrop(line);
    WithoutBreaksAppend(line, [LF]);
    assert WithoutBreaks([LF]) == [];
  }

  /** Wrapping only adds newlines: without them the text is as before. */
  lemma {:induction false} UnwrapWrapped(e: bytes, width: nat)
    requires forall i :: 0 <= i < |e| ==> !IsBreak(e[i])
    ensures WithoutBreaks(Wrapped(e, width)) == e
    decreases |e|
  {
    NoBreaksToDrop(e);
    if width > 0 && e != [] {
      if |e| <= width {
        hide WithoutBreaks;
        LineWithoutBreak(e);
      } else {
        hide WithoutBreaks, IsBreak;
        var line, rest := e[..width], e[width..];
        assert e == line + rest;
        UnwrapWrapped(rest, width);
        LineWithoutBreak(line);
        WithoutBreaksAppend(line + [LF], Wrapped(rest, width));
      }
    }
  }

  /** Every line is full but the last, and no two newlines meet. */
  lemma {:induction false} NewlinePositions(e: bytes, width: nat, i: nat)
    requires width > 0 && i < |Wrapped(e, width)| && forall k :: 0 <= k < |e| ==> !IsBreak(e[k])
    ensures Wrapped(e, width)[i] == LF <==> i % (width + 1) == width || i == |Wrapped(e, width)| - 1
    decreases |e|
  {
    if i <= width {
      BelowModulus(i, width + 1);
    } else {
      ModuloStep(i, width + 1);
    }
    if |e| <= width {
      assert Wrapped(e, width) == e + [LF];
    } else {
      var rest := e[width..];
      assert forall k :: 0 <= k < |rest| ==> rest[k] == e[k + width];
      FirstLine(e, width, i);
      if i > width {
        NewlinePositions(rest, width, i - width - 1);
      }
    }
  }

  lemma FirstLine(e: bytes, width: nat, i: nat)
    requires 0 < width < |e| && i < |Wrapped(e, width)|
    ensures var more := Wrapped(e[width..], width);
            && more != [] && |Wrapped(e, width)| == width + 1 + |more|
            && Wrapped(e, width)[i] == if i < width then e[i] else if i == width then LF else more[i - width - 1]
  {}

  lemma BelowModulus(i: nat, m: nat)
    requires i < m
    ensures i % m == i
  {}

  lemma {:induction false} ModuloStep(i: nat, m: nat)
    requires i >= m > 0
    ensures i % m == (i - m) % m
  {
    var q, r, q' := (i - m) / m, (i - m) % m, i / m;
    assert i - m == q * m + r && i == q' * m + i % m;
    assert (q + 1 - q') * m == i % m - r by {
      assert (q + 1 - q') * m == q * m + m - q' * m;
    }
    SmallMultiple(q + 1 - q', m);
  }

  /** A multiple of `m` within `m` of zero is zero. */
  lemma SmallMultiple(k: int, m: int)
    requires -m < k * m < m
    ensures k == 0
  {}
}
