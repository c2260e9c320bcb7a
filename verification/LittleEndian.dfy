/** Fixed-width little-endian integers, truncating as Rust's `as u32` does. */
module LittleEndian {
  import opened Bytes

  const TWO_32: nat := 0x1_0000_0000
  const TWO_64: nat := 0x1_0000_0000_0000_0000

  function Digit(n: nat): byte {
    (n % 256) as byte
  }

  function Le32(n: nat): (r: bytes)
    ensures |r| == 4
  {
    [Digit(n), Digit(n / 0x100), Digit(n / 0x1_0000), Digit(n / 0x100_0000)]
  }

  function Le64(n: nat): (r: bytes)
    ensures |r| == 8
  {
    Le32(n) + Le32(n / TWO_32)
  }

  function Read32(b: bytes, at: nat): (n: nat)
    requires at + 4 <= |b|
    ensures n < TWO_32
  {
    b[at] as nat + 0x100 * b[at + 1] as nat + 0x1_0000 * b[at + 2] as nat + 0x100_0000 * b[at + 3] as nat
  }

  function Read64(b: bytes, at: nat): (n: nat)
    requires at + 8 <= |b|
    ensures n < TWO_64
  {
    Read32(b, at) + TWO_32 * Read32(b, at + 4)
  }

  lemma {:induction false} Read32Le32(n: nat)
    ensures Read32(Le32(n), 0) == n % TWO_32
  {
    Digits(n);
  }

  lemma Digits(n: nat)
    ensures n % 0x100 + 0x100 * (n / 0x100 % 0x100) + 0x1_0000 * (n / 0x1_0000 % 0x100)
            + 0x100_0000 * (n / 0x100_0000 % 0x100) == n % TWO_32
  {
    var a, b, c := n / 0x100, n / 0x1_0000, n / 0x100_0000;
    assert n == 0x100 * a + n % 0x100;
    assert a == 0x100 * b + a % 0x100;
    assert b == 0x100 * c + b % 0x100;
    assert c == 0x100 * (n / TWO_32) + c % 0x100;
  }

  /** Reading looks only at the bytes it names. */
  lemma Read32Slice(b: bytes, at: nat, lo: nat, hi: nat)
    requires lo <= at && at + 4 <= hi <= |b|
    ensures Read32(b, at) == Read32(b[lo..hi], at - lo)
  {}

  lemma {:induction false} Read32At(b: bytes, at: nat, n: nat)
    requires at + 4 <= |b| && b[at..at + 4] == Le32(n)
    ensures Read32(b, at) == n % TWO_32
  {
    Read32Slice(b, at, at, at + 4);
    Read32Le32(n);
  }

  lemma {:induction false} Read64At(b: bytes, at: nat, n: nat)
    requires at + 8 <= |b| && b[at..at + 8] == Le64(n) && n < TWO_64
    ensures Read64(b, at) == n
  {
    hide Le32, Read32;
    assert b[at..at + 4] == b[at..at + 8][..4] == Le32(n);
    assert b[at + 4..at + 8] == b[at..at + 8][4..] == Le32(n / TWO_32);
    Read32At(b, at, n);
    Read32At(b, at + 4, n / TWO_32);
  }

  // ----- tables of fixed-width rows -----

  ghost predicate Rows(rows: seq<bytes>, width: nat) {
    forall i :: 0 <= i < |rows| ==> |rows[i]| == width
  }

  lemma {:induction false} TableLength(rows: seq<bytes>, width: nat)
    requires Rows(rows, width)
    ensures |Concat(rows)| == |rows| * width
  {
    if rows != [] {
      TableLength(rows[1..], width);
      assert |rows| * width == width + (|rows| - 1) * width;
    }
  }

  lemma TableRow(rows: seq<bytes>, width: nat, i: nat)
    requires Rows(rows, width) && i < |rows|
    ensures |Concat(rows)| == |rows| * width && i * width + width <= |Concat(rows)|
    ensures Concat(rows)[i * width..i * width + width] == rows[i]
  {
    hide Concat;
    TableLength(rows, width);
    TableLength(rows[..i], width);
    ConcatSplit(rows, i);
    assert (i + 1) * width <= |rows| * width by {
      assert (|rows| - i - 1) * width >= 0;
    }
  }
}
