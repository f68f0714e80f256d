/** Bytes, words and pages, powers of two, and the bit stream that a byte sequence spells,
    least significant bit of each byte first (section 3.1.1 of RFC 1951). */
module Bits {

  type byte = x: int | 0 <= x < 256

  const WORD32: nat := 0x1_0000_0000
  const WORD64: nat := 0x1_0000_0000_0000_0000
  const PAGE: nat := 4096

  type word64 = x: int | 0 <= x < WORD64

  datatype Option<+T> = None | Some(value: T)

  function Pow2(n: nat): (r: nat)
    ensures r >= 1
  {
    if n == 0 then 1 else 2 * Pow2(n - 1)
  }

  /** The bit at position `p` of the stream. */
  function Bit(src: seq<byte>, p: nat): (b: nat)
    requires p < 8 * |src|
    ensures b <= 1
  {
    ByteBit(src[p / 8], p % 8)
  }

  /** Bit `j` of a byte, bit 0 the lowest. */
  function ByteBit(x: nat, j: nat): (b: nat)
    ensures b <= 1
    decreases j
  {
    if j == 0 then x % 2 else ByteBit(x / 2, j - 1)
  }

  /** The `n` bits from position `p`, read as a number whose lowest bit comes first. */
  function BitsAt(src: seq<byte>, p: nat, n: nat): nat
    requires p + n <= 8 * |src|
    decreases |src|, n
  {
    if n == 0 then 0 else Bit(src, p) + 2 * BitsAt(src, p + 1, n - 1)
  }

  /** The `n` bits from position `p`, read as a number whose highest bit comes first. */
  function CodeAt(src: seq<byte>, p: nat, n: nat): nat
    requires p + n <= 8 * |src|
    decreases |src|, n
  {
    if n == 0 then 0 else 2 * CodeAt(src, p, n - 1) + Bit(src, p + n - 1)
  }

  /** A bounded read: `None` when the stream ends before `n` bits. */
  function ReadBits(src: seq<byte>, p: nat, n: nat): Option<nat> {
    if p + n <= 8 * |src| then Some(BitsAt(src, p, n)) else None
  }

  lemma {:induction false} BitsAtBound(src: seq<byte>, p: nat, n: nat)
    requires p + n <= 8 * |src|
    ensures BitsAt(src, p, n) < Pow2(n)
    decreases n
  {
    if n > 0 {
      BitsAtBound(src, p + 1, n - 1);
    }
  }

  lemma {:induction false} BitsAtSplit(src: seq<byte>, p: nat, a: nat, b: nat)
    requires p + a + b <= 8 * |src|
    ensures BitsAt(src, p, a + b) == BitsAt(src, p, a) + Pow2(a) * BitsAt(src, p + a, b)
    decreases a
  {
    if a > 0 {
      BitsAtSplit(src, p + 1, a - 1, b);
      var lo, hi := BitsAt(src, p + 1, a - 1), BitsAt(src, p + a, b);
      assert p + 1 + (a - 1) == p + a && a + b - 1 == a - 1 + b;
      calc {
        BitsAt(src, p, a + b);
        Bit(src, p) + 2 * BitsAt(src, p + 1, a - 1 + b);
        Bit(src, p) + 2 * (lo + Pow2(a - 1) * hi);
        { Regroup(lo, Pow2(a - 1), hi); }
        Bit(src, p) + 2 * lo + (2 * Pow2(a - 1)) * hi;
        BitsAt(src, p, a) + Pow2(a) * hi;
      }
    }
  }

  lemma {:induction false} Regroup(x: int, m: int, y: int)
    ensures 2 * (x + m * y) == 2 * x + (2 * m) * y
  {
  }

  /** Quotient and remainder are unique. */
  lemma {:induction false} DivUnique(a: int, m: int, q: int, r: int)
    requires 0 <= r < m && a == m * q + r
    ensures a / m == q && a % m == r
  {
    var d := q - a / m;
    assert m * d == m * q - m * (a / m);
    assert a == m * (a / m) + a % m;
    assert m * d == a % m - r;
    if d != 0 {
      MulAtLeast(m, d);
    }
  }

  lemma {:induction false} MulAtLeast(m: int, d: int)
    requires m > 0 && d != 0
    ensures d >= 1 ==> m * d >= m
    ensures d <= -1 ==> m * d <= -m
    decreases if d > 0 then d else -d
  {
    if d > 1 {
      MulAtLeast(m, d - 1);
      assert m * d == m * (d - 1) + m;
    } else if d < -1 {
      MulAtLeast(m, d + 1);
      assert m * d == m * (d + 1) - m;
    }
  }

  /** Dropping the low `a` bits of `a + b` bits leaves the last `b`; keeping them leaves the first `a`. */
  lemma {:induction false} BitsAtDrop(src: seq<byte>, p: nat, a: nat, b: nat)
    requires p + a + b <= 8 * |src|
    ensures BitsAt(src, p, a + b) / Pow2(a) == BitsAt(src, p + a, b)
    ensures BitsAt(src, p, a + b) % Pow2(a) == BitsAt(src, p, a)
  {
    BitsAtSplit(src, p, a, b);
    BitsAtBound(src, p, a);
    DivUnique(BitsAt(src, p, a + b), Pow2(a), BitsAt(src, p + a, b), BitsAt(src, p, a));
  }

  /** Eight bits from a byte boundary are that byte. */
  lemma {:induction false} ByteAt(src: seq<byte>, k: nat)
    requires k < |src|
    ensures BitsAt(src, 8 * k, 8) == src[k]
  {
    TailOfByte(src, k, 0);
    assert 8 * k + 0 == 8 * k;
  }

  function Shifted(x: nat, j: nat): nat {
    if j == 0 then x else Shifted(x, j - 1) / 2
  }

  lemma {:induction false} ShiftedStep(x: nat, j: nat)
    ensures Shifted(x / 2, j) == Shifted(x, j) / 2
    ensures ByteBit(x, j) == Shifted(x, j) % 2
  {
    if j > 0 {
      ShiftedStep(x, j - 1);
      ShiftedStep(x / 2, j - 1);
    }
  }

  lemma {:induction false} TailOfByte(src: seq<byte>, k: nat, j: nat)
    requires k < |src| && j <= 8
    ensures BitsAt(src, 8 * k + j, 8 - j) == Shifted(src[k], j)
    decreases 8 - j
  {
    if j < 8 {
      TailOfByte(src, k, j + 1);
      assert (8 * k + j) / 8 == k && (8 * k + j) % 8 == j;
      ShiftedStep(src[k], j);
    } else {
      ByteGone(src[k]);
    }
  }

  lemma {:induction false} ByteGone(x: byte)
    ensures Shifted(x, 8) == 0
  {
    assert Shifted(x, 1) < 128 && Shifted(x, 2) < 64 && Shifted(x, 3) < 32 && Shifted(x, 4) < 16;
    assert Shifted(x, 5) < 8 && Shifted(x, 6) < 4 && Shifted(x, 7) < 2;
  }

  /** Two sources that share their first `k` bytes read the same within those bytes. */
  lemma {:induction false} BitsAtPrefix(src: seq<byte>, src': seq<byte>, k: nat, p: nat, n: nat)
    requires k <= |src| && k <= |src'| && src[..k] == src'[..k]
    requires p + n <= 8 * k
    ensures BitsAt(src, p, n) == BitsAt(src', p, n)
    decreases n
  {
    if n > 0 {
      assert src[p / 8] == src[..k][p / 8] == src'[p / 8];
      BitsAtPrefix(src, src', k, p + 1, n - 1);
    }
  }

  lemma {:induction false} CodeAtPrefix(src: seq<byte>, src': seq<byte>, k: nat, p: nat, n: nat)
    requires k <= |src| && k <= |src'| && src[..k] == src'[..k]
    requires p + n <= 8 * k
    ensures CodeAt(src, p, n) == CodeAt(src', p, n)
    decreases n
  {
    if n > 0 {
      var q := p + n - 1;
      assert src[q / 8] == src[..k][q / 8] == src'[q / 8];
      CodeAtPrefix(src, src', k, p, n - 1);
    }
  }
}
