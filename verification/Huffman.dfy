/** Canonical Huffman codes as section 3.2.2 of RFC 1951 defines them, the count/symbol
    tables of puff.c, and the proof that walking such a table decodes the canonical code. */
module Huffman {
  import opened Bits

  const MAXBITS: nat := 15

  /** Code lengths by symbol; 0 means the symbol has no code. */
  predicate IsLengths(lengths: seq<nat>) {
    forall s | 0 <= s < |lengths| :: lengths[s] <= MAXBITS
  }

  // ---------------------------------------------------------------- the canonical code

  /** How many of the first `n` symbols have length `len`. */
  function CountUpTo(lengths: seq<nat>, len: nat, n: nat): nat
    requires n <= |lengths|
  {
    if n == 0 then 0 else CountUpTo(lengths, len, n - 1) + (if lengths[n - 1] == len then 1 else 0)
  }

  function Count(lengths: seq<nat>, len: nat): nat {
    CountUpTo(lengths, len, |lengths|)
  }

  /** `next_code[len]`: the smallest code of length `len`. */
  function FirstCode(lengths: seq<nat>, len: nat): nat {
    if len <= 1 then 0 else 2 * (FirstCode(lengths, len - 1) + Count(lengths, len - 1))
  }

  /** The code of symbol `s`: codes of one length are consecutive in symbol order. */
  function Codeword(lengths: seq<nat>, s: nat): nat
    requires s < |lengths|
  {
    FirstCode(lengths, lengths[s]) + CountUpTo(lengths, lengths[s], s)
  }

  /** The bits of `src` from position `p` start with the codeword of `s`. */
  predicate Matches(lengths: seq<nat>, src: seq<byte>, p: nat, s: nat) {
    && s < |lengths|
    && lengths[s] > 0
    && p + lengths[s] <= 8 * |src|
    && CodeAt(src, p, lengths[s]) == Codeword(lengths, s)
  }

  datatype Decoded = Symbol(sym: nat, next: nat) | NoCode | OutOfInput

  /** What decoding one symbol at `p` means, with no table: the symbol whose codeword comes
      next; with none, an invalid code once MAXBITS bits are there, otherwise too little input. */
  ghost function Decode(lengths: seq<nat>, src: seq<byte>, p: nat): (d: Decoded)
    ensures d.Symbol? ==> d.sym < |lengths| && p < d.next <= 8 * |src|
  {
    if s: nat :| Matches(lengths, src, p, s) then Symbol(s, p + lengths[s])
    else if p + MAXBITS <= 8 * |src| then NoCode
    else OutOfInput
  }

  lemma {:induction false} CountMonotone(lengths: seq<nat>, len: nat, i: nat, j: nat)
    requires i <= j <= |lengths|
    ensures CountUpTo(lengths, len, i) <= CountUpTo(lengths, len, j)
    ensures i < j && lengths[i] == len ==> CountUpTo(lengths, len, i) < CountUpTo(lengths, len, j)
    decreases j - i
  {
    if i < j {
      CountMonotone(lengths, len, i, j - 1);
    }
  }

  /** A code of length `j` seen at `p` keeps every longer reading below the longer first codes. */
  lemma {:induction false} LongerIsBelow(lengths: seq<nat>, src: seq<byte>, p: nat, j: nat, l: nat)
    requires 1 <= j < l && p + l <= 8 * |src|
    requires CodeAt(src, p, j) < FirstCode(lengths, j) + Count(lengths, j)
    ensures CodeAt(src, p, l) < FirstCode(lengths, l)
    decreases l
  {
    if l > j + 1 {
      LongerIsBelow(lengths, src, p, j, l - 1);
    }
  }

  /** The canonical code is prefix free: at most one symbol matches. */
  lemma {:induction false} MatchUnique(lengths: seq<nat>, src: seq<byte>, p: nat, s: nat, t: nat)
    requires Matches(lengths, src, p, s) && Matches(lengths, src, p, t)
    ensures s == t
  {
    var a, b := lengths[s], lengths[t];
    CountMonotone(lengths, a, s, |lengths|);
    CountMonotone(lengths, b, t, |lengths|);
    if a < b {
      LongerIsBelow(lengths, src, p, a, b);
    } else if b < a {
      LongerIsBelow(lengths, src, p, b, a);
    } else if s < t {
      CountMonotone(lengths, a, s, t);
    } else if t < s {
      CountMonotone(lengths, a, t, s);
    }
  }

  /** `Decode` yields a symbol exactly when its codeword comes next, and consumes exactly it. */
  lemma {:induction false} DecodeIff(lengths: seq<nat>, src: seq<byte>, p: nat, s: nat, next: nat)
    ensures Decode(lengths, src, p) == Symbol(s, next)
            <==> Matches(lengths, src, p, s) && next == p + lengths[s]
  {
    if t: nat :| Matches(lengths, src, p, t) && Decode(lengths, src, p) == Symbol(t, p + lengths[t]) {
      if Matches(lengths, src, p, s) {
        MatchUnique(lengths, src, p, s, t);
      }
    }
  }

  // ---------------------------------------------------------------- Kraft sums

  /** Sum over the first `n` symbols with a code of at most `len` bits of 2^(len - length). */
  function KraftTo(lengths: seq<nat>, n: nat, len: nat): nat
    requires n <= |lengths|
  {
    if n == 0 then 0 else
      var share := if 0 < lengths[n - 1] <= len then Pow2(len - lengths[n - 1]) else 0;
      KraftTo(lengths, n - 1, len) + share
  }

  /** The Kraft sum scaled by 2^MAXBITS. */
  function Kraft(lengths: seq<nat>): nat {
    KraftTo(lengths, |lengths|, MAXBITS)
  }

  predicate NoCodes(lengths: seq<nat>) {
    forall s | 0 <= s < |lengths| :: lengths[s] == 0
  }

  /** The codes still free after the codes of up to `len` bits, as `construct` counts them. */
  function Left(lengths: seq<nat>, len: nat): int {
    if len == 0 then 1 else 2 * Left(lengths, len - 1) - Count(lengths, len)
  }

  lemma {:induction false} KraftStep(lengths: seq<nat>, n: nat, len: nat)
    requires n <= |lengths|
    ensures KraftTo(lengths, n, len + 1) == 2 * KraftTo(lengths, n, len) + CountUpTo(lengths, len + 1, n)
    decreases n
  {
    if n > 0 {
      KraftStep(lengths, n - 1, len);
    }
  }

  lemma {:induction false} KraftZero(lengths: seq<nat>, n: nat)
    requires n <= |lengths|
    ensures KraftTo(lengths, n, 0) == 0
  {
    if n > 0 {
      KraftZero(lengths, n - 1);
    }
  }

  /** The codes left are what the Kraft sum leaves, and the end of the canonical codes. */
  lemma {:induction false} LeftIsKraft(lengths: seq<nat>, len: nat)
    ensures Left(lengths, len) == Pow2(len) - KraftTo(lengths, |lengths|, len)
    ensures len >= 1 ==> Left(lengths, len) == Pow2(len) - (FirstCode(lengths, len) + Count(lengths, len))
    decreases len
  {
    if len == 0 {
      KraftZero(lengths, |lengths|);
    } else {
      LeftIsKraft(lengths, len - 1);
      KraftStep(lengths, |lengths|, len - 1);
    }
  }

  lemma {:induction false} LeftStaysNegative(lengths: seq<nat>, len: nat, l: nat)
    requires len <= l && Left(lengths, len) < 0
    ensures Left(lengths, l) < 0
    decreases l
  {
    if len < l {
      LeftStaysNegative(lengths, len, l - 1);
    }
  }

  lemma {:induction false} CodeAtBound(src: seq<byte>, p: nat, n: nat)
    requires p + n <= 8 * |src|
    ensures CodeAt(src, p, n) < Pow2(n)
    decreases n
  {
    if n > 0 {
      CodeAtBound(src, p, n - 1);
    }
  }

  // ---------------------------------------------------------------- count/symbol tables

  datatype Table = Table(count: seq<nat>, symbol: seq<nat>)

  /** Number of codes shorter than `len` bits. */
  function Offset(lengths: seq<nat>, len: nat): nat {
    if len <= 1 then 0 else Offset(lengths, len - 1) + Count(lengths, len - 1)
  }

  /** Where symbol `s` stands when symbols are sorted by length, then by value. */
  function Slot(lengths: seq<nat>, s: nat): nat
    requires s < |lengths|
  {
    Offset(lengths, lengths[s]) + CountUpTo(lengths, lengths[s], s)
  }

  ghost predicate CountsFor(lengths: seq<nat>, count: seq<nat>) {
    && |count| == MAXBITS + 1
    && forall len {:trigger count[len]} | 0 <= len <= MAXBITS :: count[len] == Count(lengths, len)
  }

  ghost predicate IsTable(lengths: seq<nat>, t: Table) {
    && CountsFor(lengths, t.count)
    && (forall s {:trigger Slot(lengths, s)} | 0 <= s < |lengths| && lengths[s] > 0 ::
          Slot(lengths, s) < |t.symbol| && t.symbol[Slot(lengths, s)] == s)
  }

  datatype Step = Hit(len: nat, index: nat) | NoHit | Starved

  /** One pass of the decoding loop over the counts, from the bit at `p` on. */
  function Walk(count: seq<nat>, src: seq<byte>, p: nat, len: nat, code: nat, first: nat, index: nat): Step
    requires |count| == MAXBITS + 1 && 1 <= len && first <= code
    decreases |count| - len
  {
    if len > MAXBITS then NoHit
    else if p >= 8 * |src| then Starved
    else
      var code' := code + Bit(src, p);
      if code' - count[len] < first then Hit(len, index + (code' - first))
      else Walk(count, src, p + 1, len + 1, 2 * code', 2 * (first + count[len]), index + count[len])
  }

  /** The `k`-th symbol of length `len` exists while `k` is below the count. */
  lemma {:induction false} NthSymbol(lengths: seq<nat>, len: nat, n: nat, k: nat) returns (s: nat)
    requires n <= |lengths| && k < CountUpTo(lengths, len, n)
    ensures s < n && lengths[s] == len && CountUpTo(lengths, len, s) == k
    decreases n
  {
    if k == CountUpTo(lengths, len, n - 1) {
      s := n - 1;
    } else {
      s := NthSymbol(lengths, len, n - 1, k);
    }
  }

  /** No codeword of up to `len` bits is at `p`. */
  ghost predicate PastAll(lengths: seq<nat>, src: seq<byte>, p: nat, len: nat) {
    p + len <= 8 * |src| && forall j | 1 <= j <= len :: Beyond(lengths, src, p, j)
  }

  ghost predicate Beyond(lengths: seq<nat>, src: seq<byte>, p: nat, len: nat)
    requires p + len <= 8 * |src|
  {
    CodeAt(src, p, len) >= FirstCode(lengths, len) + Count(lengths, len)
  }

  /** What the outcome of a walk says about the codewords at `p`. */
  ghost predicate Explains(lengths: seq<nat>, src: seq<byte>, p: nat, w: Step) {
    match w
    case Hit(len, index) =>
      exists s: nat :: Matches(lengths, src, p, s) && lengths[s] == len && index == Slot(lengths, s)
    case NoHit => PastAll(lengths, src, p, MAXBITS)
    case Starved => exists q: nat :: q < MAXBITS && p + q == 8 * |src| && PastAll(lengths, src, p, q)
  }

  lemma {:induction false} HitExplained(lengths: seq<nat>, src: seq<byte>, p: nat, len: nat)
    requires 1 <= len && p + len <= 8 * |src|
    requires FirstCode(lengths, len) <= CodeAt(src, p, len) < FirstCode(lengths, len) + Count(lengths, len)
    ensures Explains(lengths, src, p,
                     Hit(len, Offset(lengths, len) + (CodeAt(src, p, len) - FirstCode(lengths, len))))
  {
    var s := NthSymbol(lengths, len, |lengths|, CodeAt(src, p, len) - FirstCode(lengths, len));
    assert Matches(lengths, src, p, s);
  }

  lemma {:induction false} WalkFrom(lengths: seq<nat>, count: seq<nat>, src: seq<byte>, p: nat, len: nat,
                                    code: nat, first: nat, index: nat, w: Step)
    requires CountsFor(lengths, count)
    requires 1 <= len <= MAXBITS + 1 && PastAll(lengths, src, p, len - 1)
    requires code == 2 * CodeAt(src, p, len - 1)
    requires first == FirstCode(lengths, len) && index == Offset(lengths, len)
    requires first <= code && w == Walk(count, src, p + len - 1, len, code, first, index)
    ensures Explains(lengths, src, p, w)
    decreases MAXBITS + 1 - len
  {
    if len > MAXBITS {
      assert w == NoHit;
    } else if p + len - 1 == 8 * |src| {
      StarvedExplained(lengths, src, p, len - 1);
    } else {
      var code' := code + Bit(src, p + len - 1);
      if code' - count[len] < first {
        HitExplained(lengths, src, p, len);
      } else {
        assert Beyond(lengths, src, p, len);
        assert PastAll(lengths, src, p, len);
        WalkFrom(lengths, count, src, p, len + 1, 2 * code', 2 * (first + count[len]), index + count[len], w);
      }
    }
  }

  lemma {:induction false} StarvedExplained(lengths: seq<nat>, src: seq<byte>, p: nat, q: nat)
    requires q < MAXBITS && p + q == 8 * |src| && PastAll(lengths, src, p, q)
    ensures Explains(lengths, src, p, Starved)
  {
  }

  /** Past every code of `len` bits, no symbol of up to `len` bits matches. */
  lemma {:induction false} PastAllNoMatch(lengths: seq<nat>, src: seq<byte>, p: nat, len: nat, s: nat)
    requires PastAll(lengths, src, p, len) && Matches(lengths, src, p, s)
    ensures lengths[s] > len
  {
    if lengths[s] <= len {
      assert Beyond(lengths, src, p, lengths[s]);
    }
    CountMonotone(lengths, lengths[s], s, |lengths|);
  }

  /** Walking the table of a length list is decoding its canonical code: same symbol, same number
      of bits, same invalid codes, same shortage; and the walk stays inside the symbol table. */
  lemma {:induction false} WalkIsDecode(lengths: seq<nat>, t: Table, src: seq<byte>, p: nat)
    requires IsLengths(lengths) && IsTable(lengths, t)
    ensures |t.count| == MAXBITS + 1
    ensures match Walk(t.count, src, p, 1, 0, 0, 0)
            case Hit(len, index) =>
              index < |t.symbol| && Decode(lengths, src, p) == Symbol(t.symbol[index], p + len)
            case NoHit => Decode(lengths, src, p) == NoCode
            case Starved => Decode(lengths, src, p) == OutOfInput
  {
    if p <= 8 * |src| {
      var w := Walk(t.count, src, p, 1, 0, 0, 0);
      WalkFrom(lengths, t.count, src, p, 1, 0, 0, 0, w);
      match w
      case Hit(len, index) =>
        var s: nat :| Matches(lengths, src, p, s) && lengths[s] == len && index == Slot(lengths, s);
        DecodeIff(lengths, src, p, s, p + len);
      case NoHit =>
        NothingMatches(lengths, src, p, MAXBITS);
      case Starved =>
        var q: nat :| q < MAXBITS && p + q == 8 * |src| && PastAll(lengths, src, p, q);
        NothingMatches(lengths, src, p, q);
    }
  }

  lemma {:induction false} NothingMatches(lengths: seq<nat>, src: seq<byte>, p: nat, len: nat)
    requires IsLengths(lengths) && PastAll(lengths, src, p, len)
    requires len == MAXBITS || p + len == 8 * |src|
    ensures !exists s: nat :: Matches(lengths, src, p, s)
  {
    forall s: nat | Matches(lengths, src, p, s) ensures false {
      PastAllNoMatch(lengths, src, p, len, s);
    }
  }

  /** A complete code never meets an invalid codeword. */
  lemma {:induction false} CompleteNeverNoCode(lengths: seq<nat>, t: Table, src: seq<byte>, p: nat)
    requires IsLengths(lengths) && IsTable(lengths, t)
    requires Kraft(lengths) == Pow2(MAXBITS)
    ensures Decode(lengths, src, p) != NoCode
  {
    WalkIsDecode(lengths, t, src, p);
    if Decode(lengths, src, p) == NoCode {
      WalkFrom(lengths, t.count, src, p, 1, 0, 0, 0, NoHit);
      CompleteNotBeyond(lengths, src, p);
    }
  }

  lemma {:induction false} CompleteNotBeyond(lengths: seq<nat>, src: seq<byte>, p: nat)
    requires p + MAXBITS <= 8 * |src|
    requires Kraft(lengths) == Pow2(MAXBITS)
    ensures !Beyond(lengths, src, p, MAXBITS)
  {
    LeftIsKraft(lengths, MAXBITS);
    CodeAtBound(src, p, MAXBITS);
  }
}
