/** The bit buffer of puff.c against the bit stream: how loading a byte, popping a bit and the turns
    of the two decoding loops keep buffer, position and partial code in step. */
module BitReader {
  import opened Bits
  import opened Huffman

  /** Loading the next byte on top of `n` buffered bits. */
  lemma {:induction false} LoadByte(src: seq<byte>, p: nat, n: nat, k: nat)
    requires p + n == 8 * k && k < |src|
    ensures BitsAt(src, p, n + 8) == BitsAt(src, p, n) + src[k] * Pow2(n)
  {
    hide *;
    BitsAtSplit(src, p, n, 8);
    ByteAt(src, k);
  }

  /** `bitbuf` holds the `bitcnt < 8` bits before the next unread byte. */
  ghost predicate BufferOk(src: seq<byte>, incnt: nat, bitbuf: nat, bitcnt: nat) {
    && incnt <= |src| && bitcnt < 8 && bitcnt <= 8 * incnt
    && bitbuf == BitsAt(src, 8 * incnt - bitcnt, bitcnt)
  }

  lemma {:induction false} BufferFacts(src: seq<byte>, incnt: nat, bitbuf: nat, bitcnt: nat)
    requires BufferOk(src, incnt, bitbuf, bitcnt)
    ensures incnt <= |src| && bitcnt < 8 && bitcnt <= 8 * incnt
  {
  }

  // ---------------------------------------------------------------- steps of the decoding loops

  /** The reader after a decode from `p` that should give `d`: just past the codeword of a symbol;
      with an invalid code only the count of bytes read means anything. */
  ghost predicate Ended(src: seq<byte>, d: Decoded, p: nat, r: Option<int>, incnt: nat, bitbuf: nat, bitcnt: nat) {
    match d
    case Symbol(s, next) => r == Some(s) && BufferOk(src, incnt, bitbuf, bitcnt) && 8 * incnt - bitcnt == next
    case NoCode => r == Some(-10) && incnt == (p + MAXBITS + 7) / 8
    case OutOfInput => r == None
  }

  /** What the end `w` of a walk from `p` over the table `t` says about the decoded symbol `d`. */
  ghost predicate Tells(w: Step, t: Table, p: nat, d: Decoded) {
    match w
    case Hit(len, index) => index < |t.symbol| && d == Symbol(t.symbol[index], p + len)
    case NoHit => d == NoCode
    case Starved => d == OutOfInput
  }

  /** The walk from `p` that ends in `w` has got to length `len` with these variables. */
  ghost predicate Walking(count: seq<nat>, src: seq<byte>, w: Step, p: nat,
                          len: nat, code: nat, first: nat, index: nat)
  {
    && |count| == MAXBITS + 1 && 1 <= len && first <= code
    && w == Walk(count, src, p + len - 1, len, code, first, index)
  }

  lemma {:induction false} StartWalk(lengths: seq<nat>, t: Table, src: seq<byte>, p: nat) returns (w: Step)
    requires IsLengths(lengths) && IsTable(lengths, t)
    ensures Tells(w, t, p, Decode(lengths, src, p)) && Walking(t.count, src, w, p, 1, 0, 0, 0)
    ensures |t.count| == MAXBITS + 1
  {
    w := Walk(t.count, src, p, 1, 0, 0, 0);
    WalkIsDecode(lengths, t, src, p);
  }

  /** One turn of the loop, with the bit it consumes. */
  lemma {:induction false} NextBit(count: seq<nat>, src: seq<byte>, w: Step, p: nat, len: nat, code: nat, first: nat,
                                   index: nat)
    requires Walking(count, src, w, p, len, code, first, index) && len <= MAXBITS
    ensures ReadBits(src, p + len - 1, 1).None? ==> w == Starved
    ensures ReadBits(src, p + len - 1, 1).Some? ==>
              var code' := code + ReadBits(src, p + len - 1, 1).value;
              if code' - count[len] < first then code' >= first && w == Hit(len, index + (code' - first))
              else Walking(count, src, w, p, len + 1, 2 * code', 2 * (first + count[len]), index + count[len])
  {
    if p + len - 1 < 8 * |src| {
      OneBit(src, p + len - 1);
    }
  }

  lemma {:induction false} WalkOver(count: seq<nat>, src: seq<byte>, w: Step, p: nat, code: nat, first: nat, index: nat)
    requires Walking(count, src, w, p, MAXBITS + 1, code, first, index)
    ensures w == NoHit
  {
  }

  /** The state of the fast loop: `buf` holds the bits from the current one to the end of the last
      byte read, and `left` says how many of them may still be tried. */
  ghost predicate Draining(count: seq<nat>, src: seq<byte>, w: Step, p: nat, bitcnt: nat,
                           len: int, code: int, first: int, index: int, incnt: nat, buf: int, left: int)
  {
    && 0 <= len && 0 <= code && 0 <= first && 0 <= index && 0 <= left
    && Walking(count, src, w, p, len, code, first, index)
    && (p + bitcnt) % 8 == 0 && incnt <= |src| && len <= MAXBITS + 1
    && p + len - 1 <= 8 * incnt <= p + len - 1 + 8
    && (len > MAXBITS ==> 8 * incnt < p + len - 1 + 8)
    && buf == BitsAt(src, p + len - 1, 8 * incnt - (p + len - 1))
    && left == Min(8 * incnt - (p + len - 1), MAXBITS + 1 - len)
  }

  lemma {:induction false} StartDraining(count: seq<nat>, src: seq<byte>, w: Step, p: nat, incnt: nat, bitbuf: nat,
                                         bitcnt: nat)
    requires BufferOk(src, incnt, bitbuf, bitcnt) && p == 8 * incnt - bitcnt
    requires Walking(count, src, w, p, 1, 0, 0, 0)
    ensures Draining(count, src, w, p, bitcnt, 1, 0, 0, 0, incnt, bitbuf, bitcnt)
  {
  }

  lemma {:induction false} DrainingFacts(count: seq<nat>, src: seq<byte>, w: Step, p: nat, bitcnt: nat,
                                         len: int, code: int, first: int, index: int, incnt: nat, buf: int, left: int)
    requires Draining(count, src, w, p, bitcnt, len, code, first, index, incnt, buf, left)
    ensures left >= 0 && |count| == MAXBITS + 1
  {
  }

  lemma {:induction false} Drain(t: Table, src: seq<byte>, w: Step, p: nat, d: Decoded, bitcnt: nat,
                                 len: int, code: int, first: int, index: int, incnt: nat, buf: int, left: int)
    requires Tells(w, t, p, d) && left > 0
    requires Draining(t.count, src, w, p, bitcnt, len, code, first, index, incnt, buf, left)
    ensures 1 <= len <= MAXBITS && |t.count| == MAXBITS + 1 && 0 <= buf
    ensures var code' := code + buf % 2;
            if code' - t.count[len] < first then
              && 0 <= index + (code' - first) < |t.symbol|
              && Ended(src, d, p, Some(t.symbol[index + (code' - first)]), incnt, buf / 2, (bitcnt - len) % 8)
            else
              Draining(t.count, src, w, p, bitcnt, len + 1, 2 * code', 2 * (first + t.count[len]),
                       index + t.count[len], incnt, buf / 2, left - 1)
  {
    hide Walk, BitsAt;
    NextBit(t.count, src, w, p, len, code, first, index);
    PopBit(src, p + len - 1, 8 * incnt - (p + len - 1));
    OneBit(src, p + len - 1);
    Remaining(p, bitcnt, len, incnt);
  }

  lemma {:induction false} Refill(t: Table, src: seq<byte>, w: Step, p: nat, d: Decoded, bitcnt: nat,
                                  len: int, code: int, first: int, index: int, incnt: nat, buf: int, bitbuf: nat)
    requires Tells(w, t, p, d)
    requires Draining(t.count, src, w, p, bitcnt, len, code, first, index, incnt, buf, 0)
    ensures len <= MAXBITS + 1
    ensures len == MAXBITS + 1 ==> Ended(src, d, p, Some(-10), incnt, bitbuf, bitcnt)
    ensures len <= MAXBITS && incnt == |src| ==> Ended(src, d, p, None, incnt, bitbuf, bitcnt)
    ensures len <= MAXBITS && incnt < |src| ==>
              Draining(t.count, src, w, p, bitcnt, len, code, first, index, incnt + 1, src[incnt],
                       Min(8, MAXBITS + 1 - len))
  {
    if len <= MAXBITS && incnt < |src| {
      ByteAt(src, incnt);
    }
  }

  lemma {:induction false} PopBit(src: seq<byte>, p: nat, n: nat)
    requires 0 < n && p + n <= 8 * |src|
    ensures BitsAt(src, p, n) % 2 == Bit(src, p) && BitsAt(src, p, n) / 2 == BitsAt(src, p + 1, n - 1)
  {
    hide Bit;
  }

  function Min(a: int, b: int): int { if a <= b then a else b }

  lemma {:induction false} OneBit(src: seq<byte>, p: nat)
    requires p < 8 * |src|
    ensures BitsAt(src, p, 1) == Bit(src, p)
  {
    assert BitsAt(src, p + 1, 0) == 0;
  }

  /** `(bitcnt - len) & 7` is the number of bits left of the last byte read. */
  lemma {:induction false} Remaining(p: nat, bitcnt: nat, len: nat, incnt: nat)
    requires p + len <= 8 * incnt < p + len + 8 && (p + bitcnt) % 8 == 0
    ensures (bitcnt - len) % 8 == 8 * incnt - (p + len)
  {
  }
}
