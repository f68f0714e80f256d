/** Streams written by the rules of RFC 1951 and what inflating them gives. The writer picks symbols, extra bits and
    the fixed codes by arithmetic, not from the decoder's tables. */
module DeflateRoundTrip {
  import opened Bits
  import opened Huffman
  import opened Deflate
  import opened PuffTheorems
  import opened Puff

  type bit = x: int | 0 <= x <= 1

  // ---------------------------------------------------------------- the tables, by arithmetic (section 3.2.5)

  /** Length symbols 0 to 27 come in groups of four, each with one more extra bit and twice the offset of the group
      before; the first eight stand for one length each, the last symbol for the longest. */
  lemma {:induction false} LenTable(s: nat)
    requires s < 28
    ensures LenExtra(s) == if s < 8 then 0 else s / 4 - 1
    ensures s < 8 ==> LenBase(s) == 3 + s
    ensures s >= 8 ==> LenBase(s) - 3 == 2 * (LenBase(s - 4) - 3)
    ensures LenBase(28) == 258 && LenExtra(28) == 0
  {
    hide LenBase;
    LenBases(s);
  }

  lemma {:induction false} LenBases(s: nat)
    requires s < 28
    ensures s < 8 ==> LenBase(s) == 3 + s
    ensures s >= 8 ==> LenBase(s) - 3 == 2 * (LenBase(s - 4) - 3)
    ensures LenBase(28) == 258
  {
  }

  /** Distance symbols come in groups of two. */
  lemma {:induction false} DistTable(s: nat)
    requires s < 30
    ensures DistExtra(s) == if s < 4 then 0 else s / 2 - 1
    ensures s < 4 ==> DistBase(s) == 1 + s
    ensures s >= 4 ==> DistBase(s) - 1 == 2 * (DistBase(s - 2) - 1)
  {
    hide DistBase;
    DistBases(s);
  }

  lemma {:induction false} DistBases(s: nat)
    requires s < 30
    ensures s < 4 ==> DistBase(s) == 1 + s
    ensures s >= 4 ==> DistBase(s) - 1 == 2 * (DistBase(s - 2) - 1)
  {
  }

  /** Each length symbol goes on where the one before it ends. */
  lemma {:induction false} LenSteps(s: nat)
    requires s < 27
    ensures LenBase(0) == 3 && LenBase(s + 1) == LenBase(s) + Pow2(LenExtra(s))
    decreases s
  {
    hide LenBase, LenExtra;
    LenTable(0);
    LenTable(s);
    LenTable(s + 1);
    LenTable(4);
    if s >= 8 {
      LenTable(s - 4);
      LenSteps(s - 4);
    }
  }

  lemma {:induction false} DistSteps(s: nat)
    requires s < 29
    ensures DistBase(0) == 1 && DistBase(s + 1) == DistBase(s) + Pow2(DistExtra(s))
    decreases s
  {
    hide DistBase, DistExtra;
    DistTable(0);
    DistTable(s);
    DistTable(s + 1);
    DistTable(2);
    if s >= 4 {
      DistTable(s - 2);
      DistSteps(s - 2);
    }
  }

  /** The order of the code length code lengths: the three repeat symbols, 0, then from 8 outwards. */
  lemma {:induction false} OrderIs(i: nat)
    requires i < 19
    ensures Order(i) == if i < 3 then 16 + i else if i == 3 then 0
                        else if i % 2 == 0 then 8 + (i - 4) / 2 else 7 - (i - 5) / 2
  {
  }

  // ---------------------------------------------------------------- symbols and extra bits, by arithmetic

  /** A symbol, the number of its extra bits and their value. */
  datatype Choice = Choice(sym: nat, bits: nat, rest: nat)

  /** Numbers below `m` have symbols of their own; every doubling adds half as many and one extra bit. */
  function Choose(x: nat, m: nat): (c: Choice)
    requires m > 0
    ensures c.rest < Pow2(c.bits)
    decreases x
  {
    if x < m then Choice(x, 0, 0) else
    var c := Choose(x / 2, m);
    Choice(c.sym + m / 2, c.bits + 1, 2 * c.rest + x % 2)
  }

  function ChooseLen(len: nat): (c: Choice)
    requires 3 <= len <= 258
    ensures c.rest < Pow2(c.bits)
  {
    if len == 258 then Choice(28, 0, 0) else Choose(len - 3, 8)
  }

  function ChooseDist(dist: nat): (c: Choice)
    requires 1 <= dist <= 32768
    ensures c.rest < Pow2(c.bits)
  {
    Choose(dist - 1, 4)
  }

  lemma {:induction false} ChooseStep(x: nat, m: nat)
    requires m > 1
    ensures x < m ==> Choose(x, m) == Choice(x, 0, 0)
    ensures x >= m ==>
      var c := Choose(x / 2, m);
      Choose(x, m) == Choice(c.sym + m / 2, c.bits + 1, 2 * c.rest + x % 2) && (x < 2 * m ==> c.sym == x / 2)
  {
  }

  lemma {:induction false} ChooseLenIs(l: nat, k: nat)
    requires k <= 5 && l < 8 * Pow2(k)
    ensures var c := Choose(l, 8);
      && c.sym < 8 + 4 * k && (l >= 8 ==> c.sym >= 8)
      && LenExtra(c.sym) == c.bits && LenBase(c.sym) + c.rest == l + 3
    decreases k
  {
    hide LenBase, LenExtra, Choose;
    ChooseStep(l, 8);
    if l < 8 {
      LenTable(l);
    } else {
      ChooseLenIs(l / 2, k - 1);
      var c := Choose(l / 2, 8);
      LenTable(c.sym);
      LenTable(c.sym + 4);
    }
  }

  lemma {:induction false} ChooseDistIs(x: nat, k: nat)
    requires k <= 13 && x < 4 * Pow2(k)
    ensures var c := Choose(x, 4);
      && c.sym < 4 + 2 * k && (x >= 4 ==> c.sym >= 4)
      && DistExtra(c.sym) == c.bits && DistBase(c.sym) + c.rest == x + 1
    decreases k
  {
    hide DistBase, DistExtra, Choose;
    ChooseStep(x, 4);
    if x < 4 {
      DistTable(x);
    } else {
      ChooseDistIs(x / 2, k - 1);
      var c := Choose(x / 2, 4);
      DistTable(c.sym);
      DistTable(c.sym + 2);
    }
  }

  /** The decoder's tables take the writer's symbol and extra bits back to the length. */
  lemma {:induction false} LenPins(len: nat)
    requires 3 <= len <= 258
    ensures var c := ChooseLen(len);
      c.sym < 29 && LenExtra(c.sym) == c.bits && LenBase(c.sym) + c.rest == len
  {
    hide LenBase, LenExtra, Choose;
    if len == 258 {
      LenTable(0);
    } else {
      assert Pow2(5) == 32;
      ChooseLenIs(len - 3, 5);
    }
  }

  lemma {:induction false} DistPins(dist: nat)
    requires 1 <= dist <= 32768
    ensures var c := ChooseDist(dist);
      c.sym < 30 && DistExtra(c.sym) == c.bits && DistBase(c.sym) + c.rest == dist
  {
    hide DistBase, DistExtra, Choose;
    assert Pow2(13) == 8192;
    ChooseDistIs(dist - 1, 13);
  }

  // ---------------------------------------------------------------- bits

  /** The `n` low bits of `v`, lowest first, and highest first. */
  function Low(n: nat, v: nat): (w: seq<bit>)
    ensures |w| == n
  {
    if n == 0 then [] else [v % 2] + Low(n - 1, v / 2)
  }
  function High(n: nat, v: nat): (w: seq<bit>)
    ensures |w| == n
  {
    if n == 0 then [] else High(n - 1, v / 2) + [v % 2]
  }

  /** The stream reads `w` at `p`. */
  ghost predicate Says(src: seq<byte>, p: nat, w: seq<bit>) {
    p + |w| <= 8 * |src| && forall i | 0 <= i < |w| :: Bit(src, p + i) == w[i]
  }

  lemma {:induction false} SaysParts(src: seq<byte>, p: nat, a: seq<bit>, b: seq<bit>)
    requires Says(src, p, a + b)
    ensures Says(src, p, a) && Says(src, p + |a|, b)
  {
    hide Bit;
    var w := a + b;
    forall i | 0 <= i < |a|
      ensures Bit(src, p + i) == a[i]
    {
      assert w[i] == a[i];
    }
    forall i | 0 <= i < |b|
      ensures Bit(src, p + |a| + i) == b[i]
    {
      assert w[|a| + i] == b[i];
      assert p + (|a| + i) == p + |a| + i;
    }
  }

  lemma {:induction false} LowSays(src: seq<byte>, p: nat, n: nat, v: nat)
    requires Says(src, p, Low(n, v)) && v < Pow2(n)
    ensures BitsAt(src, p, n) == v
    decreases n
  {
    hide Bit;
    if n > 0 {
      SaysParts(src, p, [v % 2], Low(n - 1, v / 2));
      LowSays(src, p + 1, n - 1, v / 2);
      assert [v % 2][0] == v % 2;
      assert Bit(src, p + 0) == v % 2;
    }
  }

  lemma {:induction false} HighSays(src: seq<byte>, p: nat, n: nat, v: nat)
    requires Says(src, p, High(n, v)) && v < Pow2(n)
    ensures CodeAt(src, p, n) == v
    decreases n
  {
    hide Bit;
    if n > 0 {
      SaysParts(src, p, High(n - 1, v / 2), [v % 2]);
      HighSays(src, p, n - 1, v / 2);
      assert Bit(src, p + (n - 1) + 0) == [v % 2][0];
    }
  }

  lemma {:induction false} LowRead(src: seq<byte>, p: nat, n: nat, v: nat)
    requires Says(src, p, Low(n, v)) && v < Pow2(n)
    ensures ReadBits(src, p, n) == Some(v)
  {
    hide Bit, Low;
    LowSays(src, p, n, v);
  }

  // ---------------------------------------------------------------- symbols

  predicate Coded(lengths: seq<nat>, s: nat) { s < |lengths| && lengths[s] > 0 }

  /** The codeword of a symbol, highest bit first (section 3.1.1). */
  function Sym(lengths: seq<nat>, s: nat): (w: seq<bit>)
    requires Coded(lengths, s)
    ensures |w| == lengths[s]
  {
    High(lengths[s], Codeword(lengths, s))
  }

  /** Lengths that give every symbol a codeword of its own. */
  predicate IsCode(lengths: seq<nat>) { IsLengths(lengths) && Kraft(lengths) <= Pow2(MAXBITS) }

  lemma {:induction false} SymRead(lengths: seq<nat>, src: seq<byte>, p: nat, s: nat)
    requires IsCode(lengths) && Coded(lengths, s) && Says(src, p, Sym(lengths, s))
    ensures Decode(lengths, src, p) == Symbol(s, p + lengths[s])
  {
    hide Codeword, Bit, High, Kraft, Decode;
    CodewordFits(lengths, s);
    HighSays(src, p, lengths[s], Codeword(lengths, s));
    DecodeIff(lengths, src, p, s, p + lengths[s]);
  }

  // ---------------------------------------------------------------- literals and copies

  datatype Token = Literal(b: byte) | Copy(len: nat, dist: nat)

  predicate TokenOk(out: seq<byte>, t: Token) {
    t.Copy? ==> 3 <= t.len <= 258 && 1 <= t.dist <= 32768 && t.dist <= |out|
  }

  function Append(out: seq<byte>, t: Token): (r: seq<byte>)
    requires TokenOk(out, t)
    ensures |r| > |out|
  {
    match t
    case Literal(b) => out + [b]
    case Copy(len, dist) => CopyBack(out, dist, len)
  }

  predicate TokensOk(out: seq<byte>, ts: seq<Token>)
    decreases |ts|
  {
    ts == [] || (TokenOk(out, ts[0]) && TokensOk(Append(out, ts[0]), ts[1..]))
  }

  /** What the tokens stand for, behind `out`. */
  function Expand(out: seq<byte>, ts: seq<Token>): (r: seq<byte>)
    requires TokensOk(out, ts)
    ensures |r| >= |out|
    decreases |ts|
  {
    if ts == [] then out else Expand(Append(out, ts[0]), ts[1..])
  }

  /** Both codes have the symbols the token needs. */
  predicate TokenCoded(llen: seq<nat>, dlen: seq<nat>, t: Token) {
    match t
    case Literal(b) => Coded(llen, b)
    case Copy(len, dist) =>
      && 3 <= len <= 258 && 1 <= dist <= 32768
      && Coded(llen, 257 + ChooseLen(len).sym) && Coded(dlen, ChooseDist(dist).sym)
  }

  function TokenBits(llen: seq<nat>, dlen: seq<nat>, t: Token): seq<bit>
    requires TokenCoded(llen, dlen, t)
  {
    match t
    case Literal(b) => Sym(llen, b)
    case Copy(len, dist) =>
      var l, d := ChooseLen(len), ChooseDist(dist);
      Sym(llen, 257 + l.sym) + (Low(l.bits, l.rest) + (Sym(dlen, d.sym) + Low(d.bits, d.rest)))
  }

  predicate AllCoded(llen: seq<nat>, dlen: seq<nat>, ts: seq<Token>) {
    Coded(llen, 256) && forall i | 0 <= i < |ts| :: TokenCoded(llen, dlen, ts[i])
  }

  /** All tokens and the end of the block. */
  function TokensBits(llen: seq<nat>, dlen: seq<nat>, ts: seq<Token>): seq<bit>
    requires AllCoded(llen, dlen, ts)
    decreases |ts|
  {
    if ts == [] then Sym(llen, 256) else TokenBits(llen, dlen, ts[0]) + TokensBits(llen, dlen, ts[1..])
  }

  lemma {:induction false} PairReads(src: seq<byte>, p: nat, llen: seq<nat>, dlen: seq<nat>, len: nat, dist: nat)
    requires 3 <= len <= 258 && 1 <= dist <= 32768 && IsCode(dlen) && |dlen| <= MAXDCODES
    requires Coded(dlen, ChooseDist(dist).sym) && ChooseLen(len).sym < 29
    requires var l, d := ChooseLen(len), ChooseDist(dist);
      Says(src, p, Low(l.bits, l.rest) + (Sym(dlen, d.sym) + Low(d.bits, d.rest)))
    ensures var l, d := ChooseLen(len), ChooseDist(dist);
      ReadPair(src, p, l.sym, dlen) == Pair(len, dist, p + l.bits + dlen[d.sym] + d.bits)
  {
    hide ChooseLen, ChooseDist, Low, Sym, Says, LenBase, LenExtra, DistBase, DistExtra, Decode, IsCode;
    var l, d := ChooseLen(len), ChooseDist(dist);
    LenPins(len);
    DistPins(dist);
    var tail := Sym(dlen, d.sym) + Low(d.bits, d.rest);
    SaysParts(src, p, Low(l.bits, l.rest), tail);
    SaysParts(src, p + l.bits, Sym(dlen, d.sym), Low(d.bits, d.rest));
    LowRead(src, p, l.bits, l.rest);
    SymRead(dlen, src, p + l.bits, d.sym);
    LowRead(src, p + l.bits + dlen[d.sym], d.bits, d.rest);
  }

  lemma {:induction false} TurnReads(src: seq<byte>, p: nat, out: seq<byte>, room: Option<nat>, llen: seq<nat>,
                                     dlen: seq<nat>, t: Token)
    requires IsCode(llen) && IsCode(dlen) && |dlen| <= MAXDCODES && TokenCoded(llen, dlen, t) && TokenOk(out, t)
    requires Says(src, p, TokenBits(llen, dlen, t)) && Fits(room, |Append(out, t)|)
    ensures CodesTurn(src, p, out, room, llen, dlen)
         == More(p + |TokenBits(llen, dlen, t)|, Append(out, t))
  {
    hide ChooseLen, ChooseDist, Low, Sym, Says, Decode, IsCode, ReadPair, Coded;
    match t
    case Literal(b) => SymRead(llen, src, p, b);
    case Copy(len, dist) => CopyReads(src, p, out, room, llen, dlen, len, dist);
  }

  lemma {:induction false} CopyReads(src: seq<byte>, p: nat, out: seq<byte>, room: Option<nat>, llen: seq<nat>,
                                     dlen: seq<nat>, len: nat, dist: nat)
    requires IsCode(llen) && IsCode(dlen) && |dlen| <= MAXDCODES && TokenCoded(llen, dlen, Copy(len, dist))
    requires dist <= |out| && Fits(room, |out| + len) && Says(src, p, TokenBits(llen, dlen, Copy(len, dist)))
    ensures CodesTurn(src, p, out, room, llen, dlen)
         == More(p + |TokenBits(llen, dlen, Copy(len, dist))|, CopyBack(out, dist, len))
  {
    hide ChooseLen, ChooseDist, Low, Sym, Says, Decode, IsCode, ReadPair, CodesTurn, CopyBack, Coded;
    var l, d := ChooseLen(len), ChooseDist(dist);
    LenPins(len);
    var s := 257 + l.sym;
    var tail := Low(l.bits, l.rest) + (Sym(dlen, d.sym) + Low(d.bits, d.rest));
    SaysParts(src, p, Sym(llen, s), tail);
    SymRead(llen, src, p, s);
    PairReads(src, p + llen[s], llen, dlen, len, dist);
    CopyLength(llen, dlen, len, dist);
    PairGoesOn(src, p, out, room, llen, dlen, s, p + llen[s]);
  }

  lemma {:induction false} PairGoesOn(src: seq<byte>, p: nat, out: seq<byte>, room: Option<nat>, llen: seq<nat>,
                                      dlen: seq<nat>, s: nat, q: nat)
    requires |dlen| <= MAXDCODES && Decode(llen, src, p) == Symbol(s, q) && 257 <= s < 286
    requires var pair := ReadPair(src, q, s - 257, dlen);
      pair.Pair? && pair.dist <= |out| && Fits(room, |out| + pair.len)
    ensures var pair := ReadPair(src, q, s - 257, dlen);
      CodesTurn(src, p, out, room, llen, dlen) == More(pair.next, CopyBack(out, pair.dist, pair.len))
  {
    hide Decode, ReadPair, CopyBack;
  }

  lemma {:induction false} CopyLength(llen: seq<nat>, dlen: seq<nat>, len: nat, dist: nat)
    requires TokenCoded(llen, dlen, Copy(len, dist))
    ensures var l, d := ChooseLen(len), ChooseDist(dist);
      |TokenBits(llen, dlen, Copy(len, dist))| == llen[257 + l.sym] + l.bits + dlen[d.sym] + d.bits
  {
    hide ChooseLen, ChooseDist, Low, Sym;
  }

  /** Decoding what was written with two codes gives the expansion. */
  lemma {:induction false} TokensRead(src: seq<byte>, p: nat, out: seq<byte>, room: Option<nat>, llen: seq<nat>,
                                      dlen: seq<nat>, ts: seq<Token>)
    requires IsCode(llen) && IsCode(dlen) && |dlen| <= MAXDCODES && AllCoded(llen, dlen, ts) && TokensOk(out, ts)
    requires Says(src, p, TokensBits(llen, dlen, ts)) && Fits(room, |Expand(out, ts)|)
    ensures Codes(src, p, out, room, llen, dlen)
         == Outcome(0, p + |TokensBits(llen, dlen, ts)|, Expand(out, ts))
    decreases |ts|
  {
    hide Sym, Says, Decode, IsCode, CodesTurn, TokenBits, TokenCoded, TokenOk, Append;
    if ts == [] {
      EndReads(src, p, out, room, llen, dlen);
    } else {
      var w := TokenBits(llen, dlen, ts[0]);
      SaysParts(src, p, w, TokensBits(llen, dlen, ts[1..]));
      TurnReads(src, p, out, room, llen, dlen, ts[0]);
      TokensRead(src, p + |w|, Append(out, ts[0]), room, llen, dlen, ts[1..]);
    }
  }

  lemma {:induction false} EndReads(src: seq<byte>, p: nat, out: seq<byte>, room: Option<nat>, llen: seq<nat>,
                                    dlen: seq<nat>)
    requires IsCode(llen) && |dlen| <= MAXDCODES && Coded(llen, 256) && Says(src, p, Sym(llen, 256))
    ensures CodesTurn(src, p, out, room, llen, dlen) == Done(Outcome(0, p + llen[256], out))
  {
    hide Sym, Says, Decode, IsCode;
    SymRead(llen, src, p, 256);
  }

  // ---------------------------------------------------------------- fixed codes (section 3.2.6)

  /** The fixed literal/length codes as the standard lists them: number of bits and first code of each range. */
  function FixedBits(s: nat): seq<bit> {
    if s < 144 then High(8, 0x30 + s)
    else if s < 256 then High(9, 0x190 + (s - 144))
    else if s < 280 then High(7, s - 256)
    else High(8, 0xC0 + (s - 280))
  }

  /** How many of the first `n` symbols have length `len`. */
  lemma {:induction false} FixedCount(len: nat, n: nat)
    requires n <= 288
    ensures CountUpTo(FixedLiteral(), len, n) ==
      if len == 7 then if n <= 256 then 0 else if n <= 280 then n - 256 else 24
      else if len == 8 then if n <= 144 then n else if n <= 280 then 144 else n - 136
      else if len == 9 then if n <= 144 then 0 else if n <= 256 then n - 144 else 112
      else 0
    decreases n
  {
    hide FixedLiteral;
    if n > 0 {
      FixedCount(len, n - 1);
    }
  }

  lemma {:induction false} FixedFirst(len: nat)
    requires len <= 9
    ensures FirstCode(FixedLiteral(), len) == if len <= 7 then 0 else if len == 8 then 48 else 400
    decreases len
  {
    hide FixedLiteral, CountUpTo;
    if len > 1 {
      FixedFirst(len - 1);
      FixedCount(len - 1, 288);
    }
  }

  lemma {:induction false} FixedSym(s: nat)
    requires s < 288
    ensures Coded(FixedLiteral(), s) && Sym(FixedLiteral(), s) == FixedBits(s)
  {
    hide FixedLiteral, CountUpTo, FirstCode, High;
    FixedFirst(FixedLen(s));
    FixedCount(FixedLen(s), s);
  }

  lemma {:induction false} FixedDistCount(len: nat, n: nat)
    requires n <= 30
    ensures CountUpTo(FixedDistance(), len, n) == if len == 5 then n else 0
    decreases n
  {
    hide FixedDistance;
    if n > 0 {
      FixedDistCount(len, n - 1);
    }
  }

  lemma {:induction false} FixedDistFirst(len: nat)
    requires len <= 5
    ensures FirstCode(FixedDistance(), len) == 0
    decreases len
  {
    hide FixedDistance, CountUpTo;
    if len > 1 {
      FixedDistFirst(len - 1);
      FixedDistCount(len - 1, 30);
    }
  }

  /** Fixed distance codes are five bits, the symbol itself. */
  lemma {:induction false} FixedDistSym(s: nat)
    requires s < 30
    ensures Coded(FixedDistance(), s) && Sym(FixedDistance(), s) == High(5, s)
  {
    hide FixedDistance, CountUpTo, FirstCode, High;
    FixedDistFirst(5);
    FixedDistCount(5, s);
  }

  function FixedTokenBits(t: Token): seq<bit>
    requires t.Copy? ==> 3 <= t.len <= 258 && 1 <= t.dist <= 32768
  {
    match t
    case Literal(b) => FixedBits(b)
    case Copy(len, dist) =>
      var l, d := ChooseLen(len), ChooseDist(dist);
      FixedBits(257 + l.sym) + (Low(l.bits, l.rest) + (High(5, d.sym) + Low(d.bits, d.rest)))
  }

  predicate InRange(ts: seq<Token>) {
    forall i | 0 <= i < |ts| && ts[i].Copy? :: 3 <= ts[i].len <= 258 && 1 <= ts[i].dist <= 32768
  }

  function FixedTokensBits(ts: seq<Token>): seq<bit>
    requires InRange(ts)
    decreases |ts|
  {
    if ts == [] then FixedBits(256) else FixedTokenBits(ts[0]) + FixedTokensBits(ts[1..])
  }

  lemma {:induction false} FixedTokenIs(t: Token)
    requires t.Copy? ==> 3 <= t.len <= 258 && 1 <= t.dist <= 32768
    ensures TokenCoded(FixedLiteral(), FixedDistance(), t)
    ensures TokenBits(FixedLiteral(), FixedDistance(), t) == FixedTokenBits(t)
  {
    hide FixedLiteral, FixedDistance, Sym, FixedBits, ChooseLen, ChooseDist, Coded, Low, High;
    match t
    case Literal(b) => FixedSym(b);
    case Copy(len, dist) =>
      LenPins(len);
      DistPins(dist);
      FixedSym(257 + ChooseLen(len).sym);
      FixedDistSym(ChooseDist(dist).sym);
  }

  lemma {:induction false} FixedTokensAre(ts: seq<Token>)
    requires InRange(ts)
    ensures AllCoded(FixedLiteral(), FixedDistance(), ts)
    ensures TokensBits(FixedLiteral(), FixedDistance(), ts) == FixedTokensBits(ts)
    decreases |ts|
  {
    hide FixedLiteral, FixedDistance, Sym, FixedBits, TokenCoded, TokenBits, FixedTokenBits, Coded;
    FixedSym(256);
    forall i | 0 <= i < |ts|
      ensures TokenCoded(FixedLiteral(), FixedDistance(), ts[i])
    {
      FixedTokenIs(ts[i]);
    }
    if ts != [] {
      FixedTokenIs(ts[0]);
      FixedTokensAre(ts[1..]);
    }
  }

  lemma {:induction false} FixedAreCodes()
    ensures IsCode(FixedLiteral()) && IsCode(FixedDistance()) && |FixedDistance()| <= MAXDCODES
  {
    hide Kraft, FixedLiteral, FixedDistance;
    FixedKraft();
  }

  // ---------------------------------------------------------------- dynamic codes (section 3.2.7)

  /** How code lengths are written: one of them, the last one again, or a run of zeros. */
  datatype Instr = One(len: nat) | Again(n: nat) | Zeros(n: nat)

  predicate InstrOk(acc: seq<nat>, i: Instr) {
    match i
    case One(len) => len <= 15
    case Again(n) => 3 <= n <= 6 && acc != []
    case Zeros(n) => 3 <= n <= 138
  }

  function Follow(acc: seq<nat>, i: Instr): (r: seq<nat>)
    requires InstrOk(acc, i)
    ensures |r| > |acc|
  {
    match i
    case One(len) => acc + [len]
    case Again(n) => acc + Repeat(acc[|acc| - 1], n)
    case Zeros(n) => acc + Repeat(0, n)
  }

  predicate InstrsOk(acc: seq<nat>, prog: seq<Instr>)
    decreases |prog|
  {
    prog == [] || (InstrOk(acc, prog[0]) && InstrsOk(Follow(acc, prog[0]), prog[1..]))
  }

  function FollowAll(acc: seq<nat>, prog: seq<Instr>): (r: seq<nat>)
    requires InstrsOk(acc, prog)
    ensures |r| >= |acc|
    decreases |prog|
  {
    if prog == [] then acc else FollowAll(Follow(acc, prog[0]), prog[1..])
  }

  /** The symbol of an instruction, and its extra bits. */
  function InstrSym(i: Instr): nat {
    match i
    case One(len) => len
    case Again(_) => 16
    case Zeros(n) => if n <= 10 then 17 else 18
  }
  function InstrExtra(i: Instr): seq<bit> {
    match i
    case One(_) => []
    case Again(n) => if n < 3 then [] else Low(2, n - 3)
    case Zeros(n) => if n < 3 then [] else if n <= 10 then Low(3, n - 3) else Low(7, n - 11)
  }

  predicate InstrsCoded(cl: seq<nat>, prog: seq<Instr>) {
    forall i | 0 <= i < |prog| :: Coded(cl, InstrSym(prog[i]))
  }

  function InstrsBits(cl: seq<nat>, prog: seq<Instr>): seq<bit>
    requires InstrsCoded(cl, prog)
    decreases |prog|
  {
    if prog == [] then [] else (Sym(cl, InstrSym(prog[0])) + InstrExtra(prog[0])) + InstrsBits(cl, prog[1..])
  }

  lemma {:induction false} InstrReads(src: seq<byte>, p: nat, cl: seq<nat>, acc: seq<nat>, i: Instr, total: nat)
    requires IsCode(cl) && |cl| == 19 && IsLengths(acc) && InstrOk(acc, i) && Coded(cl, InstrSym(i))
    requires |Follow(acc, i)| <= total && Says(src, p, Sym(cl, InstrSym(i)) + InstrExtra(i))
    ensures LengthsTurn(src, p, cl, acc, total)
         == Go(p + cl[InstrSym(i)] + |InstrExtra(i)|, Follow(acc, i))
  {
    hide Sym, Says, Decode, IsCode, Low;
    var s := InstrSym(i);
    SaysParts(src, p, Sym(cl, s), InstrExtra(i));
    SymRead(cl, src, p, s);
    var q := p + cl[s];
    assert Pow2(2) == 4 && Pow2(3) == 8 && Pow2(7) == 128;
    match i
    case One(len) =>
    case Again(n) => LowRead(src, q, 2, n - 3);
    case Zeros(n) =>
      if n <= 10 {
        LowRead(src, q, 3, n - 3);
      } else {
        LowRead(src, q, 7, n - 11);
      }
  }

  lemma {:induction false} FollowLengths(acc: seq<nat>, i: Instr)
    requires IsLengths(acc) && InstrOk(acc, i)
    ensures IsLengths(Follow(acc, i))
  {
  }

  lemma {:induction false} InstrsRead(src: seq<byte>, p: nat, cl: seq<nat>, acc: seq<nat>, prog: seq<Instr>, total: nat)
    requires IsCode(cl) && |cl| == 19 && IsLengths(acc) && InstrsOk(acc, prog) && InstrsCoded(cl, prog)
    requires |FollowAll(acc, prog)| == total && Says(src, p, InstrsBits(cl, prog)) && p <= 8 * |src|
    ensures ReadLengths(src, p, cl, acc, total) == Lengths(FollowAll(acc, prog), p + |InstrsBits(cl, prog)|)
    decreases |prog|
  {
    hide Sym, Says, Decode, IsCode, InstrOk, Follow, InstrSym, InstrExtra, LengthsTurn, IsLengths;
    if prog != [] {
      var w := Sym(cl, InstrSym(prog[0])) + InstrExtra(prog[0]);
      SaysParts(src, p, w, InstrsBits(cl, prog[1..]));
      InstrReads(src, p, cl, acc, prog[0], total);
      FollowLengths(acc, prog[0]);
      var acc' := Follow(acc, prog[0]);
      InstrsRead(src, p + |w|, cl, acc', prog[1..], total);
      assert |acc| < total;
    }
  }

  /** Which code length code length is sent as number `i`. */
  function SentAs(i: nat): (s: nat)
    requires i < 19
    ensures s < 19
  {
    if i < 3 then 16 + i else if i == 3 then 0 else if i % 2 == 0 then 8 + (i - 4) / 2 else 7 - (i - 5) / 2
  }

  /** The first `n` code length code lengths, three bits each. */
  function ClBits(cl: seq<nat>, n: nat): (w: seq<bit>)
    requires |cl| == 19 && n <= 19
    ensures |w| == 3 * n
  {
    if n == 0 then [] else ClBits(cl, n - 1) + Low(3, cl[SentAs(n - 1)])
  }

  lemma {:induction false} ClSays(src: seq<byte>, p: nat, cl: seq<nat>, n: nat, k: nat)
    requires |cl| == 19 && k < n <= 19 && cl[SentAs(k)] < 8 && Says(src, p, ClBits(cl, n))
    ensures BitsAt(src, p + 3 * k, 3) == cl[SentAs(k)]
    decreases n
  {
    hide Low, Says, SentAs, BitsAt;
    SaysParts(src, p, ClBits(cl, n - 1), Low(3, cl[SentAs(n - 1)]));
    if k == n - 1 {
      assert Pow2(3) == 8;
      LowSays(src, p + 3 * k, 3, cl[SentAs(k)]);
    } else {
      ClSays(src, p, cl, n - 1, k);
    }
  }

  lemma {:induction false} PlaceIs(s: nat)
    requires s < 19
    ensures SentAs(Place(s)) == s
  {
  }

  /** Lengths of up to seven bits, those not sent being zero. */
  predicate ClOk(cl: seq<nat>, n: nat) {
    && |cl| == 19 && 4 <= n <= 19 && (forall s | 0 <= s < 19 :: cl[s] < 8)
    && forall i | n <= i < 19 :: cl[SentAs(i)] == 0
  }

  lemma {:induction false} ClRead(src: seq<byte>, p: nat, cl: seq<nat>, n: nat)
    requires ClOk(cl, n) && Says(src, p, ClBits(cl, n))
    ensures p + 3 * n <= 8 * |src| && ClLengths(src, p, n) == cl
  {
    hide ClBits, Place, SentAs, BitsAt;
    var r := ClLengths(src, p, n);
    forall s | 0 <= s < 19
      ensures r[s] == cl[s]
    {
      PlaceIs(s);
      if Place(s) < n {
        ClSays(src, p, cl, n, Place(s));
      }
    }
  }

  /** A code description: the code length code and how many of its lengths are sent, and the instructions. */
  datatype Description = Description(cl: seq<nat>, sent: nat, prog: seq<Instr>, nlen: nat)

  predicate DescriptionOk(d: Description) {
    && ClOk(d.cl, d.sent) && Complete(d.cl) && IsCode(d.cl)
    && InstrsOk([], d.prog) && InstrsCoded(d.cl, d.prog)
    && 257 <= d.nlen <= 286 && d.nlen + 1 <= |FollowAll([], d.prog)| <= d.nlen + 30
    && FollowAll([], d.prog)[256] != 0 && Usable(LitLengths(d)) && Usable(DistLengths(d))
  }

  function LitLengths(d: Description): seq<nat>
    requires InstrsOk([], d.prog) && d.nlen <= |FollowAll([], d.prog)|
  {
    FollowAll([], d.prog)[..d.nlen]
  }
  function DistLengths(d: Description): seq<nat>
    requires InstrsOk([], d.prog) && d.nlen <= |FollowAll([], d.prog)|
  {
    FollowAll([], d.prog)[d.nlen..]
  }

  function DescriptionBits(d: Description): seq<bit>
    requires DescriptionOk(d)
  {
    Low(5, d.nlen - 257) + (Low(5, |FollowAll([], d.prog)| - d.nlen - 1) + (Low(4, d.sent - 4)
      + (ClBits(d.cl, d.sent) + InstrsBits(d.cl, d.prog))))
  }

  lemma {:induction false} DescriptionRead(src: seq<byte>, p: nat, d: Description)
    requires DescriptionOk(d) && Says(src, p, DescriptionBits(d))
    ensures p <= 8 * |src|
    ensures ReadHeader(src, p) == Header(LitLengths(d), DistLengths(d), p + |DescriptionBits(d)|)
  {
    hide Low, ClBits, InstrsBits, Says, ClOk, Complete, IsCode, InstrsCoded, InstrsOk, FollowAll, Usable, ReadLengths,
         ClLengths, BitsAt, ReadBits;
    SentCount(d);
    var all := FollowAll([], d.prog);
    var a, b, c := Low(5, d.nlen - 257), Low(5, |all| - d.nlen - 1), Low(4, d.sent - 4);
    var e, f := ClBits(d.cl, d.sent), InstrsBits(d.cl, d.prog);
    SaysParts(src, p, a, b + (c + (e + f)));
    SaysParts(src, p + 5, b, c + (e + f));
    SaysParts(src, p + 10, c, e + f);
    SaysParts(src, p + 14, e, f);
    assert Pow2(5) == 32 && Pow2(4) == 16;
    LowSays(src, p, 5, d.nlen - 257);
    LowSays(src, p + 5, 5, |all| - d.nlen - 1);
    LowSays(src, p + 10, 4, d.sent - 4);
    SaysInside(src, p + 14 + |e|, f);
    ClRead(src, p + 14, d.cl, d.sent);
    InstrsRead(src, p + 14 + 3 * d.sent, d.cl, [], d.prog, |all|);
  }

  lemma {:induction false} SentCount(d: Description)
    requires ClOk(d.cl, d.sent)
    ensures 4 <= d.sent <= 19 && |d.cl| == 19
  {
  }

  lemma {:induction false} SaysInside(src: seq<byte>, p: nat, w: seq<bit>)
    requires Says(src, p, w)
    ensures p + |w| <= 8 * |src|
  {
  }

  // ---------------------------------------------------------------- blocks (section 3.2.3)

  datatype Chunk = Plain(bytes: seq<byte>) | Fixed(fts: seq<Token>) | Dynamic(d: Description, dts: seq<Token>)

  predicate ChunkOk(out: seq<byte>, c: Chunk) {
    match c
    case Plain(bytes) => |bytes| < 65536
    case Fixed(ts) => InRange(ts) && TokensOk(out, ts)
    case Dynamic(d, ts) =>
      DescriptionOk(d) && AllCoded(LitLengths(d), DistLengths(d), ts) && TokensOk(out, ts)
  }

  function After(out: seq<byte>, c: Chunk): (r: seq<byte>)
    requires ChunkOk(out, c)
    ensures |r| >= |out|
  {
    match c
    case Plain(bytes) => out + bytes
    case Fixed(ts) => Expand(out, ts)
    case Dynamic(_, ts) => Expand(out, ts)
  }

  function BytesBits(bytes: seq<byte>): (w: seq<bit>)
    ensures |w| == 8 * |bytes|
  {
    if bytes == [] then [] else Low(8, bytes[0]) + BytesBits(bytes[1..])
  }

  /** Bits left in the byte that position `pos` is in. */
  function Padding(pos: nat): nat { (8 - pos % 8) % 8 }

  /** The bytes of a stored block from its lengths on. */
  function PlainBytes(bytes: seq<byte>): seq<byte>
    requires |bytes| < 65536
  {
    var n := |bytes|;
    [n % 256, n / 256, 255 - n % 256, 255 - n / 256] + bytes
  }

  /** A block written from position `pos` on: last or not, its kind, its data. */
  function ChunkBits(out: seq<byte>, pos: nat, last: bit, c: Chunk): seq<bit>
    requires ChunkOk(out, c)
  {
    match c
    case Plain(bytes) => [last, 0, 0] + (Low(Padding(pos + 3), 0) + BytesBits(PlainBytes(bytes)))
    case Fixed(ts) => [last, 1, 0] + FixedTokensBits(ts)
    case Dynamic(d, ts) =>
      [last, 0, 1] + (DescriptionBits(d) + TokensBits(LitLengths(d), DistLengths(d), ts))
  }

  lemma {:induction false} BytesSays(src: seq<byte>, k: nat, bytes: seq<byte>)
    requires Says(src, 8 * k, BytesBits(bytes))
    ensures k + |bytes| <= |src| && src[k..k + |bytes|] == bytes
    decreases |bytes|
  {
    hide Low, Bit;
    if bytes != [] {
      SaysParts(src, 8 * k, Low(8, bytes[0]), BytesBits(bytes[1..]));
      assert Pow2(8) == 256;
      LowSays(src, 8 * k, 8, bytes[0]);
      ByteAt(src, k);
      assert 8 * k + 8 == 8 * (k + 1);
      BytesSays(src, k + 1, bytes[1..]);
      assert src[k..k + |bytes|] == [src[k]] + src[k + 1..k + |bytes|];
    }
  }

  lemma {:induction false} PaddedTo(pos: nat)
    ensures pos + Padding(pos) == 8 * ((pos + 7) / 8)
  {
  }

  lemma {:induction false} PlainReads(src: seq<byte>, pos: nat, out: seq<byte>, room: Option<nat>, bytes: seq<byte>)
    requires |bytes| < 65536 && Fits(room, |out| + |bytes|)
    requires Says(src, pos, Low(Padding(pos), 0) + BytesBits(PlainBytes(bytes)))
    ensures pos <= 8 * |src|
    ensures Stored(src, pos, out, room) == Outcome(0, pos + Padding(pos) + 32 + 8 * |bytes|, out + bytes)
  {
    hide Low, BytesBits, Padding;
    PaddedTo(pos);
    var k, all := (pos + 7) / 8, PlainBytes(bytes);
    SaysParts(src, pos, Low(Padding(pos), 0), BytesBits(all));
    BytesSays(src, k, all);
    hide Says;
    var got := src[k..k + |all|];
    assert src[k] == got[0] && src[k + 1] == got[1] && src[k + 2] == got[2] && src[k + 3] == got[3];
    assert src[k + 4..k + 4 + |bytes|] == got[4..];
  }

  lemma {:induction false} UsableIsCode(lengths: seq<nat>)
    requires IsLengths(lengths) && Usable(lengths)
    ensures IsCode(lengths)
  {
    if NoCodes(lengths) {
      NoneWeigh(lengths, |lengths|);
    }
  }

  lemma {:induction false} NoneWeigh(lengths: seq<nat>, n: nat)
    requires n <= |lengths| && NoCodes(lengths)
    ensures KraftTo(lengths, n, MAXBITS) == 0
  {
    if n > 0 {
      NoneWeigh(lengths, n - 1);
    }
  }

  lemma {:induction false} ThreeBits(src: seq<byte>, pos: nat, last: bit, a: bit, b: bit)
    requires Says(src, pos, [last, a, b])
    ensures pos + 3 <= 8 * |src| && Bit(src, pos) == last && BitsAt(src, pos + 1, 2) == a + 2 * b
  {
    hide Bit;
    var w := [last, a, b];
    assert Bit(src, pos + 0) == w[0] && Bit(src, pos + 1) == w[1] && Bit(src, pos + 2) == w[2];
    assert BitsAt(src, pos + 1, 2) == Bit(src, pos + 1) + 2 * BitsAt(src, pos + 2, 1);
    assert BitsAt(src, pos + 2, 1) == Bit(src, pos + 2) + 2 * BitsAt(src, pos + 3, 0);
  }

  /** One block. */
  lemma {:induction false} ChunkReads(src: seq<byte>, pos: nat, out: seq<byte>, room: Option<nat>, last: bit, c: Chunk)
    returns (k: nat)
    requires ChunkOk(out, c) && Says(src, pos, ChunkBits(out, pos, last, c)) && Fits(room, |After(out, c)|)
    ensures pos + 3 <= 8 * |src| && Bit(src, pos) == last && BitsAt(src, pos + 1, 2) == k
    ensures Block(k, src, pos + 3, out, room)
         == Outcome(0, pos + |ChunkBits(out, pos, last, c)|, After(out, c))
  {
    hide Bit, BitsAt, Says, Stored, Codes, ReadHeader, Low, BytesBits, FixedTokensBits, TokensBits, DescriptionBits,
         DescriptionOk, Padding, FixedLiteral, FixedDistance, AllCoded, IsCode, Usable, InRange, PlainBytes;
    match c
    case Plain(bytes) =>
      var tail := Low(Padding(pos + 3), 0) + BytesBits(PlainBytes(bytes));
      SaysParts(src, pos, [last, 0, 0], tail);
      ThreeBits(src, pos, last, 0, 0);
      PlainReads(src, pos + 3, out, room, bytes);
      PlainSize(bytes);
      k := 0;
    case Fixed(ts) =>
      SaysParts(src, pos, [last, 1, 0], FixedTokensBits(ts));
      ThreeBits(src, pos, last, 1, 0);
      FixedAreCodes();
      FixedTokensAre(ts);
      TokensRead(src, pos + 3, out, room, FixedLiteral(), FixedDistance(), ts);
      k := 1;
    case Dynamic(d, ts) =>
      DescriptionShape(d);
      var w, v := DescriptionBits(d), TokensBits(LitLengths(d), DistLengths(d), ts);
      SaysParts(src, pos, [last, 0, 1], w + v);
      ThreeBits(src, pos, last, 0, 1);
      SaysParts(src, pos + 3, w, v);
      DescriptionRead(src, pos + 3, d);
      DescriptionCodes(src, pos + 3, d);
      TokensRead(src, pos + 3 + |w|, out, room, LitLengths(d), DistLengths(d), ts);
      k := 2;
  }

  lemma {:induction false} DescriptionShape(d: Description)
    requires DescriptionOk(d)
    ensures InstrsOk([], d.prog) && d.nlen <= |FollowAll([], d.prog)|
  {
  }

  lemma {:induction false} PlainSize(bytes: seq<byte>)
    requires |bytes| < 65536
    ensures |PlainBytes(bytes)| == 4 + |bytes|
  {
  }

  lemma {:induction false} DescriptionCodes(src: seq<byte>, p: nat, d: Description)
    requires DescriptionOk(d) && p <= 8 * |src|
    requires ReadHeader(src, p) == Header(LitLengths(d), DistLengths(d), p + |DescriptionBits(d)|)
    ensures IsCode(LitLengths(d)) && IsCode(DistLengths(d)) && |DistLengths(d)| <= MAXDCODES
  {
    hide Usable, ReadHeader, DescriptionBits, IsLengths, FollowAll, InstrsOk, ClOk, Complete, InstrsCoded, IsCode;
    UsableIsCode(LitLengths(d));
    UsableIsCode(DistLengths(d));
  }

  // ---------------------------------------------------------------- whole streams

  predicate ChunksOk(out: seq<byte>, cs: seq<Chunk>)
    decreases |cs|
  {
    && cs != [] && ChunkOk(out, cs[0])
    && (|cs| > 1 ==> ChunksOk(After(out, cs[0]), cs[1..]))
  }

  /** What the blocks stand for together. */
  function Meaning(out: seq<byte>, cs: seq<Chunk>): (r: seq<byte>)
    requires ChunksOk(out, cs)
    ensures |r| >= |out|
    decreases |cs|
  {
    if |cs| == 1 then After(out, cs[0]) else Meaning(After(out, cs[0]), cs[1..])
  }

  function ChunksBits(out: seq<byte>, pos: nat, cs: seq<Chunk>): seq<bit>
    requires ChunksOk(out, cs)
    decreases |cs|
  {
    if |cs| == 1 then ChunkBits(out, pos, 1, cs[0]) else
    var w := ChunkBits(out, pos, 0, cs[0]);
    w + ChunksBits(After(out, cs[0]), pos + |w|, cs[1..])
  }

  lemma {:induction false} ChunksRead(src: seq<byte>, pos: nat, out: seq<byte>, room: Option<nat>, cs: seq<Chunk>)
    requires ChunksOk(out, cs) && Says(src, pos, ChunksBits(out, pos, cs)) && Fits(room, |Meaning(out, cs)|)
    ensures pos <= 8 * |src|
    ensures Inflate(src, pos, out, room) == Outcome(0, pos + |ChunksBits(out, pos, cs)|, Meaning(out, cs))
    decreases |cs|
  {
    hide Bit, BitsAt, Says, Block, ChunkBits, ChunkOk, After;
    if |cs| == 1 {
      var k := ChunkReads(src, pos, out, room, 1, cs[0]);
    } else {
      var w := ChunkBits(out, pos, 0, cs[0]);
      SaysParts(src, pos, w, ChunksBits(After(out, cs[0]), pos + |w|, cs[1..]));
      var k := ChunkReads(src, pos, out, room, 0, cs[0]);
      ChunksRead(src, pos + |w|, After(out, cs[0]), room, cs[1..]);
    }
  }

  // ---------------------------------------------------------------- bytes

  /** Up to eight bits as a byte, the first one lowest. */
  function Value(w: seq<bit>): (v: nat)
    ensures v < Pow2(|w|)
  {
    if w == [] then 0 else w[0] + 2 * Value(w[1..])
  }

  /** Bits in bytes, the last byte filled up with zeros. */
  function Pack(w: seq<bit>): (r: seq<byte>)
    ensures 8 * |r| < |w| + 8 && |w| <= 8 * |r|
    decreases |w|
  {
    if w == [] then [] else
    var n := if |w| < 8 then |w| else 8;
    PackByte(w[..n]);
    [Value(w[..n])] + Pack(w[n..])
  }

  lemma {:induction false} PackByte(w: seq<bit>)
    requires |w| <= 8
    ensures Value(w) < 256
  {
    PowAtMost(|w|, 8);
    assert Pow2(8) == 256;
  }

  lemma {:induction false} PowAtMost(a: nat, b: nat)
    requires a <= b
    ensures Pow2(a) <= Pow2(b)
    decreases b
  {
    if a < b {
      PowAtMost(a, b - 1);
    }
  }

  lemma {:induction false} ValueBit(w: seq<bit>, i: nat)
    requires i < |w|
    ensures ByteBit(Value(w), i) == w[i]
    decreases i
  {
    assert Value(w) / 2 == Value(w[1..]) && Value(w) % 2 == w[0];
    if i > 0 {
      ValueBit(w[1..], i - 1);
    }
  }

  lemma {:induction false} PackBit(w: seq<bit>, i: nat)
    requires i < |w|
    ensures i < 8 * |Pack(w)| && Bit(Pack(w), i) == w[i]
    decreases |w|
  {
    hide Value, ByteBit;
    var n := if |w| < 8 then |w| else 8;
    var r := Pack(w);
    assert r[0] == Value(w[..n]) && r[1..] == Pack(w[n..]);
    if i < n {
      ValueBit(w[..n], i);
    } else {
      PackBit(w[n..], i - n);
      assert i / 8 == (i - 8) / 8 + 1 && i % 8 == (i - 8) % 8;
    }
  }

  /** Every list of stored, fixed and dynamic blocks, written as the standard has it and inflated with room for the
      result, gives back what it stands for, and ends just past its last bit. */
  lemma {:induction false} InflateWritten(cs: seq<Chunk>, room: Option<nat>)
    requires ChunksOk([], cs) && Fits(room, |Meaning([], cs)|)
    ensures var w := ChunksBits([], 0, cs);
      Inflate(Pack(w), 0, [], room) == Outcome(0, |w|, Meaning([], cs))
  {
    hide Inflate, ChunksBits, ChunksOk, Bit, Pack;
    var w := ChunksBits([], 0, cs);
    forall i | 0 <= i < |w|
      ensures i < 8 * |Pack(w)| && Bit(Pack(w), 0 + i) == w[i]
    {
      PackBit(w, i);
    }
    ChunksRead(Pack(w), 0, [], room, cs);
  }
}
