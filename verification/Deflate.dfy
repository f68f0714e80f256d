/** What a DEFLATE stream means (RFC 1951), as pure functions of the source bytes: no bit buffer,
    no tables, no output buffer. `room` is the space the caller has, `None` when only scanning. */
module Deflate {
  import opened Bits
  import opened Huffman

  const MAXLCODES: nat := 286
  const MAXDCODES: nat := 30
  const FIXLCODES: nat := 288

  /** Where decoding stopped: `code` is puff's return code, `pos` the bit position reached and
      `out` the bytes produced. `pos` carries meaning only for `code <= 0`. */
  datatype Outcome = Outcome(code: int, pos: nat, out: seq<byte>)

  predicate Fits(room: Option<nat>, n: nat) {
    room.Some? ==> n <= room.value
  }

  // ---------------------------------------------------------------- stored blocks (section 3.2.4)

  function Stored(src: seq<byte>, pos: nat, out: seq<byte>, room: Option<nat>): (r: Outcome)
    requires pos <= 8 * |src|
    ensures r.code <= 0 ==> pos <= r.pos <= 8 * |src|
  {
    var k := (pos + 7) / 8;
    if k + 4 > |src| then Outcome(2, pos, out)
    else if src[k + 2] != 255 - src[k] then Outcome(-2, 8 * (k + 3), out)
    else if src[k + 3] != 255 - src[k + 1] then Outcome(-2, 8 * (k + 4), out)
    else
      var len: nat := src[k] as int + 256 * src[k + 1] as int;
      if k + 4 + len > |src| then Outcome(2, pos, out)
      else if !Fits(room, |out| + len) then Outcome(1, pos, out)
      else Outcome(0, 8 * (k + 4 + len), out + src[k + 4..k + 4 + len])
  }

  // ---------------------------------------------------------------- LZ77 (section 3.2.5)

  /** Base length and extra bits of the length symbol `257 + sym`. */
  function LenBase(sym: nat): nat
    requires sym < 29
  {
    [3, 4, 5, 6, 7, 8, 9, 10, 11, 13, 15, 17, 19, 23, 27, 31,
     35, 43, 51, 59, 67, 83, 99, 115, 131, 163, 195, 227, 258][sym]
  }
  function LenExtra(sym: nat): (n: nat)
    requires sym < 29
    ensures n <= 5
  {
    [0, 0, 0, 0, 0, 0, 0, 0, 1, 1, 1, 1, 2, 2, 2, 2,
     3, 3, 3, 3, 4, 4, 4, 4, 5, 5, 5, 5, 0][sym]
  }

  /** Base distance and extra bits of distance symbol `sym`. */
  function DistBase(sym: nat): (n: nat)
    requires sym < 30
    ensures n >= 1
  {
    [1, 2, 3, 4, 5, 7, 9, 13, 17, 25, 33, 49, 65, 97, 129, 193,
     257, 385, 513, 769, 1025, 1537, 2049, 3073, 4097, 6145, 8193, 12289, 16385, 24577][sym]
  }
  function DistExtra(sym: nat): (n: nat)
    requires sym < 30
    ensures n <= 13
  {
    [0, 0, 0, 0, 1, 1, 2, 2, 3, 3, 4, 4, 5, 5, 6, 6,
     7, 7, 8, 8, 9, 9, 10, 10, 11, 11, 12, 12, 13, 13][sym]
  }

  /** Append `len` bytes, each the byte `dist` places before it: the copy may overlap itself. */
  function CopyBack(out: seq<byte>, dist: nat, len: nat): (r: seq<byte>)
    requires 0 < dist <= |out|
    ensures |r| == |out| + len
    decreases len
  {
    if len == 0 then out else CopyBack(out + [out[|out| - dist]], dist, len - 1)
  }

  datatype Pair = Pair(len: nat, dist: nat, next: nat) | BadPair(pos: nat) | ShortPair

  /** The rest of a length/distance pair whose length symbol `257 + sym` ended at `p`. */
  ghost function ReadPair(src: seq<byte>, p: nat, sym: nat, dlen: seq<nat>): (r: Pair)
    requires sym < 29 && |dlen| <= MAXDCODES
    ensures r.Pair? ==> r.dist > 0 && p < r.next <= 8 * |src|
    ensures r.BadPair? ==> p <= r.pos <= 8 * |src|
  {
    match ReadBits(src, p, LenExtra(sym))
    case None => ShortPair
    case Some(extra) =>
      var p1 := p + LenExtra(sym);
      match Decode(dlen, src, p1)
      case OutOfInput => ShortPair
      case NoCode => BadPair(p1 + MAXBITS)
      case Symbol(d, p2) =>
        match ReadBits(src, p2, DistExtra(d))
        case None => ShortPair
        case Some(more) => Pair(LenBase(sym) + extra, DistBase(d) + more, p2 + DistExtra(d))
  }

  /** What one turn of decoding comes to: the block ends, or goes on from `pos` with `out` so far. */
  datatype Turn = Done(o: Outcome) | More(pos: nat, out: seq<byte>)

  /** One literal or length/distance pair, or the end-of-block code. */
  ghost function CodesTurn(src: seq<byte>, pos: nat, out: seq<byte>, room: Option<nat>,
                           llen: seq<nat>, dlen: seq<nat>): (t: Turn)
    requires |dlen| <= MAXDCODES
    ensures t.More? ==> pos < t.pos <= 8 * |src|
    ensures t.Done? && t.o.code <= 0 ==> pos <= t.o.pos <= 8 * |src|
  {
    match Decode(llen, src, pos)
    case OutOfInput => Done(Outcome(2, pos, out))
    case NoCode => Done(Outcome(-10, pos + MAXBITS, out))
    case Symbol(s, p) =>
      if s < 256 then
        if Fits(room, |out| + 1) then More(p, out + [s]) else Done(Outcome(1, p, out))
      else if s == 256 then Done(Outcome(0, p, out))
      else if s >= 257 + 29 then Done(Outcome(-10, p, out))
      else PairTurn(ReadPair(src, p, s - 257, dlen), p, out, room)
  }

  function PairTurn(pair: Pair, p: nat, out: seq<byte>, room: Option<nat>): (t: Turn)
    requires pair.Pair? ==> pair.dist > 0
  {
    match pair
    case ShortPair => Done(Outcome(2, p, out))
    case BadPair(q) => Done(Outcome(-10, q, out))
    case Pair(len, dist, q) =>
      if dist > |out| then Done(Outcome(-11, q, out))
      else if !Fits(room, |out| + len) then Done(Outcome(1, q, out))
      else More(q, CopyBack(out, dist, len))
  }

  /** Literals and length/distance pairs up to the end-of-block code, coded with the literal/length
      code of `llen` and the distance code of `dlen`. */
  ghost function Codes(src: seq<byte>, pos: nat, out: seq<byte>, room: Option<nat>,
                       llen: seq<nat>, dlen: seq<nat>): (r: Outcome)
    requires |dlen| <= MAXDCODES
    ensures r.code <= 0 ==> pos <= r.pos <= 8 * |src|
    decreases 8 * |src| - pos
  {
    match CodesTurn(src, pos, out, room, llen, dlen)
    case Done(o) => o
    case More(p, out') => Codes(src, p, out', room, llen, dlen)
  }

  // ---------------------------------------------------------------- fixed codes (section 3.2.6)

  function FixedLen(s: nat): nat {
    if s < 144 then 8 else if s < 256 then 9 else if s < 280 then 7 else 8
  }

  function FixedLiteral(): (r: seq<nat>)
    ensures |r| == FIXLCODES && forall s | 0 <= s < |r| :: r[s] == FixedLen(s)
  {
    seq(FIXLCODES, s requires 0 <= s => FixedLen(s))
  }

  function FixedDistance(): (r: seq<nat>)
    ensures |r| == MAXDCODES && forall s | 0 <= s < |r| :: r[s] == 5
  {
    seq(MAXDCODES, s => 5)
  }

  // ---------------------------------------------------------------- dynamic codes (section 3.2.7)

  /** The order in which code lengths of the code length symbols are sent. */
  function Order(i: nat): (s: nat)
    requires i < 19
    ensures s < 19
  {
    [16, 17, 18, 0, 8, 7, 9, 6, 10, 5, 11, 4, 12, 3, 13, 2,
     14, 1, 15][i]
  }

  /** The place of code length symbol `s` in that order. */
  function Place(s: nat): (i: nat)
    requires s < 19
    ensures i < 19
  {
    [3, 17, 15, 13, 11, 9, 7, 5, 4, 6, 8, 10, 12, 14, 16, 18,
     0, 1, 2][s]
  }

  /** Length of the code length symbol `s` when the first `ncode` were sent from position `p`. */
  function ClLength(src: seq<byte>, p: nat, ncode: nat, s: nat): nat
    requires p + 3 * ncode <= 8 * |src| && s < 19
  {
    if Place(s) < ncode then BitsAt(src, p + 3 * Place(s), 3) else 0
  }

  function ClLengths(src: seq<byte>, p: nat, ncode: nat): (r: seq<nat>)
    requires p + 3 * ncode <= 8 * |src|
    ensures |r| == 19 && forall s | 0 <= s < 19 :: r[s] == ClLength(src, p, ncode, s)
  {
    seq(19, s requires 0 <= s < 19 => ClLength(src, p, ncode, s))
  }

  /** A code set `construct` returns 0 for. */
  predicate Complete(lengths: seq<nat>) {
    NoCodes(lengths) || Kraft(lengths) == Pow2(MAXBITS)
  }

  /** A code set usable in a dynamic block: complete, or only codes of one bit. */
  predicate Usable(lengths: seq<nat>) {
    Complete(lengths) || (Kraft(lengths) < Pow2(MAXBITS) && forall s | 0 <= s < |lengths| :: lengths[s] <= 1)
  }

  function Repeat(len: nat, n: nat): (r: seq<nat>)
    ensures |r| == n && forall i | 0 <= i < n :: r[i] == len
  {
    seq(n, _ => len)
  }

  datatype Lengths = Lengths(lens: seq<nat>, next: nat) | BadLengths(code: int, pos: nat)

  /** Run-length instruction `sym` (16, 17 or 18): what to repeat, how many extra bits, base count. */
  function RunLength(sym: nat, acc: seq<nat>): nat {
    if sym == 16 && |acc| > 0 then acc[|acc| - 1] else 0
  }
  function RunExtra(sym: nat): nat { if sym == 16 then 2 else if sym == 17 then 3 else 7 }
  function RunBase(sym: nat): nat { if sym == 18 then 11 else 3 }

  datatype LengthsStep = Stop(code: int, pos: nat) | Go(pos: nat, acc: seq<nat>)

  /** One code length or one run of them. */
  ghost function LengthsTurn(src: seq<byte>, p: nat, cl: seq<nat>, acc: seq<nat>, total: nat): (t: LengthsStep)
    requires |cl| == 19 && |acc| < total && IsLengths(acc)
    ensures t.Go? ==> p < t.pos <= 8 * |src| && |acc| < |t.acc| <= total && IsLengths(t.acc)
    ensures t.Stop? ==> t.code != 0 && (t.code < 0 ==> p <= t.pos <= 8 * |src|)
  {
    match Decode(cl, src, p)
    case OutOfInput => Stop(2, p)
    case NoCode => Stop(-10, p + MAXBITS)
    case Symbol(s, q) =>
      if s < 16 then Go(q, acc + [s])
      else if s == 16 && |acc| == 0 then Stop(-5, q)
      else RunTurn(src, q, s, acc, total)
  }

  /** The extra bits of run-length instruction `s`, and the run it asks for. */
  function RunTurn(src: seq<byte>, q: nat, s: nat, acc: seq<nat>, total: nat): (t: LengthsStep)
    requires 16 <= s < 19 && |acc| < total && IsLengths(acc)
    ensures t.Go? ==> q < t.pos <= 8 * |src| && |acc| < |t.acc| <= total && IsLengths(t.acc)
    ensures t.Stop? ==> t.code != 0 && (t.code < 0 ==> q <= t.pos <= 8 * |src|)
  {
    match ReadBits(src, q, RunExtra(s))
    case None => Stop(2, q)
    case Some(x) =>
      var n := RunBase(s) + x;
      if |acc| + n > total then Stop(-6, q + RunExtra(s))
      else Go(q + RunExtra(s), acc + Repeat(RunLength(s, acc), n))
  }

  /** Code lengths run-length coded with the code length code `cl`, until `total` are there. */
  ghost function ReadLengths(src: seq<byte>, p: nat, cl: seq<nat>, acc: seq<nat>, total: nat): (r: Lengths)
    requires |cl| == 19 && |acc| <= total && IsLengths(acc) && p <= 8 * |src|
    ensures r.Lengths? ==> |r.lens| == total && IsLengths(r.lens) && p <= r.next <= 8 * |src|
    ensures r.BadLengths? ==> r.code != 0 && (r.code < 0 ==> p <= r.pos <= 8 * |src|)
    decreases total - |acc|
  {
    if |acc| == total then Lengths(acc, p) else
    match LengthsTurn(src, p, cl, acc, total)
    case Stop(code, q) => BadLengths(code, q)
    case Go(q, acc') => ReadLengths(src, q, cl, acc', total)
  }

  /** The code length code, which must be complete, and the code lengths it codes. */
  ghost function AllLengths(src: seq<byte>, p: nat, ncode: nat, total: nat): (r: Lengths)
    requires p <= 8 * |src|
    ensures r.Lengths? ==> |r.lens| == total && IsLengths(r.lens) && p <= r.next <= 8 * |src|
    ensures r.BadLengths? ==> r.code != 0 && (r.code < 0 ==> p <= r.pos <= 8 * |src|)
  {
    if p + 3 * ncode > 8 * |src| then BadLengths(2, p) else
    var cl := ClLengths(src, p, ncode);
    if Complete(cl) then ReadLengths(src, p + 3 * ncode, cl, [], total) else BadLengths(-4, p + 3 * ncode)
  }

  datatype Header = Header(llen: seq<nat>, dlen: seq<nat>, next: nat) | BadHeader(code: int, pos: nat)

  /** The code description at the start of a dynamic block. */
  ghost function ReadHeader(src: seq<byte>, pos: nat): (r: Header)
    requires pos <= 8 * |src|
    ensures r.Header? ==> |r.llen| <= MAXLCODES && |r.dlen| <= MAXDCODES && pos <= r.next <= 8 * |src|
    ensures r.Header? ==> IsLengths(r.llen) && IsLengths(r.dlen)
    ensures r.BadHeader? ==> r.code != 0 && (r.code < 0 ==> pos <= r.pos <= 8 * |src|)
  {
    if pos + 14 > 8 * |src| then BadHeader(2, pos) else
    var nlen := BitsAt(src, pos, 5) + 257;
    var ndist := BitsAt(src, pos + 5, 5) + 1;
    var ncode := BitsAt(src, pos + 10, 4) + 4;
    var p := pos + 14;
    if nlen > MAXLCODES || ndist > MAXDCODES then BadHeader(-3, p) else
    match AllLengths(src, p, ncode, nlen + ndist)
    case BadLengths(code, q) => BadHeader(code, q)
    case Lengths(lens, q) => CheckLengths(lens, nlen, q)
  }

  /** The two codes out of the one list of lengths. */
  function CheckLengths(lens: seq<nat>, nlen: nat, q: nat): (r: Header)
    requires 257 <= nlen <= |lens| && IsLengths(lens)
    ensures r.Header? ==> IsLengths(r.llen) && IsLengths(r.dlen) && r.next == q
  {
    if lens[256] == 0 then BadHeader(-9, q)
    else if !Usable(lens[..nlen]) then BadHeader(-7, q)
    else if !Usable(lens[nlen..]) then BadHeader(-8, q)
    else Header(lens[..nlen], lens[nlen..], q)
  }

  // ---------------------------------------------------------------- blocks (section 3.2.3)

  ghost function Block(kind: nat, src: seq<byte>, pos: nat, out: seq<byte>, room: Option<nat>): (r: Outcome)
    requires pos <= 8 * |src|
    ensures r.code <= 0 ==> pos <= r.pos <= 8 * |src|
  {
    if kind == 0 then Stored(src, pos, out, room)
    else if kind == 1 then Codes(src, pos, out, room, FixedLiteral(), FixedDistance())
    else if kind == 2 then
      match ReadHeader(src, pos)
      case BadHeader(code, q) => Outcome(code, q, out)
      case Header(llen, dlen, q) => Codes(src, q, out, room, llen, dlen)
    else Outcome(-1, pos, out)
  }

  /** Blocks up to and including the one marked last. */
  ghost function Inflate(src: seq<byte>, pos: nat, out: seq<byte>, room: Option<nat>): (r: Outcome)
    requires pos <= 8 * |src|
    ensures r.code <= 0 ==> pos <= r.pos <= 8 * |src|
    decreases 8 * |src| - pos
  {
    if pos + 3 > 8 * |src| then Outcome(2, pos, out) else
    var r := Block(BitsAt(src, pos + 1, 2), src, pos + 3, out, room);
    if r.code == 0 && Bit(src, pos) == 0 then Inflate(src, r.pos, r.out, room) else r
  }
}
