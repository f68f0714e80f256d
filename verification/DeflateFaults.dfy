/** The return codes of src/boot/vmlinuz/puff.c on input that is cut short, runs out of room or breaks a rule of
    RFC 1951: each fault, in a stream that is otherwise written by the rules, gives the code documented for it. */
module DeflateFaults {
  import opened Bits
  import opened Huffman
  import opened Deflate
  import opened BitReader
  import Puff
  import opened PuffTheorems
  import opened DeflateRoundTrip

  // ---------------------------------------------------------------- more input

  lemma {:induction false} PrefixShares(src: seq<byte>, src': seq<byte>)
    requires src <= src'
    ensures Share(src, src', |src|) && Share(src', src, |src|)
  {
  }

  lemma {:induction false} DecodeMore(lengths: seq<nat>, src: seq<byte>, src': seq<byte>, p: nat)
    requires src <= src' && IsLengths(lengths) && !Decode(lengths, src, p).OutOfInput?
    ensures Decode(lengths, src', p) == Decode(lengths, src, p)
  {
    PrefixShares(src, src');
    if Decode(lengths, src, p).Symbol? {
      DecodePrefix(lengths, src, src', |src|, p);
    } else if Decode(lengths, src', p).Symbol? {
      var d := Decode(lengths, src', p);
      DecodeIff(lengths, src', p, d.sym, d.next);
      DecodePrefix(lengths, src', src, |src|, p);
    }
  }

  lemma {:induction false} BitsMore(src: seq<byte>, src': seq<byte>, p: nat, n: nat)
    requires src <= src' && ReadBits(src, p, n).Some?
    ensures ReadBits(src', p, n) == ReadBits(src, p, n)
  {
    PrefixShares(src, src');
    ReadBitsPrefix(src, src', |src|, p, n);
  }

  lemma {:induction false} PairMore(src: seq<byte>, src': seq<byte>, p: nat, sym: nat, dlen: seq<nat>)
    requires src <= src' && sym < 29 && |dlen| <= MAXDCODES && IsLengths(dlen)
    requires !ReadPair(src, p, sym, dlen).ShortPair?
    ensures ReadPair(src', p, sym, dlen) == ReadPair(src, p, sym, dlen)
  {
    hide Decode, ReadBits, LenBase, LenExtra, DistBase, DistExtra, IsLengths;
    BitsMore(src, src', p, LenExtra(sym));
    DecodeMore(dlen, src, src', p + LenExtra(sym));
    var d := Decode(dlen, src, p + LenExtra(sym));
    if d.Symbol? {
      BitsMore(src, src', d.next, DistExtra(d.sym));
    }
  }

  ghost predicate RanOut(t: Turn) { t.Done? && t.o.code == 2 }

  lemma {:induction false} TurnMore(src: seq<byte>, src': seq<byte>, pos: nat, out: seq<byte>, room: Option<nat>,
                                    llen: seq<nat>, dlen: seq<nat>)
    requires src <= src' && |dlen| <= MAXDCODES && IsLengths(llen) && IsLengths(dlen)
    requires !RanOut(CodesTurn(src, pos, out, room, llen, dlen))
    ensures CodesTurn(src', pos, out, room, llen, dlen) == CodesTurn(src, pos, out, room, llen, dlen)
  {
    hide Decode, ReadPair, CopyBack, IsLengths;
    DecodeMore(llen, src, src', pos);
    var d := Decode(llen, src, pos);
    if d.Symbol? && 257 <= d.sym < 257 + 29 {
      PairMore(src, src', d.next, d.sym - 257, dlen);
    }
  }

  lemma {:induction false} CodesMore(src: seq<byte>, src': seq<byte>, pos: nat, out: seq<byte>, room: Option<nat>,
                                     llen: seq<nat>, dlen: seq<nat>)
    requires src <= src' && |dlen| <= MAXDCODES && IsLengths(llen) && IsLengths(dlen)
    requires Codes(src, pos, out, room, llen, dlen).code != 2
    ensures Codes(src', pos, out, room, llen, dlen) == Codes(src, pos, out, room, llen, dlen)
    decreases 8 * |src| - pos
  {
    hide CodesTurn, IsLengths;
    TurnMore(src, src', pos, out, room, llen, dlen);
    var t := CodesTurn(src, pos, out, room, llen, dlen);
    if t.More? {
      CodesMore(src, src', t.pos, t.out, room, llen, dlen);
    }
  }

  lemma {:induction false} StepMore(src: seq<byte>, src': seq<byte>, p: nat, cl: seq<nat>, acc: seq<nat>, total: nat)
    requires src <= src' && |cl| == 19 && IsLengths(cl) && |acc| < total && IsLengths(acc)
    requires var t := LengthsTurn(src, p, cl, acc, total); t.Go? || t.code != 2
    ensures LengthsTurn(src', p, cl, acc, total) == LengthsTurn(src, p, cl, acc, total)
  {
    hide Decode, IsLengths, ReadBits;
    DecodeMore(cl, src, src', p);
    var d := Decode(cl, src, p);
    if d.Symbol? && d.sym >= 16 && !(d.sym == 16 && |acc| == 0) {
      BitsMore(src, src', d.next, RunExtra(d.sym));
    }
  }

  lemma {:induction false} LengthsMore(src: seq<byte>, src': seq<byte>, p: nat, cl: seq<nat>, acc: seq<nat>, total: nat)
    requires src <= src' && |cl| == 19 && IsLengths(cl) && |acc| <= total && IsLengths(acc) && p <= 8 * |src|
    requires var l := ReadLengths(src, p, cl, acc, total); l.Lengths? || l.code != 2
    ensures ReadLengths(src', p, cl, acc, total) == ReadLengths(src, p, cl, acc, total)
    decreases total - |acc|
  {
    hide LengthsTurn, IsLengths;
    if |acc| < total {
      StepMore(src, src', p, cl, acc, total);
      var t := LengthsTurn(src, p, cl, acc, total);
      if t.Go? {
        LengthsMore(src, src', t.pos, cl, t.acc, total);
      }
    }
  }

  lemma {:induction false} AllLengthsMore(src: seq<byte>, src': seq<byte>, p: nat, ncode: nat, total: nat)
    requires src <= src' && p <= 8 * |src|
    requires var l := AllLengths(src, p, ncode, total); l.Lengths? || l.code != 2
    ensures AllLengths(src', p, ncode, total) == AllLengths(src, p, ncode, total)
  {
    hide ClLengths, ReadLengths, Complete;
    PrefixShares(src, src');
    ClPrefix(src, src', |src|, p, ncode);
    var cl := ClLengths(src, p, ncode);
    if Complete(cl) {
      Puff.ClSmall(src, p, ncode);
      LengthsMore(src, src', p + 3 * ncode, cl, [], total);
    }
  }

  lemma {:induction false} HeaderMore(src: seq<byte>, src': seq<byte>, pos: nat)
    requires src <= src' && pos <= 8 * |src|
    requires var h := ReadHeader(src, pos); h.Header? || h.code != 2
    ensures ReadHeader(src', pos) == ReadHeader(src, pos)
  {
    hide BitsAt, AllLengths, CheckLengths;
    PrefixShares(src, src');
    BitsAtPrefix(src, src', |src|, pos, 5);
    BitsAtPrefix(src, src', |src|, pos + 5, 5);
    BitsAtPrefix(src, src', |src|, pos + 10, 4);
    var nlen, ndist := BitsAt(src, pos, 5) + 257, BitsAt(src, pos + 5, 5) + 1;
    if nlen <= MAXLCODES && ndist <= MAXDCODES {
      AllLengthsMore(src, src', pos + 14, BitsAt(src, pos + 10, 4) + 4, nlen + ndist);
    }
  }

  lemma {:induction false} StoredMore(src: seq<byte>, src': seq<byte>, pos: nat, out: seq<byte>, room: Option<nat>)
    requires src <= src' && pos <= 8 * |src| && Stored(src, pos, out, room).code != 2
    ensures Stored(src', pos, out, room) == Stored(src, pos, out, room)
  {
    var j := (pos + 7) / 8;
    var len: nat := src[j] as int + 256 * src[j + 1] as int;
    if j + 4 + len <= |src| {
      assert src[j + 4..j + 4 + len] == src'[j + 4..j + 4 + len];
    }
  }

  lemma {:induction false} FixedLengths()
    ensures IsLengths(FixedLiteral()) && IsLengths(FixedDistance()) && |FixedDistance()| <= MAXDCODES
  {
  }

  lemma {:induction false} BlockMore(kind: nat, src: seq<byte>, src': seq<byte>, pos: nat, out: seq<byte>,
                                     room: Option<nat>)
    requires src <= src' && pos <= 8 * |src| && Block(kind, src, pos, out, room).code != 2
    ensures Block(kind, src', pos, out, room) == Block(kind, src, pos, out, room)
  {
    hide Stored, Codes, ReadHeader, FixedLiteral, FixedDistance, IsLengths;
    if kind == 0 {
      StoredMore(src, src', pos, out, room);
    } else if kind == 1 {
      FixedLengths();
      CodesMore(src, src', pos, out, room, FixedLiteral(), FixedDistance());
    } else if kind == 2 {
      HeaderMore(src, src', pos);
      var h := ReadHeader(src, pos);
      if h.Header? {
        CodesMore(src, src', h.next, out, room, h.llen, h.dlen);
      }
    }
  }

  /** Whatever the answer but "more input", more input does not change it. */
  lemma {:induction false} InflateMore(src: seq<byte>, src': seq<byte>, pos: nat, out: seq<byte>, room: Option<nat>)
    requires src <= src' && pos <= 8 * |src| && Inflate(src, pos, out, room).code != 2
    ensures Inflate(src', pos, out, room) == Inflate(src, pos, out, room)
    decreases 8 * |src| - pos
  {
    hide Block, Bit, BitsAt;
    PrefixShares(src, src');
    ReadBitsPrefix(src, src', |src|, pos, 1);
    OneBit(src, pos);
    OneBit(src', pos);
    ReadBitsPrefix(src, src', |src|, pos + 1, 2);
    var kind := BitsAt(src, pos + 1, 2);
    BlockMore(kind, src, src', pos + 3, out, room);
    var r := Block(kind, src, pos + 3, out, room);
    if r.code == 0 && Bit(src, pos) == 0 {
      InflateMore(src, src', r.pos, r.out, room);
    }
  }

  /** A stream cut anywhere before the last byte it needs returns 2. */
  lemma {:induction false} CutReturns2(src: seq<byte>, n: nat, room: Option<nat>)
    requires n <= |src| && Inflate(src, 0, [], room).code <= 0 && 8 * n < Inflate(src, 0, [], room).pos
    ensures Inflate(src[..n], 0, [], room).code == 2
  {
    hide Inflate;
    if Inflate(src[..n], 0, [], room).code != 2 {
      InflateMore(src[..n], src, 0, [], room);
    }
  }

  /** So does every written stream, cut anywhere. */
  lemma {:induction false} WrittenCut(cs: seq<Chunk>, room: Option<nat>, n: nat)
    requires ChunksOk([], cs) && Fits(room, |Meaning([], cs)|) && n < |Pack(ChunksBits([], 0, cs))|
    ensures Inflate(Pack(ChunksBits([], 0, cs))[..n], 0, [], room).code == 2
  {
    hide Inflate, ChunksBits, Pack, ChunksOk, Meaning;
    InflateWritten(cs, room);
    CutReturns2(Pack(ChunksBits([], 0, cs)), n, room);
  }

  // ---------------------------------------------------------------- blocks before the fault

  /** Blocks none of which is the last. */
  predicate OpenOk(out: seq<byte>, cs: seq<Chunk>)
    decreases |cs|
  {
    cs == [] || (ChunkOk(out, cs[0]) && OpenOk(DeflateRoundTrip.After(out, cs[0]), cs[1..]))
  }

  function OpenMeaning(out: seq<byte>, cs: seq<Chunk>): (r: seq<byte>)
    requires OpenOk(out, cs)
    ensures |r| >= |out|
    decreases |cs|
  {
    if cs == [] then out else OpenMeaning(DeflateRoundTrip.After(out, cs[0]), cs[1..])
  }

  function OpenBits(out: seq<byte>, pos: nat, cs: seq<Chunk>): seq<bit>
    requires OpenOk(out, cs)
    decreases |cs|
  {
    if cs == [] then [] else
    var w := ChunkBits(out, pos, 0, cs[0]);
    w + OpenBits(DeflateRoundTrip.After(out, cs[0]), pos + |w|, cs[1..])
  }

  /** Good blocks are behind us: what is left decides, with their bytes as the output so far. */
  lemma {:induction false} OpenRead(src: seq<byte>, pos: nat, out: seq<byte>, room: Option<nat>, cs: seq<Chunk>)
    requires OpenOk(out, cs) && Says(src, pos, OpenBits(out, pos, cs)) && Fits(room, |OpenMeaning(out, cs)|)
    ensures pos + |OpenBits(out, pos, cs)| <= 8 * |src|
    ensures Inflate(src, pos, out, room)
         == Inflate(src, pos + |OpenBits(out, pos, cs)|, OpenMeaning(out, cs), room)
    decreases |cs|
  {
    hide Bit, BitsAt, Block, ChunkBits, ChunkOk, DeflateRoundTrip.After, Inflate, Says;
    SaysInside(src, pos, OpenBits(out, pos, cs));
    if cs != [] {
      var w, out' := ChunkBits(out, pos, 0, cs[0]), DeflateRoundTrip.After(out, cs[0]);
      SaysParts(src, pos, w, OpenBits(out', pos + |w|, cs[1..]));
      var k := ChunkReads(src, pos, out, room, 0, cs[0]);
      BlockGo(src, pos, out, room);
      OpenRead(src, pos + |w|, out', room, cs[1..]);
    }
  }

  lemma {:induction false} BlockGo(src: seq<byte>, pos: nat, out: seq<byte>, room: Option<nat>)
    requires pos + 3 <= 8 * |src| && Bit(src, pos) == 0
    requires Block(BitsAt(src, pos + 1, 2), src, pos + 3, out, room).code == 0
    ensures var r := Block(BitsAt(src, pos + 1, 2), src, pos + 3, out, room);
      Inflate(src, pos, out, room) == Inflate(src, r.pos, r.out, room)
  {
    hide Block, Bit, BitsAt;
  }

  // ---------------------------------------------------------------- block types and stored blocks

  /** The block at `pos`, whose contents start after three bits of header. */
  lemma {:induction false} BlockDecides(src: seq<byte>, pos: nat, out: seq<byte>, room: Option<nat>, last: bit, a: bit,
                                        b: bit)
    requires Says(src, pos, [last, a, b])
    ensures pos + 3 <= 8 * |src|
    ensures var r := Block(a + 2 * b, src, pos + 3, out, room);
      r.code != 0 ==> Inflate(src, pos, out, room) == r
  {
    hide Block, Bit, BitsAt;
    ThreeBits(src, pos, last, a, b);
  }

  /** Type 3: -1. */
  lemma {:induction false} ReservedType(src: seq<byte>, pos: nat, out: seq<byte>, room: Option<nat>, last: bit)
    requires Says(src, pos, [last, 1, 1])
    ensures pos <= 8 * |src| && Inflate(src, pos, out, room) == Outcome(-1, pos + 3, out)
  {
    BlockDecides(src, pos, out, room, last, 1, 1);
    hide Inflate, Says;
  }

  /** A stored length whose complement does not match: -2. */
  lemma {:induction false} LengthMismatch(src: seq<byte>, pos: nat, out: seq<byte>, room: Option<nat>, last: bit)
    requires Says(src, pos, [last, 0, 0]) && (pos + 10) / 8 + 4 <= |src|
    requires var k := (pos + 10) / 8;
      src[k] as int + 256 * src[k + 1] as int + (src[k + 2] as int + 256 * src[k + 3] as int) != 65535
    ensures pos <= 8 * |src|
    ensures Inflate(src, pos, out, room).code == -2 && Inflate(src, pos, out, room).out == out
  {
    BlockDecides(src, pos, out, room, last, 0, 0);
    hide Inflate, Says;
  }

  /** More stored bytes than there is room for: 1. */
  lemma {:induction false} StoredFull(src: seq<byte>, pos: nat, out: seq<byte>, room: Option<nat>, last: bit,
                                      bytes: seq<byte>)
    requires |bytes| < 65536 && !Fits(room, |out| + |bytes|)
    requires Says(src, pos, [last, 0, 0] + (Low(Padding(pos + 3), 0) + BytesBits(PlainBytes(bytes))))
    ensures pos <= 8 * |src| && Inflate(src, pos, out, room).code == 1
  {
    hide Inflate, Low, BytesBits, Padding, PlainBytes, Says, Stored;
    var tail := Low(Padding(pos + 3), 0) + BytesBits(PlainBytes(bytes));
    SaysParts(src, pos, [last, 0, 0], tail);
    BlockDecides(src, pos, out, room, last, 0, 0);
    PlainFull(src, pos + 3, out, room, bytes);
  }

  lemma {:induction false} PlainFull(src: seq<byte>, pos: nat, out: seq<byte>, room: Option<nat>, bytes: seq<byte>)
    requires |bytes| < 65536 && !Fits(room, |out| + |bytes|)
    requires Says(src, pos, Low(Padding(pos), 0) + BytesBits(PlainBytes(bytes)))
    ensures pos <= 8 * |src| && Stored(src, pos, out, room).code == 1
  {
    hide Low, BytesBits, Padding, Says;
    PaddedTo(pos);
    var k, all := (pos + 7) / 8, PlainBytes(bytes);
    SaysInside(src, pos, Low(Padding(pos), 0) + BytesBits(all));
    SaysParts(src, pos, Low(Padding(pos), 0), BytesBits(all));
    BytesSays(src, k, all);
    var got := src[k..k + |all|];
    assert src[k] == got[0] && src[k + 1] == got[1] && src[k + 2] == got[2] && src[k + 3] == got[3];
  }

  // ---------------------------------------------------------------- code descriptions

  /** The three counts of a code description. */
  function CountBits(hlit: nat, hdist: nat, hclen: nat): seq<bit> { Low(5, hlit) + (Low(5, hdist) + Low(4, hclen)) }

  lemma {:induction false} CountsRead(src: seq<byte>, p: nat, hlit: nat, hdist: nat, hclen: nat)
    requires hlit < 32 && hdist < 32 && hclen < 16 && Says(src, p, CountBits(hlit, hdist, hclen))
    ensures p + 14 <= 8 * |src| && BitsAt(src, p, 5) == hlit && BitsAt(src, p + 5, 5) == hdist
    ensures BitsAt(src, p + 10, 4) == hclen
  {
    hide Low;
    SaysInside(src, p, CountBits(hlit, hdist, hclen));
    SaysParts(src, p, Low(5, hlit), Low(5, hdist) + Low(4, hclen));
    SaysParts(src, p + 5, Low(5, hdist), Low(4, hclen));
    assert Pow2(5) == 32 && Pow2(4) == 16;
    LowSays(src, p, 5, hlit);
    LowSays(src, p + 5, 5, hdist);
    LowSays(src, p + 10, 4, hclen);
  }

  /** A dynamic block whose description is bad. */
  lemma {:induction false} HeaderDecides(src: seq<byte>, pos: nat, out: seq<byte>, room: Option<nat>, last: bit)
    requires Says(src, pos, [last, 0, 1])
    ensures pos + 3 <= 8 * |src|
    ensures var h := ReadHeader(src, pos + 3);
      h.BadHeader? ==> Inflate(src, pos, out, room) == Outcome(h.code, h.pos, out)
  {
    hide Inflate, ReadHeader, Says, Codes;
    BlockDecides(src, pos, out, room, last, 0, 1);
  }

  /** More than 286 length codes or more than 30 distance codes: -3. */
  lemma {:induction false} TooManyCodes(src: seq<byte>, pos: nat, out: seq<byte>, room: Option<nat>, last: bit,
                                        hlit: nat, hdist: nat, hclen: nat)
    requires hlit < 32 && hdist < 32 && hclen < 16 && (hlit + 257 > 286 || hdist + 1 > 30)
    requires Says(src, pos, [last, 0, 1] + CountBits(hlit, hdist, hclen))
    ensures pos <= 8 * |src|
    ensures Inflate(src, pos, out, room).code == -3 && Inflate(src, pos, out, room).out == out
  {
    hide Inflate, CountBits, Says, BitsAt;
    SaysParts(src, pos, [last, 0, 1], CountBits(hlit, hdist, hclen));
    CountsRead(src, pos + 3, hlit, hdist, hclen);
    HeaderDecides(src, pos, out, room, last);
  }

  /** A description up to some point: counts in range, the code length code, and instructions so far. */
  datatype Sketch = Sketch(nlen: nat, ndist: nat, cl: seq<nat>, sent: nat, prog: seq<Instr>)

  predicate CountsOk(k: Sketch) { 257 <= k.nlen <= 286 && 1 <= k.ndist <= 30 && ClOk(k.cl, k.sent) }

  predicate SketchOk(k: Sketch) {
    && CountsOk(k) && Complete(k.cl) && IsCode(k.cl) && InstrsOk([], k.prog) && InstrsCoded(k.cl, k.prog)
    && |FollowAll([], k.prog)| <= k.nlen + k.ndist
  }

  function ClPart(k: Sketch): seq<bit>
    requires CountsOk(k)
  {
    CountBits(k.nlen - 257, k.ndist - 1, k.sent - 4) + ClBits(k.cl, k.sent)
  }

  function SketchBits(k: Sketch): seq<bit>
    requires SketchOk(k)
  {
    ClPart(k) + InstrsBits(k.cl, k.prog)
  }

  lemma {:induction false} CountsShape(k: Sketch)
    requires CountsOk(k)
    ensures |k.cl| == 19 && 4 <= k.sent <= 19 && |ClPart(k)| == 14 + 3 * k.sent
  {
  }

  lemma {:induction false} ClPartRead(src: seq<byte>, p: nat, k: Sketch)
    requires CountsOk(k) && Says(src, p, ClPart(k))
    ensures p + 14 + 3 * k.sent <= 8 * |src| && ClLengths(src, p + 14, k.sent) == k.cl
    ensures BitsAt(src, p, 5) == k.nlen - 257 && BitsAt(src, p + 5, 5) == k.ndist - 1
    ensures BitsAt(src, p + 10, 4) == k.sent - 4
  {
    hide Low, ClBits, ClOk, BitsAt, ClLengths;
    CountsShape(k);
    var counts := CountBits(k.nlen - 257, k.ndist - 1, k.sent - 4);
    SaysInside(src, p, ClPart(k));
    SaysParts(src, p, counts, ClBits(k.cl, k.sent));
    CountsRead(src, p, k.nlen - 257, k.ndist - 1, k.sent - 4);
    ClRead(src, p + 14, k.cl, k.sent);
  }

  /** A code length code that is not complete: -4. */
  lemma {:induction false} IncompleteClCode(src: seq<byte>, pos: nat, out: seq<byte>, room: Option<nat>, last: bit,
                                            k: Sketch)
    requires CountsOk(k) && !Complete(k.cl) && Says(src, pos, [last, 0, 1] + ClPart(k))
    ensures pos <= 8 * |src|
    ensures Inflate(src, pos, out, room).code == -4 && Inflate(src, pos, out, room).out == out
  {
    hide Inflate, ClPart, Says, Complete, CountsOk, ReadHeader;
    SaysParts(src, pos, [last, 0, 1], ClPart(k));
    IncompleteHeader(src, pos + 3, k);
    HeaderDecides(src, pos, out, room, last);
  }

  lemma {:induction false} IncompleteHeader(src: seq<byte>, p: nat, k: Sketch)
    requires CountsOk(k) && !Complete(k.cl) && Says(src, p, ClPart(k))
    ensures p <= 8 * |src| && ReadHeader(src, p) == BadHeader(-4, p + 14 + 3 * k.sent)
  {
    hide ClPart, Says, BitsAt, Complete, ClLengths, ClOk, ReadLengths, CheckLengths;
    ClPartRead(src, p, k);
  }

  /** The instructions so far have been followed. */
  lemma {:induction false} InstrsThen(src: seq<byte>, p: nat, cl: seq<nat>, acc: seq<nat>, prog: seq<Instr>, total: nat)
    requires IsCode(cl) && |cl| == 19 && IsLengths(acc) && InstrsOk(acc, prog) && InstrsCoded(cl, prog)
    requires |FollowAll(acc, prog)| <= total && Says(src, p, InstrsBits(cl, prog))
    ensures p + |InstrsBits(cl, prog)| <= 8 * |src| && IsLengths(FollowAll(acc, prog))
    ensures ReadLengths(src, p, cl, acc, total)
         == ReadLengths(src, p + |InstrsBits(cl, prog)|, cl, FollowAll(acc, prog), total)
    decreases |prog|
  {
    hide Sym, Says, Decode, IsCode, InstrOk, Follow, InstrSym, InstrExtra, LengthsTurn, IsLengths, ReadLengths, Coded;
    SaysInside(src, p, InstrsBits(cl, prog));
    if prog != [] {
      var w := Sym(cl, InstrSym(prog[0])) + InstrExtra(prog[0]);
      SaysParts(src, p, w, InstrsBits(cl, prog[1..]));
      InstrReads(src, p, cl, acc, prog[0], total);
      FollowLengths(acc, prog[0]);
      LengthsGo(src, p, cl, acc, total);
      InstrsThen(src, p + |w|, cl, Follow(acc, prog[0]), prog[1..], total);
    }
  }

  lemma {:induction false} LengthsGo(src: seq<byte>, p: nat, cl: seq<nat>, acc: seq<nat>, total: nat)
    requires |cl| == 19 && |acc| < total && IsLengths(acc) && p <= 8 * |src|
    requires LengthsTurn(src, p, cl, acc, total).Go?
    ensures var t := LengthsTurn(src, p, cl, acc, total);
      ReadLengths(src, p, cl, acc, total) == ReadLengths(src, t.pos, cl, t.acc, total)
  {
    hide LengthsTurn, IsLengths;
  }

  /** So the description comes to what the rest of the instructions give. */
  lemma {:induction false} SketchRead(src: seq<byte>, p: nat, k: Sketch)
    requires SketchOk(k) && Says(src, p, SketchBits(k))
    ensures var q, all := p + |SketchBits(k)|, FollowAll([], k.prog);
      && q <= 8 * |src| && IsLengths(all) && |k.cl| == 19
      && ReadHeader(src, p) ==
         match ReadLengths(src, q, k.cl, all, k.nlen + k.ndist)
         case BadLengths(code, e) => BadHeader(code, e)
         case Lengths(lens, e) => CheckLengths(lens, k.nlen, e)
  {
    hide Says, BitsAt, Complete, ClLengths, ClOk, ClPart, InstrsBits, IsCode, InstrsCoded, InstrsOk, FollowAll,
         ReadLengths, CheckLengths;
    CountsShape(k);
    var w, v := ClPart(k), InstrsBits(k.cl, k.prog);
    SaysInside(src, p, SketchBits(k));
    SaysParts(src, p, w, v);
    ClPartRead(src, p, k);
    InstrsThen(src, p + |w|, k.cl, [], k.prog, k.nlen + k.ndist);
  }

  /** A dynamic block that starts with this much of a description. */
  lemma {:induction false} SketchDecides(src: seq<byte>, pos: nat, out: seq<byte>, room: Option<nat>, last: bit,
                                         k: Sketch, more: seq<bit>)
    requires SketchOk(k) && Says(src, pos, [last, 0, 1] + (SketchBits(k) + more))
    ensures var q, all := pos + 3 + |SketchBits(k)|, FollowAll([], k.prog);
      && pos <= 8 * |src| && q <= 8 * |src| && IsLengths(all) && |k.cl| == 19 && Says(src, q, more)
      && match ReadLengths(src, q, k.cl, all, k.nlen + k.ndist)
         case BadLengths(code, e) => Inflate(src, pos, out, room) == Outcome(code, e, out)
         case Lengths(lens, e) =>
           var h := CheckLengths(lens, k.nlen, e);
           h.BadHeader? ==> Inflate(src, pos, out, room) == Outcome(h.code, h.pos, out)
  {
    hide Inflate, SketchBits, Says, SketchOk, ReadHeader, ReadLengths, CheckLengths, FollowAll, IsLengths;
    SketchShape(k);
    SaysParts(src, pos, [last, 0, 1], SketchBits(k) + more);
    SaysParts(src, pos + 3, SketchBits(k), more);
    SketchRead(src, pos + 3, k);
    HeaderDecides(src, pos, out, room, last);
  }

  lemma {:induction false} SketchShape(k: Sketch)
    requires SketchOk(k)
    ensures InstrsOk([], k.prog) && IsCode(k.cl) && 257 <= k.nlen && |FollowAll([], k.prog)| <= k.nlen + k.ndist
  {
  }

  /** A repetition with nothing before it: -5. */
  lemma {:induction false} NothingToRepeat(src: seq<byte>, pos: nat, out: seq<byte>, room: Option<nat>, last: bit,
                                           k: Sketch)
    requires SketchOk(k) && k.prog == [] && Coded(k.cl, 16)
    requires Says(src, pos, [last, 0, 1] + (SketchBits(k) + Sym(k.cl, 16)))
    ensures pos <= 8 * |src|
    ensures Inflate(src, pos, out, room).code == -5 && Inflate(src, pos, out, room).out == out
  {
    hide Inflate, SketchBits, Says, SketchOk, Sym, Decode, IsCode, CheckLengths;
    SketchShape(k);
    SketchDecides(src, pos, out, room, last, k, Sym(k.cl, 16));
    SymRead(k.cl, src, pos + 3 + |SketchBits(k)|, 16);
  }

  /** A run that passes the number of lengths announced: -6. */
  lemma {:induction false} RunTooLong(src: seq<byte>, pos: nat, out: seq<byte>, room: Option<nat>, last: bit,
                                      k: Sketch, i: Instr)
    requires SketchOk(k) && !i.One? && InstrOk(FollowAll([], k.prog), i) && Coded(k.cl, InstrSym(i))
    requires |FollowAll([], k.prog)| < k.nlen + k.ndist < |Follow(FollowAll([], k.prog), i)|
    requires Says(src, pos, [last, 0, 1] + (SketchBits(k) + (Sym(k.cl, InstrSym(i)) + InstrExtra(i))))
    ensures pos <= 8 * |src|
    ensures Inflate(src, pos, out, room).code == -6 && Inflate(src, pos, out, room).out == out
  {
    hide Inflate, SketchBits, Says, SketchOk, Sym, InstrExtra, LengthsTurn, IsCode, CheckLengths, FollowAll, InstrOk,
         Follow, InstrSym, Coded;
    SketchShape(k);
    SketchDecides(src, pos, out, room, last, k, Sym(k.cl, InstrSym(i)) + InstrExtra(i));
    InstrOverruns(src, pos + 3 + |SketchBits(k)|, k.cl, FollowAll([], k.prog), i, k.nlen + k.ndist);
  }

  lemma {:induction false} InstrOverruns(src: seq<byte>, p: nat, cl: seq<nat>, acc: seq<nat>, i: Instr, total: nat)
    requires IsCode(cl) && |cl| == 19 && IsLengths(acc) && InstrOk(acc, i) && Coded(cl, InstrSym(i)) && !i.One?
    requires |acc| < total < |Follow(acc, i)| && Says(src, p, Sym(cl, InstrSym(i)) + InstrExtra(i))
    ensures LengthsTurn(src, p, cl, acc, total)
         == Stop(-6, p + cl[InstrSym(i)] + |InstrExtra(i)|)
  {
    hide Sym, Says, Decode, IsCode, Low;
    var s := InstrSym(i);
    SaysParts(src, p, Sym(cl, s), InstrExtra(i));
    SymRead(cl, src, p, s);
    var q := p + cl[s];
    assert Pow2(2) == 4 && Pow2(3) == 8 && Pow2(7) == 128;
    match i
    case Again(n) => LowRead(src, q, 2, n - 3);
    case Zeros(n) =>
      if n <= 10 {
        LowRead(src, q, 3, n - 3);
      } else {
        LowRead(src, q, 7, n - 11);
      }
  }

  /** All lengths are there, and the first of these that fails decides: a code for the end of the block, -9, a usable
      literal/length code, -7, and a usable distance code, -8. */
  lemma {:induction false} UnusableCodes(src: seq<byte>, pos: nat, out: seq<byte>, room: Option<nat>, last: bit,
                                         k: Sketch)
    requires SketchOk(k) && |FollowAll([], k.prog)| == k.nlen + k.ndist
    requires Says(src, pos, [last, 0, 1] + (SketchBits(k) + []))
    ensures pos <= 8 * |src|
    ensures var all, r := FollowAll([], k.prog), Inflate(src, pos, out, room);
      && 257 <= k.nlen < |all|
      && (all[256] == 0 ==> r.code == -9 && r.out == out)
      && (all[256] != 0 && !Usable(all[..k.nlen]) ==> r.code == -7 && r.out == out)
      && (all[256] != 0 && Usable(all[..k.nlen]) && !Usable(all[k.nlen..]) ==> r.code == -8 && r.out == out)
  {
    hide Inflate, SketchBits, Says, FollowAll, Usable, InstrsOk, IsCode, Complete, ClOk, InstrsCoded, LengthsTurn;
    SketchDecides(src, pos, out, room, last, k, []);
  }

  // ---------------------------------------------------------------- literals and copies

  /** The codes of a block and where they come from. */
  datatype Coding = FixedCodes | Described(d: Description)

  predicate CodingOk(c: Coding) { c.Described? ==> DescriptionOk(c.d) }

  function LitOf(c: Coding): seq<nat>
    requires CodingOk(c)
  {
    if c.FixedCodes? then FixedLiteral() else LitLengths(c.d)
  }
  function DistOf(c: Coding): seq<nat>
    requires CodingOk(c)
  {
    if c.FixedCodes? then FixedDistance() else DistLengths(c.d)
  }

  function CodingBits(last: bit, c: Coding): seq<bit>
    requires CodingOk(c)
  {
    if c.FixedCodes? then [last, 1, 0] else [last, 0, 1] + DescriptionBits(c.d)
  }

  /** A coded block whose codes run into a fault. */
  lemma {:induction false} CodingDecides(src: seq<byte>, pos: nat, out: seq<byte>, room: Option<nat>, last: bit,
                                         c: Coding)
    requires CodingOk(c) && Says(src, pos, CodingBits(last, c))
    ensures pos <= 8 * |src| && IsCode(LitOf(c)) && IsCode(DistOf(c)) && |DistOf(c)| <= MAXDCODES
    ensures var r := Codes(src, pos + |CodingBits(last, c)|, out, room, LitOf(c), DistOf(c));
      r.code != 0 ==> Inflate(src, pos, out, room) == r
  {
    hide Inflate, Says, Codes, ReadHeader, DescriptionBits, DescriptionOk, FixedLiteral, FixedDistance, IsCode;
    match c
    case FixedCodes =>
      FixedAreCodes();
      BlockDecides(src, pos, out, room, last, 1, 0);
    case Described(d) =>
      DescriptionShape(d);
      SaysParts(src, pos, [last, 0, 1], DescriptionBits(d));
      DescriptionRead(src, pos + 3, d);
      DescriptionCodes(src, pos + 3, d);
      BlockDecides(src, pos, out, room, last, 0, 1);
  }

  predicate TokensCoded(c: Coding, ts: seq<Token>)
    requires CodingOk(c)
  {
    forall i | 0 <= i < |ts| :: TokenCoded(LitOf(c), DistOf(c), ts[i])
  }

  /** Tokens, and no end of the block. */
  function OpenTokens(c: Coding, ts: seq<Token>): seq<bit>
    requires CodingOk(c) && TokensCoded(c, ts)
    decreases |ts|
  {
    if ts == [] then [] else TokenBits(LitOf(c), DistOf(c), ts[0]) + OpenTokens(c, ts[1..])
  }

  lemma {:induction false} TokensThen(src: seq<byte>, p: nat, out: seq<byte>, room: Option<nat>, c: Coding,
                                      ts: seq<Token>)
    requires CodingOk(c) && IsCode(LitOf(c)) && IsCode(DistOf(c)) && |DistOf(c)| <= MAXDCODES
    requires TokensCoded(c, ts) && TokensOk(out, ts) && Fits(room, |Expand(out, ts)|)
    requires Says(src, p, OpenTokens(c, ts))
    ensures Codes(src, p, out, room, LitOf(c), DistOf(c))
         == Codes(src, p + |OpenTokens(c, ts)|, Expand(out, ts), room, LitOf(c), DistOf(c))
    decreases |ts|
  {
    hide Says, IsCode, CodesTurn, TokenBits, TokenCoded, TokenOk, Append, CodingOk, LitOf, DistOf, Codes;
    if ts != [] {
      var w := TokenBits(LitOf(c), DistOf(c), ts[0]);
      SaysParts(src, p, w, OpenTokens(c, ts[1..]));
      TurnReads(src, p, out, room, LitOf(c), DistOf(c), ts[0]);
      CodesGo(src, p, out, room, LitOf(c), DistOf(c));
      TokensThen(src, p + |w|, Append(out, ts[0]), room, c, ts[1..]);
    }
  }

  lemma {:induction false} CodesGo(src: seq<byte>, p: nat, out: seq<byte>, room: Option<nat>, llen: seq<nat>,
                                   dlen: seq<nat>)
    requires |dlen| <= MAXDCODES
    ensures match CodesTurn(src, p, out, room, llen, dlen)
      case More(q, out') => Codes(src, p, out, room, llen, dlen) == Codes(src, q, out', room, llen, dlen)
      case Done(o) => Codes(src, p, out, room, llen, dlen) == o
  {
    hide CodesTurn;
  }

  /** A block with these tokens, and then the bits `more`. */
  ghost predicate Reads(src: seq<byte>, pos: nat, out: seq<byte>, room: Option<nat>, last: bit, c: Coding,
                        ts: seq<Token>, more: seq<bit>)
  {
    && CodingOk(c) && TokensCoded(c, ts) && TokensOk(out, ts) && Fits(room, |Expand(out, ts)|)
    && Says(src, pos, CodingBits(last, c) + (OpenTokens(c, ts) + more))
  }

  /** Where those tokens end. */
  function TokensEnd(pos: nat, last: bit, c: Coding, ts: seq<Token>): nat
    requires CodingOk(c) && TokensCoded(c, ts)
  {
    pos + |CodingBits(last, c)| + |OpenTokens(c, ts)|
  }

  /** What the next turn of such a block does decides, if it ends the stream. */
  lemma {:induction false} TurnDecides(src: seq<byte>, pos: nat, out: seq<byte>, room: Option<nat>, last: bit,
                                       c: Coding, ts: seq<Token>, more: seq<bit>)
    requires Reads(src, pos, out, room, last, c, ts, more)
    ensures pos <= 8 * |src| && IsCode(LitOf(c)) && IsCode(DistOf(c)) && |DistOf(c)| <= MAXDCODES
    ensures var q := TokensEnd(pos, last, c, ts);
      && Says(src, q, more)
      && var t := CodesTurn(src, q, Expand(out, ts), room, LitOf(c), DistOf(c));
         t.Done? && t.o.code != 0 ==> Inflate(src, pos, out, room) == t.o
  {
    hide Says, IsCode, CodesTurn, Codes, TokensCoded, TokensOk, Expand, OpenTokens, CodingBits, CodingOk, Inflate,
         LitOf, DistOf;
    var w, v := CodingBits(last, c), OpenTokens(c, ts);
    SaysParts(src, pos, w, v + more);
    SaysParts(src, pos + |w|, v, more);
    CodingDecides(src, pos, out, room, last, c);
    TokensThen(src, pos + |w|, out, room, c, ts);
    CodesGo(src, pos + |w| + |v|, Expand(out, ts), room, LitOf(c), DistOf(c));
  }

  /** A copy from before the start of the output: -11. */
  lemma {:induction false} TooFarBack(src: seq<byte>, pos: nat, out: seq<byte>, room: Option<nat>, last: bit, c: Coding,
                                      ts: seq<Token>, len: nat, dist: nat)
    requires CodingOk(c) && TokenCoded(LitOf(c), DistOf(c), Copy(len, dist))
    requires Reads(src, pos, out, room, last, c, ts, TokenBits(LitOf(c), DistOf(c), Copy(len, dist)))
    requires dist > |Expand(out, ts)|
    ensures pos <= 8 * |src| && Inflate(src, pos, out, room).code == -11
    ensures Inflate(src, pos, out, room).out == Expand(out, ts)
  {
    hide CodingOk, LitOf, DistOf, TokenCoded, TokenBits, Reads, Expand, Inflate, IsCode, CodesTurn, Says;
    var more := TokenBits(LitOf(c), DistOf(c), Copy(len, dist));
    ReadsShape(src, pos, out, room, last, c, ts, more);
    TurnDecides(src, pos, out, room, last, c, ts, more);
    var q := TokensEnd(pos, last, c, ts);
    CopyFails(src, q, Expand(out, ts), room, LitOf(c), DistOf(c), len, dist);
  }

  lemma {:induction false} ReadsShape(src: seq<byte>, pos: nat, out: seq<byte>, room: Option<nat>, last: bit, c: Coding,
                                      ts: seq<Token>, more: seq<bit>)
    requires Reads(src, pos, out, room, last, c, ts, more)
    ensures CodingOk(c) && TokensCoded(c, ts) && TokensOk(out, ts)
  {
    hide Says, TokensOk, TokensCoded, CodingOk;
  }

  /** No room for the next byte or copy: 1. */
  lemma {:induction false} NoRoom(src: seq<byte>, pos: nat, out: seq<byte>, room: Option<nat>, last: bit, c: Coding,
                                  ts: seq<Token>, t: Token)
    requires CodingOk(c) && TokenCoded(LitOf(c), DistOf(c), t)
    requires Reads(src, pos, out, room, last, c, ts, TokenBits(LitOf(c), DistOf(c), t))
    requires TokenOk(Expand(out, ts), t) && !Fits(room, |Append(Expand(out, ts), t)|)
    ensures pos <= 8 * |src| && Inflate(src, pos, out, room).code == 1
  {
    hide CodingOk, LitOf, DistOf, TokenCoded, TokenBits, Reads, Expand, Inflate, IsCode, CodesTurn, Says;
    var more := TokenBits(LitOf(c), DistOf(c), t);
    ReadsShape(src, pos, out, room, last, c, ts, more);
    TurnDecides(src, pos, out, room, last, c, ts, more);
    var q := TokensEnd(pos, last, c, ts);
    match t
    case Copy(len, dist) => CopyFails(src, q, Expand(out, ts), room, LitOf(c), DistOf(c), len, dist);
    case Literal(b) => LiteralFails(src, q, Expand(out, ts), room, LitOf(c), DistOf(c), b);
  }

  lemma {:induction false} LiteralFails(src: seq<byte>, p: nat, out: seq<byte>, room: Option<nat>, llen: seq<nat>,
                                        dlen: seq<nat>, b: byte)
    requires IsCode(llen) && |dlen| <= MAXDCODES && TokenCoded(llen, dlen, Literal(b)) && !Fits(room, |out| + 1)
    requires Says(src, p, TokenBits(llen, dlen, Literal(b)))
    ensures CodesTurn(src, p, out, room, llen, dlen) == Done(Outcome(1, p + llen[b], out))
  {
    hide Sym, Says, Decode, IsCode, ReadPair;
    SymRead(llen, src, p, b);
  }

  /** The distance is checked before the room. */
  lemma {:induction false} CopyFails(src: seq<byte>, p: nat, out: seq<byte>, room: Option<nat>, llen: seq<nat>,
                                     dlen: seq<nat>, len: nat, dist: nat)
    requires IsCode(llen) && IsCode(dlen) && |dlen| <= MAXDCODES && TokenCoded(llen, dlen, Copy(len, dist))
    requires dist > |out| || !Fits(room, |out| + len)
    requires Says(src, p, TokenBits(llen, dlen, Copy(len, dist)))
    ensures CodesTurn(src, p, out, room, llen, dlen)
         == Done(Outcome(if dist > |out| then -11 else 1, p + |TokenBits(llen, dlen, Copy(len, dist))|, out))
  {
    hide ChooseLen, ChooseDist, Low, Sym, Says, Decode, IsCode, ReadPair, CodesTurn, CopyBack, Coded;
    var l, d := ChooseLen(len), ChooseDist(dist);
    LenPins(len);
    var s := 257 + l.sym;
    var tail := Low(l.bits, l.rest) + (Sym(dlen, d.sym) + Low(d.bits, d.rest));
    SaysParts(src, p, Sym(llen, s), tail);
    SymRead(llen, src, p, s);
    PairReads(src, p + llen[s], llen, dlen, len, dist);
    CopyLength(llen, dlen, len, dist);
    PairStops(src, p, out, room, llen, dlen, s, p + llen[s]);
  }

  lemma {:induction false} PairStops(src: seq<byte>, p: nat, out: seq<byte>, room: Option<nat>, llen: seq<nat>,
                                     dlen: seq<nat>, s: nat, q: nat)
    requires |dlen| <= MAXDCODES && Decode(llen, src, p) == Symbol(s, q) && 257 <= s < 286
    requires ReadPair(src, q, s - 257, dlen).Pair?
    ensures var pair := ReadPair(src, q, s - 257, dlen);
      pair.dist > |out| || !Fits(room, |out| + pair.len) ==>
        CodesTurn(src, p, out, room, llen, dlen)
        == Done(Outcome(if pair.dist > |out| then -11 else 1, pair.next, out))
  {
    hide Decode, ReadPair, CopyBack;
  }

  // ---------------------------------------------------------------- invalid codes

  /** Fifteen bits are there, and no symbol of the code starts them. */
  ghost predicate NoSymbol(lengths: seq<nat>, src: seq<byte>, p: nat) {
    && p + 15 <= 8 * |src|
    && forall s: nat | Coded(lengths, s) :: !Says(src, p, Sym(lengths, s))
  }

  lemma {:induction false} NoSymbolRead(lengths: seq<nat>, src: seq<byte>, p: nat)
    requires IsCode(lengths) && NoSymbol(lengths, src, p)
    ensures Decode(lengths, src, p) == NoCode
  {
    hide Sym, Says;
    if Decode(lengths, src, p).Symbol? {
      var d := Decode(lengths, src, p);
      DecodeIff(lengths, src, p, d.sym, d.next);
      MatchSays(lengths, src, p, d.sym);
    }
  }

  lemma {:induction false} MatchSays(lengths: seq<nat>, src: seq<byte>, p: nat, s: nat)
    requires IsCode(lengths) && Coded(lengths, s) && p + lengths[s] <= 8 * |src|
    requires CodeAt(src, p, lengths[s]) == Codeword(lengths, s)
    ensures Says(src, p, Sym(lengths, s))
  {
    hide Codeword, Kraft, CodeAt;
    CodeAtSays(src, p, lengths[s]);
  }

  lemma {:induction false} CodeAtSays(src: seq<byte>, p: nat, n: nat)
    requires p + n <= 8 * |src|
    ensures Says(src, p, High(n, CodeAt(src, p, n)))
    decreases n
  {
    hide Bit;
    if n > 0 {
      CodeAtSays(src, p, n - 1);
      var v := CodeAt(src, p, n);
      assert v / 2 == CodeAt(src, p, n - 1) && v % 2 == Bit(src, p + n - 1);
      assert High(n, v) == High(n - 1, v / 2) + [v % 2];
    }
  }

  /** A literal/length code that is none, or stands for 286 or 287: -10. */
  lemma {:induction false} InvalidSymbol(src: seq<byte>, pos: nat, out: seq<byte>, room: Option<nat>, last: bit,
                                         c: Coding, ts: seq<Token>, more: seq<bit>)
    requires Reads(src, pos, out, room, last, c, ts, more)
    requires var q := TokensEnd(pos, last, c, ts);
      NoSymbol(LitOf(c), src, q) || exists s :: 286 <= s <= 287 && Coded(LitOf(c), s) && more == Sym(LitOf(c), s)
    ensures pos <= 8 * |src| && Inflate(src, pos, out, room).code == -10
    ensures TokensOk(out, ts) && Inflate(src, pos, out, room).out == Expand(out, ts)
  {
    hide CodingOk, LitOf, DistOf, Reads, Expand, Inflate, IsCode, Says, NoSymbol, Sym, TokensCoded, TokensOk,
         OpenTokens, CodingBits, Decode, ReadPair, Coded;
    ReadsShape(src, pos, out, room, last, c, ts, more);
    TurnDecides(src, pos, out, room, last, c, ts, more);
    var q := TokensEnd(pos, last, c, ts);
    if NoSymbol(LitOf(c), src, q) {
      NoSymbolRead(LitOf(c), src, q);
    } else {
      var s :| 286 <= s <= 287 && Coded(LitOf(c), s) && more == Sym(LitOf(c), s);
      SymRead(LitOf(c), src, q, s);
    }
  }

  /** A length symbol with its extra bits. */
  function LengthBits(c: Coding, l: Choice): seq<bit>
    requires CodingOk(c) && Coded(LitOf(c), 257 + l.sym)
  {
    Sym(LitOf(c), 257 + l.sym) + Low(l.bits, l.rest)
  }

  /** A length, and then no distance code: -10. */
  lemma {:induction false} InvalidDistance(src: seq<byte>, pos: nat, out: seq<byte>, room: Option<nat>, last: bit,
                                           c: Coding, ts: seq<Token>, len: nat, l: Choice)
    requires 3 <= len <= 258 && l == ChooseLen(len)
    requires CodingOk(c) && Coded(LitOf(c), 257 + l.sym) && TokensCoded(c, ts) && TokensOk(out, ts)
    requires Reads(src, pos, out, room, last, c, ts, LengthBits(c, l))
    requires NoSymbol(DistOf(c), src, TokensEnd(pos, last, c, ts) + |LengthBits(c, l)|)
    ensures pos <= 8 * |src| && Inflate(src, pos, out, room).code == -10
    ensures Inflate(src, pos, out, room).out == Expand(out, ts)
  {
    hide CodingOk, LitOf, DistOf, Reads, Expand, Inflate, IsCode, Says, NoSymbol, Sym, TokensCoded, TokensOk,
         OpenTokens, CodingBits, Decode, ChooseLen, Low, LenBase, LenExtra, ReadBits, TokensEnd, CodesTurn;
    var s, more := 257 + l.sym, LengthBits(c, l);
    TurnDecides(src, pos, out, room, last, c, ts, more);
    var q := TokensEnd(pos, last, c, ts);
    LenPins(len);
    SaysParts(src, q, Sym(LitOf(c), s), Low(l.bits, l.rest));
    SymRead(LitOf(c), src, q, s);
    LowRead(src, q + LitOf(c)[s], l.bits, l.rest);
    NoSymbolRead(DistOf(c), src, q + |more|);
    PairInvalid(src, q, Expand(out, ts), room, LitOf(c), DistOf(c), s, q + LitOf(c)[s]);
  }

  lemma {:induction false} PairInvalid(src: seq<byte>, p: nat, out: seq<byte>, room: Option<nat>, llen: seq<nat>,
                                       dlen: seq<nat>, s: nat, q: nat)
    requires |dlen| <= MAXDCODES && Decode(llen, src, p) == Symbol(s, q) && 257 <= s < 286
    requires ReadPair(src, q, s - 257, dlen).BadPair?
    ensures CodesTurn(src, p, out, room, llen, dlen)
         == Done(Outcome(-10, ReadPair(src, q, s - 257, dlen).pos, out))
  {
    hide Decode, ReadPair;
  }
}
