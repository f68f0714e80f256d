/** What holds of every run of puff.c: scanning against writing, dependence on the bytes consumed
    only, overlapping copies, and the agreement of the two decode functions. */
module PuffTheorems {
  import opened Bits
  import opened Huffman
  import opened Deflate
  import opened BitReader

  // ---------------------------------------------------------------- copies

  /** A copy leaves what was there and makes every new byte equal to the one `dist` places before it,
      also when it reads bytes it has itself written. */
  lemma {:induction false} CopyBackIs(out: seq<byte>, dist: nat, len: nat)
    requires 0 < dist <= |out|
    ensures var r := CopyBack(out, dist, len);
      && r[..|out|] == out
      && forall i | |out| <= i < |r| :: r[i] == r[i - dist]
    decreases len
  {
    if len > 0 {
      var next := out + [out[|out| - dist]];
      CopyBackIs(next, dist, len - 1);
      var r := CopyBack(next, dist, len - 1);
      assert r[..|out|] == r[..|next|][..|out|] == out;
      assert r[|out|] == r[..|next|][|out|] == next[|out|];
      assert r[|out| - dist] == r[..|out|][|out| - dist];
    }
  }

  // ---------------------------------------------------------------- slow and fast decode

  /** Any two decodes that end as the codewords demand end alike: the same symbol with the same
      buffer and position, the same invalid codes after the same bytes, the same shortages. */
  lemma {:induction false} DecodesAgree(src: seq<byte>, d: Decoded, p: nat, r: Option<int>, incnt: nat, bitbuf: nat,
                                        bitcnt: nat,
                                        r': Option<int>, incnt': nat, bitbuf': nat, bitcnt': nat)
    requires Ended(src, d, p, r, incnt, bitbuf, bitcnt) && Ended(src, d, p, r', incnt', bitbuf', bitcnt')
    ensures r == r'
    ensures d.Symbol? ==> incnt == incnt' && bitbuf == bitbuf' && bitcnt == bitcnt'
    ensures d.NoCode? ==> incnt == incnt'
  {
    hide BitsAt;
  }

  // ---------------------------------------------------------------- every symbol is reachable

  /** In a code that is not over-subscribed a codeword fits its length, so some input matches it. */
  lemma {:induction false} CodewordFits(lengths: seq<nat>, s: nat)
    requires IsLengths(lengths) && Kraft(lengths) <= Pow2(MAXBITS)
    requires s < |lengths| && lengths[s] > 0
    ensures Codeword(lengths, s) < Pow2(lengths[s])
  {
    var len := lengths[s];
    LeftIsKraft(lengths, MAXBITS);
    LeftIsKraft(lengths, len);
    if Left(lengths, len) < 0 {
      LeftStaysNegative(lengths, len, MAXBITS);
    }
    CountMonotone(lengths, len, s, |lengths|);
  }

  // ---------------------------------------------------------------- scanning and writing

  /** Room for everything scanned changes nothing; with less, the run ends with code 1. */
  ghost predicate Limited(scan: Outcome, write: Outcome, room: nat) {
    if |scan.out| <= room then write == scan else write.code == 1
  }

  lemma {:induction false} StoredRoom(src: seq<byte>, pos: nat, out: seq<byte>, room: nat)
    requires pos <= 8 * |src|
    ensures |out| <= |Stored(src, pos, out, None).out|
    ensures |out| <= room ==> Limited(Stored(src, pos, out, None), Stored(src, pos, out, Some(room)), room)
  {
  }

  lemma {:induction false} TurnRoom(src: seq<byte>, pos: nat, out: seq<byte>, room: nat, llen: seq<nat>, dlen: seq<nat>)
    requires |dlen| <= MAXDCODES && |out| <= room
    ensures match CodesTurn(src, pos, out, None, llen, dlen)
            case Done(o) => o.out == out && CodesTurn(src, pos, out, Some(room), llen, dlen) == Done(o)
            case More(q, out') =>
              && |out| <= |out'|
              && match CodesTurn(src, pos, out, Some(room), llen, dlen)
                 case Done(o) => |out'| > room && o.code == 1
                 case More(q', out'') => |out'| <= room && q' == q && out'' == out'
  {
    hide Decode, ReadPair, LenBase;
  }

  lemma {:induction false} CodesGrow(src: seq<byte>, pos: nat, out: seq<byte>, llen: seq<nat>, dlen: seq<nat>)
    requires |dlen| <= MAXDCODES
    ensures |out| <= |Codes(src, pos, out, None, llen, dlen).out|
    decreases 8 * |src| - pos
  {
    TurnRoom(src, pos, out, |out|, llen, dlen);
    hide CodesTurn;
    var t := CodesTurn(src, pos, out, None, llen, dlen);
    if t.More? {
      CodesGrow(src, t.pos, t.out, llen, dlen);
    }
  }

  lemma {:induction false} CodesRoom(src: seq<byte>, pos: nat, out: seq<byte>, room: nat,
                                     llen: seq<nat>, dlen: seq<nat>)
    requires |dlen| <= MAXDCODES && |out| <= room
    ensures Limited(Codes(src, pos, out, None, llen, dlen), Codes(src, pos, out, Some(room), llen, dlen), room)
    decreases 8 * |src| - pos
  {
    TurnRoom(src, pos, out, room, llen, dlen);
    hide CodesTurn;
    var t := CodesTurn(src, pos, out, None, llen, dlen);
    if t.More? {
      if |t.out| <= room {
        CodesRoom(src, t.pos, t.out, room, llen, dlen);
      } else {
        CodesGrow(src, t.pos, t.out, llen, dlen);
      }
    }
  }

  lemma {:induction false} BlockRoom(kind: nat, src: seq<byte>, pos: nat, out: seq<byte>, room: nat)
    requires pos <= 8 * |src|
    ensures |out| <= |Block(kind, src, pos, out, None).out|
    ensures |out| <= room ==> Limited(Block(kind, src, pos, out, None), Block(kind, src, pos, out, Some(room)), room)
  {
    hide Codes, ReadHeader, Limited, FixedLen;
    if kind == 0 {
      StoredRoom(src, pos, out, room);
    } else if kind == 1 {
      CodesGrow(src, pos, out, FixedLiteral(), FixedDistance());
      if |out| <= room {
        CodesRoom(src, pos, out, room, FixedLiteral(), FixedDistance());
      }
    } else {
      LimitedSame(out, room);
      var h := ReadHeader(src, pos);
      if kind == 2 && h.Header? {
        CodesGrow(src, h.next, out, h.llen, h.dlen);
        if |out| <= room {
          CodesRoom(src, h.next, out, room, h.llen, h.dlen);
        }
      }
    }
  }

  lemma {:induction false} LimitedSame(out: seq<byte>, room: nat)
    ensures |out| <= room ==> forall code, pos :: Limited(Outcome(code, pos, out), Outcome(code, pos, out), room)
  {
  }

  lemma {:induction false} InflateGrow(src: seq<byte>, pos: nat, out: seq<byte>)
    requires pos <= 8 * |src|
    ensures |out| <= |Inflate(src, pos, out, None).out|
    decreases 8 * |src| - pos
  {
    hide Block, Bit, BitsAt;
    if pos + 3 <= 8 * |src| {
      var kind := BitsAt(src, pos + 1, 2);
      BlockRoom(kind, src, pos + 3, out, 0);
      var r := Block(kind, src, pos + 3, out, None);
      if r.code == 0 && Bit(src, pos) == 0 {
        InflateGrow(src, r.pos, r.out);
      }
    }
  }

  /** Scan mode predicts write mode on every stream, well formed or not: if the bytes a scan counts fit,
      a writing run has the very same outcome; if they do not, it returns 1. */
  lemma {:induction false} ScanPredictsWrite(src: seq<byte>, pos: nat, out: seq<byte>, room: nat)
    requires pos <= 8 * |src| && |out| <= room
    ensures Limited(Inflate(src, pos, out, None), Inflate(src, pos, out, Some(room)), room)
    decreases 8 * |src| - pos
  {
    hide Block, Bit, BitsAt;
    if pos + 3 <= 8 * |src| {
      var kind := BitsAt(src, pos + 1, 2);
      BlockRoom(kind, src, pos + 3, out, room);
      var r := Block(kind, src, pos + 3, out, None);
      if r.code == 0 && Bit(src, pos) == 0 {
        if |r.out| <= room {
          ScanPredictsWrite(src, r.pos, r.out, room);
        } else {
          InflateGrow(src, r.pos, r.out);
        }
      }
    }
  }

  // ---------------------------------------------------------------- only the consumed bytes matter

  /** `src` and `src'` share their first `k` bytes. */
  ghost predicate Share(src: seq<byte>, src': seq<byte>, k: nat) {
    k <= |src| && k <= |src'| && src[..k] == src'[..k]
  }

  lemma {:induction false} DecodePrefix(lengths: seq<nat>, src: seq<byte>, src': seq<byte>, k: nat, p: nat)
    requires Share(src, src', k)
    requires Decode(lengths, src, p).Symbol? && Decode(lengths, src, p).next <= 8 * k
    ensures Decode(lengths, src', p) == Decode(lengths, src, p)
  {
    var d := Decode(lengths, src, p);
    DecodeIff(lengths, src, p, d.sym, d.next);
    CodeAtPrefix(src, src', k, p, lengths[d.sym]);
    DecodeIff(lengths, src', p, d.sym, d.next);
  }

  lemma {:induction false} ReadBitsPrefix(src: seq<byte>, src': seq<byte>, k: nat, p: nat, n: nat)
    requires Share(src, src', k) && p + n <= 8 * k
    ensures ReadBits(src, p, n) == ReadBits(src', p, n)
  {
    BitsAtPrefix(src, src', k, p, n);
  }

  lemma {:induction false} PairPrefix(src: seq<byte>, src': seq<byte>, k: nat, p: nat, sym: nat, dlen: seq<nat>)
    requires Share(src, src', k) && sym < 29 && |dlen| <= MAXDCODES
    requires ReadPair(src, p, sym, dlen).Pair? && ReadPair(src, p, sym, dlen).next <= 8 * k
    ensures ReadPair(src', p, sym, dlen) == ReadPair(src, p, sym, dlen)
  {
    hide Decode, BitsAt, Share, LenBase, LenExtra, DistBase, DistExtra;
    ReadBitsPrefix(src, src', k, p, LenExtra(sym));
    DecodePrefix(dlen, src, src', k, p + LenExtra(sym));
    var d := Decode(dlen, src, p + LenExtra(sym));
    ReadBitsPrefix(src, src', k, d.next, DistExtra(d.sym));
  }

  lemma {:induction false} TurnPrefix(src: seq<byte>, src': seq<byte>, k: nat, pos: nat, out: seq<byte>,
                                      room: Option<nat>,
                                      llen: seq<nat>, dlen: seq<nat>)
    requires Share(src, src', k) && |dlen| <= MAXDCODES
    requires match CodesTurn(src, pos, out, room, llen, dlen)
             case Done(o) => o.code == 0 && o.pos <= 8 * k
             case More(p, _) => p <= 8 * k
    ensures CodesTurn(src', pos, out, room, llen, dlen) == CodesTurn(src, pos, out, room, llen, dlen)
  {
    hide Decode, ReadPair, Share, CopyBack;
    DecodePrefix(llen, src, src', k, pos);
    var d := Decode(llen, src, pos);
    if 257 <= d.sym < 257 + 29 {
      PairPrefix(src, src', k, d.next, d.sym - 257, dlen);
    }
  }

  lemma {:induction false} CodesPrefix(src: seq<byte>, src': seq<byte>, k: nat, pos: nat, out: seq<byte>,
                                       room: Option<nat>, llen: seq<nat>, dlen: seq<nat>)
    requires Share(src, src', k) && |dlen| <= MAXDCODES
    requires Codes(src, pos, out, room, llen, dlen).code == 0 && Codes(src, pos, out, room, llen, dlen).pos <= 8 * k
    ensures Codes(src', pos, out, room, llen, dlen) == Codes(src, pos, out, room, llen, dlen)
    decreases 8 * |src| - pos
  {
    hide CodesTurn, Share;
    TurnPrefix(src, src', k, pos, out, room, llen, dlen);
    var t := CodesTurn(src, pos, out, room, llen, dlen);
    if t.More? {
      CodesPrefix(src, src', k, t.pos, t.out, room, llen, dlen);
    }
  }

  lemma {:induction false} RunPrefix(src: seq<byte>, src': seq<byte>, k: nat, q: nat, s: nat, acc: seq<nat>, total: nat)
    requires Share(src, src', k) && 16 <= s < 19 && |acc| < total && IsLengths(acc)
    requires RunTurn(src, q, s, acc, total).Go? && RunTurn(src, q, s, acc, total).pos <= 8 * k
    ensures RunTurn(src', q, s, acc, total) == RunTurn(src, q, s, acc, total)
  {
    hide BitsAt, Share;
    ReadBitsPrefix(src, src', k, q, RunExtra(s));
  }

  lemma {:induction false} LengthsPrefix(src: seq<byte>, src': seq<byte>, k: nat, p: nat, cl: seq<nat>,
                                         acc: seq<nat>, total: nat)
    requires Share(src, src', k) && |cl| == 19 && |acc| <= total && IsLengths(acc) && p <= 8 * k
    requires p <= 8 * |src| && p <= 8 * |src'|
    requires var l := ReadLengths(src, p, cl, acc, total); l.Lengths? && l.next <= 8 * k
    ensures ReadLengths(src', p, cl, acc, total) == ReadLengths(src, p, cl, acc, total)
    decreases total - |acc|
  {
    hide Decode, RunTurn, Share;
    if |acc| < total {
      var t := LengthsTurn(src, p, cl, acc, total);
      DecodePrefix(cl, src, src', k, p);
      var d := Decode(cl, src, p);
      if d.sym >= 16 {
        RunPrefix(src, src', k, d.next, d.sym, acc, total);
      }
      assert LengthsTurn(src', p, cl, acc, total) == t;
      LengthsPrefix(src, src', k, t.pos, cl, t.acc, total);
    }
  }

  lemma {:induction false} ClPrefix(src: seq<byte>, src': seq<byte>, k: nat, p: nat, ncode: nat)
    requires Share(src, src', k) && p + 3 * ncode <= 8 * k
    ensures ClLengths(src', p, ncode) == ClLengths(src, p, ncode)
  {
    hide BitsAt, Place;
    forall s | 0 <= s < 19
      ensures ClLength(src', p, ncode, s) == ClLength(src, p, ncode, s)
    {
      if Place(s) < ncode {
        ReadBitsPrefix(src, src', k, p + 3 * Place(s), 3);
      }
    }
  }

  lemma {:induction false} AllLengthsPrefix(src: seq<byte>, src': seq<byte>, k: nat, p: nat, ncode: nat, total: nat)
    requires Share(src, src', k) && p <= 8 * |src| && p <= 8 * |src'|
    requires AllLengths(src, p, ncode, total).Lengths? && AllLengths(src, p, ncode, total).next <= 8 * k
    ensures AllLengths(src', p, ncode, total) == AllLengths(src, p, ncode, total)
  {
    hide ClLengths, ReadLengths, Complete;
    ClPrefix(src, src', k, p, ncode);
    LengthsPrefix(src, src', k, p + 3 * ncode, ClLengths(src, p, ncode), [], total);
  }

  lemma {:induction false} HeaderPrefix(src: seq<byte>, src': seq<byte>, k: nat, pos: nat)
    requires Share(src, src', k) && pos <= 8 * |src| && pos <= 8 * |src'|
    requires ReadHeader(src, pos).Header? && ReadHeader(src, pos).next <= 8 * k
    ensures ReadHeader(src', pos) == ReadHeader(src, pos)
  {
    hide BitsAt, AllLengths, CheckLengths;
    BitsAtPrefix(src, src', k, pos, 5);
    BitsAtPrefix(src, src', k, pos + 5, 5);
    BitsAtPrefix(src, src', k, pos + 10, 4);
    var nlen, ndist := BitsAt(src, pos, 5) + 257, BitsAt(src, pos + 5, 5) + 1;
    AllLengthsPrefix(src, src', k, pos + 14, BitsAt(src, pos + 10, 4) + 4, nlen + ndist);
  }

  lemma {:induction false} StoredPrefix(src: seq<byte>, src': seq<byte>, k: nat, pos: nat, out: seq<byte>,
                                        room: Option<nat>)
    requires Share(src, src', k) && pos <= 8 * |src| && pos <= 8 * |src'|
    requires Stored(src, pos, out, room).code == 0 && Stored(src, pos, out, room).pos <= 8 * k
    ensures Stored(src', pos, out, room) == Stored(src, pos, out, room)
  {
    var j := (pos + 7) / 8;
    assert forall i | 0 <= i < k :: src[i] == src[..k][i] == src'[i];
    var len: nat := src[j] as int + 256 * src[j + 1] as int;
    assert src[j + 4..j + 4 + len] == src'[j + 4..j + 4 + len];
  }

  lemma {:induction false} BlockPrefix(kind: nat, src: seq<byte>, src': seq<byte>, k: nat, pos: nat, out: seq<byte>,
                                       room: Option<nat>)
    requires Share(src, src', k) && pos <= 8 * |src| && pos <= 8 * |src'|
    requires Block(kind, src, pos, out, room).code == 0 && Block(kind, src, pos, out, room).pos <= 8 * k
    ensures Block(kind, src', pos, out, room) == Block(kind, src, pos, out, room)
  {
    hide Stored, Codes, ReadHeader, Share, FixedLen;
    if kind == 0 {
      StoredPrefix(src, src', k, pos, out, room);
    } else if kind == 1 {
      CodesPrefix(src, src', k, pos, out, room, FixedLiteral(), FixedDistance());
    } else {
      HeaderPrefix(src, src', k, pos);
      var h := ReadHeader(src, pos);
      CodesPrefix(src, src', k, h.next, out, room, h.llen, h.dlen);
    }
  }

  /** A success depends only on the bytes consumed: any source that shares them inflates to the same
      bytes and consumes as much, whatever follows. */
  lemma {:induction false} SuccessNeedsOnlyConsumed(src: seq<byte>, src': seq<byte>, k: nat, pos: nat,
                                                    out: seq<byte>, room: Option<nat>)
    requires Share(src, src', k) && pos <= 8 * |src| && pos <= 8 * |src'|
    requires Inflate(src, pos, out, room).code == 0 && Inflate(src, pos, out, room).pos <= 8 * k
    ensures Inflate(src', pos, out, room) == Inflate(src, pos, out, room)
    decreases 8 * |src| - pos
  {
    hide Block, Bit, BitsAt;
    ReadBitsPrefix(src, src', k, pos, 1);
    OneBit(src, pos);
    OneBit(src', pos);
    ReadBitsPrefix(src, src', k, pos + 1, 2);
    var kind := BitsAt(src, pos + 1, 2);
    BlockPrefix(kind, src, src', k, pos + 3, out, room);
    var r := Block(kind, src, pos + 3, out, room);
    if Bit(src, pos) == 0 {
      SuccessNeedsOnlyConsumed(src, src', k, r.pos, r.out, room);
    }
  }
}
