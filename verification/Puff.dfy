/** puff.c: the inflate that works step by step on a bit buffer, count/symbol tables and an output
    buffer, each method proved against the meaning of the stream in module Deflate. `longjmp` on
    exhausted input is the result `None`. C's `|` between values with no common bits is `+`. */
module Puff {
  import opened Bits
  import opened Huffman
  import opened Deflate
  import opened HuffmanTables
  import opened BitReader

  class State {
    const inp: seq<byte>
    const out: array?<byte>     // null: scanning only
    const base: nat             // dest is out + base
    const outlen: nat
    var outcnt: nat
    var incnt: nat
    var bitbuf: nat
    var bitcnt: nat
    ghost var made: seq<byte>   // the bytes decoded so far, kept in scanning mode too
    ghost const was: seq<byte>  // out as it was at the start

    /** Position in the bit stream. */
    ghost function Pos(): int
      reads `incnt, `bitcnt
    {
      8 * incnt - bitcnt
    }

    ghost function Room(): Option<nat> {
      if out == null then None else Some(outlen)
    }

    ghost predicate InputOk()
      reads `incnt, `bitbuf, `bitcnt
    {
      BufferOk(inp, incnt, bitbuf, bitcnt)
    }

    /** The output area holds exactly the bytes decoded so far; the rest of the buffer is untouched. */
    ghost predicate OutputOk()
      reads `outcnt, `made, out
    {
      && outcnt == |made|
      && (out != null ==>
            && outcnt <= outlen && base + outlen <= out.Length && |was| == out.Length
            && forall i {:trigger out[i]} | 0 <= i < out.Length ::
                 out[i] == if base <= i < base + outcnt then made[i - base] else was[i])
    }

    ghost predicate Valid()
      reads this, out
    {
      InputOk() && OutputOk()
    }

    constructor (dest: array?<byte>, base: nat, destlen: nat, source: seq<byte>)
      requires dest != null ==> base + destlen <= dest.Length
      ensures Valid() && Pos() == 0 && made == []
      ensures inp == source && out == dest && this.base == base && outlen == destlen
      ensures dest != null ==> was == dest[..]
    {
      inp, out, this.base, outlen := source, dest, base, destlen;
      outcnt, incnt, bitbuf, bitcnt := 0, 0, 0, 0;
      made := [];
      was := if dest == null then [] else dest[..];
    }

    /** The next `need` bits; what is left of the last byte loaded stays in the buffer. */
    method Bits(need: nat) returns (r: Option<nat>)
      requires InputOk() && need <= 13
      modifies `incnt, `bitbuf, `bitcnt
      ensures r == ReadBits(inp, old(Pos()), need)
      ensures r.Some? ==> InputOk() && Pos() == old(Pos()) + need
    {
      hide BitsAt, Pow2;
      var val := bitbuf;
      ghost var p: nat := Pos();
      while bitcnt < need
        invariant incnt <= |inp| && bitcnt <= 8 * incnt && Pos() == p
        invariant val == BitsAt(inp, p, bitcnt)
        invariant bitcnt < need + 8 || bitcnt < 8
        decreases need - bitcnt
      {
        if incnt == |inp| {
          return None;
        }
        LoadByte(inp, p, bitcnt, incnt);
        val := val + inp[incnt] * Pow2(bitcnt);
        incnt := incnt + 1;
        bitcnt := bitcnt + 8;
      }
      BitsAtDrop(inp, p, need, bitcnt - need);
      bitbuf := val / Pow2(need);
      bitcnt := bitcnt - need;
      r := Some(val % Pow2(need));
    }

    /** What a call of decode on a table for `lengths` leaves behind when it started at `p`. */
    ghost predicate AfterDecode(lengths: seq<nat>, p: nat, r: Option<int>)
      reads this
    {
      Ended(inp, Decode(lengths, inp, p), p, r, incnt, bitbuf, bitcnt)
    }

    /** The simple decode, one bit at a time. */
    method DecodeSlow(t: Table, ghost lengths: seq<nat>) returns (r: Option<int>)
      requires InputOk() && IsLengths(lengths) && IsTable(lengths, t)
      modifies `incnt, `bitbuf, `bitcnt
      ensures AfterDecode(lengths, old(Pos()), r)
    {
      ghost var p: nat := Pos();
      hide IsTable, IsLengths, Walk, Decode, Walking, ReadBits;
      ghost var w := StartWalk(lengths, t, inp, p);
      var code: nat, first: nat, index: nat := 0, 0, 0;
      for len := 1 to MAXBITS + 1
        invariant InputOk() && Pos() == p + len - 1
        invariant Walking(t.count, inp, w, p, len, code, first, index)
      {
        NextBit(t.count, inp, w, p, len, code, first, index);
        var b := Bits(1);
        if b.None? {
          return None;
        }
        code := code + b.value;
        var count := t.count[len];
        if code - count < first {
          return Some(t.symbol[index + (code - first)]);
        }
        index := index + count;
        first := 2 * (first + count);
        code := 2 * code;
      }
      WalkOver(t.count, inp, w, p, code, first, index);
      return Some(-10);
    }

    /** The inner loop of the faster decode: try the buffered bits, and write the buffer back only when they
        complete a code. */
    method TryBits(t: Table, code0: int, first0: int, index0: int, len0: int, buf0: int, left0: int,
                   ghost w: Step, ghost p: nat, ghost d: Decoded)
      returns (r: Option<int>, code: int, first: int, index: int, len: int, buf: int)
      requires Tells(w, t, p, d)
      requires Draining(t.count, inp, w, p, bitcnt, len0, code0, first0, index0, incnt, buf0, left0)
      modifies `bitbuf, `bitcnt
      ensures r.Some? ==> Ended(inp, d, p, r, incnt, bitbuf, bitcnt)
      ensures r.None? ==> bitcnt == old(bitcnt) && bitbuf == old(bitbuf)
      ensures r.None? ==> Draining(t.count, inp, w, p, bitcnt, len, code, first, index, incnt, buf, 0)
    {
      hide *;
      code, first, index, len, buf := code0, first0, index0, len0, buf0;
      var left := left0;
      DrainingFacts(t.count, inp, w, p, bitcnt, len, code, first, index, incnt, buf, left);
      while left > 0
        invariant left >= 0 && bitcnt == old(bitcnt) && bitbuf == old(bitbuf)
        invariant Draining(t.count, inp, w, p, bitcnt, len, code, first, index, incnt, buf, left)
      {
        Drain(t, inp, w, p, d, bitcnt, len, code, first, index, incnt, buf, left);
        left := left - 1;
        code := code + buf % 2;
        buf := buf / 2;
        var count := t.count[len];
        if code - count < first {
          bitbuf := buf;
          bitcnt := (bitcnt - len) % 8;
          r := Some(t.symbol[index + (code - first)]);
          return;
        }
        index := index + count;
        first := 2 * (first + count);
        code := 2 * code;
        len := len + 1;
      }
      r := None;
    }

    /** The faster decode: it drains a local copy of the bit buffer, then whole bytes. */
    method DecodeFast(t: Table, ghost lengths: seq<nat>) returns (r: Option<int>)
      requires InputOk() && IsLengths(lengths) && IsTable(lengths, t)
      modifies `incnt, `bitbuf, `bitcnt
      ensures AfterDecode(lengths, old(Pos()), r)
    {
      hide BufferOk, IsLengths, IsTable, Decode, Walk, Draining, Walking, Tells, Ended;
      BufferFacts(inp, incnt, bitbuf, bitcnt);
      ghost var p: nat := Pos();
      ghost var w := StartWalk(lengths, t, inp, p);
      ghost var d := Decode(lengths, inp, p);
      StartDraining(t.count, inp, w, p, incnt, bitbuf, bitcnt);
      var buf: int, left: int := bitbuf, bitcnt;
      var code, first, index, len := 0, 0, 0, 1;
      while true
        invariant incnt <= |inp| && Draining(t.count, inp, w, p, bitcnt, len, code, first, index, incnt, buf, left)
        decreases |inp| - incnt
      {
        r, code, first, index, len, buf := TryBits(t, code, first, index, len, buf, left, w, p, d);
        if r.Some? {
          return;
        }
        Refill(t, inp, w, p, d, bitcnt, len, code, first, index, incnt, buf, bitbuf);
        left := MAXBITS + 1 - len;
        if left == 0 {
          break;
        }
        if incnt == |inp| {
          return None;
        }
        buf := inp[incnt];
        incnt := incnt + 1;
        if left > 8 {
          left := 8;
        }
      }
      return Some(-10);
    }

    // -------------------------------------------------------------- output

    lemma {:induction false} Written()
      requires OutputOk() && out != null
      ensures outcnt == |made| <= outlen && base + outlen <= out.Length && |was| == out.Length
      ensures out[base..base + outcnt] == made
      ensures forall i {:trigger out[i]} | 0 <= i < out.Length && !(base <= i < base + outcnt) :: out[i] == was[i]
    {
    }

    lemma {:induction false} Counted()
      requires OutputOk()
      ensures outcnt == |made|
    {
    }

    /** One byte of output, only counted in scanning mode. */
    method Put(b: byte)
      requires OutputOk() && (out != null ==> outcnt < outlen)
      modifies `outcnt, `made, out
      ensures OutputOk() && made == old(made) + [b]
    {
      if out != null {
        out[base + outcnt] := b;
      }
      outcnt := outcnt + 1;
      made := made + [b];
    }

    /** Count bytes that are not written. */
    method Skip(ghost bytes: seq<byte>, len: nat)
      requires OutputOk() && out == null && len == |bytes|
      modifies `outcnt, `made
      ensures OutputOk() && made == old(made) + bytes
    {
      outcnt := outcnt + len;
      made := made + bytes;
    }

    /** Copy `len` bytes from `dist` bytes back, forward one at a time. */
    method CopyFromBack(dist: nat, len: nat)
      requires OutputOk() && 0 < dist <= outcnt && (out != null ==> outcnt + len <= outlen)
      modifies `outcnt, `made, out
      ensures OutputOk() && made == CopyBack(old(made), dist, len)
    {
      if out == null {
        outcnt := outcnt + len;
        made := CopyBack(made, dist, len);
        return;
      }
      ghost var goal := CopyBack(made, dist, len);
      var left := len;
      while left > 0
        invariant OutputOk() && dist <= outcnt && outcnt + left <= outlen
        invariant CopyBack(made, dist, left) == goal
      {
        left := left - 1;
        var b := out[base + outcnt - dist];
        Put(b);
      }
    }

    /** What processing a block that means `o` leaves behind. */
    ghost predicate AfterBlock(o: Outcome, r: Option<int>)
      reads this, out
    {
      && OutputOk()
      && o.code == (if r == None then 2 else r.value)
      && (o.code <= 0 ==> made == o.out && incnt == (o.pos + 7) / 8)
      && (o.code == 0 ==> InputOk() && Pos() == o.pos)
    }

    method CopyStored(len: nat)
      requires Valid() && bitcnt == 0 && incnt + len <= |inp| && (out != null ==> outcnt + len <= outlen)
      modifies this, out
      ensures Valid() && bitcnt == 0 && incnt == old(incnt) + len
      ensures made == old(made) + inp[old(incnt)..old(incnt) + len]
    {
      var left := len;
      while left > 0
        invariant Valid() && bitcnt == 0
        invariant incnt + left == old(incnt) + len && (out != null ==> outcnt + left <= outlen)
        invariant made == old(made) + inp[old(incnt)..incnt]
      {
        left := left - 1;
        Put(inp[incnt]);
        incnt := incnt + 1;
      }
    }

    /** A block of plain bytes, after its two lengths. */
    method StoredBlock() returns (r: Option<int>)
      requires Valid()
      modifies this, out
      ensures AfterBlock(Stored(inp, old(Pos()), old(made), Room()), r)
    {
      hide OutputOk, BufferOk;
      Counted();
      BufferFacts(inp, incnt, bitbuf, bitcnt);
      bitbuf, bitcnt := 0, 0;
      if incnt + 4 > |inp| {
        return Some(2);
      }
      LowHigh(inp[incnt], inp[incnt + 1]);
      var len: nat := inp[incnt] as int;
      incnt := incnt + 1;
      len := len + 256 * inp[incnt] as int;
      incnt := incnt + 1;
      incnt := incnt + 1;
      if inp[incnt - 1] != 255 - len % 256 {
        return Some(-2);
      }
      incnt := incnt + 1;
      if inp[incnt - 1] != 255 - len / 256 {
        return Some(-2);
      }
      if incnt + len > |inp| {
        return Some(2);
      }
      EmptyBuffer(inp, incnt);
      var fits := StoredBytes(len);
      return Some(if fits then 0 else 1);
    }

    /** The bytes of a stored block, if they fit. */
    method StoredBytes(len: nat) returns (fits: bool)
      requires Valid() && bitcnt == 0 && incnt + len <= |inp|
      modifies this, out
      ensures fits <==> Fits(Room(), |old(made)| + len)
      ensures OutputOk()
      ensures fits ==>
        && InputOk() && bitcnt == 0 && incnt == old(incnt) + len
        && made == old(made) + inp[old(incnt)..old(incnt) + len]
    {
      hide OutputOk;
      Counted();
      if out != null {
        if outcnt + len > outlen {
          return false;
        }
        CopyStored(len);
      } else {
        Skip(inp[incnt..incnt + len], len);
        incnt := incnt + len;
      }
      return true;
    }

    /** The body of a block under two given codes: turn after turn, up to its end or the first error. */
    method CodesLoop(lencode: Table, distcode: Table, ghost llen: seq<nat>, ghost dlen: seq<nat>)
      returns (r: Option<int>)
      requires Valid() && |dlen| <= MAXDCODES
      requires IsLengths(llen) && IsTable(llen, lencode) && IsLengths(dlen) && IsTable(dlen, distcode)
      modifies this, out
      ensures AfterBlock(Codes(inp, old(Pos()), old(made), Room(), llen, dlen), r)
    {
      hide IsTable, IsLengths, CodesTurn, BitsAt, OutputOk;
      ghost var goal := Codes(inp, Pos(), made, Room(), llen, dlen);
      while true
        invariant Valid() && 0 <= Pos() && goal == Codes(inp, Pos(), made, Room(), llen, dlen)
        decreases 8 * |inp| - Pos()
      {
        var done, rc := CodesBody(lencode, distcode, llen, dlen);
        if done {
          return rc;
        }
      }
    }

    /** One pass through the loop of `codes`; `done` when it returns from the function. */
    method CodesBody(lencode: Table, distcode: Table, ghost llen: seq<nat>, ghost dlen: seq<nat>)
      returns (done: bool, r: Option<int>)
      requires Valid() && |dlen| <= MAXDCODES
      requires IsLengths(llen) && IsTable(llen, lencode) && IsLengths(dlen) && IsTable(dlen, distcode)
      modifies this, out
      ensures AfterTurn(CodesTurn(inp, old(Pos()), old(made), Room(), llen, dlen), done, r)
    {
      hide IsTable, IsLengths, Decode, ReadPair, CopyBack, BitsAt;
      var s := DecodeFast(lencode, llen);
      if s.None? {
        return true, None;
      }
      var symbol := s.value;
      if symbol < 0 {
        return true, s;
      }
      if symbol < 256 {
        if out != null && outcnt == outlen {
          return true, Some(1);
        }
        Put(symbol);
      } else if symbol > 256 {
        symbol := symbol - 257;
        if symbol >= 29 {
          return true, Some(-10);
        }
        done, r := CopyPair(symbol, distcode, dlen);
        return;
      } else {
        return true, Some(0);
      }
      return false, None;
    }

    ghost predicate AfterTurn(t: Turn, done: bool, r: Option<int>)
      reads this, out
    {
      match t
      case Done(o) => done && AfterBlock(o, r)
      case More(p, made') => !done && Valid() && Pos() == p && made == made'
    }

    /** The rest of a length/distance pair: read it, check it, copy. */
    method CopyPair(symbol: nat, distcode: Table, ghost dlen: seq<nat>) returns (done: bool, r: Option<int>)
      requires Valid() && symbol < 29 && |dlen| <= MAXDCODES && IsLengths(dlen) && IsTable(dlen, distcode)
      modifies this, out
      ensures AfterTurn(PairTurn(ReadPair(inp, old(Pos()), symbol, dlen), old(Pos()), old(made), Room()), done, r)
    {
      hide IsTable, IsLengths, Decode, ReadPair, CopyBack, BitsAt;
      var pair := PairRest(symbol, distcode, dlen);
      match pair
      case ShortPair => return true, None;
      case BadPair(_) => return true, Some(-10);
      case Pair(len, dist, _) =>
        if dist > outcnt {
          return true, Some(-11);
        }
        if out != null && outcnt + len > outlen {
          return true, Some(1);
        }
        CopyFromBack(dist, len);
        return false, None;
    }

    /** The extra bits of a length, then the distance. */
    method PairRest(symbol: nat, distcode: Table, ghost dlen: seq<nat>) returns (r: Pair)
      requires InputOk() && symbol < 29 && |dlen| <= MAXDCODES && IsLengths(dlen) && IsTable(dlen, distcode)
      modifies `incnt, `bitbuf, `bitcnt
      ensures var spec := ReadPair(inp, old(Pos()), symbol, dlen);
              match r
              case Pair(len, dist, _) => spec.Pair? && len == spec.len && dist == spec.dist
                                         && InputOk() && Pos() == spec.next
              case BadPair(_) => spec.BadPair? && incnt == (spec.pos + 7) / 8
              case ShortPair => spec.ShortPair?
    {
      hide IsTable, IsLengths, Decode, LenExtra, LenBase, DistExtra, DistBase, ReadBits, BufferOk;
      var extra := Bits(LenExtra(symbol));
      if extra.None? {
        return ShortPair;
      }
      var d := DecodeFast(distcode, dlen);
      if d.None? {
        return ShortPair;
      }
      if d.value < 0 {
        return BadPair(0);
      }
      var more := Bits(DistExtra(d.value));
      if more.None? {
        return ShortPair;
      }
      return Pair(LenBase(symbol) + extra.value, DistBase(d.value) + more.value, 0);
    }

    /** A block whose codes are those the format fixes. */
    method FixedBlock() returns (r: Option<int>)
      requires Valid()
      modifies this, out
      ensures AfterBlock(Codes(inp, old(Pos()), old(made), Room(), FixedLiteral(), FixedDistance()), r)
    {
      assert IsLengths(FixedLiteral()) && IsLengths(FixedDistance());
      hide IsLengths, IsTable, Codes, FixedLiteral, FixedDistance, BitsAt, OutputOk;
      var lencode, distcode := FixedTables();
      r := CodesLoop(lencode, distcode, FixedLiteral(), FixedDistance());
    }

    /** The lengths of the code that codes the lengths; those not sent count as zero. */
    method ReadClLengths(ncode: nat, lengths: array<nat>) returns (ok: bool)
      requires InputOk() && ncode <= 19 <= lengths.Length
      modifies `incnt, `bitbuf, `bitcnt, lengths
      ensures ok <==> old(Pos()) + 3 * ncode <= 8 * |inp|
      ensures ok ==> InputOk() && Pos() == old(Pos()) + 3 * ncode
      ensures ok ==> forall s {:trigger lengths[s]} | 0 <= s < 19 :: lengths[s] == ClLength(inp, old(Pos()), ncode, s)
    {
      hide BitsAt, Order, Place, BufferOk;
      BufferFacts(inp, incnt, bitbuf, bitcnt);
      ghost var p: nat := Pos();
      OrderPlace();
      for index := 0 to ncode
        invariant InputOk() && Pos() == p + 3 * index <= 8 * |inp|
        invariant forall s {:trigger lengths[s]} | 0 <= s < 19 && Place(s) < index ::
          lengths[s] == BitsAt(inp, p + 3 * Place(s), 3)
      {
        var b := Bits(3);
        if b.None? {
          return false;
        }
        lengths[Order(index)] := b.value;
      }
      ZeroRest(ncode, lengths);
      return true;
    }

    static method ZeroRest(ncode: nat, lengths: array<nat>)
      requires ncode <= 19 <= lengths.Length
      modifies lengths
      ensures forall s | 0 <= s < 19 :: lengths[s] == if Place(s) < ncode then old(lengths[s]) else 0
    {
      OrderPlace();
      hide Order, Place;
      for index := ncode to 19
        invariant forall s {:trigger lengths[s]} | 0 <= s < 19 ::
          lengths[s] == if ncode <= Place(s) < index then 0 else old(lengths[s])
      {
        lengths[Order(index)] := 0;
      }
    }

    /** All lengths of both codes, as one list. */
    method ReadCodeLengths(t: Table, ghost cl: seq<nat>, total: nat, lengths: array<nat>) returns (r: Option<int>)
      requires InputOk() && |cl| == 19 && IsLengths(cl) && IsTable(cl, t) && total <= lengths.Length
      modifies `incnt, `bitbuf, `bitcnt, lengths
      ensures AfterLengths(ReadLengths(inp, old(Pos()), cl, [], total), r, lengths[..], total)
    {
      hide IsTable, LengthsTurn, BitsAt;
      var index := 0;
      ghost var goal := ReadLengths(inp, Pos(), cl, [], total);
      while index < total
        invariant 0 <= index <= total && InputOk() && 0 <= Pos() <= 8 * |inp| && IsLengths(lengths[..index])
        invariant goal == ReadLengths(inp, Pos(), cl, lengths[..index], total)
      {
        var next, rc := LengthsBody(t, cl, total, lengths, index);
        if next == index {
          return rc;
        }
        index := next;
      }
      return Some(0);
    }

    /** One pass of the loop that reads code lengths; `next == index` when `dynamic` returns `r`. */
    method LengthsBody(t: Table, ghost cl: seq<nat>, total: nat, lengths: array<nat>, index: nat)
      returns (next: nat, r: Option<int>)
      requires InputOk() && |cl| == 19 && IsLengths(cl) && IsTable(cl, t)
      requires index < total <= lengths.Length && IsLengths(lengths[..index])
      modifies `incnt, `bitbuf, `bitcnt, lengths
      ensures next <= total
      ensures match LengthsTurn(inp, old(Pos()), cl, old(lengths[..index]), total)
              case Go(q, acc) => index < next && InputOk() && Pos() == q && lengths[..next] == acc
              case Stop(code, q) =>
                && next == index && code == (if r == None then 2 else r.value)
                && (code < 0 ==> incnt == (q + 7) / 8)
    {
      hide IsTable, Decode, BitsAt;
      ghost var acc := lengths[..index];
      var s := DecodeFast(t, cl);
      if s.None? {
        return index, None;
      }
      var symbol := s.value;
      if symbol < 0 {
        return index, s;
      }
      if symbol < 16 {
        lengths[index] := symbol;
        assert lengths[..index + 1] == acc + [symbol];
        return index + 1, None;
      }
      if symbol == 16 && index == 0 {
        return index, Some(-5);
      }
      next, r := RunBody(symbol, total, lengths, index);
    }

    /** A run of code lengths: repeat the last length or zero. */
    method RunBody(symbol: nat, total: nat, lengths: array<nat>, index: nat) returns (next: nat, r: Option<int>)
      requires InputOk() && 16 <= symbol < 19 && (symbol == 16 ==> index > 0)
      requires index < total <= lengths.Length && IsLengths(lengths[..index])
      modifies `incnt, `bitbuf, `bitcnt, lengths
      ensures next <= total
      ensures match RunTurn(inp, old(Pos()), symbol, old(lengths[..index]), total)
              case Go(q, acc) => index < next && InputOk() && Pos() == q && lengths[..next] == acc
              case Stop(code, q) =>
                && next == index && code == (if r == None then 2 else r.value)
                && (code < 0 ==> incnt == (q + 7) / 8)
    {
      hide BitsAt;
      ghost var acc := lengths[..index];
      var len := 0;
      if symbol == 16 {
        len := lengths[index - 1];
      }
      var x := Bits(RunExtra(symbol));
      if x.None? {
        return index, None;
      }
      var times := RunBase(symbol) + x.value;
      if index + times > total {
        return index, Some(-6);
      }
      for i := 0 to times
        invariant InputOk() && Pos() == old(Pos()) + RunExtra(symbol)
        invariant lengths[..index + i] == acc + Repeat(len, i)
      {
        lengths[index + i] := len;
        assert lengths[..index + i + 1] == lengths[..index + i] + [len];
      }
      return index + times, None;
    }

    /** What reading a code description that means `h` leaves behind. */
    ghost predicate AfterHeader(h: Header, r: Option<int>, lengths: seq<nat>, nlen: nat, ndist: nat)
      reads `incnt, `bitbuf, `bitcnt
    {
      match h
      case BadHeader(code, q) =>
        code == (if r == None then 2 else r.value) && (code < 0 ==> incnt == (q + 7) / 8)
      case Header(llen, dlen, q) =>
        && r == Some(0) && InputOk() && Pos() == q
        && nlen + ndist <= |lengths| && lengths[..nlen] == llen && lengths[nlen..nlen + ndist] == dlen
    }

    /** A block that brings its own codes along. */
    method DynamicBlock() returns (r: Option<int>)
      requires Valid()
      modifies this, out
      ensures AfterBlock(Block(2, inp, old(Pos()), old(made), Room()), r)
    {
      hide ReadHeader, Codes, BitsAt, IsTable;
      var lengths := new nat[MAXLCODES + MAXDCODES];
      var lencnt, lensym := new nat[MAXBITS + 1], new nat[MAXLCODES];
      var distcnt, distsym := new nat[MAXBITS + 1], new nat[MAXDCODES];
      var nlen, ndist;
      r, nlen, ndist := Description(lengths, lencnt, lensym, distcnt, distsym);
      if r == Some(0) {
        r := CodesLoop(Table(lencnt[..], lensym[..]), Table(distcnt[..], distsym[..]),
                       lengths[..nlen], lengths[nlen..nlen + ndist]);
      }
    }

    /** The code description of a dynamic block: its code lengths and the two decoding tables. */
    method Description(lengths: array<nat>, lencnt: array<nat>, lensym: array<nat>,
                       distcnt: array<nat>, distsym: array<nat>) returns (r: Option<int>, nlen: nat, ndist: nat)
      requires InputOk() && Apart(lengths, lencnt, lensym, distcnt, distsym)
      modifies `incnt, `bitbuf, `bitcnt, lengths, lencnt, lensym, distcnt, distsym
      ensures AfterHeader(ReadHeader(inp, old(Pos()) as nat), r, lengths[..], nlen, ndist)
      ensures r == Some(0) ==>
        && IsTable(lengths[..nlen], Table(lencnt[..], lensym[..]))
        && IsTable(lengths[nlen..nlen + ndist], Table(distcnt[..], distsym[..]))
    {
      hide BitsAt, IsTable, AllLengths, CheckLengths;
      ghost var p: nat := Pos();
      var ok, ncode;
      ok, nlen, ndist, ncode := Counts();
      if !ok {
        return None, nlen, ndist;
      }
      if nlen > MAXLCODES || ndist > MAXDCODES {
        return Some(-3), nlen, ndist;
      }
      r := CodeLengths(ncode, nlen + ndist, lengths, lencnt, lensym);
      if r == Some(0) {
        r := BuildCodes(lengths, nlen, ndist, lencnt, lensym, distcnt, distsym, Pos());
      }
    }

    /** The three counts a description starts with. */
    method Counts() returns (ok: bool, nlen: nat, ndist: nat, ncode: nat)
      requires InputOk()
      modifies `incnt, `bitbuf, `bitcnt
      ensures ok <==> old(Pos()) + 14 <= 8 * |inp|
      ensures ok ==> InputOk() && Pos() == old(Pos()) + 14 && ncode <= 19
      ensures ok ==> nlen == BitsAt(inp, old(Pos()), 5) + 257 && ndist == BitsAt(inp, old(Pos()) + 5, 5) + 1
      ensures ok ==> ncode == BitsAt(inp, old(Pos()) + 10, 4) + 4
    {
      hide BitsAt;
      ghost var p: nat := Pos();
      nlen, ndist, ncode := 0, 0, 0;
      var a := Bits(5);
      if a.None? { return false, 0, 0, 0; }
      var b := Bits(5);
      if b.None? { return false, 0, 0, 0; }
      var c := Bits(4);
      if c.None? { return false, 0, 0, 0; }
      BitsAtBound(inp, p + 10, 4);
      return true, a.value + 257, b.value + 1, c.value + 4;
    }

    /** The code length code, then the code lengths it codes. */
    method CodeLengths(ncode: nat, total: nat, lengths: array<nat>, lencnt: array<nat>, lensym: array<nat>)
      returns (r: Option<int>)
      requires InputOk() && ncode <= 19 && total <= lengths.Length && 19 <= lengths.Length && 19 <= lensym.Length
      requires lencnt.Length == MAXBITS + 1 && lengths != lencnt && lengths != lensym && lencnt != lensym
      modifies `incnt, `bitbuf, `bitcnt, lengths, lencnt, lensym
      ensures AfterLengths(AllLengths(inp, old(Pos()), ncode, total), r, lengths[..], total)
    {
      hide Complete, ClLengths, BufferOk, IsTable, ReadLengths, IsLengths, AllLengths;
      BufferFacts(inp, incnt, bitbuf, bitcnt);
      ghost var p: nat := Pos();
      AllLengthsIs(inp, p, ncode, total);
      var err, t := ClTable(ncode, lengths, lencnt, lensym);
      if err.None? {
        return None;
      }
      if err.value != 0 {
        return Some(-4);
      }
      r := ReadCodeLengths(t, ClLengths(inp, p, ncode), total, lengths);
    }

    /** Read the code length code and build its table. */
    method ClTable(ncode: nat, lengths: array<nat>, lencnt: array<nat>, lensym: array<nat>)
      returns (err: Option<int>, t: Table)
      requires InputOk() && ncode <= 19 <= lengths.Length && 19 <= lensym.Length
      requires lencnt.Length == MAXBITS + 1 && lengths != lencnt && lengths != lensym && lencnt != lensym
      modifies `incnt, `bitbuf, `bitcnt, lengths, lencnt, lensym
      ensures err.Some? <==> old(Pos()) + 3 * ncode <= 8 * |inp|
      ensures err.Some? ==>
        var cl := ClLengths(inp, old(Pos()), ncode);
        && InputOk() && Pos() == old(Pos()) + 3 * ncode && incnt == (old(Pos()) + 3 * ncode + 7) / 8
        && (err.value == 0 <==> Complete(cl))
        && IsLengths(cl) && (err.value == 0 ==> IsTable(cl, t))
    {
      ghost var p: nat := Pos();
      hide BitsAt, ClLength, IsTable, Kraft, IsLengths, CountsFor;
      var ok := ReadClLengths(ncode, lengths);
      if !ok {
        return None, Table([], []);
      }
      ClSmall(inp, p, ncode);
      assert lengths[..19] == ClLengths(inp, p, ncode);
      var left := Construct(lencnt, lensym, lengths[..19]);
      return Some(left), Table(lencnt[..], lensym[..]);
    }

    ghost predicate AfterLengths(l: Lengths, r: Option<int>, lengths: seq<nat>, total: nat)
      reads `incnt, `bitbuf, `bitcnt
    {
      match l
      case Lengths(lens, q) =>
        r == Some(0) && InputOk() && Pos() == q && total <= |lengths| && lengths[..total] == lens
      case BadLengths(code, q) =>
        code == (if r == None then 2 else r.value) && (code < 0 ==> incnt == (q + 7) / 8)
    }

    /** Check the lengths and build both tables; returns as `dynamic` does. */
    method BuildCodes(lengths: array<nat>, nlen: nat, ndist: nat, lencnt: array<nat>, lensym: array<nat>,
                      distcnt: array<nat>, distsym: array<nat>, ghost q: nat) returns (r: Option<int>)
      requires Apart(lengths, lencnt, lensym, distcnt, distsym)
      requires 257 <= nlen <= MAXLCODES && ndist <= MAXDCODES && IsLengths(lengths[..nlen + ndist])
      modifies lencnt, lensym, distcnt, distsym
      ensures r.Some?
      ensures match CheckLengths(lengths[..nlen + ndist], nlen, q)
              case BadHeader(code, at) => r.value == code && at == q
              case Header(llen, dlen, at) =>
                && at == q && r == Some(0) && llen == lengths[..nlen] && dlen == lengths[nlen..nlen + ndist]
                && IsTable(llen, Table(lencnt[..], lensym[..]))
                && IsTable(dlen, Table(distcnt[..], distsym[..]))
    {
      hide IsTable, Usable;
      if lengths[256] == 0 {
        return Some(-9);
      }
      var llen, dlen := lengths[..nlen], lengths[nlen..nlen + ndist];
      assert lengths[..nlen + ndist][..nlen] == llen && lengths[..nlen + ndist][nlen..] == dlen;
      var ok := BuildCode(llen, lencnt, lensym);
      if !ok {
        return Some(-7);
      }
      ok := BuildCode(dlen, distcnt, distsym);
      if !ok {
        return Some(-8);
      }
      return Some(0);
    }

    /** One table, if its lengths make a usable code. */
    static method BuildCode(lens: seq<nat>, count: array<nat>, symbol: array<nat>) returns (ok: bool)
      requires count.Length == MAXBITS + 1 && count != symbol && IsLengths(lens) && |lens| <= symbol.Length
      modifies count, symbol
      ensures ok <==> Usable(lens)
      ensures ok ==> IsTable(lens, Table(count[..], symbol[..]))
    {
      hide IsTable, Kraft, Usable, NoCodes, CountsFor;
      var err := Construct(count, symbol, lens);
      UsableIff(lens, err, count[..]);
      ok := !(err != 0 && (err < 0 || |lens| != count[0] + count[1]));
    }

    /** Process one block of the given type. */
    method OneBlock(kind: nat) returns (r: Option<int>)
      requires Valid() && kind < 4
      modifies this, out
      ensures AfterBlock(Block(kind, inp, old(Pos()), old(made), Room()), r)
    {
      hide Stored, Codes, ReadHeader, BitsAt;
      if kind == 0 {
        r := StoredBlock();
      } else if kind == 1 {
        r := FixedBlock();
      } else if kind == 2 {
        r := DynamicBlock();
      } else {
        r := Some(-1);
      }
    }

    /** Block after block, up to the one marked last or the first error. */
    method Blocks() returns (r: Option<int>)
      requires Valid()
      modifies this, out
      ensures AfterBlock(Inflate(inp, old(Pos()), old(made), Room()), r)
    {
      hide Block, BitsAt, Bit, OutputOk;
      ghost var goal := Inflate(inp, Pos(), made, Room());
      while true
        invariant Valid() && 0 <= Pos() <= 8 * |inp| && goal == Inflate(inp, Pos(), made, Room())
        decreases 8 * |inp| - Pos()
      {
        ghost var p: nat := Pos();
        var last := Bits(1);
        if last.None? {
          return None;
        }
        OneBit(inp, p);
        var kind := Bits(2);
        if kind.None? {
          return None;
        }
        BitsAtBound(inp, p + 1, 2);
        r := OneBlock(kind.value);
        if r != Some(0) || last.value == 1 {
          return;
        }
      }
    }
  }

  /** Inflate `source` into `dest[base..base + destlen]`, or only measure it when `dest` is null.
      The return code, the bytes written and the bytes consumed are what the stream means; on an error
      in the data both lengths say how far it got, on too little input or room they are not reported.
      Nothing outside the given space changes, nor any byte past those produced. */
  method Puff(dest: array?<byte>, base: nat, destlen: nat, source: seq<byte>)
    returns (err: int, outcnt: nat, incnt: nat)
    requires dest != null ==> base + destlen <= dest.Length
    modifies dest
    ensures var r := Inflate(source, 0, [], if dest == null then None else Some(destlen));
      && err == r.code
      && (err <= 0 ==> outcnt == |r.out| && incnt == (r.pos + 7) / 8)
      && (err <= 0 && dest != null ==> outcnt <= destlen && dest[base..base + outcnt] == r.out)
    ensures err > 0 ==> outcnt == destlen && incnt == |source|
    ensures dest != null ==>
      forall i | 0 <= i < dest.Length && !(base <= i < base + destlen) :: dest[i] == old(dest[i])
    ensures dest != null && err <= 0 ==>
      forall i | base + outcnt <= i < base + destlen :: dest[i] == old(dest[i])
  {
    var s := new State(dest, base, destlen, source);
    hide Inflate, Block, State.OutputOk, BufferOk;
    var rc := s.Blocks();
    err := if rc.None? then 2 else rc.value;
    outcnt, incnt := if err <= 0 then s.outcnt else destlen, if err <= 0 then s.incnt else |source|;
    if dest != null {
      s.Written();
    } else {
      s.Counted();
    }
  }

  lemma {:induction false} LowHigh(a: byte, b: byte)
    ensures (a as int + 256 * b as int) % 256 == a && (a as int + 256 * b as int) / 256 == b
  {
  }

  lemma {:induction false} EmptyBuffer(src: seq<byte>, k: nat)
    requires k <= |src|
    ensures BufferOk(src, k, 0, 0)
  {
  }

  /** Tables for the codes the format fixes. */
  method FixedTables() returns (lencode: Table, distcode: Table)
    ensures IsTable(FixedLiteral(), lencode) && IsTable(FixedDistance(), distcode)
  {
    hide Kraft, IsTable;
    FixedKraft();
    lencode := FixedTable(FixedLiteral(), FIXLCODES);
    distcode := FixedTable(FixedDistance(), MAXDCODES);
  }

  /** One table, for lengths that do not ask for more codes than there are. */
  method FixedTable(lengths: seq<nat>, room: nat) returns (code: Table)
    requires IsLengths(lengths) && |lengths| <= room && Kraft(lengths) <= Pow2(MAXBITS)
    ensures IsTable(lengths, code)
  {
    hide Kraft, IsTable, NoCodes, CountsFor;
    var count, symbol := new nat[MAXBITS + 1], new nat[room];
    var err := Construct(count, symbol, lengths);
    code := Table(count[..], symbol[..]);
  }

  /** The five arrays of `dynamic`, all distinct, with their sizes. */
  predicate Apart(lengths: array<nat>, lencnt: array<nat>, lensym: array<nat>,
                  distcnt: array<nat>, distsym: array<nat>)
  {
    && lengths.Length == MAXLCODES + MAXDCODES && lensym.Length == MAXLCODES && distsym.Length == MAXDCODES
    && lencnt.Length == MAXBITS + 1 && distcnt.Length == MAXBITS + 1
    && lengths != lencnt && lengths != lensym && lengths != distcnt && lengths != distsym
    && lencnt != lensym && lencnt != distcnt && lencnt != distsym
    && lensym != distcnt && lensym != distsym && distcnt != distsym
  }

  lemma {:induction false} AllLengthsIs(src: seq<byte>, p: nat, ncode: nat, total: nat)
    requires p <= 8 * |src|
    ensures p + 3 * ncode > 8 * |src| ==> AllLengths(src, p, ncode, total) == BadLengths(2, p)
    ensures p + 3 * ncode <= 8 * |src| ==>
      var cl := ClLengths(src, p, ncode);
      AllLengths(src, p, ncode, total) ==
      if Complete(cl) then ReadLengths(src, p + 3 * ncode, cl, [], total) else BadLengths(-4, p + 3 * ncode)
  {
    hide Complete, ClLengths, ReadLengths;
  }

  lemma {:induction false} ClSmall(src: seq<byte>, p: nat, ncode: nat)
    requires p + 3 * ncode <= 8 * |src|
    ensures IsLengths(ClLengths(src, p, ncode))
  {
    hide BitsAt, Place;
    forall s | 0 <= s < 19
      ensures ClLength(src, p, ncode, s) <= MAXBITS
    {
      if Place(s) < ncode {
        BitsAtBound(src, p + 3 * Place(s), 3);
      }
    }
  }

  lemma {:induction false} CountShort(lengths: seq<nat>, n: nat)
    requires n <= |lengths|
    ensures CountUpTo(lengths, 0, n) + CountUpTo(lengths, 1, n) <= n
    ensures CountUpTo(lengths, 0, n) + CountUpTo(lengths, 1, n) == n
            <==> forall s | 0 <= s < n :: lengths[s] <= 1
  {
    if n > 0 {
      CountShort(lengths, n - 1);
    }
  }

  /** The test `dynamic` makes on what `construct` returned is the test for a usable code. */
  lemma {:induction false} UsableIff(lengths: seq<nat>, err: int, count: seq<nat>)
    requires CountsFor(lengths, count)
    requires err < 0 <==> Kraft(lengths) > Pow2(MAXBITS)
    requires NoCodes(lengths) ==> err == 0
    requires err >= 0 && !NoCodes(lengths) ==> err == Pow2(MAXBITS) - Kraft(lengths)
    ensures Usable(lengths) <==> !(err != 0 && (err < 0 || |lengths| != count[0] + count[1]))
  {
    hide Kraft, Pow2;
    CountShort(lengths, |lengths|);
  }

  // ---------------------------------------------------------------- facts about the fixed data

  /** Order and Place undo each other. */
  lemma {:induction false} OrderPlace()
    ensures forall s | 0 <= s < 19 :: Order(Place(s)) == s
    ensures forall i | 0 <= i < 19 :: Place(Order(i)) == i
  {
  }

  /** The scaled Kraft sum of the first `n` literal/length symbols of the fixed code. */
  lemma {:induction false} FixedLiteralKraft(n: nat)
    requires n <= FIXLCODES
    ensures KraftTo(FixedLiteral(), n, MAXBITS) ==
            if n <= 144 then 128 * n
            else if n <= 256 then 18432 + 64 * (n - 144)
            else if n <= 280 then 25600 + 256 * (n - 256)
            else 31744 + 128 * (n - 280)
  {
    SmallPowers();
    if n > 0 {
      FixedLiteralKraft(n - 1);
    }
  }

  lemma {:induction false} FixedDistanceKraft(n: nat)
    requires n <= MAXDCODES
    ensures KraftTo(FixedDistance(), n, MAXBITS) == 1024 * n
  {
    SmallPowers();
    if n > 0 {
      FixedDistanceKraft(n - 1);
    }
  }

  lemma {:induction false} SmallPowers()
    ensures Pow2(6) == 64 && Pow2(7) == 128 && Pow2(8) == 256 && Pow2(10) == 1024 && Pow2(15) == 32768
  {
  }

  /** The fixed literal/length code is complete; the fixed distance code leaves two codes unused. */
  lemma {:induction false} FixedKraft()
    ensures Kraft(FixedLiteral()) == Pow2(MAXBITS)
    ensures Kraft(FixedDistance()) == 30720 < Pow2(MAXBITS)
  {
    FixedLiteralKraft(FIXLCODES);
    FixedDistanceKraft(MAXDCODES);
    SmallPowers();
  }
}
