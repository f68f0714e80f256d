/** Building the decoding tables from a list of code lengths (`construct` in puff.c). */
module HuffmanTables {
  import opened Bits
  import opened Huffman

  lemma {:induction false} CountStep(lengths: seq<nat>, n: nat)
    requires n < |lengths|
    ensures forall len {:trigger CountUpTo(lengths, len, n + 1)} ::
              CountUpTo(lengths, len, n + 1) == CountUpTo(lengths, len, n) + (if lengths[n] == len then 1 else 0)
  {
  }

  /** A histogram of the lengths. */
  method CountLengths(count: array<nat>, lengths: seq<nat>)
    requires count.Length == MAXBITS + 1 && IsLengths(lengths)
    modifies count
    ensures CountsFor(lengths, count[..])
  {
    for len := 0 to MAXBITS + 1
      invariant forall l | 0 <= l < len :: count[l] == 0
    {
      count[len] := 0;
    }
    for symbol := 0 to |lengths|
      invariant forall l | 0 <= l <= MAXBITS :: count[l] == CountUpTo(lengths, l, symbol)
    {
      CountStep(lengths, symbol);
      count[lengths[symbol]] := count[lengths[symbol]] + 1;
    }
  }

  /** Codes that remain once every length has had its share; negative as soon as a length asks for too many. */
  method CodesLeft(count: array<nat>, lengths: seq<nat>) returns (left: int)
    requires CountsFor(lengths, count[..])
    ensures left < 0 <==> Left(lengths, MAXBITS) < 0
    ensures left >= 0 ==> left == Left(lengths, MAXBITS)
  {
    left := 1;
    for len := 1 to MAXBITS + 1
      invariant left == Left(lengths, len - 1) >= 0
    {
      assert count[..][len] == Count(lengths, len);
      left := 2 * left - count[len];
      if left < 0 {
        LeftStaysNegative(lengths, len, MAXBITS);
        return;
      }
    }
  }

  // ---------------------------------------------------------------- slots are distinct and in range

  /** Codes shorter than `len` among the first `n` symbols. */
  function OffsetTo(lengths: seq<nat>, n: nat, len: nat): nat
    requires n <= |lengths|
  {
    if len <= 1 then 0 else OffsetTo(lengths, n, len - 1) + CountUpTo(lengths, len - 1, n)
  }

  lemma {:induction false} OffsetToStep(lengths: seq<nat>, n: nat, len: nat)
    requires n < |lengths|
    ensures OffsetTo(lengths, n + 1, len)
         == OffsetTo(lengths, n, len) + (if 1 <= lengths[n] < len then 1 else 0)
    decreases len
  {
    if len > 1 {
      OffsetToStep(lengths, n, len - 1);
    }
  }

  lemma {:induction false} OffsetToBound(lengths: seq<nat>, n: nat, len: nat)
    requires n <= |lengths|
    ensures OffsetTo(lengths, n, len) <= n
    decreases n
  {
    if n > 0 {
      OffsetToBound(lengths, n - 1, len);
      OffsetToStep(lengths, n - 1, len);
    } else {
      OffsetToNone(lengths, len);
    }
  }

  lemma {:induction false} OffsetToNone(lengths: seq<nat>, len: nat)
    ensures OffsetTo(lengths, 0, len) == 0
  {
    if len > 1 {
      OffsetToNone(lengths, len - 1);
    }
  }

  lemma {:induction false} OffsetIs(lengths: seq<nat>, len: nat)
    ensures Offset(lengths, len) == OffsetTo(lengths, |lengths|, len)
  {
    if len > 1 {
      OffsetIs(lengths, len - 1);
    }
  }

  lemma {:induction false} OffsetsApart(lengths: seq<nat>, a: nat, b: nat)
    requires 1 <= a < b
    ensures Offset(lengths, a) + Count(lengths, a) <= Offset(lengths, b)
    decreases b
  {
    if b > a + 1 {
      OffsetsApart(lengths, a, b - 1);
    }
  }

  lemma {:induction false} SlotInRange(lengths: seq<nat>, s: nat)
    requires s < |lengths| && lengths[s] > 0
    ensures Slot(lengths, s) < |lengths|
  {
    CountMonotone(lengths, lengths[s], s, |lengths|);
    OffsetIs(lengths, lengths[s] + 1);
    OffsetToBound(lengths, |lengths|, lengths[s] + 1);
  }

  lemma {:induction false} SlotInjective(lengths: seq<nat>, s: nat, t: nat)
    requires s < t < |lengths| && lengths[s] > 0 && lengths[t] > 0
    ensures Slot(lengths, s) != Slot(lengths, t)
  {
    var a, b := lengths[s], lengths[t];
    CountMonotone(lengths, a, s, |lengths|);
    CountMonotone(lengths, b, t, |lengths|);
    if a < b {
      OffsetsApart(lengths, a, b);
    } else if b < a {
      OffsetsApart(lengths, b, a);
    } else {
      CountMonotone(lengths, a, s, t);
    }
  }

  // ---------------------------------------------------------------- the sorted symbols

  ghost predicate Filed(lengths: seq<nat>, symbol: seq<nat>, n: nat)
    requires n <= |lengths|
  {
    forall s {:trigger Slot(lengths, s)} | 0 <= s < n && lengths[s] > 0 ::
      Slot(lengths, s) < |symbol| && symbol[Slot(lengths, s)] == s
  }

  lemma {:induction false} FileOne(lengths: seq<nat>, was: seq<nat>, n: nat)
    requires n < |lengths| <= |was| && lengths[n] > 0 && Filed(lengths, was, n)
    ensures Slot(lengths, n) < |was| && Filed(lengths, was[Slot(lengths, n) := n], n + 1)
  {
    SlotInRange(lengths, n);
    forall s | 0 <= s < n && lengths[s] > 0
      ensures Slot(lengths, s) != Slot(lengths, n)
    {
      SlotInjective(lengths, s, n);
    }
  }

  /** File every symbol that has a code: shorter codes first, and in order among equals. */
  method SortSymbols(count: array<nat>, symbol: array<nat>, lengths: seq<nat>)
    requires CountsFor(lengths, count[..]) && IsLengths(lengths)
    requires |lengths| <= symbol.Length && count != symbol
    modifies symbol
    ensures Filed(lengths, symbol[..], |lengths|)
  {
    var offs := OffsetTable(count, lengths);
    for s := 0 to |lengths|
      invariant Filed(lengths, symbol[..], s)
      invariant forall l {:trigger offs[l]} | 1 <= l <= MAXBITS ::
        offs[l] == Offset(lengths, l) + CountUpTo(lengths, l, s)
    {
      CountStep(lengths, s);
      if lengths[s] != 0 {
        ghost var was := symbol[..];
        FileOne(lengths, was, s);
        symbol[offs[lengths[s]]] := s;
        assert symbol[..] == was[Slot(lengths, s) := s];
        offs[lengths[s]] := offs[lengths[s]] + 1;
      }
    }
  }

  /** Where the symbols of each length begin. */
  method OffsetTable(count: array<nat>, lengths: seq<nat>) returns (offs: array<nat>)
    requires CountsFor(lengths, count[..])
    ensures fresh(offs) && offs.Length == MAXBITS + 1
    ensures forall l {:trigger offs[l]} | 1 <= l <= MAXBITS :: offs[l] == Offset(lengths, l)
  {
    offs := new nat[MAXBITS + 1];
    offs[1] := 0;
    for len := 1 to MAXBITS
      invariant forall l {:trigger offs[l]} | 1 <= l <= len :: offs[l] == Offset(lengths, l)
    {
      assert count[..][len] == Count(lengths, len);
      offs[len + 1] := offs[len] + count[len];
    }
  }

  lemma {:induction false} CountAll(lengths: seq<nat>, n: nat)
    requires n <= |lengths|
    ensures CountUpTo(lengths, 0, n) <= n
    ensures CountUpTo(lengths, 0, n) == n <==> forall s | 0 <= s < n :: lengths[s] == 0
  {
    if n > 0 {
      CountAll(lengths, n - 1);
    }
  }

  /** The tables for `lengths`. Negative exactly when the code is over-subscribed (Kraft sum above 1);
      otherwise the codes left over at 15 bits, 2^15 minus the scaled Kraft sum, except that a list
      with no codes at all returns 0. Whenever it is not negative the tables are the canonical ones. */
  method Construct(count: array<nat>, symbol: array<nat>, lengths: seq<nat>) returns (left: int)
    requires count.Length == MAXBITS + 1 && count != symbol
    requires IsLengths(lengths) && |lengths| <= symbol.Length
    modifies count, symbol
    ensures CountsFor(lengths, count[..])
    ensures left < 0 <==> Kraft(lengths) > Pow2(MAXBITS)
    ensures NoCodes(lengths) ==> left == 0
    ensures left >= 0 && !NoCodes(lengths) ==> left == Pow2(MAXBITS) - Kraft(lengths)
    ensures left >= 0 ==> IsTable(lengths, Table(count[..], symbol[..]))
  {
    CountLengths(count, lengths);
    LeftIsKraft(lengths, MAXBITS);
    CountAll(lengths, |lengths|);
    assert count[0] == count[..][0] == Count(lengths, 0);
    if count[0] == |lengths| {
      NoCodesNoKraft(lengths, |lengths|);
      return 0;
    }
    left := CodesLeft(count, lengths);
    if left < 0 {
      return;
    }
    SortSymbols(count, symbol, lengths);
  }

  lemma {:induction false} NoCodesNoKraft(lengths: seq<nat>, n: nat)
    requires n <= |lengths| && NoCodes(lengths)
    ensures KraftTo(lengths, n, MAXBITS) == 0
  {
    if n > 0 {
      NoCodesNoKraft(lengths, n - 1);
    }
  }
}
