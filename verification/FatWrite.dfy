/** The writers of src/boot/fatbuild.c, which change the image in place: little-endian numbers, directory entries,
    long-name slots and a child's entries. Each is proved to put the bytes it should, and nothing else. */
module FatWrite {
  import opened Bits
  import opened FatNames
  import opened FatTree
  import opened FatSizing

  /** `after` is `before` with `s` written at `off`. */
  ghost predicate Put(before: seq<byte>, after: seq<byte>, off: nat, s: seq<byte>) {
    && |after| == |before| && off + |s| <= |before|
    && forall k | 0 <= k < |before| :: after[k] == if off <= k < off + |s| then s[k - off] else before[k]
  }

  lemma {:induction false} PutNothing(a: seq<byte>, off: nat)
    requires off <= |a|
    ensures Put(a, a, off, [])
  {
  }

  /** Two writes side by side are one. */
  lemma {:induction false} PutPut(a: seq<byte>, b: seq<byte>, c: seq<byte>, off: nat, s: seq<byte>, u: seq<byte>)
    requires Put(a, b, off, s) && Put(b, c, off + |s|, u)
    ensures Put(a, c, off, s + u)
  {
  }

  ghost predicate ZeroAt(img: seq<byte>, off: nat, n: nat) {
    off + n <= |img| && forall k | off <= k < off + n :: img[k] == 0
  }

  /** What lies past a write is as it was. */
  lemma {:induction false} ZeroAfter(a: seq<byte>, b: seq<byte>, off: nat, s: seq<byte>, n: nat)
    requires Put(a, b, off, s) && ZeroAt(a, off, |s| + n)
    ensures ZeroAt(b, off + |s|, n)
  {
  }

  method Wr16(img: array<byte>, off: nat, v: nat)
    requires off + 2 <= img.Length
    modifies img
    ensures Put(old(img[..]), img[..], off, Le16(v))
  {
    img[off] := v % 256;
    img[off + 1] := v / 256 % 256;
  }

  method Wr32(img: array<byte>, off: nat, v: nat)
    requires off + 4 <= img.Length
    modifies img
    ensures Put(old(img[..]), img[..], off, Le32(v))
  {
    img[off] := v % 256;
    img[off + 1] := v / 256 % 256;
    img[off + 2] := v / 65536 % 256;
    img[off + 3] := v / 16777216 % 256;
  }

  /** Copy a byte string into the image. */
  method WrBytes(img: array<byte>, off: nat, s: seq<byte>)
    requires off + |s| <= img.Length
    modifies img
    ensures Put(old(img[..]), img[..], off, s)
  {
    for i := 0 to |s|
      invariant forall k | 0 <= k < img.Length :: img[k] == if off <= k < off + i then s[k - off] else old(img[k])
    {
      img[off + i] := s[i];
    }
  }

  /** Bytes that are zero and stay so count as written. */
  lemma {:induction false} PutGap(a: seq<byte>, b: seq<byte>, off: nat, s: seq<byte>, size: nat)
    requires Put(a, b, off, s) && ZeroAt(a, off, size) && |s| + 2 <= size
    ensures Put(a, b, off, s + [0, 0])
  {
  }

  /** A further 16-bit number. */
  method Add16(img: array<byte>, off: nat, v: nat, ghost a: seq<byte>, ghost s: seq<byte>)
    requires off >= |s| && off + 2 <= img.Length && Put(a, img[..], off - |s|, s)
    modifies img
    ensures Put(a, img[..], off - |s|, s + Le16(v))
  {
    ghost var b := img[..];
    Wr16(img, off, v);
    PutPut(a, b, img[..], off - |s|, s, Le16(v));
  }

  /** wr_dirent: an entry, on bytes that are zero. */
  method WrDirent(img: array<byte>, off: nat, name11: seq<byte>, attr: byte, clus: nat, size: nat)
    requires |name11| == 11 && ZeroAt(img[..], off, 32)
    modifies img
    ensures Put(old(img[..]), img[..], off, Dirent(name11, attr, clus, size))
  {
    ghost var a := img[..];
    WrBytes(img, off, name11);
    ghost var b := img[..];
    img[off + 11] := attr;
    ghost var s := name11 + [attr];
    assert Put(b, img[..], off + 11, [attr]);
    PutPut(a, b, img[..], off, name11, [attr]);
    PutGap(a, img[..], off, s, 32);
    hide Put, ZeroAt;
    s := s + [0, 0];
    Add16(img, off + 14, 0, a, s);
    s := s + [0, 0];
    Add16(img, off + 16, 0x21, a, s);
    s := s + [0x21, 0];
    Add16(img, off + 18, 0x21, a, s);
    s := s + [0x21, 0];
    PutGap(a, img[..], off, s, 32);
    s := s + [0, 0];
    Add16(img, off + 22, 0, a, s);
    s := s + [0, 0];
    Add16(img, off + 24, 0x21, a, s);
    s := s + [0x21, 0];
    Add16(img, off + 26, clus, a, s);
    s := s + Le16(clus);
    b := img[..];
    Wr32(img, off + 28, size);
    PutPut(a, b, img[..], off, s, Le32(size));
  }

  /** lfn_checksum */
  method LfnChecksum(name11: seq<byte>) returns (sum: byte)
    ensures sum == Checksum(name11)
  {
    sum := 0;
    for i := 0 to |name11|
      invariant sum == Checksum(name11[..i])
    {
      assert name11[..i + 1][..i] == name11[..i];
      sum := (sum % 2 * 128 + sum / 2 + name11[i]) % 256;
    }
    assert name11[..|name11|] == name11;
  }

  /** Byte `j` of a slot once its first `n` units are in place. */
  function SlotSoFar(name: seq<byte>, alias: seq<byte>, q: nat, n: nat, j: nat): byte
    requires 1 <= q <= Slots(name) && |name| <= 63 && j < 32
  {
    if UnitAt(j) >= n then 0 else SlotByte(name, alias, q, j)
  }

  lemma {:induction false} UnitPlaces(k: nat, j: nat)
    requires k < 13 && j < 32
    ensures UnitAt(j) == k <==> j == UnitOffset(k) || j == UnitOffset(k) + 1
  {
  }

  /** One step of filling a slot changes the two bytes of unit `k`. */
  lemma {:induction false} SlotUnitBytes(name: seq<byte>, alias: seq<byte>, q: nat, k: nat, j: nat)
    requires 1 <= q <= Slots(name) && |name| <= 63 && k < 13 && j < 32
    ensures var u := Unit(name, (q - 1) * 13 + k);
      SlotSoFar(name, alias, q, k + 1, j) ==
      if j == UnitOffset(k) then u % 256
      else if j == UnitOffset(k) + 1 then u / 256 else SlotSoFar(name, alias, q, k, j)
  {
    UnitPlaces(k, j);
    UnitPlace(k);
    hide UnitAt, UnitOffset, Unit, Slots;
  }

  lemma {:induction false} SlotBare(name: seq<byte>, alias: seq<byte>, q: nat, j: nat)
    requires 1 <= q <= Slots(name) && |name| <= 63 && j < 32
    ensures SlotSoFar(name, alias, q, 0, j) ==
      if j == 0 then (if q == Slots(name) then q + 0x40 else q)
      else if j == 11 then ATTR_LONG_NAME else if j == 13 then Checksum(alias) else 0
    ensures SlotSoFar(name, alias, q, 13, j) == SlotByte(name, alias, q, j)
  {
  }

  method ClearSlot(img: array<byte>, off: nat)
    requires off + 32 <= img.Length
    modifies img
    ensures forall k | 0 <= k < img.Length :: img[k] == if off <= k < off + 32 then 0 else old(img[k])
  {
    for i := 0 to 32
      invariant forall k | 0 <= k < img.Length :: img[k] == if off <= k < off + i then 0 else old(img[k])
    {
      img[off + i] := 0;
    }
  }

  /** One slot of the chain, whatever was there before. */
  method WrSlot(img: array<byte>, off: nat, name: seq<byte>, alias: seq<byte>, chk: byte, q: nat, nSlots: nat)
    requires nSlots == Slots(name) && 1 <= q <= nSlots && |name| <= 63 && chk == Checksum(alias)
    requires off + 32 <= img.Length
    modifies img
    ensures Put(old(img[..]), img[..], off, Slot(name, alias, q))
  {
    assert q <= 5;
    hide SlotSoFar, SlotByte, Slots, Checksum;
    ClearSlot(img, off);
    img[off] := if q == nSlots then q + 0x40 else q;
    img[off + 11] := ATTR_LONG_NAME;
    img[off + 13] := chk;
    forall i | off <= i < off + 32
      ensures img[i] == SlotSoFar(name, alias, q, 0, i - off)
    {
      SlotBare(name, alias, q, i - off);
    }
    for k := 0 to 13
      invariant forall i | 0 <= i < img.Length ::
        img[i] == if off <= i < off + 32 then SlotSoFar(name, alias, q, k, i - off) else old(img[i])
    {
      WrUnit(img, off, name, alias, q, k);
    }
    forall i | off <= i < off + 32
      ensures img[i] == Slot(name, alias, q)[i - off]
    {
      SlotBare(name, alias, q, i - off);
    }
  }

  method WrUnit(img: array<byte>, off: nat, name: seq<byte>, alias: seq<byte>, q: nat, k: nat)
    requires 1 <= q <= Slots(name) && |name| <= 63 && off + 32 <= img.Length && k < 13
    requires forall i | off <= i < off + 32 :: img[i] == SlotSoFar(name, alias, q, k, i - off)
    modifies img
    ensures forall i | 0 <= i < img.Length ::
      img[i] == if off <= i < off + 32 then SlotSoFar(name, alias, q, k + 1, i - off) else old(img[i])
  {
    hide UnitOffset, SlotSoFar, Slots;
    UnitPlace(k);
    var o, u := UnitOffset(k), Unit(name, (q - 1) * 13 + k);
    img[off + o] := u % 256;
    img[off + o + 1] := u / 256;
    hide Unit;
    forall i | off <= i < off + 32
      ensures img[i] == SlotSoFar(name, alias, q, k + 1, i - off)
    {
      SlotUnitBytes(name, alias, q, k, i - off);
    }
  }

  /** One more slot of the chain is done. */
  lemma {:induction false} ChainGrows(name: seq<byte>, alias: seq<byte>, q: nat, done: seq<byte>)
    requires 1 <= q <= Slots(name) && |name| <= 63
    ensures done + SlotChain(name, alias, q) == done + Slot(name, alias, q) + SlotChain(name, alias, q - 1)
  {
    hide Slot;
    assert done + (Slot(name, alias, q) + SlotChain(name, alias, q - 1))
        == done + Slot(name, alias, q) + SlotChain(name, alias, q - 1);
  }

  /** wr_lfn_slots: the whole slot chain. */
  method WrLfnSlots(img: array<byte>, off: nat, name: seq<byte>, alias: seq<byte>) returns (e: nat)
    requires |name| <= 63 && off + 32 * Slots(name) <= img.Length
    modifies img
    ensures Put(old(img[..]), img[..], off, SlotChain(name, alias, Slots(name))) && e == off + 32 * Slots(name)
  {
    var chk := LfnChecksum(alias);
    var n := (|name| + 12) / 13;
    assert n == Slots(name);
    ghost var a, done, goal := img[..], [], SlotChain(name, alias, n);
    assert done + goal == goal;
    PutNothing(a, off);
    hide Slots, Checksum, Slot, SlotChain, Put;
    e := off;
    var q := n;
    while q >= 1
      invariant 0 <= q <= n && e == off + |done| && |done| == 32 * (n - q) && img.Length == |a|
      invariant Put(a, img[..], off, done) && done + SlotChain(name, alias, q) == goal
    {
      ghost var b := img[..];
      WrSlot(img, e, name, alias, chk, q, n);
      PutPut(a, b, img[..], off, done, Slot(name, alias, q));
      ChainGrows(name, alias, q, done);
      done := done + Slot(name, alias, q);
      e, q := e + 32, q - 1;
    }
    assert done + SlotChain(name, alias, 0) == done;
  }
}
