/** How NT itself lists a directory of the volume (src/NT/PRIVATE/NTOS/FASTFAT/DIRSUP.C, FatLocateDirent), long names
    included, and that on what src/boot/fatbuild.c writes it lists every child with its name, attribute, first cluster
    and size. */
module NtDirectory {
  import opened Bits
  import opened FatNames
  import opened FatTree
  import opened FatSizing
  import opened FatVolume
  import opened FatSearch

  // ---------------------------------------------------------------- the driver's scan

  /** A directory entry as the driver returns it, with the long name that belongs to it, if any. */
  datatype Entry = Entry(name11: seq<byte>, attr: byte, cluster: nat, size: nat, long: Option<seq<nat>>)

  /** A long name in progress: the number of the slot seen last, the units from there on, the length of the name, the
      checksum, and whether that slot was the entry just before. */
  datatype Lfn = Idle | Pending(ordinal: nat, units: seq<nat>, size: nat, checksum: byte, near: bool)

  /** The 13 units of a slot. */
  function Units(e: seq<byte>): (u: seq<nat>)
    requires |e| == 32
    ensures |u| == 13
  {
    [Rd16(e, 1), Rd16(e, 3), Rd16(e, 5), Rd16(e, 7), Rd16(e, 9),
     Rd16(e, 14), Rd16(e, 16), Rd16(e, 18), Rd16(e, 20), Rd16(e, 22), Rd16(e, 24),
     Rd16(e, 28), Rd16(e, 30)]
  }

  /** The slot goes on with the name in progress. */
  predicate Continues(s: Lfn, e: seq<byte>)
    requires |e| == 32
  {
    && s.Pending? && e[0] / 64 % 2 == 0 && e[0] != 0 && e[0] == s.ordinal - 1
    && e[12] == 0 && e[13] == s.checksum && Rd16(e, 26) == 0
  }

  /** The slot can be the last one of a name, which comes first on the disk. */
  predicate Begins(e: seq<byte>)
    requires |e| == 32
  {
    e[0] / 64 % 2 == 1 && 1 <= e[0] - 64 <= 20 && e[12] == 0 && Rd16(e, 26) == 0
  }

  /** Where the name ends in these units, from `k` on: at a zero that only 0xFFFF follows, else after them. */
  function EndOfName(u: seq<nat>, k: nat): (n: Option<nat>)
    requires k <= |u|
    ensures n.Some? ==> k <= n.value <= |u|
    decreases |u| - k
  {
    if k == |u| then Some(k)
    else if u[k] != 0 then EndOfName(u, k + 1)
    else if forall j | k < j < |u| :: u[j] == 0xFFFF then Some(k) else None
  }

  function AfterSlot(s: Lfn, e: seq<byte>): Lfn
    requires |e| == 32
  {
    if Continues(s, e) then Pending(e[0], Units(e) + s.units, s.size, s.checksum, true)
    else if !Begins(e) then Idle
    else
      match EndOfName(Units(e), 0)
      case None => Idle
      case Some(k) => Pending(e[0] - 64, Units(e), (e[0] - 65) * 13 + k, e[13], true)
  }

  /** FatComputeLfnChecksum, over the first `k` bytes. */
  function NtChecksum(name: seq<byte>, k: nat): byte
    requires 1 <= k <= |name|
  {
    if k == 1 then name[0] else
    var sum := NtChecksum(name, k - 1);
    ((if sum % 2 == 1 then 0x80 else 0) + sum / 2 + name[k - 1] as int) % 256
  }

  /** The long name that belongs to the entry of this short name. */
  function LongName(s: Lfn, name11: seq<byte>): Option<seq<nat>>
    requires |name11| == 11
  {
    if s.Pending? && s.near && s.ordinal == 1 && NtChecksum(name11, 11) == s.checksum && s.size <= |s.units|
    then Some(s.units[..s.size]) else None
  }

  datatype Located = End | Hit(entry: Entry, rest: seq<byte>)

  /** The first entry that is in use and is no label. */
  function Locate(dir: seq<byte>, s: Lfn): (r: Located)
    ensures r.Hit? ==> |r.rest| < |dir|
    decreases |dir|
  {
    if |dir| < 32 || dir[0] == 0 then End else
    var e, rest := dir[..32], dir[32..];
    if e[11] == 0x0F then Locate(rest, AfterSlot(s, e))
    else if e[0] == 0xE5 || e[11] / 8 % 2 == 1 then Locate(rest, if s.Pending? then s.(near := false) else s)
    else Hit(Entry(e[..11], e[11], Rd16(e, 26), Rd32(e, 28), LongName(s, e[..11])), rest)
  }

  /** All of them, one call after the other. */
  function Listing(dir: seq<byte>): seq<Entry>
    decreases |dir|
  {
    match Locate(dir, Idle)
    case End => []
    case Hit(e, rest) => [e] + Listing(rest)
  }

  // ---------------------------------------------------------------- what it should give

  /** The entry of child `k` of directory `d`. */
  function Child(t: seq<Node>, c: nat, d: int, k: nat): Entry
    requires 1 <= k < |t| && c > 0
  {
    var n := t[k];
    Entry(Short(t, d, k), if n.isDir then 0x10 else 0x20, First(t, c, k),
          if n.isDir then 0 else PayloadSize(n.payload), if Fits83(n.name) then None else Some(n.name))
  }

  /** The children from node `k` on, but for those whose short name starts with the mark of a deleted entry. */
  function ChildList(t: seq<Node>, c: nat, d: int, k: nat): seq<Entry>
    requires 1 <= k <= |t| && c > 0
    decreases |t| - k
  {
    if k == |t| then []
    else if t[k].parent == d && Short(t, d, k)[0] != 0xE5 then [Child(t, c, d, k)] + ChildList(t, c, d, k + 1)
    else ChildList(t, c, d, k + 1)
  }

  /** The entries for a directory itself and its parent, in all directories but the root. */
  function Dots(t: seq<Node>, c: nat, d: nat): seq<Entry>
    requires d < |t| && c > 0 && (d > 0 ==> 0 <= t[d].parent < |t|)
  {
    if d == 0 then [] else
    [Entry(DotName(), 0x10, First(t, c, d), 0, None),
     Entry(DotDotName(), 0x10, if t[d].parent == 0 then 0 else First(t, c, t[d].parent), 0, None)]
  }

  // ---------------------------------------------------------------- one slot

  lemma {:induction false} ChecksumAgrees(name: seq<byte>, k: nat)
    requires 1 <= k <= |name|
    ensures NtChecksum(name, k) == Checksum(name[..k])
    decreases k
  {
    assert name[..k][..k - 1] == name[..k - 1];
    if k > 1 {
      ChecksumAgrees(name, k - 1);
    }
  }

  /** Units `13 * (q - 1)` to `13 * n` of a name. */
  function NameUnits(name: seq<byte>, q: nat, n: nat): (u: seq<nat>)
    requires 1 <= q <= n + 1
    ensures |u| == 13 * (n - (q - 1))
    ensures forall i | 0 <= i < |u| :: u[i] == Unit(name, 13 * (q - 1) + i)
  {
    seq<nat>(13 * (n - (q - 1)), i requires 0 <= i => Unit(name, 13 * (q - 1) + i))
  }

  lemma {:induction false} UnitsAt(e: seq<byte>, k: nat)
    requires |e| == 32 && k < 13
    ensures UnitOffset(k) + 2 <= 32 && Units(e)[k] == Rd16(e, UnitOffset(k))
  {
  }

  lemma {:induction false} SlotUnits(name: seq<byte>, alias: seq<byte>, q: nat)
    requires 1 <= q <= Slots(name) && |name| <= 63
    ensures Units(Slot(name, alias, q)) == NameUnits(name, q, q)
  {
    hide Slot, Slots, Units, Rd16, UnitOffset, Unit;
    var e := Slot(name, alias, q);
    forall k | 0 <= k < 13
      ensures Units(e)[k] == NameUnits(name, q, q)[k]
    {
      UnitsAt(e, k);
      SlotUnit(name, alias, q, k);
    }
  }

  lemma {:induction false} SlotFields(name: seq<byte>, alias: seq<byte>, q: nat)
    requires 1 <= q <= Slots(name) && |name| <= 63
    ensures var e := Slot(name, alias, q);
      && e[0] == (if q == Slots(name) then q + 0x40 else q) && e[11] == 0x0F && e[12] == 0
      && e[13] == Checksum(alias) && Rd16(e, 26) == 0 && q <= 5
  {
    var e := Slot(name, alias, q);
    assert e[0] == SlotByte(name, alias, q, 0) && e[11] == SlotByte(name, alias, q, 11);
    assert e[12] == SlotByte(name, alias, q, 12) && e[13] == SlotByte(name, alias, q, 13);
    assert e[26] == SlotByte(name, alias, q, 26) && e[27] == SlotByte(name, alias, q, 27);
    hide Slot, Checksum, Unit;
  }

  /** The last units of a name without zeros end where the name does. */
  lemma {:induction false} LastUnits(name: seq<byte>, k: nat)
    requires 0 !in name && name != [] && k <= |name| - 13 * (Slots(name) - 1)
    ensures Slots(name) >= 1 && |name| <= 13 * Slots(name)
    ensures EndOfName(NameUnits(name, Slots(name), Slots(name)), k) == Some(|name| - 13 * (Slots(name) - 1))
    decreases |name| - k
  {
    var q := Slots(name);
    var u, n := NameUnits(name, q, q), |name| - 13 * (q - 1);
    assert n <= 13;
    if k < n {
      assert u[k] == name[13 * (q - 1) + k];
      LastUnits(name, k + 1);
    }
  }

  /** The state after the slots from `q` up have been read. */
  function Seen(name: seq<byte>, alias: seq<byte>, q: nat): Lfn
    requires 1 <= q <= Slots(name) + 1
  {
    if q == Slots(name) + 1 then Idle
    else Pending(q, NameUnits(name, q, Slots(name)), |name|, Checksum(alias), true)
  }

  lemma {:induction false} SlotStep(name: seq<byte>, alias: seq<byte>, q: nat)
    requires 1 <= q <= Slots(name) && |name| <= 63 && 0 !in name
    ensures AfterSlot(Seen(name, alias, q + 1), Slot(name, alias, q)) == Seen(name, alias, q)
  {
    hide Slot, Checksum, Unit, Units, NameUnits, EndOfName, Rd16;
    SlotFields(name, alias, q);
    SlotUnits(name, alias, q);
    if q == Slots(name) {
      LastUnits(name, 0);
    } else {
      JoinUnits(name, q, Slots(name));
    }
  }

  lemma {:induction false} JoinUnits(name: seq<byte>, q: nat, n: nat)
    requires 1 <= q <= n
    ensures NameUnits(name, q, q) + NameUnits(name, q + 1, n) == NameUnits(name, q, n)
  {
    hide Unit;
  }

  // ---------------------------------------------------------------- one child

  lemma {:induction false} LocateSlot(e: seq<byte>, rest: seq<byte>, s: Lfn)
    requires |e| == 32 && e[0] != 0 && e[11] == 0x0F
    ensures Locate(e + rest, s) == Locate(rest, AfterSlot(s, e))
  {
    hide AfterSlot;
    var dir := e + rest;
    assert dir[..32] == e && dir[32..] == rest;
  }

  lemma {:induction false} LocateChain(name: seq<byte>, alias: seq<byte>, q: nat, rest: seq<byte>)
    requires q <= Slots(name) && |name| <= 63 && 0 !in name
    ensures Locate(SlotChain(name, alias, q) + rest, Seen(name, alias, q + 1)) == Locate(rest, Seen(name, alias, 1))
    decreases q
  {
    hide Locate, Slots, Seen, Slot, SlotChain;
    if q == 0 {
      ChainNone(name, alias, rest);
    } else {
      ChainHead(name, alias, q);
      var e, tail := Slot(name, alias, q), SlotChain(name, alias, q - 1);
      assert e + tail + rest == e + (tail + rest);
      SlotFields(name, alias, q);
      LocateSlot(e, tail + rest, Seen(name, alias, q + 1));
      SlotStep(name, alias, q);
      LocateChain(name, alias, q - 1, rest);
    }
  }

  lemma {:induction false} ChainNone(name: seq<byte>, alias: seq<byte>, rest: seq<byte>)
    requires |name| <= 63
    ensures SlotChain(name, alias, 0) + rest == rest
  {
  }

  lemma {:induction false} LocateDirent(name: seq<byte>, attr: byte, clus: nat, size: nat, rest: seq<byte>, s: Lfn)
    requires |name| == 11 && clus < 65536 && size < WORD32 && name[0] != 0 && attr != 0x0F
    ensures Locate(Dirent(name, attr, clus, size) + rest, s)
         == if name[0] == 0xE5 || attr / 8 % 2 == 1 then Locate(rest, if s.Pending? then s.(near := false) else s)
            else Hit(Entry(name, attr, clus, size, LongName(s, name)), rest)
  {
    var e := Dirent(name, attr, clus, size);
    DirentFields(name, attr, clus, size);
    assert e[0] == e[..11][0];
    hide Dirent, LongName, Rd16, Rd32;
    var dir := e + rest;
    assert dir[..32] == e && dir[32..] == rest;
  }

  /** All slots seen, the name is the one they were made from, for the alias they were made for. */
  lemma {:induction false} LongNameIs(name: seq<byte>, alias: seq<byte>)
    requires name != [] && |name| <= 63 && |alias| == 11
    ensures LongName(Seen(name, alias, 1), alias) == Some(name)
  {
    ChecksumAgrees(alias, 11);
    assert alias[..11] == alias;
    hide NtChecksum, Checksum;
    var u := NameUnits(name, 1, Slots(name));
    assert |name| <= |u|;
    assert u[..|name|] == name;
  }

  /** A child's entries, whatever follows. */
  lemma {:induction false} LocateChild(t: seq<Node>, c: nat, d: int, k: nat, rest: seq<byte>)
    requires Searchable(t, c) && 1 <= k < |t|
    ensures c > 0 && |t[k].name| <= NAME_MAX
    ensures Locate(ChildBytes(t, c, d, k) + rest, Idle)
         == if Short(t, d, k)[0] == 0xE5 then Locate(rest, Idle) else Hit(Child(t, c, d, k), rest)
  {
    hide Locate, Short, First, Fits83, Slots, Seen, Searchable, SlotChain, Dirent, ChildBytes, LongName;
    ChildFacts(t, c, d, k);
    ChildShape(t, c, d, k);
    ChildName(t, c, d, k);
    var name, short := t[k].name, Short(t, d, k);
    var e := Dirent(short, Attr(t[k]), First(t, c, k), EntrySize(t[k]));
    if Fits83(name) {
      LocateDirent(short, Attr(t[k]), First(t, c, k), EntrySize(t[k]), rest, Idle);
      NoLongName(short);
    } else {
      var slots := SlotChain(name, short, Slots(name));
      assert slots + e + rest == slots + (e + rest);
      FirstSeen(name, short);
      LocateChain(name, short, Slots(name), e + rest);
      LocateDirent(short, Attr(t[k]), First(t, c, k), EntrySize(t[k]), rest, Seen(name, short, 1));
      LongNameIs(name, short);
    }
  }

  lemma {:induction false} NoLongName(name11: seq<byte>)
    requires |name11| == 11
    ensures LongName(Idle, name11) == None
  {
  }

  lemma {:induction false} FirstSeen(name: seq<byte>, alias: seq<byte>)
    ensures Seen(name, alias, Slots(name) + 1) == Idle
  {
  }

  lemma {:induction false} ChildName(t: seq<Node>, c: nat, d: int, k: nat)
    requires Searchable(t, c) && 1 <= k < |t|
    ensures t[k].name != [] && 0 !in t[k].name && |t[k].name| <= 63
    ensures !Fits83(t[k].name) ==> Short(t, d, k)[0] != 0xE5
  {
    hide Fits83, Short, FieldsFit;
    ShortHead(t, d, k);
  }

  // ---------------------------------------------------------------- one directory

  lemma {:induction false} ListHit(dir: seq<byte>, e: Entry, rest: seq<byte>)
    requires Locate(dir, Idle) == Hit(e, rest)
    ensures Listing(dir) == [e] + Listing(rest)
  {
    hide Locate;
  }

  lemma {:induction false} ListSame(dir: seq<byte>, rest: seq<byte>)
    requires Locate(dir, Idle) == Locate(rest, Idle)
    ensures Listing(dir) == Listing(rest)
  {
    hide Locate;
  }

  /** The bytes of the children from node `k` on. */
  ghost function ChildrenFrom(t: seq<Node>, c: nat, d: int, k: nat): seq<byte>
    requires 1 <= k <= |t| && c > 0 && Named(t)
    decreases |t| - k
  {
    if k == |t| then []
    else (if t[k].parent == d then ChildBytes(t, c, d, k) else []) + ChildrenFrom(t, c, d, k + 1)
  }

  lemma {:induction false} ChildrenSplit(t: seq<Node>, c: nat, d: int, k: nat)
    requires 1 <= k <= |t| && c > 0 && Named(t)
    ensures Children(t, c, d, |t|) == Children(t, c, d, k) + ChildrenFrom(t, c, d, k)
    decreases |t| - k
  {
    hide ChildBytes, Children;
    if k < |t| {
      ChildrenSplit(t, c, d, k + 1);
      ChildrenStep(t, c, d, k + 1);
      var own := if t[k].parent == d then ChildBytes(t, c, d, k) else [];
      assert Children(t, c, d, k + 1) == Children(t, c, d, k) + own;
      assert Children(t, c, d, k) + own + ChildrenFrom(t, c, d, k + 1)
          == Children(t, c, d, k) + (own + ChildrenFrom(t, c, d, k + 1));
    }
  }

  lemma {:induction false} SearchableNamed(t: seq<Node>, c: nat)
    requires Searchable(t, c)
    ensures Valid(t) && Named(t) && c > 0 && |t| >= 1
  {
  }

  lemma {:induction false} ListChildren(t: seq<Node>, c: nat, d: int, k: nat, rest: seq<byte>)
    requires Searchable(t, c) && Named(t) && 1 <= k <= |t| && c > 0
    ensures Listing(ChildrenFrom(t, c, d, k) + rest) == ChildList(t, c, d, k) + Listing(rest)
    decreases |t| - k
  {
    hide Listing, Locate, ChildBytes, Short, Child, Searchable;
    if k == |t| {
      assert [] + rest == rest && [] + Listing(rest) == Listing(rest);
    } else {
      var tail := ChildrenFrom(t, c, d, k + 1);
      ListChildren(t, c, d, k + 1, rest);
      if t[k].parent == d {
        var own := ChildBytes(t, c, d, k);
        assert own + tail + rest == own + (tail + rest);
        LocateChild(t, c, d, k, tail + rest);
        if Short(t, d, k)[0] == 0xE5 {
          ListSame(own + (tail + rest), tail + rest);
        } else {
          ListHit(own + (tail + rest), Child(t, c, d, k), tail + rest);
          assert [Child(t, c, d, k)] + (ChildList(t, c, d, k + 1) + Listing(rest))
              == [Child(t, c, d, k)] + ChildList(t, c, d, k + 1) + Listing(rest);
        }
      } else {
        assert [] + tail == tail;
      }
    }
  }

  /** The root starts with the label, every other directory with its two dots. */
  lemma {:induction false} ListHead(t: seq<Node>, c: nat, d: nat, rest: seq<byte>)
    requires Searchable(t, c) && c > 0 && d < |t| && (d > 0 ==> 0 <= t[d].parent < d)
    ensures Listing(Head(t, c, d) + rest) == Dots(t, c, d) + Listing(rest)
  {
    hide Listing, Locate, First, Dirent, Searchable;
    if d == 0 {
      LocateDirent(VolumeLabel(), ATTR_VOLUME_ID, 0, 0, rest, Idle);
      ListSame(Head(t, c, d) + rest, rest);
      assert [] + Listing(rest) == Listing(rest);
    } else {
      DotFields(t, c, d);
      var up := if t[d].parent == 0 then 0 else First(t, c, t[d].parent);
      var one, two := Dirent(DotName(), ATTR_DIRECTORY, First(t, c, d), 0), Dirent(DotDotName(), ATTR_DIRECTORY, up, 0);
      assert Head(t, c, d) + rest == one + (two + rest);
      LocateDirent(DotName(), ATTR_DIRECTORY, First(t, c, d), 0, two + rest, Idle);
      LocateDirent(DotDotName(), ATTR_DIRECTORY, up, 0, rest, Idle);
      ListHit(one + (two + rest), Dots(t, c, d)[0], two + rest);
      ListHit(two + rest, Dots(t, c, d)[1], rest);
      assert Dots(t, c, d) + Listing(rest) == [Dots(t, c, d)[0]] + ([Dots(t, c, d)[1]] + Listing(rest));
    }
  }

  lemma {:induction false} DotFields(t: seq<Node>, c: nat, d: nat)
    requires Searchable(t, c) && 1 <= d < |t| && c > 0 && 0 <= t[d].parent < d
    ensures First(t, c, d) < 65536 && (t[d].parent > 0 ==> First(t, c, t[d].parent) < 65536)
  {
    hide First;
  }

  /** The first entry of the root is the label. */
  lemma {:induction false} LabelIs(t: seq<Node>, c: nat)
    requires Valid(t) && c > 0
    ensures |DirBytes(t, c, 0)| >= 32 && DirBytes(t, c, 0)[11] == 0x08
    ensures forall j | 0 <= j < 11 :: DirBytes(t, c, 0)[j] == "NT         "[j] as int
  {
    var name := VolumeLabel();
    DirentFields(name, ATTR_VOLUME_ID, 0, 0);
    var e := Dirent(name, ATTR_VOLUME_ID, 0, 0);
    hide Dirent, Children;
    assert DirBytes(t, c, 0)[..32] == e;
    assert forall j | 0 <= j < 11 :: DirBytes(t, c, 0)[j] == e[..11][j] == name[j];
  }

  /** NT lists a directory of any tree, as it is written with zeros after it, with its dot entries and every child:
      short name, attribute, first cluster and size, and the long name exactly when the name does not fit 8.3. Only
      children whose name starts with 0xE5 are missing. */
  lemma {:induction false} NtLists(t: seq<Node>, c: nat, d: nat, rest: seq<byte>)
    requires Searchable(t, c) && Valid(t) && c > 0 && d < |t| && (rest == [] || rest[0] == 0)
    ensures (d > 0 ==> 0 <= t[d].parent < |t|)
    ensures Listing(DirBytes(t, c, d) + rest) == Dots(t, c, d) + ChildList(t, c, d, 1)
  {
    ListEnd(rest);
    ParentBelow(t, d);
    SearchableNamed(t, c);
    hide Listing, Head, Children, ChildList, Dots, Searchable, Valid, Named;
    ChildrenSplit(t, c, d, 1);
    ChildrenStart(t, c, d);
    var head, kids := Head(t, c, d), ChildrenFrom(t, c, d, 1);
    assert DirBytes(t, c, d) + rest == head + (kids + rest);
    ListHead(t, c, d, kids + rest);
    ListChildren(t, c, d, 1, rest);
    assert ChildList(t, c, d, 1) + [] == ChildList(t, c, d, 1);
  }

  lemma {:induction false} ParentBelow(t: seq<Node>, d: nat)
    requires Valid(t) && d < |t|
    ensures d > 0 ==> 0 <= t[d].parent < d
  {
  }

  lemma {:induction false} ListEnd(rest: seq<byte>)
    requires rest == [] || rest[0] == 0
    ensures Listing(rest) == []
  {
  }

  lemma {:induction false} ChildrenStart(t: seq<Node>, c: nat, d: int)
    requires |t| >= 1 && c > 0 && Named(t)
    ensures Children(t, c, d, 1) + ChildrenFrom(t, c, d, 1) == ChildrenFrom(t, c, d, 1)
  {
    hide ChildrenFrom;
  }

  // ---------------------------------------------------------------- on the image

  /** Where the bytes of directory `d` stand in an image, and in how much room. */
  function DirAt(t: seq<Node>, g: Geo, d: nat): nat
    requires d < |t| && ClusterBytes(g) > 0
  {
    if d == 0 then RootAt(g) else if First(t, ClusterBytes(g), d) < 2 then 0
    else ClusterAt(g, First(t, ClusterBytes(g), d))
  }
  function DirRoom(t: seq<Node>, g: Geo, d: nat): nat
    requires d < |t| && ClusterBytes(g) > 0
  {
    if d == 0 then ROOT_BYTES else Count(t, ClusterBytes(g), d) * ClusterBytes(g)
  }

  lemma {:induction false} DirHeld(img: seq<byte>, t: seq<Node>, g: Geo, d: nat)
    requires Built(img, t, g) && d < |t| && t[d].isDir
    ensures Valid(t) && ClusterBytes(g) > 0
    ensures Holds(img, DirAt(t, g, d), DirRoom(t, g, d), DirBytes(t, ClusterBytes(g), d))
  {
    hide HeaderOk, FatOk, DirBytes, Holds, Count, Demand, ClusterAt;
    if d > 0 {
      assert NodeOk(img, t, g, d);
    }
  }

  lemma {:induction false} HeldSlice(img: seq<byte>, o: nat, n: nat, s: seq<byte>) returns (rest: seq<byte>)
    requires Holds(img, o, n, s)
    ensures o + n <= |img| && img[o..o + n] == s + rest && (rest == [] || rest[0] == 0)
  {
    rest := img[o + |s|..o + n];
    assert forall k | 0 <= k < |s| :: img[o..o + n][k] == s[k];
    assert img[o..o + n] == img[o..o + |s|] + rest;
  }

  /** NT lists every directory of an image the builder made as its tree has it. */
  lemma {:induction false} NtListsImage(img: seq<byte>, t: seq<Node>, g: Geo, d: nat)
    requires Built(img, t, g) && Strings(t) && d < |t| && t[d].isDir
    ensures ClusterBytes(g) > 0 && (d > 0 ==> 0 <= t[d].parent < |t|)
    ensures var o, n := DirAt(t, g, d), DirRoom(t, g, d);
      o + n <= |img| && Listing(img[o..o + n]) == Dots(t, ClusterBytes(g), d) + ChildList(t, ClusterBytes(g), d, 1)
  {
    hide Listing, DirAt, DirRoom, Holds, Dots, ChildList, Built, DirBytes, Searchable;
    BuiltFacts(img, t, g);
    DirHeld(img, t, g, d);
    var rest := HeldSlice(img, DirAt(t, g, d), DirRoom(t, g, d), DirBytes(t, ClusterBytes(g), d));
    NtLists(t, ClusterBytes(g), d, rest);
  }
}
