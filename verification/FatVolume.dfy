/** What src/boot/fatbuild.c puts on the volume: where every node's clusters lie, the FAT, the short names and
    the bytes of every directory, and the layout of the whole image. */
module FatVolume {
  import opened Bits
  import opened FatNames
  import opened FatTree
  import opened FatSizing
  import Deflate

  // ---------------------------------------------------------------- clusters and the FAT

  /** Clusters of node `i`. */
  function Count(t: seq<Node>, c: nat, i: nat): nat
    requires i < |t| && c > 0
  {
    ClustersFor(Need(t, i), c)
  }

  lemma {:induction false} CountPositive(t: seq<Node>, c: nat, i: nat)
    requires 1 <= i < |t| && c > 0
    ensures Count(t, c, i) > 0 <==> Need(t, i) > 0
    ensures Need(t, i) <= Count(t, c, i) * c
  {
    DivAbove(Need(t, i) + c - 1, c);
  }

  /** First cluster of node `i`, 0 for an empty file. */
  function First(t: seq<Node>, c: nat, i: nat): nat
    requires 1 <= i < |t| && c > 0
  {
    if Need(t, i) == 0 then 0 else 2 + Demand(t, c, i)
  }

  const EOC: nat := 0xFFFF

  /** The links of a run of `n` clusters from `first` on. */
  function Run(first: nat, n: nat): (r: seq<nat>)
    ensures |r| == n && forall k | 0 <= k < n :: r[k] == if k + 1 < n then first + k + 1 else EOC
  {
    seq(n, k => if k + 1 < n then first + k + 1 else EOC)
  }

  /** The FAT once nodes 1 to n - 1 have their clusters. */
  function Links(t: seq<Node>, c: nat, n: nat): (r: seq<nat>)
    requires n <= |t| && c > 0
    ensures |r| == 2 + Demand(t, c, n)
  {
    if n <= 1 then [0xFFF8, 0xFFFF] else Links(t, c, n - 1) + Run(2 + Demand(t, c, n - 1), Count(t, c, n - 1))
  }

  lemma {:induction false} DemandGrows(t: seq<Node>, c: nat, i: nat, n: nat)
    requires 1 <= i < n <= |t| && c > 0
    ensures Demand(t, c, i) + Count(t, c, i) <= Demand(t, c, n)
    decreases n
  {
    if i < n - 1 {
      DemandGrows(t, c, i, n - 1);
    }
  }

  /** The number of cluster `k` of node `i`. */
  function ClusterNo(t: seq<Node>, c: nat, i: nat, k: nat): nat
    requires i < |t| && c > 0
  {
    2 + Demand(t, c, i) + k
  }

  /** The node that the last cluster belongs to. */
  lemma {:induction false} LastCluster(t: seq<Node>, c: nat, n: nat) returns (i: nat, k: nat)
    requires n <= |t| && c > 0 && Demand(t, c, n) > 0
    ensures 1 <= i < n && k < Count(t, c, i) && ClusterNo(t, c, i, k) == 1 + Demand(t, c, n)
    decreases n
  {
    if Count(t, c, n - 1) > 0 {
      i, k := n - 1, Count(t, c, n - 1) - 1;
    } else {
      i, k := LastCluster(t, c, n - 1);
    }
  }

  /** No cluster of any node has a number that ends a chain if and only if those in use are few enough. */
  lemma {:induction false} NumberedIff(t: seq<Node>, c: nat)
    requires c > 0
    ensures Numbered(t, c) <==>
      forall i: nat, k: nat | 1 <= i < |t| && k < Count(t, c, i) :: ClusterNo(t, c, i, k) < CHAIN_END
  {
    hide Count, Demand;
    forall i: nat, k: nat | 1 <= i < |t| && k < Count(t, c, i)
      ensures ClusterNo(t, c, i, k) < 2 + Demand(t, c, |t|)
    {
      DemandGrows(t, c, i, |t|);
    }
    if !Numbered(t, c) {
      var i, k := LastCluster(t, c, |t|);
      assert ClusterNo(t, c, i, k) >= CHAIN_END;
    }
  }

  /** The FAT links the clusters of a node into one run. */
  lemma {:induction false} LinksOf(t: seq<Node>, c: nat, i: nat, n: nat, k: nat)
    requires 1 <= i < n <= |t| && c > 0 && k < Count(t, c, i)
    ensures 2 + Demand(t, c, i) + k < |Links(t, c, n)|
    ensures Links(t, c, n)[2 + Demand(t, c, i) + k] == Run(2 + Demand(t, c, i), Count(t, c, i))[k]
    decreases n
  {
    DemandGrows(t, c, i, n);
    hide Run, Demand, Count;
    if i < n - 1 {
      DemandGrows(t, c, i, n - 1);
      LinksOf(t, c, i, n - 1, k);
    }
  }

  /** The chains of two nodes have no cluster in common. */
  lemma {:induction false} ChainsApart(t: seq<Node>, c: nat, i: nat, j: nat, k: nat, l: nat)
    requires 1 <= i < j < |t| && c > 0 && k < Count(t, c, i) && l < Count(t, c, j)
    ensures 2 + Demand(t, c, i) + k < 2 + Demand(t, c, j) + l
  {
    DemandGrows(t, c, i, j);
  }

  // ---------------------------------------------------------------- short names

  /** The 11-byte names taken in directory `d` by children among the first `n` nodes. */
  function Used(t: seq<Node>, d: int, n: nat): (r: seq<seq<byte>>)
    requires n <= |t|
    ensures |r| <= n
    ensures forall i | 0 <= i < |r| :: |r[i]| == 11
    decreases n, 0
  {
    if n <= 1 then []
    else Used(t, d, n - 1) + (if t[n - 1].parent == d then [Short(t, d, n - 1)] else [])
  }

  /** The 11-byte name node `k` gets in directory `d`: its own if it fits, else an alias that is not taken. */
  function Short(t: seq<Node>, d: int, k: nat): (r: seq<byte>)
    requires k < |t|
    ensures |r| == 11
    decreases k, 1
  {
    if Fits83(t[k].name) then Name11(t[k].name) else FirstFree(t[k].name, Used(t, d, k), 1)
  }

  lemma {:induction false} UsedHas(t: seq<Node>, d: int, n: nat, k: nat)
    requires 1 <= k < n <= |t| && t[k].parent == d
    ensures Short(t, d, k) in Used(t, d, n)
    decreases n
  {
    hide Short;
    if k < n - 1 {
      UsedHas(t, d, n - 1, k);
    } else {
      assert Used(t, d, n) == Used(t, d, n - 1) + [Short(t, d, k)];
      assert Used(t, d, n)[|Used(t, d, n)| - 1] == Short(t, d, k);
    }
  }

  lemma {:induction false} NoTilde(name: seq<byte>)
    requires TILDE !in name
    ensures TILDE !in Name11(name)
  {
    hide LastDot;
    forall i | 0 <= i < 11
      ensures Name11(name)[i] != TILDE
    {
      assert Name11(name)[i] == NameByte(name, i);
    }
  }

  /** Two children of a directory get different short names, unless both fit 8.3 and encode alike or one that fits
      has a tilde of its own. */
  lemma {:induction false} ShortsDistinct(t: seq<Node>, d: int, j: nat, k: nat)
    requires Valid(t) && 1 <= j < k < |t| && t[j].parent == d == t[k].parent
    requires Fits83(t[k].name) ==> TILDE !in t[k].name
    requires Fits83(t[j].name) && Fits83(t[k].name) ==> Name11(t[j].name) != Name11(t[k].name)
    ensures Short(t, d, j) != Short(t, d, k)
  {
    assert |t| <= MAX_NODES;
    hide Valid, Fits83, FirstFree, Name11;
    if !Fits83(t[k].name) {
      UsedHas(t, d, k, j);
      AliasFresh(t[k].name, Used(t, d, k));
    } else if !Fits83(t[j].name) {
      NoTilde(t[k].name);
      AliasFresh(t[j].name, Used(t, d, j));
    }
  }

  // ---------------------------------------------------------------- directories as bytes

  function Attr(n: Node): byte { if n.isDir then ATTR_DIRECTORY else ATTR_ARCHIVE }
  function EntrySize(n: Node): nat { if n.isDir then 0 else PayloadSize(n.payload) }

  /** The entries of a node under a given short name: its long-name slots, if any, and its own. */
  function EntryBytes(n: Node, short: seq<byte>, clus: nat): (r: seq<byte>)
    requires |n.name| <= NAME_MAX && |short| == 11
    ensures |r| == 32 * NodeDirents(n)
  {
    (if Fits83(n.name) then [] else SlotChain(n.name, short, Slots(n.name)))
    + Dirent(short, Attr(n), clus, EntrySize(n))
  }

  /** The entries of child `k` in directory `d`. */
  function ChildBytes(t: seq<Node>, c: nat, d: int, k: nat): (r: seq<byte>)
    requires 1 <= k < |t| && c > 0 && |t[k].name| <= NAME_MAX
    ensures |r| == 32 * NodeDirents(t[k])
  {
    EntryBytes(t[k], Short(t, d, k), First(t, c, k))
  }

  ghost predicate Named(t: seq<Node>) { forall i | 0 <= i < |t| :: |t[i].name| <= NAME_MAX }

  lemma {:induction false} ValidNamed(t: seq<Node>)
    requires Valid(t)
    ensures Named(t)
  {
  }

  /** The entries of the children of `d` among the first `n` nodes. */
  ghost function Children(t: seq<Node>, c: nat, d: int, n: nat): (r: seq<byte>)
    requires n <= |t| && c > 0 && Named(t)
    ensures |r| == 32 * EntryCount(t, d, n)
    decreases n
  {
    if n <= 1 then []
    else Children(t, c, d, n - 1) + (if t[n - 1].parent == d then ChildBytes(t, c, d, n - 1) else [])
  }

  lemma {:induction false} ChildrenStep(t: seq<Node>, c: nat, d: int, n: nat)
    requires 1 < n <= |t| && c > 0 && Named(t)
    ensures Children(t, c, d, n) ==
      if t[n - 1].parent == d then Children(t, c, d, n - 1) + ChildBytes(t, c, d, n - 1) else Children(t, c, d, n - 1)
  {
    hide ChildBytes;
    assert Children(t, c, d, n - 1) + [] == Children(t, c, d, n - 1);
  }

  function VolumeLabel(): (r: seq<byte>)
    ensures |r| == 11
  {
    [78, 84] + Blank(9)
  }

  function DotName(): (r: seq<byte>)
    ensures |r| == 11
  {
    [DOT] + Blank(10)
  }

  function DotDotName(): (r: seq<byte>)
    ensures |r| == 11
  {
    [DOT, DOT] + Blank(9)
  }

  /** What stands before the children: the label in the root, the two dot entries elsewhere. */
  function Head(t: seq<Node>, c: nat, d: nat): (r: seq<byte>)
    requires d < |t| && c > 0 && (d > 0 ==> 0 <= t[d].parent < |t|)
    ensures |r| == if d == 0 then 32 else 64
  {
    if d == 0 then Dirent(VolumeLabel(), ATTR_VOLUME_ID, 0, 0)
    else Dirent(DotName(), ATTR_DIRECTORY, First(t, c, d), 0)
         + Dirent(DotDotName(), ATTR_DIRECTORY, if t[d].parent == 0 then 0 else First(t, c, t[d].parent), 0)
  }

  /** The bytes of directory `d`. */
  ghost function DirBytes(t: seq<Node>, c: nat, d: nat): (r: seq<byte>)
    requires Valid(t) && c > 0 && d < |t|
    ensures |r| == 32 * ((if d == 0 then 1 else 2) + EntryCount(t, d, |t|))
  {
    ValidNamed(t);
    Head(t, c, d) + Children(t, c, d, |t|)
  }

  /** The bytes of a file, if its payload can be unpacked to its size. Nothing is unpacked for an empty file. */
  ghost function Unpacked(p: Payload): Option<seq<byte>> {
    if p.Stored? then Some(p.bytes) else if p.size == 0 then Some([]) else
    var r := Deflate.Inflate(p.src, 0, [], Some(p.size));
    if r.code == 0 && |r.out| == p.size then Some(r.out) else None
  }

  lemma {:induction false} UnpackedSize(p: Payload)
    requires Unpacked(p).Some?
    ensures |Unpacked(p).value| == PayloadSize(p)
  {
    hide Deflate.Inflate;
  }

  /** What the clusters of node `i` hold. */
  ghost function Contents(t: seq<Node>, c: nat, i: nat): (r: seq<byte>)
    requires Valid(t) && c > 0 && 1 <= i < |t| && (!t[i].isDir ==> Unpacked(t[i].payload).Some?)
    ensures |r| == Need(t, i)
  {
    if t[i].isDir then DirBytes(t, c, i)
    else UnpackedSize(t[i].payload); Unpacked(t[i].payload).value
  }

  // ---------------------------------------------------------------- the image

  const PART: nat := 2048 * 512

  function Fat1(g: Geo): nat { PART + SECTOR }
  function FatBytes(g: Geo): nat { g.spf * SECTOR }
  function Fat2(g: Geo): nat { Fat1(g) + FatBytes(g) }
  function RootAt(g: Geo): nat { Fat2(g) + FatBytes(g) }
  const ROOT_BYTES: nat := 512 * 32
  function DataAt(g: Geo): nat { RootAt(g) + ROOT_BYTES }
  function ImageBytes(g: Geo): nat { (2048 + g.parts) * SECTOR }

  /** Where cluster `k` lies. */
  function ClusterAt(g: Geo, k: nat): nat
    requires k >= 2
  {
    DataAt(g) + (k - 2) * ClusterBytes(g)
  }

  lemma {:induction false} ClusterInside(g: Geo, k: nat, n: nat)
    requires GeoOk(g) && k >= 2 && k + n <= g.clusters + 2
    ensures ClusterAt(g, k) + n * ClusterBytes(g) == ClusterAt(g, k + n) <= ImageBytes(g)
  {
    var c := ClusterBytes(g);
    assert (k - 2) * c + n * c == (k + n - 2) * c;
    assert (k + n - 2) * c <= g.clusters * c by {
      MulOrder(k + n - 2, g.clusters, c);
    }
    assert g.clusters * g.spc <= g.parts - 1 - 2 * g.spf - 32;
    assert g.clusters * c == (g.clusters * g.spc) * SECTOR;
  }

  const SIGNATURE: nat := 0x4E544653

  /** Byte `j` of the master boot record: one active FAT16 partition after the gap. */
  function MbrByte(g: Geo, j: nat): byte {
    if 0x1B8 <= j < 0x1BC then Le32(SIGNATURE)[j - 0x1B8]
    else if j == 0x1BE then 0x80
    else if j == 0x1C2 then 0x06
    else if 0x1C6 <= j < 0x1CA then Le32(2048)[j - 0x1C6]
    else if 0x1CA <= j < 0x1CE then Le32(g.parts)[j - 0x1CA]
    else if j == 510 then 0x55
    else if j == 511 then 0xAA
    else 0
  }

  function Oem(): seq<byte> { [77, 83, 68, 79, 83, 53, 46, 48] }
  function FsType(): seq<byte> { [70, 65, 84, 49, 54, 32, 32, 32] }

  /** Sector count of the partition in its 16-bit field, or 0 when it only fits the 32-bit one. */
  function Small(g: Geo): nat { if g.parts <= 0xFFFF then g.parts else 0 }
  function Large(g: Geo): nat { if g.parts <= 0xFFFF then 0 else g.parts }

  /** Byte `j` of the boot sector, first the part that describes the volume. */
  function BootByte(g: Geo, j: nat): byte
    requires g.spc < 256
  {
    if j < 3 then [0xEB, 0x3C, 0x90][j]
    else if j < 11 then Oem()[j - 3]
    else if j < 13 then Le16(SECTOR)[j - 11]
    else if j == 13 then g.spc
    else if j < 16 then Le16(1)[j - 14]
    else if j == 16 then 2
    else if j < 19 then Le16(512)[j - 17]
    else if j < 21 then Le16(Small(g))[j - 19]
    else if j == 21 then 0xF8
    else if j < 24 then Le16(g.spf)[j - 22]
    else BootTail(g, j)
  }

  function BootTail(g: Geo, j: nat): byte
    requires j >= 24
  {
    if j < 26 then Le16(63)[j - 24]
    else if j < 28 then Le16(255)[j - 26]
    else if j < 32 then Le32(2048)[j - 28]
    else if j < 36 then Le32(Large(g))[j - 32]
    else if j == 36 then 0x80
    else if j == 38 then 0x29
    else if 39 <= j < 43 then Le32(SIGNATURE)[j - 39]
    else if 43 <= j < 54 then VolumeLabel()[j - 43]
    else if 54 <= j < 62 then FsType()[j - 54]
    else if j == 510 then 0x55
    else if j == 511 then 0xAA
    else 0
  }

  /** The `n` bytes at `o` are `s`, then zeros. */
  ghost predicate Holds(img: seq<byte>, o: nat, n: nat, s: seq<byte>) {
    && o + n <= |img| && |s| <= n
    && forall k | o <= k < o + n :: img[k] == if k - o < |s| then s[k - o] else 0
  }

  /** The `n` bytes at `o` are these 16-bit numbers, then zeros. */
  ghost predicate Lists(img: seq<byte>, o: nat, n: nat, links: seq<nat>) {
    && o + n <= |img| && 2 * |links| <= n
    && (forall j | 0 <= j < |links| :: Rd16(img, o + 2 * j) == links[j])
    && (forall k | o + 2 * |links| <= k < o + n :: img[k] == 0)
  }

  ghost predicate HeaderOk(img: seq<byte>, g: Geo)
    requires g.spc < 256
  {
    && |img| >= PART + SECTOR
    && (forall k | 0 <= k < 512 :: img[k] == MbrByte(g, k)) && (forall k | 512 <= k < PART :: img[k] == 0)
    && (forall k | PART <= k < PART + 512 :: img[k] == BootByte(g, k - PART))
  }

  /** The clusters of node `i`, if it has any, hold `s` and then zeros. */
  ghost predicate Region(img: seq<byte>, t: seq<Node>, g: Geo, i: nat, s: seq<byte>)
    requires GeoOk(g) && 1 <= i < |t|
  {
    var c := ClusterBytes(g);
    Need(t, i) > 0 ==> Holds(img, ClusterAt(g, First(t, c, i)), Count(t, c, i) * c, s)
  }

  /** The clusters of node `i` hold its contents, which for a file can be unpacked. */
  ghost predicate NodeOk(img: seq<byte>, t: seq<Node>, g: Geo, i: nat)
    requires Valid(t) && GeoOk(g) && 1 <= i < |t|
  {
    (t[i].isDir || Unpacked(t[i].payload).Some?) && Region(img, t, g, i, Contents(t, ClusterBytes(g), i))
  }

  /** The clusters of all nodes exist, none has a number that ends a chain, and the first FAT links them. */
  ghost predicate FatOk(img: seq<byte>, t: seq<Node>, g: Geo) {
    && GeoOk(g) && |t| >= 1 && 2 + Demand(t, ClusterBytes(g), |t|) <= g.clusters + 1 && Numbered(t, ClusterBytes(g))
    && Lists(img, Fat1(g), FatBytes(g), Links(t, ClusterBytes(g), |t|))
  }

  /** An image of the tree. */
  ghost predicate Built(img: seq<byte>, t: seq<Node>, g: Geo) {
    && Valid(t) && GeoOk(g)
    && |img| == ImageBytes(g) && HeaderOk(img, g) && FatOk(img, t, g)
    && img[Fat2(g)..RootAt(g)] == img[Fat1(g)..Fat2(g)]
    && Holds(img, RootAt(g), ROOT_BYTES, DirBytes(t, ClusterBytes(g), 0))
    && forall i | 1 <= i < |t| :: NodeOk(img, t, g, i)
  }
}
