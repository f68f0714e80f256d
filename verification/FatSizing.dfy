/** How large src/boot/fatbuild.c makes the volume, and that it is large enough: the clusters that all files
    and directories need always fit, although the allocator never uses the last cluster. */
module FatSizing {
  import opened Bits
  import opened FatNames
  import opened FatTree

  const SECTOR: nat := 512
  const MB: nat := 1048576

  // ---------------------------------------------------------------- what the tree needs

  /** Directory entries a node occupies: one, plus long-name slots if it does not fit 8.3. */
  function NodeDirents(n: Node): nat { if Fits83(n.name) then 1 else Slots(n.name) + 1 }

  /** Directory entries of the children of `d` among the first `n` nodes. */
  function EntryCount(t: seq<Node>, d: int, n: nat): nat
    requires n <= |t|
  {
    if n <= 1 then 0
    else EntryCount(t, d, n - 1) + (if t[n - 1].parent == d then NodeDirents(t[n - 1]) else 0)
  }

  /** Bytes node `i` needs: its entries and the two dot entries, or its file size. */
  function Need(t: seq<Node>, i: nat): nat
    requires i < |t|
  {
    if t[i].isDir then 32 * (2 + EntryCount(t, i, |t|)) else PayloadSize(t[i].payload)
  }

  function ClustersFor(nbytes: nat, c: nat): nat
    requires c > 0
  {
    (nbytes + c - 1) / c
  }

  /** Clusters needed by nodes 1 to n - 1. */
  function Demand(t: seq<Node>, c: nat, n: nat): nat
    requires n <= |t| && c > 0
  {
    if n <= 1 then 0 else Demand(t, c, n - 1) + ClustersFor(Need(t, n - 1), c)
  }

  function TotalNeed(t: seq<Node>, n: nat): nat
    requires n <= |t|
  {
    if n <= 1 then 0 else TotalNeed(t, n - 1) + Need(t, n - 1)
  }

  /** File bytes among the first `n` nodes. */
  function FileBytes(t: seq<Node>, n: nat): nat
    requires n <= |t|
  {
    if n <= 1 then 0 else FileBytes(t, n - 1) + (if t[n - 1].isDir then 0 else PayloadSize(t[n - 1].payload))
  }

  lemma {:induction false} CeilBound(x: nat, c: nat)
    requires c > 0
    ensures ClustersFor(x, c) * c <= x + (c - 1)
  {
  }

  lemma {:induction false} DemandBound(t: seq<Node>, c: nat, n: nat)
    requires n <= |t| && c > 0
    ensures Demand(t, c, n) * c <= TotalNeed(t, n) + (if n <= 1 then 0 else (n - 1) * (c - 1))
    decreases n
  {
    if n > 1 {
      DemandBound(t, c, n - 1);
      hide Need, ClustersFor;
      CeilBound(Need(t, n - 1), c);
      BoundStep(Demand(t, c, n - 1), ClustersFor(Need(t, n - 1), c), c, n);
    }
  }

  lemma {:induction false} BoundStep(d: nat, k: nat, c: nat, n: nat)
    requires n > 1 && c > 0
    ensures (d + k) * c == d * c + k * c && (n - 1) * (c - 1) == (n - 2) * (c - 1) + (c - 1)
  {
  }

  /** Entries of all nodes among the first `m`. */
  function AllDirents(t: seq<Node>, m: nat): nat
    requires m <= |t|
  {
    if m <= 1 then 0 else AllDirents(t, m - 1) + NodeDirents(t[m - 1])
  }

  /** Entries over directories 1 to n - 1, of children among the first `m`. */
  function EntrySum(t: seq<Node>, n: nat, m: nat): nat
    requires n <= |t| && m <= |t|
  {
    if n <= 1 then 0 else EntrySum(t, n - 1, m) + EntryCount(t, n - 1, m)
  }

  lemma {:induction false} EntrySumStep(t: seq<Node>, n: nat, m: nat)
    requires n <= |t| && 1 < m <= |t|
    ensures EntrySum(t, n, m)
         == EntrySum(t, n, m - 1) + (if 1 <= t[m - 1].parent < n then NodeDirents(t[m - 1]) else 0)
    decreases n
  {
    hide NodeDirents;
    if n > 1 {
      EntrySumStep(t, n - 1, m);
    }
  }

  lemma {:induction false} EntrySumNone(t: seq<Node>, n: nat, m: nat)
    requires n <= |t| && m <= 1 && m <= |t|
    ensures EntrySum(t, n, m) == 0
    decreases n
  {
    if n > 1 {
      EntrySumNone(t, n - 1, m);
    }
  }

  /** Each node's entries are counted in one directory at most. */
  lemma {:induction false} EntrySumBound(t: seq<Node>, n: nat, m: nat)
    requires n <= |t| && m <= |t|
    ensures EntrySum(t, n, m) <= AllDirents(t, m)
    decreases m
  {
    hide NodeDirents;
    if m > 1 {
      EntrySumBound(t, n, m - 1);
      EntrySumStep(t, n, m);
    } else {
      EntrySumNone(t, n, m);
    }
  }

  lemma {:induction false} AllDirentsBound(t: seq<Node>, m: nat)
    requires Valid(t) && 1 <= m <= |t|
    ensures AllDirents(t, m) <= 6 * (m - 1)
    decreases m
  {
    if m > 1 {
      AllDirentsBound(t, m - 1);
      assert |t[m - 1].name| <= NAME_MAX;
      hide Valid;
    }
  }

  lemma {:induction false} NeedSplit(t: seq<Node>, n: nat)
    requires 1 <= n <= |t|
    ensures TotalNeed(t, n) <= FileBytes(t, n) + 64 * (n - 1) + 32 * EntrySum(t, n, |t|)
    decreases n
  {
    if n > 1 {
      NeedSplit(t, n - 1);
    }
  }

  lemma {:induction false} NeedBound(t: seq<Node>)
    requires Valid(t)
    ensures TotalNeed(t, |t|) <= FileBytes(t, |t|) + 256 * (|t| - 1)
  {
    NeedSplit(t, |t|);
    EntrySumBound(t, |t|, |t|);
    AllDirentsBound(t, |t|);
  }

  // ---------------------------------------------------------------- content

  function Round4K(size: nat): nat { (size + 4095) / 4096 * 4096 }

  /** Sum of the members' sizes, each rounded up to 4 KB. */
  function Content(ms: seq<Member>, n: nat): nat
    requires n <= |ms|
  {
    if n == 0 then 0 else Content(ms, n - 1) + Round4K(PayloadSize(ms[n - 1].payload))
  }

  lemma {:induction false} FileBytesPrefix(t: seq<Node>, u: seq<Node>, n: nat)
    requires t <= u && n <= |t|
    ensures FileBytes(u, n) == FileBytes(t, n)
    decreases n
  {
    if n > 1 {
      FileBytesPrefix(t, u, n - 1);
    }
  }

  lemma {:induction false} FileBytesNew(t: seq<Node>, comp: seq<byte>, parent: int, isDir: bool, payload: Payload)
    requires 1 <= |t| < MAX_NODES
    ensures var u := NewNode(t, comp, parent, isDir, payload).value;
            FileBytes(u, |u|) == FileBytes(t, |t|) + (if isDir then 0 else PayloadSize(payload))
  {
    FileBytesPrefix(t, NewNode(t, comp, parent, isDir, payload).value, |t|);
  }

  lemma {:induction false} FileBytesInsert(t: seq<Node>, cur: nat, comps: seq<seq<byte>>, dirsOnly: bool,
                                           payload: Payload)
    requires |t| >= 1 && Insert(t, cur, comps, dirsOnly, payload).Some?
    ensures var u := Insert(t, cur, comps, dirsOnly, payload).value;
            FileBytes(u, |u|) <= FileBytes(t, |t|) + PayloadSize(payload)
    decreases |comps|
  {
    hide FileBytes, Cut;
    if comps == [] {
    } else if |comps| == 1 && !dirsOnly {
      FileBytesNew(t, comps[0], cur, false, payload);
    } else {
      var d := FindDir(t, cur, Cut(comps[0]), 1);
      var mid := t;
      if d == |t| {
        FileBytesNew(t, comps[0], cur, true, Stored([]));
        mid := NewNode(t, comps[0], cur, true, Stored([])).value;
      }
      FileBytesInsert(mid, d, comps[1..], dirsOnly, payload);
    }
  }

  lemma {:induction false} FileBytesContent(ms: seq<Member>, n: nat)
    requires n <= |ms| && AddAll(ms, n).Some?
    ensures FileBytes(AddAll(ms, n).value, |AddAll(ms, n).value|) <= Content(ms, n)
    decreases n
  {
    if n > 0 {
      FileBytesContent(ms, n - 1);
      var t, m := AddAll(ms, n - 1).value, ms[n - 1];
      hide FileBytes, Components;
      FileBytesInsert(t, 0, Components(m.path), EndsInSlash(m.path), m.payload);
    }
  }

  // ---------------------------------------------------------------- the volume

  function Headroom(content: nat): nat { if content / 4 < 8 * MB then 8 * MB else content / 4 }

  /** Volume size in megabytes: content, overhead and headroom, rounded up. */
  function VolMb(content: nat): nat {
    var mb := (content + 512 * 1024 + Headroom(content) + (MB - 1)) / MB;
    if mb < 8 then 8 else mb
  }

  /** Sectors per cluster. */
  function DefaultSpc(mb: nat): nat {
    if mb <= 128 then 4 else if mb <= 256 then 8 else if mb <= 512 then 16 else if mb <= 1024 then 32 else 64
  }

  /** The largest volume whose image, with the gap before it, has a 32-bit size. */
  const MAX_MB: nat := 4094

  /** One megabyte for the gap, and the rest of 2^32 bytes. */
  lemma {:induction false} MaxMbIs(mb: nat)
    ensures mb <= MAX_MB <==> (2048 + mb * 2048) * 512 < WORD32
  {
  }

  /** From here on a FAT entry ends its chain. */
  const CHAIN_END: nat := 0xFFF8

  /** The sizes of a volume: sectors per cluster, sectors per FAT, sectors of the partition, clusters. */
  datatype Geo = Geo(spc: nat, spf: nat, parts: nat, clusters: nat)

  /** Clusters left for data when each FAT takes `spf` sectors. */
  function ClustersAt(parts: nat, spc: nat, spf: nat): nat
    requires 1 + 2 * spf + 32 <= parts && spc > 0
  {
    (parts - 1 - 2 * spf - 32) / spc
  }

  /** FAT sectors that many clusters take. */
  function SectorsFor(clusters: nat): nat { ((clusters + 2) * 2 + SECTOR - 1) / SECTOR }

  /** The regions fit the partition, and the FAT has an entry for every cluster. */
  predicate GeoOk(g: Geo) {
    && 4 <= g.spc <= 64 && 1 <= g.spf <= 513 && g.parts <= MAX_MB * 2048
    && 1 + 2 * g.spf + 32 <= g.parts && g.clusters == ClustersAt(g.parts, g.spc, g.spf)
    && (g.clusters + 2) * 2 <= g.spf * SECTOR && 1 <= g.clusters
  }

  /** A FAT has no sector that even the clusters left by FATs of one sector would not fill. */
  predicate Tight(g: Geo)
    requires g.parts >= 35 && g.spc > 0
  {
    (g.spf - 1) * SECTOR < ((g.parts - 35) / g.spc + 2) * 2
  }

  /** The sizes the builder settles on for this much content. */
  predicate SizedFor(g: Geo, content: nat) {
    && g.parts == VolMb(content) * 2048 && g.spc == DefaultSpc(VolMb(content))
    && g.parts >= 35 && g.spc > 0 && Tight(g)
  }

  lemma {:induction false} SectorsBound(parts: nat, spc: nat, spf: nat)
    requires 1 + 2 * spf + 32 <= parts && spc > 0 && parts <= 131072 * spc
    ensures SectorsFor(ClustersAt(parts, spc, spf)) <= 513
  {
    DivBound(parts - 1 - 2 * spf - 32, spc, 131072);
  }

  lemma {:induction false} DivBound(x: nat, c: nat, n: nat)
    requires c > 0 && x <= n * c
    ensures x / c <= n
  {
    MulOrder(x / c, n, c);
  }

  lemma {:induction false} MulOrder(a: nat, b: nat, c: nat)
    requires c > 0
    ensures a * c <= b * c <==> a <= b
    ensures a * c < b * c <==> a < b
  {
  }

  lemma {:induction false} SpcBound(mb: nat)
    requires 8 <= mb <= MAX_MB
    ensures 4 <= DefaultSpc(mb) <= 64 && mb * 2048 <= 131072 * DefaultSpc(mb)
  {
  }

  /** The loop that settles the FAT size: it ends, with a FAT large enough for the clusters that then remain. */
  method Settle(mb: nat) returns (g: Geo)
    requires 8 <= mb <= MAX_MB
    ensures GeoOk(g) && g.parts == mb * 2048 && g.spc == DefaultSpc(mb) && Tight(g)
  {
    var parts, spc := mb * 2048, DefaultSpc(mb);
    SpcBound(mb);
    hide DefaultSpc;
    var spf, clusters := 1, 0;
    while true
      invariant 1 <= spf <= 513 && Tight(Geo(spc, spf, parts, 0))
      decreases 513 - spf
    {
      clusters := (parts - 1 - 2 * spf - 32) / spc;
      var needed := ((clusters + 2) * 2 + SECTOR - 1) / SECTOR;
      SectorsBound(parts, spc, spf);
      if needed <= spf {
        break;
      }
      NeededTight(parts, spc, spf);
      spf := needed;
    }
    g := Geo(spc, spf, parts, clusters);
    ClustersSome(g);
  }

  lemma {:induction false} NeededTight(parts: nat, spc: nat, spf: nat)
    requires 1 <= spf && 1 + 2 * spf + 32 <= parts && spc > 0
    ensures SectorsFor(ClustersAt(parts, spc, spf)) >= 1
    ensures (SectorsFor(ClustersAt(parts, spc, spf)) - 1) * SECTOR < ((parts - 35) / spc + 2) * 2
  {
    DivOrder(parts - 33 - 2 * spf, parts - 35, spc);
  }

  lemma {:induction false} DivOrder(x: nat, y: nat, c: nat)
    requires c > 0 && x <= y
    ensures x / c <= y / c
  {
    DivAbove(y, c);
    assert x / c * c <= x;
    MulOrder(x / c, y / c + 1, c);
  }

  lemma {:induction false} ClustersSome(g: Geo)
    requires 33 + 2 * g.spf + g.spc <= g.parts && 4 <= g.spc <= 64
    requires g.clusters == ClustersAt(g.parts, g.spc, g.spf) && SectorsFor(g.clusters) <= g.spf
    ensures (g.clusters + 2) * 2 <= g.spf * SECTOR && 1 <= g.clusters
  {
    assert (g.clusters + 2) * 2 <= g.spf * SECTOR;
    var data := g.parts - 1 - 2 * g.spf - 32;
    var product := g.clusters * g.spc;
    assert product <= data;
    assert product + g.spc > data by {
      DivAbove(data, g.spc);
    }
    MulOrder(0, g.clusters, g.spc);
    hide *;
  }

  /** Bytes of a cluster. */
  function ClusterBytes(g: Geo): nat { g.spc * SECTOR }

  /** Every file and directory fits, with the last cluster left unused: the allocator never finds the volume
      full. */
  lemma {:induction false} SizingSuffices(t: seq<Node>, content: nat, g: Geo)
    requires Valid(t) && FileBytes(t, |t|) <= content && VolMb(content) <= MAX_MB
    requires GeoOk(g) && g.parts == VolMb(content) * 2048 && g.spc == DefaultSpc(VolMb(content))
    ensures 2 + Demand(t, ClusterBytes(g), |t|) <= g.clusters + 1
  {
    hide Demand, TotalNeed, FileBytes, Valid, GeoOk, VolMb, DefaultSpc;
    var c, n := ClusterBytes(g), |t| - 1;
    SizeFacts(t, g);
    DemandBound(t, c, |t|);
    NeedBound(t);
    MulOrder(n, 1023, c - 1);
    Arithmetic(content, g, Demand(t, c, |t|));
  }

  lemma {:induction false} SizeFacts(t: seq<Node>, g: Geo)
    requires Valid(t) && GeoOk(g)
    ensures 1 <= |t| <= 1024 && ClusterBytes(g) > 1
  {
    hide ClustersAt;
  }

  lemma {:induction false} Arithmetic(content: nat, g: Geo, d: nat)
    requires VolMb(content) <= MAX_MB
    requires GeoOk(g) && g.parts == VolMb(content) * 2048 && g.spc == DefaultSpc(VolMb(content))
    requires d * ClusterBytes(g) <= content + 256 * 1023 + 1023 * (ClusterBytes(g) - 1)
    ensures d + 1 <= g.clusters
  {
    hide VolMb, DefaultSpc, Headroom, GeoOk;
    VolumeBytes(content);
    SpcRoom(content);
    DataBytes(g);
    var c := ClusterBytes(g);
    assert d * c + 2 * c < (g.clusters + 1) * c;
    assert (g.clusters + 1) * c == (g.clusters - 1) * c + 2 * c;
    MulOrder(d, g.clusters - 1, c);
  }

  lemma {:induction false} VolumeBytes(content: nat)
    ensures VolMb(content) * MB >= content + 512 * 1024 + Headroom(content)
  {
  }

  /** The clusters all but fill what boot record, FATs and root directory leave of the partition. */
  lemma {:induction false} DataBytes(g: Geo)
    requires GeoOk(g)
    ensures g.clusters >= 1 && ClusterBytes(g) > 0
    ensures (g.clusters + 1) * ClusterBytes(g) > g.parts * SECTOR - 1059 * SECTOR
  {
    var data := g.parts - 1 - 2 * g.spf - 32;
    DivAbove(data, g.spc);
    assert (g.clusters + 1) * ClusterBytes(g) == ((g.clusters + 1) * g.spc) * SECTOR;
    hide ClustersAt;
  }

  lemma {:induction false} DivAbove(x: nat, c: nat)
    requires c > 0
    ensures (x / c + 1) * c > x
  {
  }

  /** Larger clusters come with more headroom. */
  lemma {:induction false} SpcRoom(content: nat)
    requires VolMb(content) <= MAX_MB
    ensures 1025 * (DefaultSpc(VolMb(content)) * SECTOR) + 280000 <= Headroom(content)
  {
    var mb := VolMb(content);
    assert mb > 8 ==> content + 512 * 1024 + Headroom(content) > (mb - 1) * MB;
  }

  // ---------------------------------------------------------------- FAT16, not FAT12

  /** The volume is the smallest whole number of megabytes, at least 8, that holds the content, half a megabyte and
      the larger of 8 MB and a quarter of the content. */
  lemma {:induction false} VolMbLeast(content: nat, mb: nat)
    ensures mb >= VolMb(content) <==>
      mb >= 8 && mb * 1048576 >= content + 524288 + 8388608 && mb * 1048576 >= content + 524288 + content / 4
  {
  }

  /** A cluster is the smallest power of two from 4 to 64 sectors for which 32 MB per sector cover the volume; 64
      where none does. */
  lemma {:induction false} SpcIs(mb: nat)
    ensures DefaultSpc(mb) in {4, 8, 16, 32, 64}
    ensures mb <= 32 * DefaultSpc(mb) || DefaultSpc(mb) == 64
    ensures mb > 16 * DefaultSpc(mb) || DefaultSpc(mb) == 4
  {
  }

  /** Enough clusters for FAT entries of 16 bits, and few enough exactly up to 2047 MB. */
  lemma {:induction false} Fat16Clusters(content: nat, g: Geo)
    requires VolMb(content) <= MAX_MB
    requires GeoOk(g) && SizedFor(g, content)
    ensures g.clusters >= 4087
    ensures g.clusters < 65525 <==> VolMb(content) <= 2047
  {
    hide VolMb, DefaultSpc, GeoOk, Tight, ClustersAt;
    var mb := VolMb(content);
    VolMbLeast(content, 8);
    SpcIs(mb);
    GeoFacts(g);
    if g.spc == 64 {
      LargeClusters(g, mb);
    } else {
      SmallClusters(g, mb);
    }
  }

  lemma {:induction false} GeoFacts(g: Geo)
    requires GeoOk(g) && Tight(g)
    ensures 1 <= g.spf <= 513 && 33 + 2 * g.spf <= g.parts && g.spc > 0
    ensures var data := g.parts - 33 - 2 * g.spf; g.clusters * g.spc <= data < g.clusters * g.spc + g.spc
    ensures 2 * g.clusters + 4 <= 512 * g.spf && (g.spf - 1) * 512 < ((g.parts - 35) / g.spc + 2) * 2
  {
    ClustersRange(g.parts, g.spc, g.spf);
    hide ClustersAt;
  }

  lemma {:induction false} ClustersRange(parts: nat, spc: nat, spf: nat)
    requires 1 + 2 * spf + 32 <= parts && spc > 0
    ensures var n := ClustersAt(parts, spc, spf); n * spc <= parts - 33 - 2 * spf < n * spc + spc
  {
    var data := parts - 33 - 2 * spf;
    assert data == data / spc * spc + data % spc;
  }

  lemma {:induction false} SmallClusters(g: Geo, mb: nat)
    requires g.spc in {4, 8, 16, 32} && 9 <= mb <= 32 * g.spc && (g.spc == 4 || mb > 16 * g.spc)
    requires g.parts == mb * 2048 && 1 <= g.spf <= 513 && 2 * g.clusters + 4 <= 512 * g.spf
    requires var data := g.parts - 33 - 2 * g.spf; g.clusters * g.spc <= data < g.clusters * g.spc + g.spc
    ensures 4087 <= g.clusters < 65525
  {
  }

  lemma {:induction false} LargeClusters(g: Geo, mb: nat)
    requires g.spc == 64 && 1024 < mb && g.parts == mb * 2048 && 1 <= g.spf <= 513
    requires (g.spf - 1) * 512 < ((g.parts - 35) / 64 + 2) * 2
    requires var data := g.parts - 33 - 2 * g.spf; g.clusters * 64 <= data < g.clusters * 64 + 64
    ensures 4087 <= g.clusters && (g.clusters < 65525 <==> mb <= 2047)
  {
  }

  /** Every cluster in use has a number that does not end a chain. */
  predicate Numbered(t: seq<Node>, c: nat)
    requires c > 0
  {
    2 + Demand(t, c, |t|) <= CHAIN_END
  }

  const SURE_MB: nat := 2519

  /** In a volume of up to 2519 MB that is so whatever the tree: the headroom keeps the numbers low. */
  lemma {:induction false} SurelyNumbered(t: seq<Node>, content: nat)
    requires Valid(t) && FileBytes(t, |t|) <= content && VolMb(content) <= SURE_MB
    ensures DefaultSpc(VolMb(content)) > 0 && Numbered(t, DefaultSpc(VolMb(content)) * SECTOR)
  {
    hide Demand, TotalNeed, FileBytes, Valid, VolMb, DefaultSpc;
    var c, n := DefaultSpc(VolMb(content)) * SECTOR, |t| - 1;
    TreeSize(t);
    ContentBound(content);
    DemandBound(t, c, |t|);
    NeedBound(t);
    MulOrder(n, 1023, c - 1);
    MulOrder(Demand(t, c, |t|), 65526, c);
  }

  lemma {:induction false} TreeSize(t: seq<Node>)
    requires Valid(t)
    ensures 1 <= |t| <= 1024
  {
  }

  lemma {:induction false} ContentBound(content: nat)
    requires VolMb(content) <= SURE_MB
    ensures var c := DefaultSpc(VolMb(content)) * SECTOR;
      c > 1 && content + 256 * 1023 + 1023 * (c - 1) <= 65526 * c
  {
    assert VolMb(content) * MB >= content + 512 * 1024 + Headroom(content);
  }
}
