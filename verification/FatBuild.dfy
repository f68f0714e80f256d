/** The builder of src/boot/fatbuild.c: clusters for every node, the directories, the files and both FATs, written
    in place into one zeroed image, and proved to give an image of the tree. */
module FatBuild {
  import opened Bits
  import opened FatNames
  import opened FatTree
  import opened FatSizing
  import opened FatVolume
  import opened FatWrite
  import FatHeader
  import Deflate
  import Puff

  // ---------------------------------------------------------------- one child

  /** wr_child: the entries of one child, whose short name is then taken. */
  method WrChild(img: array<byte>, e: nat, nd: Node, clus: nat, used: seq<seq<byte>>)
    returns (e': nat, used': seq<seq<byte>>)
    requires |nd.name| <= NAME_MAX && ZeroAt(img[..], e, 32 * NodeDirents(nd))
    modifies img
    ensures var short := if Fits83(nd.name) then Name11(nd.name) else FirstFree(nd.name, used, 1);
      used' == used + [short] && Put(old(img[..]), img[..], e, EntryBytes(nd, short, clus))
    ensures e' == e + 32 * NodeDirents(nd)
  {
    hide Fits83, Slots, FirstFree, Name11, SlotChain, Dirent;
    var attr := if nd.isDir then ATTR_DIRECTORY else ATTR_ARCHIVE;
    var sz := if nd.isDir then 0 else PayloadSize(nd.payload);
    ghost var a := img[..];
    var fits, name11 := Enc83(nd.name);
    if fits {
      e' := e;
      WrDirent(img, e', name11, attr, clus, sz);
      assert [] + Dirent(name11, attr, clus, sz) == Dirent(name11, attr, clus, sz);
    } else {
      name11 := MakeAlias(nd.name, used);
      e' := WrLfnSlots(img, e, nd.name, name11);
      ghost var b, slots := img[..], SlotChain(nd.name, name11, Slots(nd.name));
      ZeroAfter(a, b, e, slots, 32);
      WrDirent(img, e', name11, attr, clus, sz);
      PutPut(a, b, img[..], e, slots, Dirent(name11, attr, clus, sz));
    }
    used', e' := used + [name11], e' + 32;
  }

  // ---------------------------------------------------------------- directories

  /** First clusters as allocated. */
  ghost predicate Firsts(t: seq<Node>, c: nat, first: seq<nat>) {
    c > 0 && |first| == |t| && forall i | 1 <= i < |t| :: first[i] == First(t, c, i)
  }

  /** One more child of `d`, after the bytes `done` at `o`. */
  method WrTurn(img: array<byte>, e: nat, t: seq<Node>, first: seq<nat>, d: nat, i: nat, used: seq<seq<byte>>,
                ghost a: seq<byte>, ghost o: nat, ghost size: nat, ghost done: seq<byte>, ghost c: nat)
    returns (e': nat, used': seq<seq<byte>>)
    requires Firsts(t, c, first) && 1 <= i < |t| && |t[i].name| <= NAME_MAX && used == Used(t, d, i) && t[i].parent == d
    requires ZeroAt(a, o, size) && Put(a, img[..], o, done)
    requires |done| + 32 * NodeDirents(t[i]) <= size && e == o + |done|
    modifies img
    ensures Put(a, img[..], o, done + ChildBytes(t, c, d, i)) && used' == Used(t, d, i + 1)
    ensures e' == o + |done + ChildBytes(t, c, d, i)|
  {
    hide Put, ZeroAt, EntryBytes, NodeDirents, First, Used, Short, Name11, FirstFree, Fits83;
    ghost var b := img[..];
    ZeroNext(a, b, o, size, done, 32 * NodeDirents(t[i]));
    UsedGrows(t, d, i);
    e', used' := WrChild(img, e, t[i], first[i], used);
    PutPut(a, b, img[..], o, done, ChildBytes(t, c, d, i));
  }

  lemma {:induction false} UsedGrows(t: seq<Node>, d: int, i: nat)
    requires 1 <= i < |t| && t[i].parent == d
    ensures Used(t, d, i + 1) == Used(t, d, i) + [Short(t, d, i)]
    ensures Short(t, d, i) == if Fits83(t[i].name) then Name11(t[i].name) else FirstFree(t[i].name, Used(t, d, i), 1)
  {
    hide Name11, FirstFree, Fits83;
  }

  lemma {:induction false} ZeroNext(a: seq<byte>, b: seq<byte>, o: nat, size: nat, done: seq<byte>, n: nat)
    requires ZeroAt(a, o, size) && Put(a, b, o, done) && |done| + n <= size
    ensures ZeroAt(b, o + |done|, n)
  {
  }

  lemma {:induction false} EntriesGrow(t: seq<Node>, d: int, m: nat, n: nat)
    requires m <= n <= |t|
    ensures EntryCount(t, d, m) <= EntryCount(t, d, n)
    decreases n
  {
    hide NodeDirents;
    if m < n {
      EntriesGrow(t, d, m, n - 1);
    }
  }

  lemma {:induction false} EntryStep(t: seq<Node>, d: int, n: nat)
    requires 1 < n <= |t|
    ensures EntryCount(t, d, n) ==
      EntryCount(t, d, n - 1) + if t[n - 1].parent == d then NodeDirents(t[n - 1]) else 0
  {
    hide NodeDirents;
  }

  lemma {:induction false} UsedStep(t: seq<Node>, d: int, n: nat)
    requires 1 < n <= |t| && t[n - 1].parent != d
    ensures Used(t, d, n) == Used(t, d, n - 1)
  {
    hide Short;
  }

  lemma {:induction false} DirStart(t: seq<Node>, c: nat, d: int)
    requires |t| >= 1 && c > 0 && Named(t)
    ensures Children(t, c, d, 1) == [] && Used(t, d, 1) == [] && EntryCount(t, d, 1) == 0
  {
  }

  /** The children of `d` from `e` on, checked against `limit` entries if it is the root. */
  method WrChildren(img: array<byte>, e0: nat, t: seq<Node>, first: seq<nat>, d: nat, limit: Option<nat>,
                    ghost a: seq<byte>, ghost o: nat, ghost size: nat, ghost head: seq<byte>, ghost c: nat)
    returns (ok: bool)
    requires Valid(t) && Named(t) && d < |t| && Firsts(t, c, first)
    requires ZeroAt(a, o, size) && Put(a, img[..], o, head) && e0 == o + |head|
    requires limit.Some? ==> 1 <= limit.value && |head| + 32 * (limit.value - 1) <= size
    requires limit.None? ==> |head| + 32 * EntryCount(t, d, |t|) <= size
    modifies img
    ensures ok <==> limit.None? || 1 + EntryCount(t, d, |t|) <= limit.value
    ensures ok ==> Put(a, img[..], o, head + Children(t, c, d, |t|))
  {
    hide Valid, Put, ZeroAt, First, ChildBytes, NodeDirents, Short, Used, Children, EntryCount;
    DirStart(t, c, d);
    assert head + [] == head;
    var e, used, entries := e0, [], 1;
    ghost var done := head;
    for i := 1 to |t|
      invariant done == head + Children(t, c, d, i) && Put(a, img[..], o, done) && e == o + |done|
      invariant used == Used(t, d, i) && entries == 1 + EntryCount(t, d, i)
      invariant limit.Some? ==> entries <= limit.value
    {
      EntryStep(t, d, i + 1);
      ChildrenStep(t, c, d, i + 1);
      EntriesGrow(t, d, i + 1, |t|);
      if t[i].parent != d {
        UsedStep(t, d, i + 1);
        continue;
      }
      if limit.Some? && entries + NodeDirents(t[i]) > limit.value {
        return false;
      }
      entries := entries + NodeDirents(t[i]);
      e, used := WrTurn(img, e, t, first, d, i, used, a, o, size, done, c);
      assert head + (Children(t, c, d, i) + ChildBytes(t, c, d, i)) == done + ChildBytes(t, c, d, i);
      done := done + ChildBytes(t, c, d, i);
    }
    return true;
  }

  /** The root directory: the label and the root's children, if they fit its 512 entries. */
  method WrRoot(img: array<byte>, o: nat, t: seq<Node>, first: seq<nat>, ghost c: nat) returns (ok: bool)
    requires Valid(t) && Firsts(t, c, first) && ZeroAt(img[..], o, ROOT_BYTES)
    modifies img
    ensures ok <==> 1 + EntryCount(t, 0, |t|) <= 512
    ensures ok ==> Put(old(img[..]), img[..], o, DirBytes(t, c, 0))
  {
    ValidNamed(t);
    ghost var a := img[..];
    assert ZeroAt(a, o, 32);
    WrDirent(img, o, VolumeLabel(), ATTR_VOLUME_ID, 0, 0);
    hide Valid, Firsts, ZeroAt, Put, EntryCount, Dirent, Children;
    ok := WrChildren(img, o + 32, t, first, 0, Some(512), a, o, ROOT_BYTES, Head(t, c, 0), c);
  }

  /** A directory below the root: its two dot entries and its children. */
  method WrSubdir(img: array<byte>, o: nat, t: seq<Node>, first: seq<nat>, d: nat, ghost c: nat)
    requires Valid(t) && 1 <= d < |t| && Firsts(t, c, first)
    requires ZeroAt(img[..], o, 32 * (2 + EntryCount(t, d, |t|)))
    modifies img
    ensures Put(old(img[..]), img[..], o, DirBytes(t, c, d))
  {
    ValidNamed(t);
    ghost var size := 32 * (2 + EntryCount(t, d, |t|));
    ghost var a := img[..];
    var pclus := if t[d].parent == 0 then 0 else first[t[d].parent];
    assert Head(t, c, d) == Dots(first[d], pclus);
    ZeroPart(a, o, size, 0, 64);
    hide EntryCount, Children, Put, ZeroAt, First, Valid, Firsts, Head;
    WrDots(img, o, first[d], pclus);
    var ok := WrChildren(img, o + 64, t, first, d, None, a, o, size, Head(t, c, d), c);
  }

  function Dots(clus: nat, pclus: nat): seq<byte> {
    Dirent(DotName(), ATTR_DIRECTORY, clus, 0) + Dirent(DotDotName(), ATTR_DIRECTORY, pclus, 0)
  }

  method WrDots(img: array<byte>, o: nat, clus: nat, pclus: nat)
    requires ZeroAt(img[..], o, 64)
    modifies img
    ensures Put(old(img[..]), img[..], o, Dots(clus, pclus))
  {
    ghost var a := img[..];
    ZeroPart(a, o, 64, 0, 32);
    hide Put, ZeroAt, Dirent;
    WrDirent(img, o, DotName(), ATTR_DIRECTORY, clus, 0);
    ghost var b, dot := img[..], Dirent(DotName(), ATTR_DIRECTORY, clus, 0);
    ZeroNext(a, b, o, 64, dot, 32);
    WrDirent(img, o + 32, DotDotName(), ATTR_DIRECTORY, pclus, 0);
    PutPut(a, b, img[..], o, dot, Dirent(DotDotName(), ATTR_DIRECTORY, pclus, 0));
  }

  lemma {:induction false} ZeroPart(img: seq<byte>, o: nat, size: nat, k: nat, n: nat)
    requires ZeroAt(img, o, size) && k + n <= size
    ensures ZeroAt(img, o + k, n)
  {
  }

  // ---------------------------------------------------------------- cluster allocation

  lemma {:induction false} ListsAppend(a: seq<byte>, b: seq<byte>, o: nat, n: nat, links: seq<nat>, v: nat)
    requires Lists(a, o, n, links) && 2 * |links| + 2 <= n && v < 65536 && Put(a, b, o + 2 * |links|, Le16(v))
    ensures Lists(b, o, n, links + [v])
  {
    Le16Back(v);
    var more := links + [v];
    forall j | 0 <= j < |more|
      ensures Rd16(b, o + 2 * j) == more[j]
    {
      if j < |links| {
        assert Rd16(a, o + 2 * j) == links[j];
      }
    }
  }

  /** alloc_clusters: a run of clusters for `nbytes`, linked in the first FAT; fails exactly when the run would
      reach the last cluster. */
  method AllocClusters(img: array<byte>, g: Geo, next: nat, nbytes: nat, ghost links: seq<nat>)
    returns (ok: bool, first: nat, next': nat)
    requires GeoOk(g) && |links| == next >= 2 && Lists(img[..], Fat1(g), FatBytes(g), links)
    requires next + ClustersFor(nbytes, ClusterBytes(g)) <= CHAIN_END
    modifies img
    ensures var n := ClustersFor(nbytes, ClusterBytes(g));
      && (ok <==> n == 0 || next + n <= g.clusters + 1)
      && (ok ==> next' == next + n && first == if nbytes == 0 then 0 else next)
      && (ok ==> Lists(img[..], Fat1(g), FatBytes(g), links + Run(next, n)))
    ensures forall k | 0 <= k < img.Length && !(Fat1(g) <= k < Fat2(g)) :: img[k] == old(img[k])
  {
    var cbytes := g.spc * SECTOR;
    RunEnds(nbytes, cbytes, next, links);
    if nbytes == 0 {
      return true, 0, next;
    }
    var n := (nbytes + cbytes - 1) / cbytes;
    hide ClustersFor, Lists, ClustersAt;
    ghost var run := Run(next, n);
    assert links + run[..0] == links;
    for i := 0 to n
      invariant Lists(img[..], Fat1(g), FatBytes(g), links + run[..i])
      invariant i > 0 ==> next + i <= g.clusters + 1
      invariant forall k | 0 <= k < img.Length && !(Fat1(g) <= k < Fat2(g)) :: img[k] == old(img[k])
    {
      var cl := next + i;
      if cl + 1 >= g.clusters + 2 {
        return false, 0, next;
      }
      Link(img, g, cl, if i + 1 < n then cl + 1 else EOC, links + run[..i]);
      assert links + run[..i] + [run[i]] == links + run[..i + 1];
    }
    assert run[..n] == run;
    return true, next, next + n;
  }

  method Link(img: array<byte>, g: Geo, cl: nat, v: nat, ghost links: seq<nat>)
    requires GeoOk(g) && |links| == cl <= g.clusters + 1 && v < 65536 && Lists(img[..], Fat1(g), FatBytes(g), links)
    modifies img
    ensures Lists(img[..], Fat1(g), FatBytes(g), links + [v])
    ensures forall k | 0 <= k < img.Length && !(Fat1(g) <= k < Fat2(g)) :: img[k] == old(img[k])
  {
    ghost var a := img[..];
    assert Fat1(g) + FatBytes(g) <= img.Length && 2 * cl + 2 <= FatBytes(g);
    Wr16(img, Fat1(g) + cl * 2, v);
    ListsAppend(a, img[..], Fat1(g), FatBytes(g), links, v);
  }

  lemma {:induction false} RunEnds(nbytes: nat, c: nat, next: nat, links: seq<nat>)
    requires c > 0
    ensures ClustersFor(nbytes, c) == 0 <==> nbytes == 0
    ensures nbytes == 0 ==> links + Run(next, ClustersFor(nbytes, c)) == links
  {
    DivAbove(nbytes + c - 1, c);
  }

  lemma {:induction false} ListsStart(a: seq<byte>, b: seq<byte>, c: seq<byte>, o: nat, n: nat)
    requires ZeroAt(a, o, n) && 4 <= n && Put(a, b, o, Le16(0xFFF8)) && Put(b, c, o + 2, Le16(0xFFFF))
    ensures Lists(c, o, n, [0xFFF8, 0xFFFF])
  {
    assert Lists(a, o, n, []);
    ListsAppend(a, b, o, n, [], 0xFFF8);
    assert [] + [0xFFF8] == [0xFFF8];
    hide Lists, Put;
    ListsAppend(b, c, o, n, [0xFFF8], 0xFFFF);
    assert [0xFFF8] + [0xFFFF] == [0xFFF8, 0xFFFF];
  }

  /** Bytes the clusters of node `i` are to hold. */
  method NodeBytes(t: seq<Node>, i: nat) returns (nbytes: nat)
    requires 1 <= i < |t|
    ensures nbytes == Need(t, i)
  {
    if t[i].isDir {
      var entries := 2;
      for c := 1 to |t|
        invariant entries == 2 + EntryCount(t, i, c)
      {
        EntryStep(t, i, c + 1);
        if t[c].parent == i {
          entries := entries + NodeDirents(t[c]);
        }
      }
      nbytes := entries * 32;
    } else {
      nbytes := PayloadSize(t[i].payload);
    }
  }

  /** Clusters for every node, in order: all get theirs exactly when the last cluster can stay unused. */
  method Assign(img: array<byte>, g: Geo, t: seq<Node>) returns (ok: bool, first: seq<nat>)
    requires GeoOk(g) && |t| >= 1 && ZeroAt(img[..], Fat1(g), FatBytes(g)) && Numbered(t, ClusterBytes(g))
    modifies img
    ensures ok <==> 2 + Demand(t, ClusterBytes(g), |t|) <= g.clusters + 1
    ensures ok ==> FatOk(img[..], t, g) && Firsts(t, ClusterBytes(g), first)
    ensures forall k | 0 <= k < img.Length && !(Fat1(g) <= k < Fat2(g)) :: img[k] == old(img[k])
  {
    ghost var c, a := ClusterBytes(g), img[..];
    Wr16(img, Fat1(g), 0xFFF8);
    ghost var b := img[..];
    Wr16(img, Fat1(g) + 2, 0xFFFF);
    ListsStart(a, b, img[..], Fat1(g), FatBytes(g));
    hide Lists, ZeroAt, Need, ClustersAt, Put;
    first := [0];
    var next := 2;
    for i := 1 to |t|
      invariant |first| == i && next == 2 + Demand(t, c, i) <= g.clusters + 1
      invariant Lists(img[..], Fat1(g), FatBytes(g), Links(t, c, i))
      invariant forall k | 1 <= k < i :: first[k] == First(t, c, k)
      invariant forall k | 0 <= k < img.Length && !(Fat1(g) <= k < Fat2(g)) :: img[k] == old(img[k])
    {
      var nbytes := NodeBytes(t, i);
      var f;
      AssignStep(t, c, i);
      ok, f, next := AllocClusters(img, g, next, nbytes, Links(t, c, i));
      if !ok {
        return false, first;
      }
      first := first + [f];
    }
    return true, first;
  }

  lemma {:induction false} AssignStep(t: seq<Node>, c: nat, i: nat)
    requires 1 <= i < |t| && c > 0
    ensures var n := ClustersFor(Need(t, i), c);
      && Demand(t, c, i + 1) == Demand(t, c, i) + n <= Demand(t, c, |t|)
      && Links(t, c, i + 1) == Links(t, c, i) + Run(2 + Demand(t, c, i), n)
  {
    DemandGrows(t, c, i, |t|);
  }

  // ---------------------------------------------------------------- boot records

  /** Nothing outside `lo` to `hi` differs. */
  ghost predicate Within(a: seq<byte>, b: seq<byte>, lo: nat, hi: nat) {
    |a| == |b| && forall k | 0 <= k < |a| && !(lo <= k < hi) :: b[k] == a[k]
  }

  method WrMbr(img: array<byte>, g: Geo)
    requires ZeroAt(img[..], 0, 512)
    modifies img
    ensures forall k | 0 <= k < 512 :: img[k] == MbrByte(g, k)
    ensures Within(old(img[..]), img[..], 0, 512)
  {
    Wr32(img, 0x1B8, SIGNATURE);
    img[0x1BE] := 0x80;
    img[0x1BE + 4] := 0x06;
    Wr32(img, 0x1BE + 8, 2048);
    Wr32(img, 0x1BE + 12, g.parts);
    img[510], img[511] := 0x55, 0xAA;
    hide Le32;
  }

  method WrBootName(img: array<byte>, g: Geo)
    requires g.spc < 256 && ZeroAt(img[..], PART, 11)
    modifies img
    ensures forall k | PART <= k < PART + 11 :: img[k] == BootByte(g, k - PART)
    ensures Within(old(img[..]), img[..], PART, PART + 11)
  {
    img[PART], img[PART + 1], img[PART + 2] := 0xEB, 0x3C, 0x90;
    WrBytes(img, PART + 3, Oem());
  }

  method WrBootHead(img: array<byte>, g: Geo)
    requires g.spc < 256 && ZeroAt(img[..], PART + 11, 13)
    modifies img
    ensures forall k | PART + 11 <= k < PART + 24 :: img[k] == BootByte(g, k - PART)
    ensures Within(old(img[..]), img[..], PART + 11, PART + 24)
  {
    Wr16(img, PART + 11, SECTOR);
    img[PART + 13] := g.spc;
    Wr16(img, PART + 14, 1);
    img[PART + 16] := 2;
    Wr16(img, PART + 17, 512);
    Wr16(img, PART + 19, if g.parts <= 0xFFFF then g.parts else 0);
    img[PART + 21] := 0xF8;
    Wr16(img, PART + 22, g.spf);
    hide Le16;
  }

  method WrBootTail(img: array<byte>, g: Geo)
    requires g.spc < 256 && ZeroAt(img[..], PART + 24, 488)
    modifies img
    ensures forall k | PART + 24 <= k < PART + 512 :: img[k] == BootByte(g, k - PART)
    ensures Within(old(img[..]), img[..], PART + 24, PART + 512)
  {
    Wr16(img, PART + 24, 63);
    Wr16(img, PART + 26, 255);
    Wr32(img, PART + 28, 2048);
    Wr32(img, PART + 32, if g.parts <= 0xFFFF then 0 else g.parts);
    img[PART + 36] := 0x80;
    img[PART + 38] := 0x29;
    Wr32(img, PART + 39, SIGNATURE);
    WrBytes(img, PART + 43, VolumeLabel());
    WrBytes(img, PART + 54, FsType());
    img[PART + 510], img[PART + 511] := 0x55, 0xAA;
    hide Le16, Le32, VolumeLabel, FsType;
  }

  // ---------------------------------------------------------------- the nodes' clusters

  /** All nodes' clusters exist, and none has a number that ends a chain. */
  ghost predicate Allotted(t: seq<Node>, g: Geo) {
    GeoOk(g) && Valid(t) && 2 + Demand(t, ClusterBytes(g), |t|) <= g.clusters + 1 && Numbered(t, ClusterBytes(g))
  }

  lemma {:induction false} AllottedFacts(t: seq<Node>, g: Geo)
    requires Allotted(t, g)
    ensures Valid(t) && GeoOk(g) && ClusterBytes(g) > 0 && 2 + Demand(t, ClusterBytes(g), |t|) <= g.clusters + 1
    ensures Numbered(t, ClusterBytes(g))
  {
    hide Valid, ClustersAt, Demand;
  }

  /** Where the clusters of node `i` lie, and how many bytes they are. */
  ghost function Start(t: seq<Node>, g: Geo, i: nat): nat
    requires GeoOk(g) && 1 <= i < |t| && Need(t, i) > 0
  {
    ClusterAt(g, First(t, ClusterBytes(g), i))
  }

  ghost function Span(t: seq<Node>, g: Geo, i: nat): nat
    requires GeoOk(g) && 1 <= i < |t|
  {
    Count(t, ClusterBytes(g), i) * ClusterBytes(g)
  }

  lemma {:induction false} NodeInside(t: seq<Node>, g: Geo, i: nat)
    requires Allotted(t, g) && 1 <= i < |t| && Need(t, i) > 0
    ensures DataAt(g) <= Start(t, g, i) && Start(t, g, i) + Span(t, g, i) <= ImageBytes(g)
    ensures Start(t, g, i) + Span(t, g, i) == ClusterAt(g, 2 + Demand(t, ClusterBytes(g), i + 1))
    ensures Need(t, i) <= Span(t, g, i)
  {
    hide Allotted, Valid, Need, Demand, GeoOk, Count, ClusterAt, ClusterBytes, DataAt, ImageBytes;
    var c := ClusterBytes(g);
    AllottedFacts(t, g);
    AssignStep(t, c, i);
    CountPositive(t, c, i);
    NodeCount(t, c, i);
    ClusterInside(g, 2 + Demand(t, c, i), Count(t, c, i));
    ClusterAbove(g, 2 + Demand(t, c, i));
  }

  lemma {:induction false} ClusterAbove(g: Geo, k: nat)
    requires k >= 2
    ensures DataAt(g) <= ClusterAt(g, k)
    ensures ClusterAt(g, k) == DataAt(g) + (k - 2) * g.spc * SECTOR
  {
    assert (k - 2) * g.spc * SECTOR == (k - 2) * ClusterBytes(g);
  }

  lemma {:induction false} NodeCount(t: seq<Node>, c: nat, i: nat)
    requires 1 <= i < |t| && c > 0
    ensures Count(t, c, i) == ClustersFor(Need(t, i), c)
  {
  }

  /** The clusters of different nodes do not overlap. */
  lemma {:induction false} NodesApart(t: seq<Node>, g: Geo, i: nat, j: nat)
    requires Allotted(t, g) && 1 <= i < j < |t| && Need(t, i) > 0 && Need(t, j) > 0
    ensures Start(t, g, i) + Span(t, g, i) <= Start(t, g, j)
  {
    hide Valid, Need, Demand, ClustersAt, Count, Span;
    var c := ClusterBytes(g);
    NodeInside(t, g, i);
    AssignStep(t, c, i);
    NodeCount(t, c, i);
    DemandGrows(t, c, i, j);
    MulOrder(Demand(t, c, i + 1), Demand(t, c, j), c);
  }

  /** A write in the clusters of node `d` leaves those of node `i` as they were. */
  lemma {:induction false} RegionKept(a: seq<byte>, b: seq<byte>, t: seq<Node>, g: Geo, d: nat, i: nat, s: seq<byte>)
    requires Allotted(t, g) && 1 <= d < |t| && 1 <= i < |t| && i != d && Need(t, d) > 0
    requires Within(a, b, Start(t, g, d), Start(t, g, d) + Span(t, g, d)) && Region(a, t, g, i, s)
    ensures Region(b, t, g, i, s)
  {
    if Need(t, i) > 0 {
      if i < d {
        NodesApart(t, g, i, d);
      } else {
        NodesApart(t, g, d, i);
      }
      hide Allotted, Need, First, Count, ClusterAt;
      HoldsKept(a, b, Start(t, g, d), Start(t, g, d) + Span(t, g, d), Start(t, g, i), Span(t, g, i), s);
    }
  }

  lemma {:induction false} HoldsKept(a: seq<byte>, b: seq<byte>, lo: nat, hi: nat, o: nat, n: nat, s: seq<byte>)
    requires Within(a, b, lo, hi) && (o + n <= lo || hi <= o) && Holds(a, o, n, s)
    ensures Holds(b, o, n, s)
  {
  }

  /** Writing `s` where there were zeros. */
  lemma {:induction false} PutHolds(a: seq<byte>, b: seq<byte>, o: nat, n: nat, s: seq<byte>)
    requires Holds(a, o, n, []) && Put(a, b, o, s) && |s| <= n
    ensures Holds(b, o, n, s) && Within(a, b, o, o + n)
  {
  }

  lemma {:induction false} HoldsZero(a: seq<byte>, o: nat, n: nat, m: nat)
    requires Holds(a, o, n, []) && m <= n
    ensures ZeroAt(a, o, m)
  {
  }

  /** Write directory `d` into its clusters. */
  method DirNode(img: array<byte>, g: Geo, t: seq<Node>, first: seq<nat>, d: nat)
    requires Allotted(t, g) && Firsts(t, ClusterBytes(g), first) && 1 <= d < |t| && t[d].isDir
    requires Region(img[..], t, g, d, [])
    modifies img
    ensures NodeOk(img[..], t, g, d) && Need(t, d) > 0
    ensures Within(old(img[..]), img[..], Start(t, g, d), Start(t, g, d) + Span(t, g, d))
  {
    hide ZeroAt, Put, Holds, Valid, DirBytes, Count, EntryCount, Demand, Allotted, Span, ClusterAt, GeoOk, ClusterBytes,
         First, Firsts, DataAt, ImageBytes, Region, Need;
    ghost var c, a := ClusterBytes(g), img[..];
    AllottedFacts(t, g);
    DirNeeds(t, c, d);
    FirstIs(t, c, first, d);
    NodeInside(t, g, d);
    var e := DataOffset(g, first[d]);
    ghost var n := Span(t, g, d);
    RegionIs(a, t, g, d, []);
    HoldsZero(a, e, n, Need(t, d));
    WrSubdir(img, e, t, first, d, c);
    PutHolds(a, img[..], e, n, DirBytes(t, c, d));
    RegionIs(img[..], t, g, d, DirBytes(t, c, d));
  }

  /** Byte offset of a cluster. */
  method DataOffset(g: Geo, k: nat) returns (e: nat)
    requires k >= 2
    ensures e == ClusterAt(g, k)
  {
    ClusterAbove(g, k);
    e := DataAt(g) + (k - 2) * g.spc * SECTOR;
  }

  lemma {:induction false} DirNeeds(t: seq<Node>, c: nat, d: nat)
    requires Valid(t) && 1 <= d < |t| && t[d].isDir && c > 0
    ensures Need(t, d) > 0 && Need(t, d) == 32 * (2 + EntryCount(t, d, |t|)) == |DirBytes(t, c, d)|
    ensures Contents(t, c, d) == DirBytes(t, c, d)
  {
    hide Valid, EntryCount, DirBytes;
  }

  lemma {:induction false} FirstIs(t: seq<Node>, c: nat, first: seq<nat>, i: nat)
    requires Firsts(t, c, first) && 1 <= i < |t| && Need(t, i) > 0
    ensures |first| == |t| && first[i] == First(t, c, i) >= 2
  {
    hide Need, Demand;
  }

  lemma {:induction false} RegionIs(img: seq<byte>, t: seq<Node>, g: Geo, i: nat, s: seq<byte>)
    requires GeoOk(g) && 1 <= i < |t| && Need(t, i) > 0
    ensures Region(img, t, g, i, s) <==> Holds(img, Start(t, g, i), Span(t, g, i), s)
  {
    hide Holds, Need, First, Count, ClustersAt, ClusterAt;
  }

  /** Unpack a payload of `size` bytes to `e`. */
  method WrPayload(img: array<byte>, e: nat, p: Payload) returns (ok: bool)
    requires e + PayloadSize(p) <= img.Length && PayloadSize(p) > 0
    modifies img
    ensures ok <==> Unpacked(p).Some?
    ensures ok ==> Put(old(img[..]), img[..], e, Unpacked(p).value)
    ensures Within(old(img[..]), img[..], e, e + PayloadSize(p))
  {
    hide Deflate.Inflate;
    match p {
      case Stored(bytes) =>
        WrBytes(img, e, bytes);
        return true;
      case Deflated(src, size) =>
        var pr, dl, sl := Puff.Puff(img, e, size, src);
        ok := pr == 0 && dl == size;
        if ok {
          ghost var out := Unpacked(p).value;
          forall k | e <= k < e + size
            ensures img[k] == out[k - e]
          {
            assert img[e..e + size][k - e] == out[k - e];
          }
        }
    }
  }

  /** Write file `f` into its clusters. */
  method FileNode(img: array<byte>, g: Geo, t: seq<Node>, first: seq<nat>, f: nat) returns (ok: bool)
    requires Allotted(t, g) && Firsts(t, ClusterBytes(g), first) && 1 <= f < |t| && !t[f].isDir && first[f] != 0
    requires Region(img[..], t, g, f, [])
    modifies img
    ensures ok <==> Unpacked(t[f].payload).Some?
    ensures ok ==> NodeOk(img[..], t, g, f)
    ensures Need(t, f) > 0 && Within(old(img[..]), img[..], Start(t, g, f), Start(t, g, f) + Span(t, g, f))
  {
    FileNeeds(t, ClusterBytes(g), first, f);
    hide ZeroAt, Put, Holds, Valid, Count, Demand, Allotted, Span, ClusterAt, GeoOk, ClusterBytes, First, Firsts,
         DataAt, ImageBytes, Region, Need, Unpacked, Within;
    ghost var a := img[..];
    AllottedFacts(t, g);
    FirstIs(t, ClusterBytes(g), first, f);
    NodeInside(t, g, f);
    var e := DataOffset(g, first[f]);
    ghost var n := Span(t, g, f);
    RegionIs(a, t, g, f, []);
    HoldsRoom(a, e, n, []);
    ok := WrPayload(img, e, t[f].payload);
    WithinMore(a, img[..], e, e + PayloadSize(t[f].payload), e + n);
    if ok {
      UnpackedSize(t[f].payload);
      PutHolds(a, img[..], e, n, Unpacked(t[f].payload).value);
      RegionIs(img[..], t, g, f, Unpacked(t[f].payload).value);
    }
  }

  lemma {:induction false} HoldsRoom(a: seq<byte>, o: nat, n: nat, s: seq<byte>)
    requires Holds(a, o, n, s)
    ensures o + n <= |a|
  {
  }

  lemma {:induction false} WithinMore(a: seq<byte>, b: seq<byte>, lo: nat, mid: nat, hi: nat)
    requires Within(a, b, lo, mid) && mid <= hi
    ensures Within(a, b, lo, hi)
  {
  }

  lemma {:induction false} FileNeeds(t: seq<Node>, c: nat, first: seq<nat>, f: nat)
    requires Firsts(t, c, first) && 1 <= f < |t| && !t[f].isDir
    ensures first[f] != 0 <==> Need(t, f) > 0
    ensures Need(t, f) == PayloadSize(t[f].payload)
  {
  }

  // ---------------------------------------------------------------- all nodes

  /** Node `i` is written, or its clusters are still zero. */
  ghost predicate NodeState(img: seq<byte>, t: seq<Node>, g: Geo, i: nat, done: bool)
    requires Valid(t) && GeoOk(g) && 1 <= i < |t|
  {
    if done then NodeOk(img, t, g, i) else Region(img, t, g, i, [])
  }

  /** Is node `i` a directory before `nd` or a file before `nf`? */
  predicate Due(t: seq<Node>, i: nat, nd: nat, nf: nat)
    requires i < |t|
  {
    if t[i].isDir then i < nd else i < nf
  }

  /** Directories before `nd` and files before `nf` are written. */
  ghost predicate Written(img: seq<byte>, t: seq<Node>, g: Geo, nd: nat, nf: nat) {
    && Valid(t) && GeoOk(g)
    && forall i | 1 <= i < |t| :: NodeState(img, t, g, i, Due(t, i, nd, nf))
  }

  lemma {:induction false} StateKept(a: seq<byte>, b: seq<byte>, t: seq<Node>, g: Geo, d: nat, i: nat, done: bool)
    requires Allotted(t, g) && 1 <= d < |t| && 1 <= i < |t| && i != d && Need(t, d) > 0
    requires Within(a, b, Start(t, g, d), Start(t, g, d) + Span(t, g, d))
    requires Valid(t) && GeoOk(g) && NodeState(a, t, g, i, done)
    ensures NodeState(b, t, g, i, done)
  {
    hide Allotted, Valid, GeoOk, Within, Region, Need, Start, Span, Unpacked;
    AllottedFacts(t, g);
    RegionKept(a, b, t, g, d, i, if done then Contents(t, ClusterBytes(g), i) else []);
  }

  /** One node more. */
  lemma {:induction false} WrittenMore(a: seq<byte>, b: seq<byte>, t: seq<Node>, g: Geo, k: nat, nd: nat, nf: nat,
                                       nd': nat, nf': nat)
    requires Allotted(t, g) && 1 <= k < |t| && Need(t, k) > 0 && Written(a, t, g, nd, nf)
    requires Within(a, b, Start(t, g, k), Start(t, g, k) + Span(t, g, k)) && Valid(t) && GeoOk(g) && NodeOk(b, t, g, k)
    requires if t[k].isDir then nd == k && nd' == k + 1 && nf' == nf else nf == k && nf' == k + 1 && nd' == nd
    ensures Written(b, t, g, nd', nf')
  {
    hide Allotted, Valid, GeoOk, Within, Need, Start, Span, NodeOk, Region;
    forall i | 1 <= i < |t|
      ensures NodeState(b, t, g, i, Due(t, i, nd', nf'))
    {
      if i != k {
        StateKept(a, b, t, g, k, i, Due(t, i, nd, nf));
      }
    }
  }

  lemma {:induction false} WrittenSkip(img: seq<byte>, t: seq<Node>, g: Geo, k: nat, nd: nat, nf: nat, nd': nat,
                                       nf': nat)
    requires Written(img, t, g, nd, nf) && 1 <= k < |t|
    requires if t[k].isDir then nd' == nd && nf == k && nf' == k + 1 else nf' == nf && nd == k && nd' == k + 1
    ensures Written(img, t, g, nd', nf')
  {
    hide Valid, GeoOk, NodeState;
    forall i | 1 <= i < |t|
      ensures NodeState(img, t, g, i, Due(t, i, nd', nf'))
    {
      assert NodeState(img, t, g, i, Due(t, i, nd, nf));
    }
  }

  lemma {:induction false} EmptyUnpacks(p: Payload)
    requires PayloadSize(p) == 0
    ensures Unpacked(p).Some?
  {
    hide Deflate.Inflate;
  }

  lemma {:induction false} EmptyOk(img: seq<byte>, t: seq<Node>, g: Geo, k: nat)
    requires Valid(t) && GeoOk(g) && 1 <= k < |t| && !t[k].isDir && Need(t, k) == 0
    ensures NodeOk(img, t, g, k)
  {
    hide Valid, GeoOk, Unpacked, Holds;
    EmptyUnpacks(t[k].payload);
  }

  /** An empty file has no clusters to write. */
  lemma {:induction false} WrittenEmpty(img: seq<byte>, t: seq<Node>, g: Geo, k: nat, nd: nat)
    requires Written(img, t, g, nd, k) && 1 <= k < |t| && !t[k].isDir && Need(t, k) == 0
    ensures Written(img, t, g, nd, k + 1)
  {
    hide Valid, GeoOk, NodeOk, Region, Need, Unpacked;
    EmptyOk(img, t, g, k);
    var n := k + 1;
    forall i | 1 <= i < |t|
      ensures NodeState(img, t, g, i, Due(t, i, nd, n))
    {
      assert NodeState(img, t, g, i, Due(t, i, nd, k));
    }
  }

  lemma {:induction false} WithinBoth(a: seq<byte>, b: seq<byte>, c: seq<byte>, lo: nat, hi: nat, l: nat, h: nat)
    requires Within(a, b, lo, hi) && Within(b, c, l, h) && lo <= l && h <= hi
    ensures Within(a, c, lo, hi)
  {
  }

  lemma {:induction false} PendingIs(img: seq<byte>, t: seq<Node>, g: Geo, nd: nat, nf: nat, k: nat)
    requires Written(img, t, g, nd, nf) && 1 <= k < |t| && if t[k].isDir then nd <= k else nf <= k
    ensures GeoOk(g) && Valid(t) && Region(img, t, g, k, [])
  {
    hide Valid, GeoOk, Region, NodeOk;
    assert NodeState(img, t, g, k, Due(t, k, nd, nf));
  }

  /** All directories below the root. */
  method WrDirs(img: array<byte>, g: Geo, t: seq<Node>, first: seq<nat>)
    requires Allotted(t, g) && Firsts(t, ClusterBytes(g), first) && Written(img[..], t, g, 1, 1)
    modifies img
    ensures Written(img[..], t, g, |t|, 1) && Within(old(img[..]), img[..], DataAt(g), ImageBytes(g))
  {
    hide Allotted, Firsts, Written, Within, Region, Start, Span, NodeOk, DataAt, ImageBytes, Need;
    ghost var a := img[..];
    WithinSelf(a, DataAt(g), ImageBytes(g));
    AllottedFacts(t, g);
    TreeRoot(t);
    for d := 1 to |t|
      invariant Written(img[..], t, g, d, 1) && Within(a, img[..], DataAt(g), ImageBytes(g))
    {
      if !t[d].isDir {
        WrittenSkip(img[..], t, g, d, d, 1, d + 1, 1);
        continue;
      }
      ghost var b := img[..];
      PendingIs(b, t, g, d, 1, d);
      DirNode(img, g, t, first, d);
      WrittenMore(b, img[..], t, g, d, d, 1, d + 1, 1);
      NodeInside(t, g, d);
      WithinBoth(a, b, img[..], DataAt(g), ImageBytes(g), Start(t, g, d), Start(t, g, d) + Span(t, g, d));
    }
  }

  lemma {:induction false} WithinSelf(a: seq<byte>, lo: nat, hi: nat)
    ensures Within(a, a, lo, hi)
  {
  }

  lemma {:induction false} TreeRoot(t: seq<Node>)
    requires Valid(t)
    ensures |t| >= 1
  {
  }

  /** Every file's payload unpacks. */
  ghost predicate Unpacks(t: seq<Node>) {
    forall i | 1 <= i < |t| && !t[i].isDir :: Unpacked(t[i].payload).Some?
  }

  lemma {:induction false} WrittenUnpacks(img: seq<byte>, t: seq<Node>, g: Geo)
    requires Written(img, t, g, |t|, |t|)
    ensures Unpacks(t) && forall i | 1 <= i < |t| :: NodeOk(img, t, g, i)
  {
    hide Valid, GeoOk, Unpacked, Region;
    forall i | 1 <= i < |t|
      ensures NodeOk(img, t, g, i)
    {
      assert NodeState(img, t, g, i, Due(t, i, |t|, |t|));
    }
    forall i | 1 <= i < |t| && !t[i].isDir
      ensures Unpacked(t[i].payload).Some?
    {
      assert NodeOk(img, t, g, i);
    }
  }

  /** All files. */
  method WrFiles(img: array<byte>, g: Geo, t: seq<Node>, first: seq<nat>) returns (ok: bool)
    requires Allotted(t, g) && Firsts(t, ClusterBytes(g), first) && Written(img[..], t, g, |t|, 1)
    modifies img
    ensures ok <==> Unpacks(t)
    ensures ok ==> Written(img[..], t, g, |t|, |t|) && Within(old(img[..]), img[..], DataAt(g), ImageBytes(g))
  {
    hide Allotted, Written, Within, Region, Start, Span, NodeOk, DataAt, ImageBytes, Need, Unpacked, First;
    ghost var a := img[..];
    WithinSelf(a, DataAt(g), ImageBytes(g));
    AllottedFacts(t, g);
    TreeRoot(t);
    for f := 1 to |t|
      invariant Written(img[..], t, g, |t|, f) && Within(a, img[..], DataAt(g), ImageBytes(g))
    {
      if t[f].isDir {
        WrittenSkip(img[..], t, g, f, |t|, f, |t|, f + 1);
        continue;
      }
      FileNeeds(t, ClusterBytes(g), first, f);
      if first[f] == 0 {
        WrittenEmpty(img[..], t, g, f, |t|);
        continue;
      }
      ghost var b := img[..];
      PendingIs(b, t, g, |t|, f, f);
      ok := FileNode(img, g, t, first, f);
      if !ok {
        return;
      }
      WrittenMore(b, img[..], t, g, f, |t|, f, |t|, f + 1);
      NodeInside(t, g, f);
      WithinBoth(a, b, img[..], DataAt(g), ImageBytes(g), Start(t, g, f), Start(t, g, f) + Span(t, g, f));
    }
    WrittenUnpacks(img[..], t, g);
    return true;
  }

  // ---------------------------------------------------------------- the whole image

  /** Boot records, first FAT and root directory. */
  ghost predicate Front(img: seq<byte>, t: seq<Node>, g: Geo) {
    && Valid(t) && GeoOk(g) && HeaderOk(img, g) && FatOk(img, t, g)
    && Holds(img, RootAt(g), ROOT_BYTES, DirBytes(t, ClusterBytes(g), 0))
  }

  lemma {:induction false} ListsKept(a: seq<byte>, b: seq<byte>, lo: nat, hi: nat, o: nat, n: nat, links: seq<nat>)
    requires Within(a, b, lo, hi) && (o + n <= lo || hi <= o) && Lists(a, o, n, links)
    ensures Lists(b, o, n, links)
  {
    forall j | 0 <= j < |links|
      ensures Rd16(b, o + 2 * j) == links[j]
    {
      assert Rd16(a, o + 2 * j) == links[j];
    }
  }

  lemma {:induction false} HeaderKept(a: seq<byte>, b: seq<byte>, lo: nat, hi: nat, g: Geo)
    requires g.spc < 256 && Within(a, b, lo, hi) && PART + 512 <= lo && HeaderOk(a, g)
    ensures HeaderOk(b, g)
  {
    hide MbrByte, BootByte;
  }

  /** Writing the second FAT or the data region leaves the front as it is. */
  lemma {:induction false} FrontKept(a: seq<byte>, b: seq<byte>, lo: nat, hi: nat, t: seq<Node>, g: Geo)
    requires Front(a, t, g) && Within(a, b, lo, hi) && Fat2(g) <= lo && (hi <= RootAt(g) || DataAt(g) <= lo)
    ensures Front(b, t, g)
  {
    hide HeaderOk, Lists, Holds, Within, Valid, DirBytes, Links, Demand, ClustersAt;
    HeaderKept(a, b, lo, hi, g);
    ListsKept(a, b, lo, hi, Fat1(g), FatBytes(g), Links(t, ClusterBytes(g), |t|));
    HoldsKept(a, b, lo, hi, RootAt(g), ROOT_BYTES, DirBytes(t, ClusterBytes(g), 0));
  }

  /** The boot records. */
  method WrHeader(img: array<byte>, g: Geo)
    requires g.spc < 256 && ZeroAt(img[..], 0, PART + 512)
    modifies img
    ensures HeaderOk(img[..], g) && Within(old(img[..]), img[..], 0, PART + 512)
  {
    hide MbrByte, BootByte;
    WrMbr(img, g);
    WrBootName(img, g);
    WrBootHead(img, g);
    WrBootTail(img, g);
  }

  /** Copy the first FAT to the second. */
  method Mirror(img: array<byte>, g: Geo)
    requires img.Length == ImageBytes(g) && GeoOk(g)
    modifies img
    ensures Fat2(g) <= RootAt(g) <= img.Length && img[Fat2(g)..RootAt(g)] == img[Fat1(g)..Fat2(g)]
    ensures Within(old(img[..]), img[..], Fat2(g), RootAt(g))
  {
    var n, o, p := FatBytes(g), Fat1(g), Fat2(g);
    assert p + n <= img.Length;
    hide ClustersAt, ImageBytes;
    for j := 0 to n
      invariant forall k | 0 <= k < img.Length :: img[k] == if p <= k < p + j then old(img[k - n]) else old(img[k])
    {
      img[p + j] := img[o + j];
    }
  }

  method Zeroed(n: nat) returns (img: array<byte>)
    ensures fresh(img) && img.Length == n && ZeroAt(img[..], 0, n)
  {
    img := new byte[n];
    for i := 0 to n
      invariant forall k | 0 <= k < i :: img[k] == 0
    {
      img[i] := 0;
    }
  }

  /** The regions, one after the other. */
  lemma {:induction false} Places(g: Geo)
    requires GeoOk(g)
    ensures PART + 512 == Fat1(g) && Fat1(g) + FatBytes(g) == Fat2(g) && Fat2(g) + FatBytes(g) == RootAt(g)
    ensures RootAt(g) + ROOT_BYTES == DataAt(g) <= ImageBytes(g) && ClusterBytes(g) > 0 && g.spc < 256
  {
  }

  lemma {:induction false} WithinIs(a: seq<byte>, b: seq<byte>, lo: nat, hi: nat)
    requires |a| == |b| && forall k | 0 <= k < |a| && !(lo <= k < hi) :: b[k] == a[k]
    ensures Within(a, b, lo, hi)
  {
  }

  lemma {:induction false} ZeroKept(a: seq<byte>, b: seq<byte>, lo: nat, hi: nat, o: nat, n: nat)
    requires ZeroAt(a, 0, |a|) || ZeroAt(a, o, n)
    requires Within(a, b, lo, hi) && o + n <= |a| && (o + n <= lo || hi <= o)
    ensures ZeroAt(b, o, n)
  {
  }

  lemma {:induction false} FatKept(a: seq<byte>, b: seq<byte>, lo: nat, hi: nat, t: seq<Node>, g: Geo)
    requires FatOk(a, t, g) && Within(a, b, lo, hi) && (hi <= Fat1(g) || Fat2(g) <= lo)
    ensures FatOk(b, t, g)
  {
    hide Lists, Within, Links, Demand, ClustersAt;
    ListsKept(a, b, lo, hi, Fat1(g), FatBytes(g), Links(t, ClusterBytes(g), |t|));
  }

  /** The root directory completes the front. */
  lemma {:induction false} RootDone(a: seq<byte>, b: seq<byte>, t: seq<Node>, g: Geo)
    requires Valid(t) && GeoOk(g) && HeaderOk(a, g) && FatOk(a, t, g)
    requires RootAt(g) <= |a| && ZeroAt(a, RootAt(g), |a| - RootAt(g)) && DataAt(g) <= |a|
    requires Put(a, b, RootAt(g), DirBytes(t, ClusterBytes(g), 0)) && 1 + EntryCount(t, 0, |t|) <= 512
    ensures Front(b, t, g) && ZeroAt(b, DataAt(g), |b| - DataAt(g))
  {
    var s := DirBytes(t, ClusterBytes(g), 0);
    assert Holds(a, RootAt(g), ROOT_BYTES, []);
    hide Valid, HeaderOk, FatOk, DirBytes, EntryCount, ClustersAt;
    PutHolds(a, b, RootAt(g), ROOT_BYTES, s);
    hide Put, Holds;
    ZeroPart(a, RootAt(g), |a| - RootAt(g), ROOT_BYTES, |a| - DataAt(g));
    ZeroKept(a, b, RootAt(g), DataAt(g), DataAt(g), |a| - DataAt(g));
    hide Within, ZeroAt;
    HeaderKept(a, b, RootAt(g), DataAt(g), g);
    FatKept(a, b, RootAt(g), DataAt(g), t, g);
  }

  /** FAT, boot records and root directory of a zeroed image. */
  method WrFront(img: array<byte>, g: Geo, t: seq<Node>) returns (ok: bool, first: seq<nat>)
    requires Allotted(t, g) && img.Length == ImageBytes(g) && ZeroAt(img[..], 0, img.Length)
    modifies img
    ensures ok <==> 1 + EntryCount(t, 0, |t|) <= 512
    ensures ok ==> Front(img[..], t, g) && Firsts(t, ClusterBytes(g), first)
    ensures ok ==> ZeroAt(img[..], DataAt(g), img.Length - DataAt(g))
  {
    hide Allotted, GeoOk, Demand, FatOk, Valid, EntryCount, DirBytes, HeaderOk, First, Put, Firsts, Holds, ImageBytes,
         Fat1, Fat2, RootAt, DataAt, ZeroAt, Within;
    AllottedFacts(t, g);
    Places(g);
    TreeRoot(t);
    ghost var a := img[..];
    assert a == img[..img.Length];
    ZeroPart(a, 0, |a|, Fat1(g), FatBytes(g));
    ok, first := Assign(img, g, t);
    ghost var b := img[..];
    WithinIs(a, b, Fat1(g), Fat2(g));
    ZeroKept(a, b, Fat1(g), Fat2(g), 0, PART + 512);
    WrHeader(img, g);
    ghost var c := img[..];
    FatKept(b, c, 0, PART + 512, t, g);
    ZeroKept(a, b, Fat1(g), Fat2(g), RootAt(g), |a| - RootAt(g));
    ZeroKept(b, c, 0, PART + 512, RootAt(g), |a| - RootAt(g));
    ZeroPart(c, RootAt(g), |a| - RootAt(g), 0, ROOT_BYTES);
    ok := WrRoot(img, RootAt(g), t, first, ClusterBytes(g));
    if ok {
      RootDone(c, img[..], t, g);
    }
  }

  /** A zeroed data region is one in which nothing is written yet. */
  lemma {:induction false} NothingWritten(img: seq<byte>, t: seq<Node>, g: Geo)
    requires Allotted(t, g) && DataAt(g) <= |img| == ImageBytes(g) && ZeroAt(img, DataAt(g), |img| - DataAt(g))
    ensures Written(img, t, g, 1, 1)
  {
    hide Allotted, Valid, GeoOk, NodeState, Region, NodeOk;
    AllottedFacts(t, g);
    forall i | 1 <= i < |t|
      ensures NodeState(img, t, g, i, Due(t, i, 1, 1))
    {
      StateBlank(img, t, g, i);
    }
  }

  lemma {:induction false} StateBlank(img: seq<byte>, t: seq<Node>, g: Geo, i: nat)
    requires Allotted(t, g) && Valid(t) && GeoOk(g) && 1 <= i < |t|
    requires DataAt(g) <= |img| == ImageBytes(g) && ZeroAt(img, DataAt(g), |img| - DataAt(g))
    ensures NodeState(img, t, g, i, false)
  {
    hide Allotted, Valid, GeoOk, Need, Start, Span, DataAt, ImageBytes, Region, NodeOk;
    if Need(t, i) > 0 {
      NodeInside(t, g, i);
      RegionIs(img, t, g, i, []);
    } else {
      RegionNone(img, t, g, i, []);
    }
  }

  lemma {:induction false} RegionNone(img: seq<byte>, t: seq<Node>, g: Geo, i: nat, s: seq<byte>)
    requires GeoOk(g) && 1 <= i < |t| && Need(t, i) == 0
    ensures Region(img, t, g, i, s)
  {
    hide Need;
  }

  /** A change below the data region leaves every node as it is. */
  lemma {:induction false} WrittenKept(a: seq<byte>, b: seq<byte>, hi: nat, t: seq<Node>, g: Geo, lo: nat, n: nat)
    requires Allotted(t, g) && Written(a, t, g, n, n) && Within(a, b, lo, hi) && hi <= DataAt(g)
    ensures Written(b, t, g, n, n)
  {
    hide Allotted, Valid, GeoOk, DataAt, Within, NodeState;
    AllottedFacts(t, g);
    forall i | 1 <= i < |t|
      ensures NodeState(b, t, g, i, Due(t, i, n, n))
    {
      assert NodeState(a, t, g, i, Due(t, i, n, n));
      NodeKept(a, b, lo, hi, t, g, i, i < n);
    }
  }

  lemma {:induction false} NodeKept(a: seq<byte>, b: seq<byte>, lo: nat, hi: nat, t: seq<Node>, g: Geo, i: nat,
                                    done: bool)
    requires Allotted(t, g) && Valid(t) && GeoOk(g) && 1 <= i < |t| && NodeState(a, t, g, i, done)
    requires Within(a, b, lo, hi) && hi <= DataAt(g)
    ensures NodeState(b, t, g, i, done)
  {
    hide Allotted, Valid, GeoOk, DataAt, Within, Region, Need, Start, Span, Unpacked, Holds, ImageBytes;
    AllottedFacts(t, g);
    var s := if done then Contents(t, ClusterBytes(g), i) else [];
    if Need(t, i) > 0 {
      NodeInside(t, g, i);
      RegionIs(a, t, g, i, s);
      HoldsKept(a, b, lo, hi, Start(t, g, i), Span(t, g, i), s);
      RegionIs(b, t, g, i, s);
    } else {
      RegionNone(b, t, g, i, s);
    }
  }

  /** What makes a tree buildable: the root's entries fit and every payload unpacks. */
  ghost predicate Buildable(t: seq<Node>) { 1 + EntryCount(t, 0, |t|) <= 512 && Unpacks(t) }

  /** Write the whole image of a tree. */
  method Fill(img: array<byte>, g: Geo, t: seq<Node>) returns (ok: bool)
    requires Allotted(t, g) && img.Length == ImageBytes(g) && ZeroAt(img[..], 0, img.Length)
    modifies img
    ensures ok <==> Buildable(t)
    ensures ok ==> Built(img[..], t, g)
  {
    hide Allotted, ZeroAt, Front, Firsts, EntryCount, Written, Within, Unpacks, Valid, GeoOk, DataAt, ImageBytes,
         Fat1, Fat2, RootAt, Built;
    AllottedFacts(t, g);
    Places(g);
    var first;
    ok, first := WrFront(img, g, t);
    if !ok {
      return;
    }
    ghost var a := img[..];
    NothingWritten(a, t, g);
    WrDirs(img, g, t, first);
    ghost var b := img[..];
    FrontKept(a, b, DataAt(g), ImageBytes(g), t, g);
    ok := WrFiles(img, g, t, first);
    if !ok {
      return;
    }
    ghost var c := img[..];
    FrontKept(b, c, DataAt(g), ImageBytes(g), t, g);
    Mirror(img, g);
    FrontKept(c, img[..], Fat2(g), RootAt(g), t, g);
    WrittenKept(c, img[..], RootAt(g), t, g, Fat2(g), |t|);
    Finished(img[..], t, g);
  }

  lemma {:induction false} Finished(img: seq<byte>, t: seq<Node>, g: Geo)
    requires Front(img, t, g) && Written(img, t, g, |t|, |t|) && |img| == ImageBytes(g)
    requires Fat1(g) <= Fat2(g) <= RootAt(g) <= |img| && img[Fat2(g)..RootAt(g)] == img[Fat1(g)..Fat2(g)]
    ensures Built(img, t, g)
  {
    hide Written, HeaderOk, FatOk, Holds, Valid, ClustersAt, NodeOk, DirBytes;
    WrittenUnpacks(img, t, g);
  }

  /** The tree of all members, and their total size in 4 KB steps. */
  method AddMembers(ms: seq<Member>) returns (ok: bool, t: seq<Node>, content: nat)
    ensures match AddAll(ms, |ms|)
            case Some(all) => ok && t == all && content == Content(ms, |ms|)
            case None => !ok && t == [] && content == 0
  {
    var tree := new Tree();
    content := 0;
    AddStart(ms);
    hide AddPath, AddAll, Content;
    for i := 0 to |ms|
      invariant fresh(tree) && |tree.nodes| >= 1 && AddAll(ms, i) == Some(tree.nodes) && content == Content(ms, i)
    {
      AddStep(ms, i);
      ok := tree.Add(ms[i].path, ms[i].payload);
      if !ok {
        AddAllNone(ms, i + 1);
        return false, [], 0;
      }
      content := content + (PayloadSize(ms[i].payload) + 4095) / 4096 * 4096;
    }
    return true, tree.nodes, content;
  }

  lemma {:induction false} AddStart(ms: seq<Member>)
    ensures AddAll(ms, 0) == Some([ROOT]) && Content(ms, 0) == 0
  {
  }

  lemma {:induction false} AddStep(ms: seq<Member>, i: nat)
    requires i < |ms| && AddAll(ms, i).Some?
    ensures AddAll(ms, i + 1) == AddPath(AddAll(ms, i).value, ms[i].path, ms[i].payload)
    ensures Content(ms, i + 1) == Content(ms, i) + (PayloadSize(ms[i].payload) + 4095) / 4096 * 4096
  {
    hide AddPath;
  }

  lemma {:induction false} AddAllNone(ms: seq<Member>, n: nat)
    requires n <= |ms| && AddAll(ms, n).None?
    ensures AddAll(ms, |ms|).None?
    decreases |ms| - n
  {
    hide AddPath;
    if n < |ms| {
      AddAllNone(ms, n + 1);
    }
  }

  /** The size of the volume fits 32 bits, and its clusters in use can be numbered. */
  ghost predicate Sized(ms: seq<Member>) {
    && VolMb(Content(ms, |ms|)) <= MAX_MB
    && (AddAll(ms, |ms|).Some? ==> Numbered(AddAll(ms, |ms|).value, DefaultSpc(VolMb(Content(ms, |ms|))) * SECTOR))
  }

  /** Volumes of up to 2519 MB always are. */
  lemma {:induction false} SurelySized(ms: seq<Member>)
    requires VolMb(Content(ms, |ms|)) <= SURE_MB
    ensures Sized(ms)
  {
    if AddAll(ms, |ms|).Some? {
      AddAllOk(ms, |ms|);
      FileBytesContent(ms, |ms|);
      var t, content := AddAll(ms, |ms|).value, Content(ms, |ms|);
      hide AddAll, Content, FileBytes, VolMb, DefaultSpc, Valid, IsFileOf;
      SurelyNumbered(t, content);
    }
  }

  /** fatbuild_from_zip, on the members of the archive: an image of their tree, which is made exactly when the node
      table holds them all, the root's entries fit and every payload unpacks. The volume is never too small. */
  method Build(ms: seq<Member>) returns (img: array?<byte>, g: Geo)
    requires Sized(ms)
    ensures img != null <==> AddAll(ms, |ms|).Some? && Buildable(AddAll(ms, |ms|).value)
    ensures img != null ==> fresh(img) && Built(img[..], AddAll(ms, |ms|).value, g)
    ensures img != null ==> FatHeader.CountsFor16(img[..], g, VolMb(Content(ms, |ms|)))
  {
    var ok, t, content := AddMembers(ms);
    g := Geo(0, 0, 0, 0);
    if !ok {
      return null, g;
    }
    AddAllOk(ms, |ms|);
    FileBytesContent(ms, |ms|);
    hide AddAll, Content, FileBytes, VolMb, DefaultSpc, GeoOk, Valid, Built, ZeroAt, EntryCount, Unpacks, ImageBytes,
         IsFileOf;
    MbRange(content);
    g := Settle(VolMb(content));
    SizingSuffices(t, content, g);
    var image := Zeroed(ImageBytes(g));
    ok := Fill(image, g, t);
    img := if ok then image else null;
    if ok {
      BuiltHeader(image[..], t, g);
      FatHeader.Fat16Volume(image[..], content, g);
    }
  }

  lemma {:induction false} BuiltHeader(img: seq<byte>, t: seq<Node>, g: Geo)
    requires Built(img, t, g)
    ensures GeoOk(g) && HeaderOk(img, g) && |img| == ImageBytes(g)
  {
  }

  lemma {:induction false} MbRange(content: nat)
    ensures VolMb(content) >= 8
  {
  }
}
