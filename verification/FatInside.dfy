/** Where the reader reads: on a built image no lookup and no copy leaves the image, so what lies in memory behind it
    does not matter. */
module FatInside {
  import opened Bits
  import opened FatNames
  import opened FatTree
  import opened FatSizing
  import opened FatVolume
  import opened FatRead
  import opened FatSearch

  // ---------------------------------------------------------------- what is read

  /** All of cluster `c`, and its entry in the FAT. */
  predicate ClusterRead(img: seq<byte>, fs: Fs, c: nat)
    requires c >= 2
  {
    ClusterOff(fs, c) + fs.spc * 512 <= |img| && fs.fatLba * 512 + c * 2 + 2 <= |img|
  }

  /** Every cluster that a search along the chain comes to lies in the image. */
  predicate ChainInside(img: seq<byte>, fs: Fs, c: nat, n11: seq<byte>, fuel: nat)
    requires |n11| == 11
    decreases fuel
  {
    IsCluster(c) && fuel > 0 ==>
      && ClusterRead(img, fs, c)
      && (Scan(Slice(img, ClusterOff(fs, c), fs.spc * 512), n11).Skip? ==>
            ChainInside(img, fs, Next(img, fs, c), n11, fuel - 1))
  }

  predicate FindInside(img: seq<byte>, fs: Fs, dir: nat, n11: seq<byte>)
    requires |n11| == 11
  {
    if dir == 0 then fs.rootLba * 512 + 32 * fs.rootEntries <= |img|
    else ChainInside(img, fs, dir, n11, ALL_CLUSTERS)
  }

  predicate LookupInside(img: seq<byte>, fs: Fs, dir: nat, path: seq<byte>)
    requires path != [] && !IsSlash(path[0])
    decreases |path|
  {
    var n11, rest := Name11(path[..Taken(path)]), SkipSlashes(path[Taken(path)..]);
    var r := DirFind(img, fs, dir, n11);
    && FindInside(img, fs, dir, n11)
    && (rest != [] && r.Found? && r.isDir ==> LookupInside(img, fs, r.clus, rest))
  }

  /** Every cluster that copying comes to lies in the image. */
  predicate CopyInside(img: seq<byte>, fs: Fs, c: nat, lim: nat)
    requires fs.spc > 0
    decreases lim
  {
    lim > 0 && IsCluster(c) ==>
      && ClusterRead(img, fs, c)
      && CopyInside(img, fs, Next(img, fs, c), if lim > fs.spc * 512 then lim - fs.spc * 512 else 0)
  }

  /** All that reading up to `cap` bytes of the file at `path` reads. */
  predicate ReadInside(img: seq<byte>, fs: Fs, path: seq<byte>, cap: nat)
    requires fs.spc > 0
  {
    var p, r := SkipSlashes(path), LookupPath(img, fs, path);
    && (p != [] ==> LookupInside(img, fs, 0, p))
    && (r.Found? && !r.isDir ==> CopyInside(img, fs, r.clus, if r.size < cap then r.size else cap))
  }

  // ---------------------------------------------------------------- what lies behind the image

  lemma {:induction false} SliceTail(img: seq<byte>, tail: seq<byte>, o: nat, n: nat)
    requires o + n <= |img|
    ensures Slice(img + tail, o, n) == Slice(img, o, n)
  {
  }

  lemma {:induction false} ClusterTail(img: seq<byte>, tail: seq<byte>, fs: Fs, c: nat)
    requires c >= 2 && ClusterRead(img, fs, c)
    ensures Next(img + tail, fs, c) == Next(img, fs, c)
    ensures forall n | 0 <= n <= fs.spc * 512 ::
      Slice(img + tail, ClusterOff(fs, c), n) == Slice(img, ClusterOff(fs, c), n)
  {
    hide Slice, ClusterOff;
    forall n | 0 <= n <= fs.spc * 512
      ensures Slice(img + tail, ClusterOff(fs, c), n) == Slice(img, ClusterOff(fs, c), n)
    {
      SliceTail(img, tail, ClusterOff(fs, c), n);
    }
  }

  lemma {:induction false} ChainTail(img: seq<byte>, tail: seq<byte>, fs: Fs, c: nat, n11: seq<byte>, fuel: nat)
    requires |n11| == 11 && ChainInside(img, fs, c, n11, fuel)
    ensures ChainFind(img + tail, fs, c, n11, fuel) == ChainFind(img, fs, c, n11, fuel)
    decreases fuel
  {
    hide Scan, Slice, ClusterOff, Next, ClusterRead;
    if IsCluster(c) && fuel > 0 {
      ClusterTail(img, tail, fs, c);
      if Scan(Slice(img, ClusterOff(fs, c), fs.spc * 512), n11).Skip? {
        ChainTail(img, tail, fs, Next(img, fs, c), n11, fuel - 1);
      }
    }
  }

  lemma {:induction false} FindTail(img: seq<byte>, tail: seq<byte>, fs: Fs, dir: nat, n11: seq<byte>)
    requires |n11| == 11 && FindInside(img, fs, dir, n11)
    ensures DirFind(img + tail, fs, dir, n11) == DirFind(img, fs, dir, n11)
  {
    hide Scan, Slice, ChainFind, ChainInside;
    if dir == 0 {
      SliceTail(img, tail, fs.rootLba * 512, 32 * fs.rootEntries);
    } else {
      ChainTail(img, tail, fs, dir, n11, ALL_CLUSTERS);
    }
  }

  lemma {:induction false} LookupTail(img: seq<byte>, tail: seq<byte>, fs: Fs, dir: nat, path: seq<byte>)
    requires path != [] && !IsSlash(path[0]) && LookupInside(img, fs, dir, path)
    ensures LookupFrom(img + tail, fs, dir, path) == LookupFrom(img, fs, dir, path)
    decreases |path|
  {
    hide DirFind, FindInside, Name11, Taken, SkipSlashes;
    var n11, rest := Name11(path[..Taken(path)]), SkipSlashes(path[Taken(path)..]);
    FindTail(img, tail, fs, dir, n11);
    var r := DirFind(img, fs, dir, n11);
    if rest != [] && r.Found? && r.isDir {
      LookupTail(img, tail, fs, r.clus, rest);
    }
  }

  lemma {:induction false} CopyTail(img: seq<byte>, tail: seq<byte>, fs: Fs, c: nat, lim: nat)
    requires fs.spc > 0 && CopyInside(img, fs, c, lim)
    ensures ChainBytes(img + tail, fs, c, lim) == ChainBytes(img, fs, c, lim)
    decreases lim
  {
    hide Slice, ClusterOff, Next, ClusterRead;
    if lim > 0 && IsCluster(c) {
      ClusterTail(img, tail, fs, c);
      CopyTail(img, tail, fs, Next(img, fs, c), if lim > fs.spc * 512 then lim - fs.spc * 512 else 0);
    }
  }

  /** Reading that stays inside the image gives the same whatever lies behind it. */
  lemma {:induction false} ReadTail(img: seq<byte>, tail: seq<byte>, fs: Fs, path: seq<byte>, cap: nat)
    requires fs.spc > 0 && ReadInside(img, fs, path, cap)
    ensures LookupPath(img + tail, fs, path) == LookupPath(img, fs, path)
    ensures var r := LookupPath(img, fs, path);
      r.Found? && !r.isDir ==>
        var lim := if r.size < cap then r.size else cap;
        ChainBytes(img + tail, fs, r.clus, lim) == ChainBytes(img, fs, r.clus, lim)
  {
    hide LookupFrom, LookupInside, CopyInside, ChainBytes, SkipSlashes;
    var p, r := SkipSlashes(path), LookupPath(img, fs, path);
    if p != [] {
      LookupTail(img, tail, fs, 0, p);
    }
    if r.Found? && !r.isDir {
      CopyTail(img, tail, fs, r.clus, if r.size < cap then r.size else cap);
    }
  }

  // ---------------------------------------------------------------- on a built image

  /** Every cluster of a node lies in the image, and so does its FAT entry. */
  lemma {:induction false} NodeRead(img: seq<byte>, t: seq<Node>, g: Geo, i: nat, k: nat)
    requires FatOk(img, t, g) && |img| == ImageBytes(g) && 1 <= i < |t| && k < Count(t, ClusterBytes(g), i)
    ensures var first := First(t, ClusterBytes(g), i);
      && first >= 2 && IsCluster(first + k) && ClusterRead(img, FsOf(g), first + k)
      && (k + 1 < Count(t, ClusterBytes(g), i) ==> Next(img, FsOf(g), first + k) == first + k + 1)
      && (k + 1 == Count(t, ClusterBytes(g), i) ==> !IsCluster(Next(img, FsOf(g), first + k)))
  {
    var c := ClusterBytes(g);
    ChainLink(img, t, g, i, k);
    hide Count, Next, First, ClusterOff;
    var first := First(t, c, i);
    GeoInside(g, first + k);
    ClusterPlace(g, first + k);
  }

  lemma {:induction false} GeoInside(g: Geo, k: nat)
    requires GeoOk(g) && 2 <= k <= g.clusters + 1
    ensures ClusterAt(g, k) + g.spc * 512 <= ImageBytes(g)
    ensures FsOf(g).fatLba * 512 + k * 2 + 2 <= ImageBytes(g)
  {
    ClusterInside(g, k, 1);
    hide ClustersAt;
  }

  lemma {:induction false} NodeChainInside(img: seq<byte>, t: seq<Node>, g: Geo, i: nat, k: nat, n11: seq<byte>,
                                           fuel: nat)
    requires FatOk(img, t, g) && |img| == ImageBytes(g) && 1 <= i < |t| && k < Count(t, ClusterBytes(g), i)
    requires |n11| == 11
    ensures ChainInside(img, FsOf(g), First(t, ClusterBytes(g), i) + k, n11, fuel)
    decreases fuel
  {
    assert ClusterBytes(g) > 0;
    hide FatOk, Count, First, Scan, Slice, Next, ClusterOff, ClusterRead, ImageBytes;
    NodeRead(img, t, g, i, k);
    if fuel > 0 && k + 1 < Count(t, ClusterBytes(g), i) {
      NodeChainInside(img, t, g, i, k + 1, n11, fuel - 1);
    }
  }

  lemma {:induction false} NodeCopyInside(img: seq<byte>, t: seq<Node>, g: Geo, i: nat, k: nat, lim: nat)
    requires FatOk(img, t, g) && |img| == ImageBytes(g) && 1 <= i < |t| && k < Count(t, ClusterBytes(g), i)
    ensures FsOf(g).spc > 0 && CopyInside(img, FsOf(g), First(t, ClusterBytes(g), i) + k, lim)
    decreases lim
  {
    assert FsOf(g).spc > 0;
    hide FatOk, Count, First, Slice, Next, ClusterOff, ClusterRead, ImageBytes;
    NodeRead(img, t, g, i, k);
    if lim > 0 && k + 1 < Count(t, ClusterBytes(g), i) {
      NodeCopyInside(img, t, g, i, k + 1, if lim > g.spc * 512 then lim - g.spc * 512 else 0);
    }
  }

  lemma {:induction false} BuiltSize(img: seq<byte>, t: seq<Node>, g: Geo)
    requires Built(img, t, g)
    ensures FatOk(img, t, g) && |img| == ImageBytes(g) && ClusterBytes(g) > 0 && FsOf(g).spc > 0
    ensures FsOf(g).rootLba * 512 + 32 * FsOf(g).rootEntries <= |img|
  {
    hide FatOk, HeaderOk, Holds, NodeOk, DirBytes, ClustersAt;
  }

  lemma {:induction false} BuiltFindInside(img: seq<byte>, t: seq<Node>, g: Geo, d: nat, n11: seq<byte>)
    requires Built(img, t, g) && d < |t| && t[d].isDir && |n11| == 11
    ensures ClusterBytes(g) > 0 && FindInside(img, FsOf(g), DirClus(t, ClusterBytes(g), d), n11)
  {
    hide Built, ChainInside;
    BuiltSize(img, t, g);
    if d > 0 {
      DirCount(img, t, g, d);
      CountPositive(t, ClusterBytes(g), d);
      hide FatOk, Count;
      NodeChainInside(img, t, g, d, 0, n11, ALL_CLUSTERS);
    }
  }

  lemma {:induction false} BuiltLookupInside(img: seq<byte>, t: seq<Node>, g: Geo, d: nat, path: seq<byte>)
    requires Built(img, t, g) && Strings(t) && d < |t| && t[d].isDir && path != [] && !IsSlash(path[0])
    ensures ClusterBytes(g) > 0 && LookupInside(img, FsOf(g), DirClus(t, ClusterBytes(g), d), path)
    decreases |path|
  {
    hide Built, Strings, DirFind, FindInside, Answer, Name11, SkipSlashes, Taken, DirClus;
    var n11, rest := Name11(path[..Taken(path)]), SkipSlashes(path[Taken(path)..]);
    var c := ClusterBytes(g);
    DirFindIs(img, t, g, d, n11);
    BuiltFindInside(img, t, g, d, n11);
    var r := Answer(t, c, d, n11);
    if rest != [] && r.Hit? && r.isDir {
      BuiltValid(img, t, g);
      hide Valid;
      var e := AnswerDir(t, c, d, n11);
      BuiltLookupInside(img, t, g, e, rest);
    }
  }

  /** An answer that is a file is one of the tree's. */
  lemma {:induction false} AnswerFile(t: seq<Node>, c: nat, d: nat, n11: seq<byte>) returns (e: nat)
    requires d < |t| && c > 0 && |n11| == 11 && (d > 0 ==> 0 <= t[d].parent < |t|)
    requires Answer(t, c, d, n11).Hit? && !Answer(t, c, d, n11).isDir
    ensures 1 <= e < |t| && !t[e].isDir && Answer(t, c, d, n11).clus == First(t, c, e)
  {
    hide First, FirstChild;
    e := FirstChild(t, d, n11, |t|).value;
  }

  lemma {:induction false} BuiltFoundFile(img: seq<byte>, t: seq<Node>, g: Geo, d: nat, path: seq<byte>)
    returns (e: nat)
    requires Built(img, t, g) && Strings(t) && d < |t| && t[d].isDir && path != [] && !IsSlash(path[0])
    requires ClusterBytes(g) > 0
    requires var r := LookupFrom(img, FsOf(g), DirClus(t, ClusterBytes(g), d), path); r.Found? && !r.isDir
    ensures 1 <= e < |t| && !t[e].isDir
    ensures LookupFrom(img, FsOf(g), DirClus(t, ClusterBytes(g), d), path).clus == First(t, ClusterBytes(g), e)
    decreases |path|
  {
    hide Built, Strings, DirFind, Answer, Name11, SkipSlashes, Taken, DirClus, First;
    var n11, rest := Name11(path[..Taken(path)]), SkipSlashes(path[Taken(path)..]);
    var c := ClusterBytes(g);
    DirFindIs(img, t, g, d, n11);
    BuiltValid(img, t, g);
    hide Valid;
    if rest == [] {
      e := AnswerFile(t, c, d, n11);
    } else {
      var x := AnswerDir(t, c, d, n11);
      e := BuiltFoundFile(img, t, g, x, rest);
    }
  }

  lemma {:induction false} FileInside(img: seq<byte>, t: seq<Node>, g: Geo, e: nat, lim: nat)
    requires FatOk(img, t, g) && |img| == ImageBytes(g) && 1 <= e < |t|
    ensures FsOf(g).spc > 0 && CopyInside(img, FsOf(g), First(t, ClusterBytes(g), e), lim)
  {
    if Need(t, e) > 0 {
      CountPositive(t, ClusterBytes(g), e);
      hide FatOk, Count, Need;
      NodeCopyInside(img, t, g, e, 0, lim);
    }
  }

  /** On a built image reading by any path, up to any number of bytes, stays inside the image. */
  lemma {:induction false} BuiltInside(img: seq<byte>, t: seq<Node>, g: Geo, path: seq<byte>, cap: nat)
    requires Built(img, t, g) && Strings(t)
    ensures FsOf(g).spc > 0 && ReadInside(img, FsOf(g), path, cap)
  {
    hide Built, Strings, LookupFrom, LookupInside, CopyInside, SkipSlashes, Valid, First, FatOk, ImageBytes;
    BuiltSize(img, t, g);
    BuiltValid(img, t, g);
    var p := SkipSlashes(path);
    if p != [] {
      BuiltLookupInside(img, t, g, 0, p);
      var r := LookupFrom(img, FsOf(g), 0, p);
      if r.Found? && !r.isDir {
        var e := BuiltFoundFile(img, t, g, 0, p);
        FileInside(img, t, g, e, if r.size < cap then r.size else cap);
      }
    }
  }

  /** Mounting a built image reads two sectors of it. */
  lemma {:induction false} MountTail(img: seq<byte>, t: seq<Node>, g: Geo, tail: seq<byte>)
    requires Built(img, t, g)
    ensures PART + 512 <= |img| && MountOf(img + tail) == MountOf(img)
  {
    BuiltSize(img, t, g);
    BuiltHeader(img, t, g);
    var a := img + tail;
    hide Built, FatOk;
    HeaderTail(img, tail, g);
    MountBuilt(img, g);
    MountBuilt(a, g);
  }

  lemma {:induction false} BuiltHeader(img: seq<byte>, t: seq<Node>, g: Geo)
    requires Built(img, t, g)
    ensures GeoOk(g) && HeaderOk(img, g) && PART + 512 <= |img|
  {
    hide FatOk, Holds, NodeOk, DirBytes;
  }

  lemma {:induction false} HeaderTail(img: seq<byte>, tail: seq<byte>, g: Geo)
    requires GeoOk(g) && HeaderOk(img, g)
    ensures HeaderOk(img + tail, g)
  {
    hide MbrByte, BootByte;
  }
}
