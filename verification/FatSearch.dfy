/** Searching a directory of an image the builder made (src/boot/fatbuild.c) with the reader (src/boot/fatread.c):
    mounting gives the builder's geometry, a chain reads as what it holds, and a search for any name gives a dot
    entry, the first child with that short name, or nothing. */
module FatSearch {
  import opened Bits
  import opened FatNames
  import opened FatTree
  import opened FatSizing
  import opened FatVolume
  import opened FatRead

  // ---------------------------------------------------------------- geometry

  function FsOf(g: Geo): Fs {
    Fs(g.spc, 2049, 2049 + 2 * g.spf, 512, 2049 + 2 * g.spf + 32)
  }

  lemma {:induction false} BootFields(img: seq<byte>, g: Geo)
    requires GeoOk(g) && HeaderOk(img, g)
    ensures At16(img, PART + 510) == 0xAA55 && At16(img, PART + 11) == 512
    ensures At(img, PART + 13) == g.spc && At16(img, PART + 14) == 1 && At(img, PART + 16) == 2
    ensures At16(img, PART + 17) == 512 && At16(img, PART + 22) == g.spf
  {
    Le16Back(g.spf);
    assert forall j | 0 <= j < 512 :: At(img, PART + j) == BootByte(g, j) by {
      forall j | 0 <= j < 512
        ensures At(img, PART + j) == BootByte(g, j)
      {
        assert img[PART + j] == BootByte(g, PART + j - PART);
      }
    }
    hide HeaderOk, At, GeoOk;
  }

  lemma {:induction false} MbrFields(img: seq<byte>, g: Geo)
    requires GeoOk(g) && HeaderOk(img, g)
    ensures At16(img, 510) == 0xAA55 && At32(img, 446 + 8) == 2048
  {
    assert forall j | 0 <= j < 512 :: At(img, j) == MbrByte(g, j);
    hide HeaderOk, At, GeoOk;
  }

  /** Mounting recovers the builder's geometry. */
  lemma {:induction false} MountBuilt(img: seq<byte>, g: Geo)
    requires GeoOk(g) && HeaderOk(img, g)
    ensures MountOf(img) == Ok(FsOf(g))
  {
    BootFields(img, g);
    MbrFields(img, g);
    assert |img| >= 1024;
    hide HeaderOk, At, At16, At32;
  }

  lemma {:induction false} ClusterPlace(g: Geo, k: nat)
    requires GeoOk(g) && 2 <= k <= g.clusters + 1
    ensures ClusterOff(FsOf(g), k) == ClusterAt(g, k)
  {
    var n, all := (k - 2) * g.spc, g.clusters * g.spc;
    MulOrder(k - 2, g.clusters, g.spc);
    assert all <= g.parts - 1 - 2 * g.spf - 32;
    assert (k - 2) * ClusterBytes(g) == n * SECTOR;
    hide ClustersAt, ClusterBytes;
  }

  lemma {:induction false} NextIs(img: seq<byte>, g: Geo, links: seq<nat>, k: nat)
    requires Lists(img, Fat1(g), FatBytes(g), links) && k < |links|
    ensures Next(img, FsOf(g), k) == links[k]
  {
    assert Rd16(img, Fat1(g) + 2 * k) == links[k];
  }

  // ---------------------------------------------------------------- chains

  /** Cluster `k` of a node: where it lies, what its FAT entry says. */
  lemma {:induction false} ChainLink(img: seq<byte>, t: seq<Node>, g: Geo, i: nat, k: nat)
    requires FatOk(img, t, g) && 1 <= i < |t| && k < Count(t, ClusterBytes(g), i)
    ensures var c, n := ClusterBytes(g), Count(t, ClusterBytes(g), i);
      var first := First(t, c, i);
      && first >= 2 && IsCluster(first + k) && first + k <= g.clusters + 1
      && ClusterOff(FsOf(g), first + k) == ClusterAt(g, first) + k * c
      && Next(img, FsOf(g), first + k) == if k + 1 < n then first + k + 1 else EOC
  {
    var c := ClusterBytes(g);
    CountPositive(t, c, i);
    var first := 2 + Demand(t, c, i);
    DemandGrows(t, c, i, |t|);
    LinksOf(t, c, i, |t|, k);
    hide Demand, Count, Need, Links, Lists;
    NextIs(img, g, Links(t, c, |t|), first + k);
    hide Next, ClusterBytes, ClustersAt;
    ClusterPlace(g, first + k);
    hide ClusterOff;
    assert (first + k - 2) * c == (first - 2) * c + k * c;
  }

  /** `n` clusters that follow one another, in numbers and on the disk, and end the chain. */
  ghost predicate Chain(img: seq<byte>, fs: Fs, first: nat, n: nat, at: nat, c: nat) {
    && first >= 2 && fs.spc * 512 == c > 0
    && forall k | first <= k < first + n ::
         IsCluster(k) && ClusterOff(fs, k) == at + (k - first) * c
         && Next(img, fs, k) == if k + 1 < first + n then k + 1 else EOC
  }

  lemma {:induction false} NodeChain(img: seq<byte>, t: seq<Node>, g: Geo, i: nat)
    requires FatOk(img, t, g) && 1 <= i < |t| && Need(t, i) > 0
    ensures var c := ClusterBytes(g); var first := First(t, c, i);
      Chain(img, FsOf(g), first, Count(t, c, i), ClusterAt(g, first), c)
  {
    var c := ClusterBytes(g);
    var first, n := First(t, c, i), Count(t, c, i);
    CountPositive(t, c, i);
    hide FatOk, Count, Need, Demand, ClusterOff, Next, ClusterAt;
    forall k | first <= k < first + n
      ensures IsCluster(k) && ClusterOff(FsOf(g), k) == ClusterAt(g, first) + (k - first) * c
      ensures Next(img, FsOf(g), k) == if k + 1 < first + n then k + 1 else EOC
    {
      ChainLink(img, t, g, i, k - first);
    }
  }

  lemma {:induction false} HeldSlice(img: seq<byte>, at: nat, n: nat, s: seq<byte>, o: nat, w: nat)
    requires Holds(img, at, n, s) && o + w <= |s|
    ensures Slice(img, at + o, w) == s[o..o + w]
  {
    var a, b := Slice(img, at + o, w), s[o..o + w];
    forall j | 0 <= j < w
      ensures a[j] == b[j]
    {
      assert img[at + o + j] == s[at + o + j - at];
    }
  }

  /** What the chain says at its cluster `k`. */
  lemma {:induction false} ChainAt(img: seq<byte>, fs: Fs, first: nat, n: nat, at: nat, c: nat, k: nat)
    requires Chain(img, fs, first, n, at, c) && k < n
    ensures IsCluster(first + k) && fs.spc * 512 == c > 0 && ClusterOff(fs, first + k) == at + k * c
    ensures Next(img, fs, first + k) == if k + 1 < n then first + k + 1 else EOC
    ensures k * c + c == (k + 1) * c <= n * c
  {
    MulOrder(k + 1, n, c);
    assert (k + 1) * c == k * c + c;
    assert IsCluster(first + k);
  }

  lemma {:induction false} CopyTurn(img: seq<byte>, fs: Fs, cl: nat, at: nat, total: nat, c: nat, s: seq<byte>, o: nat)
    requires IsCluster(cl) && fs.spc * 512 == c > 0 && ClusterOff(fs, cl) == at + o
    requires Holds(img, at, total, s) && o < |s|
    ensures |s| - o > c ==>
      ChainBytes(img, fs, cl, |s| - o) == s[o..o + c] + ChainBytes(img, fs, Next(img, fs, cl), |s| - o - c)
    ensures |s| - o <= c ==> ChainBytes(img, fs, cl, |s| - o) == s[o..]
  {
    var w := if |s| - o > c then c else |s| - o;
    HeldSlice(img, at, total, s, o, w);
    hide Holds, ClusterOff, Next, Slice;
  }

  /** Copying a chain from its cluster `k` on gives the rest of what it holds. */
  lemma {:induction false} ChainCopies(img: seq<byte>, fs: Fs, first: nat, n: nat, at: nat, c: nat, s: seq<byte>,
                                       k: nat)
    requires Chain(img, fs, first, n, at, c) && Holds(img, at, n * c, s) && k < n && k * c < |s|
    ensures ChainBytes(img, fs, first + k, |s| - k * c) == s[k * c..]
    decreases n - k
  {
    hide Chain, ChainBytes, Next, ClusterOff;
    ChainAt(img, fs, first, n, at, c, k);
    var o, total := k * c, n * c;
    assert |s| <= total;
    CopyTurn(img, fs, first + k, at, total, c, s, o);
    hide Holds;
    if |s| - o > c {
      assert k + 1 < n by {
        MulOrder(k + 1, n, c);
      }
      ChainCopies(img, fs, first, n, at, c, s, k + 1);
      assert s[o..] == s[o..o + c] + s[o + c..];
    }
  }

  // ---------------------------------------------------------------- searching a chain

  function Zeros(n: nat): (r: seq<byte>)
    ensures |r| == n && forall i | 0 <= i < n :: r[i] == 0
  {
    seq(n, _ => 0)
  }

  lemma {:induction false} HeldPadded(img: seq<byte>, at: nat, n: nat, s: seq<byte>, o: nat, w: nat)
    requires Holds(img, at, n, s) && o + w <= n
    ensures Slice(img, at + o, w) == (s + Zeros(n - |s|))[o..o + w]
  {
    var a, b := Slice(img, at + o, w), (s + Zeros(n - |s|))[o..o + w];
    forall j | 0 <= j < w
      ensures a[j] == b[j]
    {
      assert img[at + o + j] == if o + j < |s| then s[at + o + j - at] else 0;
    }
  }

  lemma {:induction false} ScanTurn(img: seq<byte>, fs: Fs, cl: nat, at: nat, total: nat, c: nat, s: seq<byte>,
                                    o: nat, n11: seq<byte>,
                                    fuel: nat)
    requires IsCluster(cl) && fs.spc * 512 == c && ClusterOff(fs, cl) == at + o
    requires Holds(img, at, total, s) && o + c <= total && |n11| == 11 && fuel > 0 && c % 32 == 0
    ensures var p := s + Zeros(total - |s|);
      var v := Scan(p[o..o + c], n11);
      && Scan(p[o..], n11) == (if v.Skip? then Scan(p[o + c..], n11) else v)
      && ChainFind(img, fs, cl, n11, fuel) ==
         if v.Skip? then ChainFind(img, fs, Next(img, fs, cl), n11, fuel - 1) else Outcome(v)
  {
    var p := s + Zeros(total - |s|);
    HeldPadded(img, at, total, s, o, c);
    hide Holds, ClusterOff, Next, Slice, Scan, ChainFind;
    FindStep(img, fs, cl, n11, fuel);
    ScanAppend(p[o..o + c], p[o + c..], n11);
    assert p[o..] == p[o..o + c] + p[o + c..];
  }

  /** Searching a chain from its cluster `k` on is searching the rest of what it holds, as one run of bytes. */
  lemma {:induction false} ChainScans(img: seq<byte>, fs: Fs, first: nat, n: nat, at: nat, c: nat, s: seq<byte>, k: nat,
                                      n11: seq<byte>, fuel: nat)
    requires Chain(img, fs, first, n, at, c) && Holds(img, at, n * c, s) && k < n && |n11| == 11 && fuel >= n - k
    requires c % 32 == 0
    ensures k * c <= n * c
    ensures ChainFind(img, fs, first + k, n11, fuel) == Outcome(Scan((s + Zeros(n * c - |s|))[k * c..], n11))
    decreases n - k
  {
    hide Chain, Scan, Next, ClusterOff, ChainFind;
    ChainAt(img, fs, first, n, at, c, k);
    var o, total := k * c, n * c;
    ScanTurn(img, fs, first + k, at, total, c, s, o, n11, fuel);
    var p := s + Zeros(total - |s|);
    hide Holds;
    if k + 1 < n {
      ChainScans(img, fs, first, n, at, c, s, k + 1, n11, fuel - 1);
    } else {
      assert p[o + c..] == [];
      ScanNone(n11);
      FindStep(img, fs, EOC, n11, fuel - 1);
    }
  }

  lemma {:induction false} FindStep(img: seq<byte>, fs: Fs, c: nat, n11: seq<byte>, fuel: nat)
    requires |n11| == 11
    ensures !IsCluster(c) ==> ChainFind(img, fs, c, n11, fuel) == Missing
    ensures IsCluster(c) && fuel > 0 ==>
      var v := Scan(Slice(img, ClusterOff(fs, c), fs.spc * 512), n11);
      ChainFind(img, fs, c, n11, fuel) ==
      if v.Skip? then ChainFind(img, fs, Next(img, fs, c), n11, fuel - 1) else Outcome(v)
  {
    hide Scan, Slice, Next, ClusterOff;
  }

  lemma {:induction false} ScanNone(n11: seq<byte>)
    requires |n11| == 11
    ensures Scan([], n11) == Skip
  {
  }

  /** Zeros end a directory, and so does its last byte. */
  lemma {:induction false} ScanPadded(s: seq<byte>, n: nat, n11: seq<byte>)
    requires |n11| == 11 && |s| % 32 == 0
    ensures Outcome(Scan(s + Zeros(n), n11)) == Outcome(Scan(s, n11))
  {
    ScanAppend(s, Zeros(n), n11);
    assert !Scan(Zeros(n), n11).Hit?;
  }

  // ---------------------------------------------------------------- searching a directory

  /** Names are C strings. */
  ghost predicate Strings(t: seq<Node>) { forall i | 0 <= i < |t| :: 0 !in t[i].name }

  lemma {:induction false} ShortHead(t: seq<Node>, d: int, k: nat)
    requires Valid(t) && Strings(t) && 1 <= k < |t|
    ensures Short(t, d, k)[0] != 0 && (!Fits83(t[k].name) ==> Short(t, d, k)[0] != 0xE5)
  {
    if Fits83(t[k].name) {
      assert Name11(t[k].name)[0] == Up(t[k].name[0]);
    } else {
      hide FirstFree;
      assert k < MAX_NODES;
      AliasFresh(t[k].name, Used(t, d, k));
      var j: nat :| 1 <= j <= |Used(t, d, k)| + 1 && FirstFree(t[k].name, Used(t, d, k), 1) == Alias(t[k].name, j);
      AliasHead(t[k].name, j);
    }
  }

  lemma {:induction false} SlotsSkipped(name: seq<byte>, alias: seq<byte>, q: nat, n11: seq<byte>)
    requires q <= Slots(name) && |name| <= 63 && |n11| == 11
    ensures Scan(SlotChain(name, alias, q), n11) == Skip
    decreases q
  {
    if q == 0 {
      ScanNone(n11);
    } else {
      SlotsSkipped(name, alias, q - 1, n11);
      SlotSkipped(name, alias, q, n11);
      hide Slot, Scan;
      ScanAppend(Slot(name, alias, q), SlotChain(name, alias, q - 1), n11);
    }
  }

  lemma {:induction false} SlotSkipped(name: seq<byte>, alias: seq<byte>, q: nat, n11: seq<byte>)
    requires 1 <= q <= Slots(name) && |name| <= 63 && |n11| == 11
    ensures Scan(Slot(name, alias, q), n11) == Skip
  {
    var e := Slot(name, alias, q);
    assert e[0] == SlotByte(name, alias, q, 0) && e[11] == SlotByte(name, alias, q, 11);
    ScanOne(e, n11);
  }

  lemma {:induction false} ScanOne(e: seq<byte>, n11: seq<byte>)
    requires |e| == 32 && |n11| == 11
    ensures Scan(e, n11) == Match(e, n11)
  {
    assert e[..32] == e && e[32..] == [];
    ScanNone(n11);
    hide Match;
  }

  lemma {:induction false} ScanDirent(name: seq<byte>, attr: byte, clus: nat, size: nat, n11: seq<byte>)
    requires |name| == 11 == |n11| && clus < 65536 && size < WORD32 && name[0] != 0
    ensures var e := Dirent(name, attr, clus, size);
      Scan(e, n11) ==
      if name[0] == 0xE5 || attr % 16 == 15 || attr / 8 % 2 == 1 || name != n11 then Skip
      else Hit(clus, size, attr / 16 % 2 == 1)
  {
    var e := Dirent(name, attr, clus, size);
    DirentFields(name, attr, clus, size);
    ScanOne(e, n11);
    assert e[0] == e[..11][0];
    hide Scan, Dirent, Rd16, Rd32;
  }

  /** First cluster and size fit their fields. */
  predicate FieldsFit(t: seq<Node>, c: nat) {
    c > 0 && forall k | 1 <= k < |t| :: First(t, c, k) < 65536 && EntrySize(t[k]) < WORD32
  }

  /** The entry of node `k`, as a search returns it. */
  function EntryOf(t: seq<Node>, c: nat, k: nat): Verdict
    requires 1 <= k < |t| && c > 0
  {
    Hit(First(t, c, k), EntrySize(t[k]), t[k].isDir)
  }

  /** What a search relies on. */
  ghost predicate Searchable(t: seq<Node>, c: nat) {
    Valid(t) && Strings(t) && FieldsFit(t, c) && Named(t)
  }

  lemma {:induction false} ChildFacts(t: seq<Node>, c: nat, d: int, k: nat)
    requires Searchable(t, c) && 1 <= k < |t|
    ensures c > 0 && |t[k].name| <= NAME_MAX && Short(t, d, k)[0] != 0
    ensures First(t, c, k) < 65536 && EntrySize(t[k]) < WORD32
  {
    ShortHead(t, d, k);
    hide Short, First;
  }

  lemma {:induction false} ChildShape(t: seq<Node>, c: nat, d: int, k: nat)
    requires 1 <= k < |t| && c > 0 && |t[k].name| <= NAME_MAX
    ensures var name, short := t[k].name, Short(t, d, k);
      var e := Dirent(short, Attr(t[k]), First(t, c, k), EntrySize(t[k]));
      ChildBytes(t, c, d, k) == if Fits83(name) then e else SlotChain(name, short, Slots(name)) + e
  {
    hide Short, First, SlotChain, Dirent, Fits83;
    var e := Dirent(Short(t, d, k), Attr(t[k]), First(t, c, k), EntrySize(t[k]));
    assert [] + e == e;
  }

  /** The reader takes a name that starts with 0xE5 for a deleted entry. */
  predicate Visible(n11: seq<byte>)
    requires |n11| == 11
  {
    n11[0] != 0xE5
  }

  lemma {:induction false} ScanChild(t: seq<Node>, c: nat, d: int, k: nat, n11: seq<byte>)
    requires Searchable(t, c) && 1 <= k < |t| && |n11| == 11
    ensures c > 0 && |t[k].name| <= NAME_MAX
    ensures Scan(ChildBytes(t, c, d, k), n11) ==
      if Short(t, d, k) == n11 && Visible(n11) then EntryOf(t, c, k) else Skip
  {
    hide Searchable, Short, First, Scan, ChildBytes, SlotChain, Dirent, Fits83, Slots;
    var name, short := t[k].name, Short(t, d, k);
    ChildFacts(t, c, d, k);
    ChildShape(t, c, d, k);
    ScanDirent(short, Attr(t[k]), First(t, c, k), EntrySize(t[k]), n11);
    if !Fits83(name) {
      SlotsSkipped(name, short, Slots(name), n11);
      ScanAppend(SlotChain(name, short, Slots(name)), Dirent(short, Attr(t[k]), First(t, c, k), EntrySize(t[k])), n11);
    }
  }

  /** The first child of `d` with that short name, among the first `n` nodes. */
  function FirstChild(t: seq<Node>, d: int, n11: seq<byte>, n: nat): Option<nat>
    requires n <= |t|
  {
    if n <= 1 then None
    else
      var r := FirstChild(t, d, n11, n - 1);
      if r.Some? then r
      else if t[n - 1].parent == d && Short(t, d, n - 1) == n11 then Some(n - 1) else None
  }

  lemma {:induction false} FirstChildIs(t: seq<Node>, d: int, n11: seq<byte>, n: nat, k: nat)
    requires 1 <= k < n <= |t| && t[k].parent == d && Short(t, d, k) == n11
    requires forall j | 1 <= j < k && t[j].parent == d :: Short(t, d, j) != n11
    ensures FirstChild(t, d, n11, n) == Some(k)
    decreases n
  {
    hide Short;
    if k < n - 1 {
      FirstChildIs(t, d, n11, n - 1, k);
    } else {
      FirstChildNone(t, d, n11, k);
    }
  }

  lemma {:induction false} FirstChildNone(t: seq<Node>, d: int, n11: seq<byte>, n: nat)
    requires n <= |t|
    requires forall j | 1 <= j < n && t[j].parent == d :: Short(t, d, j) != n11
    ensures FirstChild(t, d, n11, n) == None
    decreases n
  {
    hide Short;
    if n > 1 {
      FirstChildNone(t, d, n11, n - 1);
    }
  }

  lemma {:induction false} FirstChildIn(t: seq<Node>, d: int, n11: seq<byte>, n: nat)
    requires n <= |t| && FirstChild(t, d, n11, n).Some?
    ensures 1 <= FirstChild(t, d, n11, n).value < n
    decreases n
  {
    hide Short;
    if FirstChild(t, d, n11, n - 1).Some? {
      FirstChildIn(t, d, n11, n - 1);
    }
  }

  function EntryAt(t: seq<Node>, c: nat, r: Option<nat>): Verdict
    requires c > 0
  {
    if r.Some? && 1 <= r.value < |t| then EntryOf(t, c, r.value) else Skip
  }

  lemma {:induction false} ChildrenNone(t: seq<Node>, c: nat, d: int, n: nat, n11: seq<byte>)
    requires n <= 1 && n <= |t| && c > 0 && Named(t) && |n11| == 11
    ensures Scan(Children(t, c, d, n), n11) == Skip && FirstChild(t, d, n11, n) == None
  {
    ScanNone(n11);
  }

  lemma {:induction false} SearchFacts(t: seq<Node>, c: nat)
    requires Searchable(t, c)
    ensures c > 0 && Named(t)
  {
  }

  lemma {:induction false} FirstChildStep(t: seq<Node>, d: int, n11: seq<byte>, n: nat)
    requires 1 < n <= |t|
    ensures var r := FirstChild(t, d, n11, n - 1);
      && (r.Some? ==> 1 <= r.value < n - 1)
      && FirstChild(t, d, n11, n) ==
         if r.Some? then r
         else if t[n - 1].parent == d && Short(t, d, n - 1) == n11 then Some(n - 1) else None
  {
    hide Short;
    if FirstChild(t, d, n11, n - 1).Some? {
      FirstChildIn(t, d, n11, n - 1);
    }
  }

  /** Searching the children finds the first one with the name, if the name can be seen at all. */
  lemma {:induction false} ScanChildren(t: seq<Node>, c: nat, d: int, n: nat, n11: seq<byte>)
    requires Searchable(t, c) && n <= |t| && |n11| == 11
    ensures c > 0 && Named(t)
    ensures Scan(Children(t, c, d, n), n11) == if Visible(n11) then EntryAt(t, c, FirstChild(t, d, n11, n)) else Skip
    decreases n
  {
    hide Searchable, Named, Short, Scan, First, Children, ChildBytes, FirstChild, EntryCount, NodeDirents;
    SearchFacts(t, c);
    if n <= 1 {
      ChildrenNone(t, c, d, n, n11);
    } else {
      ScanChildren(t, c, d, n - 1, n11);
      ChildrenStep(t, c, d, n);
      FirstChildStep(t, d, n11, n);
      if t[n - 1].parent == d {
        ScanChild(t, c, d, n - 1, n11);
        ScanAppend(Children(t, c, d, n - 1), ChildBytes(t, c, d, n - 1), n11);
      }
    }
  }

  // ---------------------------------------------------------------- a directory of a built image

  lemma {:induction false} FieldsOk(img: seq<byte>, t: seq<Node>, g: Geo)
    requires FatOk(img, t, g)
    ensures FieldsFit(t, ClusterBytes(g))
  {
    var c := ClusterBytes(g);
    forall k | 1 <= k < |t|
      ensures First(t, c, k) < 65536 && EntrySize(t[k]) < WORD32
    {
      FieldOk(img, t, g, k);
    }
  }

  lemma {:induction false} FieldOk(img: seq<byte>, t: seq<Node>, g: Geo, k: nat)
    requires FatOk(img, t, g) && 1 <= k < |t|
    ensures First(t, ClusterBytes(g), k) < 65536 && EntrySize(t[k]) < WORD32
  {
    var c := ClusterBytes(g);
    DemandGrows(t, c, k, |t|);
    CountPositive(t, c, k);
    assert EntrySize(t[k]) <= Need(t, k);
    var n := Count(t, c, k);
    assert n <= 65536 && c <= 32768;
    hide Count, Need, Demand, Lists, Links, EntrySize;
    MulOrder(n, 65536, c);
  }

  predicate Dotted(n11: seq<byte>) { n11 == DotName() || n11 == DotDotName() }

  /** Where directory `d` starts, 0 for the root. */
  function DirClus(t: seq<Node>, c: nat, d: nat): nat
    requires d < |t| && c > 0
  {
    if d == 0 then 0 else First(t, c, d)
  }

  /** What the entries before the children answer: below the root, the two dot names. */
  function DotHit(t: seq<Node>, c: nat, d: nat, n11: seq<byte>): Verdict
    requires d < |t| && c > 0 && (d > 0 ==> 0 <= t[d].parent < |t|)
  {
    if d == 0 then Skip
    else if n11 == DotName() then Hit(DirClus(t, c, d), 0, true)
    else if n11 == DotDotName() then Hit(DirClus(t, c, t[d].parent), 0, true)
    else Skip
  }

  lemma {:induction false} ScanHead(t: seq<Node>, c: nat, d: nat, n11: seq<byte>)
    requires FieldsFit(t, c) && d < |t| && |n11| == 11 && (d > 0 ==> 0 <= t[d].parent < |t|)
    ensures Scan(Head(t, c, d), n11) == DotHit(t, c, d, n11)
  {
    hide First, Scan, Dirent;
    if d == 0 {
      ScanLabel(n11);
    } else {
      ScanDots(DirClus(t, c, d), DirClus(t, c, t[d].parent), n11);
    }
  }

  lemma {:induction false} ScanLabel(n11: seq<byte>)
    requires |n11| == 11
    ensures Scan(Dirent(VolumeLabel(), ATTR_VOLUME_ID, 0, 0), n11) == Skip
  {
    hide Scan, Dirent;
    ScanDirent(VolumeLabel(), ATTR_VOLUME_ID, 0, 0, n11);
  }

  /** The two dot entries. */
  lemma {:induction false} ScanDots(own: nat, up: nat, n11: seq<byte>)
    requires |n11| == 11 && own < 65536 && up < 65536
    ensures Scan(Dirent(DotName(), ATTR_DIRECTORY, own, 0) + Dirent(DotDotName(), ATTR_DIRECTORY, up, 0), n11) ==
      if n11 == DotName() then Hit(own, 0, true) else if n11 == DotDotName() then Hit(up, 0, true) else Skip
  {
    hide Scan, Dirent;
    ScanDirent(DotName(), ATTR_DIRECTORY, own, 0, n11);
    ScanDirent(DotDotName(), ATTR_DIRECTORY, up, 0, n11);
    ScanAppend(Dirent(DotName(), ATTR_DIRECTORY, own, 0), Dirent(DotDotName(), ATTR_DIRECTORY, up, 0), n11);
  }

  /** What a search of directory `d` for any 11-byte name answers. */
  function Answer(t: seq<Node>, c: nat, d: nat, n11: seq<byte>): Verdict
    requires d < |t| && c > 0 && (d > 0 ==> 0 <= t[d].parent < |t|) && |n11| == 11
  {
    var dot := DotHit(t, c, d, n11);
    if dot.Hit? then dot else if Visible(n11) then EntryAt(t, c, FirstChild(t, d, n11, |t|)) else Skip
  }

  lemma {:induction false} ParentIn(t: seq<Node>, d: nat)
    requires Valid(t) && d < |t|
    ensures d > 0 ==> 0 <= t[d].parent < d && t[t[d].parent].isDir
  {
  }

  lemma {:induction false} ScanDir(t: seq<Node>, c: nat, d: nat, n11: seq<byte>)
    requires Valid(t) && Searchable(t, c) && d < |t| && |n11| == 11
    ensures c > 0 && (d > 0 ==> 0 <= t[d].parent < |t|)
    ensures Scan(DirBytes(t, c, d), n11) == Answer(t, c, d, n11)
  {
    ParentIn(t, d);
    ScanHead(t, c, d, n11);
    hide Searchable, Scan, Head, Children, FirstChild, EntryAt;
    ScanChildren(t, c, d, |t|, n11);
    ScanAppend(Head(t, c, d), Children(t, c, d, |t|), n11);
  }

  lemma {:induction false} BuiltFacts(img: seq<byte>, t: seq<Node>, g: Geo)
    requires Built(img, t, g)
    ensures Valid(t) && GeoOk(g) && FatOk(img, t, g) && HeaderOk(img, g) && Searchable(t, ClusterBytes(g)) == Strings(t)
    ensures Holds(img, RootAt(g), ROOT_BYTES, DirBytes(t, ClusterBytes(g), 0))
  {
    FieldsOk(img, t, g);
    ValidNamed(t);
    hide Holds, HeaderOk, FatOk, DirBytes, FieldsFit, Strings, Named, NodeOk;
  }

  lemma {:induction false} BuiltNode(img: seq<byte>, t: seq<Node>, g: Geo, i: nat)
    requires Built(img, t, g) && 1 <= i < |t|
    ensures Valid(t) && GeoOk(g) && NodeOk(img, t, g, i)
  {
    hide Valid, GeoOk, NodeOk, Holds, HeaderOk, FatOk, DirBytes;
  }

  lemma {:induction false} DirHolds(img: seq<byte>, t: seq<Node>, g: Geo, d: nat)
    requires Valid(t) && GeoOk(g) && 1 <= d < |t| && t[d].isDir && NodeOk(img, t, g, d)
    ensures ClusterBytes(g) > 0 && Need(t, d) > 0 && First(t, ClusterBytes(g), d) >= 2
    ensures var c := ClusterBytes(g);
      Holds(img, ClusterAt(g, First(t, c, d)), Count(t, c, d) * c, DirBytes(t, c, d))
  {
    hide Valid, ClustersAt, Holds, DirBytes, Count;
  }

  lemma {:induction false} FindRegion(img: seq<byte>, at: nat, n: nat, s: seq<byte>, n11: seq<byte>)
    requires Holds(img, at, n, s) && |s| % 32 == 0 && |n11| == 11
    ensures Outcome(Scan(Slice(img, at, n), n11)) == Outcome(Scan(s, n11))
  {
    hide Scan, Slice, Holds;
    assert |s| <= n by {
      HoldsSize(img, at, n, s);
    }
    var p := s + Zeros(n - |s|);
    HeldPadded(img, at, n, s, 0, n);
    assert p[0..n] == p;
    ScanPadded(s, n - |s|, n11);
  }

  lemma {:induction false} HoldsSize(img: seq<byte>, at: nat, n: nat, s: seq<byte>)
    requires Holds(img, at, n, s)
    ensures |s| <= n
  {
  }

  lemma {:induction false} FindRoot(img: seq<byte>, g: Geo, s: seq<byte>, n11: seq<byte>)
    requires Holds(img, RootAt(g), ROOT_BYTES, s) && |s| % 32 == 0 && |n11| == 11
    ensures DirFind(img, FsOf(g), 0, n11) == Outcome(Scan(s, n11))
  {
    hide Scan, Slice, Holds;
    FindRegion(img, RootAt(g), ROOT_BYTES, s, n11);
  }

  lemma {:induction false} FindFromStart(img: seq<byte>, fs: Fs, first: nat, n: nat, at: nat, c: nat, total: nat,
                                         s: seq<byte>,
                                         n11: seq<byte>, fuel: nat)
    requires Chain(img, fs, first, n, at, c) && total == n * c && Holds(img, at, total, s) && 0 < n <= fuel
    requires |n11| == 11 && c % 32 == 0
    ensures |s| <= total
    ensures ChainFind(img, fs, first, n11, fuel) == Outcome(Scan(s + Zeros(total - |s|), n11))
  {
    hide Chain, Scan, ChainFind;
    HoldsSize(img, at, total, s);
    hide Holds;
    var k := 0;
    ChainScans(img, fs, first, n, at, c, s, k, n11, fuel);
    var p := s + Zeros(total - |s|);
    assert k * c == 0;
    assert p[k * c..] == p;
  }

  lemma {:induction false} FindChain(img: seq<byte>, fs: Fs, first: nat, n: nat, at: nat, c: nat, total: nat,
                                     s: seq<byte>,
                                     n11: seq<byte>, fuel: nat)
    requires Chain(img, fs, first, n, at, c) && total == n * c && Holds(img, at, total, s) && 0 < n <= fuel
    requires |s| % 32 == 0 && |n11| == 11 && c % 32 == 0
    ensures first >= 2 && ChainFind(img, fs, first, n11, fuel) == Outcome(Scan(s, n11))
  {
    assert first >= 2;
    hide Chain, Scan, ChainFind, Holds;
    FindFromStart(img, fs, first, n, at, c, total, s, n11, fuel);
    ScanPadded(s, total - |s|, n11);
  }

  /** A directory search on a built image, for any name whatever: a dot entry below the root, else the first child
      with that short name, and nothing exactly when there is none or the name counts as deleted. */
  lemma {:induction false} DirFindIs(img: seq<byte>, t: seq<Node>, g: Geo, d: nat, n11: seq<byte>)
    requires Built(img, t, g) && Strings(t) && d < |t| && t[d].isDir && |n11| == 11
    ensures ClusterBytes(g) > 0 && (d > 0 ==> 0 <= t[d].parent < d)
    ensures DirFind(img, FsOf(g), DirClus(t, ClusterBytes(g), d), n11) == Outcome(Answer(t, ClusterBytes(g), d, n11))
  {
    hide Built, Valid, FatOk, HeaderOk, Searchable, Strings, EntryAt, FirstChild, DirBytes, Scan, Chain, Holds, Count,
         First, ChainFind, EntryCount, NodeOk, Need, ClustersAt, Answer;
    BuiltFacts(img, t, g);
    ParentIn(t, d);
    var c := ClusterBytes(g);
    ScanDir(t, c, d, n11);
    var s := DirBytes(t, c, d);
    assert |s| % 32 == 0;
    if d == 0 {
      FindRoot(img, g, s, n11);
    } else {
      BuiltNode(img, t, g, d);
      DirHolds(img, t, g, d);
      NodeChain(img, t, g, d);
      DirCount(img, t, g, d);
      FindChain(img, FsOf(g), First(t, c, d), Count(t, c, d), ClusterAt(g, First(t, c, d)), c,
                Count(t, c, d) * c, s, n11, ALL_CLUSTERS);
    }
  }

  lemma {:induction false} DirCount(img: seq<byte>, t: seq<Node>, g: Geo, d: nat)
    requires FatOk(img, t, g) && 1 <= d < |t| && t[d].isDir
    ensures 0 < Count(t, ClusterBytes(g), d) <= ALL_CLUSTERS && ClusterBytes(g) % 32 == 0
  {
    hide Lists, Links, ClustersAt, Demand, Count;
    DemandGrows(t, ClusterBytes(g), d, |t|);
    CountPositive(t, ClusterBytes(g), d);
    assert ClusterBytes(g) == 32 * (16 * g.spc);
  }

  // ---------------------------------------------------------------- every search ends

  /** An answer that is a directory is one of the tree's. */
  lemma {:induction false} AnswerDir(t: seq<Node>, c: nat, d: nat, n11: seq<byte>) returns (e: nat)
    requires Valid(t) && d < |t| && t[d].isDir && c > 0 && |n11| == 11 && (d > 0 ==> 0 <= t[d].parent < |t|)
    requires Answer(t, c, d, n11).Hit? && Answer(t, c, d, n11).isDir
    ensures e < |t| && t[e].isDir && Answer(t, c, d, n11).clus == DirClus(t, c, e)
  {
    ParentIn(t, d);
    hide Valid, First, FirstChild;
    if DotHit(t, c, d, n11).Hit? {
      e := if n11 == DotName() then d else t[d].parent;
    } else {
      e := FirstChild(t, d, n11, |t|).value;
    }
  }

  /** On a built image no lookup, of any path whatever, runs into an endless chain. */
  lemma {:induction false} LookupFromEnds(img: seq<byte>, t: seq<Node>, g: Geo, d: nat, path: seq<byte>)
    requires Built(img, t, g) && Strings(t) && d < |t| && t[d].isDir && path != [] && !IsSlash(path[0])
    ensures ClusterBytes(g) > 0 && LookupFrom(img, FsOf(g), DirClus(t, ClusterBytes(g), d), path) != Endless
    decreases |path|
  {
    hide Built, Strings, DirFind, Answer, Name11, SkipSlashes, Taken, DirClus;
    var n := Taken(path);
    var n11, rest := Name11(path[..n]), SkipSlashes(path[n..]);
    var c := ClusterBytes(g);
    DirFindIs(img, t, g, d, n11);
    var r := Answer(t, c, d, n11);
    if rest != [] && r.Hit? && r.isDir {
      BuiltValid(img, t, g);
      hide Valid;
      var e := AnswerDir(t, c, d, n11);
      LookupFromEnds(img, t, g, e, rest);
    }
  }

  lemma {:induction false} BuiltValid(img: seq<byte>, t: seq<Node>, g: Geo)
    requires Built(img, t, g)
    ensures Valid(t) && |t| >= 1 && t[0].isDir
  {
    hide FatOk, HeaderOk, Holds, NodeOk, DirBytes;
  }

  lemma {:induction false} LookupEnds(img: seq<byte>, t: seq<Node>, g: Geo, path: seq<byte>)
    requires Built(img, t, g) && Strings(t)
    ensures LookupPath(img, FsOf(g), path) != Endless
  {
    hide Built, Strings, LookupFrom, SkipSlashes, Valid;
    BuiltValid(img, t, g);
    var p := SkipSlashes(path);
    if p != [] {
      LookupFromEnds(img, t, g, 0, p);
    }
  }
}
