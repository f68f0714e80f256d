/** The read-only FAT16 reader of src/boot/fatread.c: what mounting, looking up a path and copying a cluster
    chain mean on the bytes of an image, and the loops that compute it. Memory past the image reads as zero. */
module FatRead {
  import opened Bits
  import opened FatNames
  import opened FatTree

  function At(img: seq<byte>, i: nat): byte { if i < |img| then img[i] else 0 }
  function At16(img: seq<byte>, i: nat): nat { At(img, i) as int + 256 * At(img, i + 1) as int }
  function At32(img: seq<byte>, i: nat): nat { At16(img, i) + 65536 * At16(img, i + 2) }

  function Slice(img: seq<byte>, o: nat, n: nat): (r: seq<byte>)
    ensures |r| == n && forall i | 0 <= i < n :: r[i] == At(img, o + i)
  {
    seq<byte>(n, i requires 0 <= i < n => At(img, o + i))
  }

  function Wrap32(x: nat): nat { x % WORD32 }

  /** Geometry of a mounted volume, in sectors from the start of the image. */
  datatype Fs = Fs(spc: nat, fatLba: nat, rootLba: nat, rootEntries: nat, dataLba: nat)

  datatype Mounted = Ok(fs: Fs) | Fail(code: int)

  /** fat_mount: the geometry in the boot sector the partition table leads to. */
  function MountOf(img: seq<byte>): Mounted {
    if |img| < 1024 || At16(img, 510) != 0xAA55 then Fail(-1) else
    var part := At32(img, 446 + 8);
    if part == 0 then Fail(-2) else
    var bpb := part * 512;
    if At16(img, bpb + 510) != 0xAA55 then Fail(-3)
    else if At16(img, bpb + 11) != 512 then Fail(-4)
    else if At(img, bpb + 13) == 0 || At(img, bpb + 16) == 0 || At16(img, bpb + 22) == 0 then Fail(-5)
    else Ok(GeometryAt(img, part, bpb))
  }

  /** The geometry a boot sector at byte `bpb` gives. */
  function GeometryAt(img: seq<byte>, part: nat, bpb: nat): Fs {
    var fatLba := Wrap32(part + At16(img, bpb + 14));
    var rootLba := Wrap32(fatLba + At(img, bpb + 16) * At16(img, bpb + 22));
    var rootEntries := At16(img, bpb + 17);
    Fs(At(img, bpb + 13), fatLba, rootLba, rootEntries, Wrap32(rootLba + (rootEntries * 32 + 511) / 512))
  }

  /** Which image is mounted, and the code of each that is not: too short or without the signature, no first partition,
      no signature on its boot sector, sectors not of 512 bytes, or a field of zero that cannot be. */
  lemma {:induction false} MountCodes(img: seq<byte>)
    ensures var b := 512 * At32(img, 454);
      && (MountOf(img) == Fail(-1) <==> |img| < 1024 || img[510] != 0x55 || img[511] != 0xAA)
      && (MountOf(img).Ok? || (MountOf(img).code != -1 && MountOf(img).code != -2) ==> At32(img, 454) > 0)
      && (MountOf(img) == Fail(-2) ==> At32(img, 454) == 0)
      && (MountOf(img) == Fail(-3) ==> At(img, b + 510) != 0x55 || At(img, b + 511) != 0xAA)
      && (MountOf(img) == Fail(-4) ==> At16(img, b + 11) != 512)
      && (MountOf(img) == Fail(-5) ==> At(img, b + 13) == 0 || At(img, b + 16) == 0 || At16(img, b + 22) == 0)
      && (MountOf(img).Fail? ==> -5 <= MountOf(img).code <= -1)
      && (MountOf(img).Ok? ==> At(img, b + 510) == 0x55 && At(img, b + 511) == 0xAA && At16(img, b + 11) == 512
                               && At(img, b + 13) > 0 && At(img, b + 16) > 0 && At16(img, b + 22) > 0)
  {
    hide GeometryAt;
  }

  /** Two fields of the boot sector the partition table leads to. */
  function SpcField(img: seq<byte>): nat { At(img, At32(img, 446 + 8) * 512 + 13) }
  function RootField(img: seq<byte>): nat { At16(img, At32(img, 446 + 8) * 512 + 17) }

  function ClusterOff(fs: Fs, c: nat): nat
    requires c >= 2
  {
    Wrap32(fs.dataLba + (c - 2) * fs.spc) * 512
  }

  function Next(img: seq<byte>, fs: Fs, c: nat): nat { At16(img, fs.fatLba * 512 + c * 2) }

  predicate IsCluster(c: nat) { 2 <= c < 0xFFF8 }

  // ---------------------------------------------------------------- directory entries

  datatype Verdict = End | Skip | Hit(clus: nat, size: nat, isDir: bool)

  /** match_entry: does this 32-byte entry carry the name? */
  function Match(e: seq<byte>, n11: seq<byte>): Verdict
    requires |e| == 32 && |n11| == 11
  {
    if e[0] == 0 then End
    else if e[0] == 0xE5 || e[11] % 16 == 15 || e[11] / 8 % 2 == 1 || e[..11] != n11 then Skip
    else Hit(Rd16(e, 26), Rd32(e, 28), e[11] / 16 % 2 == 1)
  }

  /** The first entry that ends the directory or carries the name. */
  function Scan(s: seq<byte>, n11: seq<byte>): Verdict
    requires |n11| == 11
    decreases |s|
  {
    if |s| < 32 then Skip else
    var v := Match(s[..32], n11);
    if v.Skip? then Scan(s[32..], n11) else v
  }

  /** A directory read in two parts. */
  lemma {:induction false} ScanAppend(a: seq<byte>, b: seq<byte>, n11: seq<byte>)
    requires |n11| == 11 && |a| % 32 == 0
    ensures Scan(a + b, n11) == if Scan(a, n11).Skip? then Scan(b, n11) else Scan(a, n11)
    decreases |a|
  {
    hide Match;
    if |a| == 0 {
      assert a + b == b;
    } else {
      assert (a + b)[..32] == a[..32] && (a + b)[32..] == a[32..] + b;
      ScanAppend(a[32..], b, n11);
    }
  }

  // ---------------------------------------------------------------- looking up

  datatype Lookup = Found(clus: nat, size: nat, isDir: bool) | Missing | Endless

  function Outcome(v: Verdict): Lookup { if v.Hit? then Found(v.clus, v.size, v.isDir) else Missing }

  /** Find a name along a cluster chain. A chain that goes on for more than `fuel` clusters is `Endless`: with
      as many clusters as there are numbers it has come back to one, and the search does not return. */
  function ChainFind(img: seq<byte>, fs: Fs, c: nat, n11: seq<byte>, fuel: nat): Lookup
    requires |n11| == 11
    decreases fuel
  {
    if !IsCluster(c) then Missing
    else if fuel == 0 then Endless
    else
      var v := Scan(Slice(img, ClusterOff(fs, c), fs.spc * 512), n11);
      if v.Skip? then ChainFind(img, fs, Next(img, fs, c), n11, fuel - 1) else Outcome(v)
  }

  const ALL_CLUSTERS: nat := 65536

  /** dir_find: a name in the root region (cluster 0) or in the directory that starts at `dir`. */
  function DirFind(img: seq<byte>, fs: Fs, dir: nat, n11: seq<byte>): Lookup
    requires |n11| == 11
  {
    if dir == 0 then Outcome(Scan(Slice(img, fs.rootLba * 512, 32 * fs.rootEntries), n11))
    else ChainFind(img, fs, dir, n11, ALL_CLUSTERS)
  }

  /** How much of the path the reader takes as one component. */
  function Taken(path: seq<byte>): (n: nat)
    ensures n <= |path| && (path != [] && !IsSlash(path[0]) ==> n > 0)
  {
    if CompLen(path) < 15 then CompLen(path) else 15
  }

  /** path_lookup from directory `dir` on, for a rest of the path that starts with a component. */
  function LookupFrom(img: seq<byte>, fs: Fs, dir: nat, path: seq<byte>): Lookup
    requires path != [] && !IsSlash(path[0])
    decreases |path|
  {
    var n := Taken(path);
    var rest := SkipSlashes(path[n..]);
    var r := DirFind(img, fs, dir, Name11(path[..n]));
    if rest == [] || !r.Found? then r
    else if !r.isDir then Missing
    else LookupFrom(img, fs, r.clus, rest)
  }

  function LookupPath(img: seq<byte>, fs: Fs, path: seq<byte>): Lookup {
    var p := SkipSlashes(path);
    if p == [] then Found(0, 0, true) else LookupFrom(img, fs, 0, p)
  }

  /** Slashes alone are the root, a directory at cluster 0 with no size. */
  lemma {:induction false} RootLookup(img: seq<byte>, fs: Fs, path: seq<byte>)
    requires AllSlashes(path)
    ensures LookupPath(img, fs, path) == Found(0, 0, true)
  {
    SkipGap(path, []);
    assert path + [] == path;
  }

  /** A component of more than 15 characters is looked up as if a slash stood after the fifteenth; a shorter one as it
      is. */
  lemma {:induction false} FifteenAtATime(img: seq<byte>, fs: Fs, dir: nat, path: seq<byte>)
    requires path != [] && !IsSlash(path[0])
    ensures CompLen(path) > 15 ==>
      LookupFrom(img, fs, dir, path) == LookupFrom(img, fs, dir, path[..15] + [47] + path[15..])
    ensures CompLen(path) <= 15 ==> Taken(path) == CompLen(path)
  {
    if CompLen(path) > 15 {
      CompInside(path, 15);
      var split := path[..15] + [47] + path[15..];
      assert split == path[..15] + ([47] + path[15..]);
      CompLenIs(path[..15], [47] + path[15..]);
      assert split[..15] == path[..15] && split[15..] == [47] + path[15..];
      assert ([47] + path[15..])[1..] == path[15..];
    }
  }

  lemma {:induction false} CompInside(s: seq<byte>, n: nat)
    requires n < CompLen(s)
    ensures n < |s| && !IsSlash(s[n]) && 47 !in s[..n] && 92 !in s[..n]
    decreases n
  {
    if n > 0 {
      CompInside(s[1..], n - 1);
      assert s[..n] == [s[0]] + s[1..][..n - 1];
    }
  }

  /** copy_chain: up to `lim` bytes of the chain at `c`; none, with clusters of no sectors. */
  function ChainBytes(img: seq<byte>, fs: Fs, c: nat, lim: nat): seq<byte>
    decreases lim
  {
    if lim == 0 || fs.spc == 0 || !IsCluster(c) then []
    else
      var want := if lim > fs.spc * 512 then fs.spc * 512 else lim;
      Slice(img, ClusterOff(fs, c), want) + ChainBytes(img, fs, Next(img, fs, c), lim - want)
  }

  // ---------------------------------------------------------------- endless chains

  /** The cluster `i` links after `c`. */
  function Nth(img: seq<byte>, fs: Fs, c: nat, i: nat): nat {
    if i == 0 then c else Next(img, fs, Nth(img, fs, c, i - 1))
  }

  /** Copying comes to an end: every cluster has bytes to copy, or the chain ends. */
  ghost predicate CopyEnds(img: seq<byte>, fs: Fs, c: nat) {
    fs.spc > 0 || exists n: nat :: !IsCluster(Nth(img, fs, c, n))
  }

  lemma {:induction false} NthShift(img: seq<byte>, fs: Fs, c: nat, i: nat)
    ensures Nth(img, fs, Next(img, fs, c), i) == Nth(img, fs, c, i + 1)
    decreases i
  {
    hide Next;
    if i > 0 {
      NthShift(img, fs, c, i - 1);
    }
  }

  /** The search goes on past this cluster. */
  predicate GoesOn(img: seq<byte>, fs: Fs, c: nat, n11: seq<byte>)
    requires |n11| == 11
  {
    IsCluster(c) && Scan(Slice(img, ClusterOff(fs, c), fs.spc * 512), n11).Skip?
  }

  /** A search is endless after `fuel` clusters exactly when it went on past all of them and has yet another. */
  lemma {:induction false} EndlessIff(img: seq<byte>, fs: Fs, c: nat, n11: seq<byte>, fuel: nat)
    requires |n11| == 11
    ensures ChainFind(img, fs, c, n11, fuel) == Endless <==>
      GoesOnPast(img, fs, c, n11, fuel) && IsCluster(Nth(img, fs, c, fuel))
    decreases fuel
  {
    hide Scan, Slice, ClusterOff, Next, GoesOn;
    if fuel == 0 {
      hide GoesOnPast;
      NoneYet(img, fs, c, n11);
    } else {
      EndlessIff(img, fs, Next(img, fs, c), n11, fuel - 1);
      NthShift(img, fs, c, fuel - 1);
      hide GoesOnPast, Nth;
      GoesShift(img, fs, c, n11, fuel);
      GoesIs(img, fs, c, n11);
    }
  }

  lemma {:induction false} NoneYet(img: seq<byte>, fs: Fs, c: nat, n11: seq<byte>)
    requires |n11| == 11
    ensures GoesOnPast(img, fs, c, n11, 0)
  {
  }

  lemma {:induction false} GoesIs(img: seq<byte>, fs: Fs, c: nat, n11: seq<byte>)
    requires |n11| == 11
    ensures GoesOn(img, fs, c, n11) <==> IsCluster(c) && Scan(Slice(img, ClusterOff(fs, c), fs.spc * 512), n11).Skip?
  {
    hide Scan, Slice, ClusterOff;
  }

  /** The search goes on past the first `n` clusters. */
  ghost predicate GoesOnPast(img: seq<byte>, fs: Fs, c: nat, n11: seq<byte>, n: nat)
    requires |n11| == 11
  {
    forall i: nat | i < n :: GoesOn(img, fs, Nth(img, fs, c, i), n11)
  }

  /** Going on past `n` clusters is going on past the first and past those after it. */
  lemma {:induction false} GoesShift(img: seq<byte>, fs: Fs, c: nat, n11: seq<byte>, n: nat)
    requires |n11| == 11 && n > 0
    ensures GoesOnPast(img, fs, c, n11, n) <==>
      GoesOn(img, fs, c, n11) && GoesOnPast(img, fs, Next(img, fs, c), n11, n - 1)
  {
    assert Nth(img, fs, c, 0) == c;
    hide GoesOn, Next, Nth;
    var next := Next(img, fs, c);
    if GoesOnPast(img, fs, c, n11, n) {
      forall i: nat | i < n - 1
        ensures GoesOn(img, fs, Nth(img, fs, next, i), n11)
      {
        NthShift(img, fs, c, i);
        assert GoesOn(img, fs, Nth(img, fs, c, i + 1), n11);
      }
      assert GoesOn(img, fs, Nth(img, fs, c, 0), n11);
    } else {
      var i: nat :| i < n && !GoesOn(img, fs, Nth(img, fs, c, i), n11);
      if i > 0 {
        NthShift(img, fs, c, i - 1);
        assert !GoesOn(img, fs, Nth(img, fs, next, i - 1), n11);
      }
    }
  }

  /** The numbers from `lo` on, `n` of them. */
  ghost function Range(lo: nat, n: nat): set<nat> {
    if n == 0 then {} else Range(lo, n - 1) + {lo + n - 1}
  }

  lemma {:induction false} RangeIs(lo: nat, n: nat)
    ensures |Range(lo, n)| == n && forall x: nat :: x in Range(lo, n) <==> lo <= x < lo + n
    decreases n
  {
    if n > 0 {
      RangeIs(lo, n - 1);
    }
  }

  ghost predicate AllDistinct(s: seq<nat>) { forall i, j | 0 <= i < j < |s| :: s[i] != s[j] }

  ghost function Values(s: seq<nat>): set<nat> {
    if s == [] then {} else Values(s[..|s| - 1]) + {s[|s| - 1]}
  }

  lemma {:induction false} ValuesIn(s: seq<nat>, x: nat)
    ensures x in Values(s) <==> x in s
    decreases |s|
  {
    if s != [] {
      ValuesIn(s[..|s| - 1], x);
      assert s == s[..|s| - 1] + [s[|s| - 1]];
    }
  }

  lemma {:induction false} DistinctSize(s: seq<nat>)
    requires AllDistinct(s)
    ensures |Values(s)| == |s|
    decreases |s|
  {
    if s != [] {
      var n := |s| - 1;
      DistinctSize(s[..n]);
      ValuesIn(s[..n], s[n]);
    }
  }

  /** More numbers than there are in a range repeat one. */
  lemma {:induction false} Repeats(s: seq<nat>, lo: nat, n: nat) returns (i: nat, j: nat)
    requires |s| > n && forall k | 0 <= k < |s| :: lo <= s[k] < lo + n
    ensures i < j < |s| && s[i] == s[j]
  {
    RangeIs(lo, n);
    hide Values, Range;
    forall x | x in Values(s)
      ensures x in Range(lo, n)
    {
      ValuesIn(s, x);
    }
    SubsetSize(Values(s), Range(lo, n));
    if AllDistinct(s) {
      DistinctSize(s);
    }
    assert !AllDistinct(s);
    i, j :| 0 <= i < j < |s| && s[i] == s[j];
  }

  lemma {:induction false} NthPeriod(img: seq<byte>, fs: Fs, c: nat, i: nat, j: nat, n: nat)
    requires Nth(img, fs, c, i) == Nth(img, fs, c, j)
    ensures Nth(img, fs, c, i + n) == Nth(img, fs, c, j + n)
    decreases n
  {
    hide Next;
    if n > 0 {
      NthPeriod(img, fs, c, i, j, n - 1);
    }
  }

  /** Once a cluster comes again, every later one is one of those before. */
  lemma {:induction false} NthBack(img: seq<byte>, fs: Fs, c: nat, i: nat, j: nat, m: nat) returns (k: nat)
    requires i < j && Nth(img, fs, c, i) == Nth(img, fs, c, j)
    ensures k < j && Nth(img, fs, c, m) == Nth(img, fs, c, k)
    decreases m
  {
    if m < j {
      k := m;
    } else {
      NthPeriod(img, fs, c, i, j, m - j);
      k := NthBack(img, fs, c, i, j, m - (j - i));
    }
  }

  /** A search that is endless after more clusters than there are numbers has come back to a cluster, and does not end
      after any number of them. */
  lemma {:induction false} EndlessRepeats(img: seq<byte>, fs: Fs, c: nat, n11: seq<byte>, fuel: nat, more: nat)
    returns (i: nat, j: nat)
    requires |n11| == 11 && fuel >= ALL_CLUSTERS && ChainFind(img, fs, c, n11, fuel) == Endless
    ensures i < j <= fuel && Nth(img, fs, c, i) == Nth(img, fs, c, j)
    ensures ChainFind(img, fs, c, n11, more) == Endless
  {
    hide ChainFind, Nth, GoesOn, Next;
    EndlessIff(img, fs, c, n11, fuel);
    var s := seq(fuel, k requires 0 <= k < fuel => Nth(img, fs, c, k));
    forall k | 0 <= k < |s|
      ensures 2 <= s[k] < 2 + 0xFFF6
    {
      assert GoesOn(img, fs, Nth(img, fs, c, k), n11);
      GoesIs(img, fs, Nth(img, fs, c, k), n11);
    }
    i, j := Repeats(s, 2, 0xFFF6);
    forall m: nat
      ensures GoesOn(img, fs, Nth(img, fs, c, m), n11)
    {
      var k := NthBack(img, fs, c, i, j, m);
      assert GoesOn(img, fs, Nth(img, fs, c, k), n11);
    }
    EndlessIff(img, fs, c, n11, more);
    GoesIs(img, fs, Nth(img, fs, c, more), n11);
  }

  // ---------------------------------------------------------------- the reader's own loops

  /** The 11-byte name of a component; what does not fit is cut off. */
  method Encode(name: seq<byte>) returns (out: seq<byte>)
    ensures out == Name11(name)
  {
    out := Blank(11);
    var dot := FindLastDot(name);
    hide LastDot;
    var stemLen := if dot >= 0 then dot else |name|;
    var extStart := if dot >= 0 then dot + 1 else |name|;
    var i := 0;
    while i < stemLen && i < 8
      invariant 0 <= i <= 8 && i <= stemLen && |out| == 11
      invariant forall j | 0 <= j < 11 :: out[j] == if j < i then Up(name[j]) else SPACE
    {
      out := out[i := Up(name[i])];
      i := i + 1;
    }
    i := 0;
    while extStart + i < |name| && i < 3
      invariant 0 <= i <= 3 && extStart + i <= |name| && |out| == 11
      invariant forall j | 0 <= j < 8 :: out[j] == NameByte(name, j)
      invariant forall j | 8 <= j < 11 :: out[j] == if j < 8 + i then NameByte(name, j) else SPACE
    {
      out := out[8 + i := Up(name[extStart + i])];
      i := i + 1;
    }
    assert out == Name11(name);
  }

  lemma {:induction false} SliceStep(img: seq<byte>, o: nat, n: nat, k: nat)
    requires k <= n
    ensures Slice(img, o, n)[..k] == Slice(img, o, k) && Slice(img, o, n)[k..] == Slice(img, o + k, n - k)
  {
  }

  lemma {:induction false} ScanStep(img: seq<byte>, o: nat, n: nat, n11: seq<byte>)
    requires n >= 32 && |n11| == 11
    ensures var v := Match(Slice(img, o, 32), n11);
      Scan(Slice(img, o, n), n11) == if v.Skip? then Scan(Slice(img, o + 32, n - 32), n11) else v
  {
    SliceStep(img, o, n, 32);
    hide Match;
  }

  /** The mounted image and its geometry. */
  class Reader {
    var img: seq<byte>
    var mounted: bool   // an image has been set
    var fs: Fs

    /** fat_mount */
    method Mount(image: seq<byte>) returns (rc: int)
      modifies this
      ensures rc == (if MountOf(image).Ok? then 0 else MountOf(image).code) && (rc == 0 <==> MountOf(image).Ok?)
      ensures |image| < 1024 ==> img == old(img) && mounted == old(mounted)
      ensures |image| >= 1024 ==> img == image && mounted
      ensures fs == if MountOf(image).Ok? then MountOf(image).fs
                    else if rc == -5 then old(fs).(spc := SpcField(image), rootEntries := RootField(image)) else old(fs)
    {
      hide At16, At32, Wrap32;
      if |image| < 1024 {
        return -1;
      }
      img, mounted := image, true;
      if At16(img, 510) != 0xAA55 {
        return -1;
      }
      var part := At32(img, 446 + 8);
      if part == 0 {
        return -2;
      }
      var bpb := part * 512;
      if At16(img, bpb + 510) != 0xAA55 {
        return -3;
      }
      if At16(img, bpb + 11) != 512 {
        return -4;
      }
      rc := Geometry(part, bpb);
    }

    /** The geometry fields; the first two are assigned before they are checked. */
    method Geometry(part: nat, bpb: nat) returns (rc: int)
      modifies `fs
      ensures rc == if At(img, bpb + 13) == 0 || At(img, bpb + 16) == 0 || At16(img, bpb + 22) == 0 then -5 else 0
      ensures rc != 0 ==> fs == old(fs).(spc := At(img, bpb + 13), rootEntries := At16(img, bpb + 17))
      ensures rc == 0 ==> fs == GeometryAt(img, part, bpb)
    {
      hide At16, Wrap32;
      var reserved, numFats, secPerFat := At16(img, bpb + 14), At(img, bpb + 16), At16(img, bpb + 22);
      fs := fs.(spc := At(img, bpb + 13), rootEntries := At16(img, bpb + 17));
      if fs.spc == 0 || numFats == 0 || secPerFat == 0 {
        return -5;
      }
      fs := fs.(fatLba := Wrap32(part + reserved));
      fs := fs.(rootLba := Wrap32(fs.fatLba + numFats * secPerFat));
      fs := fs.(dataLba := Wrap32(fs.rootLba + (fs.rootEntries * 32 + 511) / 512));
      return 0;
    }

    /** match_entry */
    method MatchEntry(o: nat, n11: seq<byte>) returns (v: Verdict)
      requires |n11| == 11
      ensures v == Match(Slice(img, o, 32), n11)
    {
      var e := Slice(img, o, 32);
      if e[0] == 0 {
        return End;
      }
      if e[0] == 0xE5 {
        return Skip;
      }
      var attr := e[11];
      if attr % 16 == 15 {
        return Skip;
      }
      if attr / 8 % 2 == 1 {
        return Skip;
      }
      for i := 0 to 11
        invariant e[..i] == n11[..i]
      {
        if e[i] != n11[i] {
          assert e[..11][i] != n11[i];
          return Skip;
        }
      }
      assert n11[..11] == n11;
      return Hit(Rd16(e, 26), Rd32(e, 28), attr / 16 % 2 == 1);
    }

    /** The entries of one region of a directory. */
    method ScanEntries(o: nat, count: nat, n11: seq<byte>) returns (v: Verdict)
      requires |n11| == 11
      ensures v == Scan(Slice(img, o, 32 * count), n11)
    {
      hide Match, Scan, Slice;
      ghost var goal := Scan(Slice(img, o, 32 * count), n11);
      var e, i := o, 0;
      while i < count
        invariant 0 <= i <= count && goal == Scan(Slice(img, e, 32 * (count - i)), n11)
      {
        ScanStep(img, e, 32 * (count - i), n11);
        v := MatchEntry(e, n11);
        if v != Skip {
          return;
        }
        e, i := e + 32, i + 1;
      }
      ScanNothing(img, e, n11);
      return Skip;
    }

    /** dir_find; a search along a chain that never ends does not return. */
    method Find(dir: nat, n11: seq<byte>) returns (r: Lookup)
      requires |n11| == 11 && DirFind(img, fs, dir, n11) != Endless
      ensures r == DirFind(img, fs, dir, n11)
    {
      hide Scan, Slice, Next, ClusterOff, ChainFind;
      if dir == 0 {
        var v := ScanEntries(fs.rootLba * 512, fs.rootEntries, n11);
        return Outcome(v);
      }
      var c := dir;
      ghost var fuel := ALL_CLUSTERS;
      while 2 <= c && c < 0xFFF8
        invariant c >= 0 && ChainFind(img, fs, c, n11, fuel) == DirFind(img, fs, dir, n11)
        decreases fuel
      {
        ChainStep(img, fs, c, n11, fuel);
        var v := ScanEntries(ClusterOff(fs, c), fs.spc * 512 / 32, n11);
        if v != Skip {
          return Outcome(v);
        }
        c, fuel := Next(img, fs, c), fuel - 1;
      }
      ChainStep(img, fs, c, n11, fuel);
      return Missing;
    }

    /** path_lookup */
    method Resolve(path: seq<byte>) returns (r: Lookup)
      requires LookupPath(img, fs, path) != Endless
      ensures r == LookupPath(img, fs, path)
    {
      hide DirFind, SkipSlashes, LookupFrom, Name11, Taken;
      var cur := 0;
      var p := Slashes(path, 0);
      assert path[0..] == path;
      if p == |path| {
        return Found(0, 0, true);
      }
      while p < |path|
        invariant 0 <= p < |path| && !IsSlash(path[p]) && cur >= 0
        invariant LookupFrom(img, fs, cur, path[p..]) == LookupPath(img, fs, path)
      {
        var n := TakeComponent(path, p);
        var q := Slashes(path, p + n);
        LookupStep(img, fs, cur, path, p, n);
        var n11 := Encode(path[p..p + n]);
        r := Find(cur, n11);
        if !r.Found? || q == |path| {
          return;
        }
        if !r.isDir {
          return Missing;
        }
        cur, p := r.clus, q;
      }
      return Missing;
    }

    /** copy_chain, and with it fat_read_into once the path is resolved. */
    method CopyChain(clus: nat, lim: nat, dst: array<byte>) returns (done: nat)
      requires lim <= dst.Length && (lim > 0 ==> CopyEnds(img, fs, clus))
      modifies dst
      ensures done <= lim && dst[..done] == ChainBytes(img, fs, clus, lim)
      ensures forall i | done <= i < dst.Length :: dst[i] == old(dst[i])
    {
      hide Next, ClusterOff, ChainBytes, Nth, Slice, CopyEnds;
      var csize := fs.spc * 512;
      ghost var goal := ChainBytes(img, fs, clus, lim);
      var c := clus;
      done := 0;
      ghost var left: nat := if lim > 0 then ToEnd(img, fs, clus) else 0;
      while done < lim && 2 <= c && c < 0xFFF8
        invariant 0 <= done <= lim && c >= 0 && (fs.spc == 0 && lim > 0 ==> !IsCluster(Nth(img, fs, c, left)))
        invariant dst[..done] + ChainBytes(img, fs, c, lim - done) == goal
        invariant forall i | done <= i < dst.Length :: dst[i] == old(dst[i])
        decreases lim - done, left
      {
        if fs.spc == 0 {
          NthNext(img, fs, c, left);
          left := left - 1;
        }
        var want := lim - done;
        if want > csize {
          want := csize;
        }
        BytesTurn(img, fs, c, lim - done, dst[..done]);
        CopyCluster(ClusterOff(fs, c), want, dst, done);
        done, c := done + want, Next(img, fs, c);
      }
      NoBytes(img, fs, c, lim - done);
    }

    method CopyCluster(src: nat, want: nat, dst: array<byte>, done: nat)
      requires done + want <= dst.Length
      modifies dst
      ensures dst[..done + want] == old(dst[..done]) + Slice(img, src, want)
      ensures forall i | done + want <= i < dst.Length :: dst[i] == old(dst[i])
    {
      for i := 0 to want
        invariant forall k | 0 <= k < dst.Length ::
          dst[k] == if done <= k < done + i then At(img, src + (k - done)) else old(dst[k])
      {
        dst[done + i] := At(img, src + i);
      }
    }

    /** fat_file_size: -1 unless a volume is mounted and the path is a file. */
    method Size(path: seq<byte>) returns (rc: int, size: nat)
      requires mounted ==> LookupPath(img, fs, path) != Endless
      ensures var r := LookupPath(img, fs, path);
        if mounted && r.Found? && !r.isDir then rc == 0 && size == r.size else rc == -1
    {
      hide LookupPath;
      if !mounted {
        return -1, 0;
      }
      var r := Resolve(path);
      if !r.Found? || r.isDir {
        return -1, 0;
      }
      return 0, r.size;
    }

    /** fat_read_into: -1 unless a volume is mounted and the path is a file, else how many of its bytes, up to `cap`,
        were copied; nothing past those changes. */
    method ReadInto(path: seq<byte>, dst: array<byte>, cap: nat) returns (rc: int, got: nat)
      requires mounted ==> LookupPath(img, fs, path) != Endless
      requires mounted && LookupPath(img, fs, path).Found? ==> CopyEnds(img, fs, LookupPath(img, fs, path).clus)
      requires cap <= dst.Length
      modifies dst
      ensures !mounted ==> rc == -1 && got == 0 && dst[..] == old(dst[..])
      ensures mounted ==>
        var r := LookupPath(img, fs, path);
        if !r.Found? || r.isDir then rc == -1 && got == 0 && dst[..] == old(dst[..])
        else
          var all := ChainBytes(img, fs, r.clus, if r.size < cap then r.size else cap);
          rc == 0 && got == |all| <= cap && dst[..got] == all
      ensures forall i | got <= i < dst.Length :: dst[i] == old(dst[i])
    {
      hide LookupPath, ChainBytes, CopyEnds;
      if !mounted {
        return -1, 0;
      }
      var r := Resolve(path);
      if !r.Found? || r.isDir {
        return -1, 0;
      }
      var lim := if r.size < cap then r.size else cap;
      got := CopyChain(r.clus, lim, dst);
      return 0, got;
    }
  }

  /** How far the end of the chain is, for one that has clusters of no sectors. */
  ghost function ToEnd(img: seq<byte>, fs: Fs, c: nat): (n: nat)
    requires CopyEnds(img, fs, c)
    ensures fs.spc == 0 ==> !IsCluster(Nth(img, fs, c, n))
  {
    if fs.spc > 0 then 0 else
    var n: nat :| !IsCluster(Nth(img, fs, c, n));
    n
  }

  lemma {:induction false} BytesTurn(img: seq<byte>, fs: Fs, c: nat, lim: nat, before: seq<byte>)
    requires lim > 0 && IsCluster(c)
    ensures var want := if lim > fs.spc * 512 then fs.spc * 512 else lim;
      before + ChainBytes(img, fs, c, lim)
      == before + Slice(img, ClusterOff(fs, c), want) + ChainBytes(img, fs, Next(img, fs, c), lim - want)
  {
    hide Slice, ClusterOff, Next;
  }

  lemma {:induction false} NoBytes(img: seq<byte>, fs: Fs, c: nat, lim: nat)
    requires lim == 0 || !IsCluster(c)
    ensures ChainBytes(img, fs, c, lim) == []
  {
  }

  lemma {:induction false} NthNext(img: seq<byte>, fs: Fs, c: nat, n: nat)
    requires IsCluster(c) && !IsCluster(Nth(img, fs, c, n))
    ensures n > 0 && !IsCluster(Nth(img, fs, Next(img, fs, c), n - 1))
  {
    hide Next;
    if n > 0 {
      NthShift(img, fs, c, n - 1);
    }
  }

  lemma {:induction false} ChainStep(img: seq<byte>, fs: Fs, c: nat, n11: seq<byte>, fuel: nat)
    requires |n11| == 11
    ensures !IsCluster(c) ==> ChainFind(img, fs, c, n11, fuel) == Missing
    ensures IsCluster(c) && fuel == 0 ==> ChainFind(img, fs, c, n11, fuel) == Endless
    ensures IsCluster(c) && fuel > 0 ==>
      var v := Scan(Slice(img, ClusterOff(fs, c), 32 * (fs.spc * 512 / 32)), n11);
      ChainFind(img, fs, c, n11, fuel) ==
      if v.Skip? then ChainFind(img, fs, Next(img, fs, c), n11, fuel - 1) else Outcome(v)
  {
    hide Scan, Slice, Next, ClusterOff;
    WholeEntries(fs.spc);
  }

  lemma {:induction false} WholeEntries(spc: nat)
    ensures 32 * (spc * 512 / 32) == spc * 512
  {
    assert spc * 512 == (spc * 16) * 32;
  }

  lemma {:induction false} ScanNothing(img: seq<byte>, e: nat, n11: seq<byte>)
    requires |n11| == 11
    ensures Scan(Slice(img, e, 0), n11) == Skip
  {
  }

  /** Length of the component at `p`, at most 15. */
  method TakeComponent(path: seq<byte>, p: nat) returns (n: nat)
    requires p < |path| && !IsSlash(path[p])
    ensures n == Taken(path[p..]) && 0 < n <= |path| - p
  {
    n := 0;
    while p + n < |path| && !IsSlash(path[p + n]) && n < 15
      invariant p + n <= |path| && n <= 15 && CompLen(path[p..]) == n + CompLen(path[p + n..])
    {
      assert path[p + n..][1..] == path[p + n + 1..];
      n := n + 1;
    }
  }

  lemma {:induction false} LookupStep(img: seq<byte>, fs: Fs, dir: nat, path: seq<byte>, p: nat, n: nat)
    requires p < |path| && !IsSlash(path[p]) && n == Taken(path[p..])
    ensures n <= |path| - p
    ensures var rest := SkipSlashes(path[p + n..]);
      var r := DirFind(img, fs, dir, Name11(path[p..p + n]));
      LookupFrom(img, fs, dir, path[p..]) ==
      if rest == [] || !r.Found? then r else if !r.isDir then Missing else LookupFrom(img, fs, r.clus, rest)
  {
    hide DirFind, SkipSlashes, Name11, Taken;
    assert path[p..][..n] == path[p..p + n] && path[p..][n..] == path[p + n..];
  }
}
