/** What is read back from an image the builder made: a file is found by its path exactly as its names allow, and then
    its size and bytes are those that were put there. */
module FatRoundTrip {
  import opened Bits
  import opened FatNames
  import opened FatTree
  import opened FatSizing
  import opened FatVolume
  import opened FatRead
  import opened FatSearch
  import FatBuild

  // ---------------------------------------------------------------- paths

  /** Look up the components one after the other, from directory `dir` on. */
  function WalkFrom(img: seq<byte>, fs: Fs, dir: nat, comps: seq<seq<byte>>): Lookup
    requires comps != []
    decreases |comps|
  {
    var r := DirFind(img, fs, dir, Name11(comps[0]));
    if |comps| == 1 || !r.Found? then r
    else if !r.isDir then Missing
    else WalkFrom(img, fs, r.clus, comps[1..])
  }

  ghost predicate AllShort(comps: seq<seq<byte>>) { forall i | 0 <= i < |comps| :: |comps[i]| <= 15 }

  lemma {:induction false} ComponentsHead(path: seq<byte>)
    requires path != [] && !IsSlash(path[0])
    ensures var n := CompLen(path);
      var rest := SkipSlashes(path[n..]);
      && Components(path) == [path[..n]] + Components(rest)
      && (Components(rest) == [] <==> rest == [])
  {
    SkipTwice(path[CompLen(path)..]);
  }

  /** As long as no component exceeds what the reader takes at once, it goes by components. */
  lemma {:induction false} LookupWalks(img: seq<byte>, fs: Fs, dir: nat, path: seq<byte>)
    requires path != [] && !IsSlash(path[0]) && AllShort(Components(path))
    ensures Components(path) != [] && LookupFrom(img, fs, dir, path) == WalkFrom(img, fs, dir, Components(path))
    decreases |path|
  {
    var n := CompLen(path);
    var rest := SkipSlashes(path[n..]);
    assert path[0..] == path && path[0..n] == path[..n];
    ComponentsHead(path);
    assert |path[..n]| == |Components(path)[0]| <= 15;
    assert Taken(path) == n;
    hide DirFind, Name11, Components, SkipSlashes, CompLen, Taken;
    var comps := Components(path);
    assert comps[1..] == Components(rest);
    if rest != [] {
      assert forall i | 0 <= i < |comps[1..]| :: comps[1..][i] == comps[i + 1];
      var r := DirFind(img, fs, dir, Name11(path[..n]));
      if r.Found? {
        LookupWalks(img, fs, r.clus, rest);
      }
    }
  }

  /** One component more. */
  lemma {:induction false} WalkSnoc(img: seq<byte>, fs: Fs, dir: nat, a: seq<seq<byte>>, x: seq<byte>)
    requires a != []
    ensures var r := WalkFrom(img, fs, dir, a);
      WalkFrom(img, fs, dir, a + [x]) ==
      if !r.Found? then r else if !r.isDir then Missing else DirFind(img, fs, r.clus, Name11(x))
    decreases |a|
  {
    hide DirFind, Name11;
    assert (a + [x])[1..] == a[1..] + [x];
    var r := DirFind(img, fs, dir, Name11(a[0]));
    if |a| > 1 && r.Found? {
      WalkSnoc(img, fs, r.clus, a[1..], x);
    }
  }

  /** Where a path that spells node `k` leads. */
  function NodeAt(t: seq<Node>, c: nat, k: nat): Lookup
    requires k < |t| && c > 0
  {
    if k == 0 then Found(0, 0, true) else Outcome(EntryOf(t, c, k))
  }

  /** Node `k` bears the name the reader asks for, 11 bytes that are neither taken for a deleted entry nor, below
      the root, for a dot entry, and no child before it was given the same. */
  predicate Bears(t: seq<Node>, k: nat)
    requires k < |t|
  {
    var d, n11 := t[k].parent, Name11(t[k].name);
    && Short(t, d, k) == n11 && Visible(n11) && (d != 0 ==> !Dotted(n11))
    && forall j | 1 <= j < k && t[j].parent == d :: Short(t, d, j) != n11
  }

  lemma {:induction false} FirstChildHas(t: seq<Node>, d: int, n11: seq<byte>, n: nat)
    requires n <= |t| && FirstChild(t, d, n11, n).Some?
    ensures var j := FirstChild(t, d, n11, n).value;
      && 1 <= j < n && t[j].parent == d && Short(t, d, j) == n11
      && forall i | 1 <= i < j && t[i].parent == d :: Short(t, d, i) != n11
    decreases n
  {
    hide Short;
    if FirstChild(t, d, n11, n - 1).Some? {
      FirstChildHas(t, d, n11, n - 1);
    } else {
      FirstChildAbsent(t, d, n11, n - 1);
    }
  }

  lemma {:induction false} FirstChildAbsent(t: seq<Node>, d: int, n11: seq<byte>, n: nat)
    requires n <= |t| && FirstChild(t, d, n11, n).None?
    ensures forall i | 1 <= i < n && t[i].parent == d :: Short(t, d, i) != n11
    decreases n
  {
    hide Short;
    if n > 1 {
      FirstChildAbsent(t, d, n11, n - 1);
    }
  }

  /** Nodes that have clusters start at different ones. */
  lemma {:induction false} FirstsDiffer(t: seq<Node>, c: nat, i: nat, j: nat)
    requires 1 <= i < |t| && 1 <= j < |t| && i != j && c > 0 && Need(t, i) > 0 && Need(t, j) > 0
    ensures First(t, c, i) != First(t, c, j)
  {
    CountPositive(t, c, i);
    CountPositive(t, c, j);
    if i < j {
      ChainsApart(t, c, i, j, 0, 0);
    } else {
      ChainsApart(t, c, j, i, 0, 0);
    }
  }

  lemma {:induction false} DirNeed(t: seq<Node>, d: nat)
    requires d < |t| && t[d].isDir
    ensures Need(t, d) > 0
  {
    hide EntryCount;
  }

  /** A dot entry never leads to a child that has clusters. */
  lemma {:induction false} DotDiffers(t: seq<Node>, c: nat, k: nat)
    requires Valid(t) && 1 <= k < |t| && c > 0 && Need(t, k) > 0
    ensures var d := t[k].parent; 0 <= d < k && (d > 0 ==> 0 <= t[d].parent < |t|)
    ensures DotHit(t, c, t[k].parent, Name11(t[k].name)) != EntryOf(t, c, k)
  {
    var d := t[k].parent;
    ParentIn(t, k);
    ParentIn(t, d);
    assert First(t, c, k) >= 2;
    if d > 0 {
      DirNeed(t, d);
      FirstsDiffer(t, c, d, k);
      if t[d].parent > 0 {
        DirNeed(t, t[d].parent);
        FirstsDiffer(t, c, t[d].parent, k);
      }
    }
    hide Valid, Need, First, Name11;
  }

  lemma {:induction false} AnswerBears(t: seq<Node>, c: nat, k: nat)
    requires Valid(t) && 1 <= k < |t| && c > 0 && Bears(t, k)
    ensures var d := t[k].parent; 0 <= d < k && (d > 0 ==> 0 <= t[d].parent < |t|)
    ensures Answer(t, c, t[k].parent, Name11(t[k].name)) == EntryOf(t, c, k)
  {
    ParentIn(t, k);
    ParentIn(t, t[k].parent);
    hide Valid, Short, First, Name11;
    FirstChildIs(t, t[k].parent, Name11(t[k].name), |t|, k);
  }

  /** A search for the name of a node that has clusters answers with that node only if the node bears the name. */
  lemma {:induction false} AnswerOnlyBears(t: seq<Node>, c: nat, k: nat)
    requires Valid(t) && 1 <= k < |t| && c > 0 && Need(t, k) > 0
    requires 0 <= t[k].parent < |t| && (t[k].parent > 0 ==> 0 <= t[t[k].parent].parent < |t|)
    requires Answer(t, c, t[k].parent, Name11(t[k].name)) == EntryOf(t, c, k)
    ensures Bears(t, k)
  {
    var d, n11 := t[k].parent, Name11(t[k].name);
    DotDiffers(t, c, k);
    hide Valid, Short, Name11, Need;
    var r := FirstChild(t, d, n11, |t|);
    assert r.Some?;
    FirstChildHas(t, d, n11, |t|);
    var j := r.value;
    if j != k {
      if Need(t, j) > 0 {
        FirstsDiffer(t, c, j, k);
      }
    }
  }

  /** The first child of `d` that was given the name. */
  predicate FirstWith(t: seq<Node>, d: int, n11: seq<byte>, j: nat)
    requires j < |t|
  {
    t[j].parent == d && Short(t, d, j) == n11 && forall i | 1 <= i < j && t[i].parent == d :: Short(t, d, i) != n11
  }

  /** Node `k` bears its name or, an empty file, has another one stand in for it: their entries do not differ. */
  predicate Answered(t: seq<Node>, k: nat)
    requires k < |t|
  {
    var d, n11 := t[k].parent, Name11(t[k].name);
    || Bears(t, k)
    || (&& Need(t, k) == 0 && Visible(n11) && (d != 0 ==> !Dotted(n11))
        && exists j | 1 <= j < |t| :: Need(t, j) == 0 && FirstWith(t, d, n11, j))
  }

  lemma {:induction false} AnswerStandIn(t: seq<Node>, c: nat, k: nat, j: nat)
    requires Valid(t) && 1 <= k < |t| && c > 0 && Need(t, k) == 0 && 1 <= j < |t| && Need(t, j) == 0
    requires var d, n11 := t[k].parent, Name11(t[k].name);
      FirstWith(t, d, n11, j) && Visible(n11) && (d != 0 ==> !Dotted(n11))
    ensures var d := t[k].parent; 0 <= d < k && (d > 0 ==> 0 <= t[d].parent < |t|)
    ensures Answer(t, c, t[k].parent, Name11(t[k].name)) == EntryOf(t, c, k)
  {
    ParentIn(t, k);
    ParentIn(t, t[k].parent);
    EmptyEntry(t, c, j);
    EmptyEntry(t, c, k);
    hide Valid, Short, First, Name11, Need;
    FirstChildIs(t, t[k].parent, Name11(t[k].name), |t|, j);
  }

  lemma {:induction false} EmptyEntry(t: seq<Node>, c: nat, k: nat)
    requires 1 <= k < |t| && c > 0
    ensures Need(t, k) == 0 <==> EntryOf(t, c, k) == Hit(0, 0, false)
  {
    hide EntryCount, Demand;
  }

  lemma {:induction false} AnswerOnlyEmpty(t: seq<Node>, c: nat, k: nat)
    requires Valid(t) && 1 <= k < |t| && c > 0 && Need(t, k) == 0
    requires 0 <= t[k].parent < |t| && (t[k].parent > 0 ==> 0 <= t[t[k].parent].parent < |t|)
    requires Answer(t, c, t[k].parent, Name11(t[k].name)) == EntryOf(t, c, k)
    ensures Answered(t, k)
  {
    hide Valid, Short, Name11, Need, Bears, First;
    var d, n11 := t[k].parent, Name11(t[k].name);
    EmptyEntry(t, c, k);
    var r := FirstChild(t, d, n11, |t|);
    assert r.Some?;
    FirstChildHas(t, d, n11, |t|);
    EmptyEntry(t, c, r.value);
    assert Need(t, r.value) == 0 && FirstWith(t, d, n11, r.value);
  }

  /** On every built image, for every node: asking its directory for its name gives its entry if and only if it bears
      that name, or is an empty file that another one stands in for. */
  lemma {:induction false} FoundIff(img: seq<byte>, t: seq<Node>, g: Geo, k: nat)
    requires Built(img, t, g) && Strings(t) && 1 <= k < |t|
    ensures ClusterBytes(g) > 0 && 0 <= t[k].parent < k
    ensures var c := ClusterBytes(g);
      DirFind(img, FsOf(g), DirClus(t, c, t[k].parent), Name11(t[k].name)) == NodeAt(t, c, k) <==> Answered(t, k)
    ensures Need(t, k) > 0 ==> (Answered(t, k) <==> Bears(t, k))
  {
    hide Built, Strings, DirFind, Answer, Bears, Need;
    BuiltFacts(img, t, g);
    var c, d, n11 := ClusterBytes(g), t[k].parent, Name11(t[k].name);
    ParentIn(t, k);
    hide Valid, FatOk, HeaderOk, Holds, Name11, Searchable, FirstWith;
    DirFindIs(img, t, g, d, n11);
    if Bears(t, k) {
      AnswerBears(t, c, k);
    } else if Answered(t, k) {
      var j :| 1 <= j < |t| && Need(t, j) == 0 && FirstWith(t, d, n11, j);
      AnswerStandIn(t, c, k, j);
    } else if Answer(t, c, d, n11) == EntryOf(t, c, k) {
      if Need(t, k) > 0 {
        AnswerOnlyBears(t, c, k);
      } else {
        AnswerOnlyEmpty(t, c, k);
      }
    }
  }

  /** A condition on names alone: a node that fits 8.3, has no tilde, does not start with 0xE5, is not a dot name below
      the root and encodes unlike every 8.3 node before it in its directory bears its name. */
  lemma {:induction false} PlainBears(t: seq<Node>, k: nat)
    requires Valid(t) && 1 <= k < |t| && Fits83(t[k].name) && TILDE !in t[k].name && t[k].name[0] != 0xE5
    requires t[k].parent != 0 ==> !Dotted(Name11(t[k].name))
    requires forall j | 1 <= j < k && t[j].parent == t[k].parent && Fits83(t[j].name) ::
      Name11(t[j].name) != Name11(t[k].name)
    ensures Bears(t, k)
  {
    var d, n11 := t[k].parent, Name11(t[k].name);
    NameHead(t[k].name);
    forall j | 1 <= j < k && t[j].parent == d
      ensures Short(t, d, j) != n11
    {
      ShortsDistinct(t, d, j, k);
    }
  }

  lemma {:induction false} NameHead(name: seq<byte>)
    requires Fits83(name) && name[0] != 0xE5
    ensures Name11(name)[0] != 0xE5
  {
    assert Name11(name)[0] == NameByte(name, 0);
  }

  // ---------------------------------------------------------------- a file that cannot be read back

  /** The files a.bcde and A~1.BCD, with one and two bytes: the alias of the first, which does not look ahead, takes
      the name of the second. */
  predicate Shadowing(t: seq<Node>) {
    && |t| == 3 && t[0] == ROOT
    && t[1] == Node([97, 46, 98, 99, 100, 101], 0, false, Stored([1]))
    && t[2] == Node([65, 126, 49, 46, 66, 67, 68], 0, false, Stored([2, 3]))
  }

  lemma {:induction false} ShadowNames(t: seq<Node>)
    requires Shadowing(t)
    ensures Valid(t) && Strings(t) && Short(t, 0, 1) == Name11(t[2].name) && Visible(Name11(t[2].name))
  {
    ShadowValid(t);
    hide Valid, Strings, Alias, Fits83, Name11;
    DotAt(t[1].name, 1);
    LongAlias(t[1].name);
    LongShort(t);
    TildeName(t[2].name);
  }

  lemma {:induction false} ShadowValid(t: seq<Node>)
    requires Shadowing(t)
    ensures Valid(t) && Strings(t)
  {
  }

  lemma {:induction false} LongShort(t: seq<Node>)
    requires Shadowing(t) && LastDot(t[1].name) == 1 && |Alias(t[1].name, 1)| == 11
    ensures Short(t, 0, 1) == Alias(t[1].name, 1)
  {
    hide Alias, LastDot;
    assert Used(t, 0, 1) == [];
  }

  lemma {:induction false} TildeName(short: seq<byte>)
    requires short == [65, 126, 49, 46, 66, 67, 68]
    ensures Name11(short) == [65, 126, 49, 32, 32, 32, 32, 32, 66, 67, 68]
  {
    DotAt(short, 3);
    hide LastDot;
  }

  lemma {:induction false} DotAt(s: seq<byte>, d: nat)
    requires d < |s| && s[d] == DOT && forall i | d < i < |s| :: s[i] != DOT
    ensures LastDot(s) == d
  {
    var e := LastDot(s);
    hide LastDot;
  }

  lemma {:induction false} LongAlias(long: seq<byte>)
    requires long == [97, 46, 98, 99, 100, 101] && LastDot(long) == 1
    ensures Alias(long, 1) == [65, 126, 49, 32, 32, 32, 32, 32, 66, 67, 68]
  {
    hide LastDot;
    var ext := long[2..];
    assert ext == [98, 99, 100, 101];
    assert Alnums(long, 0, 31) == [];
    assert Alnums(long, 1, 31) == [65];
    assert AliasStem(long) == [65];
    assert Alnums(ext, 0, 3) == [];
    assert Alnums(ext, 1, 3) == [66];
    assert Alnums(ext, 2, 3) == [66, 67];
    assert Alnums(ext, 3, 3) == [66, 67, 68];
    assert Alnums(ext, 4, 3) == [66, 67, 68];
    assert AliasExt(long) == [66, 67, 68];
    hide Alnums, AliasStem, AliasExt;
    assert Digits(1) == [49];
    var head := [65] + ([TILDE] + [49]);
    assert AliasStem(long)[..Kept(long, 2)] == [65];
    assert Alias(long, 1) == Pad(head, 8) + Pad([66, 67, 68], 3);
  }

  lemma {:induction false} PlainComponent(s: seq<byte>)
    requires s != [] && forall i | 0 <= i < |s| :: !IsSlash(s[i])
    ensures CompLen(s) == |s| && Components(s) == [s] && SkipSlashes(s) == s
  {
    PlainLength(s);
    assert s[|s|..] == [] && s[..|s|] == s;
    assert Components([]) == [];
  }

  lemma {:induction false} PlainLength(s: seq<byte>)
    requires forall i | 0 <= i < |s| :: !IsSlash(s[i])
    ensures CompLen(s) == |s|
    decreases |s|
  {
    if s != [] {
      PlainLength(s[1..]);
    }
  }

  /** On every image of these two files, reading the second by its own name gives the size and the byte of the
      first. */
  lemma {:induction false} TildeShadowed(img: seq<byte>, t: seq<Node>, g: Geo, path: seq<byte>)
    requires Shadowing(t) && Built(img, t, g) && path == t[2].name
    ensures FsOf(g).spc > 0 && Spells(t, 2, Components(path)) && Unpacked(t[2].payload) == Some([2, 3])
    ensures var r := LookupPath(img, FsOf(g), path);
      r.Found? && r.size == 1 && ChainBytes(img, FsOf(g), r.clus, r.size) == [1]
  {
    hide Built, DirFind, FirstChild, Short, Name11, CompLen, SkipSlashes, Components, ChainBytes, First, Valid, Strings,
         UpAll, LookupPath;
    ShadowNames(t);
    PlainComponent(path);
    ShadowSpells(t, path);
    FileCopies(img, t, g, 1);
    DirFindIs(img, t, g, 0, Name11(path));
    FirstChildIs(t, 0, Name11(path), 3, 1);
    LookupOne(img, FsOf(g), path);
  }

  lemma {:induction false} ShadowSpells(t: seq<Node>, path: seq<byte>)
    requires |t| == 3 && t[2].parent == 0 && path == t[2].name && |path| <= 15
    ensures Spells(t, 2, [path])
  {
    hide UpAll;
    assert Cut(path) == path && [path][..0] == [];
  }

  lemma {:induction false} LookupOne(img: seq<byte>, fs: Fs, path: seq<byte>)
    requires 0 < |path| <= 15 && SkipSlashes(path) == path && CompLen(path) == |path| && !IsSlash(path[0])
    ensures LookupPath(img, fs, path) == DirFind(img, fs, 0, Name11(path))
  {
    hide DirFind, Name11;
    assert path[..|path|] == path && path[|path|..] == [];
    assert SkipSlashes([]) == [];
  }

  /** Such an image is what the builder makes of an archive with these two members. */
  lemma {:induction false} ShadowingBuilt(ms: seq<Member>, t: seq<Node>)
    requires Shadowing(t) && ms == [Member(t[1].name, Stored([1])), Member(t[2].name, Stored([2, 3]))]
    ensures AddAll(ms, |ms|) == Some(t) && FatBuild.Buildable(t)
  {
    hide Components, SkipSlashes, CompLen, FatBuild.Buildable;
    AddPlain([ROOT], t[1].name, Stored([1]));
    AddPlain([ROOT, t[1]], t[2].name, Stored([2, 3]));
    assert [ROOT] + [t[1]] == [ROOT, t[1]] && [ROOT, t[1]] + [t[2]] == t;
    hide AddPath;
    assert AddAll(ms, 0) == Some([ROOT]);
    assert AddAll(ms, 1) == Some([ROOT, t[1]]);
    ShadowBuildable(t);
  }

  lemma {:induction false} AddPlain(t: seq<Node>, path: seq<byte>, payload: Payload)
    requires 1 <= |t| < MAX_NODES && 0 < |path| <= NAME_MAX && forall i | 0 <= i < |path| :: !IsSlash(path[i])
    ensures AddPath(t, path, payload) == Some(t + [Node(path, 0, false, payload)])
  {
    PlainComponent(path);
    hide Components;
  }

  lemma {:induction false} ShadowBuildable(t: seq<Node>)
    requires Shadowing(t)
    ensures FatBuild.Buildable(t)
  {
    hide Fits83;
    assert EntryCount(t, 0, 1) == 0;
    assert EntryCount(t, 0, 2) <= 2;
    assert EntryCount(t, 0, 3) <= 4;
  }

  // ---------------------------------------------------------------- following a path

  /** Node `k` can be found by a path: the reader takes its name in one piece, and it bears that name. */
  predicate Findable(t: seq<Node>, k: nat)
    requires k < |t|
  {
    |t[k].name| <= 15 && Bears(t, k)
  }

  /** Every node from the root down to `k` can be found. */
  predicate PathFindable(t: seq<Node>, k: int)
    decreases k
  {
    k == 0 || (1 <= k < |t| && Findable(t, k) && t[k].parent < k && PathFindable(t, t[k].parent))
  }

  lemma {:induction false} FindNode(img: seq<byte>, t: seq<Node>, g: Geo, k: nat, comp: seq<byte>)
    requires Built(img, t, g) && Strings(t) && 1 <= k < |t| && Findable(t, k) && UpAll(t[k].name) == UpAll(comp)
    ensures ClusterBytes(g) > 0 && 0 <= t[k].parent < k && t[t[k].parent].isDir
    ensures var c := ClusterBytes(g);
      && NodeAt(t, c, t[k].parent).isDir
      && DirFind(img, FsOf(g), NodeAt(t, c, t[k].parent).clus, Name11(comp)) == NodeAt(t, c, k)
  {
    hide Built, Strings, DirFind, Answer, Bears;
    BuiltFacts(img, t, g);
    var d := t[k].parent;
    ParentIn(t, k);
    CaseBlind(t[k].name, comp);
    hide Valid, FatOk, HeaderOk, Searchable, FirstChild, Holds, First, Name11;
    DirFindIs(img, t, g, d, Name11(comp));
    AnswerBears(t, ClusterBytes(g), k);
  }

  /** Walking the components that spell node `k` leads to its entry. */
  lemma {:induction false} SpellsFound(img: seq<byte>, t: seq<Node>, g: Geo, k: nat, comps: seq<seq<byte>>)
    requires Built(img, t, g) && Strings(t) && 1 <= k < |t| && PathFindable(t, k)
    requires Spells(t, k, comps) && AllShort(comps)
    ensures ClusterBytes(g) > 0 && comps != []
    ensures WalkFrom(img, FsOf(g), 0, comps) == NodeAt(t, ClusterBytes(g), k)
    decreases |comps|
  {
    hide Built, Strings, Findable, DirFind, NodeAt, AllShort, PathFindable, Spells, WalkFrom, UpAll, Name11;
    SpellsFacts(t, k, comps);
    var n := |comps| - 1;
    var d, last, init := t[k].parent, comps[n], comps[..n];
    FindNode(img, t, g, k, last);
    assert comps == init + [last];
    if d == 0 {
      SpellsRoot(t, init);
      WalkOne(img, FsOf(g), 0, last);
      NodeFound(t, ClusterBytes(g), 0);
    } else {
      AllShortPrefix(comps, n);
      SpellsFound(img, t, g, d, init);
      WalkSnoc(img, FsOf(g), 0, init, last);
      NodeFound(t, ClusterBytes(g), d);
    }
  }

  lemma {:induction false} SpellsFacts(t: seq<Node>, k: nat, comps: seq<seq<byte>>)
    requires 1 <= k < |t| && PathFindable(t, k) && Spells(t, k, comps) && AllShort(comps)
    ensures comps != [] && Findable(t, k)
    ensures var n := |comps| - 1;
      && UpAll(t[k].name) == UpAll(comps[n])
      && Spells(t, t[k].parent, comps[..n]) && PathFindable(t, t[k].parent)
  {
    hide Findable, UpAll;
    assert Cut(comps[|comps| - 1]) == comps[|comps| - 1];
  }

  lemma {:induction false} WalkOne(img: seq<byte>, fs: Fs, dir: nat, x: seq<byte>)
    ensures WalkFrom(img, fs, dir, [] + [x]) == DirFind(img, fs, dir, Name11(x))
  {
    hide DirFind, Name11;
  }

  lemma {:induction false} AllShortPrefix(comps: seq<seq<byte>>, n: nat)
    requires AllShort(comps) && n <= |comps|
    ensures AllShort(comps[..n])
  {
  }

  lemma {:induction false} SpellsRoot(t: seq<Node>, comps: seq<seq<byte>>)
    requires Spells(t, 0, comps)
    ensures comps == []
  {
  }

  lemma {:induction false} NodeFound(t: seq<Node>, c: nat, k: nat)
    requires k < |t| && c > 0
    ensures NodeAt(t, c, k).Found?
    ensures k == 0 ==> NodeAt(t, c, k).clus == 0
  {
  }

  lemma {:induction false} SpellsLast(t: seq<Node>, k: int, comps: seq<seq<byte>>)
    requires PathFindable(t, k) && Spells(t, k, comps) && comps != []
    ensures 1 <= k < |t| && |t[k].name| <= 15 && UpAll(t[k].name) == UpAll(Cut(comps[|comps| - 1]))
    ensures Spells(t, t[k].parent, comps[..|comps| - 1]) && PathFindable(t, t[k].parent)
  {
    assert Findable(t, k);
    hide UpAll, Cut, Bears;
  }

  /** What a findable node is spelled by is short. */
  lemma {:induction false} SpellsShort(t: seq<Node>, k: int, comps: seq<seq<byte>>)
    requires PathFindable(t, k) && Spells(t, k, comps)
    ensures AllShort(comps)
    decreases |comps|
  {
    hide PathFindable, Spells, UpAll, Cut;
    if comps != [] {
      var n := |comps| - 1;
      SpellsLast(t, k, comps);
      CompShort(t[k].name, comps[n]);
      SpellsShort(t, t[k].parent, comps[..n]);
      assert forall i | 0 <= i < n :: comps[i] == comps[..n][i];
    }
  }

  lemma {:induction false} CompShort(name: seq<byte>, comp: seq<byte>)
    requires |name| <= 15 && UpAll(name) == UpAll(Cut(comp))
    ensures |comp| <= 15
  {
    assert |name| == |UpAll(name)| == |Cut(comp)|;
    hide UpAll;
  }

  /** A path that spells a findable node resolves to its entry. */
  lemma {:induction false} PathResolves(img: seq<byte>, t: seq<Node>, g: Geo, k: nat, path: seq<byte>)
    requires Built(img, t, g) && Strings(t) && 1 <= k < |t| && PathFindable(t, k) && Spells(t, k, Components(path))
    ensures ClusterBytes(g) > 0 && LookupPath(img, FsOf(g), path) == NodeAt(t, ClusterBytes(g), k)
  {
    hide Built, Strings, Findable, DirFind, NodeAt, AllShort, PathFindable, Spells, LookupFrom, WalkFrom;
    SpellsShort(t, k, Components(path));
    SpellsFound(img, t, g, k, Components(path));
    var p := SkipSlashes(path);
    assert path[0..] == path;
    SkipSuffix(path);
    hide Components, SkipSlashes;
    LookupWalks(img, FsOf(g), 0, p);
  }

  // ---------------------------------------------------------------- a walk that goes astray does not come back

  /** How many names lead from the root to node `k`. */
  function Depth(t: seq<Node>, k: int): nat
    decreases if k < 0 then 0 else k
  {
    if 1 <= k < |t| && 0 <= t[k].parent < k then 1 + Depth(t, t[k].parent) else 0
  }

  lemma {:induction false} SpellsDepth(t: seq<Node>, k: int, comps: seq<seq<byte>>)
    requires Valid(t) && Spells(t, k, comps)
    ensures Depth(t, k) == |comps|
    decreases |comps|
  {
    hide UpAll, Cut;
    if comps != [] {
      ParentIn(t, k);
      SpellsDepth(t, t[k].parent, comps[..|comps| - 1]);
    }
  }

  /** A directory found in directory `d` is at most one name further from the root. */
  lemma {:induction false} AnswerDepth(t: seq<Node>, c: nat, d: nat, n11: seq<byte>) returns (e: nat)
    requires Valid(t) && d < |t| && t[d].isDir && c > 0 && |n11| == 11 && (d > 0 ==> 0 <= t[d].parent < |t|)
    requires Answer(t, c, d, n11).Hit? && Answer(t, c, d, n11).isDir
    ensures e < |t| && t[e].isDir && Outcome(Answer(t, c, d, n11)) == NodeAt(t, c, e) && Depth(t, e) <= Depth(t, d) + 1
  {
    ParentIn(t, d);
    if DotHit(t, c, d, n11).Hit? {
      e := if n11 == DotName() then d else t[d].parent;
    } else {
      FirstChildHas(t, d, n11, |t|);
      e := FirstChild(t, d, n11, |t|).value;
    }
  }

  /** A directory that a walk from the root leads to is no deeper than the walk is long. */
  lemma {:induction false} WalkDepth(img: seq<byte>, t: seq<Node>, g: Geo, comps: seq<seq<byte>>) returns (e: nat)
    requires Built(img, t, g) && Strings(t) && comps != []
    requires WalkFrom(img, FsOf(g), 0, comps).Found? && WalkFrom(img, FsOf(g), 0, comps).isDir
    ensures ClusterBytes(g) > 0 && e < |t| && t[e].isDir && Depth(t, e) <= |comps|
    ensures WalkFrom(img, FsOf(g), 0, comps) == NodeAt(t, ClusterBytes(g), e)
    decreases |comps|
  {
    hide Built, Strings, DirFind, Answer, Name11, NodeAt, WalkFrom, Depth, DirClus;
    var n := |comps| - 1;
    var last, init := comps[n], comps[..n];
    assert comps == init + [last];
    BuiltValid(img, t, g);
    hide Valid;
    var d := 0;
    if init == [] {
      WalkOne(img, FsOf(g), 0, last);
    } else {
      WalkSnoc(img, FsOf(g), 0, init, last);
      d := WalkDepth(img, t, g, init);
    }
    StepFrom(img, t, g, d, Name11(last));
    e := AnswerDepth(t, ClusterBytes(g), d, Name11(last));
    RootDepth(t);
  }

  /** Searching from where node `d` was found. */
  lemma {:induction false} StepFrom(img: seq<byte>, t: seq<Node>, g: Geo, d: nat, n11: seq<byte>)
    requires Built(img, t, g) && Strings(t) && d < |t| && t[d].isDir && |n11| == 11
    ensures ClusterBytes(g) > 0 && (d > 0 ==> 0 <= t[d].parent < |t|) && NodeAt(t, ClusterBytes(g), d).Found?
    ensures DirFind(img, FsOf(g), NodeAt(t, ClusterBytes(g), d).clus, n11)
         == Outcome(Answer(t, ClusterBytes(g), d, n11))
    ensures d == 0 ==> NodeAt(t, ClusterBytes(g), d).clus == 0
  {
    hide Built, Strings, DirFind, Answer, First;
    DirFindIs(img, t, g, d, n11);
  }

  lemma {:induction false} RootDepth(t: seq<Node>)
    ensures Depth(t, 0) == 0
  {
  }

  /** From a directory no deeper than its parent, node `k` is found only as the first child with the name. */
  lemma {:induction false} AnswerIsChild(t: seq<Node>, c: nat, d: nat, n11: seq<byte>, k: nat)
    requires Valid(t) && d < |t| && t[d].isDir && c > 0 && |n11| == 11 && (d > 0 ==> 0 <= t[d].parent < |t|)
    requires 1 <= k < |t| && Need(t, k) > 0 && Depth(t, d) < Depth(t, k)
    requires Answer(t, c, d, n11) == EntryOf(t, c, k)
    ensures t[k].parent == d
  {
    ParentIn(t, d);
    assert First(t, c, k) >= 2;
    if DotHit(t, c, d, n11).Hit? {
      var e := if n11 == DotName() then d else t[d].parent;
      assert Depth(t, e) <= Depth(t, d);
      DirNeed(t, e);
      if e > 0 {
        FirstsDiffer(t, c, e, k);
      }
    } else {
      FirstChildHas(t, d, n11, |t|);
      var j := FirstChild(t, d, n11, |t|).value;
      if j != k && Need(t, j) > 0 {
        FirstsDiffer(t, c, j, k);
      }
    }
  }

  /** A walk that leads to node `k` found every node on the way. */
  lemma {:induction false} WalkOnly(img: seq<byte>, t: seq<Node>, g: Geo, k: nat, comps: seq<seq<byte>>)
    requires Built(img, t, g) && Strings(t) && 1 <= k < |t| && Need(t, k) > 0 && Spells(t, k, comps) && AllShort(comps)
    requires comps != [] && ClusterBytes(g) > 0 && WalkFrom(img, FsOf(g), 0, comps) == NodeAt(t, ClusterBytes(g), k)
    ensures PathFindable(t, k)
    decreases |comps|
  {
    hide Built, Strings, DirFind, Answer, Name11, NodeAt, WalkFrom, Depth, Findable, Spells, AllShort, Need, UpAll;
    var n := |comps| - 1;
    var last, init := comps[n], comps[..n];
    assert comps == init + [last];
    BuiltValid(img, t, g);
    LastSpelled(t, k, comps);
    SpellsDepth(t, k, comps);
    ParentIn(t, k);
    hide Valid;
    NodeFound(t, ClusterBytes(g), k);
    RootDepth(t);
    var d := 0;
    if init == [] {
      WalkOne(img, FsOf(g), 0, last);
    } else {
      WalkSnoc(img, FsOf(g), 0, init, last);
      d := WalkDepth(img, t, g, init);
    }
    StepFrom(img, t, g, d, Name11(last));
    AnswersNode(t, ClusterBytes(g), d, Name11(last), k);
    AnswerIsChild(t, ClusterBytes(g), d, Name11(last), k);
    AnswerOnlyBears(t, ClusterBytes(g), k);
    NodeFindable(t, k, last);
    if d > 0 {
      AllShortPrefix(comps, n);
      DirNeed(t, d);
      WalkOnly(img, t, g, d, init);
    }
  }

  lemma {:induction false} LastSpelled(t: seq<Node>, k: nat, comps: seq<seq<byte>>)
    requires Spells(t, k, comps) && comps != [] && AllShort(comps)
    ensures var n := |comps| - 1;
      && 1 <= k < |t| && UpAll(t[k].name) == UpAll(comps[n]) && |comps[n]| <= 15 && |t[k].name| <= 15
      && Name11(t[k].name) == Name11(comps[n]) && Spells(t, t[k].parent, comps[..n])
  {
    var n := |comps| - 1;
    assert Cut(comps[n]) == comps[n];
    assert |t[k].name| == |UpAll(t[k].name)| == |comps[n]|;
    CaseBlind(t[k].name, comps[n]);
  }

  lemma {:induction false} AnswersNode(t: seq<Node>, c: nat, d: nat, n11: seq<byte>, k: nat)
    requires d < |t| && c > 0 && (d > 0 ==> 0 <= t[d].parent < |t|) && |n11| == 11 && 1 <= k < |t|
    requires Outcome(Answer(t, c, d, n11)) == NodeAt(t, c, k)
    ensures Answer(t, c, d, n11) == EntryOf(t, c, k)
  {
    hide Answer;
  }

  lemma {:induction false} NodeFindable(t: seq<Node>, k: nat, comp: seq<byte>)
    requires k < |t| && Bears(t, k) && |t[k].name| <= 15
    ensures Findable(t, k)
  {
  }

  /** On every built image, for every node that has clusters and every path that spells it in components of at most 15
      bytes: the path leads to it if and only if every node on the way is found by its own name. */
  lemma {:induction false} PathResolvesIff(img: seq<byte>, t: seq<Node>, g: Geo, k: nat, path: seq<byte>)
    requires Built(img, t, g) && Strings(t) && 1 <= k < |t| && Need(t, k) > 0
    requires Spells(t, k, Components(path)) && AllShort(Components(path))
    ensures ClusterBytes(g) > 0
    ensures LookupPath(img, FsOf(g), path) == NodeAt(t, ClusterBytes(g), k) <==> PathFindable(t, k)
  {
    hide Built, Strings, NodeAt, PathFindable, Spells, LookupFrom, WalkFrom, Need, AllShort;
    BuiltClusters(img, t, g);
    if PathFindable(t, k) {
      PathResolves(img, t, g, k, path);
    } else if LookupPath(img, FsOf(g), path) == NodeAt(t, ClusterBytes(g), k) {
      LastSpelledSome(t, k, Components(path));
      SkipSuffix(path);
      hide Components, SkipSlashes;
      LookupWalks(img, FsOf(g), 0, SkipSlashes(path));
      WalkOnly(img, t, g, k, Components(path));
    }
  }

  lemma {:induction false} BuiltClusters(img: seq<byte>, t: seq<Node>, g: Geo)
    requires Built(img, t, g)
    ensures ClusterBytes(g) > 0
  {
    hide FatOk, HeaderOk, Holds, NodeOk, DirBytes, ClustersAt;
  }

  lemma {:induction false} LastSpelledSome(t: seq<Node>, k: nat, comps: seq<seq<byte>>)
    requires Spells(t, k, comps) && k >= 1
    ensures comps != []
  {
  }

  lemma {:induction false} SkipSuffix(path: seq<byte>)
    ensures Components(SkipSlashes(path)) == Components(path)
    ensures Components(path) == [] <==> SkipSlashes(path) == []
  {
    SkipTwice(path);
  }

  /** Copying the chain of a file gives its bytes. */
  lemma {:induction false} FileCopies(img: seq<byte>, t: seq<Node>, g: Geo, k: nat)
    requires Built(img, t, g) && 1 <= k < |t| && !t[k].isDir
    ensures ClusterBytes(g) > 0 && FsOf(g).spc > 0 && Unpacked(t[k].payload).Some?
    ensures ChainBytes(img, FsOf(g), First(t, ClusterBytes(g), k), PayloadSize(t[k].payload))
         == Unpacked(t[k].payload).value
  {
    hide Built;
    BuiltFacts(img, t, g);
    BuiltNode(img, t, g, k);
    var c, s := ClusterBytes(g), Unpacked(t[k].payload).value;
    UnpackedSize(t[k].payload);
    assert Contents(t, c, k) == s;
    if |s| > 0 {
      assert Need(t, k) > 0 && First(t, c, k) >= 2;
      CountPositive(t, c, k);
      NodeChain(img, t, g, k);
      hide Valid, FatOk, HeaderOk, Searchable, Strings, Holds, First, Chain, Unpacked, Count, Contents, ChainBytes,
           ClustersAt;
      CopyFromStart(img, FsOf(g), First(t, c, k), Count(t, c, k), ClusterAt(g, First(t, c, k)), c,
                    Count(t, c, k) * c, s);
    }
  }

  lemma {:induction false} CopyFromStart(img: seq<byte>, fs: Fs, first: nat, n: nat, at: nat, c: nat, total: nat,
                                         s: seq<byte>)
    requires Chain(img, fs, first, n, at, c) && total == n * c && Holds(img, at, total, s) && 0 < n && s != []
    ensures fs.spc > 0 && ChainBytes(img, fs, first, |s|) == s
  {
    hide Chain, Holds, ChainBytes, ClusterOff, Next;
    var k := 0;
    ChainAt(img, fs, first, n, at, c, k);
    NoOffset(k, c);
    ChainCopies(img, fs, first, n, at, c, s, k);
    assert s[0..] == s;
  }

  lemma {:induction false} NoOffset(k: nat, c: nat)
    requires k == 0
    ensures k * c == 0
  {
  }

  /** The round trip: on any image of a tree, mounting succeeds and a path that spells a findable file gives
      exactly its size and its bytes. */
  lemma {:induction false} RoundTrip(img: seq<byte>, t: seq<Node>, g: Geo, k: nat, path: seq<byte>)
    requires Built(img, t, g) && Strings(t) && 1 <= k < |t| && !t[k].isDir
    requires PathFindable(t, k) && Spells(t, k, Components(path))
    ensures MountOf(img) == Ok(FsOf(g)) && FsOf(g).spc > 0 && Unpacked(t[k].payload).Some?
    ensures var r := LookupPath(img, FsOf(g), path);
      && r.Found? && !r.isDir && r.size == PayloadSize(t[k].payload)
      && ChainBytes(img, FsOf(g), r.clus, r.size) == Unpacked(t[k].payload).value
  {
    hide Built, Strings, PathFindable, Spells, HeaderOk, MountOf, LookupPath, ChainBytes, Unpacked, First;
    BuiltFacts(img, t, g);
    MountBuilt(img, g);
    PathResolves(img, t, g, k, path);
    FileCopies(img, t, g, k);
  }

  // ---------------------------------------------------------------- from members

  lemma {:induction false} SuffixPlain(s: seq<byte>, n: nat)
    requires n <= |s| && 0 !in s
    ensures 0 !in s[n..] && 0 !in s[..n]
  {
  }

  lemma {:induction false} SkipPlain(s: seq<byte>)
    requires 0 !in s
    ensures 0 !in SkipSlashes(s)
    decreases |s|
  {
    if s != [] && IsSlash(s[0]) {
      SuffixPlain(s, 1);
      SkipPlain(s[1..]);
    }
  }

  ghost predicate Plain(comps: seq<seq<byte>>) { forall i | 0 <= i < |comps| :: 0 !in comps[i] }

  lemma {:induction false} ComponentsPlain(s: seq<byte>)
    requires 0 !in s
    ensures Plain(Components(s))
    decreases |s|
  {
    var u := SkipSlashes(s);
    SkipPlain(s);
    if u != [] {
      SuffixPlain(u, CompLen(u));
      ComponentsPlain(u[CompLen(u)..]);
    }
  }

  lemma {:induction false} NewNodePlain(t: seq<Node>, comp: seq<byte>, parent: int, isDir: bool, payload: Payload)
    requires Strings(t) && 0 !in comp && |t| < MAX_NODES
    ensures Strings(NewNode(t, comp, parent, isDir, payload).value)
  {
  }

  lemma {:induction false} InsertPlain(t: seq<Node>, cur: nat, comps: seq<seq<byte>>, dirsOnly: bool, payload: Payload)
    requires |t| >= 1 && Strings(t) && Plain(comps) && Insert(t, cur, comps, dirsOnly, payload).Some?
    ensures Strings(Insert(t, cur, comps, dirsOnly, payload).value)
    decreases |comps|
  {
    hide Strings, Cut, FindDir;
    if comps == [] {
    } else if |comps| == 1 && !dirsOnly {
      NewNodePlain(t, comps[0], cur, false, payload);
    } else {
      var d := FindDir(t, cur, Cut(comps[0]), 1);
      var mid := t;
      if d == |t| {
        NewNodePlain(t, comps[0], cur, true, Stored([]));
        mid := NewNode(t, comps[0], cur, true, Stored([])).value;
      }
      assert forall i | 0 <= i < |comps[1..]| :: comps[1..][i] == comps[i + 1];
      InsertPlain(mid, d, comps[1..], dirsOnly, payload);
    }
  }

  /** Member paths are C strings, and so are then all names. */
  lemma {:induction false} AddAllPlain(ms: seq<Member>, n: nat)
    requires n <= |ms| && AddAll(ms, n).Some? && forall i | 0 <= i < n :: 0 !in ms[i].path
    ensures Strings(AddAll(ms, n).value)
    decreases n
  {
    if n > 0 {
      AddAllPlain(ms, n - 1);
      var m := ms[n - 1];
      ComponentsPlain(m.path);
      hide Strings, Plain, Components, Insert;
      InsertPlain(AddAll(ms, n - 1).value, 0, Components(m.path), EndsInSlash(m.path), m.payload);
    }
  }

  /** Every file member is in the image, and is read back from its own path when that path is findable. */
  lemma {:induction false} MemberRoundTrip(img: seq<byte>, ms: seq<Member>, t: seq<Node>, g: Geo, i: nat)
    returns (k: nat)
    requires AddAll(ms, |ms|) == Some(t) && Built(img, t, g) && forall j | 0 <= j < |ms| :: 0 !in ms[j].path
    requires i < |ms| && IsFile(ms[i])
    ensures IsFileOf(t, k, ms[i]) && FsOf(g).spc > 0 && MountOf(img) == Ok(FsOf(g))
    ensures PathFindable(t, k) ==>
      var r := LookupPath(img, FsOf(g), ms[i].path);
      && r.Found? && !r.isDir && r.size == PayloadSize(ms[i].payload)
      && Unpacked(ms[i].payload) == Some(ChainBytes(img, FsOf(g), r.clus, r.size))
  {
    AddAllOk(ms, |ms|);
    AddAllPlain(ms, |ms|);
    hide AddAll, Built, IsFile, Strings, PathFindable, LookupPath, ChainBytes, Unpacked, MountOf, HeaderOk,
      Spells, Components, Valid;
    var n :| IsFileOf(t, n, ms[i]);
    k := n;
    BuiltFacts(img, t, g);
    MountBuilt(img, g);
    if PathFindable(t, k) {
      RoundTrip(img, t, g, k, ms[i].path);
    }
  }
}
