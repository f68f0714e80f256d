/** From archive members to files read back: which member paths, looked at alone, make every file of the image
    readable under its own path, and the boot's own sequence of building, mounting and reading
    (src/boot/vmlinuz/main.c). */
module FatMembers {
  import opened Bits
  import opened FatNames
  import opened FatTree
  import opened FatSizing
  import opened FatVolume
  import opened FatRead
  import opened FatSearch
  import opened FatRoundTrip
  import FatBuild

  // ---------------------------------------------------------------- where the nodes come from

  /** Node `k` stands for the first `l` components: it has the name of the last of them, and is a directory unless
      that is the file. */
  ghost predicate StandsFor(t: seq<Node>, k: nat, comps: seq<seq<byte>>, dirsOnly: bool, l: nat)
    requires k < |t|
  {
    && 1 <= l <= |comps| && Spells(t, k, comps[..l]) && t[k].name == Cut(comps[l - 1])
    && (t[k].isDir <==> l < |comps| || dirsOnly)
  }

  ghost predicate Stands(t: seq<Node>, k: nat, comps: seq<seq<byte>>, dirsOnly: bool)
    requires k < |t|
  {
    exists l :: StandsFor(t, k, comps, dirsOnly, l)
  }

  /** Directories of one name below one parent are one. */
  ghost predicate DirsUnique(t: seq<Node>) {
    forall j, k | 1 <= j < k < |t| && t[j].isDir && t[k].isDir && t[j].parent == t[k].parent ::
      UpAll(t[j].name) != UpAll(t[k].name)
  }

  /** The nodes from `from` on stand for parts of the path, and only the last can be a file. */
  ghost predicate NewNodesOk(t: seq<Node>, from: nat, comps: seq<seq<byte>>, dirsOnly: bool) {
    && (forall k | from <= k < |t| :: Stands(t, k, comps, dirsOnly))
    && forall k | from <= k < |t| - 1 :: t[k].isDir
  }

  lemma {:induction false} FindDirNone(t: seq<Node>, parent: int, name: seq<byte>, j: nat, k: nat)
    requires 1 <= j <= k < |t| && FindDir(t, parent, name, j) == |t|
    ensures !IsDirNamed(t[k], parent, name)
    decreases |t| - j
  {
    hide UpAll;
    if j < k {
      FindDirNone(t, parent, name, j + 1, k);
    }
  }

  lemma {:induction false} NewDirUnique(t: seq<Node>, comp: seq<byte>, parent: nat, payload: Payload)
    requires 1 <= |t| < MAX_NODES && DirsUnique(t) && FindDir(t, parent, Cut(comp), 1) == |t|
    ensures DirsUnique(NewNode(t, comp, parent, true, payload).value)
  {
    var u := NewNode(t, comp, parent, true, payload).value;
    hide UpAll, FindDir, Cut;
    forall j, k | 1 <= j < k < |u| && u[j].isDir && u[k].isDir && u[j].parent == u[k].parent
      ensures UpAll(u[j].name) != UpAll(u[k].name)
    {
      if k == |t| {
        FindDirNone(t, parent, Cut(comp), 1, j);
      }
    }
  }

  lemma {:induction false} NewFileUnique(t: seq<Node>, comp: seq<byte>, parent: nat, payload: Payload)
    requires 1 <= |t| < MAX_NODES && DirsUnique(t)
    ensures DirsUnique(NewNode(t, comp, parent, false, payload).value)
  {
    hide UpAll, Cut;
  }

  lemma {:induction false} StandsKeep(t: seq<Node>, u: seq<Node>, k: nat, comps: seq<seq<byte>>, dirsOnly: bool, l: nat)
    requires t <= u && k < |t| && StandsFor(t, k, comps, dirsOnly, l)
    ensures StandsFor(u, k, comps, dirsOnly, l)
  {
    hide Spells, UpAll;
    SpellsKeep(t, u, k, comps[..l]);
  }

  /** Inserting the components from number `i` on below the node that stands for those before them. */
  lemma {:induction false} InsertNew(t: seq<Node>, cur: nat, comps: seq<seq<byte>>, i: nat, dirsOnly: bool,
                                     payload: Payload)
    requires Valid(t) && DirsUnique(t) && cur < |t| && t[cur].isDir && i <= |comps| && Spells(t, cur, comps[..i])
    requires (forall j | 0 <= j < |comps| :: comps[j] != []) && Insert(t, cur, comps[i..], dirsOnly, payload).Some?
    ensures var u := Insert(t, cur, comps[i..], dirsOnly, payload).value;
      t <= u && DirsUnique(u) && NewNodesOk(u, |t|, comps, dirsOnly)
    decreases |comps| - i
  {
    hide Valid, Spells, UpAll, Cut, DirsUnique, FindDir;
    var rest := comps[i..];
    if rest == [] {
    } else if |rest| == 1 && !dirsOnly {
      var u := NewNode(t, rest[0], cur, false, payload).value;
      NewFileUnique(t, rest[0], cur, payload);
      OneMore(t, u, cur, comps, i, |t|);
      assert StandsFor(u, |t|, comps, dirsOnly, i + 1);
    } else {
      assert rest[1..] == comps[i + 1..];
      var d := FindDir(t, cur, Cut(rest[0]), 1);
      FindDirIs(t, cur, Cut(rest[0]));
      if d < |t| {
        OneMore(t, t, cur, comps, i, d);
        InsertNew(t, d, comps, i + 1, dirsOnly, payload);
      } else {
        var mid := NewNode(t, rest[0], cur, true, Stored([])).value;
        NewNodeValid(t, rest[0], cur, true, Stored([]));
        NewDirUnique(t, rest[0], cur, Stored([]));
        OneMore(t, mid, cur, comps, i, d);
        InsertNew(mid, d, comps, i + 1, dirsOnly, payload);
        var u := Insert(mid, d, comps[i + 1..], dirsOnly, payload).value;
        assert StandsFor(mid, d, comps, dirsOnly, i + 1);
        StandsKeep(mid, u, d, comps, dirsOnly, i + 1);
        NewNodesMore(u, |t|, comps, dirsOnly, i + 1);
      }
    }
  }

  lemma {:induction false} FindDirIs(t: seq<Node>, parent: nat, name: seq<byte>)
    requires |t| >= 1
    ensures var d := FindDir(t, parent, name, 1);
      d < |t| ==> 1 <= d && t[d].isDir && t[d].parent == parent && UpAll(t[d].name) == UpAll(name)
  {
    hide UpAll;
  }

  /** A node below the one that stands for the first `i` components. */
  lemma {:induction false} OneMore(t: seq<Node>, u: seq<Node>, cur: nat, comps: seq<seq<byte>>, i: nat, k: nat)
    requires t <= u && cur < |t| && i < |comps| && Spells(t, cur, comps[..i])
    requires 1 <= k < |u| && u[k].parent == cur && UpAll(u[k].name) == UpAll(Cut(comps[i]))
    ensures Spells(u, k, comps[..i + 1])
  {
    hide UpAll, Cut;
    SpellsKeep(t, u, cur, comps[..i]);
    SpellsMore(u, cur, comps[..i], comps[i], k);
    assert comps[..i] + [comps[i]] == comps[..i + 1];
  }

  lemma {:induction false} NewNodesMore(u: seq<Node>, from: nat, comps: seq<seq<byte>>, dirsOnly: bool, l: nat)
    requires from < |u| && u[from].isDir && StandsFor(u, from, comps, dirsOnly, l)
    requires NewNodesOk(u, from + 1, comps, dirsOnly)
    ensures NewNodesOk(u, from, comps, dirsOnly)
  {
    hide StandsFor;
  }

  // ---------------------------------------------------------------- all members

  lemma {:induction false} AddOneNew(t: seq<Node>, m: Member, u: seq<Node>)
    requires Valid(t) && DirsUnique(t) && AddPath(t, m.path, m.payload) == Some(u)
    ensures t <= u && DirsUnique(u) && NewNodesOk(u, |t|, Components(m.path), EndsInSlash(m.path))
  {
    var comps := Components(m.path);
    hide Valid, DirsUnique, NewNodesOk, Components, Insert, Spells, EndsInSlash;
    RootDir(t);
    assert comps[0..] == comps && comps[..0] == [];
    InsertNew(t, 0, comps, 0, EndsInSlash(m.path), m.payload);
  }

  lemma {:induction false} TreeUnique(ms: seq<Member>, n: nat)
    requires n <= |ms| && AddAll(ms, n).Some?
    ensures Valid(AddAll(ms, n).value) && DirsUnique(AddAll(ms, n).value)
    decreases n
  {
    AddAllOk(ms, n);
    if n > 0 {
      TreeUnique(ms, n - 1);
      hide Valid, DirsUnique, AddPath, NewNodesOk;
      AddOneNew(AddAll(ms, n - 1).value, ms[n - 1], AddAll(ms, n).value);
    }
  }

  /** Adding members only adds nodes. */
  lemma {:induction false} AddAllGrows(ms: seq<Member>, m: nat, n: nat)
    requires m <= n <= |ms| && AddAll(ms, n).Some?
    ensures AddAll(ms, m).Some? && AddAll(ms, m).value <= AddAll(ms, n).value
    decreases n
  {
    if m < n {
      AddAllGrows(ms, m, n - 1);
      TreeUnique(ms, n - 1);
      hide Valid, DirsUnique, AddPath, NewNodesOk;
      AddOneNew(AddAll(ms, n - 1).value, ms[n - 1], AddAll(ms, n).value);
    }
  }

  /** Member `m` made node `k`, which stands for the first `l` components of its path; a file is the last node its
      member made. */
  ghost predicate MadeBy(ms: seq<Member>, t: seq<Node>, k: nat, m: nat, l: nat)
    requires k < |t|
  {
    && m < |ms| && StandsFor(t, k, Components(ms[m].path), EndsInSlash(ms[m].path), l)
    && AddAll(ms, m + 1).Some? && (!t[k].isDir ==> k == |AddAll(ms, m + 1).value| - 1)
  }

  lemma {:induction false} MadeKeep(ms: seq<Member>, t: seq<Node>, u: seq<Node>, k: nat, m: nat, l: nat)
    requires t <= u && k < |t| && MadeBy(ms, t, k, m, l)
    ensures MadeBy(ms, u, k, m, l)
  {
    hide AddAll, StandsFor, Components, EndsInSlash;
    StandsKeep(t, u, k, Components(ms[m].path), EndsInSlash(ms[m].path), l);
  }

  lemma {:induction false} MadeLast(ms: seq<Member>, t: seq<Node>, u: seq<Node>, k: nat, m: nat) returns (l: nat)
    requires m < |ms| && AddAll(ms, m + 1) == Some(u) && |t| <= k < |u|
    requires NewNodesOk(u, |t|, Components(ms[m].path), EndsInSlash(ms[m].path))
    ensures MadeBy(ms, u, k, m, l)
  {
    hide AddAll, Components, EndsInSlash, Spells;
    assert Stands(u, k, Components(ms[m].path), EndsInSlash(ms[m].path));
    var x :| StandsFor(u, k, Components(ms[m].path), EndsInSlash(ms[m].path), x);
    l := x;
  }

  /** Every node was made by a member. */
  lemma {:induction false} Maker(ms: seq<Member>, n: nat, k: nat) returns (m: nat, l: nat)
    requires n <= |ms| && AddAll(ms, n).Some? && 1 <= k < |AddAll(ms, n).value|
    ensures m < n && MadeBy(ms, AddAll(ms, n).value, k, m, l)
    decreases n
  {
    var t, u := AddAll(ms, n - 1).value, AddAll(ms, n).value;
    TreeUnique(ms, n - 1);
    hide Valid, DirsUnique, AddPath, NewNodesOk, MadeBy;
    AddOneNew(t, ms[n - 1], u);
    if k < |t| {
      m, l := Maker(ms, n - 1, k);
      MadeKeep(ms, t, u, k, m, l);
    } else {
      m := n - 1;
      l := MadeLast(ms, t, u, k, m);
    }
  }

  // ---------------------------------------------------------------- paths that stay apart

  /** The first `l` components are the same names, up to case. */
  predicate Same(a: seq<seq<byte>>, b: seq<seq<byte>>, l: nat) {
    l <= |a| && l <= |b| && forall j | 0 <= j < l :: UpAll(a[j]) == UpAll(b[j])
  }

  predicate PlainName(c: seq<byte>, below: bool) {
    Fits83(c) && TILDE !in c && c[0] != 0xE5 && (below ==> !Dotted(Name11(c)))
  }

  /** Path `b` is not in the way of `a`: neither runs through the other as a file, and where they part in one directory
      their names do not encode alike. */
  predicate OutOfWay(a: seq<seq<byte>>, b: seq<seq<byte>>, bFile: bool) {
    && !Same(a, b, |a|) && (bFile ==> !Same(b, a, |b|))
    && forall l | 0 <= l < |a| && l < |b| && Same(a, b, l) && Fits83(b[l]) && Name11(b[l]) == Name11(a[l]) ::
         UpAll(b[l]) == UpAll(a[l])
  }

  /** What member `i` needs to be read back, in terms of the paths alone. */
  predicate Clear(ms: seq<Member>, i: nat)
    requires i < |ms|
  {
    var a := Components(ms[i].path);
    && (forall l | 0 <= l < |a| :: PlainName(a[l], l > 0))
    && forall j | 0 <= j < |ms| && j != i :: OutOfWay(a, Components(ms[j].path), IsFile(ms[j]))
  }

  /** What spells one node is the same. */
  lemma {:induction false} SpellsSame(t: seq<Node>, k: int, a: seq<seq<byte>>, b: seq<seq<byte>>)
    requires Spells(t, k, a) && Spells(t, k, b) && AllShort(a)
    ensures |a| == |b| && Same(a, b, |a|)
    decreases |a|
  {
    hide UpAll, Cut;
    if a != [] && b != [] {
      var n := |a| - 1;
      AllShortPrefix(a, n);
      SpellsSame(t, t[k].parent, a[..n], b[..|b| - 1]);
      ShortCut(a[n], b[n]);
      assert forall j | 0 <= j < n :: a[..n][j] == a[j] && b[..n][j] == b[j];
    }
  }

  lemma {:induction false} ShortCut(a: seq<byte>, b: seq<byte>)
    requires |a| <= 15 && UpAll(Cut(a)) == UpAll(Cut(b))
    ensures UpAll(a) == UpAll(b)
  {
    assert |Cut(b)| == |UpAll(Cut(b))| == |UpAll(Cut(a))| == |a|;
  }

  lemma {:induction false} FitsShort(s: seq<byte>)
    requires Fits83(s)
    ensures |s| <= 12
  {
  }

  /** The facts of a made node, without its member. */
  lemma {:induction false} MadeFacts(ms: seq<Member>, t: seq<Node>, k: nat, m: nat, l: nat)
    requires 1 <= k < |t| && MadeBy(ms, t, k, m, l)
    ensures m < |ms|
    ensures var b := Components(ms[m].path);
      && 1 <= l <= |b| && t[k].name == Cut(b[l - 1]) && Spells(t, t[k].parent, b[..l - 1])
      && (t[k].isDir <==> !(l == |b| && IsFile(ms[m])))
  {
    hide AddAll, Components, UpAll, Cut;
    var b := Components(ms[m].path);
    assert b[..l][..l - 1] == b[..l - 1];
  }

  lemma {:induction false} MadeFile(ms: seq<Member>, t: seq<Node>, k: nat, m: nat, l: nat)
    requires k < |t| && MadeBy(ms, t, k, m, l) && !t[k].isDir
    ensures m < |ms| && AddAll(ms, m + 1).Some? && k == |AddAll(ms, m + 1).value| - 1
  {
    hide AddAll, StandsFor;
  }

  /** Node `k` is the one on the way to member `i` that stands for its first `l` components. */
  ghost predicate OnWay(ms: seq<Member>, t: seq<Node>, i: nat, k: nat, l: nat) {
    && i < |ms| && 1 <= k < |t| && 1 <= l <= |Components(ms[i].path)| && Spells(t, k, Components(ms[i].path)[..l])
    && (if l < |Components(ms[i].path)| then t[k].isDir
        else !t[k].isDir && AddAll(ms, i + 1).Some? && k == |AddAll(ms, i + 1).value| - 1)
  }

  /** What spells a node whose parent another path spells too. */
  lemma {:induction false} SiblingSame(t: seq<Node>, k: nat, j: nat, a: seq<seq<byte>>, b: seq<seq<byte>>, l: nat,
                                       lj: nat)
    requires 1 <= j < |t| && 1 <= k < |t| && t[j].parent == t[k].parent && AllShort(a)
    requires 1 <= l <= |a| && 1 <= lj <= |b| && Spells(t, k, a[..l]) && Spells(t, t[j].parent, b[..lj - 1])
    ensures l == lj && Same(a, b, l - 1) && UpAll(t[k].name) == UpAll(a[l - 1])
  {
    hide UpAll, Same, AllShort;
    assert a[..l][..l - 1] == a[..l - 1];
    AllShortPrefix(a, l - 1);
    SpellsSame(t, t[k].parent, a[..l - 1], b[..lj - 1]);
    SamePrefix(a, b, l - 1);
    ShortComp(a, l - 1);
  }

  lemma {:induction false} SamePrefix(a: seq<seq<byte>>, b: seq<seq<byte>>, l: nat)
    requires l <= |a| && l <= |b| && Same(a[..l], b[..l], l)
    ensures Same(a, b, l)
  {
    hide UpAll;
    assert forall j | 0 <= j < l :: a[j] == a[..l][j] && b[j] == b[..l][j];
  }

  lemma {:induction false} ShortComp(a: seq<seq<byte>>, l: nat)
    requires AllShort(a) && l < |a|
    ensures Cut(a[l]) == a[l]
  {
  }

  lemma {:induction false} SameMore(a: seq<seq<byte>>, b: seq<seq<byte>>, l: nat)
    requires Same(a, b, l) && l < |a| && l < |b| && UpAll(a[l]) == UpAll(b[l])
    ensures Same(a, b, l + 1) && Same(b, a, l + 1)
  {
    hide UpAll;
  }

  lemma {:induction false} ClearShort(ms: seq<Member>, i: nat)
    requires i < |ms| && Clear(ms, i)
    ensures AllShort(Components(ms[i].path))
  {
    hide OutOfWay, Components;
    var a := Components(ms[i].path);
    forall l | 0 <= l < |a|
      ensures |a[l]| <= 15
    {
      assert PlainName(a[l], l > 0);
      FitsShort(a[l]);
    }
  }

  lemma {:induction false} ClearWay(ms: seq<Member>, i: nat, m: nat, l: nat)
    requires i < |ms| && m < |ms| && Clear(ms, i)
    requires var a, b := Components(ms[i].path), Components(ms[m].path);
      l < |a| && l < |b| && Same(a, b, l) && Fits83(b[l]) && Name11(b[l]) == Name11(a[l])
    ensures Same(Components(ms[i].path), Components(ms[m].path), l + 1)
    ensures m != i ==> l + 1 < |Components(ms[i].path)| && !(l + 1 == |Components(ms[m].path)| && IsFile(ms[m]))
  {
    var a, b := Components(ms[i].path), Components(ms[m].path);
    hide Components, UpAll, Fits83, Name11, IsFile, PlainName;
    if m != i {
      assert OutOfWay(a, b, IsFile(ms[m]));
      assert UpAll(b[l]) == UpAll(a[l]);
    }
    hide Same;
    SameMore(a, b, l);
  }

  /** No sibling before a node on the way encodes like it. */
  lemma {:induction false} SiblingDiffers(ms: seq<Member>, t: seq<Node>, i: nat, k: nat, l: nat, j: nat)
    requires AddAll(ms, |ms|) == Some(t) && DirsUnique(t) && OnWay(ms, t, i, k, l) && Clear(ms, i) && IsFile(ms[i])
    requires 1 <= j < k && t[j].parent == t[k].parent && Fits83(t[j].name)
    ensures Name11(t[j].name) != Name11(t[k].name)
  {
    ClearShort(ms, i);
    var m, lj := Maker(ms, |ms|, j);
    hide AddAll, MadeBy, Clear, Spells, Components, IsFile, UpAll, Fits83, Name11, Same, AllShort, Cut;
    MadeFacts(ms, t, j, m, lj);
    var a, b := Components(ms[i].path), Components(ms[m].path);
    SiblingSame(t, k, j, a, b, l, lj);
    CaseBlind(t[k].name, a[l - 1]);
    CutFits(b[l - 1]);
    if !t[j].isDir {
      MadeFile(ms, t, j, m, lj);
    }
    if Name11(t[j].name) == Name11(t[k].name) {
      ClearWay(ms, i, m, l - 1);
      SameAt(a, b, l);
    }
  }

  lemma {:induction false} CutFits(c: seq<byte>)
    ensures Fits83(Cut(c)) ==> Cut(c) == c
  {
    if Fits83(Cut(c)) {
      FitsShort(Cut(c));
    }
  }

  lemma {:induction false} SameAt(a: seq<seq<byte>>, b: seq<seq<byte>>, l: nat)
    requires Same(a, b, l) && l > 0
    ensures UpAll(a[l - 1]) == UpAll(b[l - 1])
  {
  }

  lemma {:induction false} NodeClear(ms: seq<Member>, t: seq<Node>, i: nat, k: nat, l: nat)
    requires AddAll(ms, |ms|) == Some(t) && Valid(t) && DirsUnique(t)
    requires OnWay(ms, t, i, k, l) && Clear(ms, i) && IsFile(ms[i])
    ensures Findable(t, k)
  {
    forall j | 1 <= j < k && t[j].parent == t[k].parent && Fits83(t[j].name)
      ensures Name11(t[j].name) != Name11(t[k].name)
    {
      SiblingDiffers(ms, t, i, k, l, j);
    }
    hide AddAll, DirsUnique, Bears;
    WayName(ms, t, i, k, l);
    FitsShort(t[k].name);
    hide Valid, OnWay, Clear, IsFile, Fits83, Name11, Dotted;
    PlainBears(t, k);
  }

  /** A node on the way is named like the component, and only the first component hangs below the root. */
  lemma {:induction false} WayName(ms: seq<Member>, t: seq<Node>, i: nat, k: nat, l: nat)
    requires Valid(t) && OnWay(ms, t, i, k, l) && Clear(ms, i)
    ensures Fits83(t[k].name) && TILDE !in t[k].name && t[k].name[0] != 0xE5
    ensures t[k].parent != 0 ==> !Dotted(Name11(t[k].name))
  {
    ClearShort(ms, i);
    var a := Components(ms[i].path);
    hide AddAll, Valid, Components, Dotted, OutOfWay, Fits83, Name11;
    assert PlainName(a[l - 1], l - 1 > 0);
    ShortComp(a, l - 1);
    LastName(t, k, a, l);
    hide Spells, AllShort, Cut;
    CaseBlind(t[k].name, a[l - 1]);
    CaseKeeps(t[k].name, a[l - 1]);
  }

  lemma {:induction false} LastName(t: seq<Node>, k: nat, a: seq<seq<byte>>, l: nat)
    requires 1 <= l <= |a| && Spells(t, k, a[..l])
    ensures 1 <= k < |t| && UpAll(t[k].name) == UpAll(Cut(a[l - 1])) && Spells(t, t[k].parent, a[..l - 1])
    ensures l == 1 ==> t[k].parent == 0
  {
    hide UpAll, Cut;
    assert a[..l][..l - 1] == a[..l - 1];
  }

  lemma {:induction false} CaseKeeps(a: seq<byte>, b: seq<byte>)
    requires UpAll(a) == UpAll(b) && TILDE !in b && b != [] && b[0] != 0xE5
    ensures a != [] && TILDE !in a && a[0] != 0xE5
  {
    assert |a| == |UpAll(a)| == |b|;
    forall i | 0 <= i < |a|
      ensures a[i] != TILDE
    {
      assert Up(a[i]) == UpAll(a)[i] == Up(b[i]) && b[i] in b;
    }
    assert Up(a[0]) == UpAll(a)[0] == Up(b[0]);
  }

  /** All nodes on the way to a clear member can be found. */
  lemma {:induction false} WayClear(ms: seq<Member>, t: seq<Node>, i: nat, k: nat, l: nat)
    requires AddAll(ms, |ms|) == Some(t) && Valid(t) && DirsUnique(t)
    requires OnWay(ms, t, i, k, l) && Clear(ms, i) && IsFile(ms[i])
    ensures PathFindable(t, k)
    decreases l
  {
    hide AddAll, Valid, DirsUnique, Clear, IsFile, Findable, Components;
    NodeClear(ms, t, i, k, l);
    ParentIn(t, k);
    LastName(t, k, Components(ms[i].path), l);
    hide Spells;
    if l > 1 && t[k].parent != 0 {
      WayClear(ms, t, i, t[k].parent, l - 1);
    }
  }

  /** The node that member `i` made for its file, in the whole tree. */
  lemma {:induction false} OwnFile(ms: seq<Member>, t: seq<Node>, i: nat) returns (k: nat)
    requires AddAll(ms, |ms|) == Some(t) && i < |ms| && IsFile(ms[i])
    ensures IsFileOf(t, k, ms[i]) && AddAll(ms, i + 1).Some? && k == |AddAll(ms, i + 1).value| - 1
  {
    hide AddAll, Valid, DirsUnique, AddPath, IsFile, IsFileOf;
    AddAllGrows(ms, i + 1, |ms|);
    AddAllGrows(ms, i, |ms|);
    TreeUnique(ms, i);
    var s, u := AddAll(ms, i).value, AddAll(ms, i + 1).value;
    AddAllNext(ms, i);
    AddOneOk(s, ms[i], u);
    k := |u| - 1;
    FileKept(u, t, k, ms[i]);
  }

  lemma {:induction false} AddAllNext(ms: seq<Member>, i: nat)
    requires i < |ms| && AddAll(ms, i).Some?
    ensures AddAll(ms, i + 1) == AddPath(AddAll(ms, i).value, ms[i].path, ms[i].payload)
  {
    hide AddPath;
  }

  /** The file of a clear member can be found by its path. */
  lemma {:induction false} ClearFindable(ms: seq<Member>, t: seq<Node>, i: nat) returns (k: nat)
    requires AddAll(ms, |ms|) == Some(t) && i < |ms| && IsFile(ms[i]) && Clear(ms, i)
    ensures IsFileOf(t, k, ms[i]) && PathFindable(t, k)
  {
    TreeUnique(ms, |ms|);
    hide AddAll, Valid, DirsUnique, Clear, IsFile, PathFindable, Spells, Components;
    k := OwnFile(ms, t, i);
    FileComps(ms[i]);
    var a := Components(ms[i].path);
    assert a[..|a|] == a;
    WayClear(ms, t, i, k, |a|);
  }

  lemma {:induction false} FileComps(m: Member)
    requires IsFile(m)
    ensures |Components(m.path)| >= 1
  {
  }

  /** The path names the member: the same components, whatever the case and the slashes. */
  predicate Asks(path: seq<byte>, m: Member) {
    |Components(path)| == |Components(m.path)| && Same(Components(m.path), Components(path), |Components(path)|)
  }

  lemma {:induction false} SpellsAlike(t: seq<Node>, k: int, a: seq<seq<byte>>, b: seq<seq<byte>>)
    requires Spells(t, k, a) && |a| == |b| && Same(a, b, |a|) && AllShort(a)
    ensures Spells(t, k, b)
    decreases |a|
  {
    hide UpAll, Cut;
    if a != [] {
      var n := |a| - 1;
      AllShortPrefix(a, n);
      assert forall j | 0 <= j < n :: a[..n][j] == a[j] && b[..n][j] == b[j];
      SpellsAlike(t, t[k].parent, a[..n], b[..n]);
      CutAlike(a[n], b[n]);
    }
  }

  lemma {:induction false} CutAlike(a: seq<byte>, b: seq<byte>)
    requires UpAll(a) == UpAll(b) && |a| <= 15
    ensures UpAll(Cut(a)) == UpAll(Cut(b))
  {
    assert |a| == |UpAll(a)| == |b|;
  }

  /** The round trip from paths alone: a member no other is in the way of is read back, size and bytes, by any path
      that names it. */
  lemma {:induction false} ClearRoundTrip(img: seq<byte>, ms: seq<Member>, t: seq<Node>, g: Geo, i: nat,
                                          path: seq<byte>)
    requires AddAll(ms, |ms|) == Some(t) && Built(img, t, g) && forall j | 0 <= j < |ms| :: 0 !in ms[j].path
    requires i < |ms| && IsFile(ms[i]) && Clear(ms, i) && Asks(path, ms[i])
    ensures MountOf(img) == Ok(FsOf(g)) && FsOf(g).spc > 0
    ensures var r := LookupPath(img, FsOf(g), path);
      && r.Found? && !r.isDir && r.size == PayloadSize(ms[i].payload)
      && Unpacked(ms[i].payload) == Some(ChainBytes(img, FsOf(g), r.clus, r.size))
  {
    AddAllPlain(ms, |ms|);
    ClearShort(ms, i);
    var k := ClearFindable(ms, t, i);
    hide AddAll, Built, Strings, PathFindable, Spells, Components, Clear, IsFile, LookupPath, MountOf, ChainBytes,
      Unpacked, AllShort, Same;
    SpellsAlike(t, k, Components(ms[i].path), Components(path));
    RoundTrip(img, t, g, k, path);
  }

  // ---------------------------------------------------------------- the boot's own sequence

  /** The path names member `i`, a file that no other member is in the way of. */
  predicate Wants(ms: seq<Member>, path: seq<byte>, i: nat) {
    i < |ms| && IsFile(ms[i]) && Clear(ms, i) && Asks(path, ms[i])
  }

  /** The file found by `path` is that of member `m`, size and bytes. */
  ghost predicate Serves(img: seq<byte>, fs: Fs, path: seq<byte>, m: Member)
    requires fs.spc > 0
  {
    var r := LookupPath(img, fs, path);
    && r.Found? && !r.isDir && r.size == PayloadSize(m.payload) == |ChainBytes(img, fs, r.clus, r.size)|
    && Unpacked(m.payload) == Some(ChainBytes(img, fs, r.clus, r.size))
  }

  lemma {:induction false} ClearServes(img: seq<byte>, ms: seq<Member>, t: seq<Node>, g: Geo, i: nat, path: seq<byte>)
    requires AddAll(ms, |ms|) == Some(t) && Built(img, t, g) && forall j | 0 <= j < |ms| :: 0 !in ms[j].path
    requires Wants(ms, path, i)
    ensures FsOf(g).spc > 0 && Serves(img, FsOf(g), path, ms[i])
  {
    hide AddAll, Built, IsFile, Clear, Asks, LookupPath, MountOf, ChainBytes, Unpacked;
    ClearRoundTrip(img, ms, t, g, i, path);
    UnpackedSize(ms[i].payload);
  }

  lemma {:induction false} BuiltMounts(img: seq<byte>, ms: seq<Member>, t: seq<Node>, g: Geo, path: seq<byte>)
    requires AddAll(ms, |ms|) == Some(t) && Built(img, t, g) && forall j | 0 <= j < |ms| :: 0 !in ms[j].path
    ensures MountOf(img) == Ok(FsOf(g)) && FsOf(g).spc > 0 && |img| >= 1024
    ensures LookupPath(img, FsOf(g), path) != Endless
  {
    AddAllPlain(ms, |ms|);
    hide AddAll, Built, Strings, LookupPath, MountOf, HeaderOk, Valid, FatOk;
    LookupEnds(img, t, g, path);
    BuiltFacts(img, t, g);
    MountBuilt(img, g);
    MountedSize(img);
  }

  lemma {:induction false} MountedSize(img: seq<byte>)
    requires MountOf(img).Ok?
    ensures |img| >= 1024
  {
  }

  /** Build the volume, mount it, ask for the size of a file and read it; null for a volume that cannot be built or a
      path that is not a file. */
  method LoadFile(r: Reader, ms: seq<Member>, path: seq<byte>) returns (data: array?<byte>)
    requires FatBuild.Sized(ms) && forall j | 0 <= j < |ms| :: 0 !in ms[j].path
    modifies r
    ensures forall i: nat | Wants(ms, path, i) ::
      && (data != null <==> AddAll(ms, |ms|).Some? && FatBuild.Buildable(AddAll(ms, |ms|).value))
      && (data != null ==> Unpacked(ms[i].payload) == Some(data[..]))
  {
    hide AddAll, FatBuild.Sized, FatBuild.Buildable, Built, IsFile, Clear, Asks, LookupPath, MountOf, ChainBytes,
         Unpacked;
    var img, g := FatBuild.Build(ms);
    if img == null {
      return null;
    }
    ghost var t := AddAll(ms, |ms|).value;
    BuiltMounts(img[..], ms, t, g, path);
    forall i: nat | Wants(ms, path, i)
      ensures Serves(img[..], FsOf(g), path, ms[i])
    {
      ClearServes(img[..], ms, t, g, i, path);
    }
    var rc := r.Mount(img[..]);
    if rc != 0 {
      return null;
    }
    var size: nat;
    rc, size := r.Size(path);
    if rc != 0 {
      return null;
    }
    data := new byte[size];
    var got: nat;
    rc, got := r.ReadInto(path, data, size);
    assert got == size ==> data[..got] == data[..];
  }
}
