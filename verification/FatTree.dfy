/** The directory tree that src/boot/fatbuild.c builds from archive members: a node table in which every path
    becomes a chain of directories, matched without regard to case, ending in a file. */
module FatTree {
  import opened Bits
  import opened FatNames

  const MAX_NODES: nat := 1024
  const NAME_MAX: nat := 63

  /** A member's payload: stored as is, or a raw deflate stream with its uncompressed size. */
  datatype Payload = Stored(bytes: seq<byte>) | Deflated(src: seq<byte>, size: nat)

  function PayloadSize(p: Payload): nat { if p.Stored? then |p.bytes| else p.size }

  /** `parent` is a node index; node 0 is the root and has parent -1. */
  datatype Node = Node(name: seq<byte>, parent: int, isDir: bool, payload: Payload)

  const ROOT := Node([], -1, true, Stored([]))

  /** A component, cut to what a node can hold. */
  function Cut(comp: seq<byte>): (r: seq<byte>)
    ensures |r| <= NAME_MAX && (comp != [] ==> r != [])
  {
    if |comp| <= NAME_MAX then comp else comp[..NAME_MAX]
  }

  predicate IsSlash(c: byte) { c == 47 || c == 92 }

  // ---------------------------------------------------------------- paths

  function SkipSlashes(s: seq<byte>): (r: seq<byte>)
    ensures |r| <= |s| && (r != [] ==> !IsSlash(r[0]))
  {
    if s != [] && IsSlash(s[0]) then SkipSlashes(s[1..]) else s
  }

  /** Length of the component at the start of `s`. */
  function CompLen(s: seq<byte>): (n: nat)
    ensures n <= |s| && (s != [] && !IsSlash(s[0]) ==> n > 0)
  {
    if s == [] || IsSlash(s[0]) then 0 else 1 + CompLen(s[1..])
  }

  /** The components of a path, runs of slashes taken together. */
  function Components(s: seq<byte>): (r: seq<seq<byte>>)
    ensures forall i | 0 <= i < |r| :: r[i] != []
    decreases |s|
  {
    var t := SkipSlashes(s);
    if t == [] then [] else [t[..CompLen(t)]] + Components(t[CompLen(t)..])
  }

  /** A component: no slash of either kind. */
  predicate Plain(s: seq<byte>) { s != [] && 47 !in s && 92 !in s }

  /** AllSlashes of either kind. */
  predicate AllSlashes(s: seq<byte>) { forall i | 0 <= i < |s| :: s[i] == 47 || s[i] == 92 }

  /** Each gap and then its component, and a last gap. */
  function Path(gaps: seq<seq<byte>>, comps: seq<seq<byte>>, last: seq<byte>): seq<byte>
    requires |gaps| == |comps|
  {
    if comps == [] then last else gaps[0] + comps[0] + Path(gaps[1..], comps[1..], last)
  }

  /** Components, all gaps but the first and the last not empty. */
  predicate Joined(gaps: seq<seq<byte>>, comps: seq<seq<byte>>, last: seq<byte>) {
    && |gaps| == |comps| && AllSlashes(last)
    && (forall i | 0 <= i < |comps| :: Plain(comps[i]) && AllSlashes(gaps[i]))
    && forall i | 1 <= i < |gaps| :: gaps[i] != []
  }

  lemma {:induction false} SkipGap(gap: seq<byte>, s: seq<byte>)
    requires AllSlashes(gap) && (s == [] || (s[0] != 47 && s[0] != 92))
    ensures SkipSlashes(gap + s) == s
    decreases |gap|
  {
    if gap == [] {
      assert gap + s == s;
    } else {
      SkipGap(gap[1..], s);
      assert (gap + s)[1..] == gap[1..] + s;
    }
  }

  lemma {:induction false} CompLenIs(comp: seq<byte>, rest: seq<byte>)
    requires 47 !in comp && 92 !in comp && (rest == [] || rest[0] == 47 || rest[0] == 92)
    ensures CompLen(comp + rest) == |comp|
    decreases |comp|
  {
    if comp == [] {
      assert comp + rest == rest;
    } else {
      assert (comp + rest)[1..] == comp[1..] + rest && (comp + rest)[0] in comp;
      CompLenIs(comp[1..], rest);
    }
  }

  /** A path of components between runs of slashes of either kind has those components. */
  lemma {:induction false} ComponentsAre(gaps: seq<seq<byte>>, comps: seq<seq<byte>>, last: seq<byte>)
    requires Joined(gaps, comps, last)
    ensures Components(Path(gaps, comps, last)) == comps
    decreases |comps|
  {
    hide SkipSlashes, CompLen, AllSlashes;
    if comps == [] {
      assert last + [] == last;
      SkipGap(last, []);
    } else {
      var comp, rest := comps[0], Path(gaps[1..], comps[1..], last);
      assert Joined(gaps[1..], comps[1..], last);
      assert gaps[0] + comp + rest == gaps[0] + (comp + rest);
      assert (comp + rest)[0] == comp[0];
      SkipGap(gaps[0], comp + rest);
      PathStarts(gaps[1..], comps[1..], last);
      CompLenIs(comp, rest);
      assert (comp + rest)[..|comp|] == comp && (comp + rest)[|comp|..] == rest;
      ComponentsAre(gaps[1..], comps[1..], last);
    }
  }

  lemma {:induction false} PathStarts(gaps: seq<seq<byte>>, comps: seq<seq<byte>>, last: seq<byte>)
    requires Joined(gaps, comps, last) && (comps == [] || gaps[0] != [])
    ensures var s := Path(gaps, comps, last); s == [] || s[0] == 47 || s[0] == 92
  {
  }

  predicate EndsInSlash(s: seq<byte>) { s != [] && IsSlash(s[|s| - 1]) }

  /** Such a path names a directory exactly if slashes come last. */
  lemma {:induction false} EndsAre(gaps: seq<seq<byte>>, comps: seq<seq<byte>>, last: seq<byte>)
    requires Joined(gaps, comps, last) && comps != []
    ensures EndsInSlash(Path(gaps, comps, last)) <==> last != []
    decreases |comps|
  {
    var comp, rest := comps[0], Path(gaps[1..], comps[1..], last);
    var s := gaps[0] + comp + rest;
    if |comps| > 1 {
      assert Joined(gaps[1..], comps[1..], last);
      EndsAre(gaps[1..], comps[1..], last);
      assert rest != [];
      assert s[|s| - 1] == rest[|rest| - 1];
    } else {
      assert rest == last;
      assert s[|s| - 1] == if last == [] then comp[|comp| - 1] else last[|last| - 1];
    }
  }

  // ---------------------------------------------------------------- the node table

  /** A table whose nodes hang below directories that come before them. */
  ghost predicate Valid(t: seq<Node>) {
    && 1 <= |t| <= MAX_NODES && t[0] == ROOT
    && forall i | 1 <= i < |t| ::
         0 <= t[i].parent < i && t[t[i].parent].isDir && 0 < |t[i].name| <= NAME_MAX
  }

  function NewNode(t: seq<Node>, comp: seq<byte>, parent: int, isDir: bool, payload: Payload): Option<seq<Node>> {
    if |t| >= MAX_NODES then None else Some(t + [Node(Cut(comp), parent, isDir, payload)])
  }

  predicate IsDirNamed(n: Node, parent: int, name: seq<byte>) {
    n.isDir && n.parent == parent && UpAll(n.name) == UpAll(name)
  }

  /** The first directory of that name below `parent`, from node `j` on; `|t|` for none. */
  function FindDir(t: seq<Node>, parent: int, name: seq<byte>, j: nat): (r: nat)
    requires 1 <= j <= |t|
    ensures j <= r <= |t| && (r < |t| ==> IsDirNamed(t[r], parent, name))
    decreases |t| - j
  {
    if j == |t| || IsDirNamed(t[j], parent, name) then j else FindDir(t, parent, name, j + 1)
  }

  /** Insert the components below node `cur`; all directories if `dirsOnly`, else the last is a file. */
  function Insert(t: seq<Node>, cur: nat, comps: seq<seq<byte>>, dirsOnly: bool, payload: Payload)
    : (r: Option<seq<Node>>)
    requires |t| >= 1
    ensures r.Some? ==> |t| <= |r.value|
    decreases |comps|
  {
    if comps == [] then Some(t)
    else if |comps| == 1 && !dirsOnly then NewNode(t, comps[0], cur, false, payload)
    else
      var d := FindDir(t, cur, Cut(comps[0]), 1);
      if d < |t| then Insert(t, d, comps[1..], dirsOnly, payload)
      else
        match NewNode(t, comps[0], cur, true, Stored([]))
        case None => None
        case Some(t') => Insert(t', d, comps[1..], dirsOnly, payload)
  }

  function AddPath(t: seq<Node>, path: seq<byte>, payload: Payload): (r: Option<seq<Node>>)
    requires |t| >= 1
    ensures r.Some? ==> |t| <= |r.value|
  {
    Insert(t, 0, Components(path), EndsInSlash(path), payload)
  }

  /** The nodes from the root down to `k` spell these components, up to case. */
  ghost predicate Spells(t: seq<Node>, k: int, comps: seq<seq<byte>>)
    decreases |comps|
  {
    if comps == [] then k == 0
    else
      && 1 <= k < |t| && UpAll(t[k].name) == UpAll(Cut(comps[|comps| - 1]))
      && Spells(t, t[k].parent, comps[..|comps| - 1])
  }

  lemma {:induction false} SpellsKeep(t: seq<Node>, t': seq<Node>, k: int, comps: seq<seq<byte>>)
    requires t <= t' && Spells(t, k, comps)
    ensures Spells(t', k, comps)
    decreases |comps|
  {
    if comps != [] {
      SpellsKeep(t, t', t[k].parent, comps[..|comps| - 1]);
    }
  }

  lemma {:induction false} NewNodeValid(t: seq<Node>, comp: seq<byte>, parent: nat, isDir: bool, payload: Payload)
    requires Valid(t) && |t| < MAX_NODES && parent < |t| && t[parent].isDir && comp != []
    ensures Valid(NewNode(t, comp, parent, isDir, payload).value)
  {
    var t' := NewNode(t, comp, parent, isDir, payload).value;
    assert forall i | 0 <= i < |t| :: t'[i] == t[i];
  }

  /** Descending by one component. */
  lemma {:induction false} SpellsMore(t: seq<Node>, cur: nat, done: seq<seq<byte>>, comp: seq<byte>, k: nat)
    requires Spells(t, cur, done) && 1 <= k < |t| && t[k].parent == cur && UpAll(t[k].name) == UpAll(Cut(comp))
    ensures Spells(t, k, done + [comp])
  {
    assert (done + [comp])[..|done|] == done;
  }

  /** Inserting keeps the table and, for a file, ends it with a node that carries the payload and whose path
      is the one asked for. */
  lemma {:induction false} InsertOk(t: seq<Node>, cur: nat, done: seq<seq<byte>>, comps: seq<seq<byte>>,
                                    dirsOnly: bool, payload: Payload)
    requires Valid(t) && cur < |t| && t[cur].isDir && Spells(t, cur, done)
    requires (forall i | 0 <= i < |comps| :: comps[i] != []) && Insert(t, cur, comps, dirsOnly, payload).Some?
    ensures var t' := Insert(t, cur, comps, dirsOnly, payload).value;
      && Valid(t') && t <= t'
      && (comps != [] && !dirsOnly ==>
            var k := |t'| - 1;
            k >= 1 && !t'[k].isDir && t'[k].payload == payload && Spells(t', k, done + comps))
    decreases |comps|
  {
    hide Valid, Spells, UpAll, Cut, FindDir, NewNode;
    if comps == [] {
    } else if |comps| == 1 && !dirsOnly {
      NewNodeOk(t, cur, done, comps[0], false, payload);
      assert comps == [comps[0]];
    } else {
      var d := FindDir(t, cur, Cut(comps[0]), 1);
      if d < |t| {
        FoundOk(t, cur, done, comps[0], d);
        InsertOk(t, d, done + [comps[0]], comps[1..], dirsOnly, payload);
      } else {
        NewNodeOk(t, cur, done, comps[0], true, Stored([]));
        var mid := NewNode(t, comps[0], cur, true, Stored([])).value;
        InsertOk(mid, d, done + [comps[0]], comps[1..], dirsOnly, payload);
      }
      assert done + comps == done + [comps[0]] + comps[1..];
    }
  }

  lemma {:induction false} NewNodeOk(t: seq<Node>, cur: nat, done: seq<seq<byte>>, comp: seq<byte>, isDir: bool,
                                     payload: Payload)
    requires Valid(t) && cur < |t| && t[cur].isDir && Spells(t, cur, done) && comp != []
    requires NewNode(t, comp, cur, isDir, payload).Some?
    ensures var u := NewNode(t, comp, cur, isDir, payload).value;
      && Valid(u) && t <= u && |u| == |t| + 1
      && u[|t|].isDir == isDir && u[|t|].payload == payload && Spells(u, |t|, done + [comp])
  {
    hide Valid, Spells, UpAll, Cut;
    var u := NewNode(t, comp, cur, isDir, payload).value;
    NewNodeValid(t, comp, cur, isDir, payload);
    SpellsKeep(t, u, cur, done);
    SpellsMore(u, cur, done, comp, |t|);
  }

  lemma {:induction false} FoundOk(t: seq<Node>, cur: nat, done: seq<seq<byte>>, comp: seq<byte>, d: nat)
    requires |t| >= 1 && Spells(t, cur, done) && d == FindDir(t, cur, Cut(comp), 1) && d < |t|
    ensures 1 <= d && t[d].isDir && Spells(t, d, done + [comp])
  {
    hide Spells, UpAll, Cut;
    SpellsMore(t, cur, done, comp, d);
  }

  // ---------------------------------------------------------------- all members

  datatype Member = Member(path: seq<byte>, payload: Payload)

  /** The table after the first `n` members, `None` once it overflows. */
  function AddAll(ms: seq<Member>, n: nat): (r: Option<seq<Node>>)
    requires n <= |ms|
    ensures r.Some? ==> |r.value| >= 1
    decreases n
  {
    if n == 0 then Some([ROOT]) else
    match AddAll(ms, n - 1)
    case None => None
    case Some(t) => AddPath(t, ms[n - 1].path, ms[n - 1].payload)
  }

  /** A member that becomes a file. */
  predicate IsFile(m: Member) { Components(m.path) != [] && !EndsInSlash(m.path) }

  /** Node `k` is the file of member `m`. */
  ghost predicate IsFileOf(t: seq<Node>, k: int, m: Member) {
    1 <= k < |t| && !t[k].isDir && t[k].payload == m.payload && Spells(t, k, Components(m.path))
  }

  /** Every file member has a node with its payload under its path, whatever is added later. */
  lemma {:induction false} AddAllOk(ms: seq<Member>, n: nat)
    requires n <= |ms| && AddAll(ms, n).Some?
    ensures Valid(AddAll(ms, n).value)
    ensures forall i | 0 <= i < n && IsFile(ms[i]) :: exists k :: IsFileOf(AddAll(ms, n).value, k, ms[i])
    decreases n
  {
    if n == 0 {
      RootValid();
    } else {
      AddAllOk(ms, n - 1);
      hide Valid, AddPath, IsFile, IsFileOf;
      var t, u := AddAll(ms, n - 1).value, AddAll(ms, n).value;
      AddOneOk(t, ms[n - 1], u);
      forall i | 0 <= i < n - 1 && IsFile(ms[i])
        ensures exists k :: IsFileOf(u, k, ms[i])
      {
        var k :| IsFileOf(t, k, ms[i]);
        FileKept(t, u, k, ms[i]);
      }
    }
  }

  lemma {:induction false} AddOneOk(t: seq<Node>, m: Member, u: seq<Node>)
    requires Valid(t) && AddPath(t, m.path, m.payload) == Some(u)
    ensures Valid(u) && t <= u && (IsFile(m) ==> IsFileOf(u, |u| - 1, m))
  {
    hide Valid, Components, Insert, Spells, EndsInSlash;
    RootDir(t);
    InsertOk(t, 0, [], Components(m.path), EndsInSlash(m.path), m.payload);
    assert [] + Components(m.path) == Components(m.path);
  }

  lemma {:induction false} FileKept(t: seq<Node>, u: seq<Node>, k: int, m: Member)
    requires t <= u && IsFileOf(t, k, m)
    ensures IsFileOf(u, k, m)
  {
    hide Spells, Components;
    SpellsKeep(t, u, k, Components(m.path));
  }

  lemma {:induction false} RootValid()
    ensures Valid([ROOT])
  {
  }

  lemma {:induction false} RootDir(t: seq<Node>)
    requires Valid(t)
    ensures |t| >= 1 && t[0].isDir && Spells(t, 0, [])
  {
  }

  // ---------------------------------------------------------------- the builder's own loops

  /** The node table, filled in place. */
  class Tree {
    var nodes: seq<Node>

    constructor ()
      ensures nodes == [ROOT]
    {
      nodes := [ROOT];
    }

    /** new_node: index of the new node, -1 when the table is full. */
    method Append(comp: seq<byte>, parent: int, isDir: bool, payload: Payload) returns (k: int)
      modifies this
      ensures match NewNode(old(nodes), comp, parent, isDir, payload)
              case Some(t) => nodes == t && k == |old(nodes)|
              case None => nodes == old(nodes) && k == -1
    {
      if |nodes| >= MAX_NODES {
        return -1;
      }
      nodes := nodes + [Node(Cut(comp), parent, isDir, payload)];
      return |nodes| - 1;
    }

    /** find_or_add_dir: the directory of that name below `parent`, made if there is none. */
    method FindOrAddDir(parent: int, comp: seq<byte>) returns (k: int)
      requires |nodes| >= 1
      modifies this
      ensures var d := FindDir(old(nodes), parent, Cut(comp), 1);
        if d < |old(nodes)| then nodes == old(nodes) && k == d
        else match NewNode(old(nodes), comp, parent, true, Stored([]))
             case Some(t) => nodes == t && k == d
             case None => nodes == old(nodes) && k == -1
    {
      var name := Cut(comp);
      var j := 1;
      while j < |nodes|
        invariant 1 <= j <= |nodes| && nodes == old(nodes)
        invariant FindDir(nodes, parent, name, j) == FindDir(nodes, parent, name, 1)
      {
        if nodes[j].isDir && nodes[j].parent == parent && UpAll(nodes[j].name) == UpAll(name) {
          return j;
        }
        j := j + 1;
      }
      k := Append(comp, parent, true, Stored([]));
    }

    /** add_path: insert one member, creating the directories on its way. */
    method Add(path: seq<byte>, payload: Payload) returns (ok: bool)
      requires |nodes| >= 1
      modifies this
      ensures |nodes| >= 1
      ensures match AddPath(old(nodes), path, payload)
              case Some(t) => ok && nodes == t
              case None => !ok
    {
      hide FindDir, Components, Insert;
      var endsSlash := |path| > 0 && IsSlash(path[|path| - 1]);
      ghost var goal := AddPath(nodes, path, payload);
      var cur := 0;
      var p := Slashes(path, 0);
      assert path[0..] == path;
      ComponentsSkip(path, 0, p);
      var last := false;
      while p < |path|
        invariant 0 <= p <= |path| && cur >= 0 && |nodes| >= 1 && (p < |path| ==> !IsSlash(path[p]))
        invariant goal == Insert(nodes, cur, Components(path[p..]), endsSlash, payload)
      {
        last, ok, p, cur := Descend(path, p, cur, endsSlash, payload);
        if last {
          return;
        }
      }
      ComponentsNone(path);
      InsertNothing(nodes, cur, endsSlash, payload);
      return true;
    }

    /** One component of the path at `p`: a directory to go on from, or the file it ends with. */
    method Descend(path: seq<byte>, p: nat, cur: nat, endsSlash: bool, payload: Payload)
      returns (last: bool, ok: bool, p': nat, cur': int)
      requires p < |path| && !IsSlash(path[p]) && |nodes| >= 1
      modifies this
      ensures |nodes| >= 1
      ensures var goal := Insert(old(nodes), cur, Components(path[p..]), endsSlash, payload);
        if last then (ok <==> goal.Some?) && (ok ==> nodes == goal.value)
        else p < p' <= |path| && cur' >= 0 && (p' < |path| ==> !IsSlash(path[p']))
             && goal == Insert(nodes, cur', Components(path[p'..]), endsSlash, payload)
    {
      hide FindDir, Components, Insert;
      var n := Component(path, p);
      var comp := path[p..p + n];
      p' := Slashes(path, p + n);
      ComponentsStep(path, p, n, p');
      InsertStep(nodes, cur, comp, Components(path[p'..]), endsSlash, payload);
      if p' == |path| && !endsSlash {
        ComponentsNone(path);
        var k := Append(comp, cur, false, payload);
        return true, k >= 0, p', cur;
      }
      cur' := FindOrAddDir(cur, comp);
      last, ok := cur' < 0, false;
    }
  }

  lemma {:induction false} InsertNothing(t: seq<Node>, cur: nat, dirsOnly: bool, payload: Payload)
    requires |t| >= 1
    ensures Insert(t, cur, [], dirsOnly, payload) == Some(t)
  {
  }

  lemma {:induction false} InsertStep(t: seq<Node>, cur: nat, comp: seq<byte>, rest: seq<seq<byte>>, dirsOnly: bool,
                                      payload: Payload)
    requires |t| >= 1
    ensures rest == [] && !dirsOnly ==>
      Insert(t, cur, [comp] + rest, dirsOnly, payload) == NewNode(t, comp, cur, false, payload)
    ensures rest != [] || dirsOnly ==>
      var d := FindDir(t, cur, Cut(comp), 1);
      Insert(t, cur, [comp] + rest, dirsOnly, payload) ==
      if d < |t| then Insert(t, d, rest, dirsOnly, payload)
      else if |t| >= MAX_NODES then None
      else Insert(NewNode(t, comp, cur, true, Stored([])).value, d, rest, dirsOnly, payload)
  {
    var comps := [comp] + rest;
    assert comps[1..] == rest;
  }

  /** Skip slashes from `p` on. */
  method Slashes(path: seq<byte>, p: nat) returns (q: nat)
    requires p <= |path|
    ensures p <= q <= |path| && path[q..] == SkipSlashes(path[p..]) && (q < |path| ==> !IsSlash(path[q]))
  {
    q := p;
    while q < |path| && IsSlash(path[q])
      invariant p <= q <= |path| && SkipSlashes(path[q..]) == SkipSlashes(path[p..])
    {
      assert path[q..][1..] == path[q + 1..];
      q := q + 1;
    }
  }

  /** Length of the component at `p`. */
  method Component(path: seq<byte>, p: nat) returns (n: nat)
    requires p < |path| && !IsSlash(path[p])
    ensures n == CompLen(path[p..]) && 0 < n <= |path| - p
  {
    n := 0;
    while p + n < |path| && !IsSlash(path[p + n])
      invariant p + n <= |path| && CompLen(path[p..]) == n + CompLen(path[p + n..])
    {
      assert path[p + n..][1..] == path[p + n + 1..];
      n := n + 1;
    }
  }

  lemma {:induction false} ComponentsSkip(path: seq<byte>, p: nat, q: nat)
    requires p <= q <= |path| && path[q..] == SkipSlashes(path[p..])
    ensures Components(path[p..]) == Components(path[q..])
  {
    SkipTwice(path[p..]);
  }

  lemma {:induction false} SkipTwice(s: seq<byte>)
    ensures SkipSlashes(SkipSlashes(s)) == SkipSlashes(s)
  {
  }

  lemma {:induction false} ComponentsStep(path: seq<byte>, p: nat, n: nat, q: nat)
    requires p < |path| && !IsSlash(path[p]) && n == CompLen(path[p..]) && p + n <= q <= |path|
    requires path[q..] == SkipSlashes(path[p + n..])
    ensures Components(path[p..]) == [path[p..p + n]] + Components(path[q..])
    ensures Components(path[q..]) == [] <==> q == |path|
  {
    var s := path[p..];
    assert s[..n] == path[p..p + n] && s[n..] == path[p + n..];
    ComponentsSkip(path, p + n, q);
    SkipTwice(path[p + n..]);
  }

  lemma {:induction false} ComponentsNone(path: seq<byte>)
    ensures Components(path[|path|..]) == []
  {
  }
}
