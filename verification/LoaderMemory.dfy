/** The allocation registry (src/boot/mmu.c) on top of the page allocator, and the theorem that joins both
    with the NT memory map: what was allocated is described once, with its own type, and never as free. */
module LoaderMemory {
  import opened Bits
  import opened FreeList
  import BootEnv
  import MemMap

  const MMU_REGISTRY_MAX: nat := 64
  const BE_MAX_REGIONS: nat := 256

  datatype AllocEntry = AllocEntry(phys: nat, pages: nat, kind: MemMap.PageKind, noMap: bool)

  /** A call that registers memory: mmu_alloc_impl, or mmu_reserve for a range that is there already. */
  datatype Call =
    | Alloc(request: Request, kind: MemMap.PageKind, noMap: bool)
    | Reserve(phys: nat, pages: nat, kind: MemMap.PageKind)

  datatype Memory = Memory(free: seq<Region>, reg: seq<AllocEntry>)

  /** One call: refused when the registry is full, before any page is taken. */
  function Step(m: Memory, a: Call): Memory {
    if |m.reg| >= MMU_REGISTRY_MAX then m
    else match a
      case Alloc(q, kind, noMap) =>
        var x := Chosen(m.free, q);
        Memory(After(m.free, q), if x == 0 then m.reg else m.reg + [AllocEntry(x, q.pages, kind, noMap)])
      case Reserve(_, _, _) => Memory(m.free, m.reg + [Reserved(a)])
  }

  /** The registry entry of a reservation: for the memory map only, not mapped. */
  function Reserved(a: Call): AllocEntry
    requires a.Reserve?
  {
    AllocEntry(a.phys, a.pages, a.kind, true)
  }

  /** The memory after the first `n` calls. */
  function Run(m: Memory, calls: seq<Call>, n: nat): Memory
    requires n <= |calls|
  {
    if n == 0 then m else Step(Run(m, calls, n - 1), calls[n - 1])
  }

  class Mmu {
    const env: BootEnv.BootEnv
    var reg: seq<AllocEntry>

    ghost function Value(): Memory
      reads this, env
    {
      Memory(env.free, reg)
    }

    constructor (env: BootEnv.BootEnv)
      ensures this.env == env && reg == []
    {
      this.env := env;
      reg := [];
    }

    /** mmu_alloc_impl: grab pages and record why; `None` when the registry is full or no pages are. */
    method AllocImpl(a: Call) returns (phys: Option<nat>)
      requires env.Valid() && a.Alloc?
      modifies `reg, env`free
      ensures env.Valid() && Value() == Step(old(Value()), a)
      ensures phys.Some? <==> |old(reg)| < 64 && Chosen(old(env.free), a.request) != 0
      ensures phys.Some? ==> phys.value == Chosen(old(env.free), a.request)
    {
      if |reg| >= MMU_REGISTRY_MAX {
        return None;
      }
      var x := env.AllocPages(a.request);
      if x == 0 {
        return None;
      }
      reg := reg + [AllocEntry(x, a.request.pages, a.kind, a.noMap)];
      return Some(x);
    }

    /** mmu_reserve: record a range that is not to be handed out, unless the registry is full. */
    method ReserveRange(phys: nat, pages: nat, kind: MemMap.PageKind) returns (ok: bool)
      modifies `reg
      ensures Value() == Step(old(Value()), Reserve(phys, pages, kind))
      ensures ok <==> |old(reg)| < 64
    {
      if |reg| >= MMU_REGISTRY_MAX {
        return false;
      }
      reg := reg + [AllocEntry(phys, pages, kind, true)];
      return true;
    }
  }

  // ---------------------------------------------------------------- what a run of allocations keeps

  function BlockOf(e: AllocEntry): Region { Region(e.phys, e.phys + e.pages * PAGE) }

  function BlocksOf(reg: seq<AllocEntry>): (r: seq<Region>)
    ensures |r| == |reg| && forall i | 0 <= i < |reg| :: r[i] == BlockOf(reg[i])
  {
    seq(|reg|, i requires 0 <= i < |reg| => BlockOf(reg[i]))
  }

  /** A range of whole pages, none of which was free at the start. */
  ghost predicate Kept(free: seq<Region>, b: Region) {
    b.base % PAGE == 0 && b.end % PAGE == 0 && b.base < b.end < WORD64 && NoneFree(free, b)
  }

  /** Calls in order: good requests, and reservations of kept ranges that do not overlap one another. */
  ghost predicate GoodCalls(free: seq<Region>, calls: seq<Call>) {
    && (forall i | 0 <= i < |calls| && calls[i].Alloc? :: Good(calls[i].request))
    && (forall i | 0 <= i < |calls| && calls[i].Reserve? :: Kept(free, BlockOf(Reserved(calls[i]))))
    && forall i, j | 0 <= i < j < |calls| && calls[i].Reserve? && calls[j].Reserve? ::
         Apart(BlockOf(Reserved(calls[i])), BlockOf(Reserved(calls[j])))
  }

  ghost predicate ReservedBefore(calls: seq<Call>, n: nat, e: AllocEntry)
    requires n <= |calls|
  {
    exists k | 0 <= k < n :: calls[k].Reserve? && e == Reserved(calls[k])
  }

  /** Where a registered entry comes from: taken from the memory free at the start, and not free now, or reserved
      by one of the first `n` calls. */
  ghost predicate Sourced(free: seq<Region>, free': seq<Region>, calls: seq<Call>, n: nat, e: AllocEntry)
    requires n <= |calls|
  {
    Taken(free, free', BlockOf(e)) || ReservedBefore(calls, n, e)
  }

  /** After `n` calls: the free list is sound and has only shrunk, and the registered blocks are pairwise disjoint,
      each from a proper source. */
  ghost predicate Accounted(free: seq<Region>, m: Memory, calls: seq<Call>, n: nat)
    requires n <= |calls|
  {
    && Paged(m.free) && NullPageTaken(m.free) && Shrinks(free, m.free) && Disjoint(BlocksOf(m.reg))
    && forall i | 0 <= i < |m.reg| :: Sourced(free, m.free, calls, n, m.reg[i])
  }

  /** A block free in `free` is apart from a kept range. */
  lemma {:induction false} FreeApartKept(free: seq<Region>, b: Region, k: Region)
    requires AllFree(free, b) && b.base < b.end && Kept(free, k)
    ensures Apart(b, k)
  {
    hide Covered;
    var x := if b.base >= k.base then b.base else k.base;
    assert !(In(x, b) && In(x, k));
  }

  /** A block just taken is apart from every one registered before. */
  lemma {:induction false} NewApart(free: seq<Region>, m: Memory, calls: seq<Call>, n: nat, free': seq<Region>,
                                    b: Region, i: nat)
    requires n <= |calls| && Accounted(free, m, calls, n) && GoodCalls(free, calls) && i < |m.reg|
    requires Taken(m.free, free', b)
    ensures Apart(BlockOf(m.reg[i]), b)
  {
    hide Covered, Paged;
    assert Sourced(free, m.free, calls, n, m.reg[i]);
    var old' := BlockOf(m.reg[i]);
    if Taken(free, m.free, old') {
      var x := if b.base >= old'.base then b.base else old'.base;
      assert !(In(x, b) && In(x, old'));
    } else {
      var k :| 0 <= k < n && calls[k].Reserve? && m.reg[i] == Reserved(calls[k]);
      FreeApartKept(free, b, old');
    }
  }

  /** A reserved range is apart from every one registered before. */
  lemma {:induction false} ReservedApart(free: seq<Region>, m: Memory, calls: seq<Call>, n: nat, i: nat)
    requires n < |calls| && Accounted(free, m, calls, n) && GoodCalls(free, calls) && i < |m.reg| && calls[n].Reserve?
    ensures Apart(BlockOf(m.reg[i]), BlockOf(Reserved(calls[n])))
  {
    hide Covered, Paged;
    assert Sourced(free, m.free, calls, n, m.reg[i]);
    if Taken(free, m.free, BlockOf(m.reg[i])) {
      FreeApartKept(free, BlockOf(m.reg[i]), BlockOf(Reserved(calls[n])));
    } else {
      var k :| 0 <= k < n && calls[k].Reserve? && m.reg[i] == Reserved(calls[k]);
    }
  }

  /** Sources stay proper as the free list shrinks and calls go on. */
  lemma {:induction false} SourcedLater(free: seq<Region>, mid: seq<Region>, free': seq<Region>, calls: seq<Call>,
                                        n: nat, e: AllocEntry)
    requires n < |calls| && Sourced(free, mid, calls, n, e) && Shrinks(mid, free')
    ensures Sourced(free, free', calls, n + 1, e)
  {
    hide Covered;
    if !Taken(free, mid, BlockOf(e)) {
      var k :| 0 <= k < n && calls[k].Reserve? && e == Reserved(calls[k]);
      assert calls[k].Reserve? && e == Reserved(calls[k]);
    }
  }

  lemma {:induction false} BlocksMore(reg: seq<AllocEntry>, e: AllocEntry)
    ensures BlocksOf(reg + [e]) == BlocksOf(reg) + [BlockOf(e)]
  {
  }

  /** The registry with one entry more. */
  lemma {:induction false} EntryMore(free: seq<Region>, m: Memory, free': seq<Region>, calls: seq<Call>, n: nat,
                                     e: AllocEntry)
    requires n < |calls| && Accounted(free, m, calls, n) && Paged(free') && NullPageTaken(free')
    requires Shrinks(free, free') && Shrinks(m.free, free') && Sourced(free, free', calls, n + 1, e)
    requires forall i | 0 <= i < |m.reg| :: Apart(BlockOf(m.reg[i]), BlockOf(e))
    ensures Accounted(free, Memory(free', m.reg + [e]), calls, n + 1)
  {
    hide Covered, Paged, Sourced;
    BlocksMore(m.reg, e);
    DisjointAppend(BlocksOf(m.reg), [BlockOf(e)]);
    forall i | 0 <= i < |m.reg + [e]|
      ensures Sourced(free, free', calls, n + 1, (m.reg + [e])[i])
    {
      if i < |m.reg| {
        SourcedLater(free, m.free, free', calls, n, m.reg[i]);
      }
    }
  }

  lemma {:induction false} NoEntry(free: seq<Region>, m: Memory, free': seq<Region>, calls: seq<Call>, n: nat)
    requires n < |calls| && Accounted(free, m, calls, n) && Paged(free') && NullPageTaken(free')
    requires Shrinks(free, free') && Shrinks(m.free, free')
    ensures Accounted(free, Memory(free', m.reg), calls, n + 1)
  {
    hide Covered, Paged, Sourced;
    forall i | 0 <= i < |m.reg|
      ensures Sourced(free, free', calls, n + 1, m.reg[i])
    {
      SourcedLater(free, m.free, free', calls, n, m.reg[i]);
    }
  }

  lemma {:induction false} StepAccounted(free: seq<Region>, m: Memory, calls: seq<Call>, n: nat)
    requires n < |calls| && Accounted(free, m, calls, n) && GoodCalls(free, calls)
    ensures Accounted(free, Step(m, calls[n]), calls, n + 1)
  {
    if |m.reg| >= MMU_REGISTRY_MAX {
      hide Accounted, GoodCalls;
      AccountedFacts(free, m, calls, n);
      NoEntry(free, m, m.free, calls, n);
    } else if calls[n].Alloc? {
      AllocAccounted(free, m, calls, n);
    } else {
      hide Covered, Paged, GoodCalls, Accounted;
      AccountedFacts(free, m, calls, n);
      var e := Reserved(calls[n]);
      forall i | 0 <= i < |m.reg|
        ensures Apart(BlockOf(m.reg[i]), BlockOf(e))
      {
        ReservedApart(free, m, calls, n, i);
      }
      assert ReservedBefore(calls, n + 1, e);
      EntryMore(free, m, m.free, calls, n, e);
    }
  }

  lemma {:induction false} AccountedFacts(free: seq<Region>, m: Memory, calls: seq<Call>, n: nat)
    requires n <= |calls| && Accounted(free, m, calls, n)
    ensures Paged(m.free) && NullPageTaken(m.free) && Shrinks(free, m.free) && Shrinks(m.free, m.free)
  {
  }

  lemma {:induction false} AllocAccounted(free: seq<Region>, m: Memory, calls: seq<Call>, n: nat)
    requires n < |calls| && Accounted(free, m, calls, n) && GoodCalls(free, calls)
    requires |m.reg| < MMU_REGISTRY_MAX && calls[n].Alloc?
    ensures Accounted(free, Step(m, calls[n]), calls, n + 1)
  {
    var q := calls[n].request;
    assert Good(q);
    hide Covered, Paged, Chosen, After, Accounted, GoodCalls, Sourced;
    AccountedFacts(free, m, calls, n);
    AllocSound(m.free, q);
    var mid, x := After(m.free, q), Chosen(m.free, q);
    ShrinksTrans(free, m.free, mid);
    if x != 0 {
      var e := AllocEntry(x, q.pages, calls[n].kind, calls[n].noMap);
      assert BlockOf(e) == Region(x, x + Bytes(q));
      forall i | 0 <= i < |m.reg|
        ensures Apart(BlockOf(m.reg[i]), BlockOf(e))
      {
        NewApart(free, m, calls, n, mid, BlockOf(e), i);
      }
      TakenSourced(free, m.free, mid, calls, n + 1, e);
      EntryMore(free, m, mid, calls, n, e);
    } else {
      NoEntry(free, m, mid, calls, n);
    }
  }

  lemma {:induction false} TakenSourced(free: seq<Region>, mid: seq<Region>, free': seq<Region>, calls: seq<Call>,
                                        n: nat, e: AllocEntry)
    requires n <= |calls| && Shrinks(free, mid) && Taken(mid, free', BlockOf(e))
    ensures Sourced(free, free', calls, n, e)
  {
    hide Covered;
  }

  /** After any sequence of calls. */
  lemma {:induction false} RunAccounted(free: seq<Region>, calls: seq<Call>, n: nat)
    requires Paged(free) && NullPageTaken(free) && n <= |calls| && GoodCalls(free, calls)
    ensures Accounted(free, Run(Memory(free, []), calls, n), calls, n)
    decreases n
  {
    hide Covered, Paged, NullPageTaken, Step, Accounted, GoodCalls;
    if n == 0 {
      NothingRegistered(free, calls);
    } else {
      RunAccounted(free, calls, n - 1);
      StepAccounted(free, Run(Memory(free, []), calls, n - 1), calls, n - 1);
    }
  }

  lemma {:induction false} NothingRegistered(free: seq<Region>, calls: seq<Call>)
    requires Paged(free) && NullPageTaken(free)
    ensures Accounted(free, Memory(free, []), calls, 0)
  {
    hide Covered, Paged;
  }

  // ---------------------------------------------------------------- descriptors and pages

  predicate InEntry(e: MemMap.NtEntry, p: int) { e.base <= p < e.base + e.count }

  /** Exactly one descriptor holds page `p`, and it has this type. */
  ghost predicate DescribedOnce(out: seq<MemMap.NtEntry>, p: int, kind: nat) {
    exists j :: 0 <= j < |out| && InEntry(out[j], p) && out[j].kind == kind
      && forall l | 0 <= l < |out| && InEntry(out[l], p) :: l == j
  }

  lemma {:induction false} PrefixShorter(out: seq<MemMap.NtEntry>, j: nat)
    requires j <= |out|
    ensures |MemMap.Expand(out[..j])| <= |MemMap.Expand(out)|
    decreases |out|
  {
    if j < |out| {
      var n := |out| - 1;
      PrefixShorter(out[..n], j);
      assert out[..n][..j] == out[..j];
    } else {
      assert out[..j] == out;
    }
  }

  /** Where page `k` of descriptor `j` stands in the expansion. */
  lemma {:induction false} ExpandAt(out: seq<MemMap.NtEntry>, j: nat, k: nat)
    requires j < |out| && k < out[j].count
    ensures |MemMap.Expand(out[..j + 1])| == |MemMap.Expand(out[..j])| + out[j].count <= |MemMap.Expand(out)|
    ensures MemMap.Expand(out)[|MemMap.Expand(out[..j])| + k] == MemMap.TypedPage(out[j].base + k, out[j].kind)
    decreases |out|
  {
    var n := |out| - 1;
    if j < n {
      ExpandAt(out[..n], j, k);
      assert out[..n][..j] == out[..j] && out[..n][..j + 1] == out[..j + 1];
    } else {
      assert out[..j + 1] == out;
    }
  }

  /** The descriptor that accounts for place `a` of the expansion. */
  lemma {:induction false} ExpandFrom(out: seq<MemMap.NtEntry>, a: nat) returns (j: nat)
    requires a < |MemMap.Expand(out)|
    ensures j < |out| && InEntry(out[j], MemMap.Expand(out)[a].page) && out[j].kind == MemMap.Expand(out)[a].kind
    decreases |out|
  {
    var n := |out| - 1;
    if a < |MemMap.Expand(out[..n])| {
      j := ExpandFrom(out[..n], a);
    } else {
      j := n;
    }
  }

  ghost predicate Distinct(s: seq<MemMap.TypedPage>) {
    forall a, b | 0 <= a < b < |s| :: s[a].page != s[b].page
  }

  /** Descriptors account for their pages one after the other. */
  lemma {:induction false} PlacesApart(out: seq<MemMap.NtEntry>, j: nat, l: nat)
    requires j < l <= |out|
    ensures |MemMap.Expand(out[..j + 1])| <= |MemMap.Expand(out[..l])|
  {
    PrefixShorter(out[..l], j + 1);
    assert out[..l][..j + 1] == out[..j + 1];
  }

  /** If no page is listed twice, a listed page has exactly one descriptor. */
  lemma {:induction false} ListedOnce(out: seq<MemMap.NtEntry>, a: nat)
    requires Distinct(MemMap.Expand(out)) && a < |MemMap.Expand(out)|
    ensures DescribedOnce(out, MemMap.Expand(out)[a].page, MemMap.Expand(out)[a].kind)
  {
    var p := MemMap.Expand(out)[a].page;
    var j := ExpandFrom(out, a);
    ExpandAt(out, j, p - out[j].base);
    hide MemMap.Expand;
    forall l | 0 <= l < |out| && InEntry(out[l], p)
      ensures l == j
    {
      ExpandAt(out, l, p - out[l].base);
      if l < j {
        PlacesApart(out, l, j);
      } else if j < l {
        PlacesApart(out, j, l);
      }
    }
  }

  // ---------------------------------------------------------------- the regions of the memory map

  function PagesOfE820(e: BootEnv.E820): MemMap.PageRegion {
    MemMap.PageRegion(e.addr / PAGE, e.size / PAGE, BootEnv.MemTypeOf(e.kind))
  }

  /** The map be_memory_regions hands to memmap_to_nt, in pages. */
  function MapRegions(e820: seq<BootEnv.E820>): (r: seq<MemMap.PageRegion>)
    ensures |r| == Min(|e820|, 256) && forall i | 0 <= i < |r| :: r[i] == PagesOfE820(e820[i])
  {
    seq(Min(|e820|, BE_MAX_REGIONS), i requires 0 <= i < Min(|e820|, BE_MAX_REGIONS) => PagesOfE820(e820[i]))
  }

  predicate InPages(g: MemMap.PageRegion, p: int) { g.base <= p < g.base + g.pages }

  /** Page-aligned entries that do not overlap. */
  ghost predicate Tidy(e820: seq<BootEnv.E820>) {
    && |e820| <= BE_MAX_REGIONS
    && (forall i | 0 <= i < |e820| :: e820[i].addr % PAGE == 0 && e820[i].size % PAGE == 0)
    && forall i, j | 0 <= i < j < |e820| ::
         Apart(Region(e820[i].addr, e820[i].addr + e820[i].size), Region(e820[j].addr, e820[j].addr + e820[j].size))
  }

  ghost predicate RegionsApart(regions: seq<MemMap.PageRegion>) {
    forall i, j, p | 0 <= i < j < |regions| && InPages(regions[i], p) :: !InPages(regions[j], p)
  }

  lemma {:induction false} TidyApart(e820: seq<BootEnv.E820>)
    requires Tidy(e820)
    ensures RegionsApart(MapRegions(e820))
  {
    var regions := MapRegions(e820);
    forall i, j, p | 0 <= i < j < |regions| && InPages(regions[i], p)
      ensures !InPages(regions[j], p)
    {
      assert Apart(Region(e820[i].addr, e820[i].addr + e820[i].size),
                   Region(e820[j].addr, e820[j].addr + e820[j].size));
    }
  }

  /** The region a listed page comes from. */
  lemma {:induction false} TypedFrom(reg: seq<MemMap.Entry>, regions: seq<MemMap.PageRegion>, n: nat, a: nat)
    returns (i: nat)
    requires n <= |regions| && a < |MemMap.AllTyped(reg, regions, n)|
    ensures i < n && InPages(regions[i], MemMap.AllTyped(reg, regions, n)[a].page) && !regions[i].kind.Reserved?
    decreases n
  {
    if a < |MemMap.AllTyped(reg, regions, n - 1)| {
      i := TypedFrom(reg, regions, n - 1, a);
    } else {
      i := n - 1;
    }
  }

  lemma {:induction false} TypedDistinct(reg: seq<MemMap.Entry>, regions: seq<MemMap.PageRegion>, n: nat)
    requires n <= |regions| && RegionsApart(regions)
    ensures Distinct(MemMap.AllTyped(reg, regions, n))
    decreases n
  {
    if n > 0 {
      TypedDistinct(reg, regions, n - 1);
      var s, g := MemMap.AllTyped(reg, regions, n - 1), regions[n - 1];
      forall a | 0 <= a < |s|
        ensures !InPages(g, s[a].page)
      {
        var i := TypedFrom(reg, regions, n - 1, a);
      }
    }
  }

  /** Every page of a RAM region is listed, with its type. */
  lemma {:induction false} TypedHas(reg: seq<MemMap.Entry>, regions: seq<MemMap.PageRegion>, n: nat, i: nat, p: int)
    returns (a: nat)
    requires i < n <= |regions| && !regions[i].kind.Reserved? && InPages(regions[i], p)
    ensures a < |MemMap.AllTyped(reg, regions, n)|
    ensures MemMap.AllTyped(reg, regions, n)[a]
         == MemMap.TypedPage(p, MemMap.TypeOf(reg, MemMap.MemTypeToNt(regions[i].kind), p))
    decreases n
  {
    if i < n - 1 {
      a := TypedHas(reg, regions, n - 1, i, p);
    } else {
      a := |MemMap.AllTyped(reg, regions, n - 1)| + (p - regions[i].base);
    }
  }

  // ---------------------------------------------------------------- allocator and memory map together

  function Entries(reg: seq<AllocEntry>): (r: seq<MemMap.Entry>)
    ensures |r| == |reg|
    ensures forall i | 0 <= i < |reg| :: r[i] == MemMap.Entry(reg[i].phys / PAGE, reg[i].pages, reg[i].kind)
  {
    seq(|reg|, i requires 0 <= i < |reg| => MemMap.Entry(reg[i].phys / PAGE, reg[i].pages, reg[i].kind))
  }

  lemma {:induction false} PageInBlock(e: AllocEntry, p: int)
    requires e.phys % PAGE == 0
    ensures MemMap.Holds(MemMap.Entry(e.phys / PAGE, e.pages, e.kind), p) <==> In(p * PAGE, BlockOf(e))
  {
  }

  /** Registered blocks are whole pages, at least one, below the end of memory. */
  lemma {:induction false} EntryPaged(free: seq<Region>, m: Memory, calls: seq<Call>, n: nat, i: nat)
    requires n <= |calls| && Paged(free) && Accounted(free, m, calls, n) && GoodCalls(free, calls) && i < |m.reg|
    ensures var b := BlockOf(m.reg[i]); b.base % PAGE == 0 && b.end % PAGE == 0 && b.base < b.end < WORD64
  {
    assert Sourced(free, m.free, calls, n, m.reg[i]);
    var b := BlockOf(m.reg[i]);
    if Taken(free, m.free, b) {
      assert In(b.end - 1, b);
      CoveredLow(free, b.end - 1);
    } else {
      var k :| 0 <= k < n && calls[k].Reserve? && m.reg[i] == Reserved(calls[k]);
    }
  }

  lemma {:induction false} CoveredLow(free: seq<Region>, x: int)
    requires Paged(free) && Covered(free, x)
    ensures x < WORD64 - PAGE
  {
  }

  lemma {:induction false} EntriesSeparate(free: seq<Region>, m: Memory, calls: seq<Call>, n: nat)
    requires n <= |calls| && Paged(free) && Accounted(free, m, calls, n) && GoodCalls(free, calls)
    ensures MemMap.Separate(Entries(m.reg))
  {
    var es, blocks := Entries(m.reg), BlocksOf(m.reg);
    hide Paged, GoodCalls;
    forall i, j, p | 0 <= i < j < |es| && MemMap.Holds(es[i], p)
      ensures !MemMap.Holds(es[j], p)
    {
      EntryPaged(free, m, calls, n, i);
      EntryPaged(free, m, calls, n, j);
      PageInBlock(m.reg[i], p);
      PageInBlock(m.reg[j], p);
      assert Apart(blocks[i], blocks[j]);
    }
  }

  /** Boot memory, what was allocated from it, and the descriptors made of both. */
  datatype Boot = Boot(e820: seq<BootEnv.E820>, image: BootEnv.Extent, initrd: Option<BootEnv.Extent>)

  /** The ends of image and initrd round up to a page without wrapping around. */
  predicate Extents(b: Boot) {
    BootEnv.RoundsEnd(b.image) && (b.initrd.Some? ==> BootEnv.RoundsEnd(b.initrd.value))
  }

  /** Page `p` lies in a region of the map that is RAM. */
  ghost predicate InRam(e820: seq<BootEnv.E820>, p: int) {
    exists g | 0 <= g < |MapRegions(e820)| :: InPages(MapRegions(e820)[g], p) && !MapRegions(e820)[g].kind.Reserved?
  }

  ghost predicate BootOk(b: Boot, calls: seq<Call>) {
    && Tidy(b.e820) && Extents(b)
    && GoodCalls(FreeAtBoot(b), calls)
    && forall i, p | 0 <= i < |calls| && calls[i].Reserve? && In(p * PAGE, BlockOf(Reserved(calls[i]))) ::
         InRam(b.e820, p)
  }

  function FreeAtBoot(b: Boot): seq<Region> { BootEnv.InitialFree(b.e820, b.image, b.initrd) }

  function Registered(b: Boot, calls: seq<Call>): seq<AllocEntry> {
    Run(Memory(FreeAtBoot(b), []), calls, |calls|).reg
  }

  function Descriptors(b: Boot, calls: seq<Call>, cap: nat): seq<MemMap.NtEntry> {
    var regions := MapRegions(b.e820);
    MemMap.NtMap(Entries(Registered(b, calls)), regions, |regions|, cap)
  }

  lemma {:induction false} BootAccounted(b: Boot, calls: seq<Call>)
    requires BootOk(b, calls)
    ensures Accounted(FreeAtBoot(b), Run(Memory(FreeAtBoot(b), []), calls, |calls|), calls, |calls|)
    ensures Paged(FreeAtBoot(b)) && GoodCalls(FreeAtBoot(b), calls)
  {
    hide Paged, Covered, Accounted, BootEnv.InitialFree, GoodCalls;
    TidyRounds(b.e820);
    BootEnv.InitialFreeOk(b.e820, b.image, b.initrd);
    RunAccounted(FreeAtBoot(b), calls, |calls|);
  }

  /** Usable RAM is in a region of the map that is coarsely free. */
  lemma {:induction false} UsableRegion(e820: seq<BootEnv.E820>, p: int) returns (i: nat)
    requires Tidy(e820) && BootEnv.Usable(e820, p * PAGE)
    ensures i < |MapRegions(e820)| && InPages(MapRegions(e820)[i], p) && MapRegions(e820)[i].kind.Free?
  {
    hide BootEnv.HasPage;
    i :| 0 <= i < |e820| && BootEnv.HasPage(e820[i], p * PAGE);
    UsablePage(e820[i], p);
  }

  lemma {:induction false} UsablePage(e: BootEnv.E820, p: int)
    requires e.addr % PAGE == 0 && e.size % PAGE == 0 && BootEnv.HasPage(e, p * PAGE)
    ensures e.kind == 1 && InPages(PagesOfE820(e), p)
  {
    assert PgDn(p * PAGE) == p * PAGE;
  }

  /** Page-aligned addresses round without wrapping around. */
  lemma {:induction false} TidyRounds(e820: seq<BootEnv.E820>)
    requires Tidy(e820)
    ensures BootEnv.AllRound(e820)
  {
  }

  /** A page of a registered block, before any descriptor is made: it is in a region of RAM, and in no other
      registered block. */
  lemma {:induction false} RegisteredPage(b: Boot, calls: seq<Call>, i: nat, p: int) returns (g: nat)
    requires BootOk(b, calls) && i < |Registered(b, calls)|
    requires MemMap.Holds(Entries(Registered(b, calls))[i], p)
    ensures g < |MapRegions(b.e820)| && InPages(MapRegions(b.e820)[g], p) && !MapRegions(b.e820)[g].kind.Reserved?
    ensures MemMap.Separate(Entries(Registered(b, calls)))
  {
    hide Covered, Paged, Run, FreeAtBoot, GoodCalls, Accounted, BootOk, MemMap.Separate, InRam;
    var free := FreeAtBoot(b);
    var m := Run(Memory(free, []), calls, |calls|);
    BootAccounted(b, calls);
    EntriesSeparate(free, m, calls, |calls|);
    EntryPaged(free, m, calls, |calls|, i);
    PageInBlock(m.reg[i], p);
    EntrySource(free, m, calls, |calls|, i);
    if Taken(free, m.free, BlockOf(m.reg[i])) {
      BootFacts(b, calls);
      g := TakenPage(b, m.free, BlockOf(m.reg[i]), p);
    } else {
      g := ReservedPage(b, calls, m.reg[i], p);
    }
  }

  lemma {:induction false} BootFacts(b: Boot, calls: seq<Call>)
    requires BootOk(b, calls)
    ensures Tidy(b.e820) && Extents(b)
  {
  }

  lemma {:induction false} EntrySource(free: seq<Region>, m: Memory, calls: seq<Call>, n: nat, i: nat)
    requires n <= |calls| && Accounted(free, m, calls, n) && i < |m.reg|
    ensures Taken(free, m.free, BlockOf(m.reg[i])) || ReservedBefore(calls, n, m.reg[i])
  {
    hide Taken;
    assert Sourced(free, m.free, calls, n, m.reg[i]);
  }

  lemma {:induction false} ReservedPage(b: Boot, calls: seq<Call>, e: AllocEntry, p: int) returns (g: nat)
    requires BootOk(b, calls) && ReservedBefore(calls, |calls|, e) && In(p * PAGE, BlockOf(e))
    ensures g < |MapRegions(b.e820)| && InPages(MapRegions(b.e820)[g], p) && !MapRegions(b.e820)[g].kind.Reserved?
  {
    hide GoodCalls, Tidy;
    var k :| 0 <= k < |calls| && calls[k].Reserve? && e == Reserved(calls[k]);
    assert InRam(b.e820, p);
    g :| 0 <= g < |MapRegions(b.e820)| && InPages(MapRegions(b.e820)[g], p) && !MapRegions(b.e820)[g].kind.Reserved?;
  }

  lemma {:induction false} TakenPage(b: Boot, free': seq<Region>, block: Region, p: int) returns (g: nat)
    requires Tidy(b.e820) && Extents(b)
    requires Taken(FreeAtBoot(b), free', block) && In(p * PAGE, block)
    ensures g < |MapRegions(b.e820)| && InPages(MapRegions(b.e820)[g], p) && MapRegions(b.e820)[g].kind.Free?
  {
    hide Covered, BootEnv.InitialFree, BootEnv.Usable;
    TidyRounds(b.e820);
    BootEnv.InitialFreeOk(b.e820, b.image, b.initrd);
    assert Covered(FreeAtBoot(b), p * PAGE);
    g := UsableRegion(b.e820, p);
  }

  // ---------------------------------------------------------------- every page, by NT's own numbers

  ghost predicate Unheld(reg: seq<MemMap.Entry>, p: int) {
    forall i | 0 <= i < |reg| :: !MemMap.Holds(reg[i], p)
  }

  /** A page of a RAM region is in exactly one descriptor, of the type its allocation or else its region gives. */
  lemma {:induction false} RamDescribedOnce(reg: seq<MemMap.Entry>, regions: seq<MemMap.PageRegion>, cap: nat, g: nat,
                                            p: int)
    requires MemMap.Separate(reg) && RegionsApart(regions) && |MemMap.NtMap(reg, regions, |regions|, cap)| < cap
    requires g < |regions| && !regions[g].kind.Reserved? && InPages(regions[g], p)
    ensures DescribedOnce(MemMap.NtMap(reg, regions, |regions|, cap), p,
                          MemMap.TypeOf(reg, MemMap.MemTypeToNt(regions[g].kind), p))
  {
    hide MemMap.NtMap, MemMap.Expand, MemMap.AllTyped, MemMap.TypeOf, MemMap.MemTypeToNt;
    MemMap.NtMapExpands(reg, regions, |regions|, cap);
    TypedDistinct(reg, regions, |regions|);
    var a := TypedHas(reg, regions, |regions|, g, p);
    ListedOnce(MemMap.NtMap(reg, regions, |regions|, cap), a);
  }

  /** A page no allocation holds keeps the coarse type of its region: 2 free, 5 to be reclaimed, 6 firmware. */
  lemma {:induction false} CoarseDescribedOnce(reg: seq<MemMap.Entry>, regions: seq<MemMap.PageRegion>, cap: nat,
                                               g: nat, p: int)
    requires MemMap.Separate(reg) && RegionsApart(regions) && |MemMap.NtMap(reg, regions, |regions|, cap)| < cap
    requires g < |regions| && InPages(regions[g], p) && Unheld(reg, p)
    ensures var out := MemMap.NtMap(reg, regions, |regions|, cap);
      && (regions[g].kind.Free? ==> DescribedOnce(out, p, 2))
      && (regions[g].kind.BootReclaim? ==> DescribedOnce(out, p, 5))
      && (regions[g].kind.Firmware? ==> DescribedOnce(out, p, 6))
  {
    hide MemMap.NtMap, MemMap.TypeOf, DescribedOnce, MemMap.Separate, RegionsApart;
    if !regions[g].kind.Reserved? {
      MemMap.TypeOfNone(reg, MemMap.MemTypeToNt(regions[g].kind), p);
      RamDescribedOnce(reg, regions, cap, g, p);
    }
  }

  /** Page `p` is in exactly one descriptor, of the type NT has for this kind. */
  ghost predicate Numbered(out: seq<MemMap.NtEntry>, p: int, kind: MemMap.PageKind) {
    && (kind.PkFree? ==> DescribedOnce(out, p, 2))
    && (kind.PkFirmwareTemp? ==> DescribedOnce(out, p, 5))
    && (kind.PkFirmwarePerm? ==> DescribedOnce(out, p, 6))
    && (kind.PkKernelImage? ==> DescribedOnce(out, p, 9))
    && (kind.PkHalImage? ==> DescribedOnce(out, p, 10))
    && (kind.PkBootDriver? ==> DescribedOnce(out, p, 11))
    && (kind.PkPcr? ==> DescribedOnce(out, p, 17))
    && (kind.PkRegistry? ==> DescribedOnce(out, p, 19))
    && (kind.PkMemoryData? ==> DescribedOnce(out, p, 20))
    && (kind.PkNls? ==> DescribedOnce(out, p, 21))
  }

  /** A page an allocation holds has the type of its kind, whatever its region. */
  lemma {:induction false} KindDescribedOnce(reg: seq<MemMap.Entry>, regions: seq<MemMap.PageRegion>, cap: nat, g: nat,
                                             p: int, i: nat)
    requires MemMap.Separate(reg) && RegionsApart(regions) && |MemMap.NtMap(reg, regions, |regions|, cap)| < cap
    requires g < |regions| && !regions[g].kind.Reserved? && InPages(regions[g], p)
    requires i < |reg| && MemMap.Holds(reg[i], p)
    ensures Numbered(MemMap.NtMap(reg, regions, |regions|, cap), p, reg[i].kind)
  {
    hide MemMap.NtMap, MemMap.TypeOf, DescribedOnce, MemMap.Separate, RegionsApart, MemMap.MemTypeToNt, InPages;
    MemMap.TypeOfIs(reg, MemMap.MemTypeToNt(regions[g].kind), p, i);
    RamDescribedOnce(reg, regions, cap, g, p);
  }

  /** A page outside every RAM region is in no descriptor. */
  lemma {:induction false} OutsideUndescribed(reg: seq<MemMap.Entry>, regions: seq<MemMap.PageRegion>, cap: nat, p: int,
                                              j: nat)
    requires MemMap.Separate(reg) && |MemMap.NtMap(reg, regions, |regions|, cap)| < cap
    requires forall g | 0 <= g < |regions| && InPages(regions[g], p) :: regions[g].kind.Reserved?
    requires j < |MemMap.NtMap(reg, regions, |regions|, cap)|
    ensures !InEntry(MemMap.NtMap(reg, regions, |regions|, cap)[j], p)
  {
    hide MemMap.NtMap, MemMap.Expand, MemMap.AllTyped, InPages;
    var out := MemMap.NtMap(reg, regions, |regions|, cap);
    if InEntry(out[j], p) {
      MemMap.NtMapExpands(reg, regions, |regions|, cap);
      ExpandAt(out, j, p - out[j].base);
      var g := TypedFrom(reg, regions, |regions|, |MemMap.Expand(out[..j])| + (p - out[j].base));
      assert false;
    }
  }

  /** All of page `p` lies in an e820 entry of one of these types. */
  ghost predicate InE820(e820: seq<BootEnv.E820>, p: int, types: set<nat>) {
    exists g :: 0 <= g < |e820| && e820[g].kind in types && PageInside(e820[g], p)
  }

  predicate PageInside(e: BootEnv.E820, p: int) {
    e.addr <= p * PAGE && (p + 1) * PAGE <= e.addr + e.size
  }

  lemma {:induction false} PageInsideIs(e: BootEnv.E820, p: int)
    requires e.addr % PAGE == 0 && e.size % PAGE == 0
    ensures PageInside(e, p) <==> InPages(PagesOfE820(e), p)
  {
  }

  ghost predicate Unregistered(b: Boot, calls: seq<Call>, p: int) { Unheld(Entries(Registered(b, calls)), p) }

  lemma {:induction false} BootSeparate(b: Boot, calls: seq<Call>)
    requires BootOk(b, calls)
    ensures MemMap.Separate(Entries(Registered(b, calls))) && RegionsApart(MapRegions(b.e820))
    ensures |MapRegions(b.e820)| == |b.e820| && forall g | 0 <= g < |b.e820| ::
      forall p :: PageInside(b.e820[g], p) <==> InPages(MapRegions(b.e820)[g], p)
  {
    hide Covered, Paged, Run, FreeAtBoot, GoodCalls, Accounted, MemMap.Separate, InRam;
    BootAccounted(b, calls);
    EntriesSeparate(FreeAtBoot(b), Run(Memory(FreeAtBoot(b), []), calls, |calls|), calls, |calls|);
    TidyApart(b.e820);
    forall g, p | 0 <= g < |b.e820|
      ensures PageInside(b.e820[g], p) <==> InPages(MapRegions(b.e820)[g], p)
    {
      PageInsideIs(b.e820[g], p);
    }
  }

  /** For page-aligned, non-overlapping e820 entries and a descriptor count below capacity, after any sequence of
      allocations every page that was not handed out is described by the map alone: usable RAM once as free, ACPI
      memory once as permanent firmware, and anything else not at all. */
  lemma {:induction false} UnregisteredDescribed(b: Boot, calls: seq<Call>, cap: nat, p: int)
    requires BootOk(b, calls) && |Descriptors(b, calls, cap)| < cap && Unregistered(b, calls, p)
    ensures InE820(b.e820, p, {1}) ==> DescribedOnce(Descriptors(b, calls, cap), p, 2)
    ensures InE820(b.e820, p, {3, 4}) ==> DescribedOnce(Descriptors(b, calls, cap), p, 6)
    ensures !InE820(b.e820, p, {1, 3, 4}) ==>
      forall j | 0 <= j < |Descriptors(b, calls, cap)| :: !InEntry(Descriptors(b, calls, cap)[j], p)
  {
    hide Registered, MemMap.NtMap, BootOk, DescribedOnce, MemMap.Separate, RegionsApart, PageInside, Unheld, InPages;
    BootSeparate(b, calls);
    var es, regions := Entries(Registered(b, calls)), MapRegions(b.e820);
    if InE820(b.e820, p, {1}) {
      var g :| 0 <= g < |b.e820| && b.e820[g].kind in {1} && PageInside(b.e820[g], p);
      CoarseDescribedOnce(es, regions, cap, g, p);
    }
    if InE820(b.e820, p, {3, 4}) {
      var g :| 0 <= g < |b.e820| && b.e820[g].kind in {3, 4} && PageInside(b.e820[g], p);
      CoarseDescribedOnce(es, regions, cap, g, p);
    }
    if !InE820(b.e820, p, {1, 3, 4}) {
      forall j | 0 <= j < |Descriptors(b, calls, cap)|
        ensures !InEntry(Descriptors(b, calls, cap)[j], p)
      {
        OutsideUndescribed(es, regions, cap, p, j);
      }
    }
  }

  /** Under the same conditions every page handed out or reserved is in exactly one descriptor, of the number NT has
      for its kind. */
  lemma {:induction false} AllocatedDescribedOnce(b: Boot, calls: seq<Call>, cap: nat, i: nat, p: int)
    requires BootOk(b, calls) && |Descriptors(b, calls, cap)| < cap
    requires i < |Registered(b, calls)| && MemMap.Holds(Entries(Registered(b, calls))[i], p)
    ensures Numbered(Descriptors(b, calls, cap), p, Registered(b, calls)[i].kind)
  {
    var es, regions := Entries(Registered(b, calls)), MapRegions(b.e820);
    var g := RegisteredPage(b, calls, i, p);
    hide Registered, MemMap.NtMap, BootOk, Numbered;
    BootTidy(b, calls);
    KindDescribedOnce(es, regions, cap, g, p, i);
  }

  lemma {:induction false} BootTidy(b: Boot, calls: seq<Call>)
    requires BootOk(b, calls)
    ensures RegionsApart(MapRegions(b.e820))
  {
    TidyApart(b.e820);
  }

  /** Page `p` was registered as free. */
  ghost predicate RegisteredFree(b: Boot, calls: seq<Call>, p: int) {
    exists i :: 0 <= i < |Registered(b, calls)|
      && Registered(b, calls)[i].kind.PkFree? && MemMap.Holds(Entries(Registered(b, calls))[i], p)
  }

  /** A descriptor of type 2, LoaderFree, holds exactly the pages of usable RAM that no allocation holds, and those
      registered as free. */
  lemma {:induction false} FreeDescriptors(b: Boot, calls: seq<Call>, cap: nat, p: int)
    requires BootOk(b, calls) && |Descriptors(b, calls, cap)| < cap
    ensures (exists j :: 0 <= j < |Descriptors(b, calls, cap)|
               && Descriptors(b, calls, cap)[j].kind == 2 && InEntry(Descriptors(b, calls, cap)[j], p))
        <==> (Unregistered(b, calls, p) && InE820(b.e820, p, {1})) || RegisteredFree(b, calls, p)
  {
    hide Registered, Descriptors, BootOk, InE820, InEntry;
    if Unregistered(b, calls, p) {
      UnregisteredDescribed(b, calls, cap, p);
      if InE820(b.e820, p, {1, 3, 4}) {
        AnyE820(b.e820, p);
      }
    } else {
      var i :| 0 <= i < |Registered(b, calls)| && MemMap.Holds(Entries(Registered(b, calls))[i], p);
      AllocatedDescribedOnce(b, calls, cap, i, p);
      NumberedFree(Descriptors(b, calls, cap), p, Registered(b, calls)[i].kind);
      if RegisteredFree(b, calls, p) {
        var k :| 0 <= k < |Registered(b, calls)|
          && Registered(b, calls)[k].kind.PkFree? && MemMap.Holds(Entries(Registered(b, calls))[k], p);
        AllocatedDescribedOnce(b, calls, cap, k, p);
      }
    }
  }

  /** No LoaderFree descriptor contains an allocated page. */
  lemma {:induction false} FreeIsNotAllocated(b: Boot, calls: seq<Call>, cap: nat, j: nat, i: nat, p: int)
    requires BootOk(b, calls) && |Descriptors(b, calls, cap)| < cap
    requires j < |Descriptors(b, calls, cap)| && Descriptors(b, calls, cap)[j].kind == 2
    requires InEntry(Descriptors(b, calls, cap)[j], p)
    requires i < |Registered(b, calls)| && !Registered(b, calls)[i].kind.PkFree?
    ensures !MemMap.Holds(Entries(Registered(b, calls))[i], p)
  {
    hide Registered, Descriptors, BootOk, Numbered;
    if MemMap.Holds(Entries(Registered(b, calls))[i], p) {
      AllocatedDescribedOnce(b, calls, cap, i, p);
      NumberedFree(Descriptors(b, calls, cap), p, Registered(b, calls)[i].kind);
    }
  }

  lemma {:induction false} AnyE820(e820: seq<BootEnv.E820>, p: int)
    requires InE820(e820, p, {1, 3, 4})
    ensures InE820(e820, p, {1}) || InE820(e820, p, {3, 4})
  {
    hide PageInside;
    var g :| 0 <= g < |e820| && e820[g].kind in {1, 3, 4} && PageInside(e820[g], p);
    assert e820[g].kind in {1} || e820[g].kind in {3, 4};
  }

  lemma {:induction false} NumberedFree(out: seq<MemMap.NtEntry>, p: int, kind: MemMap.PageKind)
    requires Numbered(out, p, kind)
    ensures (exists j :: 0 <= j < |out| && out[j].kind == 2 && InEntry(out[j], p)) <==> kind.PkFree?
  {
    hide InEntry;
  }
}
