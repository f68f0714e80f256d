/** The allocator, the registry and the page tables together: whatever was allocated during boot, the tables
    built from the registry translate it. As in src/boot/vmlinuz/main.c the core pages come from below 16 MB, among
    whatever else the loader needs, and the table pool comes last. */
module BootTranslation {
  import opened Bits
  import FreeList
  import MemMap
  import BootEnv
  import opened LoaderMemory
  import opened PageLayout
  import opened PageTables

  function SpanOf(e: AllocEntry): Span { Span(e.phys, e.pages, e.noMap) }

  function SpansOf(reg: seq<AllocEntry>): (r: seq<Span>)
    ensures |r| == |reg| && forall i | 0 <= i < |reg| :: r[i] == SpanOf(reg[i])
  {
    seq(|reg|, i requires 0 <= i < |reg| => SpanOf(reg[i]))
  }

  /** Memory and registry after the first `n` calls of a boot. */
  function MemoryAt(b: Boot, calls: seq<Call>, n: nat): Memory
    requires n <= |calls|
  {
    Run(Memory(FreeAtBoot(b), []), calls, n)
  }

  lemma {:induction false} MemoryAccounted(b: Boot, calls: seq<Call>, n: nat)
    requires BootOk(b, calls) && n <= |calls|
    ensures FreeList.Paged(FreeAtBoot(b)) && GoodCalls(FreeAtBoot(b), calls)
    ensures Accounted(FreeAtBoot(b), MemoryAt(b, calls, n), calls, n)
  {
    hide FreeList.Paged, FreeList.Covered, Accounted, BootEnv.InitialFree, GoodCalls;
    BootEnv.InitialFreeOk(b.e820, b.image, b.initrd);
    RunAccounted(FreeAtBoot(b), calls, n);
  }

  /** A registered block is a proper span: whole pages, at least one, no wrap-around. */
  lemma {:induction false} RegisteredProper(b: Boot, calls: seq<Call>, n: nat, i: nat)
    requires BootOk(b, calls) && n <= |calls| && i < |MemoryAt(b, calls, n).reg|
    ensures Proper(SpanOf(MemoryAt(b, calls, n).reg[i]))
  {
    hide BootOk, MemoryAt, FreeAtBoot, FreeList.Paged, GoodCalls, Accounted;
    MemoryAccounted(b, calls, n);
    EntryPaged(FreeAtBoot(b), MemoryAt(b, calls, n), calls, n, i);
  }

  /** A mapped block is never at the null page. */
  lemma {:induction false} RegisteredNotNull(b: Boot, calls: seq<Call>, n: nat, i: nat)
    requires BootOk(b, calls) && n <= |calls| && i < |MemoryAt(b, calls, n).reg| && !MemoryAt(b, calls, n).reg[i].noMap
    ensures MemoryAt(b, calls, n).reg[i].phys >= PAGE
  {
    hide BootOk, MemoryAt, FreeAtBoot, FreeList.Paged, GoodCalls, Accounted, FreeList.AllFree, FreeList.NoneFree;
    MemoryAccounted(b, calls, n);
    EntrySource(FreeAtBoot(b), MemoryAt(b, calls, n), calls, n, i);
  }

  // ---------------------------------------------------------------- the core pages and the pool

  lemma {:induction false} RunPrefix(m: Memory, calls: seq<Call>, n: nat, k: nat)
    requires n <= k <= |calls|
    ensures Run(m, calls, n).reg <= Run(m, calls, k).reg
    decreases k
  {
    hide FreeList.Chosen, FreeList.After;
    if n < k {
      RunPrefix(m, calls, n, k - 1);
    }
  }

  /** Call `n` added an entry. */
  predicate Succeeded(b: Boot, calls: seq<Call>, n: nat)
    requires n < |calls|
  {
    |MemoryAt(b, calls, n + 1).reg| == |MemoryAt(b, calls, n).reg| + 1
  }

  function EntryOf(b: Boot, calls: seq<Call>, n: nat): AllocEntry
    requires n < |calls| && Succeeded(b, calls, n)
  {
    MemoryAt(b, calls, n + 1).reg[|MemoryAt(b, calls, n).reg|]
  }

  /** A call of mmu_alloc_below with the limit of the core pages. */
  predicate Below(a: Call, pages: nat) { a.Alloc? && a.request == FreeList.Max(pages, LOW16M) && !a.noMap }

  lemma {:induction false} StepBelow(m: Memory, a: Call, pages: nat)
    requires Below(a, pages) && |Step(m, a).reg| == |m.reg| + 1 && FreeList.Paged(m.free) && pages < WORD32
    ensures var e := Step(m, a).reg[|m.reg|];
      e.phys % PAGE == 0 && e.pages == pages && e.phys + pages * PAGE <= LOW16M && !e.noMap
  {
    FreeList.BestFitIs(m.free, LOW16M, pages * PAGE);
    hide FreeList.BestFit, FreeList.Paged;
  }

  /** What such a call gets lies below 16 MB, and not at 0. */
  lemma {:induction false} BelowEntry(b: Boot, calls: seq<Call>, n: nat, pages: nat)
    requires BootOk(b, calls) && n < |calls| && Below(calls[n], pages) && Succeeded(b, calls, n)
    ensures var e := EntryOf(b, calls, n);
      && e.phys % PAGE == 0 && e.pages == pages > 0 && PAGE <= e.phys && e.phys + pages * PAGE <= LOW16M && !e.noMap
  {
    hide BootOk, FreeAtBoot, FreeList.Paged, GoodCalls, Step, Below, FreeList.NullPageTaken, FreeList.Shrinks;
    MemoryAccounted(b, calls, n);
    BelowGood(FreeAtBoot(b), calls, n, pages);
    var m := MemoryAt(b, calls, n);
    assert MemoryAt(b, calls, n + 1) == Step(m, calls[n]);
    hide MemoryAt, Accounted;
    AccountedFacts(FreeAtBoot(b), m, calls, n);
    StepBelow(m, calls[n], pages);
    RegisteredProper(b, calls, n + 1, |m.reg|);
    RegisteredNotNull(b, calls, n + 1, |m.reg|);
  }

  lemma {:induction false} BelowGood(free: seq<FreeList.Region>, calls: seq<Call>, n: nat, pages: nat)
    requires GoodCalls(free, calls) && n < |calls| && Below(calls[n], pages)
    ensures pages < WORD32
  {
  }

  /** Which calls place the page directory, the PCR and the shared user data. */
  datatype Core = Core(pd: nat, pcr: nat, sud: nat)

  /** The registries when the pool is counted, which is before it is allocated. */
  function Before(b: Boot, calls: seq<Call>, images: seq<Span>): Config
    requires calls != []
  {
    Config(SpansOf(MemoryAt(b, calls, |calls| - 1).reg), images)
  }

  function AtEnd(b: Boot, calls: seq<Call>, images: seq<Span>): Config {
    Config(SpansOf(MemoryAt(b, calls, |calls|).reg), images)
  }

  /** A boot: the core pages come from calls of their own, in this order, and the last call is for as many tables as
      were counted just before it; none of these fails. */
  ghost predicate Booted(b: Boot, calls: seq<Call>, images: seq<Span>, core: Core) {
    && BootOk(b, calls) && core.pd < core.pcr < core.sud < |calls| - 1
    && Below(calls[core.pd], 1) && Succeeded(b, calls, core.pd)
    && Below(calls[core.pcr], 1) && Succeeded(b, calls, core.pcr)
    && Below(calls[core.sud], 1) && Succeeded(b, calls, core.sud)
    && Below(calls[|calls| - 1], Counted(Before(b, calls, images))) && Succeeded(b, calls, |calls| - 1)
  }

  function PoolOf(b: Boot, calls: seq<Call>): AllocEntry
    requires calls != [] && Succeeded(b, calls, |calls| - 1)
  {
    EntryOf(b, calls, |calls| - 1)
  }

  ghost function BasesOf(b: Boot, calls: seq<Call>, images: seq<Span>, core: Core): Bases
    requires Booted(b, calls, images, core)
  {
    Bases(EntryOf(b, calls, core.pd).phys, PoolOf(b, calls).phys, PoolOf(b, calls).pages,
          EntryOf(b, calls, core.pcr).phys, EntryOf(b, calls, core.sud).phys)
  }

  /** Entries of different calls do not overlap. */
  lemma {:induction false} EntriesApart(b: Boot, calls: seq<Call>, n: nat, k: nat)
    requires BootOk(b, calls) && n < k < |calls| && Succeeded(b, calls, n) && Succeeded(b, calls, k)
    ensures FreeList.Apart(BlockOf(EntryOf(b, calls, n)), BlockOf(EntryOf(b, calls, k)))
  {
    hide BootOk, MemoryAt, FreeAtBoot, FreeList.Paged, GoodCalls, Accounted, Succeeded, EntryOf;
    MemoryAccounted(b, calls, k + 1);
    EntryPlace(b, calls, n, k);
    EntryPlace(b, calls, n, k + 1);
    EntryPlace(b, calls, k, k + 1);
    var m := MemoryAt(b, calls, k + 1);
    BlocksApart(FreeAtBoot(b), m, calls, k + 1, |MemoryAt(b, calls, n).reg|, |MemoryAt(b, calls, k).reg|);
  }

  /** An entry keeps its place in the registry. */
  lemma {:induction false} EntryPlace(b: Boot, calls: seq<Call>, n: nat, k: nat)
    requires n < k <= |calls| && Succeeded(b, calls, n)
    ensures |MemoryAt(b, calls, n).reg| < |MemoryAt(b, calls, k).reg|
    ensures MemoryAt(b, calls, k).reg[|MemoryAt(b, calls, n).reg|] == EntryOf(b, calls, n)
  {
    hide Run, FreeAtBoot;
    RunPrefix(Memory(FreeAtBoot(b), []), calls, n + 1, k);
  }

  lemma {:induction false} BlocksApart(free: seq<FreeList.Region>, m: Memory, calls: seq<Call>, n: nat, i: nat, j: nat)
    requires n <= |calls| && Accounted(free, m, calls, n) && i < j < |m.reg|
    ensures FreeList.Apart(BlockOf(m.reg[i]), BlockOf(m.reg[j]))
  {
    var blocks := BlocksOf(m.reg);
    assert FreeList.Apart(blocks[i], blocks[j]);
  }

  /** The page directory, PCR, shared data and pool of every boot are placed as the tables need them. */
  lemma {:induction false} BootPlaces(b: Boot, calls: seq<Call>, images: seq<Span>, core: Core)
    requires Booted(b, calls, images, core)
    ensures Placed(BasesOf(b, calls, images, core))
  {
    var last := |calls| - 1;
    hide BootOk, Succeeded, EntryOf, Counted, MemoryAt;
    BelowEntry(b, calls, core.pd, 1);
    BelowEntry(b, calls, core.pcr, 1);
    BelowEntry(b, calls, core.sud, 1);
    BelowEntry(b, calls, last, Counted(Before(b, calls, images)));
    EntriesApart(b, calls, core.pd, last);
  }

  /** The registries the tables are built from are those counted, with the pool itself. */
  lemma {:induction false} EndIsWithPool(b: Boot, calls: seq<Call>, images: seq<Span>)
    requires calls != [] && Succeeded(b, calls, |calls| - 1)
    ensures AtEnd(b, calls, images) == WithPool(Before(b, calls, images), SpanOf(PoolOf(b, calls)))
  {
    RunPrefix(Memory(FreeAtBoot(b), []), calls, |calls| - 1, |calls|);
    hide Run;
    assert SpansOf(MemoryAt(b, calls, |calls|).reg)
        == SpansOf(MemoryAt(b, calls, |calls| - 1).reg) + [SpanOf(PoolOf(b, calls))];
  }

  /** After every boot the pool has room for all tables exactly when each 4 MB slot it lies in was marked by an
      allocation made before it; then its last page is the HAL's table. */
  lemma {:induction false} BootRoomIff(b: Boot, calls: seq<Call>, images: seq<Span>, core: Core)
    requires Booted(b, calls, images, core)
    ensures var pool := PoolOf(b, calls); var c := Before(b, calls, images);
      && (Counted(AtEnd(b, calls, images)) <= pool.pages <==>
            forall i | 0 <= i < SLOTS && Marks(SpanOf(pool), i) :: KsSlot(c, i))
      && (Counted(AtEnd(b, calls, images)) <= pool.pages ==> HalTable(AtEnd(b, calls, images)) == pool.pages - 1)
  {
    hide Booted, Succeeded, EntryOf, Counted, MemoryAt, AtEnd, Before, HalTable, KsSlot, Marks, SpanOf;
    BootedFacts(b, calls, images, core);
    EndIsWithPool(b, calls, images);
    PoolPages(b, calls, images, core);
    PoolSufficesIff(Before(b, calls, images), SpanOf(PoolOf(b, calls)));
  }

  lemma {:induction false} BootedFacts(b: Boot, calls: seq<Call>, images: seq<Span>, core: Core)
    requires Booted(b, calls, images, core)
    ensures BootOk(b, calls) && calls != [] && Succeeded(b, calls, |calls| - 1)
  {
    hide BootOk, Succeeded, Below;
  }

  lemma {:induction false} PoolPages(b: Boot, calls: seq<Call>, images: seq<Span>, core: Core)
    requires Booted(b, calls, images, core)
    ensures SpanOf(PoolOf(b, calls)).pages == PoolOf(b, calls).pages == Counted(Before(b, calls, images))
  {
    hide BootOk, Succeeded, EntryOf, Counted, Before;
    BelowEntry(b, calls, |calls| - 1, Counted(Before(b, calls, images)));
  }

  // ---------------------------------------------------------------- translation after a boot

  /** After any boot, with tables built in its own pool from its own registry: every byte of every mapped allocation
      below 2 GB walks to itself, and its KSEG0 alias back to it exactly outside the two slots that the self-map and
      the HAL table occupy. */
  lemma {:induction false} AllocationsTranslate(b: Boot, calls: seq<Call>, images: seq<Span>, core: Core,
                                                pd: seq<nat>, pts: seq<nat>,
                                                i: nat, p: nat, off: nat)
    requires Booted(b, calls, images, core)
    requires Built(AtEnd(b, calls, images), BasesOf(b, calls, images, core), pd, pts)
    requires i < |Registered(b, calls)| && !Registered(b, calls)[i].noMap
    requires p < Registered(b, calls)[i].pages && off < PAGE
    requires Registered(b, calls)[i].phys + p * PAGE < SLOTS * SLOT
    ensures var bases := BasesOf(b, calls, images, core);
      var pa := Registered(b, calls)[i].phys + p * PAGE + off;
      && |pd| == 1024 && |pts| == 1024 * bases.tables
      && KSEG0 + pa < WORD32 && Walk(bases, pd, pts, pa) == Some(pa) && Grants(bases, pd, pts, pa)
      && (Walk(bases, pd, pts, KSEG0 + pa) == Some(pa) <==> pa / SLOT != 256 && pa / SLOT != 511)
      && (pa / SLOT != 256 && pa / SLOT != 511 ==> Grants(bases, pd, pts, KSEG0 + pa))
  {
    hide Run, BootOk, Booted, BasesOf, Built, Walk, Placed, FreeAtBoot, Grants;
    BootedFacts(b, calls, images, core);
    BootPlaces(b, calls, images, core);
    var reg := Registered(b, calls);
    RegisteredProper(b, calls, |calls|, i);
    RegisteredNotNull(b, calls, |calls|, i);
    var c, bases := AtEnd(b, calls, images), BasesOf(b, calls, images, core);
    assert c.reg[i] == SpanOf(reg[i]);
    BuiltSizes(c, bases, pd, pts);
    IdentityTranslates(c, bases, pd, pts, SpanOf(reg[i]), p, off);
    Kseg0TranslatesIff(c, bases, pd, pts, SpanOf(reg[i]), p, off);
    var pa := reg[i].phys + p * PAGE + off;
    WalkGrants(c, bases, pd, pts, pa);
    WalkGrants(c, bases, pd, pts, KSEG0 + pa);
  }

  // ---------------------------------------------------------------- what the tables show

  /** All usable memory ends below 4 GB. */
  predicate UsableLow(e820: seq<BootEnv.E820>) {
    forall i | 0 <= i < |e820| && e820[i].kind == 1 :: e820[i].addr + e820[i].size <= WORD32
  }

  lemma {:induction false} UsableBelow(e820: seq<BootEnv.E820>, x: int)
    requires UsableLow(e820) && BootEnv.Usable(e820, x)
    ensures x < WORD32
  {
    hide FreeList.PgDn;
    var i :| 0 <= i < |e820| && BootEnv.HasPage(e820[i], x);
    BootEnv.Aligned(x);
  }

  lemma {:induction false} MappedLow(b: Boot, calls: seq<Call>, n: nat, i: nat)
    requires BootOk(b, calls) && n <= |calls| && UsableLow(b.e820)
    requires i < |MemoryAt(b, calls, n).reg| && !MemoryAt(b, calls, n).reg[i].noMap
    ensures BlockOf(MemoryAt(b, calls, n).reg[i]).end <= WORD32
  {
    hide BootOk, MemoryAt, FreeAtBoot, FreeList.Paged, GoodCalls, Accounted;
    MemoryAccounted(b, calls, n);
    var m := MemoryAt(b, calls, n);
    EntrySource(FreeAtBoot(b), m, calls, n, i);
    var block := BlockOf(m.reg[i]);
    assert FreeList.In(block.end - 1, block);
    FreeLow(b, calls, block.end - 1);
  }

  lemma {:induction false} FreeLow(b: Boot, calls: seq<Call>, x: int)
    requires BootOk(b, calls) && UsableLow(b.e820) && FreeList.Covered(FreeAtBoot(b), x)
    ensures x < WORD32
  {
    hide GoodCalls, BootEnv.InitialFree, BootEnv.Usable, FreeList.Covered, UsableLow;
    BootEnv.InitialFreeOk(b.e820, b.image, b.initrd);
    UsableBelow(b.e820, x);
  }

  lemma {:induction false} SpansProper(b: Boot, calls: seq<Call>, n: nat)
    requires BootOk(b, calls) && n <= |calls|
    ensures AllProper(SpansOf(MemoryAt(b, calls, n).reg))
  {
    hide BootOk, MemoryAt, Proper;
    var reg := MemoryAt(b, calls, n).reg;
    forall r | 0 <= r < |reg|
      ensures Proper(SpansOf(reg)[r])
    {
      RegisteredProper(b, calls, n, r);
    }
  }

  /** After any boot on a machine whose usable memory ends below 4 GB, both halves of the tables show nothing but
      registered memory. */
  lemma {:induction false} BootSound(b: Boot, calls: seq<Call>, images: seq<Span>, core: Core, pd: seq<nat>,
                                     pts: seq<nat>)
    requires Booted(b, calls, images, core) && UsableLow(b.e820) && AllProper(images) && AllLow(images)
    requires Built(AtEnd(b, calls, images), BasesOf(b, calls, images, core), pd, pts)
    ensures var c, bases := AtEnd(b, calls, images), BasesOf(b, calls, images, core);
      && |pd| == 1024 && |pts| == 1024 * bases.tables
      && IdentityIsSound(c, bases, pd, pts) && Kseg0IsSound(c, bases, pd, pts)
  {
    hide BootOk, Booted, BasesOf, Built, Placed, MemoryAt, UsableLow, AllProper, IdentityIsSound, Kseg0IsSound;
    BootedFacts(b, calls, images, core);
    BootPlaces(b, calls, images, core);
    SpansProper(b, calls, |calls|);
    var c := AtEnd(b, calls, images);
    forall r | 0 <= r < |c.reg| && !c.reg[r].noMap
      ensures c.reg[r].phys + c.reg[r].pages * PAGE <= WORD32
    {
      MappedLow(b, calls, |calls|, r);
    }
    LowIsSound(c, BasesOf(b, calls, images, core), pd, pts);
  }
}
