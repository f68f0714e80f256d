/** Two boots that src/boot/mmu.c does not foresee, with every allocation that src/boot/vmlinuz/main.c makes when the
    archive holds no boot drivers: one whose table pool is too short, and one whose tables show memory that nobody
    registered. */
module BootExamples {
  import opened Bits
  import opened FreeList
  import MemMap
  import BootEnv
  import opened LoaderMemory
  import L = PageLayout
  import P = PageTables
  import opened BootTranslation

  // ---------------------------------------------------------------- taking pages from the top of a region

  lemma {:induction false} CarvedApart(f: seq<Region>, base: nat, end: nat)
    requires forall j | 0 <= j < |f| :: end <= f[j].base || base >= f[j].end
    ensures Carved(f, base, end) == f
  {
    if f != [] {
      var n := |f| - 1;
      CarvedApart(f[..n], base, end);
      assert f[..n] + [f[n]] == f;
    }
  }

  /** A range inside region `i` of disjoint regions is carved out of that one only. */
  lemma {:induction false} CarvedIn(f: seq<Region>, i: nat, base: nat, end: nat)
    requires i < |f| && Disjoint(f) && f[i].base <= base < end <= f[i].end
    ensures Carved(f, base, end) == f[..i] + Pieces(f[i], base, end) + f[i + 1..]
    decreases |f|
  {
    hide Pieces;
    var n := |f| - 1;
    assert forall j | 0 <= j < n :: f[..n][j] == f[j];
    if i == n {
      CarvedApart(f[..n], base, end);
    } else {
      CarvedIn(f[..n], i, base, end);
      assert Pieces(f[n], base, end) == [f[n]] by {
        assert Apart(f[i], f[n]);
        PiecesApart(f[n], base, end);
      }
      assert f[..n][..i] == f[..i] && f[..n][i + 1..] + [f[n]] == f[i + 1..];
    }
  }

  lemma {:induction false} PiecesApart(r: Region, base: nat, end: nat)
    requires end <= r.base || base >= r.end
    ensures Pieces(r, base, end) == [r]
  {
  }

  /** Region `i` without its last `bytes`. */
  function Cut(f: seq<Region>, i: nat, bytes: nat): (r: seq<Region>)
    requires i < |f| && f[i].base + bytes <= f[i].end
    ensures |r| == |f|
  {
    f[i := Region(f[i].base, f[i].end - bytes)]
  }

  lemma {:induction false} CarveTop(f: seq<Region>, i: nat, bytes: nat)
    requires i < |f| <= MAX_FREE && Disjoint(f) && 0 < bytes && f[i].base + bytes < f[i].end
    ensures Carve(f, f[i].end - bytes, f[i].end) == Cut(f, i, bytes)
  {
    hide Carved, Pieces, Disjoint;
    var r := Region(f[i].base, f[i].end - bytes);
    CarvedIn(f, i, r.end, f[i].end);
    PiecesTop(f[i], r.end);
    assert f[..i] + [r] + f[i + 1..] == Cut(f, i, bytes);
  }

  lemma {:induction false} PiecesTop(r: Region, base: nat)
    requires r.base < base < r.end
    ensures Pieces(r, base, r.end) == [Region(r.base, base)]
  {
  }

  /** Every other region lies below region `i`, is out of reach, or cannot hold `bytes`. */
  predicate Highest(f: seq<Region>, i: nat, cap: nat, bytes: nat)
    requires i < |f|
  {
    && f[i].end <= cap && f[i].base + bytes <= f[i].end
    && forall j | 0 <= j < |f| && j != i ::
         f[j].end <= f[i].base || f[j].base >= cap || f[j].end < f[j].base + bytes
  }

  lemma {:induction false} NotHigher(r: Region, base: nat, cap: nat, bytes: nat)
    requires r.end <= base || r.base >= cap || r.end < r.base + bytes
    ensures Candidate(r, cap, bytes).None? || bytes == 0 || Candidate(r, cap, bytes).value < base
  {
  }

  lemma {:induction false} BestBelow(f: seq<Region>, base: nat, cap: nat, bytes: nat)
    requires bytes > 0
    requires forall j | 0 <= j < |f| :: f[j].end <= base || f[j].base >= cap || f[j].end < f[j].base + bytes
    ensures BestFit(f, cap, bytes).None? || BestFit(f, cap, bytes).value < base
  {
    hide Candidate;
    if f != [] {
      var n := |f| - 1;
      BestBelow(f[..n], base, cap, bytes);
      NotHigher(f[n], base, cap, bytes);
    }
  }

  /** The best fit is at the top of the highest region that can serve. */
  lemma {:induction false} BestTop(f: seq<Region>, i: nat, cap: nat, bytes: nat)
    requires i < |f| && bytes > 0 && f[i].end % PAGE == 0 && Highest(f, i, cap, bytes)
    ensures BestFit(f, cap, bytes) == Some(f[i].end - bytes)
    decreases |f|
  {
    hide Candidate;
    var n := |f| - 1;
    assert forall j | 0 <= j < n :: f[..n][j] == f[j];
    TopCandidate(f[i], cap, bytes);
    if i == n {
      BestBelow(f[..n], f[i].base, cap, bytes);
    } else {
      BestTop(f[..n], i, cap, bytes);
      NotHigher(f[n], f[i].base, cap, bytes);
    }
  }

  lemma {:induction false} TopCandidate(r: Region, cap: nat, bytes: nat)
    requires r.end % PAGE == 0 && r.base + bytes <= r.end <= cap
    ensures Candidate(r, cap, bytes) == Some(r.end - bytes)
  {
  }

  /** Call `a` takes its pages from the top of region `i`, and leaves some of it. */
  predicate TakesTop(f: seq<Region>, a: Call, i: nat) {
    && i < |f| <= MAX_FREE && a.Alloc? && a.request.pages > 0 && f[i].base + Bytes(a.request) < f[i].end
    && f[i].end % PAGE == 0 && f[i].end < WORD64
    && match a.request
       case Any(_) => Highest(f, i, WORD64 - 1, Bytes(a.request))
       case Max(_, cap) => Highest(f, i, cap, Bytes(a.request))
       case At(_, want) => want == f[i].end - Bytes(a.request)
  }

  function TopEntry(f: seq<Region>, a: Call, i: nat): AllocEntry
    requires TakesTop(f, a, i)
  {
    AllocEntry(f[i].end - Bytes(a.request), a.request.pages, a.kind, a.noMap)
  }

  lemma {:induction false} TakeTop(m: Memory, a: Call, i: nat)
    requires TakesTop(m.free, a, i) && Disjoint(m.free) && |m.reg| < MMU_REGISTRY_MAX
    ensures Step(m, a) == Memory(Cut(m.free, i, Bytes(a.request)), m.reg + [TopEntry(m.free, a, i)])
  {
    hide BestFit, Carve, Disjoint;
    var f, bytes := m.free, Bytes(a.request);
    CarveTop(f, i, bytes);
    match a.request
    case Any(_) => BestTop(f, i, WORD64 - 1, bytes);
    case Max(_, cap) => BestTop(f, i, cap, bytes);
    case At(_, want) => assert Holds(f[i], want, bytes);
  }

  // ---------------------------------------------------------------- a run, region by region

  /** Bytes that the first `k` calls take from region `i`, when call `j` takes its pages from region `at[j]`. */
  function Used(calls: seq<Call>, at: seq<nat>, k: nat, i: nat): nat
    requires k <= |calls| == |at| && forall j | 0 <= j < |calls| :: calls[j].Alloc?
  {
    if k == 0 then 0 else Used(calls, at, k - 1, i) + if at[k - 1] == i then Bytes(calls[k - 1].request) else 0
  }

  lemma {:induction false} UsedGrows(calls: seq<Call>, at: seq<nat>, j: nat, k: nat, i: nat)
    requires j <= k <= |calls| == |at| && forall j | 0 <= j < |calls| :: calls[j].Alloc?
    ensures Used(calls, at, j, i) <= Used(calls, at, k, i)
    decreases k
  {
    if j < k {
      UsedGrows(calls, at, j, k - 1, i);
    }
  }

  /** Call `k` finds region `at[k]` the highest within its reach, whatever was taken before. */
  predicate Served(f: seq<Region>, calls: seq<Call>, at: seq<nat>, k: nat)
    requires k < |calls| == |at| && forall j | 0 <= j < |calls| :: calls[j].Alloc?
  {
    var i := at[k];
    && i < |f| && calls[k].request.pages > 0
    && match calls[k].request
       case Any(_) => forall j | 0 <= j < |f| && j != i :: f[j].end <= f[i].base
       case Max(_, cap) =>
         f[i].end <= cap && forall j | 0 <= j < |f| && j != i :: f[j].end <= f[i].base || f[j].base >= cap
       case At(_, want) => want + Used(calls, at, k + 1, i) == f[i].end
  }

  /** Whole pages, apart, with more room than the calls take. */
  ghost predicate Planned(f: seq<Region>, calls: seq<Call>, at: seq<nat>) {
    && |calls| == |at| && |calls| < MMU_REGISTRY_MAX && |f| <= MAX_FREE && Disjoint(f) && Paged(f)
    && (forall j | 0 <= j < |calls| :: calls[j].Alloc?)
    && (forall i | 0 <= i < |f| :: f[i].base + Used(calls, at, |calls|, i) < f[i].end)
    && forall k | 0 <= k < |calls| :: Served(f, calls, at, k)
  }

  /** What call `k` registers. */
  function EntryAt(f: seq<Region>, calls: seq<Call>, at: seq<nat>, k: nat): AllocEntry
    requires k < |calls| == |at| && forall j | 0 <= j < |calls| :: calls[j].Alloc?
    requires at[k] < |f| && Used(calls, at, k + 1, at[k]) <= f[at[k]].end
  {
    AllocEntry(f[at[k]].end - Used(calls, at, k + 1, at[k]), calls[k].request.pages, calls[k].kind, calls[k].noMap)
  }

  lemma {:induction false} Room(f: seq<Region>, calls: seq<Call>, at: seq<nat>, k: nat, i: nat)
    requires Planned(f, calls, at) && k <= |calls| && i < |f|
    ensures f[i].base + Used(calls, at, k, i) < f[i].end
  {
    hide Served, Used, Disjoint, Paged;
    UsedGrows(calls, at, k, |calls|, i);
  }

  ghost predicate Reached(f: seq<Region>, calls: seq<Call>, at: seq<nat>, k: nat, m: Memory)
    requires Planned(f, calls, at) && k <= |calls|
  {
    && |m.free| == |f| && |m.reg| == k
    && (forall i | 0 <= i < |f| ::
          Used(calls, at, k, i) <= f[i].end && m.free[i] == Region(f[i].base, f[i].end - Used(calls, at, k, i)))
    && forall j | 0 <= j < k ::
         && at[j] < |f| && Used(calls, at, j + 1, at[j]) <= f[at[j]].end && m.reg[j] == EntryAt(f, calls, at, j)
  }

  lemma {:induction false} TakesNext(f: seq<Region>, calls: seq<Call>, at: seq<nat>, k: nat, m: Memory)
    requires Planned(f, calls, at) && k < |calls| && Reached(f, calls, at, k, m)
    ensures TakesTop(m.free, calls[k], at[k])
  {
    hide Disjoint;
    var i := at[k];
    assert Served(f, calls, at, k);
    Room(f, calls, at, k + 1, i);
    assert Used(calls, at, k + 1, i) == Used(calls, at, k, i) + Bytes(calls[k].request);
    hide Used;
    assert m.free[i] == Region(f[i].base, f[i].end - Used(calls, at, k, i));
    UsedWhole(calls, at, k, i);
  }

  lemma {:induction false} UsedWhole(calls: seq<Call>, at: seq<nat>, k: nat, i: nat)
    requires k <= |calls| == |at| && forall j | 0 <= j < |calls| :: calls[j].Alloc?
    ensures Used(calls, at, k, i) % PAGE == 0
    decreases k
  {
    if k > 0 {
      UsedWhole(calls, at, k - 1, i);
    }
  }

  lemma {:induction false} StaysApart(f: seq<Region>, calls: seq<Call>, at: seq<nat>, k: nat, m: Memory)
    requires Planned(f, calls, at) && k <= |calls| && Reached(f, calls, at, k, m)
    ensures Disjoint(m.free)
  {
    hide Served, Used, Paged;
    forall i, j | 0 <= i < j < |m.free|
      ensures Apart(m.free[i], m.free[j])
    {
      assert Apart(f[i], f[j]);
    }
  }

  /** The memory after every call of a planned run. */
  lemma {:induction false} RunPlanned(f: seq<Region>, calls: seq<Call>, at: seq<nat>, k: nat)
    requires Planned(f, calls, at) && k <= |calls|
    ensures Reached(f, calls, at, k, Run(Memory(f, []), calls, k))
    decreases k
  {
    hide Step, Planned, TakesTop, Disjoint, Reached;
    if k == 0 {
      StartPlanned(f, calls, at);
    } else {
      RunPlanned(f, calls, at, k - 1);
      var m := Run(Memory(f, []), calls, k - 1);
      StepPlanned(f, calls, at, k - 1, m);
    }
  }

  lemma {:induction false} StartPlanned(f: seq<Region>, calls: seq<Call>, at: seq<nat>)
    requires Planned(f, calls, at)
    ensures Reached(f, calls, at, 0, Memory(f, []))
  {
  }

  lemma {:induction false} StepPlanned(f: seq<Region>, calls: seq<Call>, at: seq<nat>, k: nat, m: Memory)
    requires Planned(f, calls, at) && k < |calls| && Reached(f, calls, at, k, m)
    ensures Reached(f, calls, at, k + 1, Step(m, calls[k]))
  {
    hide Step, Disjoint, Served, Paged;
    TakesNext(f, calls, at, k, m);
    StaysApart(f, calls, at, k, m);
    hide TakesTop;
    TakeTop(m, calls[k], at[k]);
    forall i | 0 <= i < |f|
      ensures Used(calls, at, k + 1, i) <= f[i].end
    {
      Room(f, calls, at, k + 1, i);
    }
  }

  // ---------------------------------------------------------------- the memory map

  /** The loader's image, 1 MB at the address it is linked for, and an archive behind it. */
  const IMAGE := BootEnv.Extent(0x100_0000, 0x110_0000)
  const INITRD := BootEnv.Extent(0x110_0000, 0x110_0800)

  function Images(): seq<L.Span> { [L.Span(0x100_0000, 0x100, false)] }

  /** Whole pages, touched neither by the null page nor by the image or the archive. */
  predicate Clear(r: Region) {
    && r.base % PAGE == 0 && r.end % PAGE == 0 && PAGE <= r.base < r.end < WORD64
    && (r.end <= 0x100_0000 || 0x110_1000 <= r.base)
  }

  predicate AllClear(f: seq<Region>) { forall i | 0 <= i < |f| :: Clear(f[i]) }

  /** A machine whose usable memory is those regions. */
  function Machine(f: seq<Region>): (b: Boot)
    requires AllClear(f)
    ensures |b.e820| == |f| && b.image == IMAGE && b.initrd == Some(INITRD)
    ensures forall i | 0 <= i < |f| :: b.e820[i] == BootEnv.E820(f[i].base, f[i].end - f[i].base, 1)
  {
    Boot(seq(|f|, i requires 0 <= i < |f| => BootEnv.E820(f[i].base, f[i].end - f[i].base, 1)), IMAGE, Some(INITRD))
  }

  lemma {:induction false} ClearPages(r: Region)
    requires Clear(r)
    ensures BootEnv.UsablePages(BootEnv.E820(r.base, r.end - r.base, 1)) == Some(r)
  {
    hide PgDn, PgUp;
    Whole(r.base);
    Whole(r.end);
  }

  lemma {:induction false} Whole(x: nat)
    requires x % PAGE == 0 && x < WORD64
    ensures PgDn(x) == x && PgUp(x) == x
  {
    var y := x / PAGE;
    assert x + (PAGE - 1) == y * PAGE + (PAGE - 1) < WORD64;
  }

  lemma {:induction false} FromMachine(f: seq<Region>, n: nat)
    requires AllClear(f) && n <= |f| <= MAX_FREE
    ensures BootEnv.FromE820(Machine(f).e820, n) == f[..n]
    decreases n
  {
    hide BootEnv.UsablePages, Clear;
    if n > 0 {
      FromMachine(f, n - 1);
      ClearPages(f[n - 1]);
    }
  }

  lemma {:induction false} CarveClear(f: seq<Region>, base: nat, end: nat)
    requires |f| <= MAX_FREE && forall j | 0 <= j < |f| :: end <= f[j].base || base >= f[j].end
    ensures Carve(f, base, end) == f
  {
    CarvedApart(f, base, end);
  }

  lemma {:induction false} FreeIs(f: seq<Region>)
    requires AllClear(f) && |f| <= MAX_FREE
    ensures FreeAtBoot(Machine(f)) == f
  {
    hide Carve, BootEnv.FromE820;
    FromMachine(f, |f|);
    assert f[..|f|] == f;
    assert BootEnv.PagesOf(IMAGE) == Region(0x100_0000, 0x110_0000);
    assert BootEnv.PagesOf(INITRD) == Region(0x110_0000, 0x110_1000);
    CarveClear(f, 0, PAGE);
    CarveClear(f, 0x100_0000, 0x110_0000);
    CarveClear(f, 0x110_0000, 0x110_1000);
  }

  lemma {:induction false} MachineTidy(f: seq<Region>)
    requires AllClear(f) && |f| <= MAX_FREE && Disjoint(f)
    ensures Tidy(Machine(f).e820) && Extents(Machine(f))
  {
    hide Clear, Disjoint;
    var e := Machine(f).e820;
    forall i | 0 <= i < |e|
      ensures e[i].addr % PAGE == 0 && e[i].size % PAGE == 0
    {
      ClearWhole(f[i]);
    }
    forall i, j | 0 <= i < j < |e|
      ensures Apart(Region(e[i].addr, e[i].addr + e[i].size), Region(e[j].addr, e[j].addr + e[j].size))
    {
      AreApart(f, i, j);
    }
  }

  lemma {:induction false} ClearWhole(r: Region)
    requires Clear(r)
    ensures r.base % PAGE == 0 && (r.end - r.base) % PAGE == 0
  {
  }

  lemma {:induction false} AreApart(f: seq<Region>, i: nat, j: nat)
    requires i < j < |f| && Disjoint(f)
    ensures Apart(f[i], f[j])
  {
  }

  lemma {:induction false} MachineBoots(f: seq<Region>, calls: seq<Call>)
    requires AllClear(f) && |f| <= MAX_FREE && Disjoint(f)
    requires forall i | 0 <= i < |calls| :: calls[i].Alloc? && Good(calls[i].request)
    ensures BootOk(Machine(f), calls)
  {
    hide Tidy, FreeAtBoot, Disjoint;
    MachineTidy(f);
  }

  // ---------------------------------------------------------------- the loader's calls

  function Load(pages: nat, kind: MemMap.PageKind, noMap: bool): Call { Alloc(Any(pages), kind, noMap) }
  function Low(pages: nat, kind: MemMap.PageKind): Call { Alloc(Max(pages, P.LOW16M), kind, false) }

  /** All calls before the pool: the built volume of 10 MB, the files of kernel, HAL and hive, the NLS block, the
      kernel at 1 MB and the HAL at 4 MB, the core pages and the arena. */
  function Calls(): (r: seq<Call>)
    ensures |r| == 15 && forall i | 0 <= i < 15 :: r[i].Alloc? && Good(r[i].request)
  {
    [Load(2560, MemMap.PkFirmwarePerm, true), Load(4, MemMap.PkFirmwareTemp, false),
     Load(2, MemMap.PkFirmwareTemp, false), Load(1, MemMap.PkRegistry, false), Load(3, MemMap.PkNls, false),
     Alloc(At(4, 0x10_0000), MemMap.PkKernelImage, false), Alloc(At(2, 0x40_0000), MemMap.PkHalImage, false),
     Low(1, MemMap.PkMemoryData), Low(1, MemMap.PkPcr), Low(1, MemMap.PkPcr), Low(3, MemMap.PkMemoryData),
     Low(4, MemMap.PkMemoryData), Low(1, MemMap.PkMemoryData), Low(1, MemMap.PkMemoryData),
     Low(4, MemMap.PkMemoryData)]
  }

  /** The region each takes its pages from. */
  function Plan(): (r: seq<nat>)
    ensures |r| == 15
  {
    [3, 3, 3, 3, 3, 0, 1, 2, 2, 2, 2, 2, 2, 2, 2]
  }

  /** Room for the kernel, the HAL, the core pages and the files, and perhaps more memory at 8 MB. */
  predicate Layout(f: seq<Region>) {
    && 4 <= |f| <= 5 && f[0] == Region(0xF_F000, 0x10_4000) && f[1] == Region(0x3F_F000, 0x40_2000)
    && f[2].end == P.LOW16M && f[2].base % PAGE == 0 && 0xC0_0000 <= f[2].base && f[2].base + 16 * PAGE < f[2].end
    && f[3].base % PAGE == 0 && f[3].end % PAGE == 0 && 0x200_0000 <= f[3].base
    && f[3].base + 2570 * PAGE < f[3].end < WORD64
    && (|f| == 5 ==> f[4] == Region(0x80_0000, 0x81_0000))
  }

  lemma {:induction false} LayoutClear(f: seq<Region>)
    requires Layout(f)
    ensures AllClear(f) && Disjoint(f) && Paged(f)
  {
  }

  /** Pages that the first `k` calls take from region `i`. */
  function PagesUsed(k: nat, i: nat): nat {
    match i
    case 0 => if k <= 5 then 0 else 4
    case 1 => if k <= 6 then 0 else 2
    case 2 =>
      if k <= 7 then 0 else if k <= 10 then k - 7 else if k <= 12 then 4 * k - 38
      else if k <= 14 then k - 2 else 16
    case 3 => if k == 0 then 0 else if k == 1 then 2560 else if k == 2 then 2564 else if k <= 4 then 2563 + k else 2570
    case _ => 0
  }

  lemma {:induction false} PagesStep(k: nat, i: nat)
    requires 1 <= k <= 15
    ensures PagesUsed(k, i) == PagesUsed(k - 1, i) + if Plan()[k - 1] == i then Calls()[k - 1].request.pages else 0
  {
  }

  lemma {:induction false} UsedIs(k: nat, i: nat)
    requires k <= 15
    ensures Used(Calls(), Plan(), k, i) == PagesUsed(k, i) * PAGE
    decreases k
  {
    hide Calls, Plan, PagesUsed;
    if k > 0 {
      UsedIs(k - 1, i);
      PagesStep(k, i);
    } else {
      NoPages(i);
    }
  }

  lemma {:induction false} NoPages(i: nat)
    ensures PagesUsed(0, i) == 0
  {
  }

  lemma {:induction false} LayoutPlanned(f: seq<Region>)
    requires Layout(f)
    ensures Planned(f, Calls(), Plan())
  {
    hide Paged, Disjoint, Used;
    LayoutClear(f);
    forall i | 0 <= i < |f|
      ensures f[i].base + Used(Calls(), Plan(), 15, i) < f[i].end
    {
      UsedIs(15, i);
    }
    UsedIs(6, 0);
    UsedIs(7, 1);
  }

  // ---------------------------------------------------------------- what is registered before the pool

  lemma {:induction false} RunFirst(m: Memory, a: seq<Call>, b: seq<Call>, k: nat)
    requires k <= |a|
    ensures Run(m, a + b, k) == Run(m, a, k)
    decreases k
  {
    hide Step;
    if k > 0 {
      RunFirst(m, a, b, k - 1);
    }
  }

  /** The calls of a whole boot with a pool of `n` pages. */
  function WithPoolOf(n: nat): seq<Call> { Calls() + [Low(n, MemMap.PkMemoryData)] }

  lemma {:induction false} BeforePool(f: seq<Region>, n: nat, k: nat)
    requires Layout(f) && k <= 15
    ensures AllClear(f) && Planned(f, Calls(), Plan()) && |WithPoolOf(n)| == 16
    ensures Reached(f, Calls(), Plan(), k, MemoryAt(Machine(f), WithPoolOf(n), k))
  {
    hide Layout, AllClear, FreeAtBoot, Run, Planned, Reached, Calls, Plan;
    LayoutClear(f);
    LayoutPlanned(f);
    LayoutSize(f);
    FreeIs(f);
    RunFirst(Memory(f, []), Calls(), [Low(n, MemMap.PkMemoryData)], k);
    RunPlanned(f, Calls(), Plan(), k);
  }

  lemma {:induction false} LayoutSize(f: seq<Region>)
    requires Layout(f)
    ensures 4 <= |f| <= MAX_FREE
  {
  }

  /** The files, other than the volume, lie in slot `s`. */
  predicate FilesIn(f: seq<Region>, s: nat) {
    Layout(f) && s * L.SLOT <= f[3].end - 2570 * PAGE && f[3].end - 2560 * PAGE <= (s + 1) * L.SLOT < WORD64
  }

  function SlotOf(j: nat, s: nat): nat { if j < 5 then s else if j == 5 then 0 else if j == 6 then 1 else 3 }

  /** Call `j` registers `e`. */
  predicate Registers(f: seq<Region>, j: nat, e: AllocEntry) {
    && j < 15 && Plan()[j] < |f| && PagesUsed(j + 1, Plan()[j]) * PAGE <= f[Plan()[j]].end
    && e == AllocEntry(f[Plan()[j]].end - PagesUsed(j + 1, Plan()[j]) * PAGE, Calls()[j].request.pages, Calls()[j].kind,
                       Calls()[j].noMap)
  }

  lemma {:induction false} EntryIs(f: seq<Region>, m: Memory, j: nat)
    requires Planned(f, Calls(), Plan()) && Reached(f, Calls(), Plan(), 15, m) && j < 15
    ensures |m.reg| == 15 && Registers(f, j, m.reg[j])
  {
    hide Planned, Used, Calls, Plan, PagesUsed;
    UsedIs(j + 1, Plan()[j]);
  }

  /** Every registered page, by its call. */
  lemma {:induction false} EntryPlaces(f: seq<Region>, j: nat, e: AllocEntry)
    requires Layout(f) && Registers(f, j, e)
    ensures e.pages > 0 && (e.noMap <==> j == 0)
    ensures 1 <= j < 5 ==> f[3].end - 2570 * PAGE <= e.phys && BlockOf(e).end <= f[3].end - 2560 * PAGE
    ensures j == 4 ==> e.phys == f[3].end - 2570 * PAGE
    ensures j == 5 ==> BlockOf(e) == Region(0x10_0000, 0x10_4000)
    ensures j == 6 ==> BlockOf(e) == Region(0x40_0000, 0x40_2000)
    ensures 7 <= j ==> P.LOW16M - 16 * PAGE <= e.phys && BlockOf(e).end <= P.LOW16M
  {
  }

  /** A span within one slot marks that slot only. */
  lemma {:induction false} MarksOne(e: L.Span, s: nat, i: nat)
    requires !e.noMap && e.pages > 0 && s * L.SLOT <= e.phys && e.phys + e.pages * PAGE <= (s + 1) * L.SLOT
    requires (s + 1) * L.SLOT < WORD64
    ensures L.Marks(e, i) <==> i == s
  {
    assert L.Last(e) == e.phys + e.pages * PAGE - 1;
  }

  lemma {:induction false} EntryMarks(f: seq<Region>, s: nat, j: nat, e: AllocEntry, i: nat)
    requires FilesIn(f, s) && Registers(f, j, e)
    ensures L.Marks(SpanOf(e), i) <==> j != 0 && i == SlotOf(j, s)
  {
    hide Registers, Layout;
    EntryPlaces(f, j, e);
    if j != 0 {
      MarksOne(SpanOf(e), SlotOf(j, s), i);
    }
  }

  lemma {:induction false} SlotsBefore(f: seq<Region>, s: nat, n: nat, i: nat)
    requires FilesIn(f, s) && AllClear(f)
    ensures var c := Before(Machine(f), WithPoolOf(n), Images());
      && (L.KsSlot(c, i) <==> i in {0, 1, 3, s})
      && (L.IdSlot(c, i) <==> i in {0, 1, 3, 4, s})
  {
    hide MemoryAt, AllClear, Layout, Calls, Plan, Planned, Reached, Registers, L.Marks;
    BeforePool(f, n, 15);
    var m := MemoryAt(Machine(f), WithPoolOf(n), 15);
    var c := Before(Machine(f), WithPoolOf(n), Images());
    forall j | 0 <= j < 15
      ensures |m.reg| == 15 && (L.Marks(SpanOf(m.reg[j]), i) <==> j != 0 && i == SlotOf(j, s))
    {
      EntryIs(f, m, j);
      EntryMarks(f, s, j, m.reg[j], i);
    }
    assert |m.reg| == 15 by {
      EntryIs(f, m, 0);
    }
    MarkedSlots(c.reg, s, i);
    MarksOne(Images()[0], 4, i);
  }

  lemma {:induction false} MarkedSlots(es: seq<L.Span>, s: nat, i: nat)
    requires |es| == 15 && forall j | 0 <= j < 15 :: L.Marks(es[j], i) <==> j != 0 && i == SlotOf(j, s)
    ensures L.AnyMarks(es, i) <==> i in {0, 1, 3, s}
  {
    hide L.Marks;
    assert L.Marks(es[1], i) <==> i == s;
    assert L.Marks(es[5], i) <==> i == 0;
    assert L.Marks(es[6], i) <==> i == 1;
    assert L.Marks(es[7], i) <==> i == 3;
  }

  // ---------------------------------------------------------------- counting tables

  function SetBelow(s: set<nat>, n: nat): set<nat> { set i | i in s && i < n }

  lemma {:induction false} SetStep(s: set<nat>, n: nat)
    ensures |SetBelow(s, n + 1)| == |SetBelow(s, n)| + if n in s then 1 else 0
  {
    assert SetBelow(s, n + 1) == SetBelow(s, n) + if n in s then {n} else {};
  }

  lemma {:induction false} CountKsIs(c: L.Config, s: set<nat>, n: nat)
    requires forall i: nat | i < L.SLOTS :: L.KsSlot(c, i) <==> i in s
    requires n <= L.SLOTS
    ensures L.CountKs(c, n) == |SetBelow(s, n)|
    decreases n
  {
    hide L.KsSlot;
    if n > 0 {
      CountKsIs(c, s, n - 1);
      SetStep(s, n - 1);
    } else {
      assert SetBelow(s, 0) == {};
    }
  }

  lemma {:induction false} CountIdIs(c: L.Config, s: set<nat>, n: nat)
    requires forall i: nat | i < L.SLOTS :: L.IdSlot(c, i) <==> i in s
    requires n <= L.SLOTS
    ensures L.CountId(c, n) == |SetBelow(s, n)|
    decreases n
  {
    hide L.IdSlot;
    if n > 0 {
      CountIdIs(c, s, n - 1);
      SetStep(s, n - 1);
    } else {
      assert SetBelow(s, 0) == {};
    }
  }

  /** Ten tables if the files lie in a slot of their own below 2 GB, eight if they lie past it. */
  lemma {:induction false} CountedBefore(f: seq<Region>, s: nat, n: nat)
    requires FilesIn(f, s) && AllClear(f) && s > 4
    ensures L.Counted(Before(Machine(f), WithPoolOf(n), Images())) == if s < L.SLOTS then 10 else 8
  {
    hide L.KsSlot, L.IdSlot, L.CountId, L.CountKs, Before, AllClear, FilesIn, WithPoolOf;
    assert |WithPoolOf(n)| > 0 by {
      BeforePoolSize(n);
    }
    var c := Before(Machine(f), WithPoolOf(n), Images());
    forall i: nat
      ensures (L.KsSlot(c, i) <==> i in {0, 1, 3, s}) && (L.IdSlot(c, i) <==> i in {0, 1, 3, 4, s})
    {
      SlotsBefore(f, s, n, i);
    }
    CountKsIs(c, {0, 1, 3, s}, L.SLOTS);
    CountIdIs(c, {0, 1, 3, 4, s}, L.SLOTS);
    if s < L.SLOTS {
      assert SetBelow({0, 1, 3, s}, L.SLOTS) == {0, 1, 3, s};
      assert SetBelow({0, 1, 3, 4, s}, L.SLOTS) == {0, 1, 3, 4, s};
    } else {
      assert SetBelow({0, 1, 3, s}, L.SLOTS) == {0, 1, 3};
      assert SetBelow({0, 1, 3, 4, s}, L.SLOTS) == {0, 1, 3, 4};
    }
  }

  lemma {:induction false} BeforePoolSize(n: nat)
    ensures |WithPoolOf(n)| == 16 && WithPoolOf(n)[15] == Low(n, MemMap.PkMemoryData)
    ensures forall i | 0 <= i < 15 :: WithPoolOf(n)[i] == Calls()[i]
  {
    hide Calls;
  }

  // ---------------------------------------------------------------- the pool

  lemma {:induction false} FreeBeforePool(f: seq<Region>, m: Memory, i: nat)
    requires Planned(f, Calls(), Plan()) && Reached(f, Calls(), Plan(), 15, m) && i < |f|
    ensures |m.free| == |f| && |m.reg| == 15 && PagesUsed(15, i) * PAGE <= f[i].end
    ensures m.free[i] == Region(f[i].base, f[i].end - PagesUsed(15, i) * PAGE)
  {
    hide Planned, Used, Calls, Plan, PagesUsed;
    UsedIs(15, i);
  }

  /** The pool takes its `n` pages from region `i`. */
  ghost predicate PoolFrom(f: seq<Region>, n: nat, i: nat) {
    Layout(f) && AllClear(f) && TakesTop(MemoryAt(Machine(f), WithPoolOf(n), 15).free, Low(n, MemMap.PkMemoryData), i)
  }

  lemma {:induction false} PoolRegistered(f: seq<Region>, n: nat, i: nat)
    requires PoolFrom(f, n, i)
    ensures i < |f| && (PagesUsed(15, i) + n) * PAGE <= f[i].end
    ensures var m := MemoryAt(Machine(f), WithPoolOf(n), 15);
      && |m.reg| == 15
      && MemoryAt(Machine(f), WithPoolOf(n), 16).reg
         == m.reg + [AllocEntry(f[i].end - (PagesUsed(15, i) + n) * PAGE, n, MemMap.PkMemoryData, false)]
  {
    hide MemoryAt, AllClear, Layout, Calls, Plan, Planned, Step, Disjoint, PagesUsed;
    BeforePool(f, n, 15);
    var m := MemoryAt(Machine(f), WithPoolOf(n), 15);
    FreeBeforePool(f, m, i);
    StaysApart(f, Calls(), Plan(), 15, m);
    hide Reached;
    LastStep(f, n);
    TakeTop(m, Low(n, MemMap.PkMemoryData), i);
  }

  lemma {:induction false} LastStep(f: seq<Region>, n: nat)
    requires AllClear(f)
    ensures |WithPoolOf(n)| == 16
    ensures MemoryAt(Machine(f), WithPoolOf(n), 16)
         == Step(MemoryAt(Machine(f), WithPoolOf(n), 15), Low(n, MemMap.PkMemoryData))
  {
    hide Step, Calls, FreeAtBoot;
  }

  lemma {:induction false} CallSucceeds(f: seq<Region>, n: nat, k: nat)
    requires Layout(f) && AllClear(f) && k < 15
    ensures |WithPoolOf(n)| == 16 && Succeeded(Machine(f), WithPoolOf(n), k)
  {
    hide MemoryAt, AllClear, Layout, Calls, Plan, Planned;
    BeforePool(f, n, k);
    BeforePool(f, n, k + 1);
  }

  /** With a pool of the pages counted, the run is a boot: the core pages are calls 7, 8 and 9. */
  lemma {:induction false} IsBooted(f: seq<Region>, n: nat, i: nat)
    requires PoolFrom(f, n, i) && L.Counted(Before(Machine(f), WithPoolOf(n), Images())) == n < WORD32
    ensures Booted(Machine(f), WithPoolOf(n), Images(), Core(7, 8, 9))
  {
    hide MemoryAt, AllClear, Layout, L.Counted, Before, BootOk, TakesTop;
    var b, calls := Machine(f), WithPoolOf(n);
    BeforePoolSize(n);
    CallSucceeds(f, n, 7);
    CallSucceeds(f, n, 8);
    CallSucceeds(f, n, 9);
    PoolRegistered(f, n, i);
    LayoutClear(f);
    LayoutSize(f);
    MachineBoots(f, calls);
  }

  /** Where the pool lies decides whether it suffices. */
  lemma {:induction false} PoolIn(f: seq<Region>, n: nat, i: nat, s: nat, p: nat)
    requires PoolFrom(f, n, i) && FilesIn(f, s) && 0 < n < WORD32 && p < L.SLOTS
    requires L.Counted(Before(Machine(f), WithPoolOf(n), Images())) == n
    requires i < |f| && p * L.SLOT <= f[i].end - (PagesUsed(15, i) + n) * PAGE
    requires f[i].end - PagesUsed(15, i) * PAGE <= (p + 1) * L.SLOT
    ensures Booted(Machine(f), WithPoolOf(n), Images(), Core(7, 8, 9))
    ensures L.Counted(AtEnd(Machine(f), WithPoolOf(n), Images())) <= PoolOf(Machine(f), WithPoolOf(n)).pages
       <==> p in {0, 1, 3, s}
  {
    var b, calls := Machine(f), WithPoolOf(n);
    hide Booted, MemoryAt, AllClear, Layout, Before, L.Counted, L.KsSlot, L.IdSlot, L.Marks, TakesTop, PagesUsed,
         FilesIn;
    BeforePoolSize(n);
    IsBooted(f, n, i);
    PoolRegistered(f, n, i);
    BootedFacts(b, calls, Images(), Core(7, 8, 9));
    BootRoomIff(b, calls, Images(), Core(7, 8, 9));
    SlotsBefore(f, s, n, p);
    var pool := SpanOf(PoolOf(b, calls));
    forall j: nat
      ensures L.Marks(pool, j) <==> j == p
    {
      MarksOne(pool, p, j);
    }
  }

  // ---------------------------------------------------------------- a pool that is too short

  /** Seventeen pages just below 16 MB, which core pages and arena all but fill, and the next free memory at 8 MB. */
  function ShortMemory(): (f: seq<Region>)
    ensures Layout(f) && FilesIn(f, 8)
  {
    [Region(0xF_F000, 0x10_4000), Region(0x3F_F000, 0x40_2000), Region(P.LOW16M - 17 * PAGE, P.LOW16M),
     Region(0x200_0000, 0x2C0_0000), Region(0x80_0000, 0x81_0000)]
  }

  lemma {:induction false} ShortPool(f: seq<Region>)
    requires f == ShortMemory()
    ensures PoolFrom(f, 10, 4)
  {
    hide MemoryAt, Planned, Reached, Calls, Plan;
    LayoutClear(f);
    BeforePool(f, 10, 15);
    var m := MemoryAt(Machine(f), WithPoolOf(10), 15);
    FreeBeforePool(f, m, 0);
    FreeBeforePool(f, m, 1);
    FreeBeforePool(f, m, 2);
    FreeBeforePool(f, m, 3);
    FreeBeforePool(f, m, 4);
  }

  /** A boot whose pool is too short: its ten pages lie in a slot that nothing had marked, so the layout needs more
      tables than were counted. */
  lemma {:induction false} PoolTooShort() returns (b: Boot, calls: seq<Call>)
    ensures Booted(b, calls, Images(), Core(7, 8, 9))
    ensures L.Counted(AtEnd(b, calls, Images())) > PoolOf(b, calls).pages
  {
    hide PoolFrom, L.Counted, Booted, AtEnd, Before, WithPoolOf;
    var f := ShortMemory();
    LayoutClear(f);
    ShortPool(f);
    CountedBefore(f, 8, 10);
    PoolIn(f, 10, 4, 8, 2);
    b, calls := Machine(f), WithPoolOf(10);
  }

  // ---------------------------------------------------------------- memory past 4 GB

  const HIGH: nat := 0x1_0000_1000

  /** One megabyte just below 16 MB, and memory past 4 GB that the files all but fill. */
  function HighMemory(): (f: seq<Region>)
    ensures Layout(f) && AllClear(f) && FilesIn(f, 1024)
  {
    [Region(0xF_F000, 0x10_4000), Region(0x3F_F000, 0x40_2000), Region(0xF0_0000, P.LOW16M),
     Region(HIGH, HIGH + 2571 * PAGE)]
  }

  function HighBoot(): Boot { Machine(HighMemory()) }
  function HighCalls(): seq<Call> { WithPoolOf(8) }

  lemma {:induction false} HighPool(f: seq<Region>)
    requires f == HighMemory()
    ensures PoolFrom(f, 8, 2)
  {
    hide MemoryAt, Planned, Reached, Calls, Plan;
    BeforePool(f, 8, 15);
    var m := MemoryAt(Machine(f), WithPoolOf(8), 15);
    FreeBeforePool(f, m, 0);
    FreeBeforePool(f, m, 1);
    FreeBeforePool(f, m, 2);
    FreeBeforePool(f, m, 3);
  }

  /** With such memory all calls succeed and the pool suffices. */
  lemma {:induction false} HighBootExists()
    ensures Booted(HighBoot(), HighCalls(), Images(), Core(7, 8, 9))
    ensures L.Counted(AtEnd(HighBoot(), HighCalls(), Images())) <= PoolOf(HighBoot(), HighCalls()).pages
  {
    hide PoolFrom, L.Counted, Booted, AtEnd, Before, WithPoolOf;
    var f := HighMemory();
    HighPool(f);
    CountedBefore(f, 1024, 8);
    PoolIn(f, 8, 2, 1024, 3);
  }

  /** The page at 0x2000 is nobody's, and the first page of the NLS block is taken for it. */
  lemma {:induction false} HighStray(f: seq<Region>)
    requires f == HighMemory()
    ensures var c := AtEnd(Machine(f), WithPoolOf(8), Images()); P.IdStray(c, 2) && P.KsStray(c, 2)
  {
    hide MemoryAt, Calls, Plan, Planned, Reached, Registers, L.Marks, TakesTop;
    HighPool(f);
    PoolRegistered(f, 8, 2);
    BeforePool(f, 8, 15);
    BeforePoolSize(8);
    var m, c := MemoryAt(Machine(f), WithPoolOf(8), 15), AtEnd(Machine(f), WithPoolOf(8), Images());
    forall r | 0 <= r < |c.reg|
      ensures !P.Owns(c.reg[r], 2 * PAGE)
    {
      if r < 15 {
        EntryIs(f, m, r);
        EntryPlaces(f, r, m.reg[r]);
      }
    }
    EntryIs(f, m, 4);
    EntryPlaces(f, 4, m.reg[4]);
    assert P.CutTo(c.reg[4], 0, 2);
    EntryIs(f, m, 5);
    EntryPlaces(f, 5, m.reg[5]);
    MarksOne(c.reg[5], 0, 0);
  }

  /** The tables of that boot, though there is room for them all, show memory in both halves that nobody
      registered. */
  lemma {:induction false} HighMemoryShown(pd: seq<nat>, pts: seq<nat>)
    requires Booted(HighBoot(), HighCalls(), Images(), Core(7, 8, 9))
    requires P.Built(AtEnd(HighBoot(), HighCalls(), Images()),
                     BasesOf(HighBoot(), HighCalls(), Images(), Core(7, 8, 9)), pd, pts)
    ensures var c, bases := AtEnd(HighBoot(), HighCalls(), Images()),
                            BasesOf(HighBoot(), HighCalls(), Images(), Core(7, 8, 9));
      && |pd| == 1024 && |pts| == 1024 * bases.tables
      && !P.IdentityIsSound(c, bases, pd, pts) && !P.Kseg0IsSound(c, bases, pd, pts)
  {
    hide Booted, BasesOf, P.Built, P.Placed, P.IdStray, P.KsStray, P.IdentityIsSound, P.Kseg0IsSound, MemoryAt, BootOk,
         WithPoolOf, Calls;
    var b, calls, core := HighBoot(), HighCalls(), Core(7, 8, 9);
    BootedFacts(b, calls, Images(), core);
    BootPlaces(b, calls, Images(), core);
    SpansProper(b, calls, |calls|);
    HighStray(HighMemory());
    var c, bases := AtEnd(b, calls, Images()), BasesOf(b, calls, Images(), core);
    P.IdentitySoundIff(c, bases, pd, pts);
    P.Kseg0SoundIff(c, bases, pd, pts);
  }
}
