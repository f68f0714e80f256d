/** What the page directory and page tables built by src/boot/mmu.c translate: the two-level walk of the
    processor over their contents, and what it gives for registered pages, for any present entry, through
    the self-map and for the HAL page. */
module PageTables {
  import opened Bits
  import opened PageLayout

  const PAGES32: nat := 0x10_0000       // pages of a 32-bit address space
  const LOW16M: nat := 0x100_0000

  /** Where the structures lie: page directory, table pool, PCR and shared user data. */
  datatype Bases = Bases(pd: nat, pts: nat, tables: nat, pcr: nat, sud: nat)

  predicate Low(a: nat) { a % PAGE == 0 && 0 < a < LOW16M }

  /** As mmu_alloc_reserved and mmu_alloc_pt_pool place them: below 16 MB, the directory outside the pool. */
  predicate Placed(b: Bases) {
    && Low(b.pd) && Low(b.pcr) && Low(b.sud)
    && b.pts % PAGE == 0 && 0 < b.pts && b.pts + b.tables * PAGE <= LOW16M
    && (b.pd < b.pts || b.pts + b.tables * PAGE <= b.pd)
  }

  /** Page `n` is one of the first `m` pages of the span, in 32-bit arithmetic. */
  predicate SpanHas(e: Span, m: nat, n: nat) {
    exists p | 0 <= p < m :: PageAt(e, p) == n
  }

  function PageAt(e: Span, p: nat): nat { (e.phys / PAGE + p) % PAGES32 }

  predicate AnyHas(es: seq<Span>, n: nat) {
    exists r | 0 <= r < |es| :: !es[r].noMap && SpanHas(es[r], es[r].pages, n)
  }

  /** A present, writable entry for page frame `n`. */
  function PteOf(n: nat): nat { n * PAGE + 3 }

  /** The identity map has page `n`: page 0 is left out, so null dereferences fault. */
  predicate IdPage(c: Config, n: nat) { n != 0 && (AnyHas(c.reg, n) || AnyHas(c.images, n)) }
  predicate KsPage(c: Config, n: nat) { AnyHas(c.reg, n) }

  function TableAddr(b: Bases, t: nat): nat { b.pts + t * PAGE }

  /** The directory entry for slot `i` of either half. */
  function IdPde(c: Config, b: Bases, i: nat): nat {
    if IdSlot(c, i) then TableAddr(b, IdTable(c, i)) + 3 else 0
  }
  function KsPde(c: Config, b: Bases, i: nat): nat {
    if KsSlot(c, i) then TableAddr(b, KsTable(c, i)) + 3 else 0
  }

  /** The directory: the self-map and the HAL table take the place of KSEG0 slots 256 and 511. */
  function Pde(c: Config, b: Bases, i: nat): nat {
    if i == 768 then b.pd + 3
    else if i == 1023 then TableAddr(b, HalTable(c)) + 3
    else if i < 512 then IdPde(c, b, i)
    else KsPde(c, b, i - 512)
  }

  function HalPte(b: Bases, k: nat): nat {
    if k == 511 then b.pcr + 3 else if k == 496 then b.sud + 3 else 0
  }

  function IdPte(c: Config, n: nat): nat { if IdPage(c, n) then PteOf(n) else 0 }
  function KsPte(c: Config, n: nat): nat { if KsPage(c, n) then PteOf(n) else 0 }

  /** Entry `k` of table `t` of the pool. */
  function Cell(pts: seq<nat>, t: nat, k: nat): nat
    requires k < 1024 && 1024 * (t + 1) <= |pts|
  {
    pts[1024 * t + k]
  }

  ghost predicate IdTableOk(c: Config, pts: seq<nat>, i: nat) {
    IdSlot(c, i) ==>
      && 1024 * (IdTable(c, i) + 1) <= |pts|
      && forall k | 0 <= k < 1024 :: Cell(pts, IdTable(c, i), k) == IdPte(c, 1024 * i + k)
  }

  ghost predicate KsTableOk(c: Config, pts: seq<nat>, i: nat) {
    KsSlot(c, i) ==>
      && 1024 * (KsTable(c, i) + 1) <= |pts|
      && forall k | 0 <= k < 1024 :: Cell(pts, KsTable(c, i), k) == KsPte(c, 1024 * i + k)
  }

  ghost predicate HalTableOk(c: Config, b: Bases, pts: seq<nat>) {
    && 1024 * (HalTable(c) + 1) <= |pts|
    && forall k | 0 <= k < 1024 :: Cell(pts, HalTable(c), k) == HalPte(b, k)
  }

  /** What build_page_tables leaves in the directory and the pool. */
  ghost predicate Built(c: Config, b: Bases, pd: seq<nat>, pts: seq<nat>) {
    && Counted(c) <= b.tables && |pts| == 1024 * b.tables
    && |pd| == 1024 && (forall i | 0 <= i < 1024 :: pd[i] == Pde(c, b, i))
    && (forall i | 0 <= i < SLOTS :: IdTableOk(c, pts, i) && KsTableOk(c, pts, i))
    && HalTableOk(c, b, pts)
  }

  // ---------------------------------------------------------------- the walk

  predicate Present(e: nat) { e % 2 == 1 }
  function Frame(e: nat): nat { e - e % PAGE }

  /** Entry `k` of the table in page frame `f`: the directory itself or a table of the pool. */
  function TableEntry(b: Bases, pd: seq<nat>, pts: seq<nat>, f: nat, k: nat): Option<nat>
    requires |pd| == 1024 && |pts| == 1024 * b.tables && k < 1024
  {
    if f == b.pd then Some(pd[k])
    else if b.pts <= f && f % PAGE == b.pts % PAGE && (f - b.pts) / PAGE < b.tables
      then Some(Cell(pts, (f - b.pts) / PAGE, k))
    else None
  }

  /** The physical address the processor translates `va` to, `None` for a fault. */
  function Walk(b: Bases, pd: seq<nat>, pts: seq<nat>, va: nat): Option<nat>
    requires |pd| == 1024 && |pts| == 1024 * b.tables && va < WORD32
  {
    var pde := pd[va / SLOT];
    if !Present(pde) then None else
    match TableEntry(b, pd, pts, Frame(pde), va / PAGE % 1024)
    case None => None
    case Some(pte) => if Present(pte) then Some(Frame(pte) + va % PAGE) else None
  }

  lemma {:induction false} FrameOf(a: nat)
    requires a % PAGE == 0
    ensures Frame(a + 3) == a && Present(a + 3) && !Present(0)
  {
  }

  lemma {:induction false} EntryInPool(b: Bases, pd: seq<nat>, pts: seq<nat>, t: nat, k: nat)
    requires Placed(b) && |pd| == 1024 && |pts| == 1024 * b.tables && k < 1024 && t < b.tables
    ensures TableEntry(b, pd, pts, TableAddr(b, t), k) == Some(Cell(pts, t, k))
    ensures TableAddr(b, t) % PAGE == 0
  {
  }

  /** The walk through a table of the pool. */
  lemma {:induction false} WalkPool(b: Bases, pd: seq<nat>, pts: seq<nat>, va: nat, t: nat)
    requires Placed(b) && |pd| == 1024 && |pts| == 1024 * b.tables && va < WORD32 && t < b.tables
    requires pd[va / SLOT] == TableAddr(b, t) + 3
    ensures var pte := Cell(pts, t, va / PAGE % 1024);
            Walk(b, pd, pts, va) == if Present(pte) then Some(Frame(pte) + va % PAGE) else None
  {
    EntryInPool(b, pd, pts, t, va / PAGE % 1024);
    FrameOf(TableAddr(b, t));
    hide TableEntry, TableAddr, Frame, Present, Cell;
  }

  /** A slot without a table faults. */
  lemma {:induction false} WalkNothing(b: Bases, pd: seq<nat>, pts: seq<nat>, va: nat)
    requires |pd| == 1024 && |pts| == 1024 * b.tables && va < WORD32 && pd[va / SLOT] == 0
    ensures Walk(b, pd, pts, va) == None
  {
    hide TableEntry;
  }

  /** An entry for the page of `pa`, or none. */
  lemma {:induction false} PteFrame(pa: nat, present: bool, pte: nat)
    requires pte == if present then PteOf(pa / PAGE) else 0
    ensures (if Present(pte) then Some(Frame(pte) + pa % PAGE) else None) == if present then Some(pa) else None
  {
    FrameOf(pa / PAGE * PAGE);
  }

  // ---------------------------------------------------------------- identity and KSEG0

  lemma {:induction false} BuiltId(c: Config, b: Bases, pd: seq<nat>, pts: seq<nat>, i: nat, k: nat)
    requires Built(c, b, pd, pts) && i < SLOTS && k < 1024
    ensures |pd| == 1024 && |pts| == 1024 * b.tables && pd[i] == IdPde(c, b, i)
    ensures IdSlot(c, i) ==> IdTable(c, i) < b.tables && Cell(pts, IdTable(c, i), k) == IdPte(c, 1024 * i + k)
  {
    hide IdSlot, KsSlot, IdPte, Cell, CountId, CountKs, KsTableOk, HalTableOk;
    assert pd[i] == Pde(c, b, i);
    assert IdTableOk(c, pts, i);
    TablesDistinct(c, i, i);
  }

  lemma {:induction false} BuiltKs(c: Config, b: Bases, pd: seq<nat>, pts: seq<nat>, i: nat, k: nat)
    requires Built(c, b, pd, pts) && i < SLOTS && k < 1024
    ensures |pd| == 1024 && |pts| == 1024 * b.tables && (i != 256 && i != 511 ==> pd[512 + i] == KsPde(c, b, i))
    ensures KsSlot(c, i) ==> KsTable(c, i) < b.tables && Cell(pts, KsTable(c, i), k) == KsPte(c, 1024 * i + k)
  {
    hide IdSlot, KsSlot, KsPte, Cell, CountId, CountKs, IdTableOk, HalTableOk;
    assert pd[512 + i] == Pde(c, b, 512 + i);
    assert KsTableOk(c, pts, i);
    TablesDistinct(c, i, i);
  }

  lemma {:induction false} Digits(va: nat)
    ensures 1024 * (va / SLOT) + va / PAGE % 1024 == va / PAGE
  {
  }

  /** In the low half a walk gives the address itself or faults. */
  lemma {:induction false} IdWalk(c: Config, b: Bases, pd: seq<nat>, pts: seq<nat>, va: nat)
    requires Placed(b) && Built(c, b, pd, pts) && va < SLOTS * SLOT
    ensures Walk(b, pd, pts, va) == if IdSlot(c, va / SLOT) && IdPage(c, va / PAGE) then Some(va) else None
  {
    hide IdSlot, IdPage, TableAddr, Walk, Built, Cell, PteOf, Frame, Present, IdTable, Placed;
    var i, k := va / SLOT, va / PAGE % 1024;
    Digits(va);
    BuiltId(c, b, pd, pts, i, k);
    if IdSlot(c, i) {
      WalkPool(b, pd, pts, va, IdTable(c, i));
      PteFrame(va, IdPage(c, va / PAGE), Cell(pts, IdTable(c, i), k));
    } else {
      WalkNothing(b, pd, pts, va);
    }
  }

  lemma {:induction false} Kseg0Digits(pa: nat)
    requires pa < SLOTS * SLOT
    ensures var va := KSEG0 + pa;
      va < WORD32 && va / SLOT == 512 + pa / SLOT && va / PAGE % 1024 == pa / PAGE % 1024 && va % PAGE == pa % PAGE
  {
  }

  /** In KSEG0, outside the two overridden slots, a walk gives the physical address or faults. */
  lemma {:induction false} KsWalk(c: Config, b: Bases, pd: seq<nat>, pts: seq<nat>, pa: nat)
    requires Placed(b) && Built(c, b, pd, pts) && pa < SLOTS * SLOT
    requires pa / SLOT != 256 && pa / SLOT != 511
    ensures Walk(b, pd, pts, KSEG0 + pa) == if KsSlot(c, pa / SLOT) && KsPage(c, pa / PAGE) then Some(pa) else None
  {
    hide KsSlot, KsPage, TableAddr, Walk, Built, Cell, PteOf, Frame, Present, KsTable, Placed;
    var i, k := pa / SLOT, pa / PAGE % 1024;
    Digits(pa);
    Kseg0Digits(pa);
    BuiltKs(c, b, pd, pts, i, k);
    if KsSlot(c, i) {
      WalkPool(b, pd, pts, KSEG0 + pa, KsTable(c, i));
      PteFrame(pa, KsPage(c, pa / PAGE), Cell(pts, KsTable(c, i), k));
    } else {
      WalkNothing(b, pd, pts, KSEG0 + pa);
    }
  }

  // ---------------------------------------------------------------- the translations

  /** A nonempty span of whole pages that does not wrap around the address space. */
  predicate Proper(e: Span) { e.phys % PAGE == 0 && e.pages > 0 && e.phys + e.pages * PAGE < WORD64 }

  /** A page of a mapped span has its slot marked and is found in the span. */
  lemma {:induction false} SpanPage(e: Span, p: nat)
    requires Proper(e) && !e.noMap && p < e.pages && e.phys + p * PAGE < SLOTS * SLOT
    ensures Marks(e, (e.phys + p * PAGE) / SLOT) && SpanHas(e, e.pages, (e.phys + p * PAGE) / PAGE)
  {
    assert PageAt(e, p) == (e.phys + p * PAGE) / PAGE;
  }

  lemma {:induction false} SameDigits(a: nat, off: nat)
    requires a % PAGE == 0 && off < PAGE
    ensures (a + off) / PAGE == a / PAGE && (a + off) / SLOT == a / SLOT
    ensures a < SLOTS * SLOT ==> a + off < SLOTS * SLOT
  {
  }

  /** Every byte of a registered, mapped page below 2 GB, except page 0, walks to itself. */
  lemma {:induction false} IdentityTranslates(c: Config, b: Bases, pd: seq<nat>, pts: seq<nat>, e: Span, p: nat,
                                              off: nat)
    requires Placed(b) && Built(c, b, pd, pts) && (e in c.reg || e in c.images) && Proper(e) && !e.noMap
    requires p < e.pages && off < PAGE && 0 < e.phys + p * PAGE < SLOTS * SLOT
    ensures e.phys + p * PAGE + off < WORD32
    ensures Walk(b, pd, pts, e.phys + p * PAGE + off) == Some(e.phys + p * PAGE + off)
  {
    hide Walk, Built, Marks, SpanHas, Placed, AnyMarks, AnyHas;
    var a := e.phys + p * PAGE;
    WholePages(e, p);
    SpanPage(e, p);
    SameDigits(a, off);
    IdWalk(c, b, pd, pts, a + off);
    if e in c.reg {
      InAny(c.reg, e, a);
    } else {
      InAny(c.images, e, a);
    }
  }

  lemma {:induction false} WholePages(e: Span, p: nat)
    requires Proper(e)
    ensures (e.phys + p * PAGE) % PAGE == 0
  {
  }

  lemma {:induction false} InAny(es: seq<Span>, e: Span, a: nat)
    requires e in es && !e.noMap && Marks(e, a / SLOT) && SpanHas(e, e.pages, a / PAGE)
    ensures AnyMarks(es, a / SLOT) && AnyHas(es, a / PAGE)
  {
    hide Marks, SpanHas;
    var r :| 0 <= r < |es| && es[r] == e;
    assert Marks(es[r], a / SLOT) && SpanHas(es[r], es[r].pages, a / PAGE);
  }

  /** Every mapped allocation below 2 GB walks back to itself through KSEG0 unless it lies in physical slot
      256 or 511, whose places the self-map and the HAL table have taken: then it does not. */
  lemma {:induction false} Kseg0TranslatesIff(c: Config, b: Bases, pd: seq<nat>, pts: seq<nat>, e: Span, p: nat,
                                              off: nat)
    requires Placed(b) && Built(c, b, pd, pts) && e in c.reg && Proper(e) && !e.noMap
    requires p < e.pages && off < PAGE && e.phys + p * PAGE < SLOTS * SLOT
    ensures KSEG0 + (e.phys + p * PAGE + off) < WORD32
    ensures var pa := e.phys + p * PAGE + off;
            Walk(b, pd, pts, KSEG0 + pa) == Some(pa) <==> pa / SLOT != 256 && pa / SLOT != 511
  {
    hide Walk, Built, Marks, SpanHas, Placed, AnyMarks, AnyHas;
    var a := e.phys + p * PAGE;
    WholePages(e, p);
    SpanPage(e, p);
    SameDigits(a, off);
    Kseg0Digits(a + off);
    InAny(c.reg, e, a);
    if a / SLOT == 256 {
      SelfMapLow(c, b, pd, pts, KSEG0 + a + off);
    } else if a / SLOT == 511 {
      HalWalk(c, b, pd, pts, KSEG0 + a + off);
    } else {
      KsWalk(c, b, pd, pts, a + off);
    }
  }

  // ---------------------------------------------------------------- what a translation may show

  /** Byte `pa` belongs to the mapped span. */
  predicate Owns(e: Span, pa: nat) { !e.noMap && e.phys <= pa < e.phys + e.pages * PAGE }

  predicate Owned(es: seq<Span>, pa: nat) {
    exists r | 0 <= r < |es| :: Owns(es[r], pa)
  }

  /** Page `p` of the span lies at or past 4 GB, and its number cut to 32 bits is `n`. */
  predicate CutTo(e: Span, p: nat, n: nat) {
    !e.noMap && p < e.pages && e.phys / PAGE + p >= PAGES32 && PageAt(e, p) == n
  }

  /** Some page of a mapped span at or past 4 GB is taken for page `n`. */
  ghost predicate Strays(es: seq<Span>, n: nat) {
    exists r, p: nat | 0 <= r < |es| && p < es[r].pages :: CutTo(es[r], p, n)
  }

  ghost predicate AllProper(es: seq<Span>) { forall r | 0 <= r < |es| :: Proper(es[r]) }

  lemma {:induction false} OwnedHas(e: Span, pa: nat)
    requires Proper(e) && Owns(e, pa) && pa < WORD32
    ensures SpanHas(e, e.pages, pa / PAGE)
  {
    var p := pa / PAGE - e.phys / PAGE;
    assert PageAt(e, p) == pa / PAGE;
  }

  lemma {:induction false} HasOwned(e: Span, p: nat, pa: nat)
    requires Proper(e) && !e.noMap && p < e.pages && PageAt(e, p) == pa / PAGE && e.phys / PAGE + p < PAGES32
    ensures Owns(e, pa)
  {
  }

  /** The 32-bit comparison finds page `n` in a registry exactly when the page is really registered or one at or
      past 4 GB is taken for it. */
  lemma {:induction false} AnyHasIff(es: seq<Span>, pa: nat)
    requires AllProper(es) && pa < WORD32
    ensures AnyHas(es, pa / PAGE) <==> Owned(es, pa) || Strays(es, pa / PAGE)
  {
    hide Owns, CutTo, Proper;
    if AnyHas(es, pa / PAGE) {
      HasEither(es, pa);
    }
    if Owned(es, pa) {
      var r :| 0 <= r < |es| && Owns(es[r], pa);
      assert Proper(es[r]);
      OwnedHas(es[r], pa);
      assert !es[r].noMap by { OwnsMapped(es[r], pa); }
      assert AnyHas(es, pa / PAGE);
    }
    if Strays(es, pa / PAGE) {
      var r, p: nat :| 0 <= r < |es| && p < es[r].pages && CutTo(es[r], p, pa / PAGE);
      CutToHas(es[r], p, pa / PAGE);
      assert AnyHas(es, pa / PAGE);
    }
  }

  lemma {:induction false} OwnsMapped(e: Span, pa: nat)
    requires Owns(e, pa)
    ensures !e.noMap
  {
  }

  lemma {:induction false} CutToHas(e: Span, p: nat, n: nat)
    requires CutTo(e, p, n)
    ensures !e.noMap && SpanHas(e, e.pages, n)
  {
  }

  lemma {:induction false} HasEither(es: seq<Span>, pa: nat)
    requires AllProper(es) && AnyHas(es, pa / PAGE)
    ensures Owned(es, pa) || Strays(es, pa / PAGE)
  {
    var r :| 0 <= r < |es| && !es[r].noMap && SpanHas(es[r], es[r].pages, pa / PAGE);
    var e := es[r];
    var p: nat :| p < e.pages && PageAt(e, p) == pa / PAGE;
    assert Proper(e);
    if e.phys / PAGE + p < PAGES32 {
      HasOwned(e, p, pa);
      assert Owns(es[r], pa);
    } else {
      assert CutTo(es[r], p, pa / PAGE);
    }
  }

  /** The registries show page `n` of a half without owning it: a page at or past 4 GB is taken for it, and its slot
      has a table. */
  ghost predicate IdStray(c: Config, n: nat) {
    && 0 < n < 1024 * SLOTS && IdSlot(c, n / 1024) && (Strays(c.reg, n) || Strays(c.images, n))
    && !Owned(c.reg, n * PAGE) && !Owned(c.images, n * PAGE)
  }

  ghost predicate KsStray(c: Config, n: nat) {
    && n < 1024 * SLOTS && n / 1024 != 256 && n / 1024 != 511
    && KsSlot(c, n / 1024) && Strays(c.reg, n) && !Owned(c.reg, n * PAGE)
  }

  /** Every translation of the low half is to the address itself, in a registered range. */
  ghost predicate IdentityIsSound(c: Config, b: Bases, pd: seq<nat>, pts: seq<nat>)
    requires |pd| == 1024 && |pts| == 1024 * b.tables
  {
    forall va: nat | va < SLOTS * SLOT && Walk(b, pd, pts, va).Some? ::
      Walk(b, pd, pts, va) == Some(va) && (Owned(c.reg, va) || Owned(c.images, va))
  }

  /** Every translation of KSEG0, outside the two overridden slots, is to the physical address, in an allocation. */
  ghost predicate Kseg0IsSound(c: Config, b: Bases, pd: seq<nat>, pts: seq<nat>)
    requires |pd| == 1024 && |pts| == 1024 * b.tables
  {
    forall pa: nat | pa < SLOTS * SLOT && pa / SLOT != 256 && pa / SLOT != 511 && Walk(b, pd, pts, KSEG0 + pa).Some? ::
      Walk(b, pd, pts, KSEG0 + pa) == Some(pa) && Owned(c.reg, pa)
  }

  lemma {:induction false} SameOwner(es: seq<Span>, pa: nat)
    requires AllProper(es)
    ensures Owned(es, pa) <==> Owned(es, pa / PAGE * PAGE)
  {
    if Owned(es, pa) {
      var r :| 0 <= r < |es| && Owns(es[r], pa);
      assert Proper(es[r]);
      assert Owns(es[r], pa / PAGE * PAGE);
    }
    if Owned(es, pa / PAGE * PAGE) {
      var r :| 0 <= r < |es| && Owns(es[r], pa / PAGE * PAGE);
      assert Proper(es[r]);
      assert Owns(es[r], pa);
    }
  }

  /** One address of the low half, with real containment. */
  lemma {:induction false} IdShows(c: Config, b: Bases, pd: seq<nat>, pts: seq<nat>, va: nat)
    requires Placed(b) && Built(c, b, pd, pts) && AllProper(c.reg) && AllProper(c.images) && va < SLOTS * SLOT
    ensures |pd| == 1024 && |pts| == 1024 * b.tables
    ensures Walk(b, pd, pts, va) ==
      if va >= PAGE && IdSlot(c, va / SLOT)
         && (Owned(c.reg, va) || Owned(c.images, va) || Strays(c.reg, va / PAGE) || Strays(c.images, va / PAGE))
      then Some(va) else None
  {
    hide Walk, Built, Placed, AnyHas, IdSlot, Owned, Strays, AllProper;
    IdWalk(c, b, pd, pts, va);
    AnyHasIff(c.reg, va);
    AnyHasIff(c.images, va);
    BuiltSizes(c, b, pd, pts);
  }

  lemma {:induction false} KsShows(c: Config, b: Bases, pd: seq<nat>, pts: seq<nat>, pa: nat)
    requires Placed(b) && Built(c, b, pd, pts) && AllProper(c.reg) && pa < SLOTS * SLOT
    requires pa / SLOT != 256 && pa / SLOT != 511
    ensures |pd| == 1024 && |pts| == 1024 * b.tables && KSEG0 + pa < WORD32
    ensures Walk(b, pd, pts, KSEG0 + pa) ==
      if KsSlot(c, pa / SLOT) && (Owned(c.reg, pa) || Strays(c.reg, pa / PAGE)) then Some(pa) else None
  {
    hide Walk, Built, Placed, AnyHas, KsSlot, Owned, Strays, AllProper;
    KsWalk(c, b, pd, pts, pa);
    AnyHasIff(c.reg, pa);
    BuiltSizes(c, b, pd, pts);
  }

  lemma {:induction false} BuiltSizes(c: Config, b: Bases, pd: seq<nat>, pts: seq<nat>)
    requires Built(c, b, pd, pts)
    ensures |pd| == 1024 && |pts| == 1024 * b.tables
  {
  }

  lemma {:induction false} PageSlot(va: nat)
    ensures va / PAGE / 1024 == va / SLOT
    ensures va / PAGE * PAGE <= va
  {
  }

  /** The identity half shows only registered memory, exactly when no page at or past 4 GB, cut to 32 bits, falls on
      an unregistered page of a slot that has a table. */
  lemma {:induction false} IdentitySoundIff(c: Config, b: Bases, pd: seq<nat>, pts: seq<nat>)
    requires Placed(b) && Built(c, b, pd, pts) && AllProper(c.reg) && AllProper(c.images)
    ensures |pd| == 1024 && |pts| == 1024 * b.tables
    ensures IdentityIsSound(c, b, pd, pts) <==> forall n: nat :: !IdStray(c, n)
  {
    hide Walk, Built, Placed, IdSlot, Owned, Strays, AllProper;
    BuiltSizes(c, b, pd, pts);
    if n: nat :| IdStray(c, n) {
      var va := n * PAGE;
      assert va / PAGE == n && va / SLOT == n / 1024 && va < SLOTS * SLOT && va >= PAGE;
      IdShows(c, b, pd, pts, va);
      assert Walk(b, pd, pts, va) == Some(va);
    } else {
      forall va: nat | va < SLOTS * SLOT && Walk(b, pd, pts, va).Some?
        ensures Walk(b, pd, pts, va) == Some(va) && (Owned(c.reg, va) || Owned(c.images, va))
      {
        IdShows(c, b, pd, pts, va);
        PageSlot(va);
        SameOwner(c.reg, va);
        SameOwner(c.images, va);
        assert !IdStray(c, va / PAGE);
      }
    }
  }

  /** The same of KSEG0, where only allocations count. */
  lemma {:induction false} Kseg0SoundIff(c: Config, b: Bases, pd: seq<nat>, pts: seq<nat>)
    requires Placed(b) && Built(c, b, pd, pts) && AllProper(c.reg)
    ensures |pd| == 1024 && |pts| == 1024 * b.tables
    ensures Kseg0IsSound(c, b, pd, pts) <==> forall n: nat :: !KsStray(c, n)
  {
    hide Walk, Built, Placed, KsSlot, Owned, Strays, AllProper;
    BuiltSizes(c, b, pd, pts);
    if n: nat :| KsStray(c, n) {
      var pa := n * PAGE;
      assert pa / PAGE == n && pa / SLOT == n / 1024 && pa < SLOTS * SLOT;
      KsShows(c, b, pd, pts, pa);
      assert Walk(b, pd, pts, KSEG0 + pa) == Some(pa);
    } else {
      forall pa: nat | pa < SLOTS * SLOT && pa / SLOT != 256 && pa / SLOT != 511 && Walk(b, pd, pts, KSEG0 + pa).Some?
        ensures Walk(b, pd, pts, KSEG0 + pa) == Some(pa) && Owned(c.reg, pa)
      {
        KsShows(c, b, pd, pts, pa);
        PageSlot(pa);
        SameOwner(c.reg, pa);
        assert !KsStray(c, pa / PAGE);
      }
    }
  }

  /** No mapped span reaches past 4 GB. */
  predicate AllLow(es: seq<Span>) {
    forall r | 0 <= r < |es| && !es[r].noMap :: es[r].phys + es[r].pages * PAGE <= WORD32
  }

  /** As long as no mapped span reaches past 4 GB, both halves show only registered memory. */
  lemma {:induction false} LowIsSound(c: Config, b: Bases, pd: seq<nat>, pts: seq<nat>)
    requires Placed(b) && Built(c, b, pd, pts) && AllProper(c.reg) && AllProper(c.images)
    requires AllLow(c.reg) && AllLow(c.images)
    ensures |pd| == 1024 && |pts| == 1024 * b.tables
    ensures IdentityIsSound(c, b, pd, pts) && Kseg0IsSound(c, b, pd, pts)
  {
    LowNoStray(c.reg);
    LowNoStray(c.images);
    hide Built, Placed, Strays, AllProper, AllLow, IdentityIsSound, Kseg0IsSound;
    IdentitySoundIff(c, b, pd, pts);
    Kseg0SoundIff(c, b, pd, pts);
  }

  lemma {:induction false} LowNoStray(es: seq<Span>)
    requires AllLow(es) && AllProper(es)
    ensures forall n: nat :: !Strays(es, n)
  {
    forall r, p: nat, n: nat | 0 <= r < |es| && p < es[r].pages
      ensures !CutTo(es[r], p, n)
    {
      assert Proper(es[r]);
    }
  }

  /** One allocated page just past 4 GB, and one in the first 4 MB that gives that slot its tables. */
  function HighConfig(): Config {
    Config([Span(0x1_0000_1000, 1, false), Span(0x2000, 1, false)], [])
  }

  /** Such registries are not sound: whatever tables are built from them, page 0x1000 is shown in both halves, and
      nobody registered it. */
  lemma {:induction false} HighUnsound(b: Bases, pd: seq<nat>, pts: seq<nat>)
    requires Placed(b) && Built(HighConfig(), b, pd, pts)
    ensures |pd| == 1024 && |pts| == 1024 * b.tables
    ensures Walk(b, pd, pts, 0x1000) == Some(0x1000) && Walk(b, pd, pts, KSEG0 + 0x1000) == Some(0x1000)
    ensures !Owned(HighConfig().reg, 0x1000) && !Owned(HighConfig().images, 0x1000)
  {
    var c := HighConfig();
    assert Marks(c.reg[1], 0) && Proper(c.reg[0]) && Proper(c.reg[1]);
    assert CutTo(c.reg[0], 0, 1);
    hide Walk, Built, Placed, CutTo;
    IdShows(c, b, pd, pts, 0x1000);
    KsShows(c, b, pd, pts, 0x1000);
  }

  // ---------------------------------------------------------------- self-map and HAL

  /** Physical address of the page table entry for `va`. */
  function PteAddr(pd: seq<nat>, va: nat): nat
    requires |pd| == 1024 && va < WORD32
  {
    Frame(pd[va / SLOT]) + 4 * (va / PAGE % 1024)
  }

  lemma {:induction false} SelfMapDigits(va: nat)
    requires va < WORD32
    ensures var sa := 0xC000_0000 + 4 * (va / PAGE);
            sa < WORD32 && sa / SLOT == 768 && sa / PAGE % 1024 == va / SLOT && sa % PAGE == 4 * (va / PAGE % 1024)
  {
  }

  lemma {:induction false} BuiltSelf(c: Config, b: Bases, pd: seq<nat>, pts: seq<nat>)
    requires Built(c, b, pd, pts)
    ensures |pd| == 1024 && |pts| == 1024 * b.tables && pd[768] == b.pd + 3
    ensures pd[1023] == TableAddr(b, HalTable(c)) + 3 && HalTable(c) < b.tables
    ensures forall k | 0 <= k < 1024 :: Cell(pts, HalTable(c), k) == HalPte(b, k)
  {
    hide IdTableOk, KsTableOk, Cell;
    assert pd[768] == Pde(c, b, 768) && pd[1023] == Pde(c, b, 1023);
  }

  /** Through PDE 768, the entry of any address whose directory entry is present can be reached: the page of
      entries at 0xC0000000 shows the tables themselves. */
  lemma {:induction false} SelfMap(c: Config, b: Bases, pd: seq<nat>, pts: seq<nat>, va: nat)
    requires Placed(b) && Built(c, b, pd, pts) && va < WORD32
    ensures |pd| == 1024 && |pts| == 1024 * b.tables && 0xC000_0000 + 4 * (va / PAGE) < WORD32
    ensures Walk(b, pd, pts, 0xC000_0000 + 4 * (va / PAGE))
         == if Present(pd[va / SLOT]) then Some(PteAddr(pd, va)) else None
  {
    SelfMapDigits(va);
    BuiltSelf(c, b, pd, pts);
    FrameOf(b.pd);
  }

  lemma {:induction false} PdeLow(c: Config, b: Bases, pd: seq<nat>, pts: seq<nat>, i: nat)
    requires Placed(b) && Built(c, b, pd, pts) && i < 1024
    ensures |pd| == 1024 && Frame(pd[i]) + PAGE <= LOW16M
  {
    hide IdSlot, KsSlot, CountId, CountKs;
    assert pd[i] == Pde(c, b, i);
    if i < 512 {
      TablesDistinct(c, i, i);
    } else {
      TablesDistinct(c, i - 512, i - 512);
    }
  }

  /** Through slot 256 of KSEG0 only tables are seen, never the memory above 1 GB. */
  lemma {:induction false} SelfMapLow(c: Config, b: Bases, pd: seq<nat>, pts: seq<nat>, va: nat)
    requires Placed(b) && Built(c, b, pd, pts) && va < WORD32 && va / SLOT == 768
    ensures |pd| == 1024 && |pts| == 1024 * b.tables
    ensures Walk(b, pd, pts, va).Some? ==> Walk(b, pd, pts, va).value < LOW16M
  {
    BuiltSelf(c, b, pd, pts);
    FrameOf(b.pd);
    PdeLow(c, b, pd, pts, va / PAGE % 1024);
    hide Built, Cell;
  }

  /** The HAL page table: the PCR at 0xFFDFF000 and the shared user data at 0xFFDF0000, nothing else. */
  lemma {:induction false} HalWalk(c: Config, b: Bases, pd: seq<nat>, pts: seq<nat>, va: nat)
    requires Placed(b) && Built(c, b, pd, pts) && va < WORD32 && va / SLOT == 1023
    ensures |pd| == 1024 && |pts| == 1024 * b.tables
    ensures Walk(b, pd, pts, va) ==
            if va / PAGE == 0xFFDFF then Some(b.pcr + va % PAGE)
            else if va / PAGE == 0xFFDF0 then Some(b.sud + va % PAGE) else None
    ensures Walk(b, pd, pts, va).Some? ==> Walk(b, pd, pts, va).value < LOW16M
  {
    BuiltSelf(c, b, pd, pts);
    Digits(va);
    hide Built, Cell, Walk, TableAddr, HalTable;
    WalkPool(b, pd, pts, va, HalTable(c));
    FrameOf(b.pcr);
    FrameOf(b.sud);
  }

  // ---------------------------------------------------------------- what a translation lets the processor do

  /** Present, writable, for the supervisor only, and no other flag set. */
  predicate Kernel(e: nat) { e % 2 == 1 && e / 2 % 2 == 1 && e / 4 % 2 == 0 && e % PAGE / 8 == 0 }

  /** Both entries the walk for `va` reads let the supervisor, and nobody else, write there. */
  predicate Grants(b: Bases, pd: seq<nat>, pts: seq<nat>, va: nat)
    requires |pd| == 1024 && |pts| == 1024 * b.tables && va < WORD32
  {
    var pde := pd[va / SLOT];
    && Kernel(pde)
    && match TableEntry(b, pd, pts, Frame(pde), va / PAGE % 1024)
       case None => false
       case Some(pte) => Kernel(pte)
  }

  /** An entry is empty or has those flags. */
  predicate Flagged(e: nat) { e == 0 || Kernel(e) }

  lemma {:induction false} FlagsOf(a: nat)
    requires a % PAGE == 0
    ensures Kernel(a + 3)
  {
    var k := a / PAGE;
    assert a + 3 == PAGE * k + 3 && (a + 3) % PAGE == 3;
    assert (a + 3) / 2 == 2048 * k + 1 && (a + 3) / 4 == 1024 * k;
  }

  lemma {:induction false} PdeFlagged(c: Config, b: Bases, pd: seq<nat>, pts: seq<nat>, i: nat)
    requires Placed(b) && Built(c, b, pd, pts) && i < 1024
    ensures |pd| == 1024 && Flagged(pd[i])
  {
    hide IdSlot, KsSlot, CountId, CountKs, Kernel;
    assert pd[i] == Pde(c, b, i);
    FlagsOf(b.pd);
    FlagsOf(TableAddr(b, HalTable(c)));
    if i < 512 {
      FlagsOf(TableAddr(b, IdTable(c, i)));
    } else {
      FlagsOf(TableAddr(b, KsTable(c, i - 512)));
    }
  }

  lemma {:induction false} PteFlagged(c: Config, n: nat)
    ensures Flagged(IdPte(c, n)) && Flagged(KsPte(c, n))
  {
    hide IdPage, KsPage, Kernel;
    FlagsOf(n * PAGE);
  }

  /** The entry that a walk reads in the table of slot `i`. */
  lemma {:induction false} TableFlagged(c: Config, b: Bases, pd: seq<nat>, pts: seq<nat>, i: nat, k: nat)
    requires Placed(b) && Built(c, b, pd, pts) && i < 1024 && k < 1024
    ensures |pd| == 1024 && |pts| == 1024 * b.tables
    ensures var e := TableEntry(b, pd, pts, Frame(pd[i]), k);
      Present(pd[i]) && e.Some? ==> Flagged(e.value)
  {
    hide Built, Placed, Cell, IdSlot, KsSlot, Kernel, IdPte, KsPte, TableEntry, TableAddr, Frame, Present, HalTable,
         IdTable, KsTable;
    BuiltSelf(c, b, pd, pts);
    if i == 768 {
      SelfEntry(b, pd, pts, k);
      PdeFlagged(c, b, pd, pts, k);
    } else if i == 1023 {
      PoolEntry(b, pd, pts, HalTable(c), k);
      HalFlagged(b, k);
    } else if i < 512 {
      BuiltId(c, b, pd, pts, i, k);
      PteFlagged(c, 1024 * i + k);
      if IdSlot(c, i) {
        PoolEntry(b, pd, pts, IdTable(c, i), k);
      } else {
        NotPresent();
      }
    } else {
      BuiltKs(c, b, pd, pts, i - 512, k);
      PteFlagged(c, 1024 * (i - 512) + k);
      if KsSlot(c, i - 512) {
        PoolEntry(b, pd, pts, KsTable(c, i - 512), k);
      } else {
        NotPresent();
      }
    }
  }

  lemma {:induction false} NotPresent()
    ensures !Present(0)
  {
  }

  lemma {:induction false} SelfEntry(b: Bases, pd: seq<nat>, pts: seq<nat>, k: nat)
    requires Placed(b) && |pd| == 1024 && |pts| == 1024 * b.tables && k < 1024
    ensures TableEntry(b, pd, pts, Frame(b.pd + 3), k) == Some(pd[k])
  {
    FrameOf(b.pd);
  }

  lemma {:induction false} PoolEntry(b: Bases, pd: seq<nat>, pts: seq<nat>, t: nat, k: nat)
    requires Placed(b) && |pd| == 1024 && |pts| == 1024 * b.tables && k < 1024 && t < b.tables
    ensures TableEntry(b, pd, pts, Frame(TableAddr(b, t) + 3), k) == Some(Cell(pts, t, k))
  {
    hide TableEntry, Frame, Cell, TableAddr;
    EntryInPool(b, pd, pts, t, k);
    FrameOf(TableAddr(b, t));
  }

  lemma {:induction false} HalFlagged(b: Bases, k: nat)
    requires Placed(b)
    ensures Flagged(HalPte(b, k))
  {
    FlagsOf(b.pcr);
    FlagsOf(b.sud);
  }

  lemma {:induction false} PresentFlags(e: nat)
    requires Flagged(e)
    ensures Present(e) ==> Kernel(e)
  {
  }

  /** Every translation of the built tables is writable, and for the supervisor only. */
  lemma {:induction false} WalkGrants(c: Config, b: Bases, pd: seq<nat>, pts: seq<nat>, va: nat)
    requires Placed(b) && Built(c, b, pd, pts) && va < WORD32
    ensures |pd| == 1024 && |pts| == 1024 * b.tables
    ensures Walk(b, pd, pts, va).Some? ==> Grants(b, pd, pts, va)
  {
    hide Placed, Built, Flagged, Kernel, TableEntry, Frame, Present;
    var i, k := va / SLOT, va / PAGE % 1024;
    PdeFlagged(c, b, pd, pts, i);
    TableFlagged(c, b, pd, pts, i, k);
    PresentFlags(pd[i]);
    if Present(pd[i]) {
      var e := TableEntry(b, pd, pts, Frame(pd[i]), k);
      if e.Some? {
        PresentFlags(e.value);
      }
    }
  }
}
