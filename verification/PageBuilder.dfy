/** count_pt_slots and build_page_tables of src/boot/mmu.c, step by step on the slot bitmaps, the page
    directory and the table pool, proved to leave what module PageTables describes. */
module PageBuilder {
  import opened Bits
  import opened PageLayout
  import opened PageTables

  /** Mark the slots of one range. */
  method MarkSpan(slot: array<bool>, e: Span)
    requires slot.Length == SLOTS && !e.noMap
    modifies slot
    ensures forall i | 0 <= i < SLOTS :: slot[i] == (old(slot[i]) || Marks(e, i))
  {
    var start, end := e.phys / SLOT, Last(e) / SLOT;
    var i := start;
    while i <= end && i < SLOTS
      invariant start <= i
      invariant forall j | 0 <= j < SLOTS :: slot[j] == (old(slot[j]) || (Marks(e, j) && j < i))
      decreases SLOTS - i
    {
      slot[i] := true;
      i := i + 1;
    }
  }

  lemma {:induction false} AnyMarksStep(es: seq<Span>, r: nat, i: int)
    requires r < |es|
    ensures AnyMarks(es[..r + 1], i) <==> AnyMarks(es[..r], i) || Marks(es[r], i)
  {
    AnyMarksMore(es[..r], es[r], i);
    assert es[..r + 1] == es[..r] + [es[r]];
  }

  /** Mark the slots of a registry, skipping reserved-only entries. */
  method MarkAll(slot: array<bool>, es: seq<Span>)
    requires slot.Length == SLOTS
    modifies slot
    ensures forall i | 0 <= i < SLOTS :: slot[i] == (old(slot[i]) || AnyMarks(es, i))
  {
    hide AnyMarks, Marks;
    MarksNothing(es);
    for r := 0 to |es|
      invariant forall i | 0 <= i < SLOTS :: slot[i] == (old(slot[i]) || AnyMarks(es[..r], i))
    {
      forall i
        ensures AnyMarks(es[..r + 1], i) <==> AnyMarks(es[..r], i) || Marks(es[r], i)
      {
        AnyMarksStep(es, r, i);
      }
      if !es[r].noMap {
        MarkSpan(slot, es[r]);
      } else {
        Unmapped(es[r]);
      }
    }
    assert es[..|es|] == es;
  }

  lemma {:induction false} MarksNothing(es: seq<Span>)
    ensures forall i :: !AnyMarks(es[..0], i)
  {
  }

  lemma {:induction false} Unmapped(e: Span)
    requires e.noMap
    ensures forall i :: !Marks(e, i)
  {
  }

  /** The slots with a table, and how many tables that takes with the HAL's. */
  method CountPtSlots(c: Config, idSlot: array<bool>, ksSlot: array<bool>) returns (total: nat)
    requires idSlot.Length == SLOTS && ksSlot.Length == SLOTS && idSlot != ksSlot
    requires forall r | 0 <= r < |c.images| :: !c.images[r].noMap
    modifies idSlot, ksSlot
    ensures forall i | 0 <= i < SLOTS :: idSlot[i] == IdSlot(c, i) && ksSlot[i] == KsSlot(c, i)
    ensures total == Counted(c)
  {
    hide AnyMarks;
    for i := 0 to SLOTS
      invariant forall j | 0 <= j < i :: !idSlot[j] && !ksSlot[j]
    {
      idSlot[i], ksSlot[i] := false, false;
    }
    MarkAll(idSlot, c.reg);
    MarkAll(ksSlot, c.reg);
    MarkAll(idSlot, c.images);
    var ids, kss := 0, 0;
    for i := 0 to SLOTS
      invariant ids == CountId(c, i) && kss == CountKs(c, i)
    {
      if idSlot[i] { ids := ids + 1; }
      if ksSlot[i] { kss := kss + 1; }
    }
    total := ids + kss + 1;
  }

  /** Physical address of the table for a slot, 0 for none. */
  function IdPt(c: Config, b: Bases, i: nat): nat { if IdSlot(c, i) then TableAddr(b, IdTable(c, i)) else 0 }
  function KsPt(c: Config, b: Bases, i: nat): nat { if KsSlot(c, i) then TableAddr(b, KsTable(c, i)) else 0 }

  /** Hand out tables from the pool: identity slots first, then KSEG0 slots, then the HAL. */
  method AssignTables(c: Config, b: Bases, idSlot: array<bool>, ksSlot: array<bool>,
                      idPt: array<nat>, ksPt: array<nat>) returns (hal: nat)
    requires idSlot.Length == SLOTS && ksSlot.Length == SLOTS && idPt.Length == SLOTS && ksPt.Length == SLOTS
    requires idPt != ksPt
    requires forall i | 0 <= i < SLOTS :: idSlot[i] == IdSlot(c, i) && ksSlot[i] == KsSlot(c, i)
    modifies idPt, ksPt
    ensures forall i | 0 <= i < SLOTS :: idPt[i] == IdPt(c, b, i) && ksPt[i] == KsPt(c, b, i)
    ensures hal == TableAddr(b, HalTable(c))
  {
    hide IdSlot, KsSlot;
    var cursor := b.pts;
    for i := 0 to SLOTS
      invariant cursor == TableAddr(b, CountId(c, i))
      invariant forall j | 0 <= j < i :: idPt[j] == IdPt(c, b, j)
    {
      idPt[i] := 0;
      if idSlot[i] { idPt[i] := cursor; cursor := cursor + PAGE; }
    }
    for i := 0 to SLOTS
      invariant cursor == TableAddr(b, CountId(c, SLOTS) + CountKs(c, i))
      invariant forall j | 0 <= j < i :: ksPt[j] == KsPt(c, b, j)
      invariant forall j | 0 <= j < SLOTS :: idPt[j] == IdPt(c, b, j)
    {
      ksPt[i] := 0;
      if ksSlot[i] { ksPt[i] := cursor; cursor := cursor + PAGE; }
    }
    hal := cursor;
  }

  /** Zero the directory and install the entries of both halves, the self-map and the HAL table. */
  method InstallPdes(c: Config, b: Bases, pd: array<nat>, idPt: array<nat>, ksPt: array<nat>, hal: nat)
    requires pd.Length == 1024 && idPt.Length == SLOTS && ksPt.Length == SLOTS && pd != idPt && pd != ksPt
    requires b.pts > 0 && hal == TableAddr(b, HalTable(c))
    requires forall i | 0 <= i < SLOTS :: idPt[i] == IdPt(c, b, i) && ksPt[i] == KsPt(c, b, i)
    modifies pd
    ensures forall i | 0 <= i < 1024 :: pd[i] == Pde(c, b, i)
  {
    hide IdSlot, KsSlot, HalTable, IdTable, KsTable;
    for i := 0 to 1024
      invariant forall j | 0 <= j < i :: pd[j] == 0
    {
      pd[i] := 0;
    }
    for i := 0 to SLOTS
      invariant forall j | 0 <= j < SLOTS :: pd[j] == if j < i then IdPde(c, b, j) else 0
      invariant forall j | 512 <= j < 1024 :: pd[j] == if j < 512 + i then KsPde(c, b, j - 512) else 0
    {
      if idPt[i] != 0 { pd[i] := idPt[i] + 3; }
      if ksPt[i] != 0 { pd[512 + i] := ksPt[i] + 3; }
    }
    pd[768] := b.pd + 3;
    pd[1023] := hal + 3;
  }

  // ---------------------------------------------------------------- filling the tables

  /** The two halves that are filled. */
  datatype Half = Identity | Kseg0

  function Table(c: Config, h: Half, i: nat): nat { if h.Identity? then IdTable(c, i) else KsTable(c, i) }
  predicate Slotted(c: Config, h: Half, i: nat) { if h.Identity? then IdSlot(c, i) else KsSlot(c, i) }
  function PtOf(c: Config, b: Bases, h: Half, i: nat): nat { if h.Identity? then IdPt(c, b, i) else KsPt(c, b, i) }

  lemma {:induction false} TablesApart(c: Config, h: Half, i: nat, g: Half, j: nat)
    requires i < SLOTS && j < SLOTS && Slotted(c, h, i) && Slotted(c, g, j)
    ensures Table(c, h, i) < HalTable(c) && (h != g || i != j ==> Table(c, h, i) != Table(c, g, j))
  {
    hide IdSlot, KsSlot, IdTable, KsTable, HalTable;
    TablesDistinct(c, i, j);
    TablesDistinct(c, j, i);
  }

  /** The pool holds every table of the layout. */
  predicate Roomy(c: Config, pts: seq<nat>) { 1024 * (HalTable(c) + 1) <= |pts| }

  /** The first `m` pages of the span give page `n` an entry in this half. */
  predicate Writes(h: Half, e: Span, m: nat, n: nat) { (h.Kseg0? || n != 0) && SpanHas(e, m, n) }

  /** Entry `k` of the table for slot `i` of a half. */
  function Entry(c: Config, pts: seq<nat>, h: Half, i: nat, k: nat): nat
    requires Roomy(c, pts) && i < SLOTS && k < 1024 && Slotted(c, h, i)
  {
    TablesApart(c, h, i, h, i);
    Cell(pts, Table(c, h, i), k)
  }

  /** `now` is `was` with the entries of the first `m` pages of `e` written into one half. */
  ghost predicate Overlay(c: Config, h: Half, was: seq<nat>, now: seq<nat>, e: Span, m: nat) {
    && Roomy(c, was) && |now| == |was|
    && (forall g: Half, i, k {:trigger Entry(c, now, g, i, k)} | 0 <= i < SLOTS && 0 <= k < 1024 && Slotted(c, g, i) ::
          Entry(c, now, g, i, k)
          == if g == h && Writes(h, e, m, 1024 * i + k) then PteOf(1024 * i + k) else Entry(c, was, g, i, k))
    && (forall k | 0 <= k < 1024 :: Cell(now, HalTable(c), k) == Cell(was, HalTable(c), k))
  }

  lemma {:induction false} SpanHasStep(e: Span, m: nat, n: nat)
    ensures SpanHas(e, m + 1, n) <==> SpanHas(e, m, n) || PageAt(e, m) == n
  {
    if SpanHas(e, m, n) {
      var p :| 0 <= p < m && PageAt(e, p) == n;
    }
  }

  lemma {:induction false} SpanHasNone(e: Span, n: nat)
    ensures !SpanHas(e, 0, n)
  {
  }

  lemma {:induction false} OverlayStart(c: Config, h: Half, pts: seq<nat>, e: Span)
    requires Roomy(c, pts)
    ensures Overlay(c, h, pts, pts, e, 0)
  {
    forall n: nat ensures !SpanHas(e, 0, n) { SpanHasNone(e, n); }
    hide Slotted, SpanHas;
  }

  /** Writing one word changes the one entry it belongs to. */
  lemma {:induction false} WriteEntry(c: Config, pts: seq<nat>, h: Half, i: nat, k: nat, v: nat, g: Half, j: nat,
                                      l: nat)
    requires Roomy(c, pts) && i < SLOTS && k < 1024 && Slotted(c, h, i) && j < SLOTS && l < 1024 && Slotted(c, g, j)
    ensures 1024 * Table(c, h, i) + k < |pts|
    ensures var pts' := pts[1024 * Table(c, h, i) + k := v];
      && Entry(c, pts', g, j, l) == (if g == h && j == i && l == k then v else Entry(c, pts, g, j, l))
      && Cell(pts', HalTable(c), l) == Cell(pts, HalTable(c), l)
  {
    TablesApart(c, h, i, g, j);
    TablesApart(c, g, j, h, i);
    hide Slotted, Table, HalTable;
  }

  /** A page outside the half, or without a table, or page 0 of the identity map, writes nothing. */
  predicate Skipped(c: Config, h: Half, n: nat) {
    (h.Identity? && n == 0) || n / 1024 >= SLOTS || !Slotted(c, h, n / 1024)
  }

  lemma {:induction false} OverlaySkip(c: Config, h: Half, was: seq<nat>, now: seq<nat>, e: Span, m: nat)
    requires Overlay(c, h, was, now, e, m) && Skipped(c, h, PageAt(e, m))
    ensures Overlay(c, h, was, now, e, m + 1)
  {
    hide Slotted, SpanHas, Entry, Cell, HalTable, PageAt;
    forall g: Half, i, k | 0 <= i < SLOTS && 0 <= k < 1024 && Slotted(c, g, i)
      ensures Entry(c, now, g, i, k)
           == if g == h && Writes(h, e, m + 1, 1024 * i + k) then PteOf(1024 * i + k) else Entry(c, was, g, i, k)
    {
      SpanHasStep(e, m, 1024 * i + k);
      assert (1024 * i + k) / 1024 == i;
    }
  }

  lemma {:induction false} OverlayWrite(c: Config, h: Half, was: seq<nat>, now: seq<nat>, e: Span, m: nat)
    requires Overlay(c, h, was, now, e, m) && !Skipped(c, h, PageAt(e, m))
    ensures var n := PageAt(e, m);
            var x := 1024 * Table(c, h, n / 1024) + n % 1024;
            x < |now| && Overlay(c, h, was, now[x := PteOf(n)], e, m + 1)
  {
    var n := PageAt(e, m);
    var i0, k0 := n / 1024, n % 1024;
    hide Slotted, SpanHas, Entry, Cell, HalTable, Table, PageAt;
    WriteEntry(c, now, h, i0, k0, PteOf(n), h, i0, k0);
    var now' := now[1024 * Table(c, h, i0) + k0 := PteOf(n)];
    forall g: Half, i, k | 0 <= i < SLOTS && 0 <= k < 1024 && Slotted(c, g, i)
      ensures Entry(c, now', g, i, k)
           == if g == h && Writes(h, e, m + 1, 1024 * i + k) then PteOf(1024 * i + k) else Entry(c, was, g, i, k)
    {
      WriteEntry(c, now, h, i0, k0, PteOf(n), g, i, k);
      SpanHasStep(e, m, 1024 * i + k);
      assert 1024 * i + k == n <==> i == i0 && k == k0;
    }
    forall k | 0 <= k < 1024
      ensures Cell(now', HalTable(c), k) == Cell(was, HalTable(c), k)
    {
      WriteEntry(c, now, h, i0, k0, PteOf(n), h, i0, k);
    }
  }

  lemma {:induction false} PhysPage(e: Span, p: nat)
    requires e.phys % PAGE == 0
    ensures (e.phys + p * PAGE) % WORD32 == PageAt(e, p) * PAGE
  {
    var q := e.phys / PAGE + p;
    assert e.phys + p * PAGE == q * PAGE;
    DivUnique(q * PAGE, WORD32, q / PAGES32, q % PAGES32 * PAGE);
  }

  lemma {:induction false} PageDigits(n: nat)
    ensures n * PAGE / SLOT == n / 1024 && n * PAGE / PAGE % 1024 == n % 1024
  {
  }

  /** An address in the table array tells whether there is a table, and which. */
  lemma {:induction false} PtIndex(c: Config, b: Bases, h: Half, i: nat)
    requires b.pts > 0
    ensures PtOf(c, b, h, i) != 0 <==> Slotted(c, h, i)
    ensures Slotted(c, h, i) ==> PtOf(c, b, h, i) >= b.pts && (PtOf(c, b, h, i) - b.pts) / PAGE == Table(c, h, i)
  {
    hide IdSlot, KsSlot, IdTable, KsTable;
  }

  /** Write the entries of one span into one half. */
  method Populate(c: Config, b: Bases, h: Half, pts: array<nat>, pt: array<nat>, e: Span)
    requires Roomy(c, pts[..]) && pt.Length == SLOTS && pt != pts && b.pts > 0 && e.phys % PAGE == 0
    requires forall i | 0 <= i < SLOTS :: pt[i] == PtOf(c, b, h, i)
    modifies pts
    ensures Overlay(c, h, old(pts[..]), pts[..], e, e.pages)
  {
    hide Overlay, Roomy, SpanHas, PtOf, Slotted, Table, PageAt;
    OverlayStart(c, h, pts[..], e);
    ghost var was := pts[..];
    for p := 0 to e.pages
      invariant Overlay(c, h, was, pts[..], e, p)
    {
      var phys := (e.phys + p * PAGE) % WORD32;
      ghost var n := PageAt(e, p);
      PhysPage(e, p);
      PageDigits(n);
      PopulateOne(c, b, h, pts, pt, e, p, phys, was);
    }
  }

  /** One page of the span. */
  method PopulateOne(c: Config, b: Bases, h: Half, pts: array<nat>, pt: array<nat>, ghost e: Span, ghost p: nat,
                     phys: nat, ghost was: seq<nat>)
    requires Overlay(c, h, was, pts[..], e, p) && pt.Length == SLOTS && pt != pts && b.pts > 0
    requires forall i | 0 <= i < SLOTS :: pt[i] == PtOf(c, b, h, i)
    requires phys == PageAt(e, p) * PAGE && phys / SLOT == PageAt(e, p) / 1024
    requires phys / PAGE % 1024 == PageAt(e, p) % 1024
    modifies pts
    ensures Overlay(c, h, was, pts[..], e, p + 1)
  {
    hide Overlay, Roomy, SpanHas, PtOf, Slotted, Table, PageAt;
    var pdi, pti := phys / SLOT, phys / PAGE % 1024;
    PtIndex(c, b, h, pdi);
    if (h.Identity? && phys == 0) || pdi >= SLOTS || pt[pdi] == 0 {
      OverlaySkip(c, h, was, pts[..], e, p);
    } else {
      OverlayWrite(c, h, was, pts[..], e, p);
      ghost var now := pts[..];
      var t := (pt[pdi] - b.pts) / PAGE;
      var pte: nat := phys + 3;
      pts[1024 * t + pti] := pte;
      assert pts[..] == now[1024 * t + pti := pte];
    }
  }

  // ---------------------------------------------------------------- all the spans

  /** Pages that have an entry once `nId` (`nKs`) allocations and `ni` image ranges have been written. */
  predicate Done(c: Config, h: Half, nId: nat, nKs: nat, ni: nat, n: nat)
    requires nId <= |c.reg| && nKs <= |c.reg| && ni <= |c.images|
  {
    if h.Identity? then n != 0 && (AnyHas(c.reg[..nId], n) || AnyHas(c.images[..ni], n)) else AnyHas(c.reg[..nKs], n)
  }

  ghost predicate Filled(c: Config, pts: seq<nat>, nId: nat, nKs: nat, ni: nat) {
    && nId <= |c.reg| && nKs <= |c.reg| && ni <= |c.images| && Roomy(c, pts)
    && (forall h: Half, i, k {:trigger Entry(c, pts, h, i, k)} | 0 <= i < SLOTS && 0 <= k < 1024 && Slotted(c, h, i) ::
          Entry(c, pts, h, i, k) == if Done(c, h, nId, nKs, ni, 1024 * i + k) then PteOf(1024 * i + k) else 0)
    && (forall k | 0 <= k < 1024 :: Cell(pts, HalTable(c), k) == 0)
  }

  lemma {:induction false} AnyHasStep(es: seq<Span>, r: nat, n: nat)
    requires r < |es|
    ensures AnyHas(es[..r + 1], n) <==> AnyHas(es[..r], n) || (!es[r].noMap && SpanHas(es[r], es[r].pages, n))
  {
    hide SpanHas;
    var a, z := es[..r], es[..r + 1];
    assert z[r] == es[r] && forall j | 0 <= j < r :: z[j] == a[j];
    if AnyHas(z, n) {
      var j :| 0 <= j < |z| && !z[j].noMap && SpanHas(z[j], z[j].pages, n);
      if j < r {
        assert SpanHas(a[j], a[j].pages, n);
      }
    }
    if AnyHas(a, n) {
      var j :| 0 <= j < |a| && !a[j].noMap && SpanHas(a[j], a[j].pages, n);
      assert SpanHas(z[j], z[j].pages, n);
    }
    if !es[r].noMap && SpanHas(es[r], es[r].pages, n) {
      assert SpanHas(z[r], z[r].pages, n);
    }
  }

  lemma {:induction false} FilledStart(c: Config, pts: seq<nat>)
    requires Roomy(c, pts) && forall x | 0 <= x < |pts| :: pts[x] == 0
    ensures Filled(c, pts, 0, 0, 0)
  {
    assert forall n: nat :: !AnyHas(c.reg[..0], n) && !AnyHas(c.images[..0], n);
    hide Slotted, AnyHas, Table, HalTable;
    forall h: Half, i, k | 0 <= i < SLOTS && 0 <= k < 1024 && Slotted(c, h, i)
      ensures Entry(c, pts, h, i, k) == 0
    {
      TablesApart(c, h, i, h, i);
    }
  }

  /** The span written next: an allocation into one half, or an image range into the identity half. */
  lemma {:induction false} FilledMore(c: Config, was: seq<nat>, now: seq<nat>, nId: nat, nKs: nat, ni: nat,
                                      h: Half, e: Span, nId': nat, nKs': nat, ni': nat)
    requires Filled(c, was, nId, nKs, ni) && Overlay(c, h, was, now, e, e.pages)
    requires nId' <= |c.reg| && nKs' <= |c.reg| && ni' <= |c.images|
    requires forall g: Half, n: nat ::
      Done(c, g, nId', nKs', ni', n) <==> Done(c, g, nId, nKs, ni, n) || (g == h && Writes(h, e, e.pages, n))
    ensures Filled(c, now, nId', nKs', ni')
  {
    hide Slotted, Done, Writes, Entry, Cell, HalTable;
  }

  lemma {:induction false} FilledId(c: Config, was: seq<nat>, now: seq<nat>, r: nat, nKs: nat, ni: nat)
    requires Filled(c, was, r, nKs, ni) && r < |c.reg| && !c.reg[r].noMap
    requires Overlay(c, Identity, was, now, c.reg[r], c.reg[r].pages)
    ensures Filled(c, now, r + 1, nKs, ni)
  {
    hide AnyHas, SpanHas, Slotted, Entry, Overlay;
    forall n: nat
      ensures AnyHas(c.reg[..r + 1], n) <==> AnyHas(c.reg[..r], n) || SpanHas(c.reg[r], c.reg[r].pages, n)
    {
      AnyHasStep(c.reg, r, n);
    }
    FilledMore(c, was, now, r, nKs, ni, Identity, c.reg[r], r + 1, nKs, ni);
  }

  lemma {:induction false} FilledKs(c: Config, was: seq<nat>, now: seq<nat>, nId: nat, r: nat, ni: nat)
    requires Filled(c, was, nId, r, ni) && r < |c.reg| && !c.reg[r].noMap
    requires Overlay(c, Kseg0, was, now, c.reg[r], c.reg[r].pages)
    ensures Filled(c, now, nId, r + 1, ni)
  {
    hide AnyHas, SpanHas, Slotted, Entry, Overlay;
    forall n: nat
      ensures AnyHas(c.reg[..r + 1], n) <==> AnyHas(c.reg[..r], n) || SpanHas(c.reg[r], c.reg[r].pages, n)
    {
      AnyHasStep(c.reg, r, n);
    }
    FilledMore(c, was, now, nId, r, ni, Kseg0, c.reg[r], nId, r + 1, ni);
  }

  lemma {:induction false} FilledImage(c: Config, was: seq<nat>, now: seq<nat>, nId: nat, nKs: nat, r: nat)
    requires Filled(c, was, nId, nKs, r) && r < |c.images| && !c.images[r].noMap
    requires Overlay(c, Identity, was, now, c.images[r], c.images[r].pages)
    ensures Filled(c, now, nId, nKs, r + 1)
  {
    hide AnyHas, SpanHas, Slotted, Entry, Overlay;
    forall n: nat
      ensures AnyHas(c.images[..r + 1], n) <==> AnyHas(c.images[..r], n) || SpanHas(c.images[r], c.images[r].pages, n)
    {
      AnyHasStep(c.images, r, n);
    }
    FilledMore(c, was, now, nId, nKs, r, Identity, c.images[r], nId, nKs, r + 1);
  }

  lemma {:induction false} FilledSkip(c: Config, pts: seq<nat>, r: nat, ni: nat)
    requires Filled(c, pts, r, r, ni) && r < |c.reg| && c.reg[r].noMap
    ensures Filled(c, pts, r + 1, r + 1, ni)
  {
    hide AnyHas, SpanHas, Slotted, Entry;
    forall n: nat
      ensures AnyHas(c.reg[..r + 1], n) <==> AnyHas(c.reg[..r], n)
    {
      AnyHasStep(c.reg, r, n);
    }
  }

  /** Page-aligned ranges; image ranges are always mapped. */
  predicate WellFormed(c: Config) {
    && (forall r | 0 <= r < |c.reg| :: c.reg[r].phys % PAGE == 0)
    && (forall r | 0 <= r < |c.images| :: c.images[r].phys % PAGE == 0 && !c.images[r].noMap)
  }

  /** Populate both halves from the allocations, then the identity half from the image ranges. */
  method PopulateAll(c: Config, b: Bases, pts: array<nat>, idPt: array<nat>, ksPt: array<nat>)
    requires Filled(c, pts[..], 0, 0, 0) && WellFormed(c) && b.pts > 0
    requires idPt.Length == SLOTS && ksPt.Length == SLOTS && idPt != pts && ksPt != pts
    requires forall i | 0 <= i < SLOTS :: idPt[i] == IdPt(c, b, i) && ksPt[i] == KsPt(c, b, i)
    modifies pts
    ensures Filled(c, pts[..], |c.reg|, |c.reg|, |c.images|)
  {
    hide Filled, Overlay, IdPt, KsPt, Roomy;
    for r := 0 to |c.reg|
      invariant Filled(c, pts[..], r, r, 0)
    {
      if c.reg[r].noMap {
        FilledSkip(c, pts[..], r, 0);
      } else {
        ghost var was := pts[..];
        FilledRoomy(c, was, r, r, 0);
        Populate(c, b, Identity, pts, idPt, c.reg[r]);
        FilledId(c, was, pts[..], r, r, 0);
        ghost var mid := pts[..];
        FilledRoomy(c, mid, r + 1, r, 0);
        Populate(c, b, Kseg0, pts, ksPt, c.reg[r]);
        FilledKs(c, mid, pts[..], r + 1, r, 0);
      }
    }
    for r := 0 to |c.images|
      invariant Filled(c, pts[..], |c.reg|, |c.reg|, r)
    {
      ghost var was := pts[..];
      FilledRoomy(c, was, |c.reg|, |c.reg|, r);
      Populate(c, b, Identity, pts, idPt, c.images[r]);
      FilledImage(c, was, pts[..], |c.reg|, |c.reg|, r);
    }
  }

  lemma {:induction false} FilledRoomy(c: Config, pts: seq<nat>, nId: nat, nKs: nat, ni: nat)
    requires Filled(c, pts, nId, nKs, ni)
    ensures Roomy(c, pts)
  {
  }

  // ---------------------------------------------------------------- the whole layout

  /** The HAL entries on top of the filled halves complete the tables. */
  lemma {:induction false} BuiltFrom(c: Config, b: Bases, pd: seq<nat>, was: seq<nat>, pts: seq<nat>)
    requires Filled(c, was, |c.reg|, |c.reg|, |c.images|) && |was| == 1024 * b.tables && Counted(c) <= b.tables
    requires |pd| == 1024 && forall i | 0 <= i < 1024 :: pd[i] == Pde(c, b, i)
    requires pts == was[1024 * HalTable(c) + 511 := b.pcr + 3][1024 * HalTable(c) + 496 := b.sud + 3]
    ensures Built(c, b, pd, pts)
  {
    assert c.reg[..|c.reg|] == c.reg && c.images[..|c.images|] == c.images;
    hide IdSlot, KsSlot, AnyHas, Pde, CountId, CountKs;
    forall k | 0 <= k < 1024
      ensures Cell(pts, HalTable(c), k) == HalPte(b, k)
    {
      assert Cell(was, HalTable(c), k) == 0;
    }
    forall i | 0 <= i < SLOTS
      ensures IdTableOk(c, pts, i) && KsTableOk(c, pts, i)
    {
      HalfOk(c, b, was, pts, Identity, i);
      HalfOk(c, b, was, pts, Kseg0, i);
    }
  }

  lemma {:induction false} HalfOk(c: Config, b: Bases, was: seq<nat>, pts: seq<nat>, h: Half, i: nat)
    requires Filled(c, was, |c.reg|, |c.reg|, |c.images|) && i < SLOTS
    requires pts == was[1024 * HalTable(c) + 511 := b.pcr + 3][1024 * HalTable(c) + 496 := b.sud + 3]
    ensures h.Identity? ==> IdTableOk(c, pts, i)
    ensures h.Kseg0? ==> KsTableOk(c, pts, i)
  {
    assert c.reg[..|c.reg|] == c.reg && c.images[..|c.images|] == c.images;
    hide AnyHas, IdSlot, KsSlot, IdTable, KsTable, HalTable;
    if Slotted(c, h, i) {
      TablesApart(c, h, i, h, i);
      forall k | 0 <= k < 1024
        ensures Cell(pts, Table(c, h, i), k) == Entry(c, was, h, i, k)
      {
      }
    }
  }

  /** build_page_tables: given a pool with room for every table, it leaves the directory and the tables that
      the registries call for. */
  method BuildPageTables(c: Config, b: Bases, pd: array<nat>, pts: array<nat>)
    requires WellFormed(c) && b.pts > 0 && Counted(c) <= b.tables
    requires pd.Length == 1024 && pts.Length == 1024 * b.tables && pd != pts
    modifies pd, pts
    ensures Built(c, b, pd[..], pts[..])
  {
    for i := 0 to pts.Length
      invariant forall j | 0 <= j < i :: pts[j] == 0
    {
      pts[i] := 0;
    }
    var idSlot, ksSlot := new bool[SLOTS], new bool[SLOTS];
    var idPt, ksPt := new nat[SLOTS], new nat[SLOTS];
    FilledStart(c, pts[..]);
    hide Filled, IdSlot, KsSlot, Pde, IdPt, KsPt, TableAddr, Counted;
    var total := CountPtSlots(c, idSlot, ksSlot);
    var hal := AssignTables(c, b, idSlot, ksSlot, idPt, ksPt);
    InstallPdes(c, b, pd, idPt, ksPt, hal);
    PopulateAll(c, b, pts, idPt, ksPt);
    FillHal(c, b, pd, pts, hal);
  }

  /** The PCR and the shared user data in the HAL's table. */
  method FillHal(c: Config, b: Bases, pd: array<nat>, pts: array<nat>, hal: nat)
    requires Filled(c, pts[..], |c.reg|, |c.reg|, |c.images|) && Counted(c) <= b.tables
    requires pd.Length == 1024 && pts.Length == 1024 * b.tables && pd != pts && hal == TableAddr(b, HalTable(c))
    requires forall i | 0 <= i < 1024 :: pd[i] == Pde(c, b, i)
    modifies pts
    ensures Built(c, b, pd[..], pts[..])
  {
    hide Filled, Pde, Built, CountId, CountKs;
    ghost var was := pts[..];
    var t := (hal - b.pts) / PAGE;
    assert t == HalTable(c);
    pts[1024 * t + 511] := b.pcr + 3;
    pts[1024 * t + 496] := b.sud + 3;
    BuiltFrom(c, b, pd[..], was, pts[..]);
  }
}
