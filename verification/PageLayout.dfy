/** How build_page_tables of src/boot/mmu.c lays out the 32-bit page tables: which 4 MB slots get a table,
    where each table lies in the pool, and how many tables there are against how many were counted. */
module PageLayout {
  import opened Bits

  const SLOT: nat := 0x40_0000          // 4 MB, what one page table maps
  const SLOTS: nat := 512               // slots below 2 GB
  const KSEG0: nat := 0x8000_0000

  /** A registered physical range. */
  datatype Span = Span(phys: nat, pages: nat, noMap: bool)

  /** Last byte of the range; for an empty range the subtraction wraps. */
  function Last(e: Span): int { (e.phys + e.pages * PAGE - 1) % WORD64 }

  predicate Marks(e: Span, i: int) {
    !e.noMap && e.phys / SLOT <= i <= Last(e) / SLOT
  }

  /** Both registries: allocations, and ranges for the identity map only. */
  datatype Config = Config(reg: seq<Span>, images: seq<Span>)

  predicate AnyMarks(es: seq<Span>, i: int) {
    exists r | 0 <= r < |es| :: Marks(es[r], i)
  }

  /** Slot `i` needs a table in the KSEG0 mirror, in the identity map. */
  predicate KsSlot(c: Config, i: int) { AnyMarks(c.reg, i) }
  predicate IdSlot(c: Config, i: int) { AnyMarks(c.reg, i) || AnyMarks(c.images, i) }

  /** Marked slots below `n`. */
  function CountId(c: Config, n: nat): nat {
    if n == 0 then 0 else CountId(c, n - 1) + (if IdSlot(c, n - 1) then 1 else 0)
  }
  function CountKs(c: Config, n: nat): nat {
    if n == 0 then 0 else CountKs(c, n - 1) + (if KsSlot(c, n - 1) then 1 else 0)
  }

  /** What count_pt_slots returns: one table per marked slot and one for the HAL. */
  function Counted(c: Config): nat { CountId(c, SLOTS) + CountKs(c, SLOTS) + 1 }

  /** Place in the pool of the table for a marked slot. */
  function IdTable(c: Config, i: nat): nat { CountId(c, i) }
  function KsTable(c: Config, i: nat): nat { CountId(c, SLOTS) + CountKs(c, i) }
  function HalTable(c: Config): nat { CountId(c, SLOTS) + CountKs(c, SLOTS) }

  lemma {:induction false} CountIdMonotone(c: Config, i: nat, j: nat)
    requires i <= j
    ensures CountId(c, i) <= CountId(c, j)
    ensures i < j && IdSlot(c, i) ==> CountId(c, i) < CountId(c, j)
    decreases j
  {
    if i < j {
      CountIdMonotone(c, i, j - 1);
    }
  }

  lemma {:induction false} CountKsMonotone(c: Config, i: nat, j: nat)
    requires i <= j
    ensures CountKs(c, i) <= CountKs(c, j)
    ensures i < j && KsSlot(c, i) ==> CountKs(c, i) < CountKs(c, j)
    decreases j
  {
    if i < j {
      CountKsMonotone(c, i, j - 1);
    }
  }

  /** Slots have their own tables: identity, KSEG0 and HAL tables never coincide. */
  lemma {:induction false} TablesDistinct(c: Config, i: nat, j: nat)
    requires i < SLOTS && j < SLOTS
    ensures IdSlot(c, i) ==> IdTable(c, i) < CountId(c, SLOTS) <= HalTable(c) && IdTable(c, i) < HalTable(c)
    ensures KsSlot(c, i) ==> CountId(c, SLOTS) <= KsTable(c, i) < HalTable(c)
    ensures IdSlot(c, i) && IdSlot(c, j) && i != j ==> IdTable(c, i) != IdTable(c, j)
    ensures KsSlot(c, i) && KsSlot(c, j) && i != j ==> KsTable(c, i) != KsTable(c, j)
    ensures IdSlot(c, i) && KsSlot(c, j) ==> IdTable(c, i) != KsTable(c, j)
  {
    hide IdSlot, KsSlot, CountId, CountKs;
    CountIdMonotone(c, i, SLOTS);
    CountKsMonotone(c, i, SLOTS);
    if i < j {
      CountIdMonotone(c, i, j);
      CountKsMonotone(c, i, j);
    } else {
      CountIdMonotone(c, j, i);
      CountKsMonotone(c, j, i);
    }
  }

  // ---------------------------------------------------------------- the pool counts itself too late

  /** The registry after the pool, itself a mapped allocation, has been added to it. */
  function WithPool(c: Config, pool: Span): Config { c.(reg := c.reg + [pool]) }

  /** Slots that only the pool touches, in the two halves. */
  function ExtraId(c: Config, pool: Span, n: nat): nat {
    if n == 0 then 0
    else ExtraId(c, pool, n - 1) + (if Marks(pool, n - 1) && !IdSlot(c, n - 1) then 1 else 0)
  }
  function ExtraKs(c: Config, pool: Span, n: nat): nat {
    if n == 0 then 0
    else ExtraKs(c, pool, n - 1) + (if Marks(pool, n - 1) && !KsSlot(c, n - 1) then 1 else 0)
  }

  lemma {:induction false} AnyMarksMore(es: seq<Span>, e: Span, i: int)
    ensures AnyMarks(es + [e], i) <==> AnyMarks(es, i) || Marks(e, i)
  {
    if AnyMarks(es, i) {
      var r :| 0 <= r < |es| && Marks(es[r], i);
      assert Marks((es + [e])[r], i);
    }
    if Marks(e, i) {
      assert Marks((es + [e])[|es|], i);
    }
    if AnyMarks(es + [e], i) {
      var r :| 0 <= r < |es + [e]| && Marks((es + [e])[r], i);
      if r < |es| {
        assert Marks(es[r], i);
      }
    }
  }

  lemma {:induction false} CountWithPool(c: Config, pool: Span, n: nat)
    ensures CountId(WithPool(c, pool), n) == CountId(c, n) + ExtraId(c, pool, n)
    ensures CountKs(WithPool(c, pool), n) == CountKs(c, n) + ExtraKs(c, pool, n)
    decreases n
  {
    if n > 0 {
      CountWithPool(c, pool, n - 1);
      AnyMarksMore(c.reg, pool, n - 1);
    }
  }

  /** The layout consumes the tables counted before the pool was registered plus one for every slot, in either
      half, that only the pool itself touches. */
  lemma {:induction false} Consumed(c: Config, pool: Span)
    ensures Counted(WithPool(c, pool)) == Counted(c) + ExtraId(c, pool, SLOTS) + ExtraKs(c, pool, SLOTS)
  {
    CountWithPool(c, pool, SLOTS);
  }

  lemma {:induction false} NoExtra(c: Config, pool: Span, n: nat)
    ensures ExtraId(c, pool, n) + ExtraKs(c, pool, n) == 0 <==>
            forall i | 0 <= i < n && Marks(pool, i) :: IdSlot(c, i) && KsSlot(c, i)
    decreases n
  {
    if n > 0 {
      NoExtra(c, pool, n - 1);
    }
  }

  /** A pool of the counted size is enough exactly when it lands in slots that allocations had marked already;
      then the HAL table is the last page of the pool. */
  lemma {:induction false} PoolSufficesIff(c: Config, pool: Span)
    requires pool.pages == Counted(c)
    ensures Counted(WithPool(c, pool)) <= pool.pages <==> forall i | 0 <= i < SLOTS && Marks(pool, i) :: KsSlot(c, i)
    ensures Counted(WithPool(c, pool)) <= pool.pages ==> HalTable(WithPool(c, pool)) == pool.pages - 1
  {
    Consumed(c, pool);
    NoExtra(c, pool, SLOTS);
    CountWithPool(c, pool, SLOTS);
  }
}
