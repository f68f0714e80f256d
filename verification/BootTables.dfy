/** The end of a boot: page tables built from the registries that its allocations left (src/boot/vmlinuz/main.c,
    src/boot/mmu.c), and what they translate. */
module BootTables {
  import opened Bits
  import opened LoaderMemory
  import opened PageLayout
  import opened PageTables
  import opened PageBuilder
  import opened BootTranslation

  /** Each 4 MB slot the pool lies in was marked by an allocation made before it. */
  ghost predicate PoolMarked(b: Boot, calls: seq<Call>, images: seq<Span>)
    requires calls != [] && Succeeded(b, calls, |calls| - 1)
  {
    forall i | 0 <= i < SLOTS && Marks(SpanOf(PoolOf(b, calls)), i) :: KsSlot(Before(b, calls, images), i)
  }

  /** Every byte of a mapped allocation below 2 GB walks to itself, writable for the supervisor only, and its KSEG0
      alias likewise back to it exactly outside the slots of the self-map and the HAL table. */
  ghost predicate Translates(c: Config, bases: Bases, pd: seq<nat>, pts: seq<nat>)
    requires |pd| == 1024 && |pts| == 1024 * bases.tables
  {
    forall r, pa: nat | 0 <= r < |c.reg| && Owns(c.reg[r], pa) && pa < SLOTS * SLOT ::
      && Walk(bases, pd, pts, pa) == Some(pa) && Grants(bases, pd, pts, pa) && KSEG0 + pa < WORD32
      && (Walk(bases, pd, pts, KSEG0 + pa) == Some(pa) <==> pa / SLOT != 256 && pa / SLOT != 511)
      && (pa / SLOT != 256 && pa / SLOT != 511 ==> Grants(bases, pd, pts, KSEG0 + pa))
  }

  /** Whatever the tables translate is writable, and for the supervisor only. */
  ghost predicate AllGranted(bases: Bases, pd: seq<nat>, pts: seq<nat>)
    requires |pd| == 1024 && |pts| == 1024 * bases.tables
  {
    forall va: nat | va < WORD32 && Walk(bases, pd, pts, va).Some? :: Grants(bases, pd, pts, va)
  }

  /** Build the tables of a boot whose pool suffices. */
  method BuildAll(ghost b: Boot, ghost calls: seq<Call>, images: seq<Span>, ghost core: Core, reg: seq<Span>,
                  bases: Bases, pd: array<nat>, pts: array<nat>)
    requires Booted(b, calls, images, core) && PoolMarked(b, calls, images)
    requires AllProper(images) && forall r | 0 <= r < |images| :: !images[r].noMap
    requires Config(reg, images) == AtEnd(b, calls, images) && bases == BasesOf(b, calls, images, core)
    requires pd.Length == 1024 && pts.Length == 1024 * bases.tables && pd != pts
    modifies pd, pts
    ensures Translates(Config(reg, images), bases, pd[..], pts[..]) && AllGranted(bases, pd[..], pts[..])
    ensures UsableLow(b.e820) && AllLow(images) ==>
      && IdentityIsSound(Config(reg, images), bases, pd[..], pts[..])
      && Kseg0IsSound(Config(reg, images), bases, pd[..], pts[..])
  {
    hide Booted, AtEnd, BasesOf, Counted, Built, PoolMarked, UsableLow, AllLow, IdentityIsSound, Kseg0IsSound,
         Translates, AllGranted;
    BootFits(b, calls, images, core);
    BuildPageTables(Config(reg, images), bases, pd, pts);
    BootTranslates(b, calls, images, core, pd[..], pts[..]);
    if UsableLow(b.e820) && AllLow(images) {
      BootSound(b, calls, images, core, pd[..], pts[..]);
    }
  }

  /** What the builder asks for holds after such a boot. */
  lemma {:induction false} BootFits(b: Boot, calls: seq<Call>, images: seq<Span>, core: Core)
    requires Booted(b, calls, images, core) && PoolMarked(b, calls, images)
    requires AllProper(images) && forall r | 0 <= r < |images| :: !images[r].noMap
    ensures var c, bases := AtEnd(b, calls, images), BasesOf(b, calls, images, core);
      WellFormed(c) && bases.pts > 0 && Counted(c) <= bases.tables
  {
    hide Booted, Counted, MemoryAt, BootOk, Marks, KsSlot;
    BootedFacts(b, calls, images, core);
    BootPlaces(b, calls, images, core);
    BootRoomIff(b, calls, images, core);
    SpansProper(b, calls, |calls|);
  }

  lemma {:induction false} BootTranslates(b: Boot, calls: seq<Call>, images: seq<Span>, core: Core, pd: seq<nat>,
                                          pts: seq<nat>)
    requires Booted(b, calls, images, core)
    requires Built(AtEnd(b, calls, images), BasesOf(b, calls, images, core), pd, pts)
    ensures var c, bases := AtEnd(b, calls, images), BasesOf(b, calls, images, core);
      |pd| == 1024 && |pts| == 1024 * bases.tables && Translates(c, bases, pd, pts) && AllGranted(bases, pd, pts)
  {
    hide Booted, Built, BasesOf, Walk, Run, FreeAtBoot, BootOk, Grants, Placed;
    var c, bases := AtEnd(b, calls, images), BasesOf(b, calls, images, core);
    BuiltSizes(c, bases, pd, pts);
    BootedFacts(b, calls, images, core);
    forall r, pa: nat | 0 <= r < |c.reg| && Owns(c.reg[r], pa) && pa < SLOTS * SLOT
      ensures Walk(bases, pd, pts, pa) == Some(pa) && Grants(bases, pd, pts, pa) && KSEG0 + pa < WORD32
      ensures Walk(bases, pd, pts, KSEG0 + pa) == Some(pa) <==> pa / SLOT != 256 && pa / SLOT != 511
      ensures pa / SLOT != 256 && pa / SLOT != 511 ==> Grants(bases, pd, pts, KSEG0 + pa)
    {
      RegisteredProper(b, calls, |calls|, r);
      var p := OwnedPage(c.reg[r], pa);
      AllocationsTranslate(b, calls, images, core, pd, pts, r, p, pa % PAGE);
    }
    BootPlaces(b, calls, images, core);
    forall va: nat | va < WORD32 && Walk(bases, pd, pts, va).Some?
      ensures Grants(bases, pd, pts, va)
    {
      WalkGrants(c, bases, pd, pts, va);
    }
  }

  lemma {:induction false} OwnedPage(e: Span, pa: nat) returns (p: nat)
    requires Proper(e) && Owns(e, pa)
    ensures p < e.pages && pa == e.phys + p * PAGE + pa % PAGE
  {
    p := (pa - e.phys) / PAGE;
  }
}
