/** The PVH boot environment (src/boot/vmlinuz/bootenv_pvh.c): the e820 map, the free list built from it
    and the allocator that works on it in place. */
module BootEnv {
  import opened Bits
  import opened FreeList

  /** An e820 entry; type 1 is usable RAM. */
  datatype E820 = E820(addr: word64, size: word64, kind: nat)

  datatype MemType = Free | BootReclaim | Firmware | Reserved

  datatype BeRegion = BeRegion(base: nat, size: nat, kind: MemType)

  /** Rounding the address up to a page does not wrap around, or the entry is dropped all the same. */
  predicate Rounds(e: E820) {
    e.kind == 1 && e.addr + (PAGE - 1) >= WORD64 ==> (e.addr + e.size) % WORD64 < PAGE
  }

  predicate AllRound(e820: seq<E820>) {
    forall i | 0 <= i < |e820| :: Rounds(e820[i])
  }

  /** The whole pages of a usable entry, `None` if there are none or it is not usable. */
  function UsablePages(e: E820): Option<Region> {
    var b, end := PgUp(e.addr), PgDn((e.addr + e.size) % WORD64);
    if e.kind == 1 && end > b then Some(Region(b, end)) else None
  }

  /** The page of `x` lies in the entry, a usable one, as a whole. */
  predicate HasPage(e: E820, x: int) {
    x >= 0 && e.kind == 1 && e.addr <= PgDn(x) && PgDn(x) + PAGE <= e.addr + e.size
  }

  /** `x` lies in a whole page of usable RAM. */
  ghost predicate Usable(e820: seq<E820>, x: int) {
    exists i :: 0 <= i < |e820| && HasPage(e820[i], x)
  }

  /** The usable regions of the first `n` entries, as many as fit. */
  function FromE820(e820: seq<E820>, n: nat): (r: seq<Region>)
    requires n <= |e820|
    ensures |r| <= MAX_FREE
  {
    if n == 0 then [] else
    var r := FromE820(e820, n - 1);
    var u := UsablePages(e820[n - 1]);
    if u.Some? && |r| < MAX_FREE then r + [u.value] else r
  }

  function MemTypeOf(kind: nat): MemType {
    if kind == 1 then Free else if kind == 3 || kind == 4 then Firmware else Reserved
  }

  function RegionOf(e: E820): BeRegion { BeRegion(e.addr, e.size, MemTypeOf(e.kind)) }

  /** Whole pages that must never be handed out: [base, end) in bytes. */
  datatype Extent = Extent(base: word64, end: word64)

  function PagesOf(x: Extent): Region { Region(PgDn(x.base), PgUp(x.end)) }

  /** Rounding the end up to a page does not wrap around, or the extent is empty or in the last page, which no list
      ever holds. */
  predicate RoundsEnd(x: Extent) {
    x.end <= x.base || x.end + (PAGE - 1) < WORD64 || x.base >= WORD64 - PAGE
  }

  /** The free list pvh_bootenv_init leaves. */
  function InitialFree(e820: seq<E820>, image: Extent, initrd: Option<Extent>): seq<Region> {
    var f := Carve(Carve(FromE820(e820, |e820|), 0, PAGE), PagesOf(image).base, PagesOf(image).end);
    if initrd.Some? then Carve(f, PagesOf(initrd.value).base, PagesOf(initrd.value).end) else f
  }

  class BootEnv {
    var e820: seq<E820>
    var free: seq<Region>

    ghost predicate Valid()
      reads this
    {
      |free| <= MAX_FREE
    }

    /** Take a range off the free list, region by region into a new one. */
    method CarveOut(base: nat, end: nat)
      requires Valid()
      modifies `free
      ensures Valid() && free == Carve(old(free), base, end)
    {
      if end <= base {
        return;
      }
      var nw: seq<Region> := [];
      for i := 0 to |free|
        invariant nw == Take(Carved(free[..i], base, end), MAX_FREE)
      {
        assert free[..i + 1][..i] == free[..i];
        var r := free[i];
        if end <= r.base || base >= r.end {
          if |nw| < MAX_FREE {
            nw := nw + [r];
          }
        } else {
          if r.base < base && |nw| < MAX_FREE {
            nw := nw + [Region(r.base, base)];
          }
          if end < r.end && |nw| < MAX_FREE {
            nw := nw + [Region(end, r.end)];
          }
        }
      }
      assert free[..|free|] == free;
      free := nw;
    }

    /** The free list at boot: whole pages of usable entries, then three ranges taken off. */
    constructor (table: seq<E820>, image: Extent, initrd: Option<Extent>)
      ensures Valid() && e820 == table && free == InitialFree(table, image, initrd)
    {
      e820 := table;
      free := [];
      new;
      var i := 0;
      while i < |table| && |free| < MAX_FREE
        invariant 0 <= i <= |table| && e820 == table && free == FromE820(table, i)
      {
        var b, e := PgUp(table[i].addr), PgDn((table[i].addr + table[i].size) % WORD64);
        if table[i].kind == 1 && e > b {
          free := free + [Region(b, e)];
        }
        i := i + 1;
      }
      FullStays(table, i, |table|);
      CarveOut(0, PAGE);
      CarveOut(PgDn(image.base), PgUp(image.end));
      if initrd.Some? {
        CarveOut(PgDn(initrd.value.base), PgUp(initrd.value.end));
      }
    }

    /** Hand out the highest place there is under `cap`; 0 if there is none. */
    method AllocHigh(cap: nat, bytes: nat) returns (x: nat)
      requires Valid()
      modifies `free
      ensures Valid()
      ensures match BestFit(old(free), cap, bytes)
              case Some(best) => x == best && free == Carve(old(free), best, best + bytes)
              case None => x == 0 && free == old(free)
    {
      var best, found := 0, false;
      for i := 0 to |free|
        invariant BestFit(free[..i], cap, bytes) == if found then Some(best) else None
      {
        assert free[..i + 1][..i] == free[..i];
        var top := PgDn(if free[i].end < cap then free[i].end else cap);
        if top >= bytes && top - bytes >= free[i].base {
          if !found || top - bytes > best {
            best, found := top - bytes, true;
          }
        }
      }
      assert free[..|free|] == free;
      if !found {
        return 0;
      }
      CarveOut(best, best + bytes);
      return best;
    }

    /** Exactly at `want`, if some free region holds it; the sum wraps at 64 bits. */
    method AllocAt(want: nat, bytes: nat) returns (x: nat)
      requires Valid()
      modifies `free
      ensures Valid()
      ensures AnyHolds(old(free), want, bytes) ==> x == want && free == Carve(old(free), want, (want + bytes) % WORD64)
      ensures !AnyHolds(old(free), want, bytes) ==> x == 0 && free == old(free)
    {
      for i := 0 to |free|
        invariant free == old(free) && forall j | 0 <= j < i :: !Holds(free[j], want, bytes)
      {
        if want >= free[i].base && (want + bytes) % WORD64 <= free[i].end {
          assert Holds(free[i], want, bytes);
          CarveOut(want, (want + bytes) % WORD64);
          return want;
        }
      }
      return 0;
    }

    /** The allocator behind the shared boot core. */
    method AllocPages(q: Request) returns (x: nat)
      requires Valid()
      modifies `free
      ensures Valid() && x == Chosen(old(free), q) && free == After(old(free), q)
    {
      hide Carve;
      var bytes := q.pages * PAGE;
      if bytes == 0 {
        return 0;
      }
      match q
      case At(_, want) => x := AllocAt(want, bytes);
      case Max(_, cap) => x := AllocHigh(cap, bytes);
      case Any(_) => x := AllocHigh(WORD64 - 1, bytes);
    }

    /** The system memory regions, as many as fit. */
    method MemoryRegions(cap: nat) returns (out: seq<BeRegion>)
      ensures |out| == Min(|e820|, cap)
      ensures forall i | 0 <= i < |out| :: out[i] == RegionOf(e820[i])
    {
      out := [];
      var i := 0;
      while i < |e820| && |out| < cap
        invariant |out| == i <= |e820| && i <= cap
        invariant forall j | 0 <= j < i :: out[j] == RegionOf(e820[j])
      {
        var t := if e820[i].kind == 1 then Free
                 else if e820[i].kind == 3 || e820[i].kind == 4 then Firmware else Reserved;
        out := out + [BeRegion(e820[i].addr, e820[i].size, t)];
        i := i + 1;
      }
    }
  }

  /** Once the list is full, later entries change nothing. */
  lemma {:induction false} FullStays(e820: seq<E820>, i: nat, n: nat)
    requires i <= n <= |e820| && (i == n || |FromE820(e820, i)| == MAX_FREE)
    ensures FromE820(e820, n) == FromE820(e820, i)
    decreases n
  {
    if i < n {
      FullStays(e820, i, n - 1);
    }
  }

  // ---------------------------------------------------------------- what starts out free

  lemma {:induction false} Aligned(x: nat)
    ensures PgDn(x) % PAGE == 0 && PgDn(x) <= x < PgDn(x) + PAGE
    ensures PgUp(x) % PAGE == 0
    ensures x + (PAGE - 1) < WORD64 ==> x <= PgUp(x) < x + PAGE
    ensures WORD64 <= x + (PAGE - 1) < WORD64 + PAGE ==> PgUp(x) == 0
  {
  }

  /** Whole pages compare by their first bytes. */
  lemma {:induction false} PageOrder(x: nat, a: nat)
    requires a % PAGE == 0
    ensures PgDn(x) + PAGE <= a <==> x < a
    ensures a <= PgDn(x) <==> a <= x
  {
  }

  /** What is listed for an entry whose address rounds: whole pages of the entry, and all of them unless its end is
      past the last address. */
  lemma {:induction false} ListedExact(e: E820, x: int)
    requires Rounds(e)
    ensures UsablePages(e).Some? && In(x, UsablePages(e).value) ==> HasPage(e, x)
    ensures HasPage(e, x) && e.addr + e.size < WORD64 ==> UsablePages(e).Some? && In(x, UsablePages(e).value)
  {
    Aligned(e.addr);
    Aligned((e.addr + e.size) % WORD64);
    if x >= 0 {
      Aligned(x);
      PageOrder(x, PgUp(e.addr));
      PageOrder(x, PgDn((e.addr + e.size) % WORD64));
    }
    hide PgDn, PgUp;
  }

  /** Everything listed for the entry is whole pages of it. */
  ghost predicate ListsOwn(e: E820) {
    UsablePages(e).Some? ==> forall x | In(x, UsablePages(e).value) :: HasPage(e, x)
  }

  lemma {:induction false} ListsOwnIff(e: E820)
    ensures ListsOwn(e) <==> Rounds(e)
  {
    if Rounds(e) {
      forall x | UsablePages(e).Some? && In(x, UsablePages(e).value)
        ensures HasPage(e, x)
      {
        ListedExact(e, x);
      }
    } else {
      Aligned(e.addr);
      Aligned((e.addr + e.size) % WORD64);
      assert In(0, UsablePages(e).value) && !HasPage(e, 0);
    }
  }

  /** Fifty usable bytes in the last page make all memory below that page free. */
  lemma {:induction false} LastPageFreesAll()
    ensures var e := E820(WORD64 - 100, 50, 1);
      UsablePages(e) == Some(Region(0, WORD64 - PAGE)) && !HasPage(e, PAGE) && !ListsOwn(e)
  {
    ListsOwnIff(E820(WORD64 - 100, 50, 1));
  }

  lemma {:induction false} UsablePaged(e: E820)
    requires UsablePages(e).Some?
    ensures Paged([UsablePages(e).value])
  {
    Aligned(e.addr);
    Aligned((e.addr + e.size) % WORD64);
    hide PgDn, PgUp;
  }

  lemma {:induction false} PagedAppend(a: seq<Region>, b: seq<Region>)
    requires Paged(a) && Paged(b)
    ensures Paged(a + b)
  {
  }

  lemma {:induction false} FromE820Paged(e820: seq<E820>, n: nat)
    requires n <= |e820|
    ensures Paged(FromE820(e820, n))
    decreases n
  {
    hide UsablePages, Paged;
    if n > 0 {
      FromE820Paged(e820, n - 1);
      if UsablePages(e820[n - 1]).Some? {
        UsablePaged(e820[n - 1]);
        PagedAppend(FromE820(e820, n - 1), [UsablePages(e820[n - 1]).value]);
      }
    } else {
      PagedEmpty();
    }
  }

  lemma {:induction false} PagedEmpty()
    ensures Paged([])
  {
  }

  lemma {:induction false} FromE820Usable(e820: seq<E820>, n: nat, x: int)
    requires n <= |e820| && AllRound(e820)
    ensures Covered(FromE820(e820, n), x) ==> Usable(e820, x)
    decreases n
  {
    hide UsablePages, Covered, HasPage, Rounds;
    if n > 0 {
      FromE820Usable(e820, n - 1, x);
      var u := UsablePages(e820[n - 1]);
      ListedExact(e820[n - 1], x);
      if u.Some? {
        CoveredAppend(FromE820(e820, n - 1), [u.value], x);
        CoveredOne(u.value, x);
      }
    } else {
      CoveredNone(x);
    }
  }

  /** Carving an extent out keeps the list paged and takes every byte of the extent off it. */
  lemma {:induction false} CarveExtent(free: seq<Region>, e: Extent, x: int)
    requires Paged(free) && RoundsEnd(e)
    ensures var free' := Carve(free, PagesOf(e).base, PagesOf(e).end);
            Paged(free') && (Covered(free', x) ==> Covered(free, x) && !(e.base <= x < e.end))
  {
    hide PgDn, PgUp, Covered, Paged, Carve;
    Aligned(e.base);
    Aligned(e.end);
    BelowLast(free, x);
    CarvePaged(free, PagesOf(e).base, PagesOf(e).end);
    CarveCovers(free, PagesOf(e).base, PagesOf(e).end, x);
  }

  /** The last page is in no list. */
  lemma {:induction false} BelowLast(free: seq<Region>, x: int)
    requires Paged(free)
    ensures Covered(free, x) ==> x < WORD64 - PAGE
  {
    if Covered(free, x) {
      var i :| 0 <= i < |free| && In(x, free[i]);
      assert free[i].end % PAGE == 0 && free[i].end < WORD64;
    }
  }

  /** Carving the extent out of any list takes all of it off. */
  ghost predicate Excludes(e: Extent) {
    forall free: seq<Region>, x | Paged(free) && e.base <= x < e.end ::
      !Covered(Carve(free, PagesOf(e).base, PagesOf(e).end), x)
  }

  lemma {:induction false} ExcludesIff(e: Extent)
    ensures Excludes(e) <==> RoundsEnd(e)
  {
    hide Covered, Carve, Paged;
    if RoundsEnd(e) {
      forall free: seq<Region>, x | Paged(free) && e.base <= x < e.end
        ensures !Covered(Carve(free, PagesOf(e).base, PagesOf(e).end), x)
      {
        CarveExtent(free, e, x);
      }
    } else {
      var free := NotCarved(e);
      assert e.base <= e.base < e.end;
    }
  }

  /** A list from which an extent that ends in the last page is not taken off. */
  lemma {:induction false} NotCarved(e: Extent) returns (free: seq<Region>)
    requires !RoundsEnd(e)
    ensures Paged(free) && Covered(Carve(free, PagesOf(e).base, PagesOf(e).end), e.base)
  {
    Aligned(e.base);
    Aligned(e.end);
    hide PgDn, PgUp;
    var r := Region(PgDn(e.base), PgDn(e.base) + PAGE);
    free := [r];
    assert In(e.base, free[0]);
  }

  /** What may be handed out at all. */
  ghost predicate Available(e820: seq<E820>, image: Extent, initrd: Option<Extent>, x: int) {
    && Usable(e820, x) && x >= PAGE && !(image.base <= x < image.end)
    && (initrd.Some? ==> !(initrd.value.base <= x < initrd.value.end))
  }

  lemma {:induction false} InitialFreeAt(e820: seq<E820>, image: Extent, initrd: Option<Extent>, x: int)
    requires AllRound(e820) && RoundsEnd(image) && (initrd.Some? ==> RoundsEnd(initrd.value))
    ensures var free := InitialFree(e820, image, initrd);
            Paged(free) && (Covered(free, x) ==> Available(e820, image, initrd, x))
  {
    CoveredNatural(InitialFree(e820, image, initrd), x);
    hide Carve, FromE820, Covered, Usable, Paged, PgDn, PgUp;
    var f0 := FromE820(e820, |e820|);
    FromE820Paged(e820, |e820|);
    FromE820Usable(e820, |e820|, x);
    CarvePaged(f0, 0, PAGE);
    CarveCovers(f0, 0, PAGE, x);
    var f1 := Carve(f0, 0, PAGE);
    CarveExtent(f1, image, x);
    if initrd.Some? {
      CarveExtent(Carve(f1, PagesOf(image).base, PagesOf(image).end), initrd.value, x);
    }
  }

  lemma {:induction false} CoveredNatural(free: seq<Region>, x: int)
    ensures Covered(free, x) ==> x >= 0
  {
  }

  /** What pvh_bootenv_init leaves free is whole pages of usable RAM, without the null page, the loader image
      and the initrd. */
  lemma {:induction false} InitialFreeOk(e820: seq<E820>, image: Extent, initrd: Option<Extent>)
    requires AllRound(e820) && RoundsEnd(image) && (initrd.Some? ==> RoundsEnd(initrd.value))
    ensures var free := InitialFree(e820, image, initrd);
      && Paged(free) && NullPageTaken(free)
      && forall x | Covered(free, x) :: Available(e820, image, initrd, x)
  {
    hide InitialFree, Covered, Usable, Paged;
    var free := InitialFree(e820, image, initrd);
    InitialFreeAt(e820, image, initrd, 0);
    forall x
      ensures Covered(free, x) ==> Available(e820, image, initrd, x)
    {
      InitialFreeAt(e820, image, initrd, x);
    }
  }

  /** Over every run of requests from boot, none wrapping past 2^64: the blocks handed out are pairwise disjoint usable
      RAM, never the null page, the loader image or the initrd. */
  lemma {:induction false} BootRunSound(e820: seq<E820>, image: Extent, initrd: Option<Extent>, run: seq<Request>)
    requires AllRound(e820) && RoundsEnd(image) && (initrd.Some? ==> RoundsEnd(initrd.value))
    requires forall i | 0 <= i < |run| :: Straight(run[i])
    ensures var blocks := Blocks(InitialFree(e820, image, initrd), run);
      && Disjoint(blocks)
      && forall i, x | 0 <= i < |blocks| && In(x, blocks[i]) :: Available(e820, image, initrd, x)
  {
    var free := InitialFree(e820, image, initrd);
    InitialFreeOk(e820, image, initrd);
    hide InitialFree, Covered, Usable, Paged, Available, Blocks;
    RunApart(free, run);
    var blocks := Blocks(free, run);
    forall i, x | 0 <= i < |blocks| && In(x, blocks[i])
      ensures Available(e820, image, initrd, x)
    {
      assert Handed(free, Final(free, run), blocks[i]);
    }
  }
}
