/** NT memory descriptors (src/boot/memmap.c): the coarse memory regions overlaid with the registry of
    allocations, as merged entries, against the simple function that gives every page its type. */
module MemMap {
  import opened Bits
  import opened BootEnv

  const LOADER_FREE: nat := 2
  const LOADER_FIRMWARE_TEMPORARY: nat := 5
  const LOADER_FIRMWARE_PERMANENT: nat := 6
  const LOADER_SYSTEM_CODE: nat := 9
  const LOADER_HAL_CODE: nat := 10
  const LOADER_BOOT_DRIVER: nat := 11
  const LOADER_STARTUP_PCR_PAGE: nat := 17
  const LOADER_REGISTRY_DATA: nat := 19
  const LOADER_MEMORY_DATA: nat := 20
  const LOADER_NLS_DATA: nat := 21

  datatype PageKind =
    | PkFree | PkKernelImage | PkHalImage | PkBootDriver | PkRegistry | PkNls | PkPcr | PkMemoryData
    | PkFirmwarePerm | PkFirmwareTemp

  function KindToNt(k: PageKind): nat {
    match k
    case PkKernelImage => LOADER_SYSTEM_CODE
    case PkHalImage => LOADER_HAL_CODE
    case PkBootDriver => LOADER_BOOT_DRIVER
    case PkRegistry => LOADER_REGISTRY_DATA
    case PkNls => LOADER_NLS_DATA
    case PkPcr => LOADER_STARTUP_PCR_PAGE
    case PkMemoryData => LOADER_MEMORY_DATA
    case PkFirmwarePerm => LOADER_FIRMWARE_PERMANENT
    case PkFirmwareTemp => LOADER_FIRMWARE_TEMPORARY
    case PkFree => LOADER_FREE
  }

  /** A registered allocation, in pages. */
  datatype Entry = Entry(base: nat, pages: nat, kind: PageKind)

  predicate Holds(e: Entry, p: int) { e.base <= p < e.base + e.pages }

  /** No page is registered twice. */
  ghost predicate Separate(reg: seq<Entry>) {
    forall i, j, p | 0 <= i < j < |reg| && Holds(reg[i], p) :: !Holds(reg[j], p)
  }

  /** The type of page `p`: that of the entry that holds it, else the coarse one. */
  function TypeOf(reg: seq<Entry>, coarse: nat, p: int): nat {
    if reg == [] then coarse
    else if Holds(reg[|reg| - 1], p) then KindToNt(reg[|reg| - 1].kind)
    else TypeOf(reg[..|reg| - 1], coarse, p)
  }

  /** An NT descriptor. */
  datatype NtEntry = NtEntry(kind: nat, base: nat, count: nat)

  datatype TypedPage = TypedPage(page: int, kind: nat)

  /** Every page an output accounts for, in order, with its type. */
  function Expand(out: seq<NtEntry>): seq<TypedPage> {
    if out == [] then [] else Expand(out[..|out| - 1]) + Pages(out[|out| - 1])
  }

  function Pages(e: NtEntry): (r: seq<TypedPage>)
    ensures |r| == e.count && forall i | 0 <= i < e.count :: r[i] == TypedPage(e.base + i, e.kind)
  {
    seq(e.count, i requires 0 <= i => TypedPage(e.base + i, e.kind))
  }

  /** Pages [lo, hi), each with its type. */
  function Typed(reg: seq<Entry>, coarse: nat, lo: nat, hi: nat): (r: seq<TypedPage>)
    requires lo <= hi
    ensures |r| == hi - lo && forall i | 0 <= i < hi - lo :: r[i] == TypedPage(lo + i, TypeOf(reg, coarse, lo + i))
  {
    seq(hi - lo, i requires 0 <= i => TypedPage(lo + i, TypeOf(reg, coarse, lo + i)))
  }

  // ---------------------------------------------------------------- emit_entry

  predicate Mergeable(prev: NtEntry, kind: nat, base: nat) {
    prev.kind == kind && prev.base + prev.count == base
  }

  /** Append or merge an entry; at capacity it is dropped, even if it could be merged. */
  function Emit(out: seq<NtEntry>, cap: nat, kind: nat, base: nat, pages: nat): (r: seq<NtEntry>)
    ensures |out| <= |r| && (|out| <= cap ==> |r| <= cap)
  {
    if pages == 0 || |out| >= cap then out
    else if out != [] && Mergeable(out[|out| - 1], kind, base) then
      out[|out| - 1 := out[|out| - 1].(count := out[|out| - 1].count + pages)]
    else out + [NtEntry(kind, base, pages)]
  }

  /** Nothing mergeable is left unmerged, and no entry is empty. */
  ghost predicate Merged(out: seq<NtEntry>) {
    && (forall i | 0 <= i < |out| :: out[i].count > 0)
    && forall i | 0 < i < |out| :: !Mergeable(out[i - 1], out[i].kind, out[i].base)
  }

  lemma {:induction false} EmitMerged(out: seq<NtEntry>, cap: nat, kind: nat, base: nat, pages: nat)
    requires Merged(out)
    ensures Merged(Emit(out, cap, kind, base, pages))
  {
  }

  /** Below capacity an entry adds exactly its pages. */
  lemma {:induction false} EmitExpands(out: seq<NtEntry>, cap: nat, kind: nat, base: nat, pages: nat)
    requires |out| < cap
    ensures Expand(Emit(out, cap, kind, base, pages)) == Expand(out) + Pages(NtEntry(kind, base, pages))
  {
    hide Pages, Expand;
    var e := NtEntry(kind, base, pages);
    if pages == 0 {
      PagesNone(kind, base);
    } else if out != [] && Mergeable(out[|out| - 1], kind, base) {
      MergeExpands(out, pages);
    } else {
      ExpandAppend(out, e);
    }
  }

  lemma {:induction false} PagesNone(kind: nat, base: nat)
    ensures Pages(NtEntry(kind, base, 0)) == []
  {
  }

  lemma {:induction false} ExpandAppend(out: seq<NtEntry>, e: NtEntry)
    ensures Expand(out + [e]) == Expand(out) + Pages(e)
  {
    assert (out + [e])[..|out|] == out;
  }

  lemma {:induction false} MergeExpands(out: seq<NtEntry>, pages: nat)
    requires out != []
    ensures var n := |out| - 1;
            var last := out[n];
            Expand(out[n := last.(count := last.count + pages)])
              == Expand(out) + Pages(NtEntry(last.kind, last.base + last.count, pages))
  {
    var n := |out| - 1;
    var last := out[n];
    var more := last.(count := last.count + pages);
    assert out[n := more][..n] == out[..n];
    assert Pages(more) == Pages(last) + Pages(NtEntry(last.kind, last.base + last.count, pages));
    hide Pages;
  }

  // ---------------------------------------------------------------- the earliest overlap

  /** The overlap of a registered entry with [cursor, end). */
  datatype Overlap = Overlap(start: nat, stop: nat, kind: nat)

  function OverlapOf(e: Entry, cursor: nat, end: nat): Overlap {
    Overlap(if e.base > cursor then e.base else cursor,
            if e.base + e.pages < end then e.base + e.pages else end,
            KindToNt(e.kind))
  }

  /** The overlap that starts earliest, the first of those registered. */
  function Earliest(reg: seq<Entry>, cursor: nat, end: nat): (r: Option<Overlap>)
    ensures r.Some? ==> cursor <= r.value.start < r.value.stop <= end
  {
    if reg == [] then None else
    var best := Earliest(reg[..|reg| - 1], cursor, end);
    var o := OverlapOf(reg[|reg| - 1], cursor, end);
    if o.start < o.stop && (best.None? || o.start < best.value.start) then Some(o) else best
  }

  ghost predicate NoneHold(reg: seq<Entry>, lo: nat, hi: nat) {
    forall i, p | 0 <= i < |reg| && lo <= p < hi :: !Holds(reg[i], p)
  }

  /** The overlap found is part of an entry, and nothing registered comes before it. */
  lemma {:induction false} EarliestIs(reg: seq<Entry>, cursor: nat, end: nat) returns (k: nat)
    requires cursor <= end
    ensures match Earliest(reg, cursor, end)
            case None => NoneHold(reg, cursor, end)
            case Some(o) =>
              && cursor <= o.start < o.stop <= end && NoneHold(reg, cursor, o.start)
              && k < |reg| && o.kind == KindToNt(reg[k].kind)
              && forall p | o.start <= p < o.stop :: Holds(reg[k], p)
    decreases |reg|
  {
    k := 0;
    if reg != [] {
      var n := |reg| - 1;
      k := EarliestIs(reg[..n], cursor, end);
      hide KindToNt;
      if Earliest(reg, cursor, end) != Earliest(reg[..n], cursor, end) {
        k := n;
      }
    }
  }

  lemma {:induction false} TypeOfIs(reg: seq<Entry>, coarse: nat, p: int, k: nat)
    requires Separate(reg) && k < |reg| && Holds(reg[k], p)
    ensures TypeOf(reg, coarse, p) == KindToNt(reg[k].kind)
    decreases |reg|
  {
    hide KindToNt;
    var n := |reg| - 1;
    if k < n {
      assert Separate(reg[..n]);
      TypeOfIs(reg[..n], coarse, p, k);
    }
  }

  lemma {:induction false} TypeOfNone(reg: seq<Entry>, coarse: nat, p: int)
    requires forall i | 0 <= i < |reg| :: !Holds(reg[i], p)
    ensures TypeOf(reg, coarse, p) == coarse
    decreases |reg|
  {
    if reg != [] {
      TypeOfNone(reg[..|reg| - 1], coarse, p);
    }
  }

  /** A stretch of one type is one entry. */
  lemma {:induction false} OneType(reg: seq<Entry>, coarse: nat, lo: nat, hi: nat, kind: nat)
    requires lo <= hi && forall p | lo <= p < hi :: TypeOf(reg, coarse, p) == kind
    ensures Typed(reg, coarse, lo, hi) == Pages(NtEntry(kind, lo, hi - lo))
  {
  }

  lemma {:induction false} TypedJoin(reg: seq<Entry>, coarse: nat, lo: nat, mid: nat, hi: nat)
    requires lo <= mid <= hi
    ensures Typed(reg, coarse, lo, hi) == Typed(reg, coarse, lo, mid) + Typed(reg, coarse, mid, hi)
  {
  }

  lemma {:induction false} GapTyped(reg: seq<Entry>, coarse: nat, lo: nat, hi: nat)
    requires lo <= hi && NoneHold(reg, lo, hi)
    ensures Typed(reg, coarse, lo, hi) == Pages(NtEntry(coarse, lo, hi - lo))
  {
    forall p | lo <= p < hi
      ensures TypeOf(reg, coarse, p) == coarse
    {
      TypeOfNone(reg, coarse, p);
    }
    OneType(reg, coarse, lo, hi, coarse);
  }

  lemma {:induction false} HeldTyped(reg: seq<Entry>, coarse: nat, lo: nat, hi: nat, k: nat)
    requires lo <= hi && Separate(reg) && k < |reg| && forall p | lo <= p < hi :: Holds(reg[k], p)
    ensures Typed(reg, coarse, lo, hi) == Pages(NtEntry(KindToNt(reg[k].kind), lo, hi - lo))
  {
    hide KindToNt;
    forall p | lo <= p < hi
      ensures TypeOf(reg, coarse, p) == KindToNt(reg[k].kind)
    {
      TypeOfIs(reg, coarse, p, k);
    }
    OneType(reg, coarse, lo, hi, KindToNt(reg[k].kind));
  }

  // ---------------------------------------------------------------- split_by_registry

  /** The output and the cursor after one turn of the loop. */
  datatype Turn = Turn(out: seq<NtEntry>, cursor: nat)

  function SplitTurn(reg: seq<Entry>, coarse: nat, cursor: nat, end: nat, out: seq<NtEntry>, cap: nat): (r: Turn)
    requires cursor < end
    ensures cursor < r.cursor <= end && |out| <= |r.out| && (|out| <= cap ==> |r.out| <= cap)
  {
    match Earliest(reg, cursor, end)
    case None => Turn(Emit(out, cap, coarse, cursor, end - cursor), end)
    case Some(o) =>
      var gap := if o.start > cursor then Emit(out, cap, coarse, cursor, o.start - cursor) else out;
      Turn(Emit(gap, cap, o.kind, o.start, o.stop - o.start), o.stop)
  }

  /** The output for the region from `cursor` to `end`, appended to `out`. */
  function Split(reg: seq<Entry>, coarse: nat, cursor: nat, end: nat, out: seq<NtEntry>, cap: nat): (r: seq<NtEntry>)
    requires cursor <= end
    ensures |out| <= |r| && (|out| <= cap ==> |r| <= cap)
    decreases end - cursor
  {
    if cursor == end then out else
    var t := SplitTurn(reg, coarse, cursor, end, out, cap);
    Split(reg, coarse, t.cursor, end, t.out, cap)
  }

  lemma {:induction false} TurnMerged(reg: seq<Entry>, coarse: nat, cursor: nat, end: nat, out: seq<NtEntry>, cap: nat)
    requires cursor < end && Merged(out)
    ensures Merged(SplitTurn(reg, coarse, cursor, end, out, cap).out)
  {
    hide Emit, Merged, Earliest;
    match Earliest(reg, cursor, end)
    case None => EmitMerged(out, cap, coarse, cursor, end - cursor);
    case Some(o) =>
      EmitMerged(out, cap, coarse, cursor, o.start - cursor);
      var gap := if o.start > cursor then Emit(out, cap, coarse, cursor, o.start - cursor) else out;
      EmitMerged(gap, cap, o.kind, o.start, o.stop - o.start);
  }

  lemma {:induction false} SplitMerged(reg: seq<Entry>, coarse: nat, cursor: nat, end: nat, out: seq<NtEntry>, cap: nat)
    requires cursor <= end && Merged(out)
    ensures Merged(Split(reg, coarse, cursor, end, out, cap))
    decreases end - cursor
  {
    hide SplitTurn, Merged;
    if cursor < end {
      TurnMerged(reg, coarse, cursor, end, out, cap);
      var t := SplitTurn(reg, coarse, cursor, end, out, cap);
      SplitMerged(reg, coarse, t.cursor, end, t.out, cap);
    }
  }

  lemma {:induction false} TurnExpands(reg: seq<Entry>, coarse: nat, cursor: nat, end: nat, out: seq<NtEntry>, cap: nat)
    requires cursor < end && Separate(reg) && |SplitTurn(reg, coarse, cursor, end, out, cap).out| < cap
    ensures var t := SplitTurn(reg, coarse, cursor, end, out, cap);
            Expand(t.out) == Expand(out) + Typed(reg, coarse, cursor, t.cursor)
  {
    hide Emit, Earliest, Expand, Typed, KindToNt;
    var k := EarliestIs(reg, cursor, end);
    match Earliest(reg, cursor, end)
    case None =>
      GapTyped(reg, coarse, cursor, end);
      EmitExpands(out, cap, coarse, cursor, end - cursor);
    case Some(o) =>
      var gap := if o.start > cursor then Emit(out, cap, coarse, cursor, o.start - cursor) else out;
      GapExpands(reg, coarse, cursor, o.start, out, cap, gap);
      HeldTyped(reg, coarse, o.start, o.stop, k);
      EmitExpands(gap, cap, o.kind, o.start, o.stop - o.start);
      TypedJoin(reg, coarse, cursor, o.start, o.stop);
  }

  /** As long as the output stays below its capacity, a region becomes exactly its pages, in order, each with
      the type of the allocation that holds it or else the coarse type. */
  lemma {:induction false} SplitExpands(reg: seq<Entry>, coarse: nat, cursor: nat, end: nat,
                                        out: seq<NtEntry>, cap: nat)
    requires cursor <= end && Separate(reg) && |Split(reg, coarse, cursor, end, out, cap)| < cap
    ensures Expand(Split(reg, coarse, cursor, end, out, cap)) == Expand(out) + Typed(reg, coarse, cursor, end)
    decreases end - cursor
  {
    hide SplitTurn, Expand, Typed;
    if cursor == end {
      TypedNone(reg, coarse, cursor);
    } else {
      var t := SplitTurn(reg, coarse, cursor, end, out, cap);
      TurnExpands(reg, coarse, cursor, end, out, cap);
      SplitExpands(reg, coarse, t.cursor, end, t.out, cap);
      TypedJoin(reg, coarse, cursor, t.cursor, end);
    }
  }

  lemma {:induction false} TypedNone(reg: seq<Entry>, coarse: nat, p: nat)
    ensures Typed(reg, coarse, p, p) == []
  {
  }

  lemma {:induction false} GapExpands(reg: seq<Entry>, coarse: nat, cursor: nat, start: nat, out: seq<NtEntry>,
                                      cap: nat, gap: seq<NtEntry>)
    requires cursor <= start && NoneHold(reg, cursor, start) && |out| < cap
    requires gap == if start > cursor then Emit(out, cap, coarse, cursor, start - cursor) else out
    ensures Expand(gap) == Expand(out) + Typed(reg, coarse, cursor, start)
  {
    hide Emit, Expand, Typed;
    if start > cursor {
      GapTyped(reg, coarse, cursor, start);
      EmitExpands(out, cap, coarse, cursor, start - cursor);
    } else {
      TypedNone(reg, coarse, cursor);
    }
  }

  // ---------------------------------------------------------------- the whole map

  function MemTypeToNt(t: MemType): nat {
    match t
    case Free => LOADER_FREE
    case BootReclaim => LOADER_FIRMWARE_TEMPORARY
    case Firmware => LOADER_FIRMWARE_PERMANENT
    case Reserved => LOADER_FIRMWARE_PERMANENT
  }

  /** A memory region, in whole pages. */
  datatype PageRegion = PageRegion(base: nat, pages: nat, kind: MemType)

  /** The output for the first `n` regions: non-RAM is skipped. */
  function NtMap(reg: seq<Entry>, regions: seq<PageRegion>, n: nat, cap: nat): (r: seq<NtEntry>)
    requires n <= |regions|
    ensures |r| <= cap
  {
    if n == 0 then [] else
    var out := NtMap(reg, regions, n - 1, cap);
    var g := regions[n - 1];
    if g.kind.Reserved? || g.pages == 0 then out
    else Split(reg, MemTypeToNt(g.kind), g.base, g.base + g.pages, out, cap)
  }

  /** Every page of RAM in the regions, in order, with its type. */
  function AllTyped(reg: seq<Entry>, regions: seq<PageRegion>, n: nat): seq<TypedPage>
    requires n <= |regions|
  {
    if n == 0 then [] else
    var g := regions[n - 1];
    AllTyped(reg, regions, n - 1)
    + (if g.kind.Reserved? then [] else Typed(reg, MemTypeToNt(g.kind), g.base, g.base + g.pages))
  }

  /** The descriptors list every page of RAM exactly as often and in the order the regions do, each with the
      type of the allocation that holds it, else the coarse type of its region; nothing is lost as long as
      the final count is below the capacity. No two neighbouring descriptors could be one. */
  lemma {:induction false} NtMapExpands(reg: seq<Entry>, regions: seq<PageRegion>, n: nat, cap: nat)
    requires n <= |regions| && Separate(reg)
    ensures Merged(NtMap(reg, regions, n, cap))
    ensures |NtMap(reg, regions, n, cap)| < cap ==> Expand(NtMap(reg, regions, n, cap)) == AllTyped(reg, regions, n)
    decreases n
  {
    hide Split, Typed, MemTypeToNt;
    if n > 0 {
      NtMapExpands(reg, regions, n - 1, cap);
      hide Merged, Expand;
      var out, g := NtMap(reg, regions, n - 1, cap), regions[n - 1];
      var coarse := MemTypeToNt(g.kind);
      TypedNone(reg, coarse, g.base);
      if !g.kind.Reserved? && g.pages > 0 {
        SplitMerged(reg, coarse, g.base, g.base + g.pages, out, cap);
        if |NtMap(reg, regions, n, cap)| < cap {
          SplitExpands(reg, coarse, g.base, g.base + g.pages, out, cap);
        }
      }
    }
  }

  // ---------------------------------------------------------------- when the map is sorted

  /** Page numbers only go up. */
  ghost predicate Climbs(s: seq<TypedPage>) {
    forall a, b | 0 <= a < b < |s| :: s[a].page < s[b].page
  }

  /** Every page of `s` comes before every page of `u`. */
  ghost predicate Precedes(s: seq<TypedPage>, u: seq<TypedPage>) {
    forall a, b | 0 <= a < |s| && 0 <= b < |u| :: s[a].page < u[b].page
  }

  lemma {:induction false} ClimbsAppend(s: seq<TypedPage>, u: seq<TypedPage>)
    ensures Climbs(s + u) <==> Climbs(s) && Climbs(u) && Precedes(s, u)
  {
    var w := s + u;
    assert forall a | 0 <= a < |w| :: w[a] == if a < |s| then s[a] else u[a - |s|];
    if Climbs(w) {
      forall a, b | 0 <= a < b < |u|
        ensures u[a].page < u[b].page
      {
        assert w[|s| + a].page < w[|s| + b].page;
      }
      forall a, b | 0 <= a < |s| && 0 <= b < |u|
        ensures s[a].page < u[b].page
      {
        assert w[a].page < w[|s| + b].page;
      }
      assert forall a, b | 0 <= a < b < |s| :: w[a].page < w[b].page;
    }
  }

  /** Descriptors one after the other: strictly ascending and without overlap. */
  ghost predicate Sorted(out: seq<NtEntry>) {
    forall i, j | 0 <= i < j < |out| :: out[i].base + out[i].count <= out[j].base
  }

  /** RAM regions one after the other, empty ones aside. */
  ghost predicate RamSorted(regions: seq<PageRegion>, n: nat)
    requires n <= |regions|
  {
    forall i, j | 0 <= i < j < n && IsRam(regions[i]) && IsRam(regions[j]) ::
      regions[i].base + regions[i].pages <= regions[j].base
  }

  predicate IsRam(g: PageRegion) { !g.kind.Reserved? && g.pages > 0 }

  lemma {:induction false} PagesClimb(e: NtEntry)
    ensures Climbs(Pages(e))
  {
  }

  /** A list of entries comes before an entry exactly when each of them does. */
  lemma {:induction false} ExpandPrecedes(out: seq<NtEntry>, e: NtEntry)
    requires e.count > 0 && forall i | 0 <= i < |out| :: out[i].count > 0
    ensures Precedes(Expand(out), Pages(e)) <==> forall i | 0 <= i < |out| :: out[i].base + out[i].count <= e.base
    decreases |out|
  {
    if out != [] {
      var n := |out| - 1;
      var init, last := out[..n], out[n];
      ExpandPrecedes(init, e);
      hide Expand;
      ExpandLast(out);
      PrecedesAppend(Expand(init), Pages(last), Pages(e));
      PagesPrecede(last, e);
      assert forall i | 0 <= i < n :: init[i] == out[i];
    }
  }

  lemma {:induction false} ExpandLast(out: seq<NtEntry>)
    requires out != []
    ensures Expand(out) == Expand(out[..|out| - 1]) + Pages(out[|out| - 1])
  {
  }

  lemma {:induction false} PrecedesAppend(s: seq<TypedPage>, u: seq<TypedPage>, v: seq<TypedPage>)
    ensures Precedes(s + u, v) <==> Precedes(s, v) && Precedes(u, v)
  {
    var w := s + u;
    assert forall a | 0 <= a < |w| :: w[a] == if a < |s| then s[a] else u[a - |s|];
    if Precedes(w, v) {
      forall a, b | 0 <= a < |u| && 0 <= b < |v|
        ensures u[a].page < v[b].page
      {
        assert w[|s| + a].page < v[b].page;
      }
      assert forall a, b | 0 <= a < |s| && 0 <= b < |v| :: w[a].page < v[b].page;
    }
  }

  lemma {:induction false} PagesPrecede(d: NtEntry, e: NtEntry)
    requires d.count > 0 && e.count > 0
    ensures Precedes(Pages(d), Pages(e)) <==> d.base + d.count <= e.base
  {
    if Precedes(Pages(d), Pages(e)) {
      assert Pages(d)[d.count - 1].page < Pages(e)[0].page;
    }
  }

  /** Entries, none empty, are sorted exactly when the pages they list climb. */
  lemma {:induction false} SortedIff(out: seq<NtEntry>)
    requires forall i | 0 <= i < |out| :: out[i].count > 0
    ensures Sorted(out) <==> Climbs(Expand(out))
    decreases |out|
  {
    if out != [] {
      var n := |out| - 1;
      var init, last := out[..n], out[n];
      SortedIff(init);
      hide Expand;
      ExpandLast(out);
      ExpandPrecedes(init, last);
      ClimbsAppend(Expand(init), Pages(last));
      PagesClimb(last);
      SortedLast(out);
    }
  }

  lemma {:induction false} SortedLast(out: seq<NtEntry>)
    requires out != []
    ensures var n := |out| - 1;
      Sorted(out) <==> Sorted(out[..n]) && forall i | 0 <= i < n :: out[..n][i].base + out[..n][i].count <= out[n].base
  {
    var n := |out| - 1;
    assert forall i | 0 <= i < n :: out[..n][i] == out[i];
  }

  lemma {:induction false} TypedPrecede(reg: seq<Entry>, g: PageRegion, h: PageRegion)
    requires g.pages > 0 && h.pages > 0
    ensures Precedes(Typed(reg, MemTypeToNt(g.kind), g.base, g.base + g.pages),
                     Typed(reg, MemTypeToNt(h.kind), h.base, h.base + h.pages))
            <==> g.base + g.pages <= h.base
  {
    hide TypeOf, MemTypeToNt;
    var s := Typed(reg, MemTypeToNt(g.kind), g.base, g.base + g.pages);
    var u := Typed(reg, MemTypeToNt(h.kind), h.base, h.base + h.pages);
    if Precedes(s, u) {
      assert s[g.pages - 1].page < u[0].page;
    }
  }

  /** The pages one region adds. */
  function Added(reg: seq<Entry>, g: PageRegion): seq<TypedPage> {
    if g.kind.Reserved? then [] else Typed(reg, MemTypeToNt(g.kind), g.base, g.base + g.pages)
  }

  lemma {:induction false} AllTypedStep(reg: seq<Entry>, regions: seq<PageRegion>, n: nat)
    requires n < |regions|
    ensures AllTyped(reg, regions, n + 1) == AllTyped(reg, regions, n) + Added(reg, regions[n])
  {
    hide Typed;
    assert AllTyped(reg, regions, n) + [] == AllTyped(reg, regions, n);
  }

  lemma {:induction false} AddedNone(reg: seq<Entry>, g: PageRegion)
    ensures Added(reg, g) == [] <==> !IsRam(g)
    ensures Climbs(Added(reg, g))
  {
    hide TypeOf, MemTypeToNt;
  }

  /** The regions before `g` list their pages before those of `g` exactly when each of them ends before it. */
  lemma {:induction false} AllTypedPrecedes(reg: seq<Entry>, regions: seq<PageRegion>, n: nat, g: PageRegion)
    requires n <= |regions| && IsRam(g)
    ensures Precedes(AllTyped(reg, regions, n), Added(reg, g))
            <==> forall i | 0 <= i < n && IsRam(regions[i]) :: regions[i].base + regions[i].pages <= g.base
    decreases n
  {
    if n > 0 {
      AllTypedPrecedes(reg, regions, n - 1, g);
      AllTypedStep(reg, regions, n - 1);
      var h := regions[n - 1];
      AddedNone(reg, h);
      if IsRam(h) {
        TypedPrecede(reg, h, g);
      }
      hide AllTyped, Typed, Added, Precedes, IsRam;
      PrecedesAppend(AllTyped(reg, regions, n - 1), Added(reg, h), Added(reg, g));
    }
  }

  lemma {:induction false} RamSortedIff(reg: seq<Entry>, regions: seq<PageRegion>, n: nat)
    requires n <= |regions|
    ensures RamSorted(regions, n) <==> Climbs(AllTyped(reg, regions, n))
    decreases n
  {
    if n > 0 {
      RamSortedIff(reg, regions, n - 1);
      AllTypedStep(reg, regions, n - 1);
      var g := regions[n - 1];
      AddedNone(reg, g);
      hide AllTyped, Added;
      ClimbsAppend(AllTyped(reg, regions, n - 1), Added(reg, g));
      if IsRam(g) {
        AllTypedPrecedes(reg, regions, n - 1, g);
      }
    }
  }

  lemma {:induction false} MergedCounts(out: seq<NtEntry>)
    requires Merged(out)
    ensures forall i | 0 <= i < |out| :: out[i].count > 0
  {
  }

  /** Below capacity the descriptors are sorted, and without overlap, exactly when the RAM regions come in that
      order. */
  lemma {:induction false} NtMapSortedIff(reg: seq<Entry>, regions: seq<PageRegion>, cap: nat)
    requires Separate(reg) && |NtMap(reg, regions, |regions|, cap)| < cap
    ensures Sorted(NtMap(reg, regions, |regions|, cap)) <==> RamSorted(regions, |regions|)
  {
    hide NtMap, Separate, Merged, Expand, AllTyped, Sorted, RamSorted, Climbs;
    var out := NtMap(reg, regions, |regions|, cap);
    NtMapExpands(reg, regions, |regions|, cap);
    MergedCounts(out);
    SortedIff(out);
    RamSortedIff(reg, regions, |regions|);
  }

  /** The promise of sorted descriptors does not hold: two free pages listed from the top down stay so. */
  lemma {:induction false} NotSorted()
    ensures var regions := [PageRegion(16, 1, Free), PageRegion(0, 1, Free)];
      var out := NtMap([], regions, 2, 256);
      |out| < 256 && !Sorted(out) && out == [NtEntry(LOADER_FREE, 16, 1), NtEntry(LOADER_FREE, 0, 1)]
  {
    var regions := [PageRegion(16, 1, Free), PageRegion(0, 1, Free)];
    NoneRegistered(16, 17, [], 256);
    var first := [NtEntry(LOADER_FREE, 16, 1)];
    NoneRegistered(0, 1, first, 256);
    assert NtMap([], regions, 0, 256) == [];
    assert NtMap([], regions, 1, 256) == first;
    var out := NtMap([], regions, 2, 256);
    assert out[0].base + out[0].count > out[1].base;
  }

  lemma {:induction false} NoneRegistered(lo: nat, hi: nat, out: seq<NtEntry>, cap: nat)
    requires lo < hi && |out| < cap
    ensures Split([], LOADER_FREE, lo, hi, out, cap) == Emit(out, cap, LOADER_FREE, lo, hi - lo)
  {
  }

  // ---------------------------------------------------------------- the methods, in place

  /** emit_entry: append to or merge into out[..n]. */
  method EmitEntry(out: array<NtEntry>, cap: nat, n: nat, kind: nat, base: nat, pages: nat) returns (n': nat)
    requires n <= cap <= out.Length
    modifies out
    ensures n' <= cap && out[..n'] == Emit(old(out[..n]), cap, kind, base, pages)
  {
    n' := n;
    if pages == 0 || n >= cap {
      return;
    }
    if n > 0 {
      var prev := out[n - 1];
      if prev.kind == kind && prev.base + prev.count == base {
        out[n - 1] := prev.(count := prev.count + pages);
        assert out[..n] == old(out[..n])[n - 1 := out[n - 1]];
        return;
      }
    }
    out[n] := NtEntry(kind, base, pages);
    n' := n + 1;
    assert out[..n'] == old(out[..n]) + [out[n]];
  }

  /** Search the registry for the first overlap from the cursor on. */
  method FindEarliest(reg: seq<Entry>, cursor: nat, end: nat) returns (best: Option<Overlap>)
    requires cursor <= end
    ensures best == Earliest(reg, cursor, end)
  {
    best := None;
    for i := 0 to |reg|
      invariant best == Earliest(reg[..i], cursor, end)
    {
      assert reg[..i + 1][..i] == reg[..i];
      var rb := reg[i].base;
      var re := rb + reg[i].pages;
      var os := if rb > cursor then rb else cursor;
      var oe := if re < end then re else end;
      if os < oe {
        if best.None? || os < best.value.start {
          best := Some(Overlap(os, oe, KindToNt(reg[i].kind)));
        }
      }
    }
    assert reg[..|reg|] == reg;
  }

  /** split_by_registry: the pieces of one region, each turn from where the last one stopped. */
  method SplitByRegistry(reg: seq<Entry>, base: nat, pages: nat, coarse: nat, out: array<NtEntry>, cap: nat, n: nat)
    returns (n': nat)
    requires n <= cap <= out.Length
    modifies out
    ensures n' <= cap && out[..n'] == Split(reg, coarse, base, base + pages, old(out[..n]), cap)
  {
    var cursor, end := base, base + pages;
    n' := n;
    ghost var goal := Split(reg, coarse, base, end, out[..n], cap);
    hide SplitTurn;
    while cursor < end
      invariant cursor <= end && n' <= cap && goal == Split(reg, coarse, cursor, end, out[..n'], cap)
    {
      n', cursor := SplitPiece(reg, cursor, end, coarse, out, cap, n');
    }
  }

  /** One turn: the gap before the earliest overlap, then the overlap; or the uncovered rest. */
  method SplitPiece(reg: seq<Entry>, cursor: nat, end: nat, coarse: nat, out: array<NtEntry>, cap: nat, n: nat)
    returns (n': nat, cursor': nat)
    requires n <= cap <= out.Length && cursor < end
    modifies out
    ensures n' <= cap && Turn(out[..n'], cursor') == SplitTurn(reg, coarse, cursor, end, old(out[..n]), cap)
  {
    hide Emit, Earliest;
    n' := n;
    var best := FindEarliest(reg, cursor, end);
    if best.None? {
      n' := EmitEntry(out, cap, n', coarse, cursor, end - cursor);
      return n', end;
    }
    if best.value.start > cursor {
      n' := EmitEntry(out, cap, n', coarse, cursor, best.value.start - cursor);
    }
    n' := EmitEntry(out, cap, n', best.value.kind, best.value.start, best.value.stop - best.value.start);
    cursor' := best.value.stop;
  }

  datatype Status = Success | InvalidParameter | NotReady

  /** memmap_to_nt: all regions in the order given. */
  method MemmapToNt(reg: seq<Entry>, regions: seq<PageRegion>, out: array<NtEntry>, cap: nat)
    returns (status: Status, n: nat)
    requires cap <= out.Length
    modifies out
    ensures n <= cap && out[..n] == NtMap(reg, regions, |regions|, cap)
    ensures status == if cap == 0 then InvalidParameter else if regions == [] then NotReady else Success
  {
    n := 0;
    NtMapStart(reg, regions, cap);
    hide Split, NtMap;
    if cap == 0 {
      NtMapNone(reg, regions, |regions|);
      return InvalidParameter, 0;
    }
    if |regions| == 0 {
      return NotReady, 0;
    }
    for r := 0 to |regions|
      invariant n <= cap && out[..n] == NtMap(reg, regions, r, cap)
    {
      n := OneRegion(reg, regions, r, out, cap, n);
    }
    status := Success;
  }

  method OneRegion(reg: seq<Entry>, regions: seq<PageRegion>, r: nat, out: array<NtEntry>, cap: nat, n: nat)
    returns (n': nat)
    requires r < |regions| && n <= cap <= out.Length && out[..n] == NtMap(reg, regions, r, cap)
    modifies out
    ensures n' <= cap && out[..n'] == NtMap(reg, regions, r + 1, cap)
  {
    NtMapStep(reg, regions, r, cap);
    hide Split, NtMap;
    n' := n;
    var g := regions[r];
    if !g.kind.Reserved? && g.pages != 0 {
      n' := SplitByRegistry(reg, g.base, g.pages, MemTypeToNt(g.kind), out, cap, n);
    }
  }

  lemma {:induction false} NtMapNone(reg: seq<Entry>, regions: seq<PageRegion>, n: nat)
    requires n <= |regions|
    ensures NtMap(reg, regions, n, 0) == []
  {
  }

  lemma {:induction false} NtMapStart(reg: seq<Entry>, regions: seq<PageRegion>, cap: nat)
    ensures NtMap(reg, regions, 0, cap) == []
  {
  }

  lemma {:induction false} NtMapStep(reg: seq<Entry>, regions: seq<PageRegion>, n: nat, cap: nat)
    requires n < |regions|
    ensures var g, out := regions[n], NtMap(reg, regions, n, cap);
            NtMap(reg, regions, n + 1, cap) ==
            if g.kind.Reserved? || g.pages == 0 then out
            else Split(reg, MemTypeToNt(g.kind), g.base, g.base + g.pages, out, cap)
  {
  }
}
