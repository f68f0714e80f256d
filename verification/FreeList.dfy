/** The free list of the PVH page allocator (src/boot/vmlinuz/bootenv_pvh.c) as values: carving ranges
    out of a bounded list of regions, choosing where to allocate, and what every run of allocations
    keeps. Addresses are 64-bit and wrap where the C arithmetic wraps. */
module FreeList {
  import opened Bits

  const MAX_FREE: nat := 32

  function PgDn(x: nat): nat { x - x % PAGE }
  function PgUp(x: nat): nat { PgDn((x + (PAGE - 1)) % WORD64) }

  /** [base, end). */
  datatype Region = Region(base: nat, end: nat)

  predicate In(x: int, r: Region) { r.base <= x < r.end }

  ghost predicate Covered(free: seq<Region>, x: int) {
    exists i :: 0 <= i < |free| && In(x, free[i])
  }

  /** Every region is a nonempty run of whole pages below 2^64. */
  predicate Paged(free: seq<Region>) {
    forall i | 0 <= i < |free| ::
      free[i].base < free[i].end < WORD64 && free[i].base % PAGE == 0 && free[i].end % PAGE == 0
  }

  predicate Apart(r: Region, s: Region) { r.end <= s.base || s.end <= r.base }

  ghost predicate Disjoint(free: seq<Region>) {
    forall i, j | 0 <= i < j < |free| :: Apart(free[i], free[j])
  }

  // ---------------------------------------------------------------- carving

  /** What is left of `r` without [base, end). */
  function Pieces(r: Region, base: nat, end: nat): seq<Region> {
    if end <= r.base || base >= r.end then [r]
    else
      (if r.base < base then [Region(r.base, base)] else [])
      + (if end < r.end then [Region(end, r.end)] else [])
  }

  function Carved(free: seq<Region>, base: nat, end: nat): seq<Region> {
    if free == [] then [] else Carved(free[..|free| - 1], base, end) + Pieces(free[|free| - 1], base, end)
  }

  function Take<T>(s: seq<T>, n: nat): (r: seq<T>) {
    if |s| <= n then s else s[..n]
  }

  /** The new free list: pieces past the capacity are dropped. */
  function Carve(free: seq<Region>, base: nat, end: nat): seq<Region> {
    if end <= base then free else Take(Carved(free, base, end), MAX_FREE)
  }

  lemma {:induction false} CoveredAppend(a: seq<Region>, b: seq<Region>, x: int)
    ensures Covered(a + b, x) <==> Covered(a, x) || Covered(b, x)
  {
    if Covered(a, x) {
      var i :| 0 <= i < |a| && In(x, a[i]);
      assert In(x, (a + b)[i]);
    }
    if Covered(b, x) {
      var i :| 0 <= i < |b| && In(x, b[i]);
      assert In(x, (a + b)[|a| + i]);
    }
    if Covered(a + b, x) {
      var i :| 0 <= i < |a + b| && In(x, (a + b)[i]);
      if i < |a| {
        assert In(x, a[i]);
      } else {
        assert In(x, b[i - |a|]);
      }
    }
  }

  lemma {:induction false} CoveredOne(r: Region, x: int)
    ensures Covered([r], x) <==> In(x, r)
  {
    if In(x, r) {
      assert In(x, [r][0]);
    }
  }

  lemma {:induction false} PiecesCover(r: Region, base: nat, end: nat, x: int)
    requires base < end
    ensures Covered(Pieces(r, base, end), x) <==> In(x, r) && !(base <= x < end)
  {
    hide Covered;
    var lo := if r.base < base then [Region(r.base, base)] else [];
    var hi := if end < r.end then [Region(end, r.end)] else [];
    CoveredOne(r, x);
    CoveredAppend(lo, hi, x);
    CoveredOne(Region(r.base, base), x);
    CoveredOne(Region(end, r.end), x);
    CoveredNone(x);
  }

  lemma {:induction false} CoveredNone(x: int)
    ensures !Covered([], x)
  {
  }

  /** Carving removes exactly the range, before the capacity is applied. */
  lemma {:induction false} CarvedCovers(free: seq<Region>, base: nat, end: nat, x: int)
    requires base < end
    ensures Covered(Carved(free, base, end), x) <==> Covered(free, x) && !(base <= x < end)
    decreases |free|
  {
    hide Covered;
    if free == [] {
      CoveredNone(x);
    } else {
      var n := |free| - 1;
      CarvedCovers(free[..n], base, end, x);
      PiecesCover(free[n], base, end, x);
      CoveredAppend(Carved(free[..n], base, end), Pieces(free[n], base, end), x);
      CoveredAppend(free[..n], [free[n]], x);
      CoveredOne(free[n], x);
      assert free == free[..n] + [free[n]];
    }
  }

  lemma {:induction false} TakeCovers(s: seq<Region>, n: nat, x: int)
    ensures Covered(Take(s, n), x) ==> Covered(s, x)
  {
    if |s| > n {
      CoveredAppend(s[..n], s[n..], x);
      assert s == s[..n] + s[n..];
    }
  }

  /** Whatever overflows, carving only loses free memory: nothing carved, and nothing that was not free,
      becomes free. Without overflow it loses exactly the range. */
  lemma {:induction false} CarveCovers(free: seq<Region>, base: nat, end: nat, x: int)
    ensures Covered(Carve(free, base, end), x) ==> Covered(free, x) && !(base <= x < end)
    ensures base < end && |Carved(free, base, end)| <= 32 ==>
              (Covered(Carve(free, base, end), x) <==> Covered(free, x) && !(base <= x < end))
  {
    hide Covered;
    if base < end {
      CarvedCovers(free, base, end, x);
      TakeCovers(Carved(free, base, end), MAX_FREE, x);
    }
  }

  // ---------------------------------------------------------------- how long the list gets

  /** Both ends of [base, end) lie strictly inside `r`, so carving splits it. */
  predicate Splits(r: Region, base: nat, end: nat) { r.base < base && end < r.end }

  lemma {:induction false} CarvedLength(free: seq<Region>, base: nat, end: nat)
    requires base < end && Disjoint(free)
    ensures |Carved(free, base, end)| <= |free| + 1
    ensures (forall i | 0 <= i < |free| :: !Splits(free[i], base, end)) ==> |Carved(free, base, end)| <= |free|
    decreases |free|
  {
    if free != [] {
      var n := |free| - 1;
      assert Disjoint(free[..n]);
      CarvedLength(free[..n], base, end);
      if Splits(free[n], base, end) {
        forall i | 0 <= i < n
          ensures !Splits(free[..n][i], base, end)
        {
          assert Apart(free[i], free[n]);
        }
      }
    }
  }

  /** Below capacity and with disjoint regions nothing is lost. */
  lemma {:induction false} CarveExact(free: seq<Region>, base: nat, end: nat, x: int)
    requires base < end && Disjoint(free) && |free| < 32
    ensures Covered(Carve(free, base, end), x) <==> Covered(free, x) && !(base <= x < end)
  {
    hide Covered;
    CarvedLength(free, base, end);
    CarveCovers(free, base, end, x);
  }

  // ---------------------------------------------------------------- what carving keeps

  lemma {:induction false} CarvedPaged(free: seq<Region>, base: nat, end: nat)
    requires Paged(free) && base % PAGE == 0 && end % PAGE == 0
    ensures Paged(Carved(free, base, end))
    decreases |free|
  {
    if free != [] {
      var n := |free| - 1;
      CarvedPaged(free[..n], base, end);
      assert Paged(Pieces(free[n], base, end));
    }
  }

  lemma {:induction false} CarvePaged(free: seq<Region>, base: nat, end: nat)
    requires Paged(free) && base % PAGE == 0 && end % PAGE == 0
    ensures Paged(Carve(free, base, end))
  {
    CarvedPaged(free, base, end);
  }

  predicate Within(r: Region, s: Region) { s.base <= r.base && r.end <= s.end }

  lemma {:induction false} CarvedWithin(free: seq<Region>, base: nat, end: nat, i: nat) returns (j: nat)
    requires base < end && i < |Carved(free, base, end)|
    ensures j < |free| && Within(Carved(free, base, end)[i], free[j])
    decreases |free|
  {
    var n := |free| - 1;
    if i < |Carved(free[..n], base, end)| {
      j := CarvedWithin(free[..n], base, end, i);
    } else {
      j := n;
    }
  }

  lemma {:induction false} DisjointAppend(a: seq<Region>, b: seq<Region>)
    requires Disjoint(a) && Disjoint(b)
    requires forall i, k | 0 <= i < |a| && 0 <= k < |b| :: Apart(a[i], b[k])
    ensures Disjoint(a + b)
  {
    forall i, j | 0 <= i < j < |a + b|
      ensures Apart((a + b)[i], (a + b)[j])
    {
      if i < |a| && j < |a| {
        assert Apart(a[i], a[j]);
      } else if i < |a| {
        assert Apart(a[i], b[j - |a|]);
      } else {
        assert Apart(b[i - |a|], b[j - |a|]);
      }
    }
  }

  /** Pieces of distinct regions stay apart. */
  lemma {:induction false} CarvedDisjoint(free: seq<Region>, base: nat, end: nat)
    requires Disjoint(free) && base < end
    ensures Disjoint(Carved(free, base, end))
    decreases |free|
  {
    if free != [] {
      var n := |free| - 1;
      var head, last := Carved(free[..n], base, end), Pieces(free[n], base, end);
      assert Disjoint(free[..n]);
      CarvedDisjoint(free[..n], base, end);
      forall i, k | 0 <= i < |head| && 0 <= k < |last|
        ensures Apart(head[i], last[k])
      {
        var j := CarvedWithin(free[..n], base, end, i);
        assert Apart(free[j], free[n]);
        assert Within(last[k], free[n]);
      }
      DisjointAppend(head, last);
    }
  }

  lemma {:induction false} CarveDisjoint(free: seq<Region>, base: nat, end: nat)
    requires Disjoint(free)
    ensures Disjoint(Carve(free, base, end))
  {
    if base < end {
      CarvedDisjoint(free, base, end);
    }
  }

  /** With disjoint regions the overflow of the list is the only way to lose memory. */
  lemma {:induction false} CarveExactIff(free: seq<Region>, base: nat, end: nat)
    requires base < end && Disjoint(free) && Paged(free) && base % PAGE == 0 && end % PAGE == 0
    ensures |Carved(free, base, end)| <= 32 <==>
            forall x :: Covered(Carve(free, base, end), x) <==> Covered(free, x) && !(base <= x < end)
  {
    var all := Carved(free, base, end);
    if |all| <= MAX_FREE {
      forall x
        ensures Covered(Carve(free, base, end), x) <==> Covered(free, x) && !(base <= x < end)
      {
        CarveCovers(free, base, end, x);
      }
    } else {
      CarvedPaged(free, base, end);
      CarvedDisjoint(free, base, end);
      var lost := all[MAX_FREE].base;
      assert In(lost, all[MAX_FREE]);
      CarvedCovers(free, base, end, lost);
      forall i | 0 <= i < MAX_FREE
        ensures !In(lost, all[..MAX_FREE][i])
      {
        assert Apart(all[i], all[MAX_FREE]);
      }
    }
  }

  // ---------------------------------------------------------------- choosing an address

  function Min(a: nat, b: nat): nat { if a <= b then a else b }

  /** The highest place for `bytes` in `r` under `cap`. */
  function Candidate(r: Region, cap: nat, bytes: nat): Option<nat> {
    var top := PgDn(Min(r.end, cap));
    if top < bytes || top - bytes < r.base then None else Some(top - bytes)
  }

  function BestFit(free: seq<Region>, cap: nat, bytes: nat): Option<nat> {
    if free == [] then None else
    var best := BestFit(free[..|free| - 1], cap, bytes);
    var x := Candidate(free[|free| - 1], cap, bytes);
    if x.Some? && (best.None? || x.value > best.value) then x else best
  }

  /** `bytes` fit at the page `x`, inside one free region and under `cap`. */
  ghost predicate Fits(free: seq<Region>, cap: nat, bytes: nat, x: nat) {
    x % PAGE == 0 && x + bytes <= cap && exists i :: 0 <= i < |free| && free[i].base <= x && x + bytes <= free[i].end
  }

  lemma {:induction false} CandidateIs(r: Region, cap: nat, bytes: nat, x: nat)
    requires bytes % PAGE == 0 && r.base % PAGE == 0 && x % PAGE == 0
    requires r.base <= x && x + bytes <= r.end && x + bytes <= cap
    ensures Candidate(r, cap, bytes).Some? && x <= Candidate(r, cap, bytes).value
  {
  }

  lemma {:induction false} CandidateFits(r: Region, cap: nat, bytes: nat)
    requires bytes % PAGE == 0 && Candidate(r, cap, bytes).Some?
    ensures var x := Candidate(r, cap, bytes).value;
            x % PAGE == 0 && r.base <= x && x + bytes <= r.end && x + bytes <= cap
  {
  }

  /** The allocator takes the highest fit there is, and fails only when there is none. */
  lemma {:induction false} BestFitIs(free: seq<Region>, cap: nat, bytes: nat)
    requires Paged(free) && bytes % PAGE == 0
    ensures BestFit(free, cap, bytes).None? <==> forall x: nat :: !Fits(free, cap, bytes, x)
    ensures BestFit(free, cap, bytes).Some? ==>
              && Fits(free, cap, bytes, BestFit(free, cap, bytes).value)
              && forall x: nat | Fits(free, cap, bytes, x) :: x <= BestFit(free, cap, bytes).value
    decreases |free|
  {
    if free != [] {
      var n := |free| - 1;
      var head, last := free[..n], free[n];
      BestFitIs(head, cap, bytes);
      hide PgDn, BestFit;
      forall x: nat | Fits(free, cap, bytes, x)
        ensures Fits(head, cap, bytes, x) ||
                (Candidate(last, cap, bytes).Some? && x <= Candidate(last, cap, bytes).value)
      {
        var i :| 0 <= i < |free| && free[i].base <= x && x + bytes <= free[i].end;
        if i < n {
          assert head[i].base <= x && x + bytes <= head[i].end;
        } else {
          CandidateIs(last, cap, bytes, x);
        }
      }
      forall x: nat | Fits(head, cap, bytes, x)
        ensures Fits(free, cap, bytes, x)
      {
        var i :| 0 <= i < |head| && head[i].base <= x && x + bytes <= head[i].end;
        assert free[i].base <= x && x + bytes <= free[i].end;
      }
      if Candidate(last, cap, bytes).Some? {
        CandidateFits(last, cap, bytes);
        assert Fits(free, cap, bytes, Candidate(last, cap, bytes).value);
      }
      BestFitStep(free, cap, bytes);
    }
  }

  lemma {:induction false} BestFitStep(free: seq<Region>, cap: nat, bytes: nat)
    requires free != []
    ensures BestFit(free, cap, bytes) ==
            var best := BestFit(free[..|free| - 1], cap, bytes);
            var x := Candidate(free[|free| - 1], cap, bytes);
            if x.Some? && (best.None? || x.value > best.value) then x else best
  {
  }

  // ---------------------------------------------------------------- requests

  /** The modes of be_alloc_pages; `pages` is a 32-bit count. */
  datatype Request = Any(pages: nat) | Max(pages: nat, cap: nat) | At(pages: nat, want: nat)

  function Bytes(q: Request): (n: nat)
    ensures n % PAGE == 0
  {
    q.pages * PAGE
  }

  /** The test of alloc_at on one region: the sum wraps at 64 bits. */
  predicate Holds(r: Region, want: nat, bytes: nat) {
    r.base <= want && (want + bytes) % WORD64 <= r.end
  }

  predicate AnyHolds(free: seq<Region>, want: nat, bytes: nat) {
    exists i | 0 <= i < |free| :: Holds(free[i], want, bytes)
  }

  /** Address handed out, 0 for failure. */
  function Chosen(free: seq<Region>, q: Request): nat {
    if Bytes(q) == 0 then 0 else
    match q
    case At(_, want) => if AnyHolds(free, want, Bytes(q)) then want else 0
    case Max(_, cap) => (match BestFit(free, cap, Bytes(q)) case Some(x) => x case None => 0)
    case Any(_) => (match BestFit(free, WORD64 - 1, Bytes(q)) case Some(x) => x case None => 0)
  }

  predicate Succeeds(free: seq<Region>, q: Request) {
    Bytes(q) != 0 &&
    match q
    case At(_, want) => AnyHolds(free, want, Bytes(q))
    case Max(_, cap) => BestFit(free, cap, Bytes(q)).Some?
    case Any(_) => BestFit(free, WORD64 - 1, Bytes(q)).Some?
  }

  /** The free list after the request. */
  function After(free: seq<Region>, q: Request): seq<Region> {
    if Succeeds(free, q) then
      var x := Chosen(free, q);
      Carve(free, x, if q.At? then (x + Bytes(q)) % WORD64 else x + Bytes(q))
    else free
  }

  // ---------------------------------------------------------------- runs

  /** A request whose end does not wrap, with a 32-bit page count. */
  predicate Straight(q: Request) { q.pages < WORD32 && (q.At? ==> q.want + Bytes(q) < WORD64) }

  /** Such a request, any exact address page-aligned. */
  predicate Good(q: Request) { Straight(q) && (q.At? ==> q.want % PAGE == 0) }

  /** The blocks a run of requests hands out, in order. */
  function Blocks(free: seq<Region>, run: seq<Request>): seq<Region>
    decreases |run|
  {
    if run == [] then [] else
    var x := Chosen(free, run[0]);
    (if x != 0 then [Region(x, x + Bytes(run[0]))] else []) + Blocks(After(free, run[0]), run[1..])
  }

  /** The free list after a run. */
  function Final(free: seq<Region>, run: seq<Request>): seq<Region>
    decreases |run|
  {
    if run == [] then free else Final(After(free, run[0]), run[1..])
  }

  ghost predicate NullPageTaken(free: seq<Region>) {
    forall x | 0 <= x < PAGE :: !Covered(free, x)
  }

  /** All of `r` is free. */
  ghost predicate AllFree(free: seq<Region>, r: Region) {
    forall x | In(x, r) :: Covered(free, x)
  }

  ghost predicate NoneFree(free: seq<Region>, r: Region) {
    forall x | In(x, r) :: !Covered(free, x)
  }

  ghost predicate Shrinks(free: seq<Region>, free': seq<Region>) {
    forall x | Covered(free', x) :: Covered(free, x)
  }

  lemma {:induction false} WholeRegionFree(free: seq<Region>, i: nat, r: Region)
    requires i < |free| && Within(r, free[i])
    ensures AllFree(free, r)
  {
    forall x | In(x, r)
      ensures Covered(free, x)
    {
      assert In(x, free[i]);
    }
  }

  /** A successful request hands out a block that was free; afterwards none of it is free, the rest of the
      free memory has only shrunk and the list is as it should be. */
  lemma {:induction false} AllocSound(free: seq<Region>, q: Request)
    requires Paged(free) && NullPageTaken(free) && Good(q)
    ensures Paged(After(free, q)) && NullPageTaken(After(free, q)) && Shrinks(free, After(free, q))
    ensures Succeeds(free, q) <==> Chosen(free, q) != 0
    ensures Chosen(free, q) != 0 ==>
      Taken(free, After(free, q), Region(Chosen(free, q), Chosen(free, q) + Bytes(q)))
  {
    hide Covered, Carve;
    if Succeeds(free, q) {
      var x, bytes := Chosen(free, q), Bytes(q);
      var i := FitRegion(free, q);
      var b := Region(x, x + bytes);
      WholeRegionFree(free, i, b);
      assert In(x, b);
      CarveAll(free, x, x + bytes);
      CarvePaged(free, x, x + bytes);
    }
  }

  lemma {:induction false} CarveAll(free: seq<Region>, base: nat, end: nat)
    ensures Shrinks(free, Carve(free, base, end)) && NoneFree(Carve(free, base, end), Region(base, end))
  {
    hide Covered;
    forall x
      ensures Covered(Carve(free, base, end), x) ==> Covered(free, x) && !(base <= x < end)
    {
      CarveCovers(free, base, end, x);
    }
  }

  /** The region a successful request takes its block from. */
  lemma {:induction false} FitRegion(free: seq<Region>, q: Request) returns (i: nat)
    requires Straight(q) && Succeeds(free, q)
    ensures i < |free| && Within(Region(Chosen(free, q), Chosen(free, q) + Bytes(q)), free[i])
    ensures !q.At? ==> Chosen(free, q) % PAGE == 0
  {
    var bytes := Bytes(q);
    match q
    case At(_, want) => i :| 0 <= i < |free| && Holds(free[i], want, bytes);
    case Max(_, cap) => i := BestFitIn(free, cap, bytes);
    case Any(_) => i := BestFitIn(free, WORD64 - 1, bytes);
  }

  lemma {:induction false} BestFitIn(free: seq<Region>, cap: nat, bytes: nat) returns (i: nat)
    requires bytes % PAGE == 0 && BestFit(free, cap, bytes).Some?
    ensures var x := BestFit(free, cap, bytes).value;
      i < |free| && x % PAGE == 0 && Within(Region(x, x + bytes), free[i])
    decreases |free|
  {
    hide Candidate;
    var n := |free| - 1;
    if Candidate(free[n], cap, bytes) == BestFit(free, cap, bytes) {
      CandidateFits(free[n], cap, bytes);
      i := n;
    } else {
      i := BestFitIn(free[..n], cap, bytes);
    }
  }

  lemma {:induction false} ShrinksTrans(a: seq<Region>, b: seq<Region>, c: seq<Region>)
    requires Shrinks(a, b) && Shrinks(b, c)
    ensures Shrinks(a, c)
  {
  }

  /** A block of whole pages, not at 0, free in `free` and gone in `free'`. */
  ghost predicate Taken(free: seq<Region>, free': seq<Region>, b: Region) {
    && b.base % PAGE == 0 && b.base >= PAGE && b.end % PAGE == 0 && b.base < b.end
    && AllFree(free, b) && NoneFree(free', b)
  }

  /** Pairwise disjoint blocks taken out of `free`, with `free'` what is left. */
  ghost predicate AllTaken(free: seq<Region>, free': seq<Region>, blocks: seq<Region>) {
    Disjoint(blocks) && forall i | 0 <= i < |blocks| :: Taken(free, free', blocks[i])
  }

  /** Over every run of good requests: the blocks handed out are page-aligned, nonempty, never at 0, pairwise
      disjoint, all taken from memory that was free at the start, and none of it is free at the end. */
  lemma {:induction false} RunSound(free: seq<Region>, run: seq<Request>)
    requires Paged(free) && NullPageTaken(free) && forall i | 0 <= i < |run| :: Good(run[i])
    ensures Paged(Final(free, run)) && NullPageTaken(Final(free, run)) && Shrinks(free, Final(free, run))
    ensures AllTaken(free, Final(free, run), Blocks(free, run))
    decreases |run|
  {
    hide Covered, Chosen, After, Succeeds, Paged;
    if run != [] {
      var q := run[0];
      var mid := After(free, q);
      AllocSound(free, q);
      RunSound(mid, run[1..]);
      ShrinksTrans(free, mid, Final(mid, run[1..]));
      var rest := Blocks(mid, run[1..]);
      LaterTaken(free, mid, Final(free, run), rest);
      var x := Chosen(free, q);
      if x != 0 {
        FirstTaken(free, mid, Final(free, run), Region(x, x + Bytes(q)), rest);
      } else {
        assert [] + rest == rest;
      }
    }
  }

  lemma {:induction false} LaterTaken(free: seq<Region>, mid: seq<Region>, free': seq<Region>, blocks: seq<Region>)
    requires AllTaken(mid, free', blocks) && Shrinks(free, mid)
    ensures AllTaken(free, free', blocks)
  {
    hide Covered;
    forall i | 0 <= i < |blocks|
      ensures Taken(free, free', blocks[i])
    {
      assert Taken(mid, free', blocks[i]);
    }
  }

  lemma {:induction false} FirstTaken(free: seq<Region>, mid: seq<Region>, free': seq<Region>, b: Region,
                                      rest: seq<Region>)
    requires Taken(free, mid, b) && AllTaken(mid, free', rest) && AllTaken(free, free', rest) && Shrinks(mid, free')
    ensures AllTaken(free, free', [b] + rest)
  {
    hide Covered;
    forall i | 0 <= i < |rest|
      ensures Apart(b, rest[i])
    {
      var x := if b.base >= rest[i].base then b.base else rest[i].base;
      assert Taken(mid, free', rest[i]);
      assert !(In(x, b) && In(x, rest[i]));
    }
    DisjointAppend([b], rest);
    assert Taken(free, free', b);
  }

  // ---------------------------------------------------------------- any exact address

  /** A block free in `free` and gone in `free'`. */
  ghost predicate Handed(free: seq<Region>, free': seq<Region>, b: Region) {
    PAGE <= b.base < b.end && AllFree(free, b) && NoneFree(free', b)
  }

  ghost predicate AllHanded(free: seq<Region>, free': seq<Region>, blocks: seq<Region>) {
    Disjoint(blocks) && forall i | 0 <= i < |blocks| :: Handed(free, free', blocks[i])
  }

  /** One request, of whatever list and at whatever address. */
  lemma {:induction false} AllocApart(free: seq<Region>, q: Request)
    requires NullPageTaken(free) && Straight(q)
    ensures NullPageTaken(After(free, q)) && Shrinks(free, After(free, q))
    ensures Succeeds(free, q) <==> Chosen(free, q) != 0
    ensures Chosen(free, q) != 0 ==>
      Handed(free, After(free, q), Region(Chosen(free, q), Chosen(free, q) + Bytes(q)))
  {
    hide Covered, Carve;
    if Succeeds(free, q) {
      var x, bytes := Chosen(free, q), Bytes(q);
      var i := FitRegion(free, q);
      var b := Region(x, x + bytes);
      WholeRegionFree(free, i, b);
      assert In(x, b);
      CarveAll(free, x, x + bytes);
    }
  }

  /** Over every run of requests that do not wrap, aligned or not: the blocks handed out are nonempty, not in the null
      page, pairwise disjoint, free at the start and not free at the end. */
  lemma {:induction false} RunApart(free: seq<Region>, run: seq<Request>)
    requires NullPageTaken(free) && forall i | 0 <= i < |run| :: Straight(run[i])
    ensures NullPageTaken(Final(free, run)) && Shrinks(free, Final(free, run))
    ensures AllHanded(free, Final(free, run), Blocks(free, run))
    decreases |run|
  {
    hide Covered, Chosen, After, Succeeds, Straight, Bytes;
    if run != [] {
      var q := run[0];
      var mid := After(free, q);
      AllocApart(free, q);
      RunApart(mid, run[1..]);
      var rest, end := Blocks(mid, run[1..]), Final(free, run);
      ShrinksTrans(free, mid, end);
      LaterHanded(free, mid, end, rest);
      var x := Chosen(free, q);
      if x != 0 {
        FirstHanded(free, mid, end, Region(x, x + Bytes(q)), rest);
      } else {
        assert [] + rest == rest;
      }
    }
  }

  lemma {:induction false} LaterHanded(free: seq<Region>, mid: seq<Region>, free': seq<Region>, blocks: seq<Region>)
    requires AllHanded(mid, free', blocks) && Shrinks(free, mid)
    ensures AllHanded(free, free', blocks)
  {
    hide Covered;
    forall i | 0 <= i < |blocks|
      ensures Handed(free, free', blocks[i])
    {
      assert Handed(mid, free', blocks[i]);
    }
  }

  lemma {:induction false} FirstHanded(free: seq<Region>, mid: seq<Region>, free': seq<Region>, b: Region,
                                       rest: seq<Region>)
    requires Handed(free, mid, b) && AllHanded(mid, free', rest) && AllHanded(free, free', rest) && Shrinks(mid, free')
    ensures AllHanded(free, free', [b] + rest)
  {
    hide Covered;
    forall i | 0 <= i < |rest|
      ensures Apart(b, rest[i])
    {
      var x := if b.base >= rest[i].base then b.base else rest[i].base;
      assert Handed(mid, free', rest[i]);
      assert !(In(x, b) && In(x, rest[i]));
    }
    DisjointAppend([b], rest);
    assert Handed(free, free', b);
  }

  // ---------------------------------------------------------------- when a request succeeds, and what it takes

  /** Some free region holds all of [want, want + 4096 * pages). */
  ghost predicate RoomAt(free: seq<Region>, want: nat, pages: nat) {
    exists i :: 0 <= i < |free| && Within(Region(want, want + 4096 * pages), free[i])
  }

  /** Page `x` starts such a range that ends at or below `cap`. */
  ghost predicate RoomUnder(free: seq<Region>, x: nat, pages: nat, cap: nat) {
    x % 4096 == 0 && x + 4096 * pages <= cap && RoomAt(free, x, pages)
  }

  /** An exact request is served at its address if and only if one free region holds all of it; otherwise nothing is
      handed out and the list stays as it was. */
  lemma {:induction false} AtExactly(free: seq<Region>, q: Request)
    requires NullPageTaken(free) && Straight(q) && q.At? && q.pages > 0
    ensures RoomAt(free, q.want, q.pages) <==> Chosen(free, q) == q.want != 0
    ensures !RoomAt(free, q.want, q.pages) <==> Chosen(free, q) == 0
    ensures !RoomAt(free, q.want, q.pages) ==> After(free, q) == free
  {
    hide Covered;
    AllocApart(free, q);
    if RoomAt(free, q.want, q.pages) {
      var i :| 0 <= i < |free| && Within(Region(q.want, q.want + 4096 * q.pages), free[i]);
      assert Holds(free[i], q.want, Bytes(q));
    } else if Succeeds(free, q) {
      var i := FitRegion(free, q);
      assert false;
    }
  }

  /** A request under a cap is served at the highest page with room under that cap, and fails only when there is none;
      then the list stays as it was. */
  lemma {:induction false} MaxExactly(free: seq<Region>, q: Request)
    requires Paged(free) && NullPageTaken(free) && Straight(q) && q.Max? && q.pages > 0
    ensures (exists x: nat :: RoomUnder(free, x, q.pages, q.cap)) <==> Chosen(free, q) != 0
    ensures Chosen(free, q) != 0 ==> RoomUnder(free, Chosen(free, q), q.pages, q.cap)
    ensures forall x: nat | RoomUnder(free, x, q.pages, q.cap) :: x <= Chosen(free, q)
    ensures Chosen(free, q) == 0 ==> After(free, q) == free
  {
    hide Covered, BestFit;
    AllocApart(free, q);
    RoomFits(free, q.pages, q.cap);
    BestFitIs(free, q.cap, Bytes(q));
  }

  /** A request for any address is served at the highest page with room anywhere, and fails only when there is none;
      then the list stays as it was. */
  lemma {:induction false} AnyExactly(free: seq<Region>, q: Request)
    requires Paged(free) && NullPageTaken(free) && Straight(q) && q.Any? && q.pages > 0
    ensures (exists x: nat :: x % 4096 == 0 && RoomAt(free, x, q.pages)) <==> Chosen(free, q) != 0
    ensures Chosen(free, q) != 0 ==> Chosen(free, q) % 4096 == 0 && RoomAt(free, Chosen(free, q), q.pages)
    ensures forall x: nat | x % 4096 == 0 && RoomAt(free, x, q.pages) :: x <= Chosen(free, q)
    ensures Chosen(free, q) == 0 ==> After(free, q) == free
  {
    hide Covered, BestFit;
    AllocApart(free, q);
    RoomFits(free, q.pages, WORD64 - 1);
    BestFitIs(free, WORD64 - 1, Bytes(q));
    forall x: nat
      ensures RoomUnder(free, x, q.pages, WORD64 - 1) <==> x % 4096 == 0 && RoomAt(free, x, q.pages)
    {
    }
  }

  lemma {:induction false} RoomFits(free: seq<Region>, pages: nat, cap: nat)
    ensures forall x: nat :: RoomUnder(free, x, pages, cap) <==> Fits(free, cap, pages * PAGE, x)
  {
    forall x: nat
      ensures RoomUnder(free, x, pages, cap) <==> Fits(free, cap, pages * PAGE, x)
    {
      if Fits(free, cap, pages * PAGE, x) {
        var i :| 0 <= i < |free| && free[i].base <= x && x + pages * PAGE <= free[i].end;
        assert Within(Region(x, x + 4096 * pages), free[i]);
      }
    }
  }

  /** With room left in a list of disjoint regions, a request takes exactly the block it hands out. */
  lemma {:induction false} TakesExactly(free: seq<Region>, q: Request, x: int)
    requires Disjoint(free) && |free| < 32 && NullPageTaken(free) && Straight(q)
    ensures var a := Chosen(free, q);
      Covered(After(free, q), x) <==> Covered(free, x) && !(a != 0 && a <= x < a + 4096 * q.pages)
  {
    hide Covered, Carve, Disjoint;
    AllocApart(free, q);
    if Succeeds(free, q) {
      CarveExact(free, Chosen(free, q), Chosen(free, q) + Bytes(q), x);
    }
  }

  // ---------------------------------------------------------------- exact addresses near the end

  /** An AT request that succeeds hands out free memory exactly when its end does not wrap past 2^64. */
  lemma {:induction false} AtSoundIff(free: seq<Region>, q: Request)
    requires (forall i | 0 <= i < |free| :: free[i].end < WORD64) && q.At? && q.want < WORD64 && q.pages < WORD32
    requires Succeeds(free, q)
    ensures AllFree(free, Region(q.want, q.want + Bytes(q))) <==> q.want + Bytes(q) < WORD64
  {
    if q.want + Bytes(q) < WORD64 {
      var i := FitRegion(free, q);
      WholeRegionFree(free, i, Region(q.want, q.want + Bytes(q)));
    } else {
      assert In(WORD64 - 1, Region(q.want, q.want + Bytes(q)));
      assert !Covered(free, WORD64 - 1);
    }
  }

  /** Such a request can succeed: it is handed memory at the very end that is not free, and nothing is carved. */
  lemma {:induction false} AtWraps()
    ensures var free, q := [Region(PAGE, 2 * PAGE)], At(2, WORD64 - PAGE);
      && Paged(free) && Succeeds(free, q) && Chosen(free, q) == WORD64 - PAGE && After(free, q) == free
      && NoneFree(free, Region(WORD64 - PAGE, WORD64)) && !AllFree(free, Region(q.want, q.want + Bytes(q)))
  {
    var free, q := [Region(PAGE, 2 * PAGE)], At(2, WORD64 - PAGE);
    assert Holds(free[0], q.want, Bytes(q));
    AtSoundIff(free, q);
  }
}
