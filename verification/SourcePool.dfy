/**
 `SrcDataPool`: a best-fit, coalescing allocator of the registered memory from which long messages
 are sent, with a first-come queue of requests that did not fit.
 */
module SourcePool {
  import opened Bytes
  import opened FreeList

  datatype Request = Request(id: nat, size: nat)

  /** `free` is the ordered map `free_list`, `used` is `in_use`, `pending` is `pending_allocations`. */
  datatype Pool = Pool(base: int, total: nat, free: seq<Span>, used: map<int, nat>, pending: seq<Request>)

  function RoundUp(size: nat): (r: nat)
    ensures r % 64 == 0 && size <= r < size + 64
  {
    if size % 64 != 0 then size + (64 - size % 64) else size
  }

  /** Rounding up stays below any whole number of blocks that the size stays below. */
  lemma RoundUpLeast(size: nat, bound: nat)
    requires size <= bound && bound % 64 == 0
    ensures RoundUp(size) <= bound
  {
  }

  /** The span that `alloc_srcptr` picks; -1 if none is large enough. */
  function Fit(free: seq<Span>, need: nat): (r: int)
    ensures -1 <= r < |free|
    ensures r >= 0 ==> need <= free[r].size
  {
    if free == [] then -1 else
      var n := |free| - 1;
      var r := Fit(free[..n], need);
      if need <= free[n].size && (r < 0 || free[n].size < free[r].size) then n else r
  }

  /** Best fit: the smallest span that is large enough, the lowest of those, and none only if there is none. */
  lemma {:induction false} FitIsBest(free: seq<Span>, need: nat, j: nat)
    requires j < |free| && need <= free[j].size
    ensures var r := Fit(free, need);
            r >= 0 && free[r].size <= free[j].size && (j < r ==> free[r].size < free[j].size)
  {
    var n := |free| - 1;
    if j < n { FitIsBest(free[..n], need, j); }
  }

  /** `alloc_srcptr`: the pool afterwards and the pointer, or 0. */
  function Alloc(p: Pool, size: nat): (Pool, int) {
    var need := RoundUp(size);
    var i := Fit(p.free, need);
    if p.pending != [] || i < 0 then (p, 0) else
      var f := p.free[i];
      var ptr := f.End() - need;
      var rest := if f.size == need then None else Some(Span(f.start, f.size - need));
      (p.(free := Replaced(p.free, i, i + 1, rest), used := p.used[ptr := need]), ptr)
  }

  /** `reserve_srcdata` under the pool's lock: allocate, or join the queue. */
  function Reserve(p: Pool, req: Request): (Pool, int) {
    var (p', ptr) := Alloc(p, req.size);
    if ptr != 0 then (p', ptr) else (p'.(pending := p'.pending + [req]), 0)
  }

  /** The outcome of `release_srcptr`: the pool, and the request that was granted, with its pointer. */
  datatype Released = Released(pool: Pool, granted: Option<(Request, int)>)

  function Release(p: Pool, ptr: int): Released
    requires ptr in p.used
  {
    ReleaseMerged(p, ptr, Absorb(p.free, ptr, p.used[ptr]))
  }

  function ReleaseMerged(p: Pool, ptr: int, m: Merged): Released
    requires ptr in p.used && m.lo <= m.hi <= |p.free|
  {
    var used := p.used - {ptr};
    if p.pending != [] && p.pending[0].size <= m.span.size then
      var act := RoundUp(p.pending[0].size);
      var rest := if act < m.span.size then Some(Span(m.span.start + act, m.span.size - act)) else None;
      Released(p.(free := Replaced(p.free, m.lo, m.hi, rest),
                  used := used[m.span.start := act],
                  pending := p.pending[1..]),
               Some((p.pending[0], m.span.start)))
    else
      Released(p.(free := Replaced(p.free, m.lo, m.hi, Some(m.span)), used := used), None)
  }

  // ---------------------------------------------------------------------------------------
  // The invariant

  /** A nonempty span inside the pool. */
  predicate Inside(p: Pool, start: int, size: nat) {
    0 < size && p.base <= start && start + size <= p.base + p.total
  }

  /** A span of whole 64-byte blocks. */
  predicate Blocks(base: int, start: int, size: nat) {
    size % 64 == 0 && (start - base) % 64 == 0
  }

  ghost predicate UsedAt(used: map<int, nat>, x: int) {
    exists a :: a in used && a <= x < a + used[a]
  }

  ghost predicate UsedApart(used: map<int, nat>) {
    forall a, b :: a in used && b in used && a != b ==> Apart(a, used[a], b, used[b])
  }

  ghost predicate Exclusive(free: seq<Span>, used: map<int, nat>) {
    forall a, i :: a in used && 0 <= i < |free| ==> Apart(a, used[a], free[i].start, free[i].size)
  }

  ghost predicate Covers(p: Pool) {
    forall x :: p.base <= x < p.base + p.total ==> FreeAt(p.free, x) || UsedAt(p.used, x)
  }

  ghost predicate AllInside(p: Pool) {
    && (forall i :: 0 <= i < |p.free| ==> Inside(p, p.free[i].start, p.free[i].size))
    && (forall a :: a in p.used ==> Inside(p, a, p.used[a]))
  }

  ghost predicate AllBlocks(p: Pool) {
    && (forall i :: 0 <= i < |p.free| ==> Blocks(p.base, p.free[i].start, p.free[i].size))
    && (forall a :: a in p.used ==> Blocks(p.base, a, p.used[a]))
  }

  /** The free and the used spans tile the pool. */
  ghost predicate Tiled(p: Pool) {
    AllInside(p) && Coalesced(p.free) && UsedApart(p.used) && Exclusive(p.free, p.used) && Covers(p)
  }

  ghost predicate PoolInv(p: Pool) {
    && 0 < p.base && 0 < p.total && p.total % 64 == 0
    && Tiled(p) && AllBlocks(p)
    && (forall i :: 0 <= i < |p.pending| ==> 0 < p.pending[i].size <= p.total)
    // whoever waits, waits for a span that somebody holds
    && (p.pending != [] ==> p.used != map[])
  }

  function NewPool(base: int, total: nat): Pool {
    Pool(base, total, [Span(base, total)], map[], [])
  }

  lemma NewPoolOk(base: int, total: nat)
    requires 0 < base && 0 < total && total % 64 == 0
    ensures PoolInv(NewPool(base, total))
  {
    var p := NewPool(base, total);
    forall x | p.base <= x < p.base + p.total
      ensures FreeAt(p.free, x)
    {
      assert p.free[0].start <= x < p.free[0].End();
    }
  }

  lemma SecondIsHigher(p: Pool)
    requires AllInside(p) && Coalesced(p.free)
    ensures |p.free| > 1 ==> p.free[0].End() < p.base + p.total
  {
    if |p.free| > 1 {
      assert p.free[0].End() < p.free[1].start && Inside(p, p.free[1].start, p.free[1].size);
    }
  }

  /** With nothing in use, the pool is one free span. */
  lemma UnusedIsWhole(p: Pool)
    requires Tiled(p) && p.used == map[] && 0 < p.total
    ensures p.free == [Span(p.base, p.total)]
  {
    assert FreeAt(p.free, p.base);
    var i :| 0 <= i < |p.free| && p.free[i].start <= p.base < p.free[i].End();
    assert Inside(p, p.free[0].start, p.free[0].size) && Inside(p, p.free[i].start, p.free[i].size);
    assert i == 0;
    var end := p.free[0].End();
    assert end < p.base + p.total ==> FreeAt(p.free, end);
    assert end == p.base + p.total;
    SecondIsHigher(p);
  }

  // ---------------------------------------------------------------------------------------
  // Every operation re-tiles one region

  /**
   A change confined to the region [from, to): there, `p.free[lo..hi]` and the used span at `gone`
   are replaced by `mid` and by the used span `taken`.
   */
  datatype Edit = Edit(from: int, to: int, lo: nat, hi: nat, mid: Option<Span>, gone: Option<int>, taken: Option<Span>)

  function ApplyEdit(p: Pool, e: Edit): Pool
    requires e.lo <= e.hi <= |p.free|
  {
    var used := if e.gone.Some? then p.used - {e.gone.value} else p.used;
    p.(free := Replaced(p.free, e.lo, e.hi, e.mid),
       used := if e.taken.Some? then used[e.taken.value.start := e.taken.value.size] else used)
  }

  predicate Within(e: Edit, s: Span) {
    0 < s.size && e.from <= s.start && s.End() <= e.to
  }

  /** Nothing else reaches into the region. */
  ghost predicate RegionOk(p: Pool, e: Edit) {
    && p.base <= e.from < e.to <= p.base + p.total && e.lo <= e.hi <= |p.free|
    && (forall i :: 0 <= i < e.lo ==> p.free[i].End() <= e.from)
    && (forall i :: e.hi <= i < |p.free| ==> e.to <= p.free[i].start)
    && (forall a :: a in p.used && e.gone != Some(a) ==> Apart(a, p.used[a], e.from, e.to - e.from))
    && (e.gone.Some? ==> e.gone.value in p.used && Within(e, Span(e.gone.value, p.used[e.gone.value])))
    && (forall i :: e.lo <= i < e.hi ==> Within(e, p.free[i]))
  }

  /** What is put there fills the region and leaves gaps between free spans. */
  ghost predicate FillOk(p: Pool, e: Edit)
    requires e.hi <= |p.free| && e.lo <= |p.free|
  {
    && (e.mid.Some? ==>
          && Within(e, e.mid.value)
          && (forall i :: 0 <= i < e.lo ==> p.free[i].End() < e.mid.value.start)
          && (forall i :: e.hi <= i < |p.free| ==> e.mid.value.End() < p.free[i].start))
    && (e.taken.Some? ==> Within(e, e.taken.value))
    && (e.mid.Some? && e.taken.Some? ==>
          Apart(e.mid.value.start, e.mid.value.size, e.taken.value.start, e.taken.value.size))
    && (if e.mid.Some? then e.mid.value.size else 0) + (if e.taken.Some? then e.taken.value.size else 0)
       == e.to - e.from
  }

  ghost predicate EditOk(p: Pool, e: Edit) {
    RegionOk(p, e) && FillOk(p, e)
  }

  lemma EditUsed(p: Pool, e: Edit)
    requires EditOk(p, e)
    ensures forall a :: a in ApplyEdit(p, e).used ==>
              || e.taken == Some(Span(a, ApplyEdit(p, e).used[a]))
              || (a in p.used && e.gone != Some(a) && ApplyEdit(p, e).used[a] == p.used[a])
    ensures e.taken.Some? ==> e.taken.value.start in ApplyEdit(p, e).used
                              && ApplyEdit(p, e).used[e.taken.value.start] == e.taken.value.size
    ensures forall a :: a in p.used && e.gone != Some(a) && 0 < p.used[a] ==>
              a in ApplyEdit(p, e).used && ApplyEdit(p, e).used[a] == p.used[a]
  {
  }

  lemma EditOrder(p: Pool, e: Edit)
    requires Coalesced(p.free) && EditOk(p, e)
    ensures Coalesced(ApplyEdit(p, e).free)
  {
    ReplacedCoalesced(p.free, e.lo, e.hi, e.mid);
  }

  lemma EditInside(p: Pool, e: Edit)
    requires AllInside(p) && EditOk(p, e)
    ensures AllInside(ApplyEdit(p, e))
  {
    EditFreeInside(p, e, Replaced(p.free, e.lo, e.hi, e.mid));
    EditUsed(p, e);
  }

  lemma EditFreeInside(p: Pool, e: Edit, free: seq<Span>)
    requires AllInside(p) && EditOk(p, e) && free == Replaced(p.free, e.lo, e.hi, e.mid)
    ensures forall i :: 0 <= i < |free| ==> Inside(p, free[i].start, free[i].size)
  {
    forall i | 0 <= i < |free|
      ensures Inside(p, free[i].start, free[i].size)
    {
      ReplacedEntries(p.free, e.lo, e.hi, e.mid, i);
    }
  }

  lemma EditUsedApart(p: Pool, e: Edit)
    requires UsedApart(p.used) && EditOk(p, e)
    ensures UsedApart(ApplyEdit(p, e).used)
  {
    EditUsed(p, e);
  }

  lemma EditExclusive(p: Pool, e: Edit)
    requires AllInside(p) && Exclusive(p.free, p.used) && EditOk(p, e)
    ensures Exclusive(ApplyEdit(p, e).free, ApplyEdit(p, e).used)
  {
    ReplacedAt(p.free, e.lo, e.hi, e.mid);
    EditUsed(p, e);
  }

  lemma EditCoversInside(p: Pool, e: Edit, x: int)
    requires EditOk(p, e) && e.from <= x < e.to
    ensures FreeAt(ApplyEdit(p, e).free, x) || UsedAt(ApplyEdit(p, e).used, x)
  {
    ReplacedAt(p.free, e.lo, e.hi, e.mid);
    var p' := ApplyEdit(p, e);
    EditUsed(p, e);
    if e.mid.Some? && e.mid.value.start <= x < e.mid.value.End() {
      assert p'.free[e.lo] == e.mid.value;
    } else {
      var a := e.taken.value.start;
      assert a in p'.used && a <= x < a + p'.used[a];
    }
  }

  lemma EditKeepsFree(p: Pool, e: Edit, x: int, i: nat)
    requires EditOk(p, e) && !(e.from <= x < e.to) && i < |p.free| && p.free[i].start <= x < p.free[i].End()
    ensures FreeAt(ApplyEdit(p, e).free, x)
  {
    ReplacedAt(p.free, e.lo, e.hi, e.mid);
    var free' := Replaced(p.free, e.lo, e.hi, e.mid);
    assert e.lo <= i < e.hi ==> Within(e, p.free[i]);
    var j := if i < e.lo then i else i - |p.free| + |free'|;
    assert 0 <= j < |free'| && free'[j] == p.free[i];
  }

  lemma EditKeepsUsed(p: Pool, e: Edit, x: int, a: int)
    requires EditOk(p, e) && !(e.from <= x < e.to) && a in p.used && a <= x < a + p.used[a]
    ensures UsedAt(ApplyEdit(p, e).used, x)
  {
    EditUsed(p, e);
    assert a in ApplyEdit(p, e).used && ApplyEdit(p, e).used[a] == p.used[a];
  }

  lemma EditCovers(p: Pool, e: Edit)
    requires Covers(p) && EditOk(p, e)
    ensures Covers(ApplyEdit(p, e))
  {
    var p' := ApplyEdit(p, e);
    forall x | p.base <= x < p.base + p.total
      ensures FreeAt(p'.free, x) || UsedAt(p'.used, x)
    {
      if e.from <= x < e.to {
        EditCoversInside(p, e, x);
      } else if FreeAt(p.free, x) {
        var i :| 0 <= i < |p.free| && p.free[i].start <= x < p.free[i].End();
        EditKeepsFree(p, e, x, i);
      } else {
        var a :| a in p.used && a <= x < a + p.used[a];
        EditKeepsUsed(p, e, x, a);
      }
    }
  }

  lemma EditTiles(p: Pool, e: Edit)
    requires Tiled(p) && EditOk(p, e)
    ensures Tiled(ApplyEdit(p, e))
  {
    EditOrder(p, e);
    EditInside(p, e);
    EditUsedApart(p, e);
    EditExclusive(p, e);
    EditCovers(p, e);
  }

  lemma EditBlocks(p: Pool, e: Edit)
    requires AllBlocks(p) && EditOk(p, e)
    requires e.mid.Some? ==> Blocks(p.base, e.mid.value.start, e.mid.value.size)
    requires e.taken.Some? ==> Blocks(p.base, e.taken.value.start, e.taken.value.size)
    ensures AllBlocks(ApplyEdit(p, e))
  {
    ReplacedAt(p.free, e.lo, e.hi, e.mid);
    EditUsed(p, e);
  }

  lemma Multiples(a: int, b: int)
    requires a % 64 == 0 && b % 64 == 0
    ensures (a + b) % 64 == 0 && (a - b) % 64 == 0
  {
  }

  // ---------------------------------------------------------------------------------------
  // Allocation

  function AllocEdit(p: Pool, need: nat, i: nat): Edit
    requires i < |p.free| && need <= p.free[i].size
  {
    var f := p.free[i];
    Edit(f.start, f.End(), i, i + 1,
         if f.size == need then None else Some(Span(f.start, f.size - need)),
         None, Some(Span(f.End() - need, need)))
  }

  lemma AllocEditOk(p: Pool, need: nat, i: nat)
    requires Tiled(p) && i < |p.free| && 0 < need <= p.free[i].size
    ensures EditOk(p, AllocEdit(p, need, i))
    ensures p.free[i].End() - need !in p.used && p.base <= p.free[i].End() - need
  {
    var f := p.free[i];
    assert Inside(p, f.start, f.size);
    forall a | a in p.used
      ensures Apart(a, p.used[a], f.start, f.size) && a != f.End() - need
    {
      assert Inside(p, a, p.used[a]);
    }
  }

  lemma AllocTiles(p: Pool, need: nat, i: nat)
    requires Tiled(p) && AllBlocks(p) && i < |p.free| && 0 < need <= p.free[i].size && need % 64 == 0
    ensures Tiled(ApplyEdit(p, AllocEdit(p, need, i))) && AllBlocks(ApplyEdit(p, AllocEdit(p, need, i)))
    ensures p.free[i].End() - need !in p.used && p.base <= p.free[i].End() - need
  {
    AllocEditOk(p, need, i);
    EditTiles(p, AllocEdit(p, need, i));
    AllocEditBlocks(p.base, p.free[i], need);
    EditBlocks(p, AllocEdit(p, need, i));
  }

  lemma AllocEditBlocks(base: int, f: Span, need: nat)
    requires Blocks(base, f.start, f.size) && need <= f.size && need % 64 == 0
    ensures Blocks(base, f.start, f.size - need) && Blocks(base, f.End() - need, need)
  {
    Multiples(f.size, need);
    Multiples(f.start - base, f.size - need);
  }

  /** What `alloc_srcptr` does when nobody waits and span `i` is the best fit. */
  lemma AllocIsEdit(p: Pool, size: nat)
    requires p.pending == [] && Fit(p.free, RoundUp(size)) >= 0
    ensures var i := Fit(p.free, RoundUp(size));
            Alloc(p, size) == (ApplyEdit(p, AllocEdit(p, RoundUp(size), i)), p.free[i].End() - RoundUp(size))
  {
  }

  /**
   Reserving keeps the tiling and the rule about waiters; it grants a fresh span of the rounded size
   exactly when nobody waits and some free span is large enough, and otherwise queues the request.
   */
  lemma ReserveOk(p: Pool, req: Request)
    requires PoolInv(p) && 0 < req.size <= p.total
    ensures var (p', ptr) := Reserve(p, req);
            && PoolInv(p')
            && (ptr != 0 <==> p.pending == [] && exists i :: 0 <= i < |p.free| && RoundUp(req.size) <= p.free[i].size)
            && (ptr != 0 ==> ptr !in p.used && p'.used == p.used[ptr := RoundUp(req.size)] && p'.pending == p.pending)
            && (ptr == 0 ==> p' == p.(pending := p.pending + [req]))
  {
    if p.pending == [] && Fit(p.free, RoundUp(req.size)) >= 0 {
      ReserveGrants(p, req);
    } else {
      ReserveQueues(p, req);
      if i: nat :| i < |p.free| && RoundUp(req.size) <= p.free[i].size {
        FitIsBest(p.free, RoundUp(req.size), i);
      }
    }
  }

  lemma ReserveGrants(p: Pool, req: Request)
    requires PoolInv(p) && 0 < req.size <= p.total && p.pending == [] && Fit(p.free, RoundUp(req.size)) >= 0
    ensures var (p', ptr) := Reserve(p, req);
            && PoolInv(p')
            && ptr != 0 && ptr !in p.used && p'.used == p.used[ptr := RoundUp(req.size)] && p'.pending == []
  {
    AllocIsEdit(p, req.size);
    AllocTiles(p, RoundUp(req.size), Fit(p.free, RoundUp(req.size)));
  }

  lemma ReserveQueues(p: Pool, req: Request)
    requires PoolInv(p) && 0 < req.size <= p.total && (p.pending != [] || Fit(p.free, RoundUp(req.size)) < 0)
    ensures Reserve(p, req) == (p.(pending := p.pending + [req]), 0) && PoolInv(p.(pending := p.pending + [req]))
  {
    PendingIrrelevant(p, p.(pending := p.pending + [req]));
    if p.used == map[] {
      UnusedIsWhole(p);
      RoundUpLeast(req.size, p.total);
    }
  }

  // ---------------------------------------------------------------------------------------
  // Release

  /** The neighbours of a used span in the free list end before it and start after it. */
  lemma {:induction false} Neighbours(p: Pool, ptr: int)
    requires AllInside(p) && Exclusive(p.free, p.used) && ptr in p.used
    ensures Inside(p, ptr, p.used[ptr])
    ensures var at := LowerBound(p.free, ptr);
            && (at > 0 ==> p.free[at - 1].End() <= ptr && Inside(p, p.free[at - 1].start, p.free[at - 1].size))
            && (at < |p.free| ==> ptr + p.used[ptr] <= p.free[at].start && Inside(p, p.free[at].start, p.free[at].size))
  {
    var size, at := p.used[ptr], LowerBound(p.free, ptr);
    assert Inside(p, ptr, size);
    if at > 0 { assert Apart(ptr, size, p.free[at - 1].start, p.free[at - 1].size); }
    if at < |p.free| {
      assert Inside(p, p.free[at].start, p.free[at].size) && Apart(ptr, size, p.free[at].start, p.free[at].size);
    }
  }

  /** What the merge with the neighbours achieves. */
  ghost predicate MergedOk(p: Pool, ptr: int, m: Merged) {
    && ptr in p.used && m.lo <= m.hi <= |p.free|
    && Inside(p, m.span.start, m.span.size) && Blocks(p.base, m.span.start, m.span.size)
    && m.span.start <= ptr && ptr + p.used[ptr] <= m.span.End()
    && (forall i :: 0 <= i < m.lo ==> p.free[i].End() < m.span.start)
    && (forall i :: m.hi <= i < |p.free| ==> m.span.End() < p.free[i].start)
    && (forall i :: m.lo <= i < m.hi ==> m.span.start <= p.free[i].start && p.free[i].End() <= m.span.End())
    && (forall a :: a in p.used && a != ptr ==> Apart(a, p.used[a], m.span.start, m.span.size))
  }

  lemma AbsorbBlocks(p: Pool, ptr: int, at: nat)
    requires AllBlocks(p) && ptr in p.used && at <= |p.free|
    ensures var m := AbsorbAt(p.free, ptr, p.used[ptr], at);
            Blocks(p.base, m.span.start, m.span.size)
  {
    var size := p.used[ptr];
    assert Blocks(p.base, ptr, size);
    var below := if at > 0 then p.free[at - 1] else Span(ptr, 0);
    var above := if at < |p.free| then p.free[at] else Span(ptr, 0);
    assert Blocks(p.base, below.start, below.size) && Blocks(p.base, above.start, above.size);
    Multiples(size, below.size);
    Multiples(size, above.size);
    Multiples(size + below.size, above.size);
  }

  /** The merged span in numbers: up to one neighbour on either side of position `at`. */
  predicate MergedAt(p: Pool, ptr: int, m: Merged, at: nat)
    requires ptr in p.used
  {
    && at <= |p.free| && m.lo <= at <= m.hi <= |p.free| && at - 1 <= m.lo && m.hi <= at + 1
    && m.span.start == (if m.lo < at then p.free[m.lo].start else ptr)
    && m.span.End() == (if at < m.hi then p.free[at].End() else ptr + p.used[ptr])
    && (m.lo < at ==> p.free[m.lo].End() == ptr)
    && (m.lo == at > 0 ==> p.free[at - 1].End() < ptr)
    && (at < m.hi ==> p.free[at].start == ptr + p.used[ptr])
    && (m.hi == at < |p.free| ==> ptr + p.used[ptr] < p.free[at].start)
  }

  lemma {:induction false} AbsorbSpan(p: Pool, ptr: int)
    requires AllInside(p) && Exclusive(p.free, p.used) && ptr in p.used
    ensures MergedAt(p, ptr, Absorb(p.free, ptr, p.used[ptr]), LowerBound(p.free, ptr))
  {
    Neighbours(p, ptr);
  }

  lemma MergedOrder(p: Pool, ptr: int, m: Merged, at: nat)
    requires AllInside(p) && Coalesced(p.free) && ptr in p.used && MergedAt(p, ptr, m, at)
    ensures m.span.start <= ptr && ptr + p.used[ptr] <= m.span.End()
    ensures Inside(p, m.span.start, m.span.size)
    ensures forall i :: 0 <= i < m.lo ==> p.free[i].End() < m.span.start
    ensures forall i :: m.hi <= i < |p.free| ==> m.span.End() < p.free[i].start
    ensures forall i :: m.lo <= i < m.hi ==> m.span.start <= p.free[i].start && p.free[i].End() <= m.span.End()
  {
    assert Inside(p, ptr, p.used[ptr]);
    assert forall i :: 0 <= i < |p.free| ==> Inside(p, p.free[i].start, p.free[i].size);
    forall i | 0 <= i < m.lo
      ensures p.free[i].End() < m.span.start
    {
      if i < at - 1 { assert p.free[i].End() < p.free[at - 1].start; }
    }
    forall i | m.hi <= i < |p.free|
      ensures m.span.End() < p.free[i].start
    {
      if at < i { assert p.free[at].End() < p.free[i].start; }
    }
  }

  lemma MergedApart(p: Pool, ptr: int, m: Merged, at: nat, a: int)
    requires AllInside(p) && UsedApart(p.used) && Exclusive(p.free, p.used)
    requires ptr in p.used && MergedAt(p, ptr, m, at) && a in p.used && a != ptr
    ensures Apart(a, p.used[a], m.span.start, m.span.size)
  {
    assert Inside(p, a, p.used[a]) && Apart(a, p.used[a], ptr, p.used[ptr]);
    if m.lo < at { assert Apart(a, p.used[a], p.free[m.lo].start, p.free[m.lo].size); }
    if at < m.hi { assert Apart(a, p.used[a], p.free[at].start, p.free[at].size); }
  }

  lemma AbsorbOk(p: Pool, ptr: int)
    requires Tiled(p) && AllBlocks(p) && ptr in p.used
    ensures MergedOk(p, ptr, Absorb(p.free, ptr, p.used[ptr]))
  {
    AbsorbSpan(p, ptr);
    AbsorbBlocks(p, ptr, LowerBound(p.free, ptr));
    MergedIsOk(p, ptr, Absorb(p.free, ptr, p.used[ptr]), LowerBound(p.free, ptr));
  }

  lemma MergedIsOk(p: Pool, ptr: int, m: Merged, at: nat)
    requires Tiled(p) && ptr in p.used && MergedAt(p, ptr, m, at) && Blocks(p.base, m.span.start, m.span.size)
    ensures MergedOk(p, ptr, m)
  {
    MergedOrder(p, ptr, m, at);
    forall a | a in p.used && a != ptr
      ensures Apart(a, p.used[a], m.span.start, m.span.size)
    {
      MergedApart(p, ptr, m, at, a);
    }
  }

  function ReleaseEdit(p: Pool, ptr: int, m: Merged): Edit
  {
    if p.pending != [] && p.pending[0].size <= m.span.size then
      var act := RoundUp(p.pending[0].size);
      Edit(m.span.start, m.span.End(), m.lo, m.hi,
           if act < m.span.size then Some(Span(m.span.start + act, m.span.size - act)) else None,
           Some(ptr), Some(Span(m.span.start, act)))
    else
      Edit(m.span.start, m.span.End(), m.lo, m.hi, Some(m.span), Some(ptr), None)
  }

  lemma ReleaseEditOk(p: Pool, ptr: int, m: Merged)
    requires PoolInv(p) && MergedOk(p, ptr, m)
    ensures EditOk(p, ReleaseEdit(p, ptr, m))
  {
    assert Inside(p, ptr, p.used[ptr]);
    assert forall i :: 0 <= i < |p.free| ==> Inside(p, p.free[i].start, p.free[i].size);
    ReleaseRegionOk(p, ptr, m, ReleaseEdit(p, ptr, m));
    ReleaseFillOk(p, ptr, m);
  }

  lemma ReleaseRegionOk(p: Pool, ptr: int, m: Merged, e: Edit)
    requires MergedOk(p, ptr, m) && 0 < p.used[ptr] && forall i :: 0 <= i < |p.free| ==> 0 < p.free[i].size
    requires e.from == m.span.start && e.to == m.span.End() && e.lo == m.lo && e.hi == m.hi && e.gone == Some(ptr)
    ensures RegionOk(p, e)
  {
  }

  lemma ReleaseFillOk(p: Pool, ptr: int, m: Merged)
    requires PoolInv(p) && MergedOk(p, ptr, m)
    ensures FillOk(p, ReleaseEdit(p, ptr, m))
  {
    if p.pending != [] && p.pending[0].size <= m.span.size {
      RoundUpLeast(p.pending[0].size, m.span.size);
    }
  }

  lemma ReleaseEditBlocks(p: Pool, ptr: int, m: Merged)
    requires MergedOk(p, ptr, m)
    ensures var e := ReleaseEdit(p, ptr, m);
            && (e.mid.Some? ==> Blocks(p.base, e.mid.value.start, e.mid.value.size))
            && (e.taken.Some? ==> Blocks(p.base, e.taken.value.start, e.taken.value.size))
  {
    if p.pending != [] && p.pending[0].size <= m.span.size {
      var act := RoundUp(p.pending[0].size);
      Multiples(m.span.size, act);
      Multiples(m.span.start - p.base, act);
    }
  }

  lemma ReleaseTiles(p: Pool, ptr: int, m: Merged)
    requires PoolInv(p) && MergedOk(p, ptr, m)
    ensures Tiled(ReleaseMerged(p, ptr, m).pool) && AllBlocks(ReleaseMerged(p, ptr, m).pool)
  {
    var e := ReleaseEdit(p, ptr, m);
    ReleaseEditOk(p, ptr, m);
    ReleaseEditBlocks(p, ptr, m);
    EditTiles(p, e);
    EditBlocks(p, e);
    PendingIrrelevant(ApplyEdit(p, e), ReleaseMerged(p, ptr, m).pool);
  }

  lemma PendingIrrelevant(p: Pool, p': Pool)
    requires Tiled(p) && AllBlocks(p) && p' == p.(pending := p'.pending)
    ensures Tiled(p') && AllBlocks(p')
  {
  }

  lemma OneSpan(free: seq<Span>, lo: nat, hi: nat, span: Span)
    requires lo <= hi <= |free| && |Replaced(free, lo, hi, Some(span))| == 1
    ensures Replaced(free, lo, hi, Some(span)) == [span]
  {
    ReplacedAt(free, lo, hi, Some(span));
  }

  /**
   Releasing keeps the invariant; it hands a span to the front of the queue exactly when the merged
   span is large enough for that request, and to nobody else.
   */
  lemma ReleaseOk(p: Pool, ptr: int)
    requires PoolInv(p) && ptr in p.used
    ensures var r, m := Release(p, ptr), Absorb(p.free, ptr, p.used[ptr]);
            && PoolInv(r.pool)
            && (r.granted.Some? <==> p.pending != [] && p.pending[0].size <= m.span.size)
            && (r.granted.None? ==> r.pool.pending == p.pending && r.pool.used == p.used - {ptr})
            && (r.granted.Some? ==>
                  var (req, at) := r.granted.value;
                  && [req] + r.pool.pending == p.pending
                  && at != 0 && at !in p.used - {ptr}
                  && r.pool.used == (p.used - {ptr})[at := RoundUp(req.size)])
  {
    AbsorbOk(p, ptr);
    ReleaseMergedOk(p, ptr, Absorb(p.free, ptr, p.used[ptr]));
  }

  lemma ReleaseMergedOk(p: Pool, ptr: int, m: Merged)
    requires PoolInv(p) && MergedOk(p, ptr, m)
    ensures var r := ReleaseMerged(p, ptr, m);
            && PoolInv(r.pool)
            && (r.granted.Some? <==> p.pending != [] && p.pending[0].size <= m.span.size)
            && (r.granted.None? ==> r.pool.pending == p.pending && r.pool.used == p.used - {ptr})
            && (r.granted.Some? ==>
                  var (req, at) := r.granted.value;
                  && [req] + r.pool.pending == p.pending
                  && at != 0 && at !in p.used - {ptr}
                  && r.pool.used == (p.used - {ptr})[at := RoundUp(req.size)])
  {
    var r := ReleaseMerged(p, ptr, m);
    ReleaseTiles(p, ptr, m);
    if r.granted.Some? {
      var at := r.granted.value.1;
      assert at in r.pool.used;
      assert forall a :: a in p.used ==> Inside(p, a, p.used[a]);
      assert at in p.used && at != ptr ==> Apart(at, p.used[at], m.span.start, m.span.size);
    } else if r.pool.used == map[] && p.pending != [] {
      UnusedIsWhole(r.pool);
      OneSpan(p.free, m.lo, m.hi, m.span);
    }
  }

  // ---------------------------------------------------------------------------------------
  // The comment "then no other span will either" on the branch that grants nothing

  ghost predicate FitsSome(free: seq<Span>, size: nat) {
    exists i :: 0 <= i < |free| && size <= free[i].size
  }

  /**
   When a release grants nothing, the request at the front fits some free span afterwards exactly
   when it already fitted one before.
   */
  lemma RefusalIsRight(p: Pool, ptr: int)
    requires PoolInv(p) && ptr in p.used && p.pending != [] && Release(p, ptr).granted.None?
    ensures FitsSome(Release(p, ptr).pool.free, p.pending[0].size) <==> FitsSome(p.free, p.pending[0].size)
  {
    AbsorbOk(p, ptr);
    RefusalIsRightMerged(p, ptr, Absorb(p.free, ptr, p.used[ptr]), p.pending[0].size);
  }

  lemma RefusalIsRightMerged(p: Pool, ptr: int, m: Merged, size: nat)
    requires MergedOk(p, ptr, m) && m.span.size < size
    ensures FitsSome(Replaced(p.free, m.lo, m.hi, Some(m.span)), size) <==> FitsSome(p.free, size)
  {
    var free' := Replaced(p.free, m.lo, m.hi, Some(m.span));
    ReplacedAt(p.free, m.lo, m.hi, Some(m.span));
    if i: nat :| i < |p.free| && size <= p.free[i].size {
      assert free'[if i < m.lo then i else i - |p.free| + |free'|] == p.free[i];
    }
  }

  /**
   Both can happen. Three spans fill the pool, and requests of 64 and 128 bytes wait. Releasing the
   span of 192 bytes serves the first request only: the 128 bytes left over stay free although the
   next request would fit, so the retry gives nothing. Releasing a span of 64 bytes elsewhere then
   takes the branch with the comment, while the request at the front still fits that other span.
   */
  lemma FrontMayFitAFreeSpan()
    ensures var p5 := Reserve(Reserve(ThreeGrants(), Request(3, 64)).0, Request(4, 128)).0;
            && p5 == Pool(64, 320, [], map[320 := 64, 256 := 64, 64 := 192], [Request(3, 64), Request(4, 128)])
            && var p6 := Release(p5, 64).pool;
               && p6 == Pool(64, 320, [Span(128, 128)], map[320 := 64, 256 := 64, 64 := 64], [Request(4, 128)])
               && FitsSome(p6.free, 128)
               && var r := Release(p6, 320);
                  && r.granted.None? && r.pool.pending == [Request(4, 128)]
                  && FitsSome(r.pool.free, 128)
  {
    ThreeGrantsFill();
    var p4 := Reserve(ThreeGrants(), Request(3, 64)).0;
    assert p4.pending == [Request(3, 64)];
    var p5 := Reserve(p4, Request(4, 128)).0;
    assert p5 == ThreeGrants().(pending := [Request(3, 64), Request(4, 128)]);
    BigRelease(p5);
    SmallRelease(Release(p5, 64).pool);
  }

  function ThreeGrants(): Pool {
    Reserve(Reserve(Reserve(NewPool(64, 320), Request(0, 64)).0, Request(1, 64)).0, Request(2, 192)).0
  }

  lemma ThreeGrantsFill()
    ensures ThreeGrants() == Pool(64, 320, [], map[320 := 64, 256 := 64, 64 := 192], [])
  {
    var p0 := NewPool(64, 320);
    FitOne(Span(64, 320), 64);
    var p1 := Reserve(p0, Request(0, 64)).0;
    assert p1 == Pool(64, 320, [Span(64, 256)], map[320 := 64], []);
    FitOne(Span(64, 256), 64);
    var p2 := Reserve(p1, Request(1, 64)).0;
    assert p2 == Pool(64, 320, [Span(64, 192)], map[320 := 64, 256 := 64], []);
    FitOne(Span(64, 192), 192);
    assert ThreeGrants() == Reserve(p2, Request(2, 192)).0;
  }

  lemma BigRelease(p5: Pool)
    requires p5 == Pool(64, 320, [], map[320 := 64, 256 := 64, 64 := 192], [Request(3, 64), Request(4, 128)])
    ensures Release(p5, 64).pool
         == Pool(64, 320, [Span(128, 128)], map[320 := 64, 256 := 64, 64 := 64], [Request(4, 128)])
  {
    assert Absorb(p5.free, 64, 192) == Merged(0, 0, Span(64, 192));
    var p6 := Release(p5, 64).pool;
    assert p6.free == [Span(128, 128)] && p6.pending == [Request(4, 128)];
    assert p6.used == map[320 := 64, 256 := 64, 64 := 64];
  }

  lemma SmallRelease(p6: Pool)
    requires p6 == Pool(64, 320, [Span(128, 128)], map[320 := 64, 256 := 64, 64 := 64], [Request(4, 128)])
    ensures FitsSome(p6.free, 128)
    ensures var r := Release(p6, 320);
            r.granted.None? && r.pool.pending == [Request(4, 128)] && FitsSome(r.pool.free, 128)
  {
    assert 128 <= p6.free[0].size;
    assert LowerBound(p6.free, 320) == 1 by { assert p6.free[1..] == []; }
    assert Absorb(p6.free, 320, 64) == Merged(1, 1, Span(320, 64));
    var free' := Release(p6, 320).pool.free;
    assert free' == [Span(128, 128), Span(320, 64)];
    assert 128 <= free'[0].size;
  }

  lemma {:induction false} FitOne(s: Span, need: nat)
    requires need <= s.size
    ensures Fit([s], need) == 0
  {
    assert [s][..0] == [];
  }

  // ---------------------------------------------------------------------------------------
  // The class

  lemma {:induction false} ExactFitStays(free: seq<Span>, need: nat, i: nat)
    requires i < |free| && free[i].size == need && Fit(free[..i + 1], need) == i
    ensures Fit(free, need) == i
  {
    var n := |free| - 1;
    if i == n {
      assert free[..i + 1] == free;
    } else {
      assert free[..n][..i + 1] == free[..i + 1];
      ExactFitStays(free[..n], need, i);
    }
  }

  lemma JoinedSlices(free: seq<Span>, lo: nat, hi: nat)
    requires lo <= hi <= |free|
    ensures var r := free[..lo] + free[hi..];
            && r[..lo] == free[..lo] && r[lo..] == free[hi..]
            && (hi < |free| ==> r[lo] == free[hi] && r[lo + 1..] == free[hi + 1..])
            && (forall i :: lo <= i < |r| ==> r[i] == free[i - lo + hi])
  {
  }

  /** With the span below gone, those above are still in order. */
  lemma AboveInOrder(free: seq<Span>, at: nat, mid: nat, rest: seq<Span>)
    requires Coalesced(free) && at <= mid <= |free| && rest == free[..at] + free[mid..]
    ensures forall i, j :: at <= i < j < |rest| ==> rest[i].End() < rest[j].start
  {
    JoinedSlices(free, at, mid);
  }

  /** Absorbing below and then above is absorbing both. */
  lemma AbsorbedBoth(free: seq<Span>, ptr: int, held: nat, mid: nat, at: nat, start: int, size: nat,
                     rest: seq<Span>)
    requires mid <= |free| && at == (if mid > 0 && free[mid - 1].End() == ptr then mid - 1 else mid)
    requires rest == free[..at] + free[mid..]
    requires Span(start, size) == if at < mid then Span(free[at].start, held + free[at].size) else Span(ptr, held)
    ensures var above := at < |rest| && start + size == rest[at].start;
            var m := AbsorbAt(free, ptr, held, mid);
            && m == Merged(at, if above then mid + 1 else mid, Span(start, size + if above then rest[at].size else 0))
            && rest[..at] + rest[if above then at + 1 else at..] == free[..m.lo] + free[m.hi..]
  {
    JoinedSlices(free, at, mid);
  }

  lemma {:induction false} MergeReady(p: Pool, ptr: int)
    requires PoolInv(p) && ptr in p.used
    ensures Coalesced(p.free) && 0 < p.used[ptr]
    ensures forall i :: 0 <= i < |p.free| ==> 0 < p.free[i].size
    ensures var at := LowerBound(p.free, ptr); at > 0 ==> p.free[at - 1].End() <= ptr
  {
    Neighbours(p, ptr);
    assert forall i :: 0 <= i < |p.free| ==> Inside(p, p.free[i].start, p.free[i].size);
  }

  lemma ReleaseKeepsPool(p: Pool, ptr: int, after: Pool)
    requires PoolInv(p) && ptr in p.used && after == Release(p, ptr).pool
    ensures PoolInv(after)
  {
    ReleaseOk(p, ptr);
  }

  class SrcDataPool {
    const base: int
    const total: nat
    var freeList: seq<Span>
    var inUse: map<int, nat>
    var pending: seq<Request>

    ghost function View(): Pool
      reads this
    {
      Pool(base, total, freeList, inUse, pending)
    }

    ghost predicate Valid()
      reads this
    {
      PoolInv(View())
    }

    constructor (base: int, size: nat)
      requires 0 < base && 0 < size && size % 64 == 0
      ensures Valid() && View() == NewPool(base, size)
    {
      this.base, total := base, size;
      freeList, inUse, pending := [Span(base, size)], map[], [];
      new;
      NewPoolOk(base, size);
    }

    /** The walk over the free list: it stops at an exact match and otherwise remembers the smallest span above. */
    method FindFit(need: nat) returns (best: int)
      ensures best == Fit(freeList, need)
    {
      best := -1;
      var i := 0;
      while i < |freeList|
        invariant 0 <= i <= |freeList|
        invariant best == Fit(freeList[..i], need)
        invariant best >= 0 ==> freeList[best].size != need
      {
        assert freeList[..i + 1][..i] == freeList[..i];
        if freeList[i].size == need {
          ExactFitStays(freeList, need, i);
          return i;
        }
        if freeList[i].size > need && (best < 0 || freeList[i].size < freeList[best].size) {
          best := i;
        }
        i := i + 1;
      }
      assert freeList[..i] == freeList;
    }

    /** Cuts `need` bytes from the end of free span `at`. */
    method Take(at: nat, need: nat) returns (srcptr: int)
      requires at < |freeList| && need <= freeList[at].size
      modifies this`freeList, this`inUse
      ensures srcptr == old(freeList)[at].End() - need
      ensures inUse == old(inUse)[srcptr := need]
      ensures var f := old(freeList)[at];
              freeList == Replaced(old(freeList), at, at + 1,
                                   if f.size == need then None else Some(Span(f.start, f.size - need)))
    {
      var span := freeList[at];
      if span.size == need {
        srcptr := span.start;
        freeList := freeList[..at] + freeList[at + 1..];
      } else {
        srcptr := span.start + (span.size - need);
        freeList := freeList[at := Span(span.start, span.size - need)];
      }
      inUse := inUse[srcptr := need];
    }

    /** A span for `sizeNeeded` bytes, or 0 if somebody is already waiting or nothing is large enough. */
    method AllocSrcptr(sizeNeeded: nat) returns (srcptr: int)
      requires Valid() && 0 < sizeNeeded <= total
      modifies this`freeList, this`inUse
      ensures Valid()
      ensures (View(), srcptr) == Alloc(old(View()), sizeNeeded)
    {
      ReserveOk(View(), Request(0, sizeNeeded));
      srcptr := TryAlloc(sizeNeeded);
    }

    method TryAlloc(sizeNeeded: nat) returns (srcptr: int)
      modifies this`freeList, this`inUse
      ensures (View(), srcptr) == Alloc(old(View()), sizeNeeded)
    {
      if pending != [] {
        return 0;
      }
      var need := if sizeNeeded % 64 != 0 then sizeNeeded + (64 - sizeNeeded % 64) else sizeNeeded;
      var at := FindFit(need);
      if at < 0 {
        return 0;
      }
      srcptr := Take(at, need);
    }

    /** Queues a request whose allocation has just failed. */
    method AddPending(msg: Request)
      requires Valid() && 0 < msg.size <= total && Alloc(View(), msg.size).1 == 0
      modifies this`pending
      ensures Valid()
      ensures View() == Reserve(old(View()), msg).0
    {
      ReserveOk(View(), msg);
      pending := pending + [msg];
    }

    /** Absorbs the free spans that end where the released one starts. */
    method AbsorbBelow(ptr: int, held: nat, mid: nat) returns (at: nat, start: int, size: nat)
      requires 0 < held && Coalesced(freeList) && mid <= |freeList|
      requires forall i :: 0 <= i < |freeList| ==> 0 < freeList[i].size
      modifies this`freeList
      ensures at == if mid > 0 && old(freeList)[mid - 1].End() == ptr then mid - 1 else mid
      ensures freeList == old(freeList)[..at] + old(freeList)[mid..]
      ensures if at < mid then start == old(freeList)[at].start && size == held + old(freeList)[at].size
              else start == ptr && size == held
    {
      at, start, size := mid, ptr, held;
      ghost var free0 := freeList;
      assert freeList == free0[..at] + free0[mid..];
      while at > 0
        invariant mid - 1 <= at <= mid && freeList == free0[..at] + free0[mid..]
        invariant if at < mid then free0[at].End() == ptr && start == free0[at].start && size == held + free0[at].size
                  else start == ptr && size == held
      {
        var below := freeList[at - 1];
        assert at < mid ==> free0[at - 1].End() < free0[at].start;
        if below.End() != start {
          break;
        }
        start, size := below.start, size + below.size;
        freeList := freeList[..at - 1] + freeList[at..];
        at := at - 1;
      }
    }

    /** Absorbs the free spans that start where the span [start, start + held) ends. */
    method AbsorbAbove(start: int, held: nat, at: nat) returns (size: nat)
      requires at <= |freeList|
      requires forall i, j :: at <= i < j < |freeList| ==> freeList[i].End() < freeList[j].start
      modifies this`freeList
      ensures var above := at < |old(freeList)| && start + held == old(freeList)[at].start;
              && size == held + (if above then old(freeList)[at].size else 0)
              && freeList == old(freeList)[..at] + old(freeList)[if above then at + 1 else at..]
    {
      size := held;
      ghost var free0, hi := freeList, at;
      assert freeList == free0[..at] + free0[hi..];
      while at < |freeList|
        invariant at <= hi <= at + 1 && hi <= |free0| && freeList == free0[..at] + free0[hi..]
        invariant size == held + (if at < hi then free0[at].size else 0)
        invariant at < hi ==> free0[at].start == start + held
      {
        var above := freeList[at];
        assert above == free0[hi];
        assert at < hi ==> free0[at].End() < free0[hi].start;
        if start + size != above.start {
          break;
        }
        size := size + above.size;
        freeList := freeList[..at] + freeList[at + 1..];
        hi := hi + 1;
      }
    }

    /** Merges a released span with the free spans around it; its place in the free list is `at`. */
    method Coalesce(ptr: int, held: nat, mid: nat) returns (at: nat, start: int, size: nat)
      requires 0 < held && Coalesced(freeList) && mid <= |freeList|
      requires forall i :: 0 <= i < |freeList| ==> 0 < freeList[i].size
      requires mid > 0 ==> freeList[mid - 1].End() <= ptr
      modifies this`freeList
      ensures var m := AbsorbAt(old(freeList), ptr, held, mid);
              && at == m.lo && Span(start, size) == m.span
              && freeList == old(freeList)[..m.lo] + old(freeList)[m.hi..]
    {
      ghost var free0 := freeList;
      at, start, size := AbsorbBelow(ptr, held, mid);
      ghost var size0, rest := size, freeList;
      AboveInOrder(free0, at, mid, rest);
      size := AbsorbAbove(start, size, at);
      AbsorbedBoth(free0, ptr, held, mid, at, start, size0, rest);
    }

    /** Gives a span back; the result lists the waiting requests that got a span of their own. */
    method ReleaseSrcptr(srcptr: int) returns (satisfied: seq<(Request, int)>)
      requires Valid() && srcptr in inUse
      modifies this`freeList, this`inUse, this`pending
      ensures Valid()
      ensures View() == Release(old(View()), srcptr).pool
      ensures satisfied == match Release(old(View()), srcptr).granted case None => [] case Some(g) => [g]
    {
      satisfied := ReleaseAndServe(srcptr);
      if satisfied != [] && pending != [] {
        Retry();
      }
    }

    method ReleaseAndServe(srcptr: int) returns (satisfied: seq<(Request, int)>)
      requires Valid() && srcptr in inUse
      modifies this`freeList, this`inUse, this`pending
      ensures Valid()
      ensures View() == Release(old(View()), srcptr).pool
      ensures satisfied == match Release(old(View()), srcptr).granted case None => [] case Some(g) => [g]
    {
      ghost var p, m := View(), Absorb(freeList, srcptr, inUse[srcptr]);
      var at, start, size := TakeBack(srcptr);
      satisfied := Serve(at, start, size, p, srcptr, m);
      ReleaseKeepsPool(p, srcptr, View());
    }

    /** The span is no longer in use, and has absorbed its free neighbours. */
    method TakeBack(srcptr: int) returns (at: nat, start: int, size: nat)
      requires Valid() && srcptr in inUse
      modifies this`freeList, this`inUse
      ensures var p := old(View());
              var m := Absorb(p.free, srcptr, p.used[srcptr]);
              && at == m.lo && Span(start, size) == m.span
              && View() == p.(free := p.free[..m.lo] + p.free[m.hi..], used := p.used - {srcptr})
    {
      MergeReady(View(), srcptr);
      var held := inUse[srcptr];
      inUse := inUse - {srcptr};
      var mid := LowerBound(freeList, srcptr);
      at, start, size := Coalesce(srcptr, held, mid);
    }

    /** The retry loop of the source: its first attempt fails, because somebody is still waiting. */
    method Retry()
      requires Valid() && pending != []
      modifies this`freeList, this`inUse
      ensures Valid() && View() == old(View())
    {
      var ptr := AllocSrcptr(pending[0].size);
      assert ptr == 0;
    }

    /** Hands the merged span to the front of the queue if it is large enough, or enters it into the free list. */
    method Serve(at: nat, start: int, size: nat, ghost p: Pool, ghost srcptr: int, ghost m: Merged)
      returns (satisfied: seq<(Request, int)>)
      requires m.lo <= m.hi <= |p.free| && srcptr in p.used
      requires at == m.lo && Span(start, size) == m.span
      requires View() == p.(free := p.free[..m.lo] + p.free[m.hi..], used := p.used - {srcptr})
      modifies this`freeList, this`inUse, this`pending
      ensures View() == ReleaseMerged(p, srcptr, m).pool
      ensures satisfied == match ReleaseMerged(p, srcptr, m).granted case None => [] case Some(g) => [g]
    {
      satisfied := [];
      if pending != [] && size >= pending[0].size {
        var msg := pending[0];
        pending := pending[1..];
        var act := RoundUp(msg.size);
        inUse := inUse[start := act];
        satisfied := [(msg, start)];
        if size > act {
          PutFree(at, Span(start + act, size - act), p.free, m.hi);
        } else {
          assert freeList == Replaced(p.free, m.lo, m.hi, None);
        }
      } else {
        PutFree(at, Span(start, size), p.free, m.hi);
      }
    }

    /** Enters a span into the free list, which was `free` before its neighbours `free[at..hi]` were absorbed. */
    method PutFree(at: nat, span: Span, ghost free: seq<Span>, ghost hi: nat)
      requires at <= hi <= |free| && freeList == free[..at] + free[hi..]
      modifies this`freeList
      ensures freeList == Replaced(free, at, hi, Some(span))
    {
      JoinedSlices(free, at, hi);
      freeList := freeList[..at] + [span] + freeList[at..];
    }
  }
}
