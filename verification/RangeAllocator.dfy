/** `MemoryImpl::alloc_bytes_local` and `free_bytes_local`: the free blocks of one memory. */
module RangeAllocator {
  import opened Bytes
  import opened FreeList

  /** No empty span, and nothing left to coalesce. */
  ghost predicate Canonical(free: seq<Span>) {
    Coalesced(free) && forall i :: 0 <= i < |free| ==> 0 < free[i].size
  }

  /** "Make bad offsets really obvious": what an allocation of zero bytes gets. */
  const ZERO_SIZE_INSTANCE_OFFSET: nat := 0x4_0000_0000_0000

  function Padded(alignment: nat, n: nat): (r: nat)
    ensures n <= r
  {
    if alignment > 0 && n % alignment > 0 then n + (alignment - n % alignment) else n
  }

  /** Padding gives the least multiple of the alignment that has room. */
  lemma PaddedIsLeast(alignment: nat, n: nat)
    requires 0 < alignment
    ensures Padded(alignment, n) % alignment == 0 && Padded(alignment, n) < n + alignment
  {
    if n % alignment > 0 {
      assert n + (alignment - n % alignment) == (n / alignment + 1) * alignment;
      MultipleMod(n / alignment + 1, alignment);
    }
  }

  lemma MultipleMod(k: int, a: nat)
    requires 0 < a
    ensures (k * a) % a == 0
  {
    var x := k * a;
    SmallMultiple(k - x / a, a, x % a);
  }

  lemma SmallMultiple(e: int, a: nat, m: int)
    requires 0 <= m < a && m == e * a
    ensures m == 0
  {
    if e >= 1 { MulMono(1, e, a); }
    if e <= -1 { MulMono(e, -1, a); }
  }

  /** The last block, in address order, with at least `need` bytes. */
  function LastFit(free: seq<Span>, need: nat): (r: Option<nat>)
    ensures r.None? ==> forall i :: 0 <= i < |free| ==> free[i].size < need
    ensures r.Some? ==>
              && r.value < |free| && free[r.value].size >= need
              && forall i :: r.value < i < |free| ==> free[i].size < need
  {
    if free == [] then None
    else if free[|free| - 1].size >= need then Some(|free| - 1)
    else LastFit(free[..|free| - 1], need)
  }

  lemma {:induction false} LastFitIs(free: seq<Span>, need: nat, i: nat)
    requires i < |free| && forall j :: i < j < |free| ==> free[j].size < need
    ensures free[i].size >= need ==> LastFit(free, need) == Some(i)
  {
  }

  /** Span `i` without its last `need` bytes. */
  function Carve(free: seq<Span>, i: nat, need: nat): seq<Span>
    requires i < |free| && need <= free[i].size
  {
    if free[i].size == need then free[..i] + free[i + 1..]
    else free[i := Span(free[i].start, free[i].size - need)]
  }

  lemma {:induction false} LowerBoundIs(free: seq<Span>, offset: int)
    ensures var k := LowerBound(free, offset);
            (k < |free| ==> free[k].start >= offset) && forall i :: 0 <= i < k ==> free[i].start < offset
  {
    if !(free == [] || free[0].start >= offset) {
      LowerBoundIs(free[1..], offset);
    }
  }

  /** The free blocks after [offset, offset + n) joined them, merged with a neighbour on either side. */
  function Insert(free: seq<Span>, offset: int, n: nat): seq<Span> {
    var m := Absorb(free, offset, n);
    Replaced(free, m.lo, m.hi, Some(m.span))
  }

  function Max(a: int, b: int): int {
    if a < b then b else a
  }

  class MemoryImpl {
    const size: nat
    const alignment: nat
    var freeBlocks: seq<Span>
    var usage: int
    var peakUsage: int
    var peakFootprint: int

    constructor (size: nat, alignment: nat)
      ensures this.size == size && this.alignment == alignment && usage == 0
      ensures freeBlocks == Whole(size)
    {
      this.size := size;
      this.alignment := alignment;
      usage, peakUsage, peakFootprint := 0, 0, 0;
      freeBlocks := if size > 0 then [Span(0, size)] else [];
    }

    /** The highest address at which a block has room, or -1. */
    method AllocBytesLocal(bytes: nat) returns (offset: int)
      modifies this
      ensures var need := Padded(alignment, bytes);
              var fit := LastFit(old(freeBlocks), need);
              if bytes > 0 && fit.Some? then
                && offset == old(freeBlocks)[fit.value].End() - need
                && freeBlocks == Carve(old(freeBlocks), fit.value, need) && usage == old(usage) + need
                && peakUsage == Max(old(peakUsage), usage) && peakFootprint == Max(old(peakFootprint), size - offset)
              else
                && offset == (if bytes == 0 then size + ZERO_SIZE_INSTANCE_OFFSET else -1)
                && freeBlocks == old(freeBlocks) && usage == old(usage)
                && peakUsage == old(peakUsage) && peakFootprint == old(peakFootprint)
    {
      if bytes == 0 {
        return size + ZERO_SIZE_INSTANCE_OFFSET;
      }
      var need := Padded(alignment, bytes);
      var it := |freeBlocks|;
      while it > 0
        invariant 0 <= it <= |freeBlocks| && freeBlocks == old(freeBlocks) && usage == old(usage)
        invariant peakUsage == old(peakUsage) && peakFootprint == old(peakFootprint)
        invariant forall i :: it <= i < |freeBlocks| ==> freeBlocks[i].size < need
      {
        it := it - 1;
        LastFitIs(freeBlocks, need, it);
        var b := freeBlocks[it];
        if b.size == need {
          offset := b.start;
          freeBlocks := freeBlocks[..it] + freeBlocks[it + 1..];
          NoteUse(need, offset);
          return;
        }
        if b.size > need {
          var leftover := b.size - need;
          offset := b.start + leftover;
          freeBlocks := freeBlocks[it := Span(b.start, leftover)];
          NoteUse(need, offset);
          return;
        }
      }
      offset := -1;
    }

    method NoteUse(need: nat, offset: int)
      modifies this`usage, this`peakUsage, this`peakFootprint
      ensures usage == old(usage) + need
      ensures peakUsage == Max(old(peakUsage), usage) && peakFootprint == Max(old(peakFootprint), size - offset)
    {
      usage := usage + need;
      if usage > peakUsage {
        peakUsage := usage;
      }
      var footprint := size - offset;
      if footprint > peakFootprint {
        peakFootprint := footprint;
      }
    }

    /** The source's asserts say that what is freed overlaps neither neighbour. */
    method FreeBytesLocal(offset: int, bytes: nat)
      requires bytes == 0 ==> offset == size + ZERO_SIZE_INSTANCE_OFFSET
      requires bytes > 0 ==> FreeAsserts(freeBlocks, offset, Padded(alignment, bytes))
      modifies this`freeBlocks, this`usage
      ensures bytes == 0 ==> freeBlocks == old(freeBlocks) && usage == old(usage)
      ensures bytes > 0 ==>
        && freeBlocks == Insert(old(freeBlocks), offset, Padded(alignment, bytes))
        && usage == old(usage) - Padded(alignment, bytes)
    {
      if bytes == 0 {
        return;
      }
      var n := Padded(alignment, bytes);
      usage := usage - n;
      AddFree(offset, n);
    }

    method AddFree(offset: int, size: nat)
      requires FreeAsserts(freeBlocks, offset, size)
      modifies this`freeBlocks
      ensures freeBlocks == Insert(old(freeBlocks), offset, size)
    {
      var after := LowerBound(freeBlocks, offset);
      InsertIs(freeBlocks, offset, size, after);
      AddFreeAt(offset, size, after);
    }

    /** The branches of `free_bytes_local`; `after` is the first block that does not start before `offset`. */
    method AddFreeAt(offset: int, size: nat, after: nat)
      requires after <= |freeBlocks|
      requires after < |freeBlocks| ==> offset + size <= freeBlocks[after].start
      requires after > 0 ==> freeBlocks[after - 1].End() <= offset
      modifies this`freeBlocks
      ensures freeBlocks == InsertAt(old(freeBlocks), offset, size, after)
    {
      var n := size;
      InsertInTwoSteps(freeBlocks, offset, n, after);
      if |freeBlocks| > 0 {
        if after < |freeBlocks| {
          assert offset + n <= freeBlocks[after].start;
          if offset + n == freeBlocks[after].start {
            n := n + freeBlocks[after].size;
            freeBlocks := freeBlocks[..after] + freeBlocks[after + 1..];
          }
          if after == 0 {
            freeBlocks := freeBlocks[..after] + [Span(offset, n)] + freeBlocks[after..];
          } else {
            AddBehind(offset, n, after);
          }
        } else {
          AddBehind(offset, n, after);
        }
      } else {
        freeBlocks := [Span(offset, n)];
      }
    }

    /** Joins the block before, if it ends where the range starts, or becomes a block of its own. */
    method AddBehind(offset: int, n: nat, after: nat)
      requires 0 < after <= |freeBlocks| && freeBlocks[after - 1].End() <= offset
      modifies this`freeBlocks
      ensures freeBlocks == Behind(old(freeBlocks), offset, n, after)
    {
      var before := after - 1;
      assert freeBlocks[before].End() <= offset;
      if freeBlocks[before].End() == offset {
        freeBlocks := freeBlocks[before := freeBlocks[before].Grown(n)];
      } else {
        freeBlocks := freeBlocks[..after] + [Span(offset, n)] + freeBlocks[after..];
      }
    }
  }

  /** Insert, case by case. */
  function InsertAt(free: seq<Span>, offset: int, n: nat, k: nat): seq<Span>
    requires k <= |free|
  {
    var before, after := k > 0 && free[k - 1].End() == offset, k < |free| && offset + n == free[k].start;
    var size := if after then n + free[k].size else n;
    var rest := free[if after then k + 1 else k..];
    if before then free[..k - 1] + [Span(free[k - 1].start, free[k - 1].size + size)] + rest
    else free[..k] + [Span(offset, size)] + rest
  }

  lemma {:induction false} InsertIs(free: seq<Span>, offset: int, n: nat, k: nat)
    requires k == LowerBound(free, offset)
    ensures Insert(free, offset, n) == InsertAt(free, offset, n, k)
  {
  }

  /** The range behind the first `k` blocks: joined to the block before, if that ends where the range starts. */
  function Behind(free: seq<Span>, offset: int, n: nat, k: nat): seq<Span>
    requires k <= |free|
  {
    if k > 0 && free[k - 1].End() == offset then free[k - 1 := free[k - 1].Grown(n)]
    else free[..k] + [Span(offset, n)] + free[k..]
  }

  /** First the block after is absorbed, if the range ends where it starts; then the block before is looked at. */
  lemma InsertInTwoSteps(free: seq<Span>, offset: int, n: nat, k: nat)
    requires k <= |free|
    ensures InsertAt(free, offset, n, k)
            == if k < |free| && offset + n == free[k].start
               then Behind(free[..k] + free[k + 1..], offset, n + free[k].size, k) else Behind(free, offset, n, k)
  {
    if k < |free| && offset + n == free[k].start {
      var less := free[..k] + free[k + 1..];
      Erased(free, k, less);
      BehindParts(less, offset, n + free[k].size, k);
    } else {
      BehindParts(free, offset, n, k);
    }
  }

  lemma BehindParts(free: seq<Span>, offset: int, n: nat, k: nat)
    requires k <= |free|
    ensures Behind(free, offset, n, k)
            == if k > 0 && free[k - 1].End() == offset then free[..k - 1] + [free[k - 1].Grown(n)] + free[k..]
               else free[..k] + [Span(offset, n)] + free[k..]
  {
  }

  lemma Erased(free: seq<Span>, k: nat, less: seq<Span>)
    requires k < |free| && less == free[..k] + free[k + 1..]
    ensures less[..k] == free[..k] && less[k..] == free[k + 1..]
    ensures k > 0 ==> less[k - 1] == free[k - 1] && less[..k - 1] == free[..k - 1]
  {
  }

  predicate FreeAsserts(free: seq<Span>, offset: int, n: nat) {
    var k := LowerBound(free, offset);
    (k < |free| ==> offset + n <= free[k].start) && (k > 0 ==> free[k - 1].End() <= offset)
  }

  // ---------------------------------------------------------------------------------------
  // What the two operations do to the set of free bytes

  ghost predicate ApartFrom(free: seq<Span>, offset: int, n: nat) {
    forall i :: 0 <= i < |free| ==> Apart(free[i].start, free[i].size, offset, n)
  }

  /** Where a freed range falls between the free blocks; the source's asserts hold. */
  lemma {:induction false} BoundSplits(free: seq<Span>, offset: int, n: nat)
    requires Canonical(free) && 0 < n && ApartFrom(free, offset, n)
    ensures var k := LowerBound(free, offset);
            && (forall i :: 0 <= i < k ==> free[i].End() <= offset)
            && (forall i :: k <= i < |free| ==> offset + n <= free[i].start)
    ensures FreeAsserts(free, offset, n)
  {
    var k := LowerBound(free, offset);
    LowerBoundIs(free, offset);
    forall i | 0 <= i < |free|
      ensures if i < k then free[i].End() <= offset else offset + n <= free[i].start
    {
      assert Apart(free[i].start, free[i].size, offset, n);
      if i > k {
        assert free[k].End() < free[i].start;
      }
    }
  }

  lemma InFreeCat(p: seq<Span>, q: seq<Span>, x: int)
    ensures FreeAt(p + q, x) <==> FreeAt(p, x) || FreeAt(q, x)
  {
    if i :| 0 <= i < |p| && In(p[i], x) {
      assert In((p + q)[i], x);
    }
    if i :| 0 <= i < |q| && In(q[i], x) {
      assert In((p + q)[|p| + i], x);
    }
    if i :| 0 <= i < |p + q| && In((p + q)[i], x) {
      assert if i < |p| then In(p[i], x) else In(q[i - |p|], x);
    }
  }

  lemma InFreeOne(m: Span, x: int)
    ensures FreeAt([m], x) <==> In(m, x)
  {
    assert In(m, x) ==> In([m][0], x);
  }

  /** The blocks before `a`, those from `a` to `b`, and those from `b` on. */
  lemma Around(free: seq<Span>, a: nat, b: nat, x: int)
    requires a <= b <= |free|
    ensures FreeAt(free, x) <==> FreeAt(free[..a], x) || FreeAt(free[a..b], x) || FreeAt(free[b..], x)
  {
    assert free == free[..a] + free[a..b] + free[b..];
    InFreeCat(free[..a] + free[a..b], free[b..], x);
    InFreeCat(free[..a], free[a..b], x);
  }

  lemma AroundOne(p: seq<Span>, m: Span, q: seq<Span>, x: int)
    ensures FreeAt(p + [m] + q, x) <==> FreeAt(p, x) || In(m, x) || FreeAt(q, x)
  {
    InFreeCat(p + [m], q, x);
    InFreeCat(p, [m], x);
    InFreeOne(m, x);
  }

  /** None, one or two blocks from `a` on. */
  lemma Middle(free: seq<Span>, a: nat, b: nat, x: int)
    requires a <= b <= a + 2 && b <= |free|
    ensures FreeAt(free[a..b], x) <==> (a < b && In(free[a], x)) || (a + 1 < b && In(free[a + 1], x))
  {
    if b == a + 1 {
      assert free[a..b] == [free[a]];
      InFreeOne(free[a], x);
    } else if b == a + 2 {
      assert free[a..b] == [free[a]] + [free[a + 1]];
      InFreeCat([free[a]], [free[a + 1]], x);
      InFreeOne(free[a], x);
      InFreeOne(free[a + 1], x);
    }
  }

  /** `mid`, if any, leaves a gap on both sides. */
  lemma ReplacedCanonical(free: seq<Span>, a: nat, b: nat, mid: Option<Span>)
    requires Canonical(free) && a <= b <= |free| && (mid.Some? ==> 0 < mid.value.size)
    requires mid.Some? ==> forall i :: 0 <= i < a ==> free[i].End() < mid.value.start
    requires mid.Some? ==> forall i :: b <= i < |free| ==> mid.value.End() < free[i].start
    ensures Canonical(Replaced(free, a, b, mid))
  {
    ReplacedCoalesced(free, a, b, mid);
    var r := Replaced(free, a, b, mid);
    forall k | 0 <= k < |r|
      ensures 0 < r[k].size
    {
      ReplacedEntries(free, a, b, mid, k);
    }
  }

  /** Freeing keeps the list coalesced and makes exactly the freed bytes free. */
  lemma InsertAdds(free: seq<Span>, offset: int, n: nat)
    requires Canonical(free) && 0 < n && ApartFrom(free, offset, n)
    ensures Canonical(Insert(free, offset, n))
    ensures forall x :: FreeAt(Insert(free, offset, n), x) <==> FreeAt(free, x) || offset <= x < offset + n
  {
    var Merged(a, b, m) := Absorb(free, offset, n);
    MergedFits(free, offset, n, a, b, m);
    ReplacedCanonical(free, a, b, Some(m));
    forall x
      ensures FreeAt(Insert(free, offset, n), x) <==> FreeAt(free, x) || offset <= x < offset + n
    {
      MergedCovers(free, offset, n, a, b, m, x);
      ReplaceCovers(free, a, b, m, offset, n, x);
    }
  }

  lemma MergedFits(free: seq<Span>, offset: int, n: nat, a: nat, b: nat, m: Span)
    requires Canonical(free) && 0 < n && ApartFrom(free, offset, n)
    requires Absorb(free, offset, n) == Merged(a, b, m)
    ensures 0 < m.size
    ensures forall i :: 0 <= i < a ==> free[i].End() < m.start
    ensures forall i :: b <= i < |free| ==> m.End() < free[i].start
  {
    BoundSplits(free, offset, n);
    forall i | 0 <= i < a
      ensures free[i].End() < m.start
    {
      assert free[i].End() <= offset;
    }
    forall i | b <= i < |free|
      ensures m.End() < free[i].start
    {
      assert offset + n <= free[i].start;
    }
  }

  lemma MergedCovers(free: seq<Span>, offset: int, n: nat, a: nat, b: nat, m: Span, x: int)
    requires Canonical(free) && 0 < n && ApartFrom(free, offset, n)
    requires Absorb(free, offset, n) == Merged(a, b, m)
    ensures In(m, x) <==> offset <= x < offset + n || (a < b && In(free[a], x)) || (a + 1 < b && In(free[a + 1], x))
  {
  }

  /** Putting `m` in the place of none, one or two blocks. */
  lemma ReplaceCovers(free: seq<Span>, a: nat, b: nat, m: Span, offset: int, n: nat, x: int)
    requires a <= b <= a + 2 && b <= |free|
    requires In(m, x) <==> offset <= x < offset + n || (a < b && In(free[a], x)) || (a + 1 < b && In(free[a + 1], x))
    ensures FreeAt(free[..a] + [m] + free[b..], x) <==> FreeAt(free, x) || offset <= x < offset + n
  {
    Around(free, a, b, x);
    AroundOne(free[..a], m, free[b..], x);
    Middle(free, a, b, x);
  }

  /** Allocating keeps the list coalesced and takes exactly the allocated bytes, all of them free before. */
  lemma CarveTakes(free: seq<Span>, i: nat, need: nat)
    requires Canonical(free) && i < |free| && 0 < need <= free[i].size
    ensures Canonical(Carve(free, i, need))
    ensures var offset := free[i].End() - need;
            forall x :: FreeAt(Carve(free, i, need), x) <==> FreeAt(free, x) && !(offset <= x < offset + need)
  {
    var left := Span(free[i].start, free[i].size - need);
    CarveCanonical(free, i, need, left);
    forall x
      ensures FreeAt(Carve(free, i, need), x) <==> FreeAt(free, x) && !(left.End() <= x < free[i].End())
    {
      CarveTakesAt(free, i, need, left, x);
    }
  }

  lemma CarveCanonical(free: seq<Span>, i: nat, need: nat, left: Span)
    requires Canonical(free) && i < |free| && 0 < need <= free[i].size
    requires left == Span(free[i].start, free[i].size - need)
    ensures Canonical(Carve(free, i, need))
  {
    var mid := if left.size == 0 then None else Some(left);
    CarveIsReplaced(free, i, need, mid);
    LeftStaysApart(free, i, left);
    ReplacedCanonical(free, i, i + 1, mid);
  }

  lemma CarveIsReplaced(free: seq<Span>, i: nat, need: nat, mid: Option<Span>)
    requires i < |free| && need <= free[i].size
    requires mid == if free[i].size == need then None else Some(Span(free[i].start, free[i].size - need))
    ensures Carve(free, i, need) == Replaced(free, i, i + 1, mid)
  {
    if mid.Some? {
      assert free[i := mid.value] == free[..i] + [mid.value] + free[i + 1..];
    }
  }

  lemma LeftStaysApart(free: seq<Span>, i: nat, left: Span)
    requires Canonical(free) && i < |free| && left.start == free[i].start && left.size <= free[i].size
    ensures forall j :: 0 <= j < i ==> free[j].End() < left.start
    ensures forall j :: i < j < |free| ==> left.End() < free[j].start
  {
  }

  lemma CarveTakesAt(free: seq<Span>, i: nat, need: nat, left: Span, x: int)
    requires Canonical(free) && i < |free| && 0 < need <= free[i].size
    requires left == Span(free[i].start, free[i].size - need)
    ensures FreeAt(Carve(free, i, need), x) <==> FreeAt(free, x) && !(left.End() <= x < free[i].End())
  {
    Around(free, i, i + 1, x);
    Middle(free, i, i + 1, x);
    OnlyOneBlock(free, i, x);
    if left.size == 0 {
      InFreeCat(free[..i], free[i + 1..], x);
    } else {
      assert free[i := left] == free[..i] + [left] + free[i + 1..];
      AroundOne(free[..i], left, free[i + 1..], x);
    }
  }

  /** A byte of block `i` is in no block before or behind it. */
  lemma OnlyOneBlock(free: seq<Span>, i: nat, x: int)
    requires Canonical(free) && i < |free|
    ensures In(free[i], x) ==> !FreeAt(free[..i], x) && !FreeAt(free[i + 1..], x)
  {
    assert forall j :: i + 1 <= j < |free| ==> free[i + 1..][j - i - 1] == free[j];
  }

  /** A set of bytes has one coalesced list: the list forgets the history that led to it. */
  lemma {:induction false} CanonicalUnique(a: seq<Span>, b: seq<Span>)
    requires Canonical(a) && Canonical(b) && forall x :: FreeAt(a, x) <==> FreeAt(b, x)
    ensures a == b
    decreases |a|
  {
    if a == [] || b == [] {
      if a != [] { NotEmpty(a); }
      if b != [] { NotEmpty(b); }
    } else {
      FirstSame(a, b);
      RestCovers(a);
      RestCovers(b);
      CanonicalUnique(a[1..], b[1..]);
      assert a == [a[0]] + a[1..] && b == [b[0]] + b[1..];
    }
  }

  lemma NotEmpty(a: seq<Span>)
    requires Canonical(a) && a != []
    ensures FreeAt(a, a[0].start)
  {
    assert In(a[0], a[0].start);
  }

  lemma FirstSame(a: seq<Span>, b: seq<Span>)
    requires Canonical(a) && Canonical(b) && a != [] && b != [] && forall x :: FreeAt(a, x) <==> FreeAt(b, x)
    ensures a[0] == b[0]
  {
    assert In(a[0], a[0].start) && In(b[0], b[0].start);
    assert FreeAt(a, a[0].start) && FreeAt(b, b[0].start);
    NotBefore(a, b[0].start);
    NotBefore(b, a[0].start);
    if a[0].End() < b[0].End() {
      assert In(b[0], a[0].End());
      NotAfter(a);
      assert false;
    }
    if b[0].End() < a[0].End() {
      assert In(a[0], b[0].End());
      NotAfter(b);
      assert false;
    }
  }

  lemma NotBefore(a: seq<Span>, x: int)
    requires Canonical(a) && FreeAt(a, x)
    ensures a != [] && a[0].start <= x
  {
    var i :| 0 <= i < |a| && In(a[i], x);
    assert i > 0 ==> a[0].End() < a[i].start;
  }

  /** The byte behind a coalesced block is not free. */
  lemma NotAfter(a: seq<Span>)
    requires Canonical(a) && a != []
    ensures !FreeAt(a, a[0].End())
  {
    assert forall i :: 0 < i < |a| ==> a[0].End() < a[i].start;
  }

  lemma RestCovers(a: seq<Span>)
    requires Canonical(a) && a != []
    ensures Canonical(a[1..]) && forall x :: FreeAt(a[1..], x) <==> FreeAt(a, x) && !In(a[0], x)
  {
    forall x
      ensures FreeAt(a[1..], x) <==> FreeAt(a, x) && !In(a[0], x)
    {
      if FreeAt(a[1..], x) {
        var i :| 0 <= i < |a[1..]| && In(a[1..][i], x);
        assert In(a[i + 1], x) && a[0].End() < a[i + 1].start;
      }
      if FreeAt(a, x) && !In(a[0], x) {
        var i :| 0 <= i < |a| && In(a[i], x);
        assert In(a[1..][i - 1], x);
      }
    }
  }

  // ---------------------------------------------------------------------------------------
  // Any sequence of allocations and frees

  /** `live` maps the offset of an allocation to the size it was asked for; `zeros` counts those of no bytes. */
  datatype State = State(size: nat, alignment: nat, free: seq<Span>, usage: int, live: map<int, nat>, zeros: nat)

  datatype Step = Alloc(bytes: nat) | Free(offset: int, bytes: nat)

  function Whole(size: nat): seq<Span> {
    if size > 0 then [Span(0, size)] else []
  }

  /** Callers free what they were given, with the size they asked for. */
  predicate Enabled(s: State, step: Step) {
    match step
    case Alloc(bytes) => true
    case Free(offset, bytes) =>
      if bytes == 0 then s.zeros > 0 && offset == s.size + ZERO_SIZE_INSTANCE_OFFSET
      else offset in s.live && s.live[offset] == bytes
  }

  function Held(s: State, offset: int): nat
    requires offset in s.live
  {
    Padded(s.alignment, s.live[offset])
  }

  function Apply(s: State, step: Step): State
    requires Enabled(s, step)
  {
    match step
    case Alloc(bytes) =>
      if bytes == 0 then s.(zeros := s.zeros + 1) else
        var need := Padded(s.alignment, bytes);
        var fit := LastFit(s.free, need);
        if fit.None? then s else AfterAlloc(s, bytes, need, fit.value, s.free[fit.value].End() - need)
    case Free(offset, bytes) =>
      if bytes == 0 then s.(zeros := s.zeros - 1) else
        var n := Held(s, offset);
        s.(free := Insert(s.free, offset, n), usage := s.usage - n, live := s.live - {offset})
  }

  function AfterAlloc(s: State, bytes: nat, need: nat, i: nat, offset: int): State
    requires i < |s.free| && need <= s.free[i].size
  {
    s.(free := Carve(s.free, i, need), usage := s.usage + need, live := s.live[offset := bytes])
  }

  ghost predicate InLive(s: State, x: int) {
    exists o :: o in s.live && In(Span(o, Held(s, o)), x)
  }

  /** Live allocations are inside the memory and apart, and the free bytes are exactly the rest. */
  ghost predicate Inv(s: State) {
    && Canonical(s.free)
    && (forall o :: o in s.live ==> 0 < s.live[o] && 0 <= o && o + Held(s, o) <= s.size)
    && (forall o, p :: o in s.live && p in s.live && o != p ==> Apart(o, Held(s, o), p, Held(s, p)))
    && (forall x :: FreeAt(s.free, x) <==> 0 <= x < s.size && !InLive(s, x))
  }

  lemma FreeBlockInside(s: State, i: nat)
    requires Inv(s) && i < |s.free|
    ensures 0 <= s.free[i].start && s.free[i].End() <= s.size
  {
    assert In(s.free[i], s.free[i].start) && In(s.free[i], s.free[i].End() - 1);
    assert FreeAt(s.free, s.free[i].start) && FreeAt(s.free, s.free[i].End() - 1);
  }

  lemma LiveApartFromFree(s: State, o: int)
    requires Inv(s) && o in s.live
    ensures ApartFrom(s.free, o, Held(s, o))
  {
    forall i | 0 <= i < |s.free|
      ensures Apart(s.free[i].start, s.free[i].size, o, Held(s, o))
    {
      var b := s.free[i];
      if !Apart(b.start, b.size, o, Held(s, o)) {
        var x := if b.start < o then o else b.start;
        assert In(b, x) && In(Span(o, Held(s, o)), x);
        assert FreeAt(s.free, x) && InLive(s, x);
      }
    }
  }

  lemma AllocSafe(s: State, bytes: nat)
    requires Inv(s)
    ensures Inv(Apply(s, Alloc(bytes)))
  {
    var need := Padded(s.alignment, bytes);
    var fit := LastFit(s.free, need);
    if bytes > 0 && fit.Some? {
      var i, s' := fit.value, Apply(s, Alloc(bytes));
      var offset := s.free[i].End() - need;
      CarveTakes(s.free, i, need);
      FreeBlockInside(s, i);
      assert ApartFromLive(s, offset, need) by {
        forall o | o in s.live
          ensures Apart(o, Held(s, o), offset, need)
        {
          LiveApartFromFree(s, o);
          assert Apart(s.free[i].start, s.free[i].size, o, Held(s, o));
        }
      }
      assert offset in s.live ==> Apart(offset, Held(s, offset), offset, need);
      LiveAfterAlloc(s, s', offset, bytes);
    }
  }

  ghost predicate ApartFromLive(s: State, offset: int, n: nat) {
    forall o :: o in s.live ==> Apart(o, Held(s, o), offset, n)
  }

  lemma LiveAfterAlloc(s: State, s': State, offset: int, bytes: nat)
    requires offset !in s.live && s'.live == s.live[offset := bytes] && s'.alignment == s.alignment
    ensures forall x :: InLive(s', x) <==> InLive(s, x) || In(Span(offset, Padded(s.alignment, bytes)), x)
  {
    forall x
      ensures InLive(s', x) <==> InLive(s, x) || In(Span(offset, Padded(s.alignment, bytes)), x)
    {
      if InLive(s, x) {
        var o :| o in s.live && In(Span(o, Held(s, o)), x);
        assert o in s'.live && Held(s', o) == Held(s, o);
      }
      if In(Span(offset, Padded(s.alignment, bytes)), x) {
        assert offset in s'.live && In(Span(offset, Held(s', offset)), x);
      }
    }
  }

  lemma FreeSafe(s: State, offset: int, bytes: nat)
    requires Inv(s) && Enabled(s, Free(offset, bytes))
    ensures bytes > 0 ==> FreeAsserts(s.free, offset, Padded(s.alignment, bytes))
    ensures Inv(Apply(s, Free(offset, bytes)))
  {
    if bytes > 0 {
      var s', n := Apply(s, Free(offset, bytes)), Held(s, offset);
      LiveApartFromFree(s, offset);
      BoundSplits(s.free, offset, n);
      InsertAdds(s.free, offset, n);
      forall x
        ensures InLive(s', x) <==> InLive(s, x) && !In(Span(offset, n), x)
      {
        if InLive(s, x) && !In(Span(offset, n), x) {
          var o :| o in s.live && In(Span(o, Held(s, o)), x);
          assert o in s'.live && Held(s', o) == Held(s, o);
        }
        if InLive(s', x) {
          var o :| o in s'.live && In(Span(o, Held(s', o)), x);
          assert o in s.live && Held(s', o) == Held(s, o);
          assert Apart(o, Held(s, o), offset, n);
        }
        if In(Span(offset, n), x) {
          assert InLive(s, x) by { assert In(Span(offset, Held(s, offset)), x); }
        }
      }
    }
  }

  datatype Run = Start(size: nat, alignment: nat) | Then(before: Run, step: Step)

  ghost predicate Reaches(run: Run, s: State) {
    match run
    case Start(size, alignment) => s == State(size, alignment, Whole(size), 0, map[], 0)
    case Then(before, step) => exists p :: Reaches(before, p) && Enabled(p, step) && s == Apply(p, step)
  }

  lemma WholeCovers(size: nat)
    ensures Canonical(Whole(size)) && forall x :: FreeAt(Whole(size), x) <==> 0 <= x < size
  {
    forall x
      ensures FreeAt(Whole(size), x) <==> 0 <= x < size
    {
      if 0 <= x < size { assert In(Whole(size)[0], x); }
    }
  }

  /** Live allocations never overlap, and never leave the memory, in any run. */
  lemma {:induction false} RunSafe(run: Run, s: State)
    requires Reaches(run, s)
    ensures Inv(s)
  {
    match run
    case Start(size, alignment) =>
      WholeCovers(size);
    case Then(before, step) =>
      var p :| Reaches(before, p) && Enabled(p, step) && s == Apply(p, step);
      RunSafe(before, p);
      if step.Alloc? { AllocSafe(p, step.bytes); } else { FreeSafe(p, step.offset, step.bytes); }
  }

  /** Freeing everything restores the single block [0, size), whatever the order. */
  lemma {:induction false} AllFreedRestores(run: Run, s: State)
    requires Reaches(run, s) && s.live == map[]
    ensures s.free == Whole(s.size)
  {
    RunSafe(run, s);
    WholeCovers(s.size);
    forall x
      ensures FreeAt(s.free, x) <==> FreeAt(Whole(s.size), x)
    {
    }
    CanonicalUnique(s.free, Whole(s.size));
  }

  /** Freeing what was just allocated restores the state exactly. */
  lemma {:induction false} FreeUndoesAlloc(run: Run, s: State, bytes: nat, i: nat, offset: int)
    requires Reaches(run, s) && 0 < bytes && LastFit(s.free, Padded(s.alignment, bytes)) == Some(i)
    requires offset == s.free[i].End() - Padded(s.alignment, bytes)
    ensures var after := Apply(s, Alloc(bytes));
            Enabled(after, Free(offset, bytes)) && Apply(after, Free(offset, bytes)) == s
  {
    RunSafe(run, s);
    var need := Padded(s.alignment, bytes);
    TakenWasFree(s, i, need, offset);
    TakenPutBack(s.free, i, need, offset);
    PutBack(s, bytes, i, need, offset);
  }

  lemma {:induction false} PutBack(s: State, bytes: nat, i: nat, need: nat, offset: int)
    requires 0 < bytes && need == Padded(s.alignment, bytes) && LastFit(s.free, need) == Some(i)
    requires offset == s.free[i].End() - need && offset !in s.live
    requires Insert(Carve(s.free, i, need), offset, need) == s.free
    ensures var after := Apply(s, Alloc(bytes));
            Enabled(after, Free(offset, bytes)) && Apply(after, Free(offset, bytes)) == s
  {
    RemoveAdded(s.live, offset, bytes);
  }

  lemma TakenPutBack(free: seq<Span>, i: nat, need: nat, offset: int)
    requires Canonical(free) && i < |free| && 0 < need <= free[i].size && offset == free[i].End() - need
    ensures Insert(Carve(free, i, need), offset, need) == free
  {
    var taken := Carve(free, i, need);
    CarveTakes(free, i, need);
    TakenApart(free, i, need, offset, taken);
    InsertAdds(taken, offset, need);
    assert forall x :: offset <= x < offset + need ==> In(free[i], x);
    SameBytes(free, taken, Insert(taken, offset, need), offset, need);
  }

  lemma TakenApart(free: seq<Span>, i: nat, need: nat, offset: int, taken: seq<Span>)
    requires Canonical(free) && i < |free| && 0 < need <= free[i].size && offset == free[i].End() - need
    requires taken == Carve(free, i, need)
    ensures ApartFrom(taken, offset, need)
  {
    forall j | 0 <= j < |taken|
      ensures Apart(taken[j].start, taken[j].size, offset, need)
    {
      var whole := free[i].size == need;
      var o := if whole && j >= i then j + 1 else j;
      assert taken[j] == free[o] || (j == i && !whole);
    }
  }

  lemma SameBytes(free: seq<Span>, taken: seq<Span>, back: seq<Span>, offset: int, need: nat)
    requires Canonical(free) && Canonical(back)
    requires forall x :: FreeAt(taken, x) <==> FreeAt(free, x) && !(offset <= x < offset + need)
    requires forall x :: FreeAt(back, x) <==> FreeAt(taken, x) || offset <= x < offset + need
    requires RunIsFree(free, offset, need)
    ensures back == free
  {
    CanonicalUnique(free, back);
  }

  lemma RemoveAdded(m: map<int, nat>, k: int, v: nat)
    requires k !in m
    ensures m[k := v] - {k} == m
  {
  }

  lemma TakenWasFree(s: State, i: nat, need: nat, offset: int)
    requires Inv(s) && i < |s.free| && 0 < need <= s.free[i].size && offset == s.free[i].End() - need
    ensures offset !in s.live
  {
    assert In(s.free[i], offset) && FreeAt(s.free, offset);
    assert offset in s.live ==> In(Span(offset, Held(s, offset)), offset);
  }

  lemma FreeTwice(s: State, o: int, p: int) returns (s2: State)
    requires Inv(s) && o in s.live && p in s.live && o != p
    ensures 0 < s.live[o] && 0 < s.live[p]
    ensures var s1 := Apply(s, Free(o, s.live[o]));
            Enabled(s1, Free(p, s.live[p])) && s2 == Apply(s1, Free(p, s.live[p]))
    ensures s2 == s.(free := s2.free, usage := s.usage - Held(s, o) - Held(s, p), live := s.live - {o} - {p})
    ensures Canonical(s2.free)
    ensures forall x :: FreeAt(s2.free, x) <==> FreeAt(s.free, x) || o <= x < o + Held(s, o) || p <= x < p + Held(s, p)
  {
    var s1 := Apply(s, Free(o, s.live[o]));
    s2 := Apply(s1, Free(p, s.live[p]));
    FreeSafe(s, o, s.live[o]);
    LiveApartFromFree(s, o);
    LiveApartFromFree(s1, p);
    InsertAdds(s.free, o, Held(s, o));
    InsertAdds(s1.free, p, Held(s, p));
  }

  lemma SameAfterFrees(s: State, o: int, p: int, op: State, po: State)
    requires op == s.(free := op.free, usage := op.usage, live := s.live - {o} - {p}) && op.usage == po.usage
    requires po == s.(free := po.free, usage := po.usage, live := s.live - {p} - {o})
    requires Canonical(op.free) && Canonical(po.free) && forall x :: FreeAt(op.free, x) <==> FreeAt(po.free, x)
    ensures op == po
  {
    CanonicalUnique(op.free, po.free);
    assert s.live - {o} - {p} == s.live - {p} - {o};
  }

  /** The order in which two allocations are freed leaves no trace. */
  lemma {:induction false} FreesCommute(run: Run, s: State, o: int, p: int)
    requires Reaches(run, s) && o in s.live && p in s.live && o != p
    ensures var a, b := Free(o, s.live[o]), Free(p, s.live[p]);
            && Enabled(s, a) && Enabled(Apply(s, a), b) && Enabled(s, b) && Enabled(Apply(s, b), a)
            && Apply(Apply(s, a), b) == Apply(Apply(s, b), a)
  {
    RunSafe(run, s);
    var op := FreeTwice(s, o, p);
    var po := FreeTwice(s, p, o);
    SameAfterFrees(s, o, p, op, po);
  }

  /** An allocation of at least one byte fails exactly when no run of that many (padded) bytes is free. */
  lemma {:induction false} FailsOnlyWhenFull(run: Run, s: State, bytes: nat)
    requires Reaches(run, s) && 0 < bytes
    ensures LastFit(s.free, Padded(s.alignment, bytes)).None? <==>
              !exists o: int :: RunIsFree(s.free, o, Padded(s.alignment, bytes))
  {
    RunSafe(run, s);
    var need := Padded(s.alignment, bytes);
    var fit := LastFit(s.free, need);
    if fit.Some? {
      assert forall x :: s.free[fit.value].start <= x < s.free[fit.value].start + need ==> In(s.free[fit.value], x);
      assert RunIsFree(s.free, s.free[fit.value].start, need);
    }
    if o: int :| RunIsFree(s.free, o, need) {
      var i := RunInOneBlock(s.free, o, need);
      assert fit.Some?;
    }
  }

  ghost predicate RunIsFree(free: seq<Span>, o: int, n: nat) {
    forall x :: o <= x < o + n ==> FreeAt(free, x)
  }

  /** Consecutive bytes cannot lie in two different blocks. */
  lemma SameBlock(free: seq<Span>, i: nat, j: nat, x: int)
    requires Canonical(free) && i < |free| && j < |free| && In(free[i], x) && In(free[j], x + 1)
    ensures i == j
  {
  }

  /** Because the list is coalesced, free bytes in a row lie in one block. */
  lemma {:induction false} RunInOneBlock(free: seq<Span>, o: int, n: nat) returns (i: nat)
    requires Canonical(free) && 0 < n && RunIsFree(free, o, n)
    ensures i < |free| && free[i].start <= o && o + n <= free[i].End()
  {
    if n == 1 {
      assert FreeAt(free, o);
      var j :| 0 <= j < |free| && In(free[j], o);
      i := j;
    } else {
      i := RunInOneBlock(free, o, n - 1);
      var x := o + n - 1;
      assert FreeAt(free, x);
      var j :| 0 <= j < |free| && In(free[j], x);
      SameBlock(free, i, j, x - 1);
    }
  }

  // ---------------------------------------------------------------------------------------
  // Accounting and alignment

  function Total(free: seq<Span>): nat {
    if free == [] then 0 else free[0].size + Total(free[1..])
  }

  lemma {:induction false} TotalCat(p: seq<Span>, q: seq<Span>)
    ensures Total(p + q) == Total(p) + Total(q)
  {
    if p == [] {
      assert p + q == q;
    } else {
      assert (p + q)[1..] == p[1..] + q;
      TotalCat(p[1..], q);
    }
  }

  lemma {:induction false} TotalAroundOne(p: seq<Span>, m: Span, q: seq<Span>)
    ensures Total(p + [m] + q) == Total(p) + m.size + Total(q)
  {
    TotalCat(p + [m], q);
    TotalCat(p, [m]);
    assert [m][1..] == [];
  }

  lemma {:induction false} TotalMiddle(free: seq<Span>, a: nat, b: nat)
    requires a <= b <= a + 2 && b <= |free|
    ensures Total(free) == Total(free[..a]) + (if a < b then free[a].size else 0)
                         + (if a + 1 < b then free[a + 1].size else 0) + Total(free[b..])
  {
    if a == b {
      assert free == free[..a] + free[b..];
      TotalCat(free[..a], free[b..]);
    } else if b == a + 1 {
      assert free == free[..a] + [free[a]] + free[b..];
      TotalAroundOne(free[..a], free[a], free[b..]);
    } else {
      assert free == free[..a] + [free[a]] + free[a + 1..];
      TotalAroundOne(free[..a], free[a], free[a + 1..]);
      assert free[a + 1..][1..] == free[b..];
    }
  }

  lemma {:induction false} InsertTotal(free: seq<Span>, offset: int, n: nat)
    requires Canonical(free) && 0 < n && ApartFrom(free, offset, n)
    ensures Total(Insert(free, offset, n)) == Total(free) + n
  {
    var Merged(a, b, m) := Absorb(free, offset, n);
    TotalMiddle(free, a, b);
    TotalAroundOne(free[..a], m, free[b..]);
  }

  lemma {:induction false} CarveTotal(free: seq<Span>, i: nat, need: nat)
    requires i < |free| && need <= free[i].size
    ensures Total(Carve(free, i, need)) == Total(free) - need
  {
    TotalMiddle(free, i, i + 1);
    if free[i].size == need {
      TotalCat(free[..i], free[i + 1..]);
    } else {
      var m := Span(free[i].start, free[i].size - need);
      assert free[i := m] == free[..i] + [m] + free[i + 1..];
      TotalAroundOne(free[..i], m, free[i + 1..]);
    }
  }

  /** Usage and free bytes always add up to the size of the memory. */
  lemma {:induction false} UsageBalances(run: Run, s: State)
    requires Reaches(run, s)
    ensures s.usage + Total(s.free) == s.size
  {
    match run
    case Start(size, alignment) =>
    case Then(before, step) =>
      var p :| Reaches(before, p) && Enabled(p, step) && s == Apply(p, step);
      UsageBalances(before, p);
      RunSafe(before, p);
      match step
      case Alloc(bytes) =>
        var need := Padded(p.alignment, bytes);
        var fit := LastFit(p.free, need);
        if bytes > 0 && fit.Some? {
          CarveTotal(p.free, fit.value, need);
        }
      case Free(offset, bytes) =>
        if bytes > 0 {
          LiveApartFromFree(p, offset);
          InsertTotal(p.free, offset, Held(p, offset));
        }
  }

  predicate Aligned(a: nat, x: int) {
    a > 0 ==> x % a == 0
  }

  lemma AlignedSum(a: nat, x: int, y: int)
    requires Aligned(a, x) && Aligned(a, y)
    ensures Aligned(a, x + y) && Aligned(a, x - y)
  {
    if a > 0 {
      ModOfSum(a, x, y, x / a, y / a);
    }
  }

  lemma ModOfSum(a: nat, x: int, y: int, p: int, q: int)
    requires 0 < a && x == p * a && y == q * a
    ensures (x + y) % a == 0 && (x - y) % a == 0
  {
    assert x + y == (p + q) * a && x - y == (p - q) * a;
    MultipleMod(p + q, a);
    MultipleMod(p - q, a);
  }

  ghost predicate AllAligned(s: State) {
    && (forall i :: 0 <= i < |s.free| ==> Aligned(s.alignment, s.free[i].start) && Aligned(s.alignment, s.free[i].size))
    && (forall o :: o in s.live ==> Aligned(s.alignment, o))
  }

  lemma PaddedAligned(alignment: nat, n: nat)
    ensures Aligned(alignment, Padded(alignment, n))
  {
    if alignment > 0 {
      PaddedIsLeast(alignment, n);
    }
  }

  lemma MergedAligned(a: nat, free: seq<Span>, offset: int, n: nat)
    requires forall i :: 0 <= i < |free| ==> Aligned(a, free[i].start) && Aligned(a, free[i].size)
    requires Aligned(a, offset) && Aligned(a, n)
    ensures var m := Absorb(free, offset, n); Aligned(a, m.span.start) && Aligned(a, m.span.size)
  {
    var k := LowerBound(free, offset);
    AlignedSum(a, offset, n);
    AlignedSum(a, n, if k > 0 then free[k - 1].size else 0);
    AlignedSum(a, n, if k < |free| then free[k].size else 0);
    if 0 < k < |free| { AlignedSum(a, n + free[k - 1].size, free[k].size); }
  }

  /** In a memory whose size is a multiple of its alignment, every offset given out is aligned. */
  lemma {:induction false} OffsetsAligned(run: Run, s: State)
    requires Reaches(run, s) && Aligned(s.alignment, s.size)
    ensures AllAligned(s)
  {
    match run
    case Start(size, alignment) =>
      WholeAligned(s);
    case Then(before, step) =>
      var p :| Reaches(before, p) && Enabled(p, step) && s == Apply(p, step);
      SameMemory(p, step);
      OffsetsAligned(before, p);
      StepAligned(p, step);
  }

  lemma SameMemory(s: State, step: Step)
    requires Enabled(s, step)
    ensures Apply(s, step).size == s.size && Apply(s, step).alignment == s.alignment
  {
  }

  lemma WholeAligned(s: State)
    requires s.free == Whole(s.size) && s.live == map[] && Aligned(s.alignment, s.size)
    ensures AllAligned(s)
  {
    if s.alignment > 0 {
      MultipleMod(0, s.alignment);
    }
  }

  lemma StepAligned(s: State, step: Step)
    requires AllAligned(s) && Enabled(s, step)
    ensures AllAligned(Apply(s, step))
  {
    match step
    case Alloc(bytes) => AllocAligned(s, bytes);
    case Free(offset, bytes) => FreeAligned(s, offset, bytes);
  }

  lemma AllocAligned(s: State, bytes: nat)
    requires AllAligned(s)
    ensures AllAligned(Apply(s, Alloc(bytes)))
  {
    var need := Padded(s.alignment, bytes);
    var fit := LastFit(s.free, need);
    if bytes > 0 && fit.Some? {
      var b := s.free[fit.value];
      PaddedAligned(s.alignment, bytes);
      AlignedSum(s.alignment, b.start, b.size);
      AlignedSum(s.alignment, b.End(), need);
      AlignedSum(s.alignment, b.size, need);
    }
  }

  lemma FreeAligned(s: State, offset: int, bytes: nat)
    requires AllAligned(s) && Enabled(s, Free(offset, bytes))
    ensures AllAligned(Apply(s, Free(offset, bytes)))
  {
    if bytes > 0 {
      PaddedAligned(s.alignment, bytes);
      MergedAligned(s.alignment, s.free, offset, Padded(s.alignment, bytes));
    }
  }
}
