/** Lists of free spans in address order: what the source keeps in ordered maps from address to size. */
module FreeList {
  import opened Bytes

  datatype Span = Span(start: int, size: nat) {
    function End(): int {
      start + size
    }

    function Grown(n: nat): Span {
      Span(start, size + n)
    }
  }

  predicate In(s: Span, x: int) {
    s.start <= x < s.End()
  }

  ghost predicate FreeAt(free: seq<Span>, x: int) {
    exists i :: 0 <= i < |free| && In(free[i], x)
  }

  /** In address order, with a gap between any two: nothing is left to coalesce. */
  predicate Coalesced(free: seq<Span>) {
    forall i, j :: 0 <= i < j < |free| ==> free[i].End() < free[j].start
  }

  /** How many spans start below `addr` (`std::map::lower_bound`). */
  function LowerBound(free: seq<Span>, addr: int): (r: nat)
    ensures r <= |free|
    ensures r > 0 ==> free[r - 1].start < addr
    ensures r < |free| ==> addr <= free[r].start
  {
    if free == [] || addr <= free[0].start then 0 else 1 + LowerBound(free[1..], addr)
  }

  /** What a change of the free list leaves: `free[lo..hi]` has made way for `mid`. */
  function Replaced(free: seq<Span>, lo: nat, hi: nat, mid: Option<Span>): (r: seq<Span>)
    requires lo <= hi <= |free|
    ensures |r| == lo + (if mid.Some? then 1 else 0) + (|free| - hi)
  {
    free[..lo] + (if mid.Some? then [mid.value] else []) + free[hi..]
  }

  lemma ReplacedAt(free: seq<Span>, lo: nat, hi: nat, mid: Option<Span>)
    requires lo <= hi <= |free|
    ensures var r := Replaced(free, lo, hi, mid);
            && (forall j :: 0 <= j < |r| ==>
                  || (j < lo && r[j] == free[j])
                  || (j == lo && mid == Some(r[j]))
                  || (&& lo + (if mid.Some? then 1 else 0) <= j && hi <= j - |r| + |free| < |free|
                      && r[j] == free[j - |r| + |free|]))
            && (forall i :: 0 <= i < lo ==> r[i] == free[i])
            && (mid.Some? ==> r[lo] == mid.value)
            && (forall i :: hi <= i < |free| ==> r[i - |free| + |r|] == free[i])
  {
  }

  /** Entry `k` of a replaced list. */
  function ReplacedEntry(free: seq<Span>, lo: nat, hi: nat, mid: Option<Span>, k: nat): Span
    requires lo <= hi <= |free| && k < lo + (if mid.Some? then 1 else 0) + (|free| - hi)
  {
    if k < lo then free[k]
    else if mid.Some? then (if k == lo then mid.value else free[k - lo - 1 + hi])
    else free[k - lo + hi]
  }

  lemma ReplacedEntries(free: seq<Span>, lo: nat, hi: nat, mid: Option<Span>, k: nat)
    requires lo <= hi <= |free| && k < |Replaced(free, lo, hi, mid)|
    ensures Replaced(free, lo, hi, mid)[k] == ReplacedEntry(free, lo, hi, mid, k)
  {
  }

  /** The list stays coalesced if `mid` leaves a gap on both sides. */
  lemma ReplacedCoalesced(free: seq<Span>, lo: nat, hi: nat, mid: Option<Span>)
    requires Coalesced(free) && lo <= hi <= |free|
    requires mid.Some? ==> forall i :: 0 <= i < lo ==> free[i].End() < mid.value.start
    requires mid.Some? ==> forall i :: hi <= i < |free| ==> mid.value.End() < free[i].start
    ensures Coalesced(Replaced(free, lo, hi, mid))
  {
    var r := Replaced(free, lo, hi, mid);
    forall i, j | 0 <= i < j < |r|
      ensures r[i].End() < r[j].start
    {
      ReplacedEntries(free, lo, hi, mid, i);
      ReplacedEntries(free, lo, hi, mid, j);
      EntriesApart(free, lo, hi, mid, i, j);
    }
  }

  lemma EntriesApart(free: seq<Span>, lo: nat, hi: nat, mid: Option<Span>, i: nat, j: nat)
    requires Coalesced(free) && lo <= hi <= |free|
    requires i < j < lo + (if mid.Some? then 1 else 0) + (|free| - hi)
    requires mid.Some? ==> forall k :: 0 <= k < lo ==> free[k].End() < mid.value.start
    requires mid.Some? ==> forall k :: hi <= k < |free| ==> mid.value.End() < free[k].start
    ensures ReplacedEntry(free, lo, hi, mid, i).End() < ReplacedEntry(free, lo, hi, mid, j).start
  {
  }

  /** A released span together with its free neighbours: they are `free[lo..hi]`. */
  datatype Merged = Merged(lo: nat, hi: nat, span: Span)

  function Absorb(free: seq<Span>, addr: int, size: nat): (m: Merged)
    ensures m.lo <= m.hi <= |free|
  {
    AbsorbAt(free, addr, size, LowerBound(free, addr))
  }

  /** The merge, given the position `at` of the released span among the free ones. */
  function AbsorbAt(free: seq<Span>, addr: int, size: nat, at: nat): (m: Merged)
    requires at <= |free|
    ensures m.lo <= m.hi <= |free|
  {
    var below := at > 0 && free[at - 1].End() == addr;
    var above := at < |free| && addr + size == free[at].start;
    Merged(if below then at - 1 else at, if above then at + 1 else at,
           Span(if below then free[at - 1].start else addr,
                size + (if below then free[at - 1].size else 0) + (if above then free[at].size else 0)))
  }
}
