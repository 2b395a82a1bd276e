/**
 The to-do list both message managers keep: a ring of node numbers with one slot more than there are
 nodes, so that an empty ring can be told from a full one.
 */
module TodoRing {
  import opened Bytes

  class Ring {
    const nodes: nat
    const slots: array<nat>
    var oldest: nat
    var newest: nat

    ghost predicate Valid()
      reads this
    {
      slots.Length == nodes + 1 && oldest <= nodes && newest <= nodes
    }

    /** The entries in the order in which they will be popped. */
    ghost function Contents(): (s: seq<nat>)
      reads this, slots
      requires Valid()
      ensures |s| <= nodes
    {
      if oldest <= newest then slots[oldest..newest] else slots[oldest..] + slots[..newest]
    }

    constructor (nodes: nat)
      ensures Valid() && fresh(slots) && this.nodes == nodes && Contents() == []
    {
      this.nodes := nodes;
      slots := new nat[nodes + 1](_ => 0);
      oldest, newest := 0, 0;
    }

    predicate IsEmpty()
      reads this
    {
      oldest == newest
    }

    /** "Should never wrap around": with fewer entries than nodes there is room for one more. */
    method Push(target: nat)
      requires Valid() && |Contents()| < nodes
      modifies this`newest, slots
      ensures Valid() && Contents() == old(Contents()) + [target]
    {
      slots[newest] := target;
      newest := newest + 1;
      if newest > nodes {
        newest := 0;
      }
      assert newest != oldest;
    }

    method Pop() returns (target: nat)
      requires Valid() && !IsEmpty()
      modifies this`oldest
      ensures Valid() && old(Contents()) == [target] + Contents()
    {
      target := slots[oldest];
      FirstApart(slots[..], oldest, if oldest <= newest then newest else nodes + 1);
      oldest := oldest + 1;
      if oldest > nodes {
        oldest := 0;
      }
    }

    /** The test of the two indices is exact, which is what the extra slot is for. */
    lemma EmptyMeansNoEntries()
      requires Valid()
      ensures IsEmpty() <==> Contents() == []
    {
    }
  }

  lemma FirstApart(s: seq<nat>, lo: nat, hi: nat)
    requires lo < hi <= |s|
    ensures s[lo..hi] == [s[lo]] + s[lo + 1..hi]
  {
  }

  /** A ring with distinct entries below `nodes` that lacks one node has room for it. */
  lemma RoomForAbsent(s: seq<nat>, target: nat, nodes: nat)
    requires Distinct(s) && target !in s && target < nodes
    requires forall i :: 0 <= i < |s| ==> s[i] < nodes
    ensures |s| < nodes
  {
    DistinctBelow(s + [target], nodes);
  }
}
