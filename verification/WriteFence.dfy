/**
 The receiving side of remote writes: how the pieces of a split write and its fence, arriving in any
 order, are counted, and when the fence is acknowledged.
 */
module WriteFence {
  import opened Bytes
  import opened RemoteWrite

  datatype Key = Key(sender: nat, sequenceId: nat)

  datatype Entry = Entry(fence: Option<int>, remaining: int)

  type Table = map<Key, Entry>

  /** A table after one handler, and the fence it acknowledged, if any. */
  datatype Outcome = Outcome(table: Table, ack: Option<int>)

  /** A piece of a write has been stored. */
  function CountWrite(table: Table, key: Key): Outcome {
    if key !in table then
      Outcome(table[key := Entry(None, -1)], None)
    else
      var e := table[key].(remaining := table[key].remaining - 1);
      if e.remaining == 0 then Outcome(table - {key}, e.fence) else Outcome(table[key := e], None)
  }

  /** A fence for `numWrites` pieces arrives. */
  function CountFence(table: Table, key: Key, numWrites: nat, fence: int): Outcome {
    if key !in table then
      Outcome(table[key := Entry(Some(fence), numWrites)], None)
    else
      var e := Entry(Some(fence), table[key].remaining + numWrites);
      if e.remaining == 0 then Outcome(table - {key}, e.fence) else Outcome(table[key := e], None)
  }

  /** The two asserts in the fence's handler: no earlier fence, and not too many writes. */
  predicate FenceAsserts(table: Table, key: Key, numWrites: nat) {
    key in table ==> table[key].fence.None? && table[key].remaining + numWrites >= 0
  }

  class PartialWrites {
    var entries: Table

    constructor ()
      ensures entries == map[]
    {
      entries := map[];
    }

    /** The counting part of the write handler. Sequence number 0 means that nobody will ask. */
    method HandleWrite(sender: nat, sequenceId: nat) returns (ack: Option<int>)
      modifies this
      ensures sequenceId == 0 ==> entries == old(entries) && ack.None?
      ensures sequenceId > 0 ==> Outcome(entries, ack) == CountWrite(old(entries), Key(sender, sequenceId))
    {
      ack := None;
      if sequenceId > 0 {
        var key := Key(sender, sequenceId);
        if key !in entries {
          entries := entries[key := Entry(None, -1)];
        } else {
          var entry := entries[key];
          var remaining := entry.remaining - 1;
          entries := entries[key := entry.(remaining := remaining)];
          if remaining == 0 {
            ack := entry.fence;
            entries := entries - {key};
            assert entries == old(entries) - {key};
          }
        }
      }
    }

    method HandleFence(sender: nat, sequenceId: nat, numWrites: nat, fence: int) returns (ack: Option<int>)
      requires sequenceId != 0 && FenceAsserts(entries, Key(sender, sequenceId), numWrites)
      modifies this
      ensures Outcome(entries, ack) == CountFence(old(entries), Key(sender, sequenceId), numWrites, fence)
    {
      ack := None;
      var key := Key(sender, sequenceId);
      if key !in entries {
        entries := entries[key := Entry(Some(fence), numWrites)];
      } else {
        var entry := entries[key];
        assert entry.fence.None?;
        var remaining := entry.remaining + numWrites;
        assert remaining >= 0;
        entries := entries[key := Entry(Some(fence), remaining)];
        if remaining == 0 {
          ack := Some(fence);
          entries := entries - {key};
          assert entries == old(entries) - {key};
        }
      }
    }
  }

  // ---------------------------------------------------------------------------------------
  // Many fenced writes at once, over a network that delivers in any order

  /** Writes `pieces` to the range of `size` bytes at `offset`, followed by a fence for `numWrites` of them. */
  datatype Transfer = Transfer(key: Key, fence: int, numWrites: nat, offset: nat, size: nat, pieces: seq<Piece>)

  /**
   `landed[i]` are the pieces of transfer `i` whose bytes have been stored, `counted[i]` those that have
   also been counted; `fenced` holds the transfers whose fence has been handled; `acks` lists the
   transfers whose fence has been acknowledged.
   */
  datatype State = State(
    mem: seq<byte>,
    transfers: seq<Transfer>,
    landed: seq<set<nat>>,
    counted: seq<set<nat>>,
    fenced: set<nat>,
    table: Table,
    acks: seq<nat>)

  datatype Step =
    | Begin(t: Transfer)
    | Land(i: nat, j: nat)   // put_bytes, before the lock is taken
    | Count(i: nat, j: nat)  // the rest of the write handler
    | Fence(i: nat)

  predicate Shape(s: State) {
    |s.landed| == |s.counted| == |s.transfers|
  }

  /** No piece leaves the range of the transfer, and no two of them overlap. */
  predicate PiecesFit(t: Transfer) {
    && (forall j :: 0 <= j < |t.pieces| ==> t.offset <= t.pieces[j].offset && End(t.pieces[j]) <= t.offset + t.size)
    && (forall j, k :: 0 <= j < k < |t.pieces| ==> PiecesApart(t.pieces[j], t.pieces[k]))
  }

  function End(p: Piece): nat {
    p.offset + |p.data|
  }

  predicate PiecesApart(p: Piece, q: Piece) {
    Apart(p.offset, |p.data|, q.offset, |q.data|)
  }

  /**
   What callers must see to: the fence announces the writes that are sent, sequence numbers are not
   reused, and no writer overlaps a write that has not been acknowledged.
   */
  predicate MayBegin(s: State, t: Transfer) {
    && 0 < t.key.sequenceId
    && t.numWrites == |t.pieces|
    && t.offset + t.size <= |s.mem| && PiecesFit(t)
    && (forall i :: 0 <= i < |s.transfers| ==> s.transfers[i].key != t.key)
    && (forall i :: 0 <= i < |s.transfers| && i !in s.acks ==> RangesApart(s.transfers[i], t))
  }

  predicate RangesApart(a: Transfer, b: Transfer) {
    Apart(a.offset, a.size, b.offset, b.size)
  }

  predicate Enabled(s: State, step: Step) {
    && Shape(s)
    && match step
       case Begin(t) => MayBegin(s, t)
       case Land(i, j) =>
         && i < |s.transfers| && j < |s.transfers[i].pieces| && j !in s.landed[i]
         && End(s.transfers[i].pieces[j]) <= |s.mem|
       case Count(i, j) => i < |s.transfers| && j in s.landed[i] && j !in s.counted[i]
       case Fence(i) => i < |s.transfers| && i !in s.fenced
  }

  function Acked(s: State, i: nat, ack: Option<int>): seq<nat> {
    if ack.Some? then s.acks + [i] else s.acks
  }

  function Apply(s: State, step: Step): State
    requires Enabled(s, step)
  {
    match step
    case Begin(t) => s.(transfers := s.transfers + [t], landed := s.landed + [{}], counted := s.counted + [{}])
    case Land(i, j) =>
      var p := s.transfers[i].pieces[j];
      s.(mem := Splice(s.mem, p.offset, p.data), landed := s.landed[i := s.landed[i] + {j}])
    case Count(i, j) =>
      var o := CountWrite(s.table, s.transfers[i].key);
      s.(counted := s.counted[i := s.counted[i] + {j}], table := o.table, acks := Acked(s, i, o.ack))
    case Fence(i) =>
      var t := s.transfers[i];
      var o := CountFence(s.table, t.key, t.numWrites, t.fence);
      s.(fenced := s.fenced + {i}, table := o.table, acks := Acked(s, i, o.ack))
  }

  // ---------------------------------------------------------------------------------------
  // The invariant

  /** What the table must say about a transfer with `n` pieces. */
  function Expected(n: nat, counted: nat, fenced: bool, fence: int): Option<Entry> {
    if !fenced && counted == 0 then None
    else if fenced && counted == n && n > 0 then None
    else Some(Entry(if fenced then Some(fence) else None, (if fenced then n else 0) - counted))
  }

  ghost predicate Finished(s: State, i: nat)
    requires Shape(s) && i < |s.transfers|
  {
    i in s.fenced && |s.counted[i]| == |s.transfers[i].pieces| > 0
  }

  function Lookup(table: Table, key: Key): Option<Entry> {
    if key in table then Some(table[key]) else None
  }

  ghost predicate CountInv(s: State, i: nat)
    requires Shape(s) && i < |s.transfers|
  {
    var t := s.transfers[i];
    && s.counted[i] <= s.landed[i]
    && (forall j :: j in s.landed[i] ==> j < |t.pieces|)
    && |s.counted[i]| <= |t.pieces| == t.numWrites
    && Lookup(s.table, t.key) == Expected(|t.pieces|, |s.counted[i]|, i in s.fenced, t.fence)
    && (i in s.acks <==> Finished(s, i))
  }

  ghost predicate Stored(mem: seq<byte>, p: Piece) {
    End(p) <= |mem| && mem[p.offset..End(p)] == p.data
  }

  ghost predicate MemInv(s: State, i: nat)
    requires Shape(s) && i < |s.transfers|
  {
    var t := s.transfers[i];
    && t.offset + t.size <= |s.mem| && PiecesFit(t)
    && (i !in s.acks ==> forall j :: j in s.landed[i] && j < |t.pieces| ==> Stored(s.mem, t.pieces[j]))
  }

  ghost predicate Separate(s: State, i: nat, k: nat)
    requires i < |s.transfers| && k < |s.transfers|
  {
    var a, b := s.transfers[i], s.transfers[k];
    a.key != b.key && (i !in s.acks && k !in s.acks ==> RangesApart(a, b))
  }

  ghost predicate Inv(s: State) {
    && Shape(s)
    && (forall i :: 0 <= i < |s.transfers| ==> CountInv(s, i))
    && (forall i :: 0 <= i < |s.transfers| ==> MemInv(s, i))
    && (forall i, k :: 0 <= i < k < |s.transfers| ==> Separate(s, i, k))
    && (forall i :: i in s.fenced || i in s.acks ==> i < |s.transfers|)
    && Distinct(s.acks)
    && (forall key :: key in s.table ==> exists i :: 0 <= i < |s.transfers| && s.transfers[i].key == key)
  }

  // ---------------------------------------------------------------------------------------
  // Facts about pieces

  /** Pieces that tile a range stay inside it and in order. */
  lemma {:induction false} TilesInside(pieces: seq<Piece>, offset: nat, data: seq<byte>, j: nat)
    requires Tiles(pieces, offset, data) && j < |pieces|
    ensures offset <= pieces[j].offset && End(pieces[j]) <= offset + |data|
  {
    if j > 0 {
      var n := |pieces[0].data|;
      TilesInside(pieces[1..], offset + n, data[n..], j - 1);
    }
  }

  lemma {:induction false} TilesInOrder(pieces: seq<Piece>, offset: nat, data: seq<byte>, j: nat, k: nat)
    requires Tiles(pieces, offset, data) && j < k < |pieces|
    ensures End(pieces[j]) <= pieces[k].offset
  {
    var n := |pieces[0].data|;
    if j == 0 {
      TilesInside(pieces[1..], offset + n, data[n..], k - 1);
    } else {
      TilesInOrder(pieces[1..], offset + n, data[n..], j - 1, k - 1);
    }
  }

  /** When every piece is stored, so is the whole. */
  lemma {:induction false} AllStored(pieces: seq<Piece>, offset: nat, data: seq<byte>, mem: seq<byte>)
    requires Tiles(pieces, offset, data) && offset + |data| <= |mem|
    requires forall j :: 0 <= j < |pieces| ==> Stored(mem, pieces[j])
    ensures mem[offset..offset + |data|] == data
  {
    if pieces != [] {
      var n := |pieces[0].data|;
      var mid, end := offset + n, offset + |data|;
      assert Stored(mem, pieces[0]);
      AllStored(pieces[1..], mid, data[n..], mem);
      SliceInTwo(mem, offset, mid, end);
      SliceInTwo(data, 0, n, |data|);
    }
  }

  lemma SliceInTwo(s: seq<byte>, a: nat, b: nat, c: nat)
    requires a <= b <= c <= |s|
    ensures s[a..b] + s[b..c] == s[a..c]
  {
  }

  lemma StoreOther(mem: seq<byte>, p: Piece, q: Piece)
    requires q.offset + |q.data| <= |mem| && Stored(mem, p)
    requires Apart(p.offset, |p.data|, q.offset, |q.data|)
    ensures Stored(Splice(mem, q.offset, q.data), p)
  {
    SpliceAt(mem, q.offset, q.data);
  }

  // ---------------------------------------------------------------------------------------
  // Every step keeps the invariant

  lemma BeginSafe(s: State, t: Transfer)
    requires Inv(s) && Enabled(s, Begin(t))
    ensures Inv(Apply(s, Begin(t)))
  {
    var s' := Apply(s, Begin(t));
    var n := |s.transfers|;
    forall i | 0 <= i < |s'.transfers|
      ensures CountInv(s', i) && MemInv(s', i)
    {
      if i < n {
        assert CountInv(s, i) && MemInv(s, i);
      }
    }
    forall i, k | 0 <= i < k < |s'.transfers|
      ensures Separate(s', i, k)
    {
      if k < n { assert Separate(s, i, k); }
    }
    forall key | key in s'.table
      ensures exists i :: 0 <= i < |s'.transfers| && s'.transfers[i].key == key
    {
      var i :| 0 <= i < n && s.transfers[i].key == key;
      assert s'.transfers[i].key == key;
    }
  }

  lemma LandSafe(s: State, i: nat, j: nat)
    requires Inv(s) && Enabled(s, Land(i, j))
    ensures Inv(Apply(s, Land(i, j)))
  {
    var s' := Apply(s, Land(i, j));
    assert CountInv(s, i) && MemInv(s, i);
    assert i !in s.acks by {
      if i in s.acks {
        SubsetOfBelow(s.counted[i], |s.transfers[i].pieces|);
        assert false;
      }
    }
    forall k | 0 <= k < |s.transfers|
      ensures CountInv(s', k) && MemInv(s', k)
    {
      assert CountInv(s, k) && MemInv(s, k);
      LandKeepsMem(s, i, j, k);
    }
    forall a, b | 0 <= a < b < |s'.transfers|
      ensures Separate(s', a, b)
    {
      assert Separate(s, a, b);
    }
  }

  lemma LandKeepsMem(s: State, i: nat, j: nat, k: nat)
    requires Inv(s) && Enabled(s, Land(i, j)) && i !in s.acks && k < |s.transfers|
    ensures MemInv(Apply(s, Land(i, j)), k)
  {
    var s' := Apply(s, Land(i, j));
    var t, u := s.transfers[i], s.transfers[k];
    assert MemInv(s, i) && MemInv(s, k);
    var p := t.pieces[j];
    if k !in s.acks {
      forall x | x in s'.landed[k] && x < |u.pieces|
        ensures Stored(s'.mem, u.pieces[x])
      {
        if k == i && x == j {
          SpliceAt(s.mem, p.offset, p.data);
        } else {
          assert Stored(s.mem, u.pieces[x]);
          if k == i {
            assert if x < j then PiecesApart(t.pieces[x], p) else PiecesApart(p, t.pieces[x]);
          } else {
            assert if i < k then Separate(s, i, k) else Separate(s, k, i);
          }
          StoreOther(s.mem, u.pieces[x], p);
        }
      }
    }
  }

  /** One more event at one table entry: the handler follows the formula, and acks at the end only. */
  lemma CountWriteStep(table: Table, key: Key, n: nat, c: nat, fenced: bool, fence: int)
    requires c < n && Lookup(table, key) == Expected(n, c, fenced, fence)
    ensures var o := CountWrite(table, key);
            && Lookup(o.table, key) == Expected(n, c + 1, fenced, fence)
            && o.ack == (if fenced && c + 1 == n then Some(fence) else None)
            && o.table - {key} == table - {key}
  {
  }

  lemma CountFenceStep(table: Table, key: Key, n: nat, c: nat, fence: int)
    requires c <= n && Lookup(table, key) == Expected(n, c, false, fence)
    ensures FenceAsserts(table, key, n)
    ensures var o := CountFence(table, key, n, fence);
            && Lookup(o.table, key) == Expected(n, c, true, fence)
            && o.ack == (if c == n && n > 0 then Some(fence) else None)
            && o.table - {key} == table - {key}
  {
  }

  lemma OtherKey(before: Table, after: Table, key: Key, other: Key)
    requires before - {key} == after - {key} && other != key
    ensures Lookup(before, other) == Lookup(after, other)
  {
    assert other in before <==> other in before - {key};
    assert other in after <==> other in after - {key};
    if other in before {
      assert before[other] == (before - {key})[other] == (after - {key})[other];
    }
  }

  /** A handler for transfer `i` that meets its formula keeps everything. */
  lemma HandlerSafe(s: State, s': State, i: nat)
    requires Inv(s) && Shape(s') && i < |s.transfers|
    requires s'.mem == s.mem && s'.transfers == s.transfers && s'.landed == s.landed
    requires forall k :: 0 <= k < |s.transfers| && k != i ==>
               s'.counted[k] == s.counted[k] && (k in s'.fenced <==> k in s.fenced)
    requires forall k :: k in s'.fenced ==> k < |s.transfers|
    requires s'.table - {s.transfers[i].key} == s.table - {s.transfers[i].key}
    requires CountInv(s', i)
    requires i !in s.acks && (s'.acks == s.acks || s'.acks == s.acks + [i])
    ensures Inv(s')
  {
    assert Inv(s);
    forall k | 0 <= k < |s.transfers|
      ensures CountInv(s', k) && MemInv(s', k)
    {
      assert CountInv(s, k) && MemInv(s, k);
      if k != i {
        assert if i < k then Separate(s, i, k) else Separate(s, k, i);
        OtherKey(s.table, s'.table, s.transfers[i].key, s.transfers[k].key);
        assert k in s'.acks <==> k in s.acks;
      }
    }
    forall a, b | 0 <= a < b < |s'.transfers|
      ensures Separate(s', a, b)
    {
      assert Separate(s, a, b);
    }
    forall key | key in s'.table
      ensures exists k :: 0 <= k < |s.transfers| && s.transfers[k].key == key
    {
      if key != s.transfers[i].key {
        OtherKey(s.table, s'.table, s.transfers[i].key, key);
        assert key in s.table;
      }
    }
  }

  lemma CountSafe(s: State, i: nat, j: nat)
    requires Inv(s) && Enabled(s, Count(i, j))
    ensures Inv(Apply(s, Count(i, j)))
  {
    assert CountInv(s, i);
    CountMoves(s, i, j, s.transfers[i], s.counted[i]);
    HandlerSafe(s, Apply(s, Count(i, j)), i);
  }

  /** What counting a write does to the entry of its transfer. */
  lemma CountMoves(s: State, i: nat, j: nat, t: Transfer, c: set<nat>)
    requires Shape(s) && Enabled(s, Count(i, j)) && CountInv(s, i)
    requires t == s.transfers[i] && c == s.counted[i]
    ensures var s' := Apply(s, Count(i, j));
            && Shape(s') && CountInv(s', i) && s'.table - {t.key} == s.table - {t.key}
            && i !in s.acks && (s'.acks == s.acks || s'.acks == s.acks + [i])
  {
    SubsetOfBelow(c + {j}, |t.pieces|);
    assert |c + {j}| == |c| + 1;
    CountWriteStep(s.table, t.key, |t.pieces|, |c|, i in s.fenced, t.fence);
  }

  lemma FenceSafe(s: State, i: nat)
    requires Inv(s) && Enabled(s, Fence(i))
    ensures FenceAsserts(s.table, s.transfers[i].key, s.transfers[i].numWrites)
    ensures Inv(Apply(s, Fence(i)))
  {
    var t := s.transfers[i];
    assert CountInv(s, i);
    CountFenceStep(s.table, t.key, |t.pieces|, |s.counted[i]|, t.fence);
    HandlerSafe(s, Apply(s, Fence(i)), i);
  }

  lemma StepSafe(s: State, step: Step)
    requires Inv(s) && Enabled(s, step)
    ensures Inv(Apply(s, step))
  {
    match step
    case Begin(t) => BeginSafe(s, t);
    case Land(i, j) => LandSafe(s, i, j);
    case Count(i, j) => CountSafe(s, i, j);
    case Fence(i) => FenceSafe(s, i);
  }

  ghost predicate IsRun(trace: seq<State>, steps: seq<Step>) {
    && |trace| == |steps| + 1
    && trace[0] == State(trace[0].mem, [], [], [], {}, map[], [])
    && forall i :: 0 <= i < |steps| ==> Enabled(trace[i], steps[i]) && trace[i + 1] == Apply(trace[i], steps[i])
  }

  lemma {:induction false} RunSafe(trace: seq<State>, steps: seq<Step>, n: nat)
    requires IsRun(trace, steps) && n < |trace|
    ensures Inv(trace[n])
  {
    if n > 0 {
      RunSafe(trace, steps, n - 1);
      StepSafe(trace[n - 1], steps[n - 1]);
    }
  }

  // ---------------------------------------------------------------------------------------
  // What the counting promises

  /** A step that acknowledges a transfer acknowledges it for the first time, after all its pieces landed. */
  lemma AckIsLast(s: State, step: Step)
    requires Inv(s) && Enabled(s, step) && Apply(s, step).acks != s.acks
    ensures (step.Count? || step.Fence?) && Apply(s, step).acks == s.acks + [step.i]
    ensures step.i !in s.acks && forall j :: 0 <= j < |s.transfers[step.i].pieces| ==> j in s.landed[step.i]
  {
    assert step.Count? || step.Fence?;
    var i := step.i;
    var n, c := |s.transfers[i].pieces|, s.counted[i];
    assert CountInv(s, i);
    if step.Count? { CountAckIsLast(s, i, step.j, n, c); } else { FenceAckIsLast(s, i, n, c); }
  }

  lemma CountAckIsLast(s: State, i: nat, j: nat, n: nat, c: set<nat>)
    requires Shape(s) && Enabled(s, Count(i, j)) && Apply(s, Count(i, j)).acks != s.acks && CountInv(s, i)
    requires n == |s.transfers[i].pieces| && c == s.counted[i]
    ensures Apply(s, Count(i, j)).acks == s.acks + [i] && i !in s.acks
    ensures forall x :: 0 <= x < n ==> x in s.landed[i]
  {
    SubsetOfBelow(c, n);
    SubsetOfBelow(c + {j}, n);
    assert |c + {j}| == |c| + 1;
    CountWriteStep(s.table, s.transfers[i].key, n, |c|, i in s.fenced, s.transfers[i].fence);
    assert c + {j} == Below(n);
  }

  lemma FenceAckIsLast(s: State, i: nat, n: nat, c: set<nat>)
    requires Shape(s) && Enabled(s, Fence(i)) && Apply(s, Fence(i)).acks != s.acks && CountInv(s, i)
    requires n == |s.transfers[i].pieces| && c == s.counted[i]
    ensures Apply(s, Fence(i)).acks == s.acks + [i] && i !in s.acks
    ensures forall x :: 0 <= x < n ==> x in s.landed[i]
  {
    SubsetOfBelow(c, n);
    CountFenceStep(s.table, s.transfers[i].key, n, |c|, s.transfers[i].fence);
    assert c == Below(n);
  }

  /** In every run, when a fence is acknowledged every piece that was written under it is in memory. */
  lemma AckMeansStored(trace: seq<State>, steps: seq<Step>, n: nat)
    requires IsRun(trace, steps) && n < |steps| && trace[n + 1].acks != trace[n].acks
    ensures (steps[n].Count? || steps[n].Fence?) && trace[n + 1].acks == trace[n].acks + [steps[n].i]
    ensures steps[n].i !in trace[n].acks && trace[n + 1].transfers == trace[n].transfers
    ensures var t := trace[n].transfers[steps[n].i];
            forall j :: 0 <= j < |t.pieces| ==> Stored(trace[n + 1].mem, t.pieces[j])
  {
    RunSafe(trace, steps, n);
    AckIsLast(trace[n], steps[n]);
    assert MemInv(trace[n], steps[n].i);
  }

  /** No transfer is acknowledged twice; one is exactly when its fence and all its pieces, at least one, are in. */
  lemma AckedExactlyOnce(trace: seq<State>, steps: seq<Step>, n: nat, i: nat)
    requires IsRun(trace, steps) && n < |trace| && i < |trace[n].transfers|
    ensures var s := trace[n];
            && Distinct(s.acks) && |s.counted| == |s.transfers|
            && (i in s.acks <==>
                  && i in s.fenced && 0 < |s.transfers[i].pieces|
                  && forall j :: 0 <= j < |s.transfers[i].pieces| ==> j in s.counted[i])
  {
    RunSafe(trace, steps, n);
    var s := trace[n];
    assert CountInv(s, i);
    var m := |s.transfers[i].pieces|;
    SubsetOfBelow(s.counted[i], m);
    if forall j :: 0 <= j < m ==> j in s.counted[i] {
      assert s.counted[i] == Below(m);
    }
  }

  /** The counter, while the entry exists; and the entry exists from the first arrival to the last. */
  lemma CounterFormula(trace: seq<State>, steps: seq<Step>, n: nat, i: nat)
    requires IsRun(trace, steps) && n < |trace| && i < |trace[n].transfers| && 0 < |trace[n].transfers[i].pieces|
    ensures |trace[n].counted| == |trace[n].transfers|
    ensures var s := trace[n];
            var t, c := s.transfers[i], |s.counted[i]|;
            && (t.key in s.table <==> (i in s.fenced || c > 0) && !(i in s.fenced && c == t.numWrites))
            && (t.key in s.table ==> s.table[t.key].remaining == (if i in s.fenced then t.numWrites else 0) - c)
  {
    RunSafe(trace, steps, n);
    assert CountInv(trace[n], i);
  }

  /** The asserts in the fence's handler hold whenever a fence arrives. */
  lemma FenceAssertsHold(trace: seq<State>, steps: seq<Step>, n: nat)
    requires IsRun(trace, steps) && n < |steps| && steps[n].Fence?
    ensures var t := trace[n].transfers[steps[n].i]; FenceAsserts(trace[n].table, t.key, t.numWrites)
  {
    RunSafe(trace, steps, n);
    FenceSafe(trace[n], steps[n].i);
  }

  // ---------------------------------------------------------------------------------------
  // From the split to the acknowledgement

  /** The transfer that a call of `do_remote_write` and a fence for the count it returned make. */
  ghost function Split(src: seq<byte>, ms: seq<WriteMessage>, count: nat, offset: nat, size: nat, key: Key,
                       fence: int): Transfer
    requires AllReadable(src, ms)
  {
    Transfer(key, fence, count, offset, size, Pieces(src, ms))
  }

  /**
   What any form of `do_remote_write` returns can be sent and fenced: given a new key, room in the
   target and no overlap with an unacknowledged write, its messages make a transfer that may begin.
   */
  lemma SplitMayBegin(src: seq<byte>, whole: Payload, offset: nat, regbase: Option<nat>, limit: nat,
                      ms: seq<WriteMessage>, count: nat, key: Key, fence: int, s: State)
    requires Readable(src, whole) && Written(src, ms, count, whole, offset, regbase, limit)
    requires Shape(s) && 0 < key.sequenceId && offset + |Gathered(src, whole)| <= |s.mem|
    requires forall i :: 0 <= i < |s.transfers| ==> s.transfers[i].key != key
    requires forall i :: 0 <= i < |s.transfers| && i !in s.acks ==>
               Apart(s.transfers[i].offset, s.transfers[i].size, offset, |Gathered(src, whole)|)
    ensures Enabled(s, Begin(Split(src, ms, count, offset, |Gathered(src, whole)|, key, fence)))
  {
    var data, pieces := Gathered(src, whole), Pieces(src, ms);
    forall j | 0 <= j < |pieces|
      ensures offset <= pieces[j].offset && End(pieces[j]) <= offset + |data|
    {
      TilesInside(pieces, offset, data, j);
    }
    forall j, k | 0 <= j < k < |pieces|
      ensures PiecesApart(pieces[j], pieces[k])
    {
      TilesInOrder(pieces, offset, data, j, k);
    }
  }

  /** Transfers keep their numbers, and acknowledgements are only ever added. */
  lemma StepKeeps(s: State, step: Step)
    requires Enabled(s, step)
    ensures s.transfers <= Apply(s, step).transfers && s.acks <= Apply(s, step).acks
  {
  }

  lemma {:induction false} RunKeeps(trace: seq<State>, steps: seq<Step>, a: nat, n: nat)
    requires IsRun(trace, steps) && a <= n < |trace|
    ensures trace[a].transfers <= trace[n].transfers && trace[a].acks <= trace[n].acks
  {
    if a < n {
      RunKeeps(trace, steps, a, n - 1);
      StepKeeps(trace[n - 1], steps[n - 1]);
    }
  }

  /** Step `a` of the run acknowledges transfer `i`. */
  predicate AcksAt(trace: seq<State>, i: nat, a: nat) {
    a + 1 < |trace| && i !in trace[a].acks && i in trace[a + 1].acks
  }

  lemma {:induction false} AckedSometime(trace: seq<State>, steps: seq<Step>, i: nat, b: nat, n: nat) returns (a: nat)
    requires IsRun(trace, steps) && b <= n < |trace| && i !in trace[b].acks && i in trace[n].acks
    ensures b <= a < n && AcksAt(trace, i, a)
    decreases n
  {
    if i in trace[n - 1].acks {
      a := AckedSometime(trace, steps, i, b, n - 1);
    } else {
      a := n - 1;
    }
  }

  lemma AckedOnlyOnce(trace: seq<State>, steps: seq<Step>, i: nat, a: nat, a': nat)
    requires IsRun(trace, steps) && AcksAt(trace, i, a) && AcksAt(trace, i, a')
    ensures a == a'
  {
    if a < a' { RunKeeps(trace, steps, a + 1, a'); }
    if a' < a { RunKeeps(trace, steps, a' + 1, a); }
  }

  /** When a step acknowledges the transfer, the payload's bytes are at the destination. */
  lemma AckMeansArrived(src: seq<byte>, whole: Payload, offset: nat, regbase: Option<nat>, limit: nat,
                        ms: seq<WriteMessage>, count: nat, trace: seq<State>, steps: seq<Step>, i: nat, a: nat)
    requires Readable(src, whole) && Written(src, ms, count, whole, offset, regbase, limit)
    requires IsRun(trace, steps) && AcksAt(trace, i, a) && i < |trace[a].transfers|
    requires var t := trace[a].transfers[i];
             t.pieces == Pieces(src, ms) && t.offset == offset && t.size == |Gathered(src, whole)|
    ensures offset + |Gathered(src, whole)| <= |trace[a + 1].mem|
    ensures trace[a + 1].mem[offset..offset + |Gathered(src, whole)|] == Gathered(src, whole)
  {
    AckMeansStored(trace, steps, a);
    assert steps[a].i == i;
    RunSafe(trace, steps, a + 1);
    assert MemInv(trace[a + 1], i);
    AllStored(Pieces(src, ms), offset, Gathered(src, whole), trace[a + 1].mem);
  }

  /** The promise to whoever waits for the fence of transfer `i`, as far as the run has come at `n`. */
  ghost predicate Delivered(trace: seq<State>, n: nat, i: nat, count: nat, offset: nat, data: seq<byte>)
    requires n < |trace|
  {
    var s := trace[n];
    && i < |s.transfers| == |s.counted| && Distinct(s.acks)
    // acknowledged if and only if the fence and all messages are in
    && (i in s.acks <==> i in s.fenced && forall j :: 0 <= j < count ==> j in s.counted[i])
    // and then by exactly one step, after which the destination held the data
    && (i in s.acks ==> exists a :: 0 <= a < n && AcksAt(trace, i, a))
    && (forall a, a' :: 0 <= a < n && 0 <= a' < n && AcksAt(trace, i, a) && AcksAt(trace, i, a') ==> a == a')
    && (forall a :: 0 <= a < n && AcksAt(trace, i, a) ==> Holds(trace[a + 1].mem, offset, data))
  }

  predicate Holds(mem: seq<byte>, offset: nat, data: seq<byte>) {
    offset + |data| <= |mem| && mem[offset..offset + |data|] == data
  }

  /**
   End to end: take a run in which the messages that some form of `do_remote_write` returned, and a
   fence for the count it returned, begin at step `b`. At every later point, in whatever order writes
   and fences of all transfers arrived, the fence is acknowledged if and only if it and all `count`
   messages are in; by one step only; and that step leaves the payload at the destination.
   */
  lemma EndToEnd(src: seq<byte>, whole: Payload, offset: nat, regbase: Option<nat>, limit: nat,
                 ms: seq<WriteMessage>, count: nat, key: Key, fence: int,
                 trace: seq<State>, steps: seq<Step>, b: nat, n: nat)
    requires Readable(src, whole) && Written(src, ms, count, whole, offset, regbase, limit)
    requires IsRun(trace, steps) && b < n < |trace|
    requires steps[b] == Begin(Split(src, ms, count, offset, |Gathered(src, whole)|, key, fence))
    ensures Delivered(trace, n, |trace[b].transfers|, count, offset, Gathered(src, whole))
  {
    var i := |trace[b].transfers|;
    RunSafe(trace, steps, b);
    RunKeeps(trace, steps, b + 1, n);
    assert trace[b + 1].transfers[i] == steps[b].t;
    assert i !in trace[b].acks;
    AckedExactlyOnce(trace, steps, n, i);
    if i in trace[n].acks {
      var a := AckedSometime(trace, steps, i, b, n);
    }
    forall a, a' | 0 <= a < n && 0 <= a' < n && AcksAt(trace, i, a) && AcksAt(trace, i, a')
      ensures a == a'
    {
      AckedOnlyOnce(trace, steps, i, a, a');
    }
    forall a | 0 <= a < n && AcksAt(trace, i, a)
      ensures Holds(trace[a + 1].mem, offset, Gathered(src, whole))
    {
      AckedAfterBegin(trace, steps, i, b, a);
      RunKeeps(trace, steps, b + 1, a);
      AckMeansArrived(src, whole, offset, regbase, limit, ms, count, trace, steps, i, a);
    }
  }

  /** A transfer is not acknowledged before it has begun. */
  lemma AckedAfterBegin(trace: seq<State>, steps: seq<Step>, i: nat, b: nat, a: nat)
    requires IsRun(trace, steps) && b < |steps| && i == |trace[b].transfers| && AcksAt(trace, i, a)
    ensures b < a
  {
    RunSafe(trace, steps, a + 1);
    if a < b {
      RunKeeps(trace, steps, a + 1, b);
    }
    AckMeansStored(trace, steps, a);
    assert i < |trace[a].transfers|;
  }
}
