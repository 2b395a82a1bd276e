/**
 The spill budget: bytes that queued messages may hold outside the source data pool. A message
 reserves its bytes before it is queued and returns them when its data has moved to the pool.
 */
module Spill {
  import opened Bytes

  datatype Mode = Keep | KeepReg | Copy | Free

  /** `contiguous` tells a ContiguousPayload from a TwoDPayload or SpanPayload. */
  datatype Message = Message(size: nat, msgtype: nat, mode: Mode, contiguous: bool)

  const MSG_TYPES: nat := 256

  /** May `size` more bytes be taken? A limit of 0 means no limit, and some threads are exempt from it. */
  predicate MayTake(limit: nat, current: int, size: nat, exempt: bool) {
    limit == 0 || exempt || current + size <= limit
  }

  /** The total and the counters of all message types. */
  datatype Account = Account(current: int, perType: seq<int>) {
    /** The account after messages of type `t` took `delta` bytes more. */
    function Moved(t: nat, delta: int): Account
      requires t < |perType|
    {
      Account(current + delta, perType[t := perType[t] + delta])
    }
  }

  class SpillAccount {
    const maxSpillBytes: nat   // 0 means no limit
    var currentSpillBytes: nat
    var peakSpillBytes: nat
    const currentPermsg: array<nat>
    const peakPermsg: array<nat>

    ghost predicate Valid()
      reads this, currentPermsg, peakPermsg
    {
      && currentPermsg.Length == peakPermsg.Length == MSG_TYPES && currentPermsg != peakPermsg
      && (forall t :: 0 <= t < MSG_TYPES ==> currentPermsg[t] <= peakPermsg[t])
      && SeqSum(currentPermsg[..]) == currentSpillBytes <= peakSpillBytes
    }

    ghost function View(): Account
      reads this, currentPermsg
    {
      Account(currentSpillBytes, currentPermsg[..])
    }

    constructor (maxSpillBytes: nat)
      ensures Valid() && fresh(currentPermsg) && fresh(peakPermsg)
      ensures this.maxSpillBytes == maxSpillBytes && currentSpillBytes == 0
      ensures currentPermsg[..] == seq(MSG_TYPES, _ => 0)
    {
      this.maxSpillBytes := maxSpillBytes;
      currentSpillBytes, peakSpillBytes := 0, 0;
      currentPermsg := new nat[MSG_TYPES](_ => 0);
      peakPermsg := new nat[MSG_TYPES](_ => 0);
      new;
      ZeroSum(currentPermsg[..]);
    }

    /** Takes the bytes if they fit (or nothing limits them); otherwise the caller sleeps and tries again. */
    method AllocSpillMemory(size: nat, msgtype: nat, alwaysAllow: bool) returns (ok: bool)
      requires Valid() && msgtype < MSG_TYPES
      modifies this`currentSpillBytes, this`peakSpillBytes, currentPermsg, peakPermsg
      ensures Valid()
      ensures ok <==> MayTake(maxSpillBytes, old(currentSpillBytes), size, alwaysAllow)
      ensures View() == if ok then old(View()).Moved(msgtype, size) else old(View())
      ensures peakSpillBytes == if currentSpillBytes > old(peakSpillBytes) then currentSpillBytes
                                else old(peakSpillBytes)
      ensures peakPermsg[..] == if currentPermsg[msgtype] > old(peakPermsg[msgtype])
                                then old(peakPermsg[..])[msgtype := currentPermsg[msgtype]] else old(peakPermsg[..])
    {
      var newSpillBytes := currentSpillBytes + size;
      if maxSpillBytes == 0 || alwaysAllow || newSpillBytes <= maxSpillBytes {
        SeqSumUpdate(currentPermsg[..], msgtype, currentPermsg[msgtype] + size);
        currentSpillBytes := newSpillBytes;
        if newSpillBytes > peakSpillBytes {
          peakSpillBytes := newSpillBytes;
        }
        CountPermsg(size, msgtype);
        return true;
      }
      return false;
    }

    /** The counters of one message type. */
    method CountPermsg(size: nat, msgtype: nat)
      requires msgtype < currentPermsg.Length == peakPermsg.Length && currentPermsg != peakPermsg
      modifies currentPermsg, peakPermsg
      ensures currentPermsg[..] == old(currentPermsg[..])[msgtype := old(currentPermsg[msgtype]) + size]
      ensures peakPermsg[..] == if currentPermsg[msgtype] > old(peakPermsg[msgtype])
                                then old(peakPermsg[..])[msgtype := currentPermsg[msgtype]] else old(peakPermsg[..])
    {
      currentPermsg[msgtype] := currentPermsg[msgtype] + size;
      if currentPermsg[msgtype] > peakPermsg[msgtype] {
        peakPermsg[msgtype] := currentPermsg[msgtype];
      }
    }

    method ReleaseSpillMemory(size: nat, msgtype: nat)
      requires Valid() && msgtype < MSG_TYPES && size <= currentPermsg[msgtype]
      modifies this`currentSpillBytes, currentPermsg
      ensures Valid()
      ensures View() == old(View()).Moved(msgtype, 0 - size)
    {
      SeqSumUpdate(currentPermsg[..], msgtype, currentPermsg[msgtype] - size);
      SeqSumAtLeast(currentPermsg[..], msgtype);
      currentSpillBytes := currentSpillBytes - size;
      currentPermsg[msgtype] := currentPermsg[msgtype] - size;
    }
  }

  lemma {:induction false} ZeroSum(s: seq<nat>)
    requires forall i :: 0 <= i < |s| ==> s[i] == 0
    ensures SeqSum(s) == 0
  {
    if s != [] { ZeroSum(s[1..]); }
  }

  lemma {:induction false} SeqSumAtLeast(s: seq<nat>, i: nat)
    requires i < |s|
    ensures s[i] <= SeqSum(s)
  {
    if i > 0 { SeqSumAtLeast(s[1..], i - 1); }
  }

  // ---------------------------------------------------------------------------------------
  // The life of a message, as far as the budget is concerned

  /** `enqueue_message` reserves for these modes. */
  predicate Reserves(m: Message) {
    m.size > 0 && (m.mode == Copy || m.mode == Free)
  }

  /** The mode that `payload_src->get_payload_mode()` reports once the message waits for pool space. */
  function ParkedMode(m: Message): Mode {
    if m.mode == Copy then Free             // the data was copied into an owned contiguous buffer
    else if m.contiguous then m.mode
    else Keep                               // 2D and span sources do not report their mode
  }

  /** `waited` records whether the message had to wait for pool space. */
  datatype Phase = Fresh | Reserved | Parked | Done(waited: bool)

  datatype State = State(
    limit: nat,
    current: int,
    perType: seq<int>,
    msgs: map<nat, Message>,
    phase: map<nat, Phase>,
    refunds: map<nat, nat>)    // how often each message has given its bytes back

  datatype Step =
    | Create(id: nat, m: Message)
    | Take(id: nat, exempt: bool)   // alloc_spill_memory, if the mode calls for it
    | GrantNow(id: nat)             // reserve_srcdata gets pool space at once
    | Park(id: nat)                 // reserve_srcdata queues the message
    | GrantLater(id: nat)           // assign_srcdata_pointer

  ghost predicate Known(s: State) {
    && s.msgs.Keys == s.phase.Keys == s.refunds.Keys
    && forall id :: id in s.msgs ==> s.msgs[id].msgtype < |s.perType|
  }

  ghost predicate Enabled(s: State, step: Step)
    requires Known(s)
  {
    match step
    case Create(id, m) => id !in s.msgs && m.msgtype < |s.perType|
    case Take(id, exempt) =>
      && id in s.msgs && s.phase[id] == Fresh
      && (Reserves(s.msgs[id]) ==> MayTake(s.limit, s.current, s.msgs[id].size, exempt))
    case GrantNow(id) => id in s.msgs && s.phase[id] == Reserved
    case Park(id) => id in s.msgs && s.phase[id] == Reserved
    case GrantLater(id) => id in s.msgs && s.phase[id] == Parked
  }

  function Move(s: State, t: nat, delta: int): State
    requires t < |s.perType|
  {
    var now := Account(s.current, s.perType).Moved(t, delta);
    s.(current := now.current, perType := now.perType)
  }

  ghost function Refund(s: State, id: nat, due: bool): State
    requires Known(s) && id in s.msgs
  {
    if due && s.msgs[id].size > 0
    then Move(s, s.msgs[id].msgtype, 0 - s.msgs[id].size).(refunds := s.refunds[id := s.refunds[id] + 1])
    else s
  }

  ghost function Apply(s: State, step: Step): State
    requires Known(s) && Enabled(s, step)
  {
    match step
    case Create(id, m) =>
      s.(msgs := s.msgs[id := m], phase := s.phase[id := Fresh], refunds := s.refunds[id := 0])
    case Take(id, _) =>
      (var m := s.msgs[id];
       var moved := if Reserves(m) then Move(s, m.msgtype, m.size) else s;
       moved.(phase := s.phase[id := Reserved]))
    case GrantNow(id) =>
      Refund(s, id, s.msgs[id].mode == Copy || s.msgs[id].mode == Free).(phase := s.phase[id := Done(false)])
    case Park(id) => s.(phase := s.phase[id := Parked])
    case GrantLater(id) =>
      Refund(s, id, ParkedMode(s.msgs[id]) == Free).(phase := s.phase[id := Done(true)])
  }

  /** A FREE message with a 2D or span source that had to wait. */
  predicate Leaks(m: Message, ph: Phase) {
    ph == Done(true) && Reserves(m) && m.mode == Free && !m.contiguous
  }

  function HeldBy(m: Message, ph: Phase): nat {
    if Reserves(m) && ph != Fresh && (ph.Done? ==> Leaks(m, ph)) then m.size else 0
  }

  /** The bytes that each message holds, over all types or for one of them. */
  ghost function Held(s: State): map<nat, nat>
    requires Known(s)
  {
    map id | id in s.msgs :: HeldBy(s.msgs[id], s.phase[id])
  }

  ghost function HeldOfType(s: State, t: nat): map<nat, nat>
    requires Known(s)
  {
    map id | id in s.msgs :: if s.msgs[id].msgtype == t then HeldBy(s.msgs[id], s.phase[id]) else 0
  }

  ghost predicate Inv(s: State) {
    Known(s) && SumsInv(s) && RefundsInv(s)
  }

  /** Whether a message's bytes have been given back. */
  predicate Refunded(m: Message, ph: Phase) {
    ph.Done? && Reserves(m) && !Leaks(m, ph)
  }

  ghost predicate RefundsInv(s: State)
    requires Known(s)
  {
    forall id :: id in s.msgs ==> s.refunds[id] == if Refunded(s.msgs[id], s.phase[id]) then 1 else 0
  }

  lemma RefundsAfter(s: State, s': State, id: nat)
    requires Known(s) && RefundsInv(s) && Known(s') && id in s.msgs && s'.msgs == s.msgs
    requires s'.phase == s.phase[id := s'.phase[id]] && s'.refunds == s.refunds[id := s'.refunds[id]]
    requires s'.refunds[id] == if Refunded(s.msgs[id], s'.phase[id]) then 1 else 0
    ensures RefundsInv(s')
  {
    forall o | o in s'.msgs
      ensures s'.refunds[o] == if Refunded(s'.msgs[o], s'.phase[o]) then 1 else 0
    {
      if o != id { assert s'.phase[o] == s.phase[o] && s'.refunds[o] == s.refunds[o]; }
    }
  }

  lemma HeldAfter(s: State, s': State, id: nat)
    requires Known(s) && Known(s') && id in s.msgs && s'.msgs == s.msgs && s'.phase == s.phase[id := s'.phase[id]]
    ensures MapSum(Held(s')) == MapSum(Held(s)) + HeldBy(s.msgs[id], s'.phase[id]) - HeldBy(s.msgs[id], s.phase[id])
  {
    var now := HeldBy(s.msgs[id], s'.phase[id]);
    var before, after := Held(s), Held(s');
    assert after.Keys == before[id := now].Keys;
    forall o | o in after
      ensures after[o] == before[id := now][o]
    {
      if o != id { assert s'.phase[o] == s.phase[o]; }
    }
    assert after == before[id := now];
    MapSumUpdate(before, id, now);
  }

  lemma HeldOfTypeAfter(s: State, s': State, id: nat, t: nat)
    requires Known(s) && Known(s') && id in s.msgs && s'.msgs == s.msgs && s'.phase == s.phase[id := s'.phase[id]]
    ensures MapSum(HeldOfType(s', t)) == MapSum(HeldOfType(s, t))
         + if s.msgs[id].msgtype == t then HeldBy(s.msgs[id], s'.phase[id]) - HeldBy(s.msgs[id], s.phase[id]) else 0
  {
    var share := if s.msgs[id].msgtype == t then HeldBy(s.msgs[id], s'.phase[id]) else 0;
    var before, after := HeldOfType(s, t), HeldOfType(s', t);
    assert after.Keys == before[id := share].Keys;
    forall o | o in after
      ensures after[o] == before[id := share][o]
    {
      if o != id { assert s'.phase[o] == s.phase[o]; }
    }
    assert after == before[id := share];
    MapSumUpdate(before, id, share);
  }

  ghost predicate SumsInv(s: State)
    requires Known(s)
  {
    && s.current == MapSum(Held(s))
    && (forall t: nat :: t < |s.perType| ==> s.perType[t] == MapSum(HeldOfType(s, t)))
  }

  /** A move of the counters that matches what one message comes to hold or gives up. */
  lemma MoveSafe(s: State, s': State, id: nat, t: nat, delta: int)
    requires Known(s) && SumsInv(s) && Known(s') && id in s.msgs && s'.msgs == s.msgs
    requires s'.phase == s.phase[id := s'.phase[id]]
    requires t == s.msgs[id].msgtype && delta == HeldBy(s.msgs[id], s'.phase[id]) - HeldBy(s.msgs[id], s.phase[id])
    requires s'.current == s.current + delta && s'.perType == s.perType[t := s.perType[t] + delta]
    ensures SumsInv(s')
  {
    HeldAfter(s, s', id);
    forall u: nat | u < |s'.perType|
      ensures s'.perType[u] == MapSum(HeldOfType(s', u))
    {
      HeldOfTypeAfter(s, s', id, u);
    }
  }

  lemma HeldCreate(s: State, s': State, id: nat, t: nat)
    requires Known(s) && Known(s') && id !in s.msgs && id in s'.msgs
    requires s'.msgs == s.msgs[id := s'.msgs[id]] && s'.phase == s.phase[id := Fresh]
    ensures MapSum(Held(s')) == MapSum(Held(s)) && MapSum(HeldOfType(s', t)) == MapSum(HeldOfType(s, t))
  {
    var all, all', one, one' := Held(s), Held(s'), HeldOfType(s, t), HeldOfType(s', t);
    assert all'.Keys == all[id := 0].Keys && one'.Keys == one[id := 0].Keys;
    forall o | o in all'
      ensures all'[o] == all[id := 0][o] && one'[o] == one[id := 0][o]
    {
      if o != id { assert s'.phase[o] == s.phase[o] && s'.msgs[o] == s.msgs[o]; }
    }
    assert all' == all[id := 0] && one' == one[id := 0];
    MapSumAdd(all, id, 0);
    MapSumAdd(one, id, 0);
  }

  lemma CreateSafe(s: State, id: nat, m: Message)
    requires Inv(s) && Enabled(s, Create(id, m))
    ensures Inv(Apply(s, Create(id, m)))
  {
    var s' := Apply(s, Create(id, m));
    forall t: nat | t < |s'.perType|
      ensures MapSum(Held(s')) == MapSum(Held(s)) && s'.perType[t] == MapSum(HeldOfType(s', t))
    {
      HeldCreate(s, s', id, t);
    }
    HeldCreate(s, s', id, 0);
  }

  lemma NoMove(s: seq<int>, t: nat)
    requires t < |s|
    ensures s[t := s[t] + 0] == s
  {
  }

  lemma TakeSafe(s: State, id: nat, exempt: bool)
    requires Inv(s) && Enabled(s, Take(id, exempt))
    ensures Inv(Apply(s, Take(id, exempt)))
  {
    NoMove(s.perType, s.msgs[id].msgtype);
    var m := s.msgs[id];
    var delta := if Reserves(m) then m.size else 0;
    assert HeldBy(m, Reserved) - HeldBy(m, Fresh) == delta;
    var s' := Apply(s, Take(id, exempt));
    RefundsAfter(s, s', id);
    MoveSafe(s, s', id, m.msgtype, delta);
  }

  lemma ParkSafe(s: State, id: nat)
    requires Inv(s) && Enabled(s, Park(id))
    ensures Inv(Apply(s, Park(id)))
  {
    NoMove(s.perType, s.msgs[id].msgtype);
    MoveSafe(s, Apply(s, Park(id)), id, s.msgs[id].msgtype, 0);
  }

  /** A message moves to the pool; it is refunded exactly when it holds bytes and does not leak. */
  lemma FinishSafe(s: State, id: nat, due: bool, waited: bool)
    requires Inv(s) && id in s.msgs && (s.phase[id] == Reserved || s.phase[id] == Parked)
    requires due && s.msgs[id].size > 0 <==> Reserves(s.msgs[id]) && !Leaks(s.msgs[id], Done(waited))
    ensures Inv(Refund(s, id, due).(phase := s.phase[id := Done(waited)]))
  {
    var m, s' := s.msgs[id], Refund(s, id, due).(phase := s.phase[id := Done(waited)]);
    var delta := if due && m.size > 0 then 0 - m.size else 0;
    FinishShape(s, s', id, due, waited, m.msgtype, delta);
    FinishSums(s, s', id, due, waited, m, delta);
    FinishRefunds(s, s', id, due, waited, m);
  }

  lemma FinishSums(s: State, s': State, id: nat, due: bool, waited: bool, m: Message, delta: int)
    requires Known(s) && SumsInv(s) && Known(s') && id in s.msgs && s'.msgs == s.msgs && m == s.msgs[id]
    requires s.phase[id] == Reserved || s.phase[id] == Parked
    requires due && m.size > 0 <==> Reserves(m) && !Leaks(m, Done(waited))
    requires s'.phase == s.phase[id := Done(waited)] && delta == if due && m.size > 0 then 0 - m.size else 0
    requires s'.current == s.current + delta && s'.perType == s.perType[m.msgtype := s.perType[m.msgtype] + delta]
    ensures SumsInv(s')
  {
    FinishDelta(m, s.phase[id], due, waited);
    MoveSafe(s, s', id, m.msgtype, delta);
  }

  lemma FinishRefunds(s: State, s': State, id: nat, due: bool, waited: bool, m: Message)
    requires Known(s) && RefundsInv(s) && Known(s') && id in s.msgs && s'.msgs == s.msgs && m == s.msgs[id]
    requires s.phase[id] == Reserved || s.phase[id] == Parked
    requires due && m.size > 0 <==> Reserves(m) && !Leaks(m, Done(waited))
    requires s'.phase == s.phase[id := Done(waited)]
    requires s'.refunds == s.refunds[id := s.refunds[id] + if due && m.size > 0 then 1 else 0]
    ensures RefundsInv(s')
  {
    FinishDelta(m, s.phase[id], due, waited);
    RefundsAfter(s, s', id);
  }

  lemma FinishShape(s: State, s': State, id: nat, due: bool, waited: bool, t: nat, delta: int)
    requires Known(s) && id in s.msgs && s' == Refund(s, id, due).(phase := s.phase[id := Done(waited)])
    requires t == s.msgs[id].msgtype && delta == if due && s.msgs[id].size > 0 then 0 - s.msgs[id].size else 0
    ensures Known(s') && s'.msgs == s.msgs && s'.phase == s.phase[id := Done(waited)]
    ensures s'.current == s.current + delta && s'.perType == s.perType[t := s.perType[t] + delta]
    ensures s'.refunds == s.refunds[id := s.refunds[id] + if due && s.msgs[id].size > 0 then 1 else 0]
  {
    NoMove(s.perType, t);
  }

  lemma FinishDelta(m: Message, before: Phase, due: bool, waited: bool)
    requires before == Reserved || before == Parked
    requires due && m.size > 0 <==> Reserves(m) && !Leaks(m, Done(waited))
    ensures HeldBy(m, Done(waited)) - HeldBy(m, before) == if due && m.size > 0 then 0 - m.size else 0
    ensures Refunded(m, Done(waited)) == (due && m.size > 0) && !Refunded(m, before)
  {
  }

  lemma StepSafe(s: State, step: Step)
    requires Inv(s) && Enabled(s, step)
    ensures Inv(Apply(s, step))
  {
    match step
    case Create(id, m) => CreateSafe(s, id, m);
    case Take(id, exempt) => TakeSafe(s, id, exempt);
    case GrantNow(id) => FinishSafe(s, id, s.msgs[id].mode == Copy || s.msgs[id].mode == Free, false);
    case Park(id) => ParkSafe(s, id);
    case GrantLater(id) => FinishSafe(s, id, ParkedMode(s.msgs[id]) == Free, true);
  }

  ghost predicate Init(s: State) {
    s.current == 0 && s.perType == seq(|s.perType|, _ => 0) && s.msgs == map[] && s.phase == map[] && s.refunds == map[]
  }

  ghost predicate IsRun(trace: seq<State>, steps: seq<Step>) {
    && |trace| == |steps| + 1 && Init(trace[0])
    && forall i :: 0 <= i < |steps| ==>
         Known(trace[i]) && Enabled(trace[i], steps[i]) && trace[i + 1] == Apply(trace[i], steps[i])
  }

  lemma {:induction false} RunSafe(trace: seq<State>, steps: seq<Step>, n: nat)
    requires IsRun(trace, steps) && n < |trace|
    ensures Inv(trace[n]) && trace[n].limit == trace[0].limit
  {
    if n == 0 {
      assert Held(trace[0]) == map[];
      assert forall t: nat :: HeldOfType(trace[0], t) == map[];
    } else {
      RunSafe(trace, steps, n - 1);
      StepSafe(trace[n - 1], steps[n - 1]);
    }
  }

  /**
   In every run, a message that reserved bytes returns them exactly once, if and only if it did not
   have to wait, or its mode is COPY, or its source is contiguous.
   */
  lemma RefundedOnce(trace: seq<State>, steps: seq<Step>, n: nat, id: nat)
    requires IsRun(trace, steps) && n < |trace| && id in trace[n].msgs
    ensures id in trace[n].phase && id in trace[n].refunds && trace[n].refunds[id] <= 1
    ensures trace[n].phase[id].Done? && Reserves(trace[n].msgs[id]) ==>
              (trace[n].refunds[id] == 1
               <==> !trace[n].phase[id].waited || trace[n].msgs[id].mode == Copy || trace[n].msgs[id].contiguous)
  {
    RunSafe(trace, steps, n);
  }

  /** When all messages have moved to the pool, the account is even exactly when no message leaked. */
  lemma AccountEven(trace: seq<State>, steps: seq<Step>, n: nat)
    requires IsRun(trace, steps) && n < |trace|
    requires forall id :: id in trace[n].phase ==> trace[n].phase[id].Done?
    ensures trace[n].msgs.Keys == trace[n].phase.Keys
    ensures trace[n].current == 0 <==>
              forall id :: id in trace[n].msgs ==> !Leaks(trace[n].msgs[id], trace[n].phase[id])
  {
    RunSafe(trace, steps, n);
    var s := trace[n];
    if forall id :: id in s.msgs ==> !Leaks(s.msgs[id], s.phase[id]) {
      ZeroMapSum(Held(s));
    } else {
      var id :| id in s.msgs && Leaks(s.msgs[id], s.phase[id]);
      MapSumRemove(Held(s), id);
    }
  }

  lemma {:induction false} ZeroMapSum(m: map<nat, nat>)
    requires forall k :: k in m ==> m[k] == 0
    ensures MapSum(m) == 0
    decreases |m|
  {
    if m != map[] {
      var k :| k in m && MapSum(m) == m[k] + MapSum(m - {k});
      assert (m - {k}).Keys == m.Keys - {k};
      ZeroMapSum(m - {k});
    }
  }

  /** With a limit and no exempt thread, the total never exceeds the limit. */
  lemma {:induction false} LimitRespected(trace: seq<State>, steps: seq<Step>, n: nat)
    requires IsRun(trace, steps) && n < |trace| && 0 < trace[0].limit
    requires forall i :: 0 <= i < |steps| && steps[i].Take? ==> !steps[i].exempt
    ensures trace[n].current <= trace[0].limit
  {
    if n > 0 {
      LimitRespected(trace, steps, n - 1);
      RunSafe(trace, steps, n - 1);
      StepLimited(trace[n - 1], steps[n - 1]);
    }
  }

  lemma StepLimited(s: State, step: Step)
    requires Known(s) && Enabled(s, step) && s.limit > 0 && (step.Take? ==> !step.exempt) && s.current <= s.limit
    ensures Apply(s, step).limit == s.limit && Apply(s, step).current <= s.limit
  {
  }

  /** The leak exists: a FREE message with a 2D source waits for the pool and is then sent. */
  lemma FreeTwoDLeaks(s: State, id: nat, size: nat)
    requires Inv(s) && s.limit == 0 && id !in s.msgs && 0 < size && 0 < |s.perType|
    ensures var m := Message(size, 0, Free, false);
            var s1 := Apply(s, Create(id, m));
            var s2 := Apply(s1, Take(id, false));
            var s3 := Apply(s2, Park(id));
            Apply(s3, GrantLater(id)).current == s.current + size
  {
  }
}
