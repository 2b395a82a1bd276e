/**
 Many endpoints, one source data pool. Messages are queued in order, reserve pool space while their
 endpoint's mutex is held, wait for each other's releases, and must never end up waiting in a circle.
 */
module PoolQueues {
  import opened Bytes
  import opened FreeList
  import opened SourcePool

  /**
   A message is named by its place in the order in which messages reserved pool space (taking the
   pool's lock), over all endpoints.
   */
  datatype State = State(
    pool: Pool,
    queues: seq<seq<nat>>,       // the long queue of every endpoint
    holding: map<nat, nat>,      // endpoint -> message reserved but not yet queued; its mutex is held
    copying: set<nat>,           // granted a span by a release, data not yet copied (mode still PENDING)
    spans: map<nat, int>,        // message -> its span, until the span is released
    usesPool: set<nat>,          // messages that need a span at all
    next: nat)

  datatype Step =
    | ReserveNext(e: nat, needsPool: bool, size: nat)  // lock the endpoint and call reserve_srcdata
    | Append(e: nat)                                   // push onto the long queue and unlock
    | Pop(e: nat)                                      // push_messages sends the front message
    | SpanReleased(m: nat)                             // MSGID_RELEASE_SRCPTR arrives for a sent message
    | Assign(m: nat)                                   // assign_srcdata_pointer for a granted message

  function Ids(pending: seq<Request>): seq<nat> {
    seq(|pending|, i requires 0 <= i < |pending| => pending[i].id)
  }

  /** PAYLOAD_PENDING because the pool has no span for it. */
  predicate Waiting(s: State, m: nat) {
    m in Ids(s.pool.pending)
  }

  predicate Unsent(s: State, m: nat) {
    || (exists e :: 0 <= e < |s.queues| && m in s.queues[e])
    || m in s.holding.Values
  }

  predicate Enabled(s: State, step: Step) {
    match step
    case ReserveNext(e, needsPool, size) =>
      e < |s.queues| && e !in s.holding && (needsPool ==> 0 < size <= s.pool.total)
    case Append(e) => e < |s.queues| && e in s.holding
    case Pop(e) => e < |s.queues| && s.queues[e] != [] && !Waiting(s, s.queues[e][0]) && s.queues[e][0] !in s.copying
    case SpanReleased(m) => m in s.spans && !Unsent(s, m) && s.spans[m] in s.pool.used
    case Assign(m) => m in s.copying
  }

  function Apply(s: State, step: Step): State
    requires Enabled(s, step)
  {
    match step
    case ReserveNext(e, needsPool, size) =>
      var held := s.(holding := s.holding[e := s.next], next := s.next + 1);
      if !needsPool then held else
        var (pool, ptr) := Reserve(s.pool, Request(s.next, size));
        held.(pool := pool, usesPool := s.usesPool + {s.next},
              spans := if ptr != 0 then s.spans[s.next := ptr] else s.spans)
    case Append(e) =>
      s.(queues := s.queues[e := s.queues[e] + [s.holding[e]]], holding := s.holding - {e})
    case Pop(e) => s.(queues := s.queues[e := s.queues[e][1..]])
    case SpanReleased(m) =>
      var r := Release(s.pool, s.spans[m]);
      AfterRelease(s, m, r)
    case Assign(m) => s.(copying := s.copying - {m})
  }

  function AfterRelease(s: State, m: nat, r: Released): State {
    match r.granted
    case None => AfterRefusal(s, m, r.pool)
    case Some((req, at)) => AfterGrant(s, m, r.pool, req.id, at)
  }

  function AfterRefusal(s: State, m: nat, pool: Pool): State {
    s.(pool := pool, spans := s.spans - {m})
  }

  function AfterGrant(s: State, m: nat, pool: Pool, g: nat, at: int): State {
    s.(pool := pool, spans := (s.spans - {m})[g := at], copying := s.copying + {g})
  }

  predicate Increasing(q: seq<nat>) {
    forall i, j :: 0 <= i < j < |q| ==> q[i] < q[j]
  }

  // ---------------------------------------------------------------------------------------
  // The invariant

  /** The pool's queue and every endpoint's queue are in reservation order, with all waiters at the end. */
  ghost predicate OrderInv(s: State) {
    && Increasing(Ids(s.pool.pending))
    && (forall m :: m in Ids(s.pool.pending) ==> m < s.next && m in s.usesPool)
    && (forall m :: m in s.usesPool ==> m < s.next)
    && (forall e :: 0 <= e < |s.queues| ==> Increasing(s.queues[e]))
    && (forall e, m :: 0 <= e < |s.queues| && m in s.queues[e] ==> m < s.next)
    && (forall e :: e in s.holding ==> e < |s.queues| && s.holding[e] < s.next)
    && (forall e, m :: e in s.holding && e < |s.queues| && m in s.queues[e] ==> m < s.holding[e])
    // a message that has been served reserved before every message that waits
    && (forall m, w :: m in s.usesPool && !Waiting(s, m) && Waiting(s, w) ==> m < w)
  }

  /** Spans in use and messages match up one to one. */
  ghost predicate Matched(spans: map<nat, int>, used: set<int>) {
    && (forall m :: m in spans ==> spans[m] in used)
    && (forall m, n :: m in spans && n in spans && m != n ==> spans[m] != spans[n])
    && (forall a :: a in used ==> exists m :: m in spans && spans[m] == a)
  }

  lemma MatchAdd(spans: map<nat, int>, used: set<int>, m: nat, at: int)
    requires Matched(spans, used) && m !in spans && at !in used
    ensures Matched(spans[m := at], used + {at})
  {
    var after := spans[m := at];
    forall a | a in used + {at}
      ensures exists o :: o in after && after[o] == a
    {
      if a == at {
        assert after[m] == a;
      } else {
        var o :| o in spans && spans[o] == a;
        assert after[o] == a;
      }
    }
  }

  lemma MatchRemove(spans: map<nat, int>, used: set<int>, m: nat)
    requires Matched(spans, used) && m in spans
    ensures Matched(spans - {m}, used - {spans[m]})
  {
    var after := spans - {m};
    forall a | a in used - {spans[m]}
      ensures exists o :: o in after && after[o] == a
    {
      var o :| o in spans && spans[o] == a;
      assert after[o] == a;
    }
  }

  ghost predicate SpanInv(s: State) {
    && Matched(s.spans, s.pool.used.Keys)
    && (forall m :: m in s.spans ==> m in s.usesPool && !Waiting(s, m))
    && (forall m :: m in s.copying ==> m in s.spans && Unsent(s, m))
    // a message that needs a span and is not sent has one or waits for one
    && (forall m :: m in s.usesPool && Unsent(s, m) && !Waiting(s, m) ==> m in s.spans)
    && (forall m :: Waiting(s, m) ==> Unsent(s, m))
  }

  ghost predicate Inv(s: State) {
    PoolInv(s.pool) && OrderInv(s) && SpanInv(s)
  }

  // ---------------------------------------------------------------------------------------
  // Every step keeps the invariant

  /** Locking an endpoint adds exactly the new message to the unsent ones. */
  lemma UnsentAfterReserve(s: State, s': State, e: nat)
    requires e !in s.holding && s'.queues == s.queues && s'.holding == s.holding[e := s.next]
    ensures forall m :: Unsent(s', m) <==> Unsent(s, m) || m == s.next
  {
    forall m
      ensures Unsent(s', m) <==> Unsent(s, m) || m == s.next
    {
      assert s'.holding[e] == s.next;
      if m in s.holding.Values {
        var o :| o in s.holding && s.holding[o] == m;
        assert o in s'.holding && s'.holding[o] == m;
      }
    }
  }

  lemma IdsAppend(pending: seq<Request>, r: Request)
    ensures Ids(pending + [r]) == Ids(pending) + [r.id]
  {
  }

  lemma IncreasingAppend(q: seq<nat>, m: nat)
    requires Increasing(q) && forall x :: x in q ==> x < m
    ensures Increasing(q + [m])
  {
    forall i, j | 0 <= i < j < |q + [m]|
      ensures (q + [m])[i] < (q + [m])[j]
    {
      assert q[i] in q;
    }
  }

  lemma ReserveFreeSafe(s: State, e: nat, size: nat)
    requires OrderInv(s) && SpanInv(s) && Enabled(s, ReserveNext(e, false, size))
    ensures OrderInv(Apply(s, ReserveNext(e, false, size))) && SpanInv(Apply(s, ReserveNext(e, false, size)))
  {
    UnsentAfterReserve(s, Apply(s, ReserveNext(e, false, size)), e);
  }

  /** A span granted on the spot: nobody was waiting. */
  lemma GrantedNow(s: State, s': State, e: nat, pool: Pool, ptr: int, size: nat)
    requires OrderInv(s) && SpanInv(s) && e < |s.queues| && e !in s.holding
    requires s.pool.pending == [] && pool.pending == [] && ptr !in s.pool.used && pool.used == s.pool.used[ptr := size]
    requires s' == s.(holding := s.holding[e := s.next], next := s.next + 1, pool := pool,
                      usesPool := s.usesPool + {s.next}, spans := s.spans[s.next := ptr])
    ensures OrderInv(s') && SpanInv(s')
  {
    UnsentAfterReserve(s, s', e);
    GrantedOrder(s, s', e);
    GrantedSpans(s, s', s.next, ptr);
  }

  lemma GrantedOrder(s: State, s': State, e: nat)
    requires OrderInv(s) && e < |s.queues| && s'.queues == s.queues && s'.holding == s.holding[e := s.next]
    requires s.pool.pending == s'.pool.pending == [] && s'.next == s.next + 1 && s'.usesPool == s.usesPool + {s.next}
    ensures OrderInv(s')
  {
  }

  lemma GrantedSpans(s: State, s': State, m: nat, ptr: int)
    requires SpanInv(s) && s.pool.pending == s'.pool.pending == [] && m !in s.spans
    requires ptr !in s.pool.used && s'.pool.used.Keys == s.pool.used.Keys + {ptr} && s'.spans == s.spans[m := ptr]
    requires s'.usesPool == s.usesPool + {m} && s'.copying == s.copying
    requires forall o :: Unsent(s', o) <==> Unsent(s, o) || o == m
    ensures SpanInv(s')
  {
    assert forall o :: !Waiting(s, o) && !Waiting(s', o);
    MatchAdd(s.spans, s.pool.used.Keys, m, ptr);
  }

  /** A request that joins the pool's queue goes behind everybody. */
  lemma QueuedNow(s: State, s': State, e: nat, size: nat)
    requires OrderInv(s) && SpanInv(s) && e < |s.queues| && e !in s.holding
    requires s' == s.(holding := s.holding[e := s.next], next := s.next + 1,
                      pool := s.pool.(pending := s.pool.pending + [Request(s.next, size)]),
                      usesPool := s.usesPool + {s.next})
    ensures OrderInv(s') && SpanInv(s')
  {
    IdsAppend(s.pool.pending, Request(s.next, size));
    IncreasingAppend(Ids(s.pool.pending), s.next);
    UnsentAfterReserve(s, s', e);
    assert forall m :: Waiting(s', m) <==> Waiting(s, m) || m == s.next;
  }

  lemma ReserveSafe(s: State, e: nat, size: nat)
    requires Inv(s) && Enabled(s, ReserveNext(e, true, size))
    ensures Inv(Apply(s, ReserveNext(e, true, size)))
  {
    var s' := Apply(s, ReserveNext(e, true, size));
    var (pool, ptr) := Reserve(s.pool, Request(s.next, size));
    ReserveOk(s.pool, Request(s.next, size));
    if ptr != 0 {
      GrantedNow(s, s', e, pool, ptr, RoundUp(size));
    } else {
      QueuedNow(s, s', e, size);
    }
  }

  /** Queueing the held message leaves the set of unsent messages as it is. */
  lemma UnsentAfterAppend(s: State, e: nat)
    requires Enabled(s, Append(e))
    ensures forall m :: Unsent(Apply(s, Append(e)), m) <==> Unsent(s, m)
  {
    var s' := Apply(s, Append(e));
    forall m
      ensures Unsent(s', m) <==> Unsent(s, m)
    {
      if o :| 0 <= o < |s.queues| && m in s.queues[o] {
        assert m in s'.queues[o];
      } else if m in s.holding.Values {
        var o :| o in s.holding && s.holding[o] == m;
        if o == e { assert m in s'.queues[e]; } else { assert o in s'.holding && s'.holding[o] == m; }
      }
      if o :| 0 <= o < |s'.queues| && m in s'.queues[o] {
        assert m in s.queues[o] || m == s.holding[e];
      } else if m in s'.holding.Values {
        var o :| o in s'.holding && s'.holding[o] == m;
        assert o in s.holding && s.holding[o] == m;
      }
    }
  }

  lemma AppendSafe(s: State, e: nat)
    requires OrderInv(s) && SpanInv(s) && Enabled(s, Append(e))
    ensures OrderInv(Apply(s, Append(e))) && SpanInv(Apply(s, Append(e)))
  {
    UnsentAfterAppend(s, e);
    var s' := Apply(s, Append(e));
    IncreasingAppend(s.queues[e], s.holding[e]);
    assert forall o, m :: 0 <= o < |s'.queues| && m in s'.queues[o] ==>
             m in s.queues[o] || (o == e && m == s.holding[e]);
    assert forall o :: 0 <= o < |s'.queues| ==>
             s'.queues[o] == if o == e then s.queues[e] + [s.holding[e]] else s.queues[o];
    assert forall m :: Waiting(s', m) <==> Waiting(s, m);
  }

  lemma UnsentAfterPop(s: State, e: nat)
    requires Enabled(s, Pop(e))
    ensures forall m :: Unsent(Apply(s, Pop(e)), m) ==> Unsent(s, m)
    ensures forall m :: m != s.queues[e][0] && Unsent(s, m) ==> Unsent(Apply(s, Pop(e)), m)
  {
    var s' := Apply(s, Pop(e));
    forall m | m != s.queues[e][0] && Unsent(s, m)
      ensures Unsent(s', m)
    {
      if o :| 0 <= o < |s.queues| && m in s.queues[o] {
        assert m in s'.queues[o];
      }
    }
    forall m | Unsent(s', m)
      ensures Unsent(s, m)
    {
      if o :| 0 <= o < |s'.queues| && m in s'.queues[o] {
        assert m in s.queues[o];
      }
    }
  }

  lemma PopSafe(s: State, e: nat)
    requires OrderInv(s) && SpanInv(s) && Enabled(s, Pop(e))
    ensures OrderInv(Apply(s, Pop(e))) && SpanInv(Apply(s, Pop(e)))
  {
    UnsentAfterPop(s, e);
    var s' := Apply(s, Pop(e));
    assert forall o, m :: 0 <= o < |s'.queues| && m in s'.queues[o] ==> m in s.queues[o];
    assert forall m :: Waiting(s', m) <==> Waiting(s, m);
  }

  lemma RefusalSafe(s: State, m: nat, pool: Pool)
    requires OrderInv(s) && SpanInv(s) && m in s.spans && !Unsent(s, m)
    requires pool.pending == s.pool.pending && pool.used == s.pool.used - {s.spans[m]}
    ensures OrderInv(AfterRefusal(s, m, pool)) && SpanInv(AfterRefusal(s, m, pool))
  {
    var s' := AfterRefusal(s, m, pool);
    assert forall n :: Waiting(s', n) <==> Waiting(s, n);
    assert forall n :: Unsent(s', n) <==> Unsent(s, n);
    MatchRemove(s.spans, s.pool.used.Keys, m);
    assert pool.used.Keys == s.pool.used.Keys - {s.spans[m]};
  }

  lemma FrontLeaves(ids: seq<nat>, g: nat, ids': seq<nat>)
    requires ids == [g] + ids' && Increasing(ids)
    ensures Increasing(ids') && g in ids && g !in ids' && (forall w :: w in ids <==> w == g || w in ids')
    ensures forall w :: w in ids' ==> g < w
  {
    assert ids[0] == g;
    forall i | 0 <= i < |ids'|
      ensures g < ids'[i]
    {
      assert ids[i + 1] == ids'[i];
    }
    forall i, j | 0 <= i < j < |ids'|
      ensures ids'[i] < ids'[j]
    {
      assert ids[i + 1] < ids[j + 1];
    }
  }

  /** The front request leaves the pool's queue; nothing else about who waits or is sent changes. */
  lemma GrantMoves(s: State, m: nat, pool: Pool, g: nat, at: int)
    requires OrderInv(s) && Ids(s.pool.pending) == [g] + Ids(pool.pending)
    ensures var s' := AfterGrant(s, m, pool, g, at);
            && Increasing(Ids(pool.pending)) && Waiting(s, g)
            && (forall n :: Waiting(s', n) ==> g < n)
            && (forall n :: Waiting(s, n) <==> Waiting(s', n) || n == g)
            && (forall n :: Unsent(s', n) <==> Unsent(s, n))
  {
    FrontLeaves(Ids(s.pool.pending), g, Ids(pool.pending));
  }

  lemma GrantOrder(s: State, m: nat, pool: Pool, g: nat, at: int)
    requires OrderInv(s) && Ids(s.pool.pending) == [g] + Ids(pool.pending)
    ensures OrderInv(AfterGrant(s, m, pool, g, at))
  {
    FrontLeaves(Ids(s.pool.pending), g, Ids(pool.pending));
    GrantMoves(s, m, pool, g, at);
  }

  lemma GrantSafe(s: State, m: nat, pool: Pool, g: nat, at: int, size: nat)
    requires OrderInv(s) && SpanInv(s) && m in s.spans && !Unsent(s, m)
    requires Ids(s.pool.pending) == [g] + Ids(pool.pending)
    requires at !in s.pool.used - {s.spans[m]} && pool.used == (s.pool.used - {s.spans[m]})[at := size]
    ensures OrderInv(AfterGrant(s, m, pool, g, at)) && SpanInv(AfterGrant(s, m, pool, g, at))
  {
    GrantOrder(s, m, pool, g, at);
    GrantMoves(s, m, pool, g, at);
    MatchRemove(s.spans, s.pool.used.Keys, m);
    assert (s.pool.used - {s.spans[m]}).Keys == s.pool.used.Keys - {s.spans[m]};
    MatchAdd(s.spans - {m}, s.pool.used.Keys - {s.spans[m]}, g, at);
    assert pool.used.Keys == s.pool.used.Keys - {s.spans[m]} + {at};
  }

  lemma SpanReleasedSafe(s: State, m: nat)
    requires Inv(s) && Enabled(s, SpanReleased(m))
    ensures Inv(Apply(s, SpanReleased(m)))
  {
    var r := Release(s.pool, s.spans[m]);
    ReleaseOk(s.pool, s.spans[m]);
    if r.granted.None? {
      RefusalSafe(s, m, r.pool);
    } else {
      var (req, at) := r.granted.value;
      IdsFront(req, r.pool.pending);
      GrantSafe(s, m, r.pool, req.id, at, RoundUp(req.size));
    }
  }

  lemma IdsFront(req: Request, rest: seq<Request>)
    ensures Ids([req] + rest) == [req.id] + Ids(rest)
  {
  }

  lemma AssignSafe(s: State, m: nat)
    requires OrderInv(s) && SpanInv(s)
    ensures OrderInv(s.(copying := s.copying - {m})) && SpanInv(s.(copying := s.copying - {m}))
  {
    var s' := s.(copying := s.copying - {m});
    assert forall n :: Unsent(s', n) <==> Unsent(s, n);
    assert forall n :: Waiting(s', n) <==> Waiting(s, n);
  }

  lemma StepSafe(s: State, step: Step)
    requires Inv(s) && Enabled(s, step)
    ensures Inv(Apply(s, step))
  {
    match step
    case ReserveNext(e, needsPool, size) =>
      if needsPool { ReserveSafe(s, e, size); } else { ReserveFreeSafe(s, e, size); }
    case Append(e) => AppendSafe(s, e);
    case Pop(e) => PopSafe(s, e);
    case SpanReleased(m) => SpanReleasedSafe(s, m);
    case Assign(m) => AssignSafe(s, m);
  }

  // ---------------------------------------------------------------------------------------
  // Runs

  ghost predicate Init(s: State) {
    && 0 < s.pool.base && 0 < s.pool.total && s.pool.total % 64 == 0
    && s.pool == NewPool(s.pool.base, s.pool.total)
    && s.queues == seq(|s.queues|, _ => []) && s.holding == map[] && s.copying == {} && s.spans == map[]
    && s.usesPool == {}
  }

  ghost predicate IsRun(trace: seq<State>, steps: seq<Step>) {
    && |trace| == |steps| + 1
    && Init(trace[0])
    && forall i :: 0 <= i < |steps| ==> Enabled(trace[i], steps[i]) && trace[i + 1] == Apply(trace[i], steps[i])
  }

  lemma {:induction false} RunSafe(trace: seq<State>, steps: seq<Step>, n: nat)
    requires IsRun(trace, steps) && n < |trace|
    ensures Inv(trace[n])
  {
    if n == 0 {
      NewPoolOk(trace[0].pool.base, trace[0].pool.total);
      assert forall m :: !Unsent(trace[0], m);
    } else {
      RunSafe(trace, steps, n - 1);
      StepSafe(trace[n - 1], steps[n - 1]);
    }
  }

  /** Where a message stands among the pool's waiters. */
  function PlaceInLine(ids: seq<nat>, m: nat): (r: nat)
    requires m in ids
    ensures r < |ids| && ids[r] == m
  {
    if ids[0] == m then 0 else 1 + PlaceInLine(ids[1..], m)
  }

  lemma {:induction false} LineInOrder(ids: seq<nat>, a: nat, b: nat)
    requires Increasing(ids) && a in ids && b in ids && a < b
    ensures PlaceInLine(ids, a) < PlaceInLine(ids, b)
  {
    var p, q := PlaceInLine(ids, a), PlaceInLine(ids, b);
    assert ids[p] == a && ids[q] == b;
  }

  /**
   In every run, under any interleaving of endpoints: among the pool-using messages of one queue,
   those that have been served come first, and those that wait stand in the order in which they
   stand in the pool's own queue. Nobody who has a span is behind somebody who waits for one.
   */
  lemma ServedBeforeWaiting(trace: seq<State>, steps: seq<Step>, n: nat, e: nat, i: nat, j: nat)
    requires IsRun(trace, steps) && n < |trace|
    requires e < |trace[n].queues| && i < j < |trace[n].queues[e]|
    requires trace[n].queues[e][i] in trace[n].usesPool && trace[n].queues[e][j] in trace[n].usesPool
    ensures var s, a, b := trace[n], trace[n].queues[e][i], trace[n].queues[e][j];
            && (Waiting(s, a) ==> Waiting(s, b))
            && (Waiting(s, a) ==>
                  PlaceInLine(Ids(s.pool.pending), a) < PlaceInLine(Ids(s.pool.pending), b))
            && (!Waiting(s, b) ==> b in s.spans && a in s.spans)
  {
    RunSafe(trace, steps, n);
    var s, a, b := trace[n], trace[n].queues[e][i], trace[n].queues[e][j];
    assert a < b;
    assert Unsent(s, a) && Unsent(s, b);
    if Waiting(s, a) && Waiting(s, b) {
      LineInOrder(Ids(s.pool.pending), a, b);
    }
  }

  // ---------------------------------------------------------------------------------------
  // No deadlock

  /** Steps that finish work in hand, as opposed to new messages. */
  predicate IsProgress(step: Step) {
    !step.ReserveNext?
  }

  ghost predicate Quiet(s: State) {
    forall step :: IsProgress(step) ==> !Enabled(s, step)
  }

  lemma QuietMeansNobodyHolds(s: State)
    requires OrderInv(s) && SpanInv(s) && Quiet(s)
    ensures s.holding == map[] && s.copying == {}
    ensures forall e :: 0 <= e < |s.queues| && s.queues[e] != [] ==> Waiting(s, s.queues[e][0])
  {
    forall e | e in s.holding
      ensures false
    {
      assert IsProgress(Append(e)) && Enabled(s, Append(e));
    }
    forall m | m in s.copying
      ensures false
    {
      assert IsProgress(Assign(m)) && Enabled(s, Assign(m));
    }
    forall e | 0 <= e < |s.queues| && s.queues[e] != []
      ensures Waiting(s, s.queues[e][0])
    {
      assert IsProgress(Pop(e)) && !Enabled(s, Pop(e));
    }
  }

  lemma FrontIsServed(s: State, e: nat, m: nat)
    requires OrderInv(s) && e < |s.queues| && m in s.queues[e] && m in s.usesPool && !Waiting(s, m)
    ensures !Waiting(s, s.queues[e][0])
  {
    var i :| 0 <= i < |s.queues[e]| && s.queues[e][i] == m;
    assert s.queues[e][0] <= m;
  }

  /**
   A message with a span is never stuck: it is on the wire, about to be queued, or in a queue whose
   front is not waiting for the pool.
   */
  lemma SpanCanMove(s: State, m: nat) returns (step: Step)
    requires OrderInv(s) && SpanInv(s) && m in s.spans
    ensures IsProgress(step) && Enabled(s, step)
  {
    if !Unsent(s, m) {
      step := SpanReleased(m);
    } else if e: nat :| e < |s.queues| && m in s.queues[e] {
      var front := s.queues[e][0];
      FrontIsServed(s, e, m);
      step := if front in s.copying then Assign(front) else Pop(e);
    } else {
      var e :| e in s.holding && s.holding[e] == m;
      step := Append(e);
    }
  }

  lemma QuietMeansNoSpans(s: State)
    requires OrderInv(s) && SpanInv(s) && Quiet(s)
    ensures s.spans == map[]
  {
    forall m | m in s.spans
      ensures false
    {
      var step := SpanCanMove(s, m);
      assert false;
    }
  }

  /**
   The design claim: nobody gets stuck behind a blocked reservation. When no step is left to take
   (every message that may go has gone, and every span of a sent message has come back), nobody
   waits, every queue is empty and the pool is one free span again.
   */
  lemma QuietMeansDrained(s: State)
    requires Inv(s) && Quiet(s)
    ensures s.pool.pending == []
    ensures forall e :: 0 <= e < |s.queues| ==> s.queues[e] == []
    ensures s.pool.free == [Span(s.pool.base, s.pool.total)]
  {
    QuietMeansNobodyHolds(s);
    QuietMeansNoSpans(s);
    NothingUsed(s);
    UnusedIsWhole(s.pool);
    assert s.pool.pending == [];
    assert Ids(s.pool.pending) == [];
  }

  lemma NothingUsed(s: State)
    requires SpanInv(s) && s.spans == map[]
    ensures s.pool.used == map[]
  {
    assert forall a :: a !in s.pool.used;
  }

  function Lengths(queues: seq<seq<nat>>): seq<nat> {
    seq(|queues|, i requires 0 <= i < |queues| => |queues[i]|)
  }

  /** Every step that finishes work makes this smaller. */
  function Work(s: State): nat {
    2 * |s.holding| + SeqSum(Lengths(s.queues)) + |s.copying| + |s.spans| + 3 * |s.pool.pending|
  }

  lemma QueueWork(queues: seq<seq<nat>>, e: nat, q: seq<nat>)
    requires e < |queues|
    ensures SeqSum(Lengths(queues[e := q])) == SeqSum(Lengths(queues)) - |queues[e]| + |q|
  {
    assert Lengths(queues[e := q]) == Lengths(queues)[e := |q|];
    SeqSumUpdate(Lengths(queues), e, |q|);
  }

  lemma ProgressWorks(s: State, step: Step)
    requires Inv(s) && Enabled(s, step) && IsProgress(step)
    ensures Work(Apply(s, step)) < Work(s)
  {
    match step
    case Append(e) =>
      QueueWork(s.queues, e, s.queues[e] + [s.holding[e]]);
      assert (s.holding - {e}).Keys == s.holding.Keys - {e};
    case Pop(e) =>
      QueueWork(s.queues, e, s.queues[e][1..]);
    case Assign(m) =>
    case SpanReleased(m) =>
      ReleaseOk(s.pool, s.spans[m]);
      var r := Release(s.pool, s.spans[m]);
      SpanWork(s, m, r);
  }

  lemma SpanWork(s: State, m: nat, r: Released)
    requires SpanInv(s) && m in s.spans
    requires r.granted.None? ==> r.pool.pending == s.pool.pending
    requires r.granted.Some? ==> [r.granted.value.0] + r.pool.pending == s.pool.pending
    ensures Work(AfterRelease(s, m, r))
            < Work(s)
  {
    assert (s.spans - {m}).Keys == s.spans.Keys - {m};
    if r.granted.Some? {
      var g := r.granted.value.0.id;
      assert |s.pool.pending| == 1 + |r.pool.pending|;
      assert ((s.spans - {m})[g := r.granted.value.1]).Keys == (s.spans.Keys - {m}) + {g};
    }
  }

  /** However the work in hand is interleaved, it ends: with `QuietMeansDrained`, every waiter is served. */
  lemma {:induction false} WorkRunsOut(trace: seq<State>, steps: seq<Step>)
    requires |trace| == |steps| + 1 && Inv(trace[0])
    requires forall i :: 0 <= i < |steps| ==>
               IsProgress(steps[i]) && Enabled(trace[i], steps[i]) && trace[i + 1] == Apply(trace[i], steps[i])
    ensures Inv(trace[|steps|]) && |steps| + Work(trace[|steps|]) <= Work(trace[0])
  {
    var n := |steps|;
    if n > 0 {
      WorkRunsOut(trace[..n], steps[..n - 1]);
      ProgressWorks(trace[n - 1], steps[n - 1]);
      StepSafe(trace[n - 1], steps[n - 1]);
    }
  }
}
