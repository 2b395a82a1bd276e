/**
 `EndpointManager`: any number of threads and message handlers enqueue to endpoints and push their
 queues. An endpoint with something to send must be known to exactly one place: the to-do ring, a
 thread about to put it there, or a thread that is pushing it and will put it back.
 */
module EndpointTokens {
  import opened Bytes
  import opened LmbFlow
  import opened TodoRing

  /**
   Where a thread is between two critical sections. A handler that runs on top of another activity
   counts as a thread of its own.
   */
  datatype Activity =
    | Free
    | Adding(e: nat)                                           // about to call add_todo_entry(e)
    | Pushing(e: nat, limit: nat, sent: nat, stillMore: bool)  // in the loop of push_messages of endpoint e

  datatype State = State(ring: seq<nat>, ends: seq<Outbound>, threads: seq<Activity>)

  datatype Step =
    | Enqueue(t: nat, e: nat, m: Message, short: bool)  // enqueue_message, handle_flip_request, handle_long_msgptr
    | AddTodo(t: nat)
    | PopTodo(t: nat, limit: nat)
    | Section(t: nat)                    // one locked section of push_messages
    | LockBusy(t: nat)                   // its trylock failed
    | LoopEnds(t: nat)                   // nothing more to send, or the limit is reached
    | FlipAcked(e: nat, lmb: nat)        // handle_flip_ack: the peer gave a buffer back
    | Granted(e: nat, i: nat, m: Message) // a queued message got its pool span

  predicate Running(s: State, t: nat) {
    t < |s.threads| && s.threads[t].Pushing?
  }

  predicate LimitReached(a: Activity)
    requires a.Pushing?
  {
    a.limit != 0 && a.sent >= a.limit
  }

  predicate Enabled(cfg: Config, s: State, step: Step) {
    match step
    case Enqueue(t, e, m, short) => t < |s.threads| && s.threads[t].Free? && e < |s.ends| && Fits(cfg, m)
    case AddTodo(t) => t < |s.threads| && s.threads[t].Adding?
    case PopTodo(t, limit) => t < |s.threads| && s.threads[t].Free? && s.ring != []
    case Section(t) => Running(s, t) && s.threads[t].stillMore && !LimitReached(s.threads[t])
    case LockBusy(t) => Running(s, t) && s.threads[t].stillMore && !LimitReached(s.threads[t])
    case LoopEnds(t) => Running(s, t) && (!s.threads[t].stillMore || LimitReached(s.threads[t]))
    case FlipAcked(e, lmb) => e < |s.ends| && lmb < |s.ends[e].w.avail| && !s.ends[e].w.avail[lmb]
    case Granted(e, i, m) =>
      e < |s.ends| && i < |s.ends[e].longs| && s.ends[e].longs[i].User? && m == s.ends[e].longs[i].(waiting := false)
  }

  /** After the loop: "if we didn't send them all, put this target back on the list". */
  function AfterLoop(a: Activity): Activity
    requires a.Pushing?
  {
    if a.stillMore then Adding(a.e) else Free
  }

  function Queued(out: Outbound, m: Message, short: bool): Outbound {
    if short then out.(shorts := out.shorts + [m]) else out.(longs := out.longs + [m])
  }

  ghost predicate EndsOk(cfg: Config, s: State) {
    && (forall e :: 0 <= e < |s.ends| ==> OutboundOk(cfg, s.ends[e]))
    && (forall t :: 0 <= t < |s.threads| && s.threads[t].Pushing? ==> s.threads[t].e < |s.ends|)
  }

  function Apply(cfg: Config, s: State, step: Step): State
    requires EndsOk(cfg, s) && Enabled(cfg, s, step)
  {
    match step
    case Enqueue(t, e, m, short) =>
      var wasEmpty := s.ends[e].Empty();
      s.(ends := s.ends[e := Queued(s.ends[e], m, short)],
         threads := if wasEmpty then s.threads[t := Adding(e)] else s.threads)
    case AddTodo(t) => s.(ring := s.ring + [s.threads[t].e], threads := s.threads[t := Free])
    case PopTodo(t, limit) => s.(ring := s.ring[1..], threads := s.threads[t := Pushing(s.ring[0], limit, 0, true)])
    case Section(t) =>
      var a := s.threads[t];
      var r := PushStep(cfg, s.ends[a.e]);
      if !r.Sent? then s.(threads := s.threads[t := AfterLoop(a)])
      else if r.wire.FlipRequest? then s.(ends := s.ends[a.e := r.out])
      else s.(ends := s.ends[a.e := r.out],
              threads := s.threads[t := a.(sent := a.sent + 1, stillMore := !r.out.Empty())])
    case LockBusy(t) => s.(threads := s.threads[t := AfterLoop(s.threads[t])])
    case LoopEnds(t) => s.(threads := s.threads[t := AfterLoop(s.threads[t])])
    case FlipAcked(e, lmb) =>
      var o := s.ends[e];
      s.(ends := s.ends[e := o.(w := o.w.(avail := o.w.avail[lmb := true]))])
    case Granted(e, i, m) =>
      var o := s.ends[e];
      s.(ends := s.ends[e := o.(longs := o.longs[i := m])])
  }

  // ---------------------------------------------------------------------------------------
  // Tokens

  predicate Holds(a: Activity, e: nat) {
    (a.Adding? && a.e == e) || (a.Pushing? && a.stillMore && a.e == e)
  }

  function Holders(threads: seq<Activity>, e: nat): nat {
    if threads == [] then 0 else (if Holds(threads[0], e) then 1 else 0) + Holders(threads[1..], e)
  }

  function OnRing(ring: seq<nat>, e: nat): nat {
    if ring == [] then 0 else (if ring[0] == e then 1 else 0) + OnRing(ring[1..], e)
  }

  function Tokens(s: State, e: nat): nat {
    OnRing(s.ring, e) + Holders(s.threads, e)
  }

  function Due(s: State, e: nat): nat {
    if e < |s.ends| && !s.ends[e].Empty() then 1 else 0
  }

  /** An endpoint has one token when it has something to send, and none when it has nothing. */
  ghost predicate Inv(cfg: Config, s: State) {
    && EndsOk(cfg, s)
    && forall e: nat :: Tokens(s, e) == Due(s, e)
  }

  lemma {:induction false} HoldersUpdate(threads: seq<Activity>, t: nat, a: Activity, e: nat)
    requires t < |threads|
    ensures Holders(threads[t := a], e)
         == Holders(threads, e) - (if Holds(threads[t], e) then 1 else 0) + (if Holds(a, e) then 1 else 0)
  {
    if t == 0 {
      assert threads[0 := a][1..] == threads[1..];
    } else {
      assert threads[t := a][1..] == threads[1..][t - 1 := a];
      HoldersUpdate(threads[1..], t - 1, a, e);
    }
  }

  lemma {:induction false} HeldByNone(threads: seq<Activity>, e: nat)
    requires forall t :: 0 <= t < |threads| ==> !Holds(threads[t], e)
    ensures Holders(threads, e) == 0
  {
    if threads != [] {
      HeldByNone(threads[1..], e);
    }
  }

  lemma {:induction false} HeldBy(threads: seq<Activity>, t: nat, e: nat)
    requires t < |threads| && Holds(threads[t], e)
    ensures Holders(threads, e) > 0
  {
    if t > 0 {
      HeldBy(threads[1..], t - 1, e);
    }
  }

  lemma {:induction false} HeldByTwo(threads: seq<Activity>, t: nat, u: nat, e: nat)
    requires t < u < |threads| && Holds(threads[t], e) && Holds(threads[u], e)
    ensures Holders(threads, e) > 1
  {
    if t == 0 {
      HeldBy(threads[1..], u - 1, e);
    } else {
      HeldByTwo(threads[1..], t - 1, u - 1, e);
    }
  }

  lemma {:induction false} OnRingAppend(ring: seq<nat>, x: nat, e: nat)
    ensures OnRing(ring + [x], e) == OnRing(ring, e) + if x == e then 1 else 0
  {
    if ring != [] {
      assert (ring + [x])[1..] == ring[1..] + [x];
      OnRingAppend(ring[1..], x, e);
    }
  }

  lemma {:induction false} OnRingIn(ring: seq<nat>, e: nat)
    ensures OnRing(ring, e) > 0 <==> e in ring
  {
    if ring != [] {
      OnRingIn(ring[1..], e);
    }
  }

  lemma {:induction false} RingDistinct(ring: seq<nat>)
    requires forall e :: OnRing(ring, e) <= 1
    ensures Distinct(ring)
  {
    if ring != [] {
      forall e: nat
        ensures OnRing(ring[1..], e) <= 1
      {
        assert OnRing(ring, e) <= 1;
      }
      RingDistinct(ring[1..]);
      assert OnRing(ring, ring[0]) <= 1;
      OnRingIn(ring[1..], ring[0]);
      forall i, j | 0 <= i < j < |ring|
        ensures ring[i] != ring[j]
      {
        assert ring[j] == ring[1..][j - 1];
        if i > 0 { assert ring[i] == ring[1..][i - 1]; }
      }
    }
  }

  // ---------------------------------------------------------------------------------------
  // Every step keeps the invariant

  lemma StepSafe(cfg: Config, s: State, step: Step)
    requires Inv(cfg, s) && Enabled(cfg, s, step)
    ensures Inv(cfg, Apply(cfg, s, step))
  {
    var s' := Apply(cfg, s, step);
    StepEnds(cfg, s, step);
    forall e: nat
      ensures Tokens(s', e) == Due(s', e)
    {
      assert Tokens(s, e) == Due(s, e);
      StepTokens(cfg, s, step, e);
    }
  }

  lemma StepEnds(cfg: Config, s: State, step: Step)
    requires Inv(cfg, s) && Enabled(cfg, s, step)
    ensures EndsOk(cfg, Apply(cfg, s, step))
  {
    var s' := Apply(cfg, s, step);
    match step
    case PopTodo(t, limit) =>
      assert Tokens(s, s.ring[0]) == Due(s, s.ring[0]);
    case Enqueue(t, e, m, short) =>
      assert OutboundOk(cfg, s'.ends[e]);
    case Granted(e, i, m) =>
      assert OutboundOk(cfg, s'.ends[e]);
    case _ =>
  }

  /** Tokens follow the queues at every endpoint `e`. */
  lemma StepTokens(cfg: Config, s: State, step: Step, e: nat)
    requires Inv(cfg, s) && Enabled(cfg, s, step) && Tokens(s, e) == Due(s, e)
    ensures var s' := Apply(cfg, s, step); Tokens(s', e) == Due(s', e)
  {
    match step
    case Enqueue(t, o, m, short) =>
      HoldersUpdate(s.threads, t, Adding(o), e);
    case AddTodo(t) =>
      HoldersUpdate(s.threads, t, Free, e);
      OnRingAppend(s.ring, s.threads[t].e, e);
    case PopTodo(t, limit) =>
      HoldersUpdate(s.threads, t, Pushing(s.ring[0], limit, 0, true), e);
    case Section(t) =>
      SectionTokens(cfg, s, t, e);
    case LockBusy(t) =>
      HoldersUpdate(s.threads, t, AfterLoop(s.threads[t]), e);
    case LoopEnds(t) =>
      HoldersUpdate(s.threads, t, AfterLoop(s.threads[t]), e);
    case FlipAcked(o, lmb) =>
    case Granted(o, i, m) =>
  }

  lemma SectionTokens(cfg: Config, s: State, t: nat, e: nat)
    requires Inv(cfg, s) && Enabled(cfg, s, Section(t)) && Tokens(s, e) == Due(s, e)
    ensures var s' := Apply(cfg, s, Section(t)); Tokens(s', e) == Due(s', e)
  {
    NeverIdle(cfg, s, t);
    var s' := Apply(cfg, s, Section(t));
    assert s'.threads == s.threads[t := s'.threads[t]] && s'.ring == s.ring;
    HoldersUpdate(s.threads, t, s'.threads[t], e);
  }

  /** A thread that believes its endpoint has more to send is right: the branch for empty queues is never taken. */
  lemma NeverIdle(cfg: Config, s: State, t: nat)
    requires Inv(cfg, s) && Running(s, t) && s.threads[t].stillMore
    ensures !PushStep(cfg, s.ends[s.threads[t].e]).Idle?
    ensures Due(s, s.threads[t].e) == 1
  {
    var e := s.threads[t].e;
    HeldBy(s.threads, t, e);
    assert Tokens(s, e) == Due(s, e);
  }

  datatype Run = Start(ends: seq<Outbound>, threads: nat) | Then(before: Run, step: Step)

  /** The state a run ends in, if every step was possible. */
  ghost predicate Reaches(cfg: Config, run: Run, s: State) {
    match run
    case Start(ends, threads) =>
      && s == State([], ends, seq(threads, _ => Free))
      && forall e :: 0 <= e < |ends| ==> OutboundOk(cfg, ends[e]) && ends[e].Empty()
    case Then(before, step) =>
      exists p :: Reaches(cfg, before, p) && EndsOk(cfg, p) && Enabled(cfg, p, step) && s == Apply(cfg, p, step)
  }

  lemma {:induction false} RunSafe(cfg: Config, run: Run, s: State)
    requires Reaches(cfg, run, s)
    ensures Inv(cfg, s)
  {
    match run
    case Start(ends, threads) =>
      forall e: nat
        ensures Tokens(s, e) == Due(s, e)
      {
        HeldByNone(s.threads, e);
      }
    case Then(before, step) =>
      var p :| Reaches(cfg, before, p) && EndsOk(cfg, p) && Enabled(cfg, p, step) && s == Apply(cfg, p, step);
      RunSafe(cfg, before, p);
      StepSafe(cfg, p, step);
  }

  // ---------------------------------------------------------------------------------------
  // What the tokens buy

  /** Whenever a thread is about to add an endpoint, the ring of |endpoints|+1 slots has room. */
  lemma {:induction false} RingNeverWraps(cfg: Config, run: Run, s: State, t: nat)
    requires Reaches(cfg, run, s) && t < |s.threads| && s.threads[t].Adding?
    ensures |s.ring| < |s.ends| && s.threads[t].e !in s.ring
  {
    RunSafe(cfg, run, s);
    var e := s.threads[t].e;
    HeldBy(s.threads, t, e);
    TokenUnique(cfg, s, e);
    RingOk(cfg, s);
    RoomForAbsent(s.ring, e, |s.ends|);
  }

  lemma {:induction false} TokenUnique(cfg: Config, s: State, e: nat)
    requires Inv(cfg, s)
    ensures Holders(s.threads, e) > 0 ==> e < |s.ends| && e !in s.ring && Holders(s.threads, e) == 1
  {
    assert Tokens(s, e) == Due(s, e);
    OnRingIn(s.ring, e);
  }

  lemma RingOk(cfg: Config, s: State)
    requires Inv(cfg, s)
    ensures Distinct(s.ring) && forall i :: 0 <= i < |s.ring| ==> s.ring[i] < |s.ends|
  {
    forall e: nat
      ensures OnRing(s.ring, e) <= 1
    {
      assert Tokens(s, e) == Due(s, e);
    }
    RingDistinct(s.ring);
    forall i | 0 <= i < |s.ring|
      ensures s.ring[i] < |s.ends|
    {
      OnRingIn(s.ring, s.ring[i]);
      assert Tokens(s, s.ring[i]) == Due(s, s.ring[i]);
    }
  }

  /** An endpoint with queued messages, and no other, is on the ring or held by a thread that will not drop it. */
  lemma {:induction false} NothingForgotten(cfg: Config, run: Run, s: State, e: nat)
    requires Reaches(cfg, run, s) && e < |s.ends|
    ensures !s.ends[e].Empty() <==> e in s.ring || exists t :: 0 <= t < |s.threads| && Holds(s.threads[t], e)
  {
    RunSafe(cfg, run, s);
    assert Tokens(s, e) == Due(s, e);
    OnRingIn(s.ring, e);
    if t :| 0 <= t < |s.threads| && Holds(s.threads[t], e) {
      HeldBy(s.threads, t, e);
    } else {
      HeldByNone(s.threads, e);
    }
  }

  /** No two threads hold one endpoint, and none holds one that is on the ring. */
  lemma {:induction false} OneHolder(cfg: Config, run: Run, s: State, t: nat, u: nat, e: nat)
    requires Reaches(cfg, run, s) && t < |s.threads| && u < |s.threads|
    requires Holds(s.threads[t], e) && Holds(s.threads[u], e)
    ensures t == u && e !in s.ring
  {
    RunSafe(cfg, run, s);
    HeldBy(s.threads, t, e);
    TokenUnique(cfg, s, e);
    if t < u {
      HeldByTwo(s.threads, t, u, e);
    } else if u < t {
      HeldByTwo(s.threads, u, t, e);
    }
  }

  /** When the ring is empty and no thread is in the manager, every queue is empty. */
  lemma {:induction false} QuietMeansSent(cfg: Config, run: Run, s: State)
    requires Reaches(cfg, run, s) && s.ring == [] && forall t :: 0 <= t < |s.threads| ==> s.threads[t].Free?
    ensures forall e :: 0 <= e < |s.ends| ==> s.ends[e].Empty()
  {
    forall e | 0 <= e < |s.ends|
      ensures s.ends[e].Empty()
    {
      NothingForgotten(cfg, run, s, e);
    }
  }
}
