/**
 The outbound side of one endpoint on values: the two message queues, the buffer (LMB) the sender
 is filling in its peer's memory, and one critical section of `push_messages`.
 */
module LmbFlow {
  import opened Bytes

  /** Buffer count and size, the same on every node. */
  datatype Config = Config(numLmbs: nat, lmbSize: nat) {
    predicate Valid() {
      0 < numLmbs && 0 < lmbSize && lmbSize % 128 == 0
    }
  }

  /**
   An outgoing message. `waiting` is mode PAYLOAD_PENDING; `dst` is the target pointer, or 0; `span` is
   the pool pointer, or 0.
   */
  datatype Message =
    | FlipAck(buffer: nat)
    | User(id: int, data: seq<byte>, waiting: bool, dst: nat, span: int)
  {
    function Size(): nat {
      if FlipAck? then 0 else |data|
    }
  }

  datatype Writer = Writer(lmb: nat, offset: nat, count: nat, avail: seq<bool>)

  datatype Outbound = Outbound(shorts: seq<Message>, longs: seq<Message>, w: Writer) {
    predicate Empty() {
      shorts == [] && longs == []
    }
  }

  /** What one critical section puts on the wire. */
  datatype Wire =
    | Plain(m: Message)
    | Direct(m: Message)
    | Buffered(m: Message, lmb: nat, offset: nat)
    | FlipRequest(lmb: nat, count: nat)

  datatype PushResult = Sent(out: Outbound, wire: Wire) | Blocked | Idle

  /** Offsets are kept aligned to 128 bytes. */
  function AlignUp(x: nat): (r: nat)
    ensures r % 128 == 0 && x <= r < x + 128
    ensures forall bound: nat :: x <= bound && bound % 128 == 0 ==> r <= bound
  {
    if x % 128 != 0 then (x / 128 + 1) * 128 else x
  }

  predicate WriterOk(cfg: Config, w: Writer) {
    && cfg.Valid()
    && w.lmb < cfg.numLmbs && |w.avail| == cfg.numLmbs
    && w.offset <= cfg.lmbSize && w.offset % 128 == 0
    && (w.count == 0 <==> w.offset == 0)
    && (!w.avail[w.lmb] ==> w.offset == 0)
  }

  /** `set_payload`: a message without a target pointer fits in a buffer. */
  predicate Fits(cfg: Config, m: Message) {
    m.User? && m.dst == 0 ==> |m.data| <= cfg.lmbSize
  }

  predicate OutboundOk(cfg: Config, s: Outbound) {
    WriterOk(cfg, s.w) && forall i :: 0 <= i < |s.longs| ==> Fits(cfg, s.longs[i])
  }

  /** One pass through the body of the loop of `push_messages`, under the endpoint's mutex. */
  function PushStep(cfg: Config, s: Outbound): (r: PushResult)
    requires OutboundOk(cfg, s)
    ensures r.Sent? ==> OutboundOk(cfg, r.out)
    ensures r.Sent? && r.wire.FlipRequest? ==>
      0 < r.wire.count && r.out.w.offset == 0 < s.w.offset && r.out.shorts == s.shorts && r.out.longs == s.longs
    ensures r.Sent? && !r.wire.FlipRequest? ==> [r.wire.m] + (r.out.shorts + r.out.longs) == s.shorts + s.longs
    ensures r.Sent? ==>
      s.w.count + (if r.wire.Buffered? then 1 else 0)
      == r.out.w.count + (if r.wire.FlipRequest? then r.wire.count else 0)
    ensures r.Idle? <==> s.Empty()
  {
    if |s.shorts| > 0 then
      Sent(s.(shorts := s.shorts[1..]), Plain(s.shorts[0]))
    else if |s.longs| > 0 then
      var m, w := s.longs[0], s.w;
      var popped := s.(longs := s.longs[1..]);
      if m.Size() == 0 then
        Sent(popped, Plain(m))
      else if m.waiting then
        Blocked
      else if m.dst != 0 then
        Sent(popped, Direct(m))
      else if !w.avail[w.lmb] then
        Blocked
      else if w.offset + m.Size() <= cfg.lmbSize then
        Sent(popped.(w := w.(offset := AlignUp(w.offset + m.Size()), count := w.count + 1)),
             Buffered(m, w.lmb, w.offset))
      else
        Sent(s.(w := Writer((w.lmb + 1) % cfg.numLmbs, 0, 0, w.avail[w.lmb := false])), FlipRequest(w.lmb, w.count))
    else
      Idle
  }

  lemma PlacementAdvances(cfg: Config, s: Outbound)
    requires OutboundOk(cfg, s) && PushStep(cfg, s).Sent? && PushStep(cfg, s).wire.Buffered?
    ensures var r := PushStep(cfg, s);
            && r.wire.m.User? && r.wire.lmb == s.w.lmb == r.out.w.lmb && r.wire.offset == s.w.offset
            && s.w.avail[s.w.lmb] && OutboundOk(cfg, r.out)
            && r.out.w == s.w.(offset := r.out.w.offset, count := s.w.count + 1)
            && 0 < |r.wire.m.data| && s.w.offset + |r.wire.m.data| <= cfg.lmbSize
            && s.w.offset + |r.wire.m.data| <= r.out.w.offset
  {
  }

  // ---------------------------------------------------------------------------------------
  // The receiving side of an endpoint

  predicate InBufferAt(base: int, size: nat, ptr: int) {
    base <= ptr < base + size
  }

  /** The scan of `handle_long_msgptr`: the first buffer that contains `ptr`, or -1. */
  function Scan(bases: seq<int>, size: nat, ptr: int, from: nat): (r: int)
    requires from <= |bases|
    ensures r == -1 || from <= r < |bases|
    decreases |bases| - from
  {
    if from == |bases| then -1
    else if InBufferAt(bases[from], size, ptr) then from
    else Scan(bases, size, ptr, from + 1)
  }

  lemma {:induction false} ScanFinds(bases: seq<int>, size: nat, ptr: int, from: nat)
    requires from <= |bases|
    ensures var r := Scan(bases, size, ptr, from);
            && (r >= 0 ==> InBufferAt(bases[r], size, ptr))
            && forall i :: from <= i < (if r < 0 then |bases| else r) ==> !InBufferAt(bases[i], size, ptr)
    decreases |bases| - from
  {
    if from < |bases| && !InBufferAt(bases[from], size, ptr) {
      ScanFinds(bases, size, ptr, from + 1);
    }
  }

  /** Only the distance from the bases matters. */
  lemma {:induction false} ScanShift(bases: seq<int>, starts: seq<int>, size: nat, ptr: int, shift: int, from: nat)
    requires from <= |bases| == |starts| && forall i :: 0 <= i < |bases| ==> bases[i] == shift + starts[i]
    ensures Scan(bases, size, ptr, from) == Scan(starts, size, ptr - shift, from)
    decreases |bases| - from
  {
    if from < |bases| {
      ScanShift(bases, starts, size, ptr, shift, from + 1);
    }
  }

  /** The counters of all buffers after one moved, and whether that buffer must be acked now. */
  datatype Counted = Counted(counts: seq<int>, ackDue: bool)

  /** What a handled message (+1) and a flip request (-count) do to the signed counter of buffer `b`. */
  function Count(counts: seq<int>, b: nat, delta: int): Counted
    requires b < |counts|
  {
    Counted(counts[b := counts[b] + delta], counts[b] + delta == 0)
  }

  datatype Pushed = Pushed(out: Outbound, wires: seq<Wire>, stillMore: bool)

  /** `push_messages` without interference: the final state, what was sent, and the value returned. */
  function PushAll(cfg: Config, s: Outbound, limit: nat, sent: nat, more: bool): (r: Pushed)
    requires OutboundOk(cfg, s)
    decreases |s.shorts| + |s.longs|, s.w.offset
  {
    if !more || (limit != 0 && sent >= limit) then Pushed(s, [], more) else
      var step := PushStep(cfg, s);
      if !step.Sent? then Pushed(s, [], more) else
        assert !step.wire.FlipRequest? ==> |[step.wire.m] + (step.out.shorts + step.out.longs)| == |s.shorts + s.longs|;
        var rest := if step.wire.FlipRequest? then PushAll(cfg, step.out, limit, sent, more)
                    else PushAll(cfg, step.out, limit, sent + 1, !step.out.Empty());
        rest.(wires := [step.wire] + rest.wires)
  }

  /** What `push_messages` still does after it sent `wire` and reached `out`. */
  function NextPush(cfg: Config, limit: nat, sent: nat, out: Outbound, wire: Wire): Pushed
    requires OutboundOk(cfg, out)
  {
    if wire.FlipRequest? then PushAll(cfg, out, limit, sent, true) else PushAll(cfg, out, limit, sent + 1, !out.Empty())
  }

  lemma {:induction false} PushAllNext(cfg: Config, s: Outbound, limit: nat, sent: nat, out: Outbound, wire: Wire)
    requires OutboundOk(cfg, s) && OutboundOk(cfg, out) && PushStep(cfg, s) == Sent(out, wire)
    requires limit == 0 || sent < limit
    ensures var next := NextPush(cfg, limit, sent, out, wire);
            PushAll(cfg, s, limit, sent, true) == Pushed(next.out, [wire] + next.wires, next.stillMore)
    ensures if wire.FlipRequest? then |out.shorts| + |out.longs| == |s.shorts| + |s.longs| && out.w.offset < s.w.offset
            else |out.shorts| + |out.longs| < |s.shorts| + |s.longs|
  {
    assert !wire.FlipRequest? ==> |[wire.m] + (out.shorts + out.longs)| == |s.shorts + s.longs|;
  }

  /** The messages among the wire packets, in the order they leave. */
  function Carried(wires: seq<Wire>): seq<Message> {
    if wires == [] then []
    else if wires[0].FlipRequest? then Carried(wires[1..])
    else [wires[0].m] + Carried(wires[1..])
  }

  /** How many messages were placed in buffers, and how many the flip requests account for. */
  function Placements(wires: seq<Wire>): nat {
    if wires == [] then 0 else (if wires[0].Buffered? then 1 else 0) + Placements(wires[1..])
  }

  function FlipTotal(wires: seq<Wire>): nat {
    if wires == [] then 0 else (if wires[0].FlipRequest? then wires[0].count else 0) + FlipTotal(wires[1..])
  }

  /**
   A push loses, repeats and reorders nothing; says truthfully whether anything is left; sends no
   more than the limit; stops early only at a message that cannot go; never flips twice in a row;
   fills every buffer without overlap; and its flip requests and current count account for every
   message placed in a buffer.
   */
  ghost predicate PushOk(cfg: Config, s: Outbound, limit: nat, sent: nat, r: Pushed) {
    && OutboundOk(cfg, r.out)
    && Carried(r.wires) + (r.out.shorts + r.out.longs) == s.shorts + s.longs
    && (r.stillMore <==> !r.out.Empty())
    && (limit != 0 ==> sent + |Carried(r.wires)| <= limit)
    && (r.stillMore ==> (limit != 0 && sent + |Carried(r.wires)| == limit) || PushStep(cfg, r.out).Blocked?)
    && (forall i :: 0 <= i < |r.wires| - 1 ==> !(r.wires[i].FlipRequest? && r.wires[i + 1].FlipRequest?))
    && (s.w.offset == 0 ==> r.wires == [] || !r.wires[0].FlipRequest?)
    && s.w.count + Placements(r.wires) == FlipTotal(r.wires) + r.out.w.count
    && FillsOk(cfg, s.w.offset, r.wires, r.out.w.offset)
  }

  predicate NoFlip(wires: seq<Wire>, i: nat, j: nat)
    requires j <= |wires|
  {
    forall k :: i <= k < j ==> !wires[k].FlipRequest?
  }

  /** Where a placed message ends in its buffer. */
  function PlacedEnd(wire: Wire): nat
    requires wire.Buffered?
  {
    wire.offset + wire.m.Size()
  }

  /**
   Messages placed in one fill of a buffer, that is, without a flip between them, follow each other
   without overlap and inside the buffer. `from` and `to` are the write offsets before and after, so
   this also holds across pushes.
   */
  ghost predicate FillsOk(cfg: Config, from: nat, wires: seq<Wire>, to: nat) {
    && (forall i :: 0 <= i < |wires| && wires[i].Buffered? ==> PlacedEnd(wires[i]) <= cfg.lmbSize)
    && (forall i :: 0 <= i < |wires| && wires[i].Buffered? && NoFlip(wires, 0, i) ==> from <= wires[i].offset)
    && (forall i, j :: 0 <= i < j < |wires| && wires[i].Buffered? && wires[j].Buffered? && NoFlip(wires, i, j) ==>
          PlacedEnd(wires[i]) <= wires[j].offset)
    && (forall i :: 0 <= i < |wires| && wires[i].Buffered? && NoFlip(wires, i, |wires|) ==> PlacedEnd(wires[i]) <= to)
    && (NoFlip(wires, 0, |wires|) ==> from <= to)
  }

  /** One more packet in front: a flip starts a new fill, a placement moves the offset past itself. */
  lemma PrependFill(cfg: Config, from: nat, wire: Wire, next: nat, wires: seq<Wire>, to: nat)
    requires FillsOk(cfg, next, wires, to)
    requires !wire.FlipRequest? ==> from <= next
    requires wire.Buffered? ==> from <= wire.offset && PlacedEnd(wire) <= next && PlacedEnd(wire) <= cfg.lmbSize
    ensures FillsOk(cfg, from, [wire] + wires, to)
  {
    var all := [wire] + wires;
    assert forall i :: 0 < i < |all| ==> all[i] == wires[i - 1];
    forall i, j | 0 <= i < j <= |all| && NoFlip(all, i, j)
      ensures NoFlip(wires, if i == 0 then 0 else i - 1, j - 1)
      ensures i == 0 ==> !wire.FlipRequest?
    {
      assert all[0] == wire;
      assert forall k :: 0 <= k < |wires| ==> wires[k] == all[k + 1];
    }
  }

  /** The write offset after one packet. */
  lemma StepFill(cfg: Config, s: Outbound)
    requires OutboundOk(cfg, s) && PushStep(cfg, s).Sent?
    ensures var r := PushStep(cfg, s);
            && (!r.wire.FlipRequest? ==> s.w.offset <= r.out.w.offset)
            && (r.wire.Buffered? ==>
                  && r.wire.offset == s.w.offset
                  && PlacedEnd(r.wire) <= r.out.w.offset && PlacedEnd(r.wire) <= cfg.lmbSize)
  {
  }

  lemma PushOkStep(cfg: Config, s: Outbound, limit: nat, sent: nat, step: PushResult, next: nat, rest: Pushed)
    requires OutboundOk(cfg, s) && step == PushStep(cfg, s) && step.Sent?
    requires next == (if step.wire.FlipRequest? then sent else sent + 1) && PushOk(cfg, step.out, limit, next, rest)
    ensures PushOk(cfg, s, limit, sent, rest.(wires := [step.wire] + rest.wires))
  {
    var queued, left := step.out.shorts + step.out.longs, rest.out.shorts + rest.out.longs;
    PrependWire(step.wire, rest.wires, left, queued, s.shorts + s.longs);
    NoDoubleFlip(step.wire, rest.wires);
    StepFill(cfg, s);
    PrependFill(cfg, s.w.offset, step.wire, step.out.w.offset, rest.wires, rest.out.w.offset);
  }

  lemma {:induction false} PrependWire(wire: Wire, wires: seq<Wire>, left: seq<Message>, queued: seq<Message>,
                                       before: seq<Message>)
    requires Carried(wires) + left == queued
    requires if wire.FlipRequest? then queued == before else [wire.m] + queued == before
    ensures Carried([wire] + wires) + left == before
    ensures |Carried([wire] + wires)| == |Carried(wires)| + if wire.FlipRequest? then 0 else 1
    ensures Placements([wire] + wires) == Placements(wires) + if wire.Buffered? then 1 else 0
    ensures FlipTotal([wire] + wires) == FlipTotal(wires) + if wire.FlipRequest? then wire.count else 0
  {
    assert ([wire] + wires)[1..] == wires;
    if !wire.FlipRequest? {
      assert [wire.m] + Carried(wires) + left == [wire.m] + (Carried(wires) + left);
    }
  }

  lemma NoDoubleFlip(wire: Wire, wires: seq<Wire>)
    requires forall i :: 0 <= i < |wires| - 1 ==> !(wires[i].FlipRequest? && wires[i + 1].FlipRequest?)
    requires wire.FlipRequest? ==> wires == [] || !wires[0].FlipRequest?
    ensures var all := [wire] + wires;
            forall i :: 0 <= i < |all| - 1 ==> !(all[i].FlipRequest? && all[i + 1].FlipRequest?)
  {
    var all := [wire] + wires;
    forall i | 0 <= i < |all| - 1
      ensures !(all[i].FlipRequest? && all[i + 1].FlipRequest?)
    {
      assert all[i + 1] == wires[i];
      if i > 0 { assert all[i] == wires[i - 1]; }
    }
  }

  lemma {:induction false} PushAllFacts(cfg: Config, s: Outbound, limit: nat, sent: nat, more: bool)
    requires OutboundOk(cfg, s) && (more <==> !s.Empty()) && (limit != 0 ==> sent <= limit)
    ensures PushOk(cfg, s, limit, sent, PushAll(cfg, s, limit, sent, more))
    decreases |s.shorts| + |s.longs|, s.w.offset
  {
    if more && !(limit != 0 && sent >= limit) && PushStep(cfg, s).Sent? {
      var step := PushStep(cfg, s);
      assert !step.wire.FlipRequest? ==> |[step.wire.m] + (step.out.shorts + step.out.longs)| == |s.shorts + s.longs|;
      var flip := step.wire.FlipRequest?;
      var next, still := if flip then sent else sent + 1, if flip then more else !step.out.Empty();
      PushAllFacts(cfg, step.out, limit, next, still);
      PushOkStep(cfg, s, limit, sent, step, next, PushAll(cfg, step.out, limit, next, still));
    }
  }
}
