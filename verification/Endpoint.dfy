/** `ActiveMessageEndpoint`: the state one node keeps for one peer, updated in place. */
module Endpoint {
  import opened Bytes
  import opened LmbFlow
  import opened LmbLayout
  import opened Reassembly

  class ActiveMessageEndpoint {
    const cfg: Config
    var outShort: seq<Message>
    var outLong: seq<Message>
    var curWriteLmb: nat
    var curWriteOffset: nat
    var curWriteCount: nat
    const lmbWBases: array<int>
    const lmbRBases: array<int>
    const lmbWAvail: array<bool>
    const lmbRCounts: array<int>
    var observed: map<int, ChunkInfo>

    ghost predicate Valid()
      reads this, lmbWBases, lmbRBases, lmbWAvail, lmbRCounts
    {
      && lmbWBases.Length == lmbRBases.Length == lmbWAvail.Length == lmbRCounts.Length == cfg.numLmbs
      && lmbRBases != lmbRCounts && lmbWBases != lmbRCounts
      && OutboundOk(cfg, Out())
    }

    /** The outbound side as a value. */
    ghost function Out(): Outbound
      reads this, lmbWAvail
    {
      Outbound(outShort, outLong, Writer(curWriteLmb, curWriteOffset, curWriteCount, lmbWAvail[..]))
    }

    constructor (cfg: Config, seg: Segments, me: nat, peer: nat)
      requires cfg.Valid() && seg.Valid() && me < |seg.addr| && peer < |seg.addr|
      ensures Valid() && fresh(lmbWAvail) && fresh(lmbRCounts) && fresh(lmbRBases) && fresh(lmbWBases)
      ensures this.cfg == cfg && Out() == Outbound([], [], Writer(0, 0, 0, seq(cfg.numLmbs, _ => true)))
      ensures lmbRCounts[..] == seq(cfg.numLmbs, _ => 0) && observed == map[]
      ensures forall i :: 0 <= i < cfg.numLmbs ==>
                lmbWBases[i] == WriteBase(seg, cfg, me, peer, i) && lmbRBases[i] == ReadBase(seg, cfg, me, peer, i)
    {
      this.cfg := cfg;
      outShort, outLong := [], [];
      curWriteLmb, curWriteOffset, curWriteCount := 0, 0, 0;
      observed := map[];
      lmbWBases := new int[cfg.numLmbs];
      lmbRBases := new int[cfg.numLmbs];
      lmbWAvail := new bool[cfg.numLmbs];
      lmbRCounts := new int[cfg.numLmbs];
      new;
      for i := 0 to cfg.numLmbs
        invariant forall j :: 0 <= j < i ==> lmbWAvail[j] && lmbRCounts[j] == 0
        invariant forall j :: 0 <= j < i ==>
          lmbWBases[j] == WriteBase(seg, cfg, me, peer, j) && lmbRBases[j] == ReadBase(seg, cfg, me, peer, j)
        invariant this.cfg == cfg && outShort == [] && outLong == []
        invariant curWriteLmb == 0 && curWriteOffset == 0 && curWriteCount == 0 && observed == map[]
      {
        lmbWBases[i] := WriteBase(seg, cfg, me, peer, i);
        lmbRBases[i] := ReadBase(seg, cfg, me, peer, i);
        lmbRCounts[i] := 0;
        lmbWAvail[i] := true;
      }
    }

    /** The part of the loop of `push_messages` that runs under the mutex: at most one packet leaves. */
    method PushOnce() returns (wire: Option<Wire>)
      requires Valid()
      modifies this`outShort, this`outLong, this`curWriteLmb, this`curWriteOffset, this`curWriteCount, lmbWAvail
      ensures Valid()
      ensures wire.Some? <==> PushStep(cfg, old(Out())).Sent?
      ensures wire.Some? ==> PushStep(cfg, old(Out())) == Sent(Out(), wire.value)
      ensures wire.None? ==> Out() == old(Out())
    {
      if |outShort| > 0 {
        wire := Some(Plain(outShort[0]));
        outShort := outShort[1..];
      } else if |outLong| > 0 {
        var hdr := outLong[0];
        if hdr.Size() == 0 {
          outLong := outLong[1..];
          wire := Some(Plain(hdr));
        } else if hdr.waiting {
          wire := None;
        } else if hdr.dst != 0 {
          outLong := outLong[1..];
          wire := Some(Direct(hdr));
        } else if !lmbWAvail[curWriteLmb] {
          wire := None;
        } else if curWriteOffset + hdr.Size() <= cfg.lmbSize {
          wire := PlaceInBuffer(hdr);
        } else {
          wire := Some(FlipRequest(curWriteLmb, curWriteCount));
          lmbWAvail[curWriteLmb] := false;
          curWriteLmb := (curWriteLmb + 1) % cfg.numLmbs;
          curWriteOffset := 0;
          curWriteCount := 0;
        }
      } else {
        wire := None;
      }
    }

    method PlaceInBuffer(hdr: Message) returns (wire: Option<Wire>)
      requires Valid() && outShort == [] && |outLong| > 0 && hdr == outLong[0]
      requires 0 < hdr.Size() && hdr.User? && !hdr.waiting && hdr.dst == 0
      requires lmbWAvail[curWriteLmb] && curWriteOffset + hdr.Size() <= cfg.lmbSize
      modifies this`outLong, this`curWriteOffset, this`curWriteCount
      ensures Valid()
      ensures wire.Some? && PushStep(cfg, old(Out())) == Sent(Out(), wire.value)
    {
      wire := Some(Buffered(hdr, curWriteLmb, curWriteOffset));
      curWriteOffset := curWriteOffset + hdr.Size();
      if curWriteOffset % 128 != 0 {
        curWriteOffset := (curWriteOffset / 128 + 1) * 128;
      }
      curWriteCount := curWriteCount + 1;
      outLong := outLong[1..];
      assert Out() == PushStep(cfg, old(Out())).out;
    }

    /** Sends queued messages until the limit, a message that cannot go, or the end of the queues. */
    method PushMessages(maxToSend: nat) returns (stillMore: bool, wires: seq<Wire>)
      requires Valid()
      modifies this`outShort, this`outLong, this`curWriteLmb, this`curWriteOffset, this`curWriteCount, lmbWAvail
      ensures Valid()
      ensures Pushed(Out(), wires, stillMore) == PushAll(cfg, old(Out()), maxToSend, 0, true)
    {
      var count := 0;
      stillMore, wires := true, [];
      ghost var goal := PushAll(cfg, Out(), maxToSend, 0, true);
      ghost var rest := goal;
      assert wires + rest.wires == rest.wires;
      while stillMore && (maxToSend == 0 || count < maxToSend)
        invariant Valid() && rest == PushAll(cfg, Out(), maxToSend, count, stillMore)
        invariant goal == Pushed(rest.out, wires + rest.wires, rest.stillMore)
        decreases |outShort| + |outLong|, curWriteOffset
      {
        ghost var before := Out();
        var wire := PushOnce();
        if wire.None? {
          break;
        }
        PushAllNext(cfg, before, maxToSend, count, Out(), wire.value);
        rest := NextPush(cfg, maxToSend, count, Out(), wire.value);
        AppendAssoc(wires, [wire.value], rest.wires);
        wires := wires + [wire.value];
        if !wire.value.FlipRequest? {
          stillMore := !(outShort == [] && outLong == []);
          count := count + 1;
        }
      }
    }

    /** Queues a message whose pool space has been reserved; tells whether the queues were empty. */
    method EnqueueMessage(hdr: Message, inOrder: bool, maxMedium: nat) returns (wasEmpty: bool)
      requires Valid() && Fits(cfg, hdr)
      modifies this`outShort, this`outLong
      ensures Valid()
      ensures wasEmpty <==> old(Out()).Empty()
      ensures Out() == if !inOrder && hdr.Size() <= maxMedium
                       then old(Out()).(shorts := old(outShort) + [hdr])
                       else old(Out()).(longs := old(outLong) + [hdr])
    {
      wasEmpty := outShort == [] && outLong == [];
      if !inOrder && hdr.Size() <= maxMedium {
        outShort := outShort + [hdr];
      } else {
        outLong := outLong + [hdr];
      }
    }

    /** Queues the ack for a buffer. */
    method QueueAck(buffer: nat) returns (wasEmpty: bool)
      requires Valid()
      modifies this`outShort
      ensures Valid()
      ensures wasEmpty <==> old(Out()).Empty()
      ensures Out() == old(Out()).(shorts := old(outShort) + [FlipAck(buffer)])
    {
      wasEmpty := outShort == [] && outLong == [];
      outShort := outShort + [FlipAck(buffer)];
    }

    /** The first buffer that contains `ptr`, or -1. */
    method FindReadBuffer(ptr: int) returns (r: int)
      requires Valid()
      ensures r == Scan(lmbRBases[..], cfg.lmbSize, ptr, 0)
    {
      r := -1;
      for i := 0 to cfg.numLmbs
        invariant r == -1 && Scan(lmbRBases[..], cfg.lmbSize, ptr, 0) == Scan(lmbRBases[..], cfg.lmbSize, ptr, i)
      {
        if lmbRBases[i] <= ptr < lmbRBases[i] + cfg.lmbSize {
          r := i;
          break;
        }
      }
    }

    /** What moving a buffer's counter leads to: new counters, an ack if one is due, a todo entry for the caller. */
    ghost predicate Moved(before: Outbound, after: Outbound, buffer: nat, now: Counted, addedToEmpty: bool)
      reads lmbRCounts
    {
      && lmbRCounts[..] == now.counts
      && after == (if now.ackDue then before.(shorts := before.shorts + [FlipAck(buffer)]) else before)
      && (addedToEmpty <==> now.ackDue && before.Empty())
    }

    /** A handler has finished with the bytes at `ptr`; the result says whether the caller must add a todo entry. */
    method HandleLongMsgptr(ptr: int) returns (buffer: int, addedToEmpty: bool)
      requires Valid()
      modifies this`outShort, lmbRCounts
      ensures Valid() && buffer == Scan(lmbRBases[..], cfg.lmbSize, ptr, 0)
      ensures buffer < 0 ==> lmbRCounts[..] == old(lmbRCounts[..]) && Out() == old(Out()) && !addedToEmpty
      ensures buffer >= 0 ==> Moved(old(Out()), Out(), buffer, Count(old(lmbRCounts[..]), buffer, 1), addedToEmpty)
    {
      addedToEmpty := false;
      buffer := FindReadBuffer(ptr);
      if buffer < 0 {
        return;
      }
      lmbRCounts[buffer] := lmbRCounts[buffer] + 1;
      if lmbRCounts[buffer] == 0 {
        addedToEmpty := QueueAck(buffer);
      }
    }

    /** The peer will send no more than `count` messages to this buffer until it is acked. */
    method HandleFlipRequest(buffer: nat, count: nat) returns (addedToEmpty: bool)
      requires Valid() && buffer < cfg.numLmbs
      modifies this`outShort, lmbRCounts
      ensures Valid() && Moved(old(Out()), Out(), buffer, Count(old(lmbRCounts[..]), buffer, 0 - count), addedToEmpty)
    {
      addedToEmpty := false;
      lmbRCounts[buffer] := lmbRCounts[buffer] - count;
      if lmbRCounts[buffer] == 0 {
        addedToEmpty := QueueAck(buffer);
      }
    }

    /** The peer has handled everything in the buffer; it may be written again. */
    method HandleFlipAck(buffer: nat)
      requires Valid() && buffer < cfg.numLmbs
      modifies lmbWAvail
      ensures Valid()
      ensures Out() == old(Out()).(w := old(Out()).w.(avail := old(lmbWAvail[..])[buffer := true]))
    {
      lmbWAvail[buffer] := true;
    }

    /** Accounts for one chunk; on the last one, gives the pointer and size of the whole message. */
    method AdjustLongMsgsize(ptr: int, bufferSize: nat, id: int, chunks: int)
      returns (ready: bool, ptr': int, size': nat)
      requires Valid()
      modifies this`observed
      ensures Valid() && Out() == old(Out())
      ensures Adjusted(observed, ready, ptr', size') == Adjust(old(observed), ptr, bufferSize, id, chunks)
    {
      ptr', size' := ptr, bufferSize;
      if chunks == 1 {
        return true, ptr', size';
      }
      ready := false;
      if id !in observed {
        observed := observed[id := ChunkInfo(ptr, 1, bufferSize)];
      } else {
        var entry := observed[id];
        if ptr < entry.basePtr {
          entry := entry.(basePtr := ptr);
        }
        entry := entry.(totalSize := entry.totalSize + bufferSize, chunks := entry.chunks + 1);
        if entry.chunks == chunks {
          ptr', size', ready := entry.basePtr, entry.totalSize, true;
          observed := observed - {id};
        } else {
          observed := observed[id := entry];
        }
      }
    }
  }
}
