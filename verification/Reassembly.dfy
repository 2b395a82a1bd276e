/**
 Long messages: how `send_long` cuts a payload into chunks, how `adjust_long_msgsize` puts the
 chunks back together, and what the receiving side looks like while the chunks of many messages
 arrive in any order.
 */
module Reassembly {
  import opened Bytes

  // ---------------------------------------------------------------------------------------
  // Cutting a payload of n bytes into chunks of at most k bytes

  /** `(payload_size + max_long_req - 1) / max_long_req`. */
  function NumChunks(n: nat, k: nat): nat
    requires 0 < k
  {
    (n + k - 1) / k
  }

  /** The number of the chunk that carries byte `x` of a payload. */
  function ChunkOf(x: nat, k: nat): nat
    requires 0 < k
  {
    x / k
  }

  function ChunkStart(i: nat, k: nat): nat {
    i * k
  }

  function ChunkLen(n: nat, k: nat, i: nat): int
    requires 0 < k
  {
    if i < NumChunks(n, k) - 1 then k else n - (NumChunks(n, k) - 1) * k
  }

  /** Every byte lies in exactly the chunk that `ChunkOf` names, and every chunk is a nonempty part of the payload. */
  lemma ChunkBounds(n: nat, k: nat, i: nat)
    requires 0 < k && i < NumChunks(n, k)
    ensures 0 < ChunkLen(n, k, i) <= k
    ensures ChunkStart(i, k) + ChunkLen(n, k, i) <= n
    ensures forall x: nat :: x < n ==>
              (ChunkOf(x, k) == i <==> ChunkStart(i, k) <= x < ChunkStart(i, k) + ChunkLen(n, k, i))
  {
    var c := NumChunks(n, k);
    assert (c - 1) * k < n <= c * k by { NumChunksBounds(n, k); }
    if i < c - 1 {
      assert (i + 1) * k <= (c - 1) * k by { MulMono(i + 1, c - 1, k); }
    }
    assert i * k + k == (i + 1) * k;
    forall x: nat | x < n
      ensures ChunkOf(x, k) == i <==> ChunkStart(i, k) <= x < ChunkStart(i, k) + ChunkLen(n, k, i)
    {
      DivIs(x, k, i);
    }
  }

  lemma ByteInSomeChunk(n: nat, k: nat, x: nat)
    requires 0 < k && x < n
    ensures ChunkOf(x, k) < NumChunks(n, k)
  {
    NumChunksBounds(n, k);
    var c := NumChunks(n, k);
    DivIs(x, k, ChunkOf(x, k));
    if c <= ChunkOf(x, k) { MulMono(c, ChunkOf(x, k), k); }
  }

  lemma NumChunksBounds(n: nat, k: nat)
    requires 0 < k
    ensures (NumChunks(n, k) - 1) * k < n <= NumChunks(n, k) * k || (n == 0 && NumChunks(n, k) == 0)
    ensures 0 < n ==> 0 < NumChunks(n, k)
  {
    var c := NumChunks(n, k);
    DivIs(n + k - 1, k, c);
    assert (c - 1) * k == c * k - k;
    assert c <= 0 ==> c * k <= 0;
  }

  /** The bytes that chunk `i` carries. */
  function ChunkData(data: seq<byte>, k: nat, i: nat): (r: seq<byte>)
    requires 0 < k && i < NumChunks(|data|, k)
    ensures |r| == ChunkLen(|data|, k, i)
  {
    ChunkBounds(|data|, k, i);
    data[ChunkStart(i, k)..ChunkStart(i, k) + ChunkLen(|data|, k, i)]
  }

  datatype Chunk = Chunk(index: nat, dst: int, data: seq<byte>)

  /** The chunk loop of `send_long`: the highest chunk goes out first. */
  method SendLong(data: seq<byte>, dst: int, k: nat) returns (sent: seq<Chunk>)
    requires 0 < k && 0 < |data|
    ensures |sent| == NumChunks(|data|, k)
    ensures forall j :: 0 <= j < |sent| ==>
      var i := |sent| - 1 - j;
      sent[j] == Chunk(i, dst + ChunkStart(i, k), ChunkData(data, k, i))
  {
    sent := [];
    var chunks := (|data| + k - 1) / k;
    NumChunksBounds(|data|, k);
    var i := chunks - 1;
    while i >= 0
      invariant -1 <= i < chunks
      invariant |sent| == chunks - 1 - i
      invariant forall j :: 0 <= j < |sent| ==>
        sent[j] == Chunk(chunks - 1 - j, dst + ChunkStart(chunks - 1 - j, k), ChunkData(data, k, chunks - 1 - j))
    {
      ChunkBounds(|data|, k, i);
      var size := if i < chunks - 1 then k else |data| - (chunks - 1) * k;
      sent := sent + [Chunk(i, dst + i * k, data[i * k..i * k + size])];
      i := i - 1;
    }
  }

  /** The chunks of a payload, joined in order. */
  function JoinChunks(data: seq<byte>, k: nat, upto: nat): seq<byte>
    requires 0 < k && upto <= NumChunks(|data|, k)
  {
    if upto == 0 then [] else JoinChunks(data, k, upto - 1) + ChunkData(data, k, upto - 1)
  }

  /** Cutting loses and repeats nothing: the chunks joined in order are the payload. */
  lemma {:induction false} ChunksJoinToPayload(data: seq<byte>, k: nat, upto: nat)
    requires 0 < k && upto <= NumChunks(|data|, k)
    ensures upto < NumChunks(|data|, k) ==> ChunkStart(upto, k) <= |data|
    ensures JoinChunks(data, k, upto) == data[..if upto == NumChunks(|data|, k) then |data| else ChunkStart(upto, k)]
  {
    if upto < NumChunks(|data|, k) { ChunkBounds(|data|, k, upto); }
    if upto > 0 {
      var last := upto - 1;
      ChunksJoinToPayload(data, k, last);
      ChunkBounds(|data|, k, last);
      NextChunk(|data|, k, last);
      JoinNext(data, ChunkStart(last, k), ChunkLen(|data|, k, last));
    } else {
      NumChunksBounds(|data|, k);
    }
  }

  lemma JoinNext(data: seq<byte>, cut: nat, n: nat)
    requires cut + n <= |data|
    ensures data[..cut] + data[cut..cut + n] == data[..cut + n]
  {
  }

  /** A chunk ends where the next one starts, and the last one ends with the payload. */
  lemma NextChunk(n: nat, k: nat, i: nat)
    requires 0 < k && i < NumChunks(n, k)
    ensures ChunkStart(i, k) + ChunkLen(n, k, i) == if i + 1 == NumChunks(n, k) then n else ChunkStart(i + 1, k)
  {
    assert (i + 1) * k == i * k + k;
  }

  // ---------------------------------------------------------------------------------------
  // Putting the chunks back together

  datatype ChunkInfo = ChunkInfo(basePtr: int, chunks: int, totalSize: nat)

  /** What `adjust_long_msgsize` leaves behind: the map, its verdict, and the pointer and size after adjustment. */
  datatype Adjusted = Adjusted(observed: map<int, ChunkInfo>, ready: bool, ptr: int, size: nat)

  function Adjust(observed: map<int, ChunkInfo>, ptr: int, size: nat, id: int, chunks: int): Adjusted {
    if chunks == 1 then
      Adjusted(observed, true, ptr, size)
    else if id !in observed then
      Adjusted(observed[id := ChunkInfo(ptr, 1, size)], false, ptr, size)
    else
      var seen := observed[id];
      var now := ChunkInfo(if ptr < seen.basePtr then ptr else seen.basePtr, seen.chunks + 1, seen.totalSize + size);
      if now.chunks == chunks then
        Adjusted(observed - {id}, true, now.basePtr, now.totalSize)
      else
        Adjusted(observed[id := now], false, ptr, size)
  }

  // ---------------------------------------------------------------------------------------
  // The receiving side of one peer, over any interleaving of chunk arrivals

  /** A long message between `send_long` and the end of its handler. `span` is the sender's pool pointer, or 0. */
  datatype Flight = Flight(dst: nat, data: seq<byte>, span: int)

  datatype Rx = Rx(
    mem: seq<byte>,                  // this node's segment
    flights: map<int, Flight>,       // messages on their way or not yet handled, by message id
    arrived: map<int, set<nat>>,     // the chunks that have arrived, by message id
    observed: map<int, ChunkInfo>,   // the endpoint's `observed_messages`
    ready: map<int, (int, nat)>,     // messages handed to the handler threads, with pointer and size
    spans: map<int, int>,            // history: the span of every message ever launched
    posted: seq<int>)                // history: the messages whose span release was posted, in order

  ghost predicate CanLaunch(rx: Rx, id: int, f: Flight) {
    && id !in rx.spans
    && 0 < |f.data| && f.dst + |f.data| <= |rx.mem|
    && forall other :: other in rx.flights ==>
         Apart(f.dst, |f.data|, rx.flights[other].dst, |rx.flights[other].data|)
  }

  /** `send_long` hands the chunks of message `id` to the network. */
  function Launch(rx: Rx, id: int, f: Flight): Rx {
    rx.(flights := rx.flights[id := f], arrived := rx.arrived[id := {}], spans := rx.spans[id := f.span])
  }

  ghost predicate CanArrive(k: nat, rx: Rx, id: int, i: nat)
    requires 0 < k
  {
    && id in rx.flights && id in rx.arrived
    && i < NumChunks(|rx.flights[id].data|, k)
    && i !in rx.arrived[id]
    && rx.flights[id].dst + |rx.flights[id].data| <= |rx.mem|
  }

  /** Chunk `i` of message `id` arrives: its bytes are in place and `handler_medium` runs. */
  function Arrive(k: nat, rx: Rx, id: int, i: nat): Rx
    requires 0 < k && CanArrive(k, rx, id, i)
  {
    var f := rx.flights[id];
    ChunkBounds(|f.data|, k, i);
    var bytes := ChunkData(f.data, k, i);
    var at := f.dst + ChunkStart(i, k);
    var adj := Adjust(rx.observed, at, |bytes|, id, NumChunks(|f.data|, k));
    var rx1 := rx.(mem := Splice(rx.mem, at, bytes),
                   arrived := rx.arrived[id := rx.arrived[id] + {i}],
                   observed := adj.observed);
    if !adj.ready then rx1 else
      rx1.(ready := rx.ready[id := (adj.ptr, adj.size)],
           posted := if f.span != 0 then rx.posted + [id] else rx.posted)
  }

  lemma ArriveFrame(k: nat, rx: Rx, id: int, i: nat)
    requires 0 < k && CanArrive(k, rx, id, i)
    ensures var rx' := Arrive(k, rx, id, i);
            && rx'.flights == rx.flights && rx'.spans == rx.spans && |rx'.mem| == |rx.mem|
            && rx'.arrived == rx.arrived[id := rx.arrived[id] + {i}]
  {
  }

  lemma ArriveShape(k: nat, rx: Rx, id: int, i: nat, f: Flight, adj: Adjusted)
    requires 0 < k && CanArrive(k, rx, id, i) && f == rx.flights[id] && 0 <= ChunkLen(|f.data|, k, i)
    requires adj == Adjust(rx.observed, f.dst + ChunkStart(i, k), ChunkLen(|f.data|, k, i), id, NumChunks(|f.data|, k))
    ensures f.dst + ChunkStart(i, k) + |ChunkData(f.data, k, i)| <= |rx.mem|
    ensures var rx' := Arrive(k, rx, id, i);
            && rx'.mem == Splice(rx.mem, f.dst + ChunkStart(i, k), ChunkData(f.data, k, i))
            && rx'.observed == adj.observed
            && rx'.ready == (if adj.ready then rx.ready[id := (adj.ptr, adj.size)] else rx.ready)
            && rx'.posted == (if adj.ready && f.span != 0 then rx.posted + [id] else rx.posted)
  {
    ChunkBounds(|f.data|, k, i);
  }

  /** The handler of message `id` has run. */
  function Retire(rx: Rx, id: int): Rx {
    rx.(flights := rx.flights - {id}, arrived := rx.arrived - {id}, ready := rx.ready - {id})
  }

  /** The bytes that the chunks in `a` carry: all chunks are full except perhaps the last one. */
  function ArrivedBytes(n: nat, k: nat, a: set<nat>): int
    requires 0 < k
  {
    |a| * k - (if NumChunks(n, k) - 1 in a then NumChunks(n, k) * k - n else 0)
  }

  /** The bytes of every chunk in `a` are in place. */
  ghost predicate Placed(k: nat, mem: seq<byte>, f: Flight, a: set<nat>)
    requires 0 < k && f.dst + |f.data| <= |mem|
  {
    forall x: nat :: x < |f.data| && ChunkOf(x, k) in a ==> mem[f.dst + x] == f.data[x]
  }

  /** The reassembly entry of message `id` says exactly that the chunks in `a` have arrived. */
  ghost predicate Tracked(k: nat, observed: map<int, ChunkInfo>, id: int, f: Flight, a: set<nat>)
    requires 0 < k
  {
    && (id in observed <==> 0 < |a| < NumChunks(|f.data|, k))
    && (id in observed ==>
          && observed[id].chunks == |a|
          && observed[id].totalSize == ArrivedBytes(|f.data|, k, a)
          && LowestStart(f.dst, k, a, observed[id].basePtr))
  }

  ghost predicate FlightInv(k: nat, rx: Rx, id: int)
    requires 0 < k && id in rx.flights && id in rx.arrived
  {
    var f, a := rx.flights[id], rx.arrived[id];
    var n := NumChunks(|f.data|, k);
    && 0 < |f.data| && f.dst + |f.data| <= |rx.mem|
    && (forall i :: i in a ==> i < n)
    && Placed(k, rx.mem, f, a)
    && Tracked(k, rx.observed, id, f, a)
    // the handler is released by the last chunk, with the pointer and size the sender used
    && (id in rx.ready <==> |a| == n)
    && (id in rx.ready ==> rx.ready[id] == (f.dst, |f.data|))
    // and so is the sender's span
    && (id in rx.posted <==> |a| == n && f.span != 0)
    && id in rx.spans && rx.spans[id] == f.span
  }

  /** `base` is where the lowest chunk in `a` starts. */
  ghost predicate LowestStart(dst: nat, k: nat, a: set<nat>, base: int) {
    && (exists i :: i in a && base == dst + ChunkStart(i, k))
    && (forall i :: i in a ==> base <= dst + ChunkStart(i, k))
  }

  ghost predicate RxInv(k: nat, rx: Rx)
    requires 0 < k
  {
    && rx.arrived.Keys == rx.flights.Keys
    && (forall id :: id in rx.flights ==> FlightInv(k, rx, id))
    && (forall id, other :: id in rx.flights && other in rx.flights && id != other ==>
          Apart(rx.flights[id].dst, |rx.flights[id].data|, rx.flights[other].dst, |rx.flights[other].data|))
    && rx.observed.Keys <= rx.flights.Keys && rx.ready.Keys <= rx.flights.Keys
    && rx.flights.Keys <= rx.spans.Keys
    && Distinct(rx.posted) && (forall id :: id in rx.posted ==> id in rx.spans)
    // a handled message had its span released exactly when it had one
    && (forall id :: id in rx.spans && id !in rx.flights ==> (id in rx.posted <==> rx.spans[id] != 0))
  }

  lemma MissingChunk(a: set<nat>, n: nat) returns (i: nat)
    requires (forall i :: i in a ==> i < n) && |a| != n
    ensures i < n && i !in a
  {
    SubsetOfBelow(a, n);
    var missing := Below(n) - a;
    assert Below(n) == a + missing && |a + missing| == |a| + |missing|;
    i :| i in missing;
  }

  lemma LaunchKeepsInv(k: nat, rx: Rx, id: int, f: Flight)
    requires 0 < k && RxInv(k, rx) && CanLaunch(rx, id, f)
    ensures RxInv(k, Launch(rx, id, f))
  {
    var rx' := Launch(rx, id, f);
    NumChunksBounds(|f.data|, k);
    assert id !in rx.posted && id !in rx.flights;
    forall o | o in rx'.flights
      ensures FlightInv(k, rx', o)
    {
      if o != id { assert FlightInv(k, rx, o); }
    }
  }

  /** One more chunk: the entry stays exact, and only the last chunk is told to go ahead. */
  lemma AdjustStep(k: nat, observed: map<int, ChunkInfo>, id: int, f: Flight, a: set<nat>, i: nat)
    requires 0 < k && 0 < |f.data| && i !in a && i < NumChunks(|f.data|, k)
    requires forall j :: j in a ==> j < NumChunks(|f.data|, k)
    requires Tracked(k, observed, id, f, a)
    ensures 0 <= ChunkLen(|f.data|, k, i)
    ensures var adj := Adjust(observed, f.dst + ChunkStart(i, k), ChunkLen(|f.data|, k, i), id, NumChunks(|f.data|, k));
            && Tracked(k, adj.observed, id, f, a + {i})
            && (adj.ready <==> |a + {i}| == NumChunks(|f.data|, k))
            && (adj.ready ==> adj.ptr == f.dst && adj.size == |f.data|)
            && adj.observed - {id} == observed - {id}
  {
    var n := NumChunks(|f.data|, k);
    var at, len := f.dst + ChunkStart(i, k), ChunkLen(|f.data|, k, i);
    ChunkBounds(|f.data|, k, i);
    OneMore(a, i, n);
    var base := if id in observed && observed[id].basePtr < at then observed[id].basePtr else at;
    var total := len + if id in observed then observed[id].totalSize else 0;
    AdjustBy(observed, at, len, id, n, |a|);
    BaseAfter(k, observed, id, f, a, i);
    TotalAfter(k, observed, id, f, a, i);
    EntryAfter(k, Adjust(observed, at, len, id, n), id, f, a + {i}, base, total);
  }

  /** An entry with the lowest start and the number of bytes so far says what it should, also when it is the last. */
  lemma EntryAfter(k: nat, adj: Adjusted, id: int, f: Flight, b: set<nat>, base: int, total: nat)
    requires 0 < k && 0 < |f.data| && (forall j :: j in b ==> j < NumChunks(|f.data|, k))
    requires LowestStart(f.dst, k, b, base) && total == ArrivedBytes(|f.data|, k, b)
    requires b != {} && (adj.ready <==> |b| == NumChunks(|f.data|, k))
    requires if adj.ready then id !in adj.observed && adj.ptr == base && adj.size == total
             else id in adj.observed && adj.observed[id] == ChunkInfo(base, |b|, total)
    ensures Tracked(k, adj.observed, id, f, b)
    ensures adj.ready ==> adj.ptr == f.dst && adj.size == |f.data|
  {
    SubsetOfBelow(b, NumChunks(|f.data|, k));
    if adj.ready {
      AllArrived(f.dst, |f.data|, k, b, base);
    }
  }

  lemma TotalAfter(k: nat, observed: map<int, ChunkInfo>, id: int, f: Flight, a: set<nat>, i: nat)
    requires 0 < k && i !in a && i < NumChunks(|f.data|, k)
    requires Tracked(k, observed, id, f, a) && |a| < NumChunks(|f.data|, k)
    ensures ArrivedBytes(|f.data|, k, a + {i})
            == ChunkLen(|f.data|, k, i) + if id in observed then observed[id].totalSize else 0
  {
    BytesAfter(|f.data|, k, a, i);
    if id !in observed { assert a == {}; }
  }

  lemma BaseAfter(k: nat, observed: map<int, ChunkInfo>, id: int, f: Flight, a: set<nat>, i: nat)
    requires 0 < k && Tracked(k, observed, id, f, a) && |a| < NumChunks(|f.data|, k)
    ensures var at := f.dst + ChunkStart(i, k);
            var base := if id in observed && observed[id].basePtr < at then observed[id].basePtr else at;
            LowestStart(f.dst, k, a + {i}, base)
  {
    if a == {} {
      assert i in a + {i};
    } else {
      LowestAfter(f.dst, k, a, i, observed[id].basePtr);
    }
  }

  /** What `adjust_long_msgsize` does to an entry that has counted `had` of the chunks. */
  lemma AdjustBy(observed: map<int, ChunkInfo>, ptr: int, size: nat, id: int, chunks: int, had: nat)
    requires had < chunks && (id in observed <==> 0 < had) && (id in observed ==> observed[id].chunks == had)
    ensures var adj := Adjust(observed, ptr, size, id, chunks);
            var base := if id in observed && observed[id].basePtr < ptr then observed[id].basePtr else ptr;
            var total := size + if id in observed then observed[id].totalSize else 0;
            && adj.observed - {id} == observed - {id}
            && (adj.ready <==> had + 1 == chunks)
            && (if adj.ready then id !in adj.observed && adj.ptr == base && adj.size == total
                else id in adj.observed && adj.observed[id] == ChunkInfo(base, had + 1, total))
  {
  }

  lemma BytesAfter(n: nat, k: nat, a: set<nat>, i: nat)
    requires 0 < k && i < NumChunks(n, k) && i !in a
    ensures ArrivedBytes(n, k, a + {i}) == ArrivedBytes(n, k, a) + ChunkLen(n, k, i)
    ensures a == {} ==> ArrivedBytes(n, k, a) == 0
  {
    assert |a + {i}| == |a| + 1;
    assert (|a| + 1) * k == |a| * k + k;
    var c := NumChunks(n, k);
    assert (c - 1) * k == c * k - k;
  }

  lemma LowestAfter(dst: nat, k: nat, a: set<nat>, i: nat, base: int)
    requires LowestStart(dst, k, a, base)
    ensures LowestStart(dst, k, a + {i}, if dst + ChunkStart(i, k) < base then dst + ChunkStart(i, k) else base)
  {
    var w :| w in a && base == dst + ChunkStart(w, k);
    var base' := if dst + ChunkStart(i, k) < base then dst + ChunkStart(i, k) else base;
    assert i in a + {i} && w in a + {i};
    assert exists j :: j in a + {i} && base' == dst + ChunkStart(j, k);
  }

  lemma AllArrived(dst: nat, n: nat, k: nat, a: set<nat>, base: int)
    requires 0 < k && 0 < n && a == Below(NumChunks(n, k)) && LowestStart(dst, k, a, base)
    ensures base == dst && ArrivedBytes(n, k, a) == n
  {
    NumChunksBounds(n, k);
    assert 0 in a && ChunkStart(0, k) == 0;
    var w :| w in a && base == dst + ChunkStart(w, k);
    assert 0 <= w * k;
  }

  /** The memory, one chunk later: that chunk is in place too. */
  lemma PlaceStep(k: nat, mem: seq<byte>, f: Flight, a: set<nat>, i: nat)
    requires 0 < k && i < NumChunks(|f.data|, k) && f.dst + |f.data| <= |mem|
    requires Placed(k, mem, f, a)
    ensures ChunkStart(i, k) + |ChunkData(f.data, k, i)| <= |f.data|
    ensures Placed(k, Splice(mem, f.dst + ChunkStart(i, k), ChunkData(f.data, k, i)), f, a + {i})
  {
    ChunkBounds(|f.data|, k, i);
    var bytes, at := ChunkData(f.data, k, i), f.dst + ChunkStart(i, k);
    var mem' := Splice(mem, at, bytes);
    SpliceAt(mem, at, bytes);
    forall x: nat | x < |f.data| && ChunkOf(x, k) in a + {i}
      ensures mem'[f.dst + x] == f.data[x]
    {
      if ChunkOf(x, k) == i {
        assert mem'[at..at + |bytes|][x - ChunkStart(i, k)] == bytes[x - ChunkStart(i, k)];
      }
    }
  }

  lemma PlacedElsewhere(k: nat, mem: seq<byte>, at: nat, bytes: seq<byte>, f: Flight, a: set<nat>)
    requires 0 < k && f.dst + |f.data| <= |mem| && at + |bytes| <= |mem| && Apart(at, |bytes|, f.dst, |f.data|)
    requires Placed(k, mem, f, a)
    ensures Placed(k, Splice(mem, at, bytes), f, a)
  {
    SpliceAt(mem, at, bytes);
  }

  lemma ArriveOwn(k: nat, rx: Rx, id: int, i: nat)
    requires 0 < k && id in rx.flights && id in rx.arrived && FlightInv(k, rx, id) && CanArrive(k, rx, id, i)
    ensures var rx' := Arrive(k, rx, id, i);
            && FlightInv(k, rx', id)
            && (id in rx'.ready <==> |rx'.arrived[id]| == NumChunks(|rx.flights[id].data|, k))
            && rx'.observed - {id} == rx.observed - {id}
            && (rx'.posted == rx.posted || (id !in rx.posted && rx'.posted == rx.posted + [id]))
  {
    var f, a := rx.flights[id], rx.arrived[id];
    AdjustStep(k, rx.observed, id, f, a, i);
    PlaceStep(k, rx.mem, f, a, i);
    OneMore(a, i, NumChunks(|f.data|, k));
    ChunkBounds(|f.data|, k, i);
    ArriveFrame(k, rx, id, i);
    ArriveShape(k, rx, id, i, f, Adjust(rx.observed, f.dst + ChunkStart(i, k), ChunkLen(|f.data|, k, i), id,
                                        NumChunks(|f.data|, k)));
  }

  lemma OneMore(a: set<nat>, i: nat, n: nat)
    requires i !in a && i < n && forall j :: j in a ==> j < n
    ensures |a + {i}| == |a| + 1 <= n
  {
    SubsetOfBelow(a + {i}, n);
  }

  lemma ArriveOther(k: nat, rx: Rx, id: int, i: nat, o: int)
    requires 0 < k && CanArrive(k, rx, id, i)
    requires o != id && o in rx.flights && o in rx.arrived && FlightInv(k, rx, o)
    requires Apart(rx.flights[id].dst, |rx.flights[id].data|, rx.flights[o].dst, |rx.flights[o].data|)
    ensures FlightInv(k, Arrive(k, rx, id, i), o)
  {
    var f := rx.flights[id];
    ArriveElsewhere(k, rx, id, i, o);
    ChunkBounds(|f.data|, k, i);
    PlacedElsewhere(k, rx.mem, f.dst + ChunkStart(i, k), ChunkData(f.data, k, i), rx.flights[o], rx.arrived[o]);
    FlightFrame(k, rx, Arrive(k, rx, id, i), o);
  }

  /** What an arrival leaves of another message. */
  lemma ArriveElsewhere(k: nat, rx: Rx, id: int, i: nat, o: int)
    requires 0 < k && CanArrive(k, rx, id, i) && o != id && o in rx.flights && o in rx.arrived
    ensures var f, rx' := rx.flights[id], Arrive(k, rx, id, i);
            && rx'.flights == rx.flights && rx'.spans == rx.spans
            && o in rx'.arrived && rx'.arrived[o] == rx.arrived[o]
            && (o in rx'.observed <==> o in rx.observed)
            && (o in rx.observed ==> rx'.observed[o] == rx.observed[o])
            && (o in rx'.ready <==> o in rx.ready) && (o in rx.ready ==> rx'.ready[o] == rx.ready[o])
            && (o in rx'.posted <==> o in rx.posted)
            && 0 <= ChunkLen(|f.data|, k, i) && f.dst + ChunkStart(i, k) + ChunkLen(|f.data|, k, i) <= |rx.mem|
            && rx'.mem == Splice(rx.mem, f.dst + ChunkStart(i, k), ChunkData(f.data, k, i))
  {
    var f := rx.flights[id];
    ChunkBounds(|f.data|, k, i);
    var at, len, n := f.dst + ChunkStart(i, k), ChunkLen(|f.data|, k, i), NumChunks(|f.data|, k);
    AdjustElsewhere(rx.observed, at, len, id, n, o);
    ArriveShape(k, rx, id, i, f, Adjust(rx.observed, at, len, id, n));
    ArriveFrame(k, rx, id, i);
  }

  lemma AdjustElsewhere(observed: map<int, ChunkInfo>, ptr: int, size: nat, id: int, chunks: int, o: int)
    requires o != id
    ensures var after := Adjust(observed, ptr, size, id, chunks).observed;
            (o in after <==> o in observed) && (o in observed ==> after[o] == observed[o])
  {
  }

  lemma FlightFrame(k: nat, rx: Rx, rx': Rx, o: int)
    requires 0 < k && o in rx.flights && o in rx.arrived && FlightInv(k, rx, o)
    requires rx'.flights == rx.flights && rx'.spans == rx.spans && |rx'.mem| == |rx.mem|
    requires o in rx'.arrived && rx'.arrived[o] == rx.arrived[o]
    requires (o in rx'.observed <==> o in rx.observed) && (o in rx.observed ==> rx'.observed[o] == rx.observed[o])
    requires (o in rx'.ready <==> o in rx.ready) && (o in rx.ready ==> rx'.ready[o] == rx.ready[o])
    requires o in rx'.posted <==> o in rx.posted
    requires Placed(k, rx'.mem, rx.flights[o], rx.arrived[o])
    ensures FlightInv(k, rx', o)
  {
  }

  lemma ArriveKeepsInv(k: nat, rx: Rx, id: int, i: nat)
    requires 0 < k && RxInv(k, rx) && CanArrive(k, rx, id, i)
    ensures RxInv(k, Arrive(k, rx, id, i))
    ensures id in Arrive(k, rx, id, i).ready <==> |rx.arrived[id] + {i}| == NumChunks(|rx.flights[id].data|, k)
  {
    ArriveFrame(k, rx, id, i);
    ArriveFlights(k, rx, id, i);
    ArriveKeys(k, rx, id, i);
    ArrivePosted(k, rx, id, i);
    assert FlightInv(k, Arrive(k, rx, id, i), id);
  }

  lemma ArriveFlights(k: nat, rx: Rx, id: int, i: nat)
    requires 0 < k && RxInv(k, rx) && CanArrive(k, rx, id, i)
    ensures var rx' := Arrive(k, rx, id, i);
            && rx'.arrived.Keys == rx'.flights.Keys
            && forall o :: o in rx'.flights ==> FlightInv(k, rx', o)
  {
    var rx' := Arrive(k, rx, id, i);
    ArriveFrame(k, rx, id, i);
    assert FlightInv(k, rx, id);
    ArriveOwn(k, rx, id, i);
    forall o | o in rx'.flights
      ensures FlightInv(k, rx', o)
    {
      if o != id { ArriveOther(k, rx, id, i, o); }
    }
  }

  lemma ArrivePosted(k: nat, rx: Rx, id: int, i: nat)
    requires 0 < k && RxInv(k, rx) && CanArrive(k, rx, id, i)
    ensures var posted := Arrive(k, rx, id, i).posted;
            && Distinct(posted) && (forall o :: o in posted ==> o in rx.spans)
            && forall o :: o in rx.spans && o !in rx.flights ==> (o in posted <==> rx.spans[o] != 0)
  {
    assert FlightInv(k, rx, id);
    ArriveOwn(k, rx, id, i);
  }

  lemma ArriveKeys(k: nat, rx: Rx, id: int, i: nat)
    requires 0 < k && CanArrive(k, rx, id, i)
    requires rx.observed.Keys <= rx.flights.Keys && rx.ready.Keys <= rx.flights.Keys
    ensures var rx' := Arrive(k, rx, id, i);
            rx'.observed.Keys <= rx.flights.Keys && rx'.ready.Keys <= rx.flights.Keys
  {
    var f := rx.flights[id];
    ChunkBounds(|f.data|, k, i);
    ArriveShape(k, rx, id, i, f, Adjust(rx.observed, f.dst + ChunkStart(i, k), ChunkLen(|f.data|, k, i), id,
                                        NumChunks(|f.data|, k)));
  }

  lemma RetireKeepsInv(k: nat, rx: Rx, id: int)
    requires 0 < k && RxInv(k, rx) && id in rx.ready
    ensures RxInv(k, Retire(rx, id))
  {
    var rx' := Retire(rx, id);
    assert FlightInv(k, rx, id);
    forall o | o in rx'.flights
      ensures FlightInv(k, rx', o)
    {
      assert FlightInv(k, rx, o);
    }
  }
}
