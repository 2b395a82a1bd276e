/**
 The buffer (LMB) protocol between a sending and a receiving endpoint, over an unordered network.

 The sender fills a buffer in the receiver's segment, asks for a flip when the next message does
 not fit, and waits for an ack before it writes there again. Chunks, flip requests and acks may be
 delivered in any order, handlers may run in any order, and messages that go straight to a target
 pointer share the link.
 */
module LmbProtocol {
  import opened Bytes
  import opened LmbFlow
  import opened Reassembly

  /**
   `k` is the largest long request; the sender's buffers fill the receiver's segment downwards from
   `top`.
   */
  datatype Setup = Setup(cfg: Config, k: nat, top: nat) {
    predicate Valid() {
      cfg.Valid() && 0 < k && cfg.numLmbs * cfg.lmbSize <= top
    }
  }

  /** `lmb_w_bases[i]`, as an offset in the receiver's segment. */
  function BufStart(st: Setup, i: nat): int {
    st.top - st.cfg.lmbSize * (i + 1)
  }

  predicate InBuffer(st: Setup, b: nat, ptr: int) {
    InBufferAt(BufStart(st, b), st.cfg.lmbSize, ptr)
  }

  function Starts(st: Setup): seq<int> {
    seq(st.cfg.numLmbs, i requires 0 <= i => BufStart(st, i))
  }

  /** The receiver's buffer that contains `ptr`, or -1. */
  function FindBuffer(st: Setup, ptr: int): int {
    Scan(Starts(st), st.cfg.lmbSize, ptr, 0)
  }

  lemma BuffersApart(st: Setup, i: nat, j: nat)
    requires st.Valid() && i < j < st.cfg.numLmbs
    ensures BufStart(st, j) + st.cfg.lmbSize <= BufStart(st, i)
  {
    assert st.cfg.lmbSize * (j + 1) == st.cfg.lmbSize * (i + 1) + st.cfg.lmbSize * (j - i);
    assert st.cfg.lmbSize * (j - i) >= st.cfg.lmbSize * 1 by { MulMono(1, j - i, st.cfg.lmbSize); }
  }

  lemma BufferInArea(st: Setup, i: nat)
    requires st.Valid() && i < st.cfg.numLmbs
    ensures 0 <= st.top - st.cfg.numLmbs * st.cfg.lmbSize <= BufStart(st, i)
    ensures BufStart(st, i) + st.cfg.lmbSize <= st.top
  {
    assert st.cfg.lmbSize * (i + 1) <= st.cfg.lmbSize * st.cfg.numLmbs by {
      MulMono(i + 1, st.cfg.numLmbs, st.cfg.lmbSize);
    }
    assert st.cfg.lmbSize * (i + 1) == st.cfg.lmbSize * i + st.cfg.lmbSize;
  }

  /** A pointer lies in at most one buffer, and the scan finds it. */
  lemma FindBufferFinds(st: Setup, ptr: int)
    requires st.Valid()
    ensures var r := FindBuffer(st, ptr);
            && (r == -1 || 0 <= r < st.cfg.numLmbs)
            && forall b: nat :: b < st.cfg.numLmbs ==> (InBuffer(st, b, ptr) <==> r == b)
  {
    var r := FindBuffer(st, ptr);
    ScanFinds(Starts(st), st.cfg.lmbSize, ptr, 0);
    forall b: nat | b < st.cfg.numLmbs
      ensures InBuffer(st, b, ptr) <==> r == b
    {
      assert Starts(st)[b] == BufStart(st, b);
      if 0 <= r < b { BuffersApart(st, r, b); }
    }
  }

  // ---------------------------------------------------------------------------------------
  // The system

  /** Control traffic of one buffer: what is on its way, and how much there has been. */
  datatype Book = Book(flips: multiset<nat>, ackQueued: nat, ackFlying: nat, flipsSent: nat, acksSent: nat)

  datatype Link = Link(
    out: Outbound,                   // the sender
    counts: seq<int>,                // the receiver's `lmb_r_counts`
    rx: Rx,                          // long messages in flight, reassembly and memory
    books: seq<Book>,
    nextId: int,                     // the sender's `next_outgoing_message_id`
    sent: map<int, seq<byte>>,       // history: the payloads handed to the network
    handled: map<int, seq<byte>>)    // history: the bytes each handler found

  datatype Step =
    | Enqueue(m: Message, toShort: bool)
    | Assign(i: nat, span: int)
    | Push
    | ChunkArrives(id: int, i: nat)
    | Handle(id: int)
    | FlipArrives(b: nat, count: nat)
    | AckLeaves(b: nat)
    | AckArrives(b: nat)

  ghost predicate Init(st: Setup, s: Link) {
    && st.Valid() && st.top <= |s.rx.mem|
    && s.out == Outbound([], [], Writer(0, 0, 0, seq(st.cfg.numLmbs, _ => true)))
    && s.counts == seq(st.cfg.numLmbs, _ => 0)
    && s.rx == Rx(s.rx.mem, map[], map[], map[], map[], map[], [])
    && s.books == seq(st.cfg.numLmbs, _ => Book(multiset{}, 0, 0, 0, 0))
    && s.sent == map[] && s.handled == map[]
  }

  /** A target pointer chosen by a user keeps clear of the buffers and of other unhandled messages. */
  ghost predicate DirectOk(st: Setup, s: Link, m: Message) {
    && m.User?
    && Apart(m.dst, |m.data|, st.top - st.cfg.numLmbs * st.cfg.lmbSize, st.cfg.numLmbs * st.cfg.lmbSize)
    && m.dst + |m.data| <= |s.rx.mem|
    && forall id :: id in s.rx.flights ==> Apart(m.dst, |m.data|, s.rx.flights[id].dst, |s.rx.flights[id].data|)
  }

  ghost predicate Enabled(st: Setup, s: Link, step: Step)
    requires st.Valid()
  {
    match step
    case Enqueue(m, _) => m.User? && Fits(st.cfg, m)
    case Assign(i, _) => i < |s.out.longs| && s.out.longs[i].User? && s.out.longs[i].waiting
    case Push =>
      && OutboundOk(st.cfg, s.out)
      && var r := PushStep(st.cfg, s.out);
         r.Sent? && (r.wire.Direct? ==> DirectOk(st, s, r.wire.m))
    case ChunkArrives(id, i) => CanArrive(st.k, s.rx, id, i)
    case Handle(id) =>
      && id in s.rx.ready && 0 <= s.rx.ready[id].0 && s.rx.ready[id].0 + s.rx.ready[id].1 <= |s.rx.mem|
      && |s.counts| == |s.books| == st.cfg.numLmbs
    case FlipArrives(b, count) => b < |s.books| == |s.counts| && count in s.books[b].flips
    case AckLeaves(b) => b < |s.books| && 0 < s.books[b].ackQueued
    case AckArrives(b) => b < |s.books| && 0 < s.books[b].ackFlying && b < |s.out.w.avail|
  }

  /** Both `handle_long_msgptr` and `handle_flip_request`: move the counter, and ack when it comes to zero. */
  function Credit(counts: seq<int>, books: seq<Book>, b: nat, delta: int): (seq<int>, seq<Book>)
    requires b < |counts| == |books|
  {
    var book, now := books[b], Count(counts, b, delta);
    (now.counts,
     if now.ackDue then books[b := book.(ackQueued := book.ackQueued + 1, acksSent := book.acksSent + 1)] else books)
  }

  /** Counters and books after a handler was done with the bytes at `ptr`. */
  function Credited(st: Setup, counts: seq<int>, books: seq<Book>, ptr: int): (seq<int>, seq<Book>)
    requires |counts| == |books| == st.cfg.numLmbs
  {
    var b := FindBuffer(st, ptr);
    if b < 0 then (counts, books) else
      assert |Starts(st)| == st.cfg.numLmbs;
      Credit(counts, books, b, 1)
  }

  function LaunchNext(s: Link, out: Outbound, dst: nat, m: Message): Link
    requires m.User?
  {
    s.(out := out,
       rx := Launch(s.rx, s.nextId, Flight(dst, m.data, m.span)),
       nextId := s.nextId + 1,
       sent := s.sent[s.nextId := m.data])
  }

  function HandlerRuns(st: Setup, s: Link, id: int): Link
    requires st.Valid() && Enabled(st, s, Handle(id))
  {
    var (ptr, size) := s.rx.ready[id];
    var (counts, books) := Credited(st, s.counts, s.books, ptr);
    s.(handled := s.handled[id := s.rx.mem[ptr..ptr + size]], rx := Retire(s.rx, id), counts := counts, books := books)
  }

  function FlipLeaves(s: Link, out: Outbound, b: nat, count: nat): Link
    requires b < |s.books|
  {
    var book := s.books[b];
    s.(out := out, books := s.books[b := book.(flips := book.flips + multiset{count}, flipsSent := book.flipsSent + 1)])
  }

  function FlipLands(s: Link, b: nat, count: nat): Link
    requires b < |s.books| == |s.counts| && count in s.books[b].flips
  {
    var landed := s.books[b].(flips := s.books[b].flips - multiset{count});
    var (counts, books) := Credit(s.counts, s.books[b := landed], b, 0 - count);
    s.(counts := counts, books := books)
  }

  function Apply(st: Setup, s: Link, step: Step): Link
    requires st.Valid() && Enabled(st, s, step)
  {
    match step
    case Enqueue(m, toShort) =>
      if toShort then s.(out := s.out.(shorts := s.out.shorts + [m]))
      else s.(out := s.out.(longs := s.out.longs + [m]))
    case Assign(i, span) =>
      s.(out := s.out.(longs := s.out.longs[i := s.out.longs[i].(waiting := false, span := span)]))
    case Push =>
      (var r := PushStep(st.cfg, s.out);
       match r.wire
       case Plain(_) => s.(out := r.out)
       case Direct(m) => LaunchNext(s, r.out, m.dst, m)
       case Buffered(m, lmb, offset) =>
         (BufferInArea(st, lmb); LaunchNext(s, r.out, BufStart(st, lmb) + offset, m))
       case FlipRequest(b, count) =>
         if b < |s.books| then FlipLeaves(s, r.out, b, count) else s)
    case ChunkArrives(id, i) => s.(rx := Arrive(st.k, s.rx, id, i))
    case Handle(id) => HandlerRuns(st, s, id)
    case FlipArrives(b, count) => FlipLands(s, b, count)
    case AckLeaves(b) =>
      var book := s.books[b];
      s.(books := s.books[b := book.(ackQueued := book.ackQueued - 1, ackFlying := book.ackFlying + 1)])
    case AckArrives(b) =>
      s.(books := s.books[b := s.books[b].(ackFlying := s.books[b].ackFlying - 1)],
         out := s.out.(w := s.out.w.(avail := s.out.w.avail[b := true])))
  }

  // ---------------------------------------------------------------------------------------
  // The invariant

  /** The unhandled messages that were placed in buffer `b`. */
  ghost function Inside(st: Setup, flights: map<int, Flight>, b: nat): set<int> {
    set id | id in flights && InBuffer(st, b, flights[id].dst)
  }

  predicate InsideBuffer(st: Setup, b: nat, f: Flight) {
    InBuffer(st, b, f.dst) && f.dst + |f.data| <= BufStart(st, b) + st.cfg.lmbSize
  }

  /** An unhandled message sits wholly inside one buffer, or wholly outside the buffer area. */
  ghost predicate WellPlaced(st: Setup, f: Flight) {
    || Apart(f.dst, |f.data|, st.top - st.cfg.numLmbs * st.cfg.lmbSize, st.cfg.numLmbs * st.cfg.lmbSize)
    || exists b: nat :: b < st.cfg.numLmbs && InsideBuffer(st, b, f)
  }

  /** Buffer `b` is being filled, or free, or flipped and in one of three stages on its way back. */
  ghost predicate BufferInv(st: Setup, b: nat, w: Writer, count: int, book: Book, unhandled: int) {
    && b < |w.avail|
    && if w.avail[b] then
         && book == Book(multiset{}, 0, 0, book.acksSent, book.acksSent)
         && 0 <= count
         && count + unhandled == (if b == w.lmb then w.count else 0)
       else
         || (exists c :: 0 < c && book.flips == multiset{c} && 0 <= count && count + unhandled == c
                         && book.ackQueued + book.ackFlying == 0 && book.flipsSent == book.acksSent + 1)
         || (book.flips == multiset{} && 0 < unhandled && count == -unhandled
             && book.ackQueued + book.ackFlying == 0 && book.flipsSent == book.acksSent + 1)
         || (book.flips == multiset{} && unhandled == 0 && count == 0
             && book.ackQueued + book.ackFlying == 1 && book.flipsSent == book.acksSent)
  }

  ghost predicate BuffersInv(st: Setup, w: Writer, counts: seq<int>, books: seq<Book>, flights: map<int, Flight>) {
    && |counts| == |books| == st.cfg.numLmbs
    && forall b: nat :: b < st.cfg.numLmbs ==> BufferInv(st, b, w, counts[b], books[b], |Inside(st, flights, b)|)
  }

  ghost predicate AllWellPlaced(st: Setup, flights: map<int, Flight>) {
    forall id :: id in flights ==> WellPlaced(st, flights[id])
  }

  /** In the buffer being filled, unhandled messages lie below the write offset. */
  ghost predicate BelowOffset(st: Setup, w: Writer, flights: map<int, Flight>)
    requires w.lmb < |w.avail|
  {
    forall id :: id in flights && InBuffer(st, w.lmb, flights[id].dst) && w.avail[w.lmb] ==>
      flights[id].dst + |flights[id].data| <= BufStart(st, w.lmb) + w.offset
  }

  /** Every message handed to the network is either unhandled or was handled once, with the bytes that were sent. */
  ghost predicate History(sent: map<int, seq<byte>>, handled: map<int, seq<byte>>, nextId: int, ids: set<int>,
                          flights: map<int, Flight>)
  {
    && sent.Keys == ids
    && (forall id :: id in sent ==> id < nextId)
    && (forall id :: id in flights ==> id in sent && sent[id] == flights[id].data)
    && handled.Keys == sent.Keys - flights.Keys
    && (forall id :: id in handled ==> handled[id] == sent[id])
  }

  ghost predicate Inv(st: Setup, s: Link) {
    && st.Valid() && st.top <= |s.rx.mem|
    && OutboundOk(st.cfg, s.out)
    && RxInv(st.k, s.rx)
    && AllWellPlaced(st, s.rx.flights)
    && BuffersInv(st, s.out.w, s.counts, s.books, s.rx.flights)
    && BelowOffset(st, s.out.w, s.rx.flights)
    && History(s.sent, s.handled, s.nextId, s.rx.spans.Keys, s.rx.flights)
  }

  // ---------------------------------------------------------------------------------------
  // Every step keeps the invariant

  lemma InsideLaunch(st: Setup, flights: map<int, Flight>, id: int, f: Flight, b: nat)
    requires id !in flights
    ensures Inside(st, flights[id := f], b)
         == if InBuffer(st, b, f.dst) then Inside(st, flights, b) + {id} else Inside(st, flights, b)
    ensures |Inside(st, flights[id := f], b)| == |Inside(st, flights, b)| + if InBuffer(st, b, f.dst) then 1 else 0
  {
    var after := flights[id := f];
    forall o
      ensures o in Inside(st, after, b) <==> o in Inside(st, flights, b) || (o == id && InBuffer(st, b, f.dst))
    {
    }
    assert id !in Inside(st, flights, b);
  }

  lemma InsideRetire(st: Setup, flights: map<int, Flight>, id: int, b: nat)
    requires id in flights
    ensures |Inside(st, flights - {id}, b)|
         == |Inside(st, flights, b)| - if InBuffer(st, b, flights[id].dst) then 1 else 0
  {
    InsideLaunch(st, flights - {id}, id, flights[id], b);
    assert (flights - {id})[id := flights[id]] == flights;
  }

  lemma NoneInside(st: Setup, flights: map<int, Flight>, b: nat)
    requires |Inside(st, flights, b)| == 0
    ensures forall id :: id in flights ==> !InBuffer(st, b, flights[id].dst)
  {
    assert forall id :: id in flights && InBuffer(st, b, flights[id].dst) ==> id in Inside(st, flights, b);
  }

  /** The place chosen by the sender is clear of every message that has not been handled. */
  lemma PlacementIsClear(st: Setup, s: Link, lmb: nat, at: int, n: nat)
    requires Inv(st, s) && lmb == s.out.w.lmb && s.out.w.avail[lmb]
    requires at == BufStart(st, lmb) + s.out.w.offset && s.out.w.offset + n <= st.cfg.lmbSize
    ensures 0 <= BufStart(st, lmb) <= at && at + n <= BufStart(st, lmb) + st.cfg.lmbSize && at + n <= |s.rx.mem|
    ensures forall o :: o in s.rx.flights ==> Apart(at, n, s.rx.flights[o].dst, |s.rx.flights[o].data|)
  {
    BufferInArea(st, lmb);
    forall o | o in s.rx.flights
      ensures Apart(at, n, s.rx.flights[o].dst, |s.rx.flights[o].data|)
    {
      var f := s.rx.flights[o];
      assert WellPlaced(st, f);
      if !Apart(f.dst, |f.data|, st.top - st.cfg.numLmbs * st.cfg.lmbSize, st.cfg.numLmbs * st.cfg.lmbSize) {
        var b: nat :| b < st.cfg.numLmbs && InsideBuffer(st, b, f);
        if b < lmb { BuffersApart(st, b, lmb); }
        if lmb < b { BuffersApart(st, lmb, b); }
      }
    }
  }

  /** A message enters the network: what has to hold of its place and of the sender afterwards. */
  lemma LaunchSafe(st: Setup, s: Link, out: Outbound, dst: nat, m: Message, f: Flight, after: map<int, Flight>)
    requires Inv(st, s) && m.User? && OutboundOk(st.cfg, out)
    requires f == Flight(dst, m.data, m.span) && after == s.rx.flights[s.nextId := f]
    requires CanLaunch(s.rx, s.nextId, f) && WellPlaced(st, f)
    requires BuffersInv(st, out.w, s.counts, s.books, after) && BelowOffset(st, out.w, after)
    ensures Inv(st, LaunchNext(s, out, dst, m))
  {
    LaunchKeepsInv(st.k, s.rx, s.nextId, f);
    HistoryLaunch(s.sent, s.handled, s.nextId, s.rx.spans.Keys, s.rx.flights, f);
    assert s.rx.spans[s.nextId := f.span].Keys == s.rx.spans.Keys + {s.nextId};
    assert AllWellPlaced(st, after);
  }

  lemma HistoryLaunch(sent: map<int, seq<byte>>, handled: map<int, seq<byte>>, nextId: int, ids: set<int>,
                      flights: map<int, Flight>, f: Flight)
    requires History(sent, handled, nextId, ids, flights)
    ensures History(sent[nextId := f.data], handled, nextId + 1, ids + {nextId}, flights[nextId := f])
  {
    assert nextId !in sent;
  }

  /** The buffer that receives a message counts it; the others do not notice. */
  lemma PlacementCounted(st: Setup, b: nat, w: Writer, w': Writer, lmb: nat, count: int, book: Book, unhandled: int)
    requires BufferInv(st, b, w, count, book, unhandled) && w.lmb == lmb < |w.avail| && w.avail[lmb]
    requires w' == w.(offset := w'.offset, count := w.count + 1)
    ensures BufferInv(st, b, w', count, book, unhandled + if b == lmb then 1 else 0)
  {
  }

  lemma PushBufferedSafe(st: Setup, s: Link)
    requires Inv(st, s) && Enabled(st, s, Push) && PushStep(st.cfg, s.out).wire.Buffered?
    ensures Inv(st, Apply(st, s, Push))
  {
    var r := PushStep(st.cfg, s.out);
    PlacementAdvances(st.cfg, s.out);
    var m, lmb, at := r.wire.m, r.wire.lmb, BufStart(st, r.wire.lmb) + r.wire.offset;
    PlacementIsClear(st, s, lmb, at, |m.data|);
    PlacedSafe(st, s, r.out, lmb, at, m);
    PushIsLaunch(st, s, r.out, m, at);
  }

  lemma PushIsFlip(st: Setup, s: Link, out: Outbound, b: nat, count: nat)
    requires Inv(st, s) && Enabled(st, s, Push)
    requires PushStep(st.cfg, s.out) == Sent(out, FlipRequest(b, count))
    ensures b < |s.books| && Apply(st, s, Push) == FlipLeaves(s, out, b, count)
  {
  }

  lemma PushIsLaunch(st: Setup, s: Link, out: Outbound, m: Message, at: nat)
    requires st.Valid() && Enabled(st, s, Push) && PushStep(st.cfg, s.out).wire.Buffered?
    requires PushStep(st.cfg, s.out).out == out && PushStep(st.cfg, s.out).wire.m == m && m.User?
    requires at == BufStart(st, s.out.w.lmb) + s.out.w.offset
    ensures Apply(st, s, Push) == LaunchNext(s, out, at, m)
  {
  }

  lemma PlacedSafe(st: Setup, s: Link, out: Outbound, lmb: nat, at: nat, m: Message)
    requires Inv(st, s) && m.User? && 0 < |m.data| && OutboundOk(st.cfg, out)
    requires lmb == s.out.w.lmb && s.out.w.avail[lmb]
    requires out.w == s.out.w.(offset := out.w.offset, count := s.out.w.count + 1)
    requires at == BufStart(st, lmb) + s.out.w.offset && s.out.w.offset + |m.data| <= out.w.offset
    requires at + |m.data| <= BufStart(st, lmb) + st.cfg.lmbSize && at + |m.data| <= |s.rx.mem|
    requires forall o :: o in s.rx.flights ==> Apart(at, |m.data|, s.rx.flights[o].dst, |s.rx.flights[o].data|)
    ensures Inv(st, LaunchNext(s, out, at, m))
  {
    var f := Flight(at, m.data, m.span);
    var after := s.rx.flights[s.nextId := f];
    assert s.nextId !in s.sent && s.nextId !in s.rx.flights;
    PushBufferedBooks(st, s.out.w, out.w, s.counts, s.books, s.rx.flights, s.nextId, f, lmb);
    PlacementBelow(st, s.rx.flights, after, s.nextId, f, lmb, s.out.w.offset, out.w.offset);
    assert InsideBuffer(st, lmb, f);
    LaunchSafe(st, s, out, at, m, f, after);
  }

  /** Raising the write offset past the new message keeps everything in the buffer below it. */
  lemma PlacementBelow(st: Setup, flights: map<int, Flight>, after: map<int, Flight>, id: int, f: Flight, lmb: nat,
                       offset: nat, offset': nat)
    requires forall o :: o in flights && InBuffer(st, lmb, flights[o].dst) ==>
               flights[o].dst + |flights[o].data| <= BufStart(st, lmb) + offset
    requires f.dst == BufStart(st, lmb) + offset && offset + |f.data| <= offset'
    requires after == flights[id := f]
    ensures forall o :: o in after && InBuffer(st, lmb, after[o].dst) ==>
              after[o].dst + |after[o].data| <= BufStart(st, lmb) + offset'
  {
  }

  lemma PushBufferedBooks(st: Setup, w: Writer, w': Writer, counts: seq<int>, books: seq<Book>,
                          flights: map<int, Flight>, id: int, f: Flight, lmb: nat)
    requires st.Valid() && BuffersInv(st, w, counts, books, flights) && id !in flights
    requires w.lmb == lmb < |w.avail| == st.cfg.numLmbs && w.avail[lmb] && InBuffer(st, lmb, f.dst)
    requires w' == w.(offset := w'.offset, count := w.count + 1)
    ensures BuffersInv(st, w', counts, books, flights[id := f])
  {
    forall b: nat | b < st.cfg.numLmbs
      ensures BufferInv(st, b, w', counts[b], books[b], |Inside(st, flights[id := f], b)|)
    {
      InsideLaunch(st, flights, id, f, b);
      if b < lmb { BuffersApart(st, b, lmb); }
      if lmb < b { BuffersApart(st, lmb, b); }
      PlacementCounted(st, b, w, w', lmb, counts[b], books[b], |Inside(st, flights, b)|);
    }
  }

  /** A message outside the buffer area concerns no buffer. */
  lemma OutsideBuffers(st: Setup, w: Writer, counts: seq<int>, books: seq<Book>, flights: map<int, Flight>, id: int,
                       f: Flight)
    requires st.Valid() && BuffersInv(st, w, counts, books, flights) && id !in flights
    requires 0 < |f.data| && w.lmb < |w.avail| == st.cfg.numLmbs && BelowOffset(st, w, flights)
    requires Apart(f.dst, |f.data|, st.top - st.cfg.numLmbs * st.cfg.lmbSize, st.cfg.numLmbs * st.cfg.lmbSize)
    ensures BuffersInv(st, w, counts, books, flights[id := f]) && BelowOffset(st, w, flights[id := f])
  {
    forall b: nat | b < st.cfg.numLmbs
      ensures !InBuffer(st, b, f.dst)
      ensures BufferInv(st, b, w, counts[b], books[b], |Inside(st, flights[id := f], b)|)
    {
      assert BufferInv(st, b, w, counts[b], books[b], |Inside(st, flights, b)|);
      BufferInArea(st, b);
      InsideLaunch(st, flights, id, f, b);
    }
  }

  lemma PushDirectSafe(st: Setup, s: Link)
    requires Inv(st, s) && Enabled(st, s, Push) && PushStep(st.cfg, s.out).wire.Direct?
    ensures Inv(st, Apply(st, s, Push))
  {
    var r := PushStep(st.cfg, s.out);
    var m := r.wire.m;
    var f := Flight(m.dst, m.data, m.span);
    assert s.nextId !in s.sent && s.nextId !in s.rx.flights;
    OutsideBuffers(st, s.out.w, s.counts, s.books, s.rx.flights, s.nextId, f);
    LaunchSafe(st, s, r.out, m.dst, m, f, s.rx.flights[s.nextId := f]);
  }

  lemma FlipBuffers(st: Setup, w: Writer, w': Writer, counts: seq<int>, books: seq<Book>, flights: map<int, Flight>,
                    count: nat)
    requires st.Valid() && BuffersInv(st, w, counts, books, flights)
    requires w.lmb < |w.avail| == st.cfg.numLmbs && w.avail[w.lmb] && count == w.count > 0
    requires w' == Writer((w.lmb + 1) % st.cfg.numLmbs, 0, 0, w.avail[w.lmb := false])
    ensures var book := books[w.lmb];
            BuffersInv(st, w', counts, books[w.lmb := book.(flips := book.flips + multiset{count},
                                                            flipsSent := book.flipsSent + 1)], flights)
    ensures BelowOffset(st, w', flights)
  {
    var book := books[w.lmb];
    var books' := books[w.lmb := book.(flips := book.flips + multiset{count}, flipsSent := book.flipsSent + 1)];
    forall b: nat | b < st.cfg.numLmbs
      ensures BufferInv(st, b, w', counts[b], books'[b], |Inside(st, flights, b)|)
    {
      assert BufferInv(st, b, w, counts[b], books[b], |Inside(st, flights, b)|);
      if b == w.lmb { assert books'[b].flips == multiset{count}; }
    }
    var b' := w'.lmb;
    assert BufferInv(st, b', w', counts[b'], books'[b'], |Inside(st, flights, b')|);
    if w'.avail[b'] { NoneInside(st, flights, b'); }
  }

  lemma PushFlipSafe(st: Setup, s: Link)
    requires Inv(st, s) && Enabled(st, s, Push) && PushStep(st.cfg, s.out).wire.FlipRequest?
    ensures Inv(st, Apply(st, s, Push))
  {
    var r := PushStep(st.cfg, s.out);
    PushIsFlip(st, s, r.out, r.wire.lmb, r.wire.count);
    FlipLeavesSafe(st, s, r.out, r.wire.count);
  }

  lemma FlipLeavesSafe(st: Setup, s: Link, out: Outbound, count: nat)
    requires Inv(st, s) && OutboundOk(st.cfg, out) && s.out.w.avail[s.out.w.lmb] && count == s.out.w.count > 0
    requires out.w == Writer((s.out.w.lmb + 1) % st.cfg.numLmbs, 0, 0, s.out.w.avail[s.out.w.lmb := false])
    requires s.out.w.lmb < |s.books|
    ensures Inv(st, FlipLeaves(s, out, s.out.w.lmb, count))
  {
    FlipBuffers(st, s.out.w, out.w, s.counts, s.books, s.rx.flights, count);
  }

  /** A change of the queues alone. */
  lemma QueueSafe(st: Setup, s: Link, out: Outbound)
    requires Inv(st, s) && OutboundOk(st.cfg, out) && out.w == s.out.w
    ensures Inv(st, s.(out := out))
  {
  }

  lemma PushSafe(st: Setup, s: Link)
    requires Inv(st, s) && Enabled(st, s, Push)
    ensures Inv(st, Apply(st, s, Push))
  {
    var r := PushStep(st.cfg, s.out);
    match r.wire
    case Plain(_) => QueueSafe(st, s, r.out);
    case Direct(_) => PushDirectSafe(st, s);
    case Buffered(_, _, _) => PushBufferedSafe(st, s);
    case FlipRequest(_, _) => PushFlipSafe(st, s);
  }

  lemma ChunkSafe(st: Setup, s: Link, id: int, i: nat)
    requires Inv(st, s) && Enabled(st, s, ChunkArrives(id, i))
    ensures Inv(st, Apply(st, s, ChunkArrives(id, i)))
  {
    ArriveKeepsInv(st.k, s.rx, id, i);
    ArriveFrame(st.k, s.rx, id, i);
  }

  /** The counter comes to zero exactly when the last message of a flipped buffer has been handled. */
  lemma CreditBuffer(st: Setup, b: nat, w: Writer, count: int, book: Book, unhandled: int)
    requires BufferInv(st, b, w, count, book, unhandled) && 0 < unhandled
    ensures BufferInv(st, b, w, count + 1,
                      if count + 1 == 0 then book.(ackQueued := book.ackQueued + 1, acksSent := book.acksSent + 1)
                      else book,
                      unhandled - 1)
    ensures count + 1 == 0 <==> unhandled == 1 && !w.avail[b] && book.flips == multiset{}
  {
  }

  /** What running a handler changes. */
  lemma HandlerShape(st: Setup, s: Link, id: int)
    requires Inv(st, s) && Enabled(st, s, Handle(id))
    ensures id in s.rx.flights && id in s.sent
    ensures var s' := Apply(st, s, Handle(id));
            && s'.out == s.out && s'.rx == Retire(s.rx, id) && s'.sent == s.sent && s'.nextId == s.nextId
            && s'.handled == s.handled[id := s.sent[id]]
            && (s'.counts, s'.books) == Credited(st, s.counts, s.books, s.rx.flights[id].dst)
  {
    HandlerReads(st.k, s.rx, id);
    FindBufferFinds(st, s.rx.flights[id].dst);
  }

  lemma HandleSafe(st: Setup, s: Link, id: int)
    requires Inv(st, s) && Enabled(st, s, Handle(id))
    ensures Inv(st, Apply(st, s, Handle(id)))
    ensures Apply(st, s, Handle(id)).handled == s.handled[id := s.sent[id]]
  {
    HandlerShape(st, s, id);
    RetireKeepsInv(st.k, s.rx, id);
    HandleBuffers(st, s.out.w, s.counts, s.books, s.rx.flights, id);
    HistoryRetire(s.sent, s.handled, s.nextId, s.rx.spans.Keys, s.rx.flights, id);
  }

  lemma HistoryRetire(sent: map<int, seq<byte>>, handled: map<int, seq<byte>>, nextId: int, ids: set<int>,
                      flights: map<int, Flight>, id: int)
    requires History(sent, handled, nextId, ids, flights) && id in flights
    ensures History(sent, handled[id := sent[id]], nextId, ids, flights - {id})
  {
  }

  lemma HandleBuffers(st: Setup, w: Writer, counts: seq<int>, books: seq<Book>, flights: map<int, Flight>, id: int)
    requires st.Valid() && BuffersInv(st, w, counts, books, flights) && id in flights
    requires w.lmb < |w.avail| && BelowOffset(st, w, flights) && AllWellPlaced(st, flights)
    ensures var (counts', books') := Credited(st, counts, books, flights[id].dst);
            BuffersInv(st, w, counts', books', flights - {id})
    ensures BelowOffset(st, w, flights - {id}) && AllWellPlaced(st, flights - {id})
  {
    FindBufferFinds(st, flights[id].dst);
    var (counts', books') := Credited(st, counts, books, flights[id].dst);
    forall b: nat | b < st.cfg.numLmbs
      ensures BufferInv(st, b, w, counts'[b], books'[b], |Inside(st, flights - {id}, b)|)
    {
      assert BufferInv(st, b, w, counts[b], books[b], |Inside(st, flights, b)|);
      InsideRetire(st, flights, id, b);
      if InBuffer(st, b, flights[id].dst) {
        assert id in Inside(st, flights, b);
        CreditBuffer(st, b, w, counts[b], books[b], |Inside(st, flights, b)|);
      }
    }
  }

  /** What a handler is shown is the payload that was sent. */
  lemma HandlerReads(k: nat, rx: Rx, id: int)
    requires 0 < k && RxInv(k, rx) && id in rx.ready
    ensures id in rx.flights
    ensures var f := rx.flights[id];
            && rx.ready[id] == (f.dst, |f.data|)
            && f.dst + |f.data| <= |rx.mem| && rx.mem[f.dst..f.dst + |f.data|] == f.data
  {
    var f, a := rx.flights[id], rx.arrived[id];
    var n := NumChunks(|f.data|, k);
    assert FlightInv(k, rx, id);
    SubsetOfBelow(a, n);
    forall x: nat | x < |f.data|
      ensures rx.mem[f.dst + x] == f.data[x]
    {
      ByteInSomeChunk(|f.data|, k, x);
    }
  }

  lemma FlipSafe(st: Setup, s: Link, b: nat, count: nat)
    requires Inv(st, s) && Enabled(st, s, FlipArrives(b, count))
    ensures Inv(st, Apply(st, s, FlipArrives(b, count)))
  {
    var s' := Apply(st, s, FlipArrives(b, count));
    LandBuffers(st, s, s', b, count);
  }

  lemma LandBuffers(st: Setup, s: Link, s': Link, b: nat, count: nat)
    requires st.Valid() && BuffersInv(st, s.out.w, s.counts, s.books, s.rx.flights)
    requires b < st.cfg.numLmbs && count in s.books[b].flips && s' == FlipLands(s, b, count)
    ensures BuffersInv(st, s.out.w, s'.counts, s'.books, s.rx.flights)
  {
    assert BufferInv(st, b, s.out.w, s.counts[b], s.books[b], |Inside(st, s.rx.flights, b)|);
    assert s.books[b].flips - multiset{count} == multiset{};
    forall o: nat | o < st.cfg.numLmbs
      ensures BufferInv(st, o, s.out.w, s'.counts[o], s'.books[o], |Inside(st, s.rx.flights, o)|)
    {
      assert BufferInv(st, o, s.out.w, s.counts[o], s.books[o], |Inside(st, s.rx.flights, o)|);
    }
  }

  lemma AckSafe(st: Setup, s: Link, step: Step)
    requires Inv(st, s) && Enabled(st, s, step) && (step.AckLeaves? || step.AckArrives?)
    ensures Inv(st, Apply(st, s, step))
  {
    AckBuffers(st, s, step, Apply(st, s, step));
  }

  lemma AckBuffers(st: Setup, s: Link, step: Step, s': Link)
    requires st.Valid() && Enabled(st, s, step) && (step.AckLeaves? || step.AckArrives?) && s' == Apply(st, s, step)
    requires BuffersInv(st, s.out.w, s.counts, s.books, s.rx.flights)
    requires OutboundOk(st.cfg, s.out) && BelowOffset(st, s.out.w, s.rx.flights)
    ensures BuffersInv(st, s'.out.w, s.counts, s'.books, s.rx.flights) && BelowOffset(st, s'.out.w, s.rx.flights)
  {
    var b := step.b;
    forall o: nat | o < st.cfg.numLmbs
      ensures BufferInv(st, o, s'.out.w, s.counts[o], s'.books[o], |Inside(st, s.rx.flights, o)|)
    {
      assert BufferInv(st, o, s.out.w, s.counts[o], s.books[o], |Inside(st, s.rx.flights, o)|);
    }
    if step.AckArrives? && b == s.out.w.lmb { NoneInside(st, s.rx.flights, b); }
  }

  lemma StepSafe(st: Setup, s: Link, step: Step)
    requires Inv(st, s) && Enabled(st, s, step)
    ensures Inv(st, Apply(st, s, step))
  {
    match step
    case Enqueue(_, _) => QueueSafe(st, s, Apply(st, s, step).out);
    case Assign(_, _) => QueueSafe(st, s, Apply(st, s, step).out);
    case Push => PushSafe(st, s);
    case ChunkArrives(id, i) => ChunkSafe(st, s, id, i);
    case Handle(id) => HandleSafe(st, s, id);
    case FlipArrives(b, count) => FlipSafe(st, s, b, count);
    case AckLeaves(_) => AckSafe(st, s, step);
    case AckArrives(_) => AckSafe(st, s, step);
  }

  // ---------------------------------------------------------------------------------------
  // Runs

  ghost predicate IsRun(st: Setup, trace: seq<Link>, steps: seq<Step>) {
    && |trace| == |steps| + 1
    && Init(st, trace[0])
    && forall i :: 0 <= i < |steps| ==> Enabled(st, trace[i], steps[i]) && trace[i + 1] == Apply(st, trace[i], steps[i])
  }

  lemma InitSafe(st: Setup, s: Link)
    requires Init(st, s)
    ensures Inv(st, s)
  {
    forall b: nat | b < st.cfg.numLmbs
      ensures BufferInv(st, b, s.out.w, s.counts[b], s.books[b], |Inside(st, s.rx.flights, b)|)
    {
      assert Inside(st, s.rx.flights, b) == {};
    }
  }

  lemma {:induction false} RunSafe(st: Setup, trace: seq<Link>, steps: seq<Step>, n: nat)
    requires IsRun(st, trace, steps) && n < |trace|
    ensures Inv(st, trace[n])
  {
    if n == 0 {
      InitSafe(st, trace[0]);
    } else {
      RunSafe(st, trace, steps, n - 1);
      StepSafe(st, trace[n - 1], steps[n - 1]);
    }
  }

  /**
   In every run, whatever the order of delivery: a message is only ever placed clear of every
   message that has not been handled.
   */
  lemma NothingUnhandledIsOverwritten(st: Setup, trace: seq<Link>, steps: seq<Step>, n: nat, id: int)
    requires IsRun(st, trace, steps) && n < |steps| && steps[n].Push?
    requires PushStep(st.cfg, trace[n].out).Sent? && PushStep(st.cfg, trace[n].out).wire.Buffered?
    requires id in trace[n].rx.flights
    ensures var w, f := PushStep(st.cfg, trace[n].out).wire, trace[n].rx.flights[id];
            Apart(BufStart(st, w.lmb) + w.offset, w.m.Size(), f.dst, |f.data|)
  {
    RunSafe(st, trace, steps, n);
    var s, w := trace[n], PushStep(st.cfg, trace[n].out).wire;
    PlacementAdvances(st.cfg, s.out);
    PlacementIsClear(st, s, w.lmb, BufStart(st, w.lmb) + w.offset, |w.m.data|);
  }

  /**
   In every run: a message is handled at most once, its handler finds exactly the bytes that were
   sent, and a message that was sent and not yet handled is still on the books.
   */
  lemma HandledOnceAndIntact(st: Setup, trace: seq<Link>, steps: seq<Step>, n: nat)
    requires IsRun(st, trace, steps) && n < |steps|
    ensures steps[n].Handle? ==>
              && steps[n].id in trace[n].sent && steps[n].id !in trace[n].handled
              && trace[n + 1].handled == trace[n].handled[steps[n].id := trace[n].sent[steps[n].id]]
    ensures !steps[n].Handle? ==> trace[n + 1].handled == trace[n].handled
    ensures forall id :: id in trace[n].sent ==> (id in trace[n].handled <==> id !in trace[n].rx.flights)
  {
    RunSafe(st, trace, steps, n);
    if steps[n].Handle? { HandleSafe(st, trace[n], steps[n].id); }
  }

  /**
   In every run: each flip request is answered by exactly one ack, the ack exists only once every
   message of that buffer has been handled, and a buffer can be written to only when no flip or ack
   for it is outstanding.
   */
  lemma OneAckPerFlip(st: Setup, trace: seq<Link>, steps: seq<Step>, n: nat, b: nat)
    requires IsRun(st, trace, steps) && n < |trace| && b < st.cfg.numLmbs
    ensures |trace[n].books| == |trace[n].counts| == |trace[n].out.w.avail| == st.cfg.numLmbs
    ensures var s := trace[n];
            var book := s.books[b];
            && book.acksSent <= book.flipsSent <= book.acksSent + 1
            && (0 < book.ackQueued + book.ackFlying ==>
                  && !s.out.w.avail[b] && Inside(st, s.rx.flights, b) == {}
                  && s.counts[b] == 0 && book.flipsSent == book.acksSent)
            && (s.out.w.avail[b] ==> book == Book(multiset{}, 0, 0, book.acksSent, book.acksSent))
            && (s.out.w.avail[b] && b != s.out.w.lmb ==> Inside(st, s.rx.flights, b) == {} && s.counts[b] == 0)
  {
    RunSafe(st, trace, steps, n);
    var s := trace[n];
    assert BufferInv(st, b, s.out.w, s.counts[b], s.books[b], |Inside(st, s.rx.flights, b)|);
  }

  /** Every chunk of message `id` has arrived (and perhaps its handler has run as well). */
  ghost predicate AllArrived(k: nat, rx: Rx, id: int)
    requires 0 < k
  {
    id in rx.flights ==> id in rx.arrived && |rx.arrived[id]| == NumChunks(|rx.flights[id].data|, k)
  }

  /**
   In every run: the release of a span is posted at most once per message, only for messages that
   were sent with a span, and once all chunks of such a message have arrived, but not before.
   */
  lemma SpanReturnedOnce(st: Setup, trace: seq<Link>, steps: seq<Step>, n: nat)
    requires IsRun(st, trace, steps) && n < |trace|
    ensures st.Valid()
    ensures var rx := trace[n].rx;
            && trace[n].sent.Keys == rx.spans.Keys && Distinct(rx.posted)
            && (forall id :: id in rx.posted ==> id in trace[n].sent && rx.spans[id] != 0)
            && (forall id :: id in trace[n].sent && rx.spans[id] != 0 ==>
                  (id in rx.posted <==> AllArrived(st.k, rx, id)))
  {
    RunSafe(st, trace, steps, n);
    var rx := trace[n].rx;
    forall id | id in rx.flights
      ensures id in rx.posted <==> AllArrived(st.k, rx, id) && rx.spans[id] != 0
    {
      assert FlightInv(st.k, rx, id);
    }
  }

  /** And the step that posts it is the arrival of the message's last chunk. */
  lemma SpanReturnedByLastChunk(st: Setup, trace: seq<Link>, steps: seq<Step>, n: nat)
    requires IsRun(st, trace, steps) && n < |steps| && trace[n + 1].rx.posted != trace[n].rx.posted
    ensures st.Valid() && steps[n].ChunkArrives?
    ensures var id := steps[n].id;
            && trace[n + 1].rx.posted == trace[n].rx.posted + [id] && id !in trace[n].rx.posted
            && !AllArrived(st.k, trace[n].rx, id) && AllArrived(st.k, trace[n + 1].rx, id)
  {
    RunSafe(st, trace, steps, n);
    if !steps[n].ChunkArrives? { OnlyChunksPost(st, trace[n], steps[n]); }
    var rx, id, i := trace[n].rx, steps[n].id, steps[n].i;
    assert FlightInv(st.k, rx, id);
    ArriveOwn(st.k, rx, id, i);
    SubsetOfBelow(rx.arrived[id] + {i}, NumChunks(|rx.flights[id].data|, st.k));
    assert |rx.arrived[id] + {i}| == |rx.arrived[id]| + 1;
  }

  lemma OnlyChunksPost(st: Setup, s: Link, step: Step)
    requires st.Valid() && Enabled(st, s, step) && !step.ChunkArrives?
    ensures Apply(st, s, step).rx.posted == s.rx.posted
  {
  }

  // ---------------------------------------------------------------------------------------
  // Everything sent gets through, and every flipped buffer comes back

  predicate IsDelivery(step: Step) {
    step.ChunkArrives? || step.Handle? || step.FlipArrives? || step.AckLeaves? || step.AckArrives?
  }

  function BookWork(book: Book): nat {
    4 * |book.flips| + 2 * book.ackQueued + book.ackFlying
  }

  function FlightWork(k: nat, f: Flight, a: set<nat>): int
    requires 0 < k
  {
    4 + NumChunks(|f.data|, k) - |a|
  }

  ghost function FlightWorks(k: nat, rx: Rx): map<int, nat>
    requires 0 < k
  {
    map id | id in rx.flights && id in rx.arrived && 0 <= FlightWork(k, rx.flights[id], rx.arrived[id]) ::
      FlightWork(k, rx.flights[id], rx.arrived[id])
  }

  function BookWorks(books: seq<Book>): seq<nat> {
    seq(|books|, i requires 0 <= i < |books| => BookWork(books[i]))
  }

  /** An upper bound on the deliveries that are still to come. */
  ghost function Work(st: Setup, s: Link): nat
    requires st.Valid()
  {
    MapSum(FlightWorks(st.k, s.rx)) + SeqSum(BookWorks(s.books))
  }

  lemma BookWorksUpdate(books: seq<Book>, b: nat, book: Book)
    requires b < |books|
    ensures SeqSum(BookWorks(books[b := book])) == SeqSum(BookWorks(books)) - BookWork(books[b]) + BookWork(book)
  {
    assert BookWorks(books[b := book]) == BookWorks(books)[b := BookWork(book)];
    SeqSumUpdate(BookWorks(books), b, BookWork(book));
  }

  lemma CreditWork(counts: seq<int>, books: seq<Book>, b: nat, delta: int)
    requires b < |counts| == |books|
    ensures SeqSum(BookWorks(Credit(counts, books, b, delta).1)) <= SeqSum(BookWorks(books)) + 2
  {
    var book := books[b];
    BookWorksUpdate(books, b, book.(ackQueued := book.ackQueued + 1, acksSent := book.acksSent + 1));
  }

  lemma FlightHasWork(k: nat, rx: Rx, id: int)
    requires 0 < k && RxInv(k, rx) && id in rx.flights
    ensures id in FlightWorks(k, rx) && 4 <= FlightWorks(k, rx)[id]
  {
    assert FlightInv(k, rx, id);
    SubsetOfBelow(rx.arrived[id], NumChunks(|rx.flights[id].data|, k));
  }

  lemma WorksAfterChunk(k: nat, rx: Rx, rx': Rx, id: int, i: nat)
    requires 0 < k && id in rx.flights && id in rx.arrived && i !in rx.arrived[id]
    requires rx'.flights == rx.flights && rx'.arrived == rx.arrived[id := rx.arrived[id] + {i}]
    requires id in FlightWorks(k, rx) && 4 <= FlightWorks(k, rx)[id]
    ensures MapSum(FlightWorks(k, rx')) == MapSum(FlightWorks(k, rx)) - 1
  {
    var works := FlightWorks(k, rx);
    assert |rx.arrived[id] + {i}| == |rx.arrived[id]| + 1;
    assert FlightWorks(k, rx') == works[id := works[id] - 1];
    MapSumUpdate(works, id, works[id] - 1);
  }

  lemma ChunkWork(st: Setup, s: Link, id: int, i: nat)
    requires st.Valid() && RxInv(st.k, s.rx) && Enabled(st, s, ChunkArrives(id, i))
    ensures Work(st, Apply(st, s, ChunkArrives(id, i))) < Work(st, s)
  {
    ArriveFrame(st.k, s.rx, id, i);
    FlightHasWork(st.k, s.rx, id);
    WorksAfterChunk(st.k, s.rx, Arrive(st.k, s.rx, id, i), id, i);
  }

  lemma WorksAfterRetire(k: nat, rx: Rx, id: int)
    requires 0 < k && id in FlightWorks(k, rx) && 4 <= FlightWorks(k, rx)[id]
    ensures MapSum(FlightWorks(k, Retire(rx, id))) + 4 <= MapSum(FlightWorks(k, rx))
  {
    var works := FlightWorks(k, rx);
    MapSumRemove(works, id);
    assert FlightWorks(k, Retire(rx, id)) == works - {id};
  }

  lemma HandleWork(st: Setup, s: Link, id: int)
    requires Inv(st, s) && Enabled(st, s, Handle(id))
    ensures Work(st, Apply(st, s, Handle(id))) < Work(st, s)
  {
    FlightHasWork(st.k, s.rx, id);
    WorksAfterRetire(st.k, s.rx, id);
    HandlerWork(st, s, id);
  }

  lemma HandlerWork(st: Setup, s: Link, id: int)
    requires st.Valid() && Enabled(st, s, Handle(id))
    ensures HandlerRuns(st, s, id).rx == Retire(s.rx, id)
    ensures SeqSum(BookWorks(HandlerRuns(st, s, id).books)) <= SeqSum(BookWorks(s.books)) + 2
  {
    var b := FindBuffer(st, s.rx.ready[id].0);
    assert |Starts(st)| == st.cfg.numLmbs;
    if b >= 0 { CreditWork(s.counts, s.books, b, 1); }
  }

  lemma FlipWork(s: Link, b: nat, count: nat)
    requires b < |s.books| == |s.counts| && count in s.books[b].flips
    ensures FlipLands(s, b, count).rx == s.rx
    ensures SeqSum(BookWorks(FlipLands(s, b, count).books)) < SeqSum(BookWorks(s.books))
  {
    var landed := s.books[b].(flips := s.books[b].flips - multiset{count});
    BookWorksUpdate(s.books, b, landed);
    CreditWork(s.counts, s.books[b := landed], b, 0 - count);
  }

  lemma ControlWork(st: Setup, s: Link, step: Step)
    requires st.Valid() && Enabled(st, s, step) && (step.FlipArrives? || step.AckLeaves? || step.AckArrives?)
    ensures Work(st, Apply(st, s, step)) < Work(st, s)
  {
    match step
    case FlipArrives(b, count) =>
      FlipWork(s, b, count);
    case AckLeaves(b) =>
      var book := s.books[b];
      BookWorksUpdate(s.books, b, book.(ackQueued := book.ackQueued - 1, ackFlying := book.ackFlying + 1));
    case AckArrives(b) =>
      BookWorksUpdate(s.books, b, s.books[b].(ackFlying := s.books[b].ackFlying - 1));
  }

  lemma DeliveryWork(st: Setup, s: Link, step: Step)
    requires Inv(st, s) && Enabled(st, s, step) && IsDelivery(step)
    ensures Work(st, Apply(st, s, step)) < Work(st, s)
  {
    match step
    case ChunkArrives(id, i) => ChunkWork(st, s, id, i);
    case Handle(id) => HandleWork(st, s, id);
    case FlipArrives(_, _) => ControlWork(st, s, step);
    case AckLeaves(_) => ControlWork(st, s, step);
    case AckArrives(_) => ControlWork(st, s, step);
  }

  /** Whatever is delivered, and in whatever order, deliveries run out. */
  lemma {:induction false} DeliveriesRunOut(st: Setup, trace: seq<Link>, steps: seq<Step>)
    requires st.Valid() && |trace| == |steps| + 1 && Inv(st, trace[0])
    requires forall i :: 0 <= i < |steps| ==>
               IsDelivery(steps[i]) && Enabled(st, trace[i], steps[i]) && trace[i + 1] == Apply(st, trace[i], steps[i])
    ensures Inv(st, trace[|steps|])
    ensures |steps| + Work(st, trace[|steps|]) <= Work(st, trace[0])
  {
    var n := |steps|;
    if n > 0 {
      DeliveriesRunOut(st, trace[..n], steps[..n - 1]);
      DeliveryWork(st, trace[n - 1], steps[n - 1]);
      StepSafe(st, trace[n - 1], steps[n - 1]);
    }
  }

  // ---------------------------------------------------------------------------------------
  // And so does sending

  predicate IsProgress(step: Step) {
    IsDelivery(step) || step.Push?
  }

  /** Sending a message with data may flip a buffer and raises the offset; then come its chunks and its handler. */
  function MessageWork(k: nat, m: Message): nat
    requires 0 < k
  {
    if m.Size() > 0 then 10 + NumChunks(m.Size(), k) else 1
  }

  function QueueWork(k: nat, queue: seq<Message>): nat
    requires 0 < k
  {
    if queue == [] then 0 else MessageWork(k, queue[0]) + QueueWork(k, queue[1..])
  }

  /** What is queued, and a flip of the buffer being filled, on the sending side. */
  function SendWork(k: nat, out: Outbound): nat
    requires 0 < k
  {
    QueueWork(k, out.shorts) + QueueWork(k, out.longs) + if out.w.offset > 0 then 5 else 0
  }

  ghost function TotalWork(st: Setup, s: Link): nat
    requires st.Valid()
  {
    Work(st, s) + SendWork(st.k, s.out)
  }

  /** What one packet takes off the sender's work. */
  lemma PushShrinks(cfg: Config, k: nat, s: Outbound)
    requires 0 < k && OutboundOk(cfg, s) && PushStep(cfg, s).Sent?
    ensures var r := PushStep(cfg, s);
            match r.wire
            case Plain(_) => SendWork(k, r.out) < SendWork(k, s)
            case FlipRequest(_, _) => SendWork(k, r.out) + 5 == SendWork(k, s)
            case Direct(m) => 0 < m.Size() && SendWork(k, r.out) + 10 + NumChunks(m.Size(), k) == SendWork(k, s)
            case Buffered(m, _, _) => 0 < m.Size() && SendWork(k, r.out) + 5 + NumChunks(m.Size(), k) <= SendWork(k, s)
  {
  }

  lemma WorksAfterLaunch(k: nat, rx: Rx, id: int, f: Flight)
    requires 0 < k && id !in rx.flights && rx.arrived.Keys == rx.flights.Keys
    ensures MapSum(FlightWorks(k, Launch(rx, id, f))) == MapSum(FlightWorks(k, rx)) + 4 + NumChunks(|f.data|, k)
  {
    var work := 4 + NumChunks(|f.data|, k);
    var before, after := FlightWorks(k, rx), FlightWorks(k, Launch(rx, id, f));
    assert FlightWork(k, f, {}) == work;
    assert after.Keys == before[id := work].Keys;
    forall o | o in after
      ensures after[o] == before[id := work][o]
    {
    }
    assert after == before[id := work];
    MapSumAdd(before, id, work);
  }

  lemma LaunchWork(st: Setup, s: Link, out: Outbound, dst: nat, m: Message)
    requires Inv(st, s) && m.User?
    ensures Work(st, LaunchNext(s, out, dst, m)) == Work(st, s) + 4 + NumChunks(|m.data|, st.k)
  {
    assert s.nextId !in s.sent && s.nextId !in s.rx.flights;
    WorksAfterLaunch(st.k, s.rx, s.nextId, Flight(dst, m.data, m.span));
  }

  lemma FlipLeavesWork(books: seq<Book>, b: nat, count: nat)
    requires b < |books|
    ensures var book := books[b];
            SeqSum(BookWorks(books[b := book.(flips := book.flips + multiset{count}, flipsSent := book.flipsSent + 1)]))
            == SeqSum(BookWorks(books)) + 4
  {
    var book := books[b];
    BookWorksUpdate(books, b, book.(flips := book.flips + multiset{count}, flipsSent := book.flipsSent + 1));
  }

  lemma FlipLeft(st: Setup, s: Link, s': Link, out: Outbound, b: nat, count: nat)
    requires st.Valid() && b < |s.books| && s' == FlipLeaves(s, out, b, count)
    requires SendWork(st.k, out) + 5 == SendWork(st.k, s.out)
    ensures TotalWork(st, s') < TotalWork(st, s)
  {
    FlipLeavesWork(s.books, b, count);
  }

  lemma PushLaunchWork(st: Setup, s: Link, s': Link, out: Outbound, dst: nat, m: Message)
    requires Inv(st, s) && m.User? && s' == LaunchNext(s, out, dst, m)
    requires SendWork(st.k, out) + 5 + NumChunks(|m.data|, st.k) <= SendWork(st.k, s.out)
    ensures TotalWork(st, s') < TotalWork(st, s)
  {
    LaunchWork(st, s, out, dst, m);
  }

  lemma PushDirectWork(st: Setup, s: Link)
    requires Inv(st, s) && Enabled(st, s, Push) && PushStep(st.cfg, s.out).wire.Direct?
    ensures TotalWork(st, Apply(st, s, Push)) < TotalWork(st, s)
  {
    var r := PushStep(st.cfg, s.out);
    PushShrinks(st.cfg, st.k, s.out);
    PushLaunchWork(st, s, Apply(st, s, Push), r.out, r.wire.m.dst, r.wire.m);
  }

  lemma PushBufferedWork(st: Setup, s: Link)
    requires Inv(st, s) && Enabled(st, s, Push) && PushStep(st.cfg, s.out).wire.Buffered?
    ensures TotalWork(st, Apply(st, s, Push)) < TotalWork(st, s)
  {
    var r := PushStep(st.cfg, s.out);
    PushShrinks(st.cfg, st.k, s.out);
    PlacementAdvances(st.cfg, s.out);
    BufferInArea(st, r.wire.lmb);
    var at := BufStart(st, r.wire.lmb) + r.wire.offset;
    PushIsLaunch(st, s, r.out, r.wire.m, at);
    PushLaunchWork(st, s, Apply(st, s, Push), r.out, at, r.wire.m);
  }

  lemma PushFlipWork(st: Setup, s: Link)
    requires Inv(st, s) && Enabled(st, s, Push) && PushStep(st.cfg, s.out).wire.FlipRequest?
    ensures TotalWork(st, Apply(st, s, Push)) < TotalWork(st, s)
  {
    var r := PushStep(st.cfg, s.out);
    PushShrinks(st.cfg, st.k, s.out);
    PushIsFlip(st, s, r.out, r.wire.lmb, r.wire.count);
    FlipLeft(st, s, Apply(st, s, Push), r.out, r.wire.lmb, r.wire.count);
  }

  lemma PushWork(st: Setup, s: Link)
    requires Inv(st, s) && Enabled(st, s, Push)
    ensures TotalWork(st, Apply(st, s, Push)) < TotalWork(st, s)
  {
    match PushStep(st.cfg, s.out).wire
    case Plain(_) => PushShrinks(st.cfg, st.k, s.out);
    case Direct(_) => PushDirectWork(st, s);
    case Buffered(_, _, _) => PushBufferedWork(st, s);
    case FlipRequest(_, _) => PushFlipWork(st, s);
  }

  /** A delivery leaves the sender's queues and its write offset alone. */
  lemma DeliveryKeepsSendWork(st: Setup, s: Link, step: Step)
    requires st.Valid() && Enabled(st, s, step) && IsDelivery(step)
    ensures SendWork(st.k, Apply(st, s, step).out) == SendWork(st.k, s.out)
  {
  }

  lemma ProgressWork(st: Setup, s: Link, step: Step)
    requires Inv(st, s) && Enabled(st, s, step) && IsProgress(step)
    ensures TotalWork(st, Apply(st, s, step)) < TotalWork(st, s)
  {
    if step.Push? {
      PushWork(st, s);
    } else {
      DeliveryWork(st, s, step);
      DeliveryKeepsSendWork(st, s, step);
    }
  }

  /** However pushes and deliveries are interleaved, they run out. */
  lemma {:induction false} ProgressRunsOut(st: Setup, trace: seq<Link>, steps: seq<Step>)
    requires st.Valid() && |trace| == |steps| + 1 && Inv(st, trace[0])
    requires forall i :: 0 <= i < |steps| ==>
               IsProgress(steps[i]) && Enabled(st, trace[i], steps[i]) && trace[i + 1] == Apply(st, trace[i], steps[i])
    ensures Inv(st, trace[|steps|])
    ensures |steps| + TotalWork(st, trace[|steps|]) <= TotalWork(st, trace[0])
  {
    var n := |steps|;
    if n > 0 {
      ProgressRunsOut(st, trace[..n], steps[..n - 1]);
      ProgressWork(st, trace[n - 1], steps[n - 1]);
      StepSafe(st, trace[n - 1], steps[n - 1]);
    }
  }

  /** A target pointer outside the segment, or inside its buffer area: no caller may use one. */
  predicate BadTarget(st: Setup, s: Link, m: Message) {
    && m.User? && m.dst != 0
    && !(&& m.dst + |m.data| <= |s.rx.mem|
         && Apart(m.dst, |m.data|, st.top - st.cfg.numLmbs * st.cfg.lmbSize, st.cfg.numLmbs * st.cfg.lmbSize))
  }

  /**
   When neither a push nor a delivery is possible, everything that was sent has been handled, and the
   queues are empty or their front message still waits for the pool (or names a bad target): no
   message is left behind a buffer.
   */
  lemma QuietMeansSent(st: Setup, s: Link)
    requires Inv(st, s) && Quiet(st, s) && !Enabled(st, s, Push)
    ensures s.rx.flights == map[] && s.handled == s.sent
    ensures s.out.Empty()
         || (s.out.shorts == [] && s.out.longs[0].User? && (s.out.longs[0].waiting || BadTarget(st, s, s.out.longs[0])))
  {
    QuietMeansDone(st, s);
    assert s.out.w.avail[s.out.w.lmb];
  }

  lemma QuietBuffer(st: Setup, s: Link, b: nat)
    requires Inv(st, s) && b < st.cfg.numLmbs && Inside(st, s.rx.flights, b) == {}
    requires !Enabled(st, s, AckLeaves(b)) && !Enabled(st, s, AckArrives(b))
    requires forall c :: c in s.books[b].flips ==> !Enabled(st, s, FlipArrives(b, c))
    ensures s.out.w.avail[b] && s.counts[b] == (if b == s.out.w.lmb then s.out.w.count else 0)
  {
    assert BufferInv(st, b, s.out.w, s.counts[b], s.books[b], |Inside(st, s.rx.flights, b)|);
  }

  /** An unhandled message is waiting for one of its chunks or for its handler. */
  lemma SomethingArrives(st: Setup, s: Link, id: int) returns (step: Step)
    requires Inv(st, s) && id in s.rx.flights
    ensures IsDelivery(step) && Enabled(st, s, step)
  {
    var f, a := s.rx.flights[id], s.rx.arrived[id];
    assert FlightInv(st.k, s.rx, id);
    if |a| == NumChunks(|f.data|, st.k) {
      step := Handle(id);
    } else {
      var i := MissingChunk(a, NumChunks(|f.data|, st.k));
      step := ChunkArrives(id, i);
    }
  }

  ghost predicate Quiet(st: Setup, s: Link)
    requires st.Valid()
  {
    forall step :: IsDelivery(step) ==> !Enabled(st, s, step)
  }

  lemma QuietNetwork(st: Setup, s: Link)
    requires Inv(st, s) && Quiet(st, s)
    ensures s.rx.flights == map[] && s.handled == s.sent
  {
    forall id | id in s.rx.flights
      ensures false
    {
      var step := SomethingArrives(st, s, id);
      assert false;
    }
    NoKeys(s.rx.flights);
    forall id | id in s.handled
      ensures s.handled[id] == s.sent[id]
    {
    }
    SameMap(s.handled, s.sent);
  }

  lemma NoKeys<K, V>(m: map<K, V>)
    requires forall k :: k !in m
    ensures m == map[]
  {
  }

  lemma SameMap<K, V>(m: map<K, V>, n: map<K, V>)
    requires m.Keys == n.Keys && forall k :: k in m ==> m[k] == n[k]
    ensures m == n
  {
  }

  /**
   When nothing is left to deliver, every message has been handled and every buffer is writable
   again: no buffer is stranded between the flip and the ack.
   */
  lemma QuietMeansDone(st: Setup, s: Link)
    requires Inv(st, s) && Quiet(st, s)
    ensures s.rx.flights == map[] && s.handled == s.sent
    ensures |s.out.w.avail| == |s.counts| == st.cfg.numLmbs
    ensures forall b: nat :: b < st.cfg.numLmbs ==>
              s.out.w.avail[b] && s.counts[b] == (if b == s.out.w.lmb then s.out.w.count else 0)
  {
    QuietNetwork(st, s);
    forall b: nat | b < st.cfg.numLmbs
      ensures s.out.w.avail[b] && s.counts[b] == (if b == s.out.w.lmb then s.out.w.count else 0)
    {
      assert Inside(st, s.rx.flights, b) == {};
      assert IsDelivery(AckLeaves(b)) && IsDelivery(AckArrives(b));
      forall c | c in s.books[b].flips
        ensures !Enabled(st, s, FlipArrives(b, c))
      {
        assert IsDelivery(FlipArrives(b, c));
      }
      QuietBuffer(st, s, b);
    }
  }
}
