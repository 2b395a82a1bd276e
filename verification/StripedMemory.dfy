/**
 `GASNetMemory`: a global memory dealt out over the nodes in blocks of one stride. It must look like
 one flat array of bytes.
 */
module StripedMemory {
  import opened Bytes

  datatype Layout = Layout(stride: nat, nodes: nat, perNode: nat) {
    predicate Valid() {
      0 < stride && 0 < nodes
    }

    function Size(): nat {
      perNode * nodes
    }
  }

  function NodeOf(l: Layout, offset: nat): (n: nat)
    requires l.Valid()
    ensures n < l.nodes
  {
    offset / l.stride % l.nodes
  }

  function BlockOf(l: Layout, offset: nat): nat
    requires l.Valid()
  {
    offset / l.stride / l.nodes
  }

  /** Where in its node's segment the byte is. */
  function LocalOf(l: Layout, offset: nat): nat
    requires l.Valid()
  {
    BlockOf(l, offset) * l.stride + offset % l.stride
  }

  function OffsetOf(l: Layout, node: nat, local: nat): nat
    requires l.Valid()
  {
    MulMono(0, local / l.stride, l.nodes);
    MulMono(0, local / l.stride * l.nodes + node, l.stride);
    (local / l.stride * l.nodes + node) * l.stride + local % l.stride
  }

  // ---------------------------------------------------------------------------------------
  // The map is a bijection

  lemma DivMod(q: nat, k: nat, r: nat)
    requires r < k
    ensures (q * k + r) / k == q && (q * k + r) % k == r
  {
    DivIs(q * k + r, k, q);
  }

  lemma Parts(x: nat, k: nat)
    requires 0 < k
    ensures x == x / k * k + x % k && x % k < k
  {
  }

  lemma OffsetBack(l: Layout, offset: nat)
    requires l.Valid()
    ensures OffsetOf(l, NodeOf(l, offset), LocalOf(l, offset)) == offset
  {
    var b, r := offset / l.stride, offset % l.stride;
    Parts(offset, l.stride);
    Parts(b, l.nodes);
    DivMod(b / l.nodes, l.stride, r);
  }

  lemma LocalBack(l: Layout, node: nat, local: nat)
    requires l.Valid() && node < l.nodes
    ensures NodeOf(l, OffsetOf(l, node, local)) == node && LocalOf(l, OffsetOf(l, node, local)) == local
  {
    var q, r := local / l.stride, local % l.stride;
    Parts(local, l.stride);
    DivMod(q * l.nodes + node, l.stride, r);
    DivMod(q, l.nodes, node);
  }

  /** `m` blocks on every node: an offset inside the memory has its place inside the segment. */
  lemma InsideWholeBlocks(l: Layout, offset: nat, m: nat)
    requires l.Valid() && l.perNode == m * l.stride && offset < l.Size()
    ensures LocalOf(l, offset) < l.perNode
  {
    var b, r := offset / l.stride, offset % l.stride;
    Parts(offset, l.stride);
    Parts(b, l.nodes);
    assert l.Size() == m * l.nodes * l.stride;
    if m * l.nodes <= b { MulMono(m * l.nodes, b, l.stride); }
    if m <= b / l.nodes { MulMono(m, b / l.nodes, l.nodes); }
    MulMono(b / l.nodes + 1, m, l.stride);
    assert (b / l.nodes + 1) * l.stride == b / l.nodes * l.stride + l.stride;
  }

  lemma OneNode(l: Layout, offset: nat)
    requires l.Valid() && l.nodes == 1
    ensures LocalOf(l, offset) == offset
  {
    Parts(offset, l.stride);
  }

  /** With a part of a block left over on every node, node 0 is given a byte that its segment does not have. */
  lemma PartBlockOverflows(l: Layout, m: nat, r: nat) returns (offset: nat)
    requires l.Valid() && 1 < l.nodes && l.perNode == m * l.stride + r && 0 < r < l.stride
    ensures offset < l.Size() && NodeOf(l, offset) == 0 && LocalOf(l, offset) == l.perNode
  {
    offset := OffsetOf(l, 0, l.perNode);
    LocalBack(l, 0, l.perNode);
    DivMod(m, l.stride, r);
    assert offset == m * l.nodes * l.stride + r;
    assert l.Size() == m * l.nodes * l.stride + r * l.nodes;
    MulMono(2, l.nodes, r);
  }

  /**
   Every byte of the memory has a place inside its node's segment if and only if the segments hold
   whole blocks (or there is only one). The constructor does not check this.
   */
  ghost predicate Fits(l: Layout)
    requires l.Valid()
  {
    forall offset: nat :: offset < l.Size() ==> LocalOf(l, offset) < l.perNode
  }

  lemma FitsIff(l: Layout)
    requires l.Valid()
    ensures Fits(l) <==> l.nodes == 1 || l.perNode % l.stride == 0
  {
    var m, r := l.perNode / l.stride, l.perNode % l.stride;
    Parts(l.perNode, l.stride);
    if l.nodes == 1 {
      forall offset: nat | offset < l.Size()
        ensures LocalOf(l, offset) < l.perNode
      {
        OneNode(l, offset);
      }
    } else if r == 0 {
      forall offset: nat | offset < l.Size()
        ensures LocalOf(l, offset) < l.perNode
      {
        InsideWholeBlocks(l, offset, m);
      }
    } else {
      var offset := PartBlockOverflows(l, m, r);
    }
  }

  /** And then no byte of a segment is left over: the map is onto. */
  lemma OntoSegments(l: Layout, node: nat, local: nat, m: nat)
    requires l.Valid() && l.perNode == m * l.stride && node < l.nodes && local < l.perNode
    ensures OffsetOf(l, node, local) < l.Size()
  {
    var q := local / l.stride;
    Parts(local, l.stride);
    if m <= q { MulMono(m, q, l.stride); }
    MulMono(q + 1, m, l.nodes);
    assert (q + 1) * l.nodes == q * l.nodes + l.nodes;
    MulMono(q * l.nodes + node + 1, m * l.nodes, l.stride);
    assert (q * l.nodes + node + 1) * l.stride == (q * l.nodes + node) * l.stride + l.stride;
    assert m * l.nodes * l.stride == l.Size();
  }

  // ---------------------------------------------------------------------------------------
  // The flat view

  ghost predicate SegmentsOk(l: Layout, segs: seq<seq<byte>>) {
    l.Valid() && Fits(l) && |segs| == l.nodes && forall n :: 0 <= n < l.nodes ==> |segs[n]| == l.perNode
  }

  function ByteAt(l: Layout, segs: seq<seq<byte>>, offset: nat): byte
    requires SegmentsOk(l, segs) && offset < l.Size()
  {
    segs[NodeOf(l, offset)][LocalOf(l, offset)]
  }

  ghost function Flat(l: Layout, segs: seq<seq<byte>>): (r: seq<byte>)
    requires SegmentsOk(l, segs)
    ensures |r| == l.Size()
  {
    seq(l.Size(), offset requires 0 <= offset < l.Size() => ByteAt(l, segs, offset))
  }

  /** Within one block, consecutive offsets are consecutive places of one segment. */
  lemma SameBlock(l: Layout, offset: nat, d: nat)
    requires l.Valid() && offset % l.stride + d < l.stride
    ensures NodeOf(l, offset + d) == NodeOf(l, offset) && BlockOf(l, offset + d) == BlockOf(l, offset)
    ensures LocalOf(l, offset + d) == LocalOf(l, offset) + d
  {
    Parts(offset, l.stride);
    DivMod(offset / l.stride, l.stride, offset % l.stride + d);
  }

  lemma SamePlace(l: Layout, a: nat, b: nat)
    requires l.Valid() && NodeOf(l, a) == NodeOf(l, b) && LocalOf(l, a) == LocalOf(l, b)
    ensures a == b
  {
    OffsetBack(l, a);
    OffsetBack(l, b);
  }

  /** The run of `n` bytes at `offset` stays inside its block and inside the memory. */
  predicate Chunk(l: Layout, offset: nat, n: nat) {
    l.Valid() && 0 < n && offset % l.stride + n <= l.stride && offset + n <= l.Size()
  }

  lemma ChunkInside(l: Layout, offset: nat, n: nat)
    requires Chunk(l, offset, n) && Fits(l)
    ensures LocalOf(l, offset) + n <= l.perNode
  {
    SameBlock(l, offset, n - 1);
    assert LocalOf(l, offset + n - 1) < l.perNode;
  }

  function Stored(l: Layout, segs: seq<seq<byte>>, offset: nat, piece: seq<byte>): seq<seq<byte>>
    requires l.Valid() && |segs| == l.nodes && LocalOf(l, offset) + |piece| <= |segs[NodeOf(l, offset)]|
  {
    segs[NodeOf(l, offset) := Splice(segs[NodeOf(l, offset)], LocalOf(l, offset), piece)]
  }

  /** Storing a chunk in its segment stores it in the flat view. */
  lemma StoreChunk(l: Layout, segs: seq<seq<byte>>, offset: nat, piece: seq<byte>)
    requires SegmentsOk(l, segs) && Chunk(l, offset, |piece|)
    ensures LocalOf(l, offset) + |piece| <= l.perNode
    ensures SegmentsOk(l, Stored(l, segs, offset, piece))
    ensures Flat(l, Stored(l, segs, offset, piece)) == Splice(Flat(l, segs), offset, piece)
  {
    ChunkInside(l, offset, |piece|);
    var segs' := Stored(l, segs, offset, piece);
    SpliceAt(Flat(l, segs), offset, piece);
    forall o: nat | o < l.Size()
      ensures Flat(l, segs')[o] == Splice(Flat(l, segs), offset, piece)[o]
    {
      StoreChunkAt(l, segs, offset, piece, o);
      if offset <= o < offset + |piece| {
        assert Splice(Flat(l, segs), offset, piece)[offset..offset + |piece|][o - offset] == piece[o - offset];
      }
    }
  }

  lemma StoreChunkAt(l: Layout, segs: seq<seq<byte>>, offset: nat, piece: seq<byte>, o: nat)
    requires SegmentsOk(l, segs) && Chunk(l, offset, |piece|) && o < l.Size()
    requires LocalOf(l, offset) + |piece| <= l.perNode
    requires SegmentsOk(l, Stored(l, segs, offset, piece))
    ensures ByteAt(l, Stored(l, segs, offset, piece), o) ==
              if offset <= o < offset + |piece| then piece[o - offset] else ByteAt(l, segs, o)
  {
    var node, at := NodeOf(l, offset), LocalOf(l, offset);
    var seg' := Splice(segs[node], at, piece);
    SpliceAt(segs[node], at, piece);
    if offset <= o < offset + |piece| {
      SameBlock(l, offset, o - offset);
      assert seg'[at..at + |piece|][o - offset] == piece[o - offset];
    } else if NodeOf(l, o) == node && at <= LocalOf(l, o) < at + |piece| {
      SameBlock(l, offset, LocalOf(l, o) - at);
      SamePlace(l, o, offset + (LocalOf(l, o) - at));
    }
  }

  lemma LoadChunk(l: Layout, segs: seq<seq<byte>>, offset: nat, n: nat)
    requires SegmentsOk(l, segs) && Chunk(l, offset, n)
    ensures LocalOf(l, offset) + n <= l.perNode
    ensures segs[NodeOf(l, offset)][LocalOf(l, offset)..LocalOf(l, offset) + n] == Flat(l, segs)[offset..offset + n]
  {
    ChunkInside(l, offset, n);
    var seg, at := segs[NodeOf(l, offset)], LocalOf(l, offset);
    var got, want := seg[at..at + n], Flat(l, segs)[offset..offset + n];
    forall d: nat | d < n
      ensures got[d] == want[d]
    {
      SameBlock(l, offset, d);
    }
  }

  /** What is left of the block at `offset`, or of the request. */
  function ChunkSize(l: Layout, blkoffset: nat, size: nat): (n: nat)
    requires blkoffset < l.stride
    ensures n == (if l.stride - blkoffset > size then size else l.stride - blkoffset)
  {
    if l.stride - blkoffset > size then size else l.stride - blkoffset
  }

  /** The stepping of the batch forms: from the end of a block to the start of the next. */
  lemma NextBlock(l: Layout, offset: nat)
    requires l.Valid()
    ensures var next, node := offset + (l.stride - offset % l.stride), NodeOf(l, offset);
            && next % l.stride == 0
            && NodeOf(l, next) == (node + 1) % l.nodes
            && BlockOf(l, next) == BlockOf(l, offset) + if (node + 1) % l.nodes == 0 then 1 else 0
  {
    var b := offset / l.stride;
    Parts(offset, l.stride);
    assert offset + (l.stride - offset % l.stride) == (b + 1) * l.stride;
    DivMod(b + 1, l.stride, 0);
    StepAround(b, l.nodes);
  }

  /** Counting on by one, round after round. */
  lemma StepAround(b: nat, nodes: nat)
    requires 0 < nodes
    ensures (b + 1) % nodes == (b % nodes + 1) % nodes
    ensures (b + 1) / nodes == b / nodes + if (b % nodes + 1) % nodes == 0 then 1 else 0
  {
    var q, n := b / nodes, b % nodes;
    Parts(b, nodes);
    if n + 1 < nodes {
      DivMod(q, nodes, n + 1);
      DivMod(0, nodes, n + 1);
    } else {
      assert b + 1 == (q + 1) * nodes;
      DivMod(q + 1, nodes, 0);
      DivMod(1, nodes, 0);
    }
  }

  datatype Request = Request(offset: nat, data: seq<byte>)

  ghost predicate RequestsFit(l: Layout, batch: seq<Request>) {
    forall i :: 0 <= i < |batch| ==> batch[i].offset + |batch[i].data| <= l.Size()
  }

  /** The flat memory after the first `k` writes of a batch. */
  ghost function Written(l: Layout, flat: seq<byte>, batch: seq<Request>, k: nat): (r: seq<byte>)
    requires |flat| == l.Size() && k <= |batch| && RequestsFit(l, batch)
    ensures |r| == l.Size()
  {
    if k == 0 then flat else Splice(Written(l, flat, batch, k - 1), batch[k - 1].offset, batch[k - 1].data)
  }

  /** The requests write to different places. */
  ghost predicate Disjoint(batch: seq<Request>) {
    forall i, j :: 0 <= i < j < |batch| ==> RequestsApart(batch[i], batch[j])
  }

  predicate RequestsApart(a: Request, b: Request) {
    Apart(a.offset, |a.data|, b.offset, |b.data|)
  }

  // ---------------------------------------------------------------------------------------
  // Puts on their way: the network completes them in any order

  /** A non-blocking put of one chunk to a place in a node's segment. */
  datatype Put = Put(node: nat, at: nat, data: seq<byte>)

  function PutOffset(l: Layout, p: Put): nat
    requires l.Valid()
  {
    OffsetOf(l, p.node, p.at)
  }

  predicate PutOk(l: Layout, p: Put) {
    && l.Valid() && p.node < l.nodes
    && Chunk(l, PutOffset(l, p), |p.data|)
  }

  predicate PutsOk(l: Layout, puts: seq<Put>) {
    l.Valid() && forall k :: 0 <= k < |puts| ==> PutOk(l, puts[k])
  }

  /** The put stays clear of `n` bytes at `offset`. */
  predicate Clear(l: Layout, p: Put, offset: int, n: nat)
    requires l.Valid()
  {
    Apart(PutOffset(l, p), |p.data|, offset, n)
  }

  ghost predicate AllClear(l: Layout, puts: seq<Put>, offset: int, n: nat)
    requires l.Valid()
  {
    forall k :: 0 <= k < |puts| ==> Clear(l, puts[k], offset, n)
  }

  ghost predicate PutsApart(l: Layout, puts: seq<Put>)
    requires l.Valid()
  {
    forall i, j :: 0 <= i < j < |puts| ==> Clear(l, puts[i], PutOffset(l, puts[j]), |puts[j].data|)
  }

  /** The flat memory after all of `puts`, in the order in which they were issued. */
  ghost function Completed(l: Layout, flat: seq<byte>, puts: seq<Put>): (r: seq<byte>)
    requires |flat| == l.Size() && PutsOk(l, puts)
    ensures |r| == l.Size()
  {
    if puts == [] then flat else
      var last := puts[|puts| - 1];
      Splice(Completed(l, flat, puts[..|puts| - 1]), PutOffset(l, last), last.data)
  }

  lemma SplicesCommute(mem: seq<byte>, a: nat, x: seq<byte>, b: nat, y: seq<byte>)
    requires a + |x| <= |mem| && b + |y| <= |mem| && Apart(a, |x|, b, |y|)
    ensures Splice(Splice(mem, a, x), b, y) == Splice(Splice(mem, b, y), a, x)
  {
    var ab, ba := Splice(Splice(mem, a, x), b, y), Splice(Splice(mem, b, y), a, x);
    SpliceEach(mem, a, x);
    SpliceEach(Splice(mem, a, x), b, y);
    SpliceEach(mem, b, y);
    SpliceEach(Splice(mem, b, y), a, x);
    assert forall k :: 0 <= k < |mem| ==> ab[k] == ba[k];
  }

  lemma SpliceEach(mem: seq<byte>, off: nat, data: seq<byte>)
    requires off + |data| <= |mem|
    ensures forall k :: 0 <= k < |mem| ==>
              Splice(mem, off, data)[k] == if off <= k < off + |data| then data[k - off] else mem[k]
  {
  }

  /** A store that stays clear of all puts on their way may as well come after them. */
  lemma {:induction false} StoreAfter(l: Layout, flat: seq<byte>, puts: seq<Put>, at: nat, data: seq<byte>)
    requires |flat| == l.Size() && PutsOk(l, puts) && at + |data| <= l.Size() && AllClear(l, puts, at, |data|)
    ensures Completed(l, Splice(flat, at, data), puts) == Splice(Completed(l, flat, puts), at, data)
  {
    if puts != [] {
      var front, last := puts[..|puts| - 1], puts[|puts| - 1];
      assert Clear(l, last, at, |data|);
      StoreAfter(l, flat, front, at, data);
      SplicesCommute(Completed(l, flat, front), at, data, PutOffset(l, last), last.data);
    }
  }

  lemma {:induction false} CompletedOneMore(l: Layout, flat: seq<byte>, puts: seq<Put>, last: Put)
    requires |flat| == l.Size() && PutsOk(l, puts) && PutOk(l, last)
    ensures PutsOk(l, puts + [last])
    ensures Completed(l, flat, puts + [last]) == Splice(Completed(l, flat, puts), PutOffset(l, last), last.data)
  {
    assert (puts + [last])[..|puts|] == puts;
  }

  function Without(puts: seq<Put>, k: nat): seq<Put>
    requires k < |puts|
  {
    puts[..k] + puts[k + 1..]
  }

  lemma WithoutOk(l: Layout, puts: seq<Put>, k: nat)
    requires PutsOk(l, puts) && k < |puts|
    ensures PutsOk(l, Without(puts, k))
  {
    var rest := Without(puts, k);
    assert forall i :: 0 <= i < |rest| ==> rest[i] == puts[if i < k then i else i + 1];
  }

  lemma WithoutApart(l: Layout, puts: seq<Put>, k: nat)
    requires PutsOk(l, puts) && PutsApart(l, puts) && k < |puts|
    ensures PutsOk(l, Without(puts, k)) && PutsApart(l, Without(puts, k))
  {
    var rest := Without(puts, k);
    assert forall i :: 0 <= i < |rest| ==> rest[i] == puts[if i < k then i else i + 1];
  }

  /** Whichever put completes first, the outcome is the same when they are apart. */
  lemma {:induction false} CompleteAny(l: Layout, flat: seq<byte>, puts: seq<Put>, k: nat, rest: seq<Put>,
                                       stored: seq<byte>)
    requires |flat| == l.Size() && PutsOk(l, puts) && PutsApart(l, puts) && k < |puts|
    requires rest == Without(puts, k) && PutsOk(l, rest)
    requires stored == Splice(flat, PutOffset(l, puts[k]), puts[k].data)
    ensures Completed(l, stored, rest) == Completed(l, flat, puts)
  {
    var n := |puts| - 1;
    var front, last := puts[..n], puts[n];
    LastApart(l, puts, front, last);
    CompletedOneMore(l, flat, front, last);
    if k == n {
      assert rest == front;
      StoreAfter(l, flat, front, PutOffset(l, last), last.data);
    } else {
      var frontRest := Without(front, k);
      WithoutApart(l, front, k);
      WithoutLater(puts, k, front, last);
      CompleteAny(l, flat, front, k, frontRest, stored);
      CompletedOneMore(l, stored, frontRest, last);
    }
  }

  lemma LastApart(l: Layout, puts: seq<Put>, front: seq<Put>, last: Put)
    requires puts != [] && front == puts[..|puts| - 1] && last == puts[|puts| - 1]
    requires PutsOk(l, puts) && PutsApart(l, puts)
    ensures puts == front + [last] && PutsOk(l, front) && PutOk(l, last) && PutsApart(l, front)
    ensures AllClear(l, front, PutOffset(l, last), |last.data|)
  {
  }

  lemma WithoutLater(puts: seq<Put>, k: nat, front: seq<Put>, last: Put)
    requires k < |front| && puts == front + [last]
    ensures front[k] == puts[k] && Without(puts, k) == Without(front, k) + [last]
  {
  }

  class GASNetMemory {
    const l: Layout
    const me: nat
    var segs: seq<seq<byte>>  // the segments of all nodes
    var pending: seq<Put>     // non-blocking puts that have not completed

    ghost predicate Valid()
      reads this
    {
      SegmentsOk(l, segs) && PutsOk(l, pending)
    }

    constructor (l: Layout, me: nat, segs: seq<seq<byte>>)
      requires SegmentsOk(l, segs) && me < l.nodes
      ensures Valid() && this.l == l && this.me == me && this.segs == segs && pending == []
    {
      this.l := l;
      this.me := me;
      this.segs := segs;
      pending := [];
    }

    /** The flat memory once everything on its way has completed. */
    ghost function Settled(): seq<byte>
      reads this
      requires Valid()
    {
      Completed(l, Flat(l, segs), pending)
    }

    /** memcpy, or gasnet_put, of one chunk into a node's segment. */
    method Store(node: nat, blkid: nat, blkoffset: nat, piece: seq<byte>, ghost offset: nat)
      requires Valid() && Chunk(l, offset, |piece|)
      requires node == NodeOf(l, offset) && blkid == BlockOf(l, offset) && blkoffset == offset % l.stride
      modifies this`segs
      ensures Valid() && Flat(l, segs) == Splice(Flat(l, old(segs)), offset, piece)
    {
      StoreChunk(l, segs, offset, piece);
      segs := segs[node := Splice(segs[node], blkid * l.stride + blkoffset, piece)];
    }

    method GetBytes(offset: nat, size: nat) returns (dst: seq<byte>)
      requires Valid() && offset + size <= l.Size()
      ensures dst == Flat(l, segs)[offset..offset + size]
    {
      dst := [];
      var at, left := offset, size;
      while left > 0
        invariant 0 <= left && at + left == offset + size && dst == Flat(l, segs)[offset..at]
      {
        var blkid, node, blkoffset := BlockOf(l, at), NodeOf(l, at), at % l.stride;
        var n := ChunkSize(l, blkoffset, left);
        LoadChunk(l, segs, at, n);
        dst := dst + segs[node][blkid * l.stride + blkoffset..blkid * l.stride + blkoffset + n];
        at, left := at + n, left - n;
      }
    }

    method PutBytes(offset: nat, src: seq<byte>)
      requires Valid() && offset + |src| <= l.Size()
      modifies this
      ensures Valid() && Flat(l, segs) == Splice(Flat(l, old(segs)), offset, src)
    {
      var at, done, left := offset, 0, |src|;
      ghost var flat := Flat(l, segs);
      SpliceNothing(flat, offset);
      while left > 0
        invariant Valid() && at == offset + done && 0 <= left && done + left == |src|
        invariant Flat(l, segs) == Splice(flat, offset, src[..done])
      {
        var blkid, node, blkoffset := BlockOf(l, at), NodeOf(l, at), at % l.stride;
        var n := ChunkSize(l, blkoffset, left);
        var next := done + n;
        Store(node, blkid, blkoffset, src[done..next], at);
        SpliceMore(flat, offset, src, done, next, at);
        at, done, left := at + n, next, left - n;
      }
      assert src[..|src|] == src;
    }

    /**
     One chunk of a batch: copied at once on this node, put on its way to any other. `apart` says that
     the requests of the batch do not overlap; without it the outcome is up to the network.
     */
    method PutChunk(node: nat, blkid: nat, blkoffset: nat, piece: seq<byte>, ghost offset: nat, ghost apart: bool)
      requires Valid() && Chunk(l, offset, |piece|) && (apart ==> AllClear(l, pending, offset, |piece|))
      requires node == NodeOf(l, offset) && blkid == BlockOf(l, offset) && blkoffset == offset % l.stride
      modifies this`segs, this`pending
      ensures Valid() && (apart ==> Settled() == Splice(old(Settled()), offset, piece))
      ensures pending == old(pending) || pending == old(pending) + [Put(node, LocalOf(l, offset), piece)]
    {
      if node != me {
        ghost var before := pending;
        OffsetBack(l, offset);
        pending := pending + [Put(node, blkid * l.stride + blkoffset, piece)];
        assert pending[..|pending| - 1] == before;
      } else {
        if apart { StoreAfter(l, Flat(l, segs), pending, offset, piece); }
        Store(node, blkid, blkoffset, piece, offset);
      }
    }

    /** One request of `put_batch`: node and block are stepped, not recomputed. */
    method PutStepping(offset: nat, src: seq<byte>, ghost apart: bool)
      requires Valid() && offset + |src| <= l.Size()
      requires apart ==> AllClear(l, pending, offset, |src|) && PutsApart(l, pending)
      modifies this`segs, this`pending
      ensures Valid() && (apart ==> Settled() == Splice(old(Settled()), offset, src) && PutsApart(l, pending))
      ensures StillClear(l, old(pending), pending, offset, |src|)
    {
      var blkid, node, blkoffset := BlockOf(l, offset), NodeOf(l, offset), offset % l.stride;
      var done, left := 0, |src|;
      ghost var at, flat := offset, Settled();
      SpliceNothing(flat, offset);
      while left > 0
        invariant Valid() && at == offset + done && 0 <= left && done + left == |src|
        invariant left > 0 ==> node == NodeOf(l, at) && blkid == BlockOf(l, at) && blkoffset == at % l.stride
        invariant apart ==> Settled() == Splice(flat, offset, src[..done])
        invariant apart ==> PutsApart(l, pending) && AllClear(l, pending, at, left)
        invariant StillClear(l, old(pending), pending, offset, |src|)
      {
        var n := ChunkSize(l, blkoffset, left);
        var next := done + n;
        ghost var before := pending;
        if apart { SubRange(l, before, at, left, n); }
        PutChunk(node, blkid, blkoffset, src[done..next], at, apart);
        OffsetBack(l, at);
        MoreClear(l, before, pending, at, n);
        if apart { MoreApart(l, before, pending, at, n, left); }
        SpliceMore(flat, offset, src, done, next, at);
        NextBlock(l, at);
        at, done, left := at + n, next, left - n;
        blkoffset := 0;
        node := (node + 1) % l.nodes;
        if node == 0 {
          blkid := blkid + 1;
        }
      }
      assert src[..|src|] == src;
    }

    /** Non-blocking puts complete in an order of the network's choice until none is left. */
    method WaitSync(ghost apart: bool)
      requires Valid() && (apart ==> PutsApart(l, pending))
      modifies this`segs, this`pending
      ensures Valid() && pending == [] && (apart ==> Flat(l, segs) == old(Settled()))
    {
      while pending != []
        invariant Valid() && (apart ==> PutsApart(l, pending) && Settled() == old(Settled()))
        decreases |pending|
      {
        var k :| 0 <= k < |pending|;
        var p := pending[k];
        ghost var flat := Flat(l, segs);
        WithoutOk(l, pending, k);
        if apart {
          WithoutApart(l, pending, k);
          CompleteAny(l, flat, pending, k, Without(pending, k), Splice(flat, PutOffset(l, p), p.data));
        }
        PutPlace(l, p);
        Store(p.node, BlockOf(l, PutOffset(l, p)), PutOffset(l, p) % l.stride, p.data, PutOffset(l, p));
        pending := Without(pending, k);
      }
    }

    /** Where requests overlap, the outcome depends on the order in which the network completes their chunks. */
    method PutBatch(batch: seq<Request>)
      requires Valid() && pending == [] && RequestsFit(l, batch)
      modifies this`segs, this`pending
      ensures Valid() && pending == []
      ensures Disjoint(batch) ==> Flat(l, segs) == Written(l, Flat(l, old(segs)), batch, |batch|)
    {
      ghost var apart := Disjoint(batch);
      for i := 0 to |batch|
        invariant Valid()
        invariant apart ==> PutsApart(l, pending)
        invariant apart ==> RestClear(l, pending, batch, i)
        invariant apart ==> Settled() == Written(l, Flat(l, old(segs)), batch, i)
      {
        ghost var before := pending;
        PutStepping(batch[i].offset, batch[i].data, apart);
        if apart { RestStaysClear(l, before, pending, batch, i); }
      }
      WaitSync(apart);
    }

    method GetStepping(offset: nat, size: nat) returns (dst: seq<byte>)
      requires Valid() && offset + size <= l.Size()
      ensures dst == Flat(l, segs)[offset..offset + size]
    {
      var blkid, node, blkoffset := BlockOf(l, offset), NodeOf(l, offset), offset % l.stride;
      var left := size;
      dst := [];
      ghost var at := offset;
      while left > 0
        invariant 0 <= left && at + left == offset + size && dst == Flat(l, segs)[offset..at]
        invariant left > 0 ==> node == NodeOf(l, at) && blkid == BlockOf(l, at) && blkoffset == at % l.stride
      {
        var n := ChunkSize(l, blkoffset, left);
        LoadChunk(l, segs, at, n);
        dst := dst + segs[node][blkid * l.stride + blkoffset..blkid * l.stride + blkoffset + n];
        NextBlock(l, at);
        at, left := at + n, left - n;
        blkoffset := 0;
        node := (node + 1) % l.nodes;
        if node == 0 {
          blkid := blkid + 1;
        }
      }
    }

    method GetBatch(offsets: seq<nat>, sizes: seq<nat>) returns (dsts: seq<seq<byte>>)
      requires Valid() && |offsets| == |sizes| && forall i :: 0 <= i < |offsets| ==> offsets[i] + sizes[i] <= l.Size()
      ensures |dsts| == |offsets|
      ensures forall i :: 0 <= i < |offsets| ==> dsts[i] == Flat(l, segs)[offsets[i]..offsets[i] + sizes[i]]
    {
      dsts := [];
      for i := 0 to |offsets|
        invariant |dsts| == i
        invariant forall k :: 0 <= k < i ==> dsts[k] == Flat(l, segs)[offsets[k]..offsets[k] + sizes[k]]
      {
        var dst := GetStepping(offsets[i], sizes[i]);
        dsts := dsts + [dst];
      }
    }
  }

  lemma SpliceNothing(mem: seq<byte>, off: nat)
    requires off <= |mem|
    ensures Splice(mem, off, []) == mem
  {
  }

  lemma SpliceMore(mem: seq<byte>, off: nat, src: seq<byte>, i: nat, j: nat, at: nat)
    requires off + |src| <= |mem| && i <= j <= |src| && at == off + i
    ensures Splice(Splice(mem, off, src[..i]), at, src[i..j]) == Splice(mem, off, src[..j])
  {
    assert src[..i] + src[i..j] == src[..j];
  }

  /** The place of a put, recovered from its offset. */
  lemma PutPlace(l: Layout, p: Put)
    requires PutOk(l, p)
    ensures NodeOf(l, PutOffset(l, p)) == p.node && LocalOf(l, PutOffset(l, p)) == p.at
  {
    LocalBack(l, p.node, p.at);
  }

  lemma SubRange(l: Layout, puts: seq<Put>, at: nat, left: nat, n: nat)
    requires l.Valid() && AllClear(l, puts, at, left) && n <= left
    ensures AllClear(l, puts, at, n) && AllClear(l, puts, at + n, left - n)
  {
  }

  /** What the puts `before` were clear of, apart from `n` bytes at `at`, the puts `now` are clear of, too. */
  ghost predicate StillClear(l: Layout, before: seq<Put>, now: seq<Put>, at: nat, n: nat)
    requires l.Valid()
  {
    forall o: nat, m: nat {:trigger AllClear(l, now, o, m)} ::
      AllClear(l, before, o, m) && Apart(at, n, o, m) ==> AllClear(l, now, o, m)
  }

  /** The requests of `batch` from `i` on overlap nothing that is on its way. */
  ghost predicate RestClear(l: Layout, puts: seq<Put>, batch: seq<Request>, i: nat)
    requires l.Valid()
  {
    forall j :: i <= j < |batch| ==> AllClear(l, puts, batch[j].offset, |batch[j].data|)
  }

  lemma RestStaysClear(l: Layout, before: seq<Put>, now: seq<Put>, batch: seq<Request>, i: nat)
    requires l.Valid() && Disjoint(batch) && i < |batch| && RestClear(l, before, batch, i)
    requires StillClear(l, before, now, batch[i].offset, |batch[i].data|)
    ensures RestClear(l, now, batch, i + 1)
  {
    forall j | i < j < |batch|
      ensures AllClear(l, now, batch[j].offset, |batch[j].data|)
    {
      assert RequestsApart(batch[i], batch[j]) && AllClear(l, before, batch[j].offset, |batch[j].data|);
    }
  }

  /** `puts` may have one put more than `before`, of `n` bytes at `at`. */
  predicate AtMostOneMore(l: Layout, before: seq<Put>, puts: seq<Put>, at: nat, n: nat)
    requires l.Valid()
  {
    || puts == before
    || (&& |puts| == |before| + 1 && puts[..|before|] == before
        && PutOffset(l, puts[|before|]) == at && |puts[|before|].data| == n)
  }

  lemma MoreClear(l: Layout, before: seq<Put>, puts: seq<Put>, at: nat, n: nat)
    requires l.Valid() && AtMostOneMore(l, before, puts, at, n)
    ensures StillClear(l, before, puts, at, n)
  {
    assert forall k :: 0 <= k < |before| ==> puts[k] == before[k];
  }

  lemma MoreApart(l: Layout, before: seq<Put>, puts: seq<Put>, at: nat, n: nat, left: nat)
    requires l.Valid() && AtMostOneMore(l, before, puts, at, n)
    requires PutsApart(l, before) && AllClear(l, before, at, left) && n <= left
    ensures PutsApart(l, puts) && AllClear(l, puts, at + n, left - n)
  {
    assert forall k :: 0 <= k < |before| ==> puts[k] == before[k];
  }

  /** What was put is what is got, and everything else is as it was. */
  method PutThenGet(m: GASNetMemory, offset: nat, src: seq<byte>, other: nat, size: nat) returns (same: seq<byte>,
                    kept: seq<byte>)
    requires m.Valid() && offset + |src| <= m.l.Size() && other + size <= m.l.Size()
    requires Apart(offset, |src|, other, size)
    modifies m
    ensures same == src
    ensures m.Valid() && kept == Flat(m.l, old(m.segs))[other..other + size]
  {
    m.PutBytes(offset, src);
    SpliceAt(Flat(m.l, old(m.segs)), offset, src);
    same := m.GetBytes(offset, |src|);
    kept := m.GetBytes(other, size);
  }
}
