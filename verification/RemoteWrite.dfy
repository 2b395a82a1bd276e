/**
 `do_remote_write`: a contiguous, a strided or a span-list source becomes one or more write messages,
 each small enough for the target's buffers unless the target memory is registered.
 */
module RemoteWrite {
  import opened Bytes

  /** A run of bytes in the sender's memory. */
  datatype Extent = Extent(pos: int, size: nat)

  /** Where a message's payload comes from; positions are addresses in the sender's memory. */
  datatype Payload =
    | Contiguous(pos: nat, size: nat)
    | Lines(start: int, lineSize: nat, stride: int, count: nat)
    | Spans(spans: seq<Extent>)

  /** `dst` is the target address for a registered memory, or 0. */
  datatype WriteMessage = WriteMessage(offset: nat, payload: Payload, dst: nat)

  /** What arrives: bytes for an offset of the target memory. */
  datatype Piece = Piece(offset: nat, data: seq<byte>)

  // ---------------------------------------------------------------------------------------
  // What a payload is

  /** `n`, `k` times over. */
  ghost function Times(k: nat, n: int): int {
    if k == 0 then 0 else Times(k - 1, n) + n
  }

  lemma {:induction false} TimesIs(k: nat, n: int)
    ensures Times(k, n) == k * n
  {
    if k > 0 {
      TimesIs(k - 1, n);
      assert k * n == (k - 1) * n + n;
    }
  }

  /** How many messages a loop sends that takes `most` at a time while more than that is left. */
  lemma RoundsAre(k: nat, most: nat, left: nat, n: nat)
    requires 0 < k && 0 < left <= most && Times(k - 1, most) + left == n
    ensures (k - 1) * most < n <= k * most
  {
    TimesIs(k - 1, most);
    assert k * most == (k - 1) * most + most;
  }

  /** The lines of a strided source. */
  function LinesOf(start: int, lineSize: nat, stride: int, count: nat): seq<Extent> {
    seq(count, i requires 0 <= i < count => Extent(LineStart(start, stride, i), lineSize))
  }

  /** The address of line `i`. */
  function LineStart(start: int, stride: int, i: nat): int {
    if i == 0 then start else LineStart(start, stride, i - 1) + stride
  }

  predicate SpansReadable(src: seq<byte>, spans: seq<Extent>) {
    forall i :: 0 <= i < |spans| ==> RunReadable(src, spans[i])
  }

  predicate RunReadable(src: seq<byte>, span: Extent) {
    0 <= span.pos && span.pos + span.size <= |src|
  }

  /** A payload as the list of runs it is gathered from. */
  function Runs(p: Payload): seq<Extent> {
    match p
    case Contiguous(pos, size) => [Extent(pos, size)]
    case Lines(start, lineSize, stride, count) => LinesOf(start, lineSize, stride, count)
    case Spans(spans) => spans
  }

  predicate Readable(src: seq<byte>, p: Payload) {
    SpansReadable(src, Runs(p))
  }

  function Slice(src: seq<byte>, span: Extent): seq<byte>
    requires RunReadable(src, span)
  {
    src[span.pos..span.pos + span.size]
  }

  /** The total size of runs `lo` to `hi`. */
  function Size(spans: seq<Extent>, lo: nat, hi: nat): nat
    requires lo <= hi <= |spans|
  {
    if lo == hi then 0 else Size(spans, lo, hi - 1) + spans[hi - 1].size
  }

  function TotalSize(spans: seq<Extent>): nat {
    Size(spans, 0, |spans|)
  }

  /** The bytes of runs `lo` to `hi`, one run after the other. */
  function Cat(src: seq<byte>, spans: seq<Extent>, lo: nat, hi: nat): (r: seq<byte>)
    requires SpansReadable(src, spans) && lo <= hi <= |spans|
    ensures |r| == Size(spans, lo, hi)
  {
    if lo == hi then [] else Cat(src, spans, lo, hi - 1) + Slice(src, spans[hi - 1])
  }

  /** The payload's bytes in the order in which the receiver must see them. */
  function Gathered(src: seq<byte>, p: Payload): seq<byte>
    requires Readable(src, p)
  {
    Cat(src, Runs(p), 0, |Runs(p)|)
  }

  lemma GatheredRun(src: seq<byte>, pos: nat, size: nat)
    requires pos + size <= |src|
    ensures Readable(src, Contiguous(pos, size)) && Gathered(src, Contiguous(pos, size)) == src[pos..pos + size]
  {
    assert [] + src[pos..pos + size] == src[pos..pos + size];
  }

  lemma {:induction false} CatSplit(src: seq<byte>, spans: seq<Extent>, lo: nat, mid: nat, hi: nat)
    requires SpansReadable(src, spans) && lo <= mid <= hi <= |spans|
    ensures Cat(src, spans, lo, hi) == Cat(src, spans, lo, mid) + Cat(src, spans, mid, hi)
  {
    if mid < hi {
      CatSplit(src, spans, lo, mid, hi - 1);
      AppendAssoc(Cat(src, spans, lo, mid), Cat(src, spans, mid, hi - 1), Slice(src, spans[hi - 1]));
    }
  }

  lemma {:induction false} SizeSplit(spans: seq<Extent>, lo: nat, mid: nat, hi: nat)
    requires lo <= mid <= hi <= |spans|
    ensures Size(spans, lo, hi) == Size(spans, lo, mid) + Size(spans, mid, hi)
  {
    if mid < hi {
      SizeSplit(spans, lo, mid, hi - 1);
    }
  }

  /** Runs without bytes can be left out at the end. */
  lemma {:induction false} EmptyTail(src: seq<byte>, spans: seq<Extent>, it: nat)
    requires SpansReadable(src, spans) && it <= |spans| && Size(spans, 0, it) == Size(spans, 0, |spans|)
    ensures Cat(src, spans, 0, it) == Cat(src, spans, 0, |spans|)
  {
    CatSplit(src, spans, 0, it, |spans|);
    SizeSplit(spans, 0, it, |spans|);
    assert Cat(src, spans, it, |spans|) == [];
  }

  /** Runs from `lo` on, taken on their own. */
  lemma {:induction false} CatPart(src: seq<byte>, spans: seq<Extent>, lo: nat, hi: nat, part: seq<Extent>, n: nat)
    requires SpansReadable(src, spans) && SpansReadable(src, part) && hi == lo + n <= |spans| && n <= |part|
    requires forall i :: 0 <= i < n ==> part[i] == spans[lo + i]
    ensures Cat(src, part, 0, n) == Cat(src, spans, lo, hi)
    ensures Size(part, 0, n) == Size(spans, lo, hi)
  {
    if n > 0 {
      CatPart(src, spans, lo, hi - 1, part, n - 1);
    }
  }

  lemma {:induction false} LinesSize(start: int, lineSize: nat, stride: int, count: nat, n: nat)
    requires n <= count
    ensures Size(LinesOf(start, lineSize, stride, count), 0, n) == lineSize * n
  {
    if n > 0 {
      LinesSize(start, lineSize, stride, count, n - 1);
      assert lineSize * n == lineSize * (n - 1) + lineSize;
    }
  }

  // ---------------------------------------------------------------------------------------
  // copy_data

  /** `TwoDPayload::copy_data`. */
  method CopyLines(src: seq<byte>, start: int, lineSize: nat, stride: int, count: nat, dest: array<byte>, at: nat)
    requires Readable(src, Lines(start, lineSize, stride, count)) && at + lineSize * count <= dest.Length
    modifies dest
    ensures at + |Gathered(src, Lines(start, lineSize, stride, count))| <= dest.Length
    ensures dest[..] == Splice(old(dest[..]), at, Gathered(src, Lines(start, lineSize, stride, count)))
  {
    var d, p := at, start;
    ghost var lines := LinesOf(start, lineSize, stride, count);
    LinesSize(start, lineSize, stride, count, count);
    ghost var before, done := dest[..], [];
    for i := 0 to count
      invariant p == LineStart(start, stride, i) && d == at + |done|
      invariant done == Cat(src, lines, 0, i) && at + |done| <= dest.Length == |before|
      invariant dest[..] == Splice(before, at, done)
    {
      assert lines[i] == Extent(p, lineSize);
      SizeSplit(lines, 0, i + 1, count);
      CopyRun(src, Extent(p, lineSize), dest, d, before, at, done);
      done := done + Slice(src, lines[i]);
      d := d + lineSize;
      p := p + stride;
    }
  }

  /** `SpanPayload::copy_data`; neither of its asserts can fail when `size` is the sum of the span sizes. */
  method CopySpans(src: seq<byte>, spans: seq<Extent>, size: nat, dest: array<byte>, at: nat)
    requires Readable(src, Spans(spans)) && size == TotalSize(spans) && at + size <= dest.Length
    modifies dest
    ensures dest[..] == Splice(old(dest[..]), at, Gathered(src, Spans(spans)))
  {
    var d, bytesLeft := at, size;
    ghost var before, done := dest[..], [];
    for i := 0 to |spans|
      invariant d == at + |done| && |done| + bytesLeft == size && at + |done| <= dest.Length
      invariant done == Cat(src, spans, 0, i) && |before| == dest.Length
      invariant dest[..] == Splice(before, at, done)
    {
      SizeSplit(spans, 0, i + 1, |spans|);
      assert spans[i].size <= bytesLeft;
      CopyRun(src, spans[i], dest, d, before, at, done);
      done := done + Slice(src, spans[i]);
      d := d + spans[i].size;
      bytesLeft := bytesLeft - spans[i].size;
    }
    assert bytesLeft == 0;
  }

  /** One `memcpy` of the loops above, continuing a copy of `done` that started at `at`. */
  method CopyRun(src: seq<byte>, span: Extent, dest: array<byte>, d: nat, ghost before: seq<byte>, ghost at: nat,
                 ghost done: seq<byte>)
    requires RunReadable(src, span) && d + span.size <= dest.Length
    requires d == at + |done| && |before| == dest.Length && dest[..] == Splice(before, at, done)
    modifies dest
    ensures dest[..] == Splice(before, at, done + Slice(src, span))
  {
    CopyBytes(src, span.pos, span.size, dest, d);
    SpliceOn(before, at, done, Slice(src, span));
  }

  /** Copying on from where a copy ended copies the concatenation. */
  lemma SpliceOn(mem: seq<byte>, at: nat, one: seq<byte>, two: seq<byte>)
    requires at + |one| + |two| <= |mem|
    ensures Splice(Splice(mem, at, one), at + |one|, two) == Splice(mem, at, one + two)
  {
  }

  /** `memcpy` from the sender's memory. */
  method CopyBytes(src: seq<byte>, pos: nat, size: nat, dest: array<byte>, at: nat)
    requires pos + size <= |src| && at + size <= dest.Length
    modifies dest
    ensures dest[..] == Splice(old(dest[..]), at, src[pos..pos + size])
  {
    for i := 0 to size
      invariant dest[..at] == old(dest[..at])
      invariant dest[at..at + i] == src[pos..pos + i]
      invariant dest[at + i..] == old(dest[at + i..])
    {
      dest[at + i] := src[pos + i];
    }
    assert dest[..] == dest[..at] + dest[at..at + size] + dest[at + size..];
    assert old(dest[..])[at + size..] == old(dest[at + size..]);
  }

  // ---------------------------------------------------------------------------------------
  // What a split must achieve

  /** The pieces follow each other without gap or overlap from `offset`, and together carry `data`. */
  ghost predicate Tiles(pieces: seq<Piece>, offset: nat, data: seq<byte>) {
    if pieces == [] then data == [] else
      var n := |pieces[0].data|;
      && pieces[0].offset == offset && n <= |data| && pieces[0].data == data[..n]
      && Tiles(pieces[1..], offset + n, data[n..])
  }

  lemma {:induction false} TilesAppend(pieces: seq<Piece>, offset: nat, data: seq<byte>, last: Piece)
    requires Tiles(pieces, offset, data) && last.offset == offset + |data|
    ensures Tiles(pieces + [last], offset, data + last.data)
  {
    if pieces == [] {
      assert [last][1..] == [];
    } else {
      var n := |pieces[0].data|;
      assert (data + last.data)[n..] == data[n..] + last.data;
      assert (pieces + [last])[1..] == pieces[1..] + [last];
      TilesAppend(pieces[1..], offset + n, data[n..], last);
    }
  }

  ghost predicate AllReadable(src: seq<byte>, ms: seq<WriteMessage>) {
    forall i :: 0 <= i < |ms| ==> Readable(src, ms[i].payload)
  }

  /** What the messages carry once their payloads have been gathered. */
  ghost function Pieces(src: seq<byte>, ms: seq<WriteMessage>): seq<Piece>
    requires AllReadable(src, ms)
  {
    seq(|ms|, i requires 0 <= i < |ms| => Piece(ms[i].offset, Gathered(src, ms[i].payload)))
  }

  /** The messages carry exactly `data` to `offset`, none above the size limit. */
  ghost predicate Carries(src: seq<byte>, ms: seq<WriteMessage>, offset: nat, data: seq<byte>, limit: nat) {
    && AllReadable(src, ms)
    && Tiles(Pieces(src, ms), offset, data)
    && forall i :: 0 <= i < |ms| ==> ms[i].dst == 0 && |Gathered(src, ms[i].payload)| <= limit
  }

  lemma CarriesAppend(src: seq<byte>, ms: seq<WriteMessage>, offset: nat, data: seq<byte>, limit: nat, m: WriteMessage)
    requires Carries(src, ms, offset, data, limit)
    requires m.offset == offset + |data| && m.dst == 0
    requires Readable(src, m.payload) && |Gathered(src, m.payload)| <= limit
    ensures Carries(src, ms + [m], offset, data + Gathered(src, m.payload), limit)
  {
    TilesAppend(Pieces(src, ms), offset, data, Piece(m.offset, Gathered(src, m.payload)));
    assert Pieces(src, ms + [m]) == Pieces(src, ms) + [Piece(m.offset, Gathered(src, m.payload))];
  }

  /** The outcome every form of `do_remote_write` promises. */
  ghost predicate Written(src: seq<byte>, ms: seq<WriteMessage>, count: nat, whole: Payload, offset: nat,
                          regbase: Option<nat>, limit: nat)
    requires Readable(src, whole)
  {
    && count == |ms| && 0 < count
    && AllReadable(src, ms)
    && Tiles(Pieces(src, ms), offset, Gathered(src, whole))
    && (if Target(regbase, offset) != 0 then ms == [WriteMessage(offset, whole, Target(regbase, offset))]
        else Carries(src, ms, offset, Gathered(src, whole), limit))
  }

  /** The address of `offset` in a registered memory, or 0 when the memory is not registered. */
  function Target(regbase: Option<nat>, offset: nat): nat {
    if regbase.Some? then regbase.value + offset else 0
  }

  /** A message with `part`, the runs `lo` to `hi`, carries on where the first `lo` runs ended. */
  lemma {:induction false} CarriesRuns(src: seq<byte>, ms: seq<WriteMessage>, offset: nat, spans: seq<Extent>,
                                       lo: nat, hi: nat, part: seq<Extent>, m: WriteMessage, limit: nat)
    requires SpansReadable(src, spans) && lo <= hi <= |spans| && Carries(src, ms, offset, Cat(src, spans, 0, lo), limit)
    requires Runs(m.payload) == part && IsPart(part, spans, lo, hi)
    requires m.dst == 0 && m.offset == offset + Size(spans, 0, lo) && TotalSize(part) <= limit
    ensures Carries(src, ms + [m], offset, Cat(src, spans, 0, hi), limit)
    ensures Size(spans, 0, hi) == Size(spans, 0, lo) + TotalSize(part)
  {
    CatPart(src, spans, lo, hi, part, |part|);
    CatSplit(src, spans, 0, lo, hi);
    CarriesAppend(src, ms, offset, Cat(src, spans, 0, lo), limit, m);
  }

  /** Runs `lo` to `hi`. */
  predicate IsPart(part: seq<Extent>, spans: seq<Extent>, lo: nat, hi: nat) {
    lo <= hi <= |spans| && hi == lo + |part| && forall i :: 0 <= i < |part| ==> part[i] == spans[lo + i]
  }

  lemma WrittenAtOnce(src: seq<byte>, whole: Payload, offset: nat, regbase: Option<nat>, limit: nat)
    requires Readable(src, whole)
    requires Target(regbase, offset) == 0 ==> |Gathered(src, whole)| <= limit
    ensures Written(src, [WriteMessage(offset, whole, Target(regbase, offset))], 1, whole, offset, regbase, limit)
  {
    var ms := [WriteMessage(offset, whole, Target(regbase, offset))];
    assert Pieces(src, ms)[1..] == [];
  }

  lemma WrittenInPieces(src: seq<byte>, ms: seq<WriteMessage>, whole: Payload, offset: nat, regbase: Option<nat>,
                        limit: nat)
    requires Readable(src, whole) && ms != [] && Target(regbase, offset) == 0
    requires Carries(src, ms, offset, Gathered(src, whole), limit)
    ensures Written(src, ms, |ms|, whole, offset, regbase, limit)
  {
  }

  // ---------------------------------------------------------------------------------------
  // The three forms

  method WriteContiguous(ghost src: seq<byte>, offset: nat, pos: nat, datalen: nat, regbase: Option<nat>, lmbSize: nat)
    returns (ms: seq<WriteMessage>, count: nat)
    requires pos + datalen <= |src| && 0 < datalen && 0 < lmbSize
    ensures Written(src, ms, count, Contiguous(pos, datalen), offset, regbase, lmbSize)
    ensures Target(regbase, offset) == 0 ==> (count - 1) * lmbSize < datalen <= count * lmbSize
  {
    var dst := Target(regbase, offset);
    if dst == 0 && datalen > lmbSize {
      var end: nat;
      ghost var rounds;
      ms, end, rounds := SendInPieces(src, offset, [], [], Extent(pos, datalen), offset, lmbSize);
      count := |ms|;
      GatheredRun(src, pos, datalen);
      assert [] + src[pos..pos + datalen] == src[pos..pos + datalen];
      WrittenInPieces(src, ms, Contiguous(pos, datalen), offset, regbase, lmbSize);
    } else {
      ms, count := [WriteMessage(offset, Contiguous(pos, datalen), dst)], 1;
      GatheredRun(src, pos, datalen);
      WrittenAtOnce(src, Contiguous(pos, datalen), offset, regbase, lmbSize);
    }
  }

  /**
   The loop that sends a run of bytes too big for a buffer: full pieces, then what is left. It is the
   body of the contiguous form and, inside the span form, of "if the first span is too big to fit".
   */
  method SendInPieces(ghost src: seq<byte>, ghost offset: nat, before: seq<WriteMessage>, ghost sent: seq<byte>,
                      span: Extent, at0: nat, lmbSize: nat)
    returns (ms: seq<WriteMessage>, at: nat, ghost rounds: nat)
    requires RunReadable(src, span) && 0 < lmbSize < span.size && at0 == offset + |sent|
    requires Carries(src, before, offset, sent, lmbSize)
    ensures at == at0 + span.size && |ms| == |before| + rounds
    ensures 0 < rounds && (rounds - 1) * lmbSize < span.size <= rounds * lmbSize
    ensures Carries(src, ms, offset, sent + Slice(src, span), lmbSize)
  {
    var p: nat, left: nat := span.pos, span.size;
    ms, at, rounds := before, at0, 0;
    ghost var done, end, whole := sent, at0 + span.size, sent + Slice(src, span);
    while left > lmbSize
      invariant RunSent(src, ms, offset, whole, done, p, left, at, end, lmbSize)
      invariant 0 < left && |ms| == |before| + rounds && Times(rounds, lmbSize) + left == span.size
      decreases left
    {
      ms, done, p, left, at := SendPiece(src, ms, offset, whole, done, p, left, at, end, lmbSize, lmbSize);
      rounds := rounds + 1;
    }
    rounds := rounds + 1;
    RoundsAre(rounds, lmbSize, left, span.size);
    ms, done, p, left, at := SendPiece(src, ms, offset, whole, done, p, left, at, end, left, lmbSize);
    RunDone(src, ms, offset, whole, done, p, at, end, lmbSize);
  }

  /** `done` is on its way; `left` bytes from `p` on complete `whole`, which ends at `end`. */
  ghost predicate RunSent(src: seq<byte>, ms: seq<WriteMessage>, offset: nat, whole: seq<byte>, done: seq<byte>,
                          p: nat, left: nat, at: nat, end: nat, limit: nat) {
    && p + left <= |src| && whole == done + src[p..p + left]
    && at == offset + |done| && at + left == end
    && Carries(src, ms, offset, done, limit)
  }

  lemma RunDone(src: seq<byte>, ms: seq<WriteMessage>, offset: nat, whole: seq<byte>, done: seq<byte>, p: nat, at: nat,
                end: nat, limit: nat)
    requires RunSent(src, ms, offset, whole, done, p, 0, at, end, limit)
    ensures at == end && Carries(src, ms, offset, whole, limit)
  {
    assert done == whole;
  }

  /** One message with the next `n` bytes. */
  method SendPiece(ghost src: seq<byte>, ms: seq<WriteMessage>, ghost offset: nat, ghost whole: seq<byte>,
                   ghost done: seq<byte>, p: nat, left: nat, at: nat, ghost end: nat, n: nat, ghost limit: nat)
    returns (ms': seq<WriteMessage>, ghost done': seq<byte>, p': nat, left': nat, at': nat)
    requires RunSent(src, ms, offset, whole, done, p, left, at, end, limit) && n <= left && n <= limit
    ensures RunSent(src, ms', offset, whole, done', p', left', at', end, limit)
    ensures left' == left - n && |ms'| == |ms| + 1
  {
    var m := WriteMessage(at, Contiguous(p, n), 0);
    CarriesRun(src, ms, offset, done, at, p, n, limit);
    SliceFront(src, done, p, n, left);
    ms', done', p', left', at' := ms + [m], done + src[p..p + n], p + n, left - n, at + n;
  }

  lemma CarriesRun(src: seq<byte>, ms: seq<WriteMessage>, offset: nat, data: seq<byte>, at: nat, p: nat, n: nat,
                   limit: nat)
    requires Carries(src, ms, offset, data, limit) && at == offset + |data| && p + n <= |src| && n <= limit
    ensures Carries(src, ms + [WriteMessage(at, Contiguous(p, n), 0)], offset, data + src[p..p + n], limit)
  {
    GatheredRun(src, p, n);
    CarriesAppend(src, ms, offset, data, limit, WriteMessage(at, Contiguous(p, n), 0));
  }

  lemma SliceFront(src: seq<byte>, done: seq<byte>, p: nat, n: nat, left: nat)
    requires n <= left && p + left <= |src|
    ensures done + src[p..p + left] == done + src[p..p + n] + src[p + n..p + left]
  {
  }

  /** The source divides by the line length, and asserts that one line fits a buffer. */
  method WriteLines(ghost src: seq<byte>, offset: nat, start: int, lineSize: nat, stride: int, lines: nat,
                    regbase: Option<nat>, lmbSize: nat)
    returns (ms: seq<WriteMessage>, count: nat)
    requires Readable(src, Lines(start, lineSize, stride, lines))
    requires Target(regbase, offset) == 0 ==> 0 < lineSize <= lmbSize
    ensures Written(src, ms, count, Lines(start, lineSize, stride, lines), offset, regbase, lmbSize)
    ensures Target(regbase, offset) == 0 ==>
              lines <= count * (lmbSize / lineSize) && (count == 1 || (count - 1) * (lmbSize / lineSize) < lines)
  {
    var dst := Target(regbase, offset);
    if dst == 0 {
      var perXfer := lmbSize / lineSize;
      LinesPerTransfer(lmbSize, lineSize, lines);
      if lines > perXfer {
        ms := LinesInPieces(src, offset, start, lineSize, stride, lines, perXfer, lmbSize);
        count := |ms|;
        WrittenInPieces(src, ms, Lines(start, lineSize, stride, lines), offset, regbase, lmbSize);
        return;
      }
      LinesSize(start, lineSize, stride, lines, lines);
    }
    ms, count := [WriteMessage(offset, Lines(start, lineSize, stride, lines), dst)], 1;
    WrittenAtOnce(src, Lines(start, lineSize, stride, lines), offset, regbase, lmbSize);
  }

  method LinesInPieces(ghost src: seq<byte>, offset: nat, start: int, lineSize: nat, stride: int, lines: nat,
                       perXfer: nat, ghost lmbSize: nat)
    returns (ms: seq<WriteMessage>)
    requires Readable(src, Lines(start, lineSize, stride, lines))
    requires 0 < perXfer < lines && lineSize * perXfer <= lmbSize
    ensures ms != [] && Carries(src, ms, offset, Gathered(src, Lines(start, lineSize, stride, lines)), lmbSize)
    ensures (|ms| - 1) * perXfer < lines <= |ms| * perXfer
  {
    var at, p, left, xfer, skip := offset, start, lines, LinesBytes(lineSize, perXfer), stride * perXfer;
    ms := [];
    ghost var done, all := 0, LinesOf(start, lineSize, stride, lines);
    while left > perXfer
      invariant LinesSent(src, ms, offset, start, stride, all, perXfer, done, left, at, p, lmbSize)
      decreases left
    {
      ms, left, at, p, done := SendLines(src, ms, offset, start, lineSize, stride, all, perXfer, done, left, at, p,
                                         xfer, skip, lmbSize);
    }
    var m := WriteMessage(at, Lines(p, lineSize, stride, left), 0);
    LinesLast(src, ms, offset, start, lineSize, stride, all, done, left, perXfer, m, lmbSize);
    ms := ms + [m];
    RoundsAre(|ms|, perXfer, left, lines);
  }

  /** The first `done` lines of `all` are on their way, `perXfer` in each message, and `left` remain from `p` on. */
  ghost predicate LinesSent(src: seq<byte>, ms: seq<WriteMessage>, offset: nat, start: int, stride: int,
                            all: seq<Extent>, perXfer: nat, done: nat, left: nat, at: nat, p: int, limit: nat) {
    && SpansReadable(src, all) && 0 < left && done + left == |all|
    && p == LineStart(start, stride, done) && at == offset + Size(all, 0, done)
    && done == Times(|ms|, perXfer)
    && Carries(src, ms, offset, Cat(src, all, 0, done), limit)
  }

  /** One turn of the loop: a full message. */
  method SendLines(ghost src: seq<byte>, ms: seq<WriteMessage>, ghost offset: nat, ghost start: int, lineSize: nat,
                   stride: int, ghost all: seq<Extent>, perXfer: nat, ghost done: nat, left: nat, at: nat, p: int,
                   xfer: nat, skip: int, ghost limit: nat)
    returns (ms': seq<WriteMessage>, left': nat, at': nat, p': int, ghost done': nat)
    requires all == LinesOf(start, lineSize, stride, |all|) && perXfer < left
    requires xfer == lineSize * perXfer <= limit && skip == stride * perXfer
    requires LinesSent(src, ms, offset, start, stride, all, perXfer, done, left, at, p, limit)
    ensures LinesSent(src, ms', offset, start, stride, all, perXfer, done', left', at', p', limit)
    ensures left' == left - perXfer
  {
    var m := WriteMessage(at, Lines(p, lineSize, stride, perXfer), 0);
    ms', at', p', left', done' := ms + [m], at + xfer, p + skip, left - perXfer, done + perXfer;
    LinesStep(src, ms, offset, start, lineSize, stride, all, done, perXfer, done', m, xfer, limit);
    LineStartSum(start, stride, done, perXfer, done', skip);
  }

  function LinesBytes(lineSize: nat, n: nat): nat {
    lineSize * n
  }

  lemma {:induction false} LinesLast(src: seq<byte>, ms: seq<WriteMessage>, offset: nat, start: int, lineSize: nat,
                                     stride: int, all: seq<Extent>, done: nat, n: nat, perXfer: nat, m: WriteMessage,
                                     limit: nat)
    requires SpansReadable(src, all) && |all| == done + n && n <= perXfer && lineSize * perXfer <= limit
    requires all == LinesOf(start, lineSize, stride, |all|)
    requires m.offset == offset + Size(all, 0, done) && m.dst == 0
    requires m.payload == Lines(LineStart(start, stride, done), lineSize, stride, n)
    requires Carries(src, ms, offset, Cat(src, all, 0, done), limit)
    ensures Carries(src, ms + [m], offset, Cat(src, all, 0, |all|), limit)
  {
    var xfer := Bounded(n, perXfer, lineSize, limit);
    LinesStep(src, ms, offset, start, lineSize, stride, all, done, n, |all|, m, xfer, limit);
  }

  lemma Bounded(n: nat, most: nat, size: nat, limit: nat) returns (xfer: nat)
    requires n <= most && size * most <= limit
    ensures xfer == size * n <= limit
  {
    MulMono(n, most, size);
    xfer := size * n;
  }

  /** One more message, with `n` of the lines `all`: `xfer` bytes. */
  lemma {:induction false} LinesStep(src: seq<byte>, ms: seq<WriteMessage>, offset: nat, start: int, lineSize: nat,
                                     stride: int, all: seq<Extent>, done: nat, n: nat, next: nat, m: WriteMessage,
                                     xfer: nat, limit: nat)
    requires SpansReadable(src, all) && next == done + n <= |all| && xfer == lineSize * n <= limit
    requires all == LinesOf(start, lineSize, stride, |all|)
    requires m.offset == offset + Size(all, 0, done) && m.dst == 0
    requires m.payload == Lines(LineStart(start, stride, done), lineSize, stride, n)
    requires Carries(src, ms, offset, Cat(src, all, 0, done), limit)
    ensures Size(all, 0, next) == Size(all, 0, done) + xfer
    ensures Carries(src, ms + [m], offset, Cat(src, all, 0, next), limit)
  {
    LinesPart(start, lineSize, stride, all, done, n, Runs(m.payload));
    LinesSize(LineStart(start, stride, done), lineSize, stride, n, n);
    CarriesRuns(src, ms, offset, all, done, next, Runs(m.payload), m, limit);
  }

  lemma {:induction false} LineStartSum(start: int, stride: int, a: nat, b: nat, sum: nat, skip: int)
    requires sum == a + b && skip == stride * b
    ensures LineStart(LineStart(start, stride, a), stride, b) == LineStart(start, stride, sum)
            == LineStart(start, stride, a) + skip
  {
    if b > 0 {
      assert stride * b == stride * (b - 1) + stride;
      LineStartSum(start, stride, a, b - 1, sum - 1, stride * (b - 1));
    }
  }

  /** Lines `done` to `done + n` of a strided source are a strided source. */
  lemma {:induction false} LinesPart(start: int, lineSize: nat, stride: int, all: seq<Extent>, done: nat, n: nat,
                                     part: seq<Extent>)
    requires done + n <= |all| && all == LinesOf(start, lineSize, stride, |all|)
    requires part == LinesOf(LineStart(start, stride, done), lineSize, stride, n)
    ensures IsPart(part, all, done, done + n)
  {
    forall i: nat | i < n
      ensures part[i] == all[done + i]
    {
      LineStartSum(start, stride, done, i, done + i, stride * i);
    }
  }

  lemma LinesPerTransfer(limit: nat, lineSize: nat, lines: nat)
    requires 0 < lineSize <= limit
    ensures 0 < limit / lineSize && lineSize * (limit / lineSize) <= limit
    ensures lines <= limit / lineSize ==> lineSize * lines <= limit
  {
    var most := limit / lineSize;
    assert limit == lineSize * most + limit % lineSize;
    if lines <= most {
      MulMono(lines, most, lineSize);
    }
  }

  /**
   `datalen` is the sum of the span sizes. The loop, which takes whole spans while they fit, sends no
   more than three messages for every buffer-full of data, and one.
   */
  method WriteSpans(ghost src: seq<byte>, offset: nat, spans: seq<Extent>, datalen: nat, regbase: Option<nat>,
                    lmbSize: nat)
    returns (ms: seq<WriteMessage>, count: nat)
    requires Readable(src, Spans(spans)) && datalen == TotalSize(spans) && 0 < lmbSize
    ensures Written(src, ms, count, Spans(spans), offset, regbase, lmbSize)
    ensures Target(regbase, offset) == 0 ==> count * lmbSize <= 3 * datalen + lmbSize
  {
    var dst := Target(regbase, offset);
    if dst == 0 && datalen > lmbSize {
      ms, count := SpansInPieces(src, offset, spans, datalen, lmbSize);
      WrittenInPieces(src, ms, Spans(spans), offset, regbase, lmbSize);
    } else {
      ms, count := [WriteMessage(offset, Spans(spans), dst)], 1;
      WrittenAtOnce(src, Spans(spans), offset, regbase, lmbSize);
    }
  }

  method SpansInPieces(ghost src: seq<byte>, offset: nat, spans: seq<Extent>, datalen: nat, lmbSize: nat)
    returns (ms: seq<WriteMessage>, count: nat)
    requires Readable(src, Spans(spans)) && datalen == TotalSize(spans) > 0 && 0 < lmbSize
    ensures count == |ms| > 0 && Carries(src, ms, offset, Gathered(src, Spans(spans)), lmbSize)
    ensures count * lmbSize <= 3 * datalen + lmbSize
  {
    var at, left, it := offset, datalen, 0;
    ms, count := [], 0;
    ghost var loose := None;
    while left > 0
      invariant SpansSent(src, ms, offset, spans, it, at, left, loose, lmbSize) && count == |ms|
      invariant count == 0 ==> left > 0
      decreases |spans| - it
    {
      if spans[it].size > lmbSize {
        ms, it, at, left := SendBigSpan(src, offset, ms, spans, it, at, left, loose, lmbSize);
        loose := None;
      } else {
        ms, it, at, left, loose := SendGroup(src, offset, ms, spans, it, at, left, loose, lmbSize);
      }
      count := |ms|;
    }
    EmptyTail(src, spans, it);
    PaidOff(spans, count, it, loose, lmbSize);
  }

  /** The first `it` spans are on their way, as `Paid` below bounds their number; `left` bytes remain. */
  ghost predicate SpansSent(src: seq<byte>, ms: seq<WriteMessage>, offset: nat, spans: seq<Extent>, it: nat, at: nat,
                            left: nat, loose: Option<nat>, limit: nat) {
    && SpansReadable(src, spans) && it <= |spans|
    && at == offset + Size(spans, 0, it) && Size(spans, 0, it) + left == TotalSize(spans)
    && Carries(src, ms, offset, Cat(src, spans, 0, it), limit)
    && Paid(spans, |ms|, it, loose, limit)
  }

  /**
   Every message costs a buffer, every byte sent pays for three. A group of spans may be `loose`, not
   paid for yet; the span that did not fit into it pays with what it brings.
   */
  ghost predicate Paid(spans: seq<Extent>, messages: nat, it: nat, loose: Option<nat>, lmbSize: nat)
    requires it <= |spans|
  {
    match loose
    case None => messages * lmbSize <= 3 * Size(spans, 0, it)
    case Some(x) =>
      && messages * lmbSize <= 3 * (Size(spans, 0, it) - x) + lmbSize
      && (it < |spans| ==> x + spans[it].size > lmbSize)
  }

  lemma {:induction false} PaidOff(spans: seq<Extent>, messages: nat, it: nat, loose: Option<nat>, lmbSize: nat)
    requires it <= |spans| && Size(spans, 0, it) == TotalSize(spans) && Paid(spans, messages, it, loose, lmbSize)
    ensures messages * lmbSize <= 3 * TotalSize(spans) + lmbSize
  {
  }

  lemma PayBig(spans: seq<Extent>, before: nat, rounds: nat, it: nat, loose: Option<nat>, lmbSize: nat)
    requires it < |spans| && Paid(spans, before, it, loose, lmbSize) && spans[it].size > lmbSize
    requires (rounds - 1) * lmbSize < spans[it].size
    ensures Paid(spans, before + rounds, it + 1, None, lmbSize)
  {
    assert (before + rounds) * lmbSize == before * lmbSize + (rounds - 1) * lmbSize + lmbSize;
  }

  lemma {:induction false} PayGroup(spans: seq<Extent>, before: nat, first: nat, it: nat, xferSize: nat,
                                     loose: Option<nat>, lmbSize: nat)
    requires first < it <= |spans| && Paid(spans, before, first, loose, lmbSize)
    requires Size(spans, 0, it) == Size(spans, 0, first) + xferSize
    requires spans[first].size <= xferSize && (it < |spans| ==> xferSize + spans[it].size > lmbSize)
    ensures Paid(spans, before + 1, it, if loose.Some? then None else Some(xferSize), lmbSize)
  {
    assert (before + 1) * lmbSize == before * lmbSize + lmbSize;
  }

  /** The messages for one span that is too big for a buffer. */
  method SendBigSpan(ghost src: seq<byte>, ghost offset: nat, before: seq<WriteMessage>, spans: seq<Extent>, it: nat,
                     at: nat, left: nat, ghost loose: Option<nat>, lmbSize: nat)
    returns (ms: seq<WriteMessage>, it': nat, at': nat, left': nat)
    requires SpansSent(src, before, offset, spans, it, at, left, loose, lmbSize)
    requires it < |spans| && 0 < lmbSize < spans[it].size
    ensures SpansSent(src, ms, offset, spans, it', at', left', None, lmbSize) && it' == it + 1 && |ms| > |before|
  {
    ghost var rounds;
    it' := it + 1;
    SizeSplit(spans, 0, it', |spans|);
    left' := left - spans[it].size;
    ms, at', rounds := SendInPieces(src, offset, before, Cat(src, spans, 0, it), spans[it], at, lmbSize);
    PayBig(spans, |before|, rounds, it, loose, lmbSize);
  }

  /** One message with as many whole spans as fit. */
  method SendGroup(ghost src: seq<byte>, ghost offset: nat, before: seq<WriteMessage>, spans: seq<Extent>, first: nat,
                   at: nat, left: nat, ghost loose: Option<nat>, lmbSize: nat)
    returns (ms: seq<WriteMessage>, it: nat, at': nat, left': nat, ghost loose': Option<nat>)
    requires SpansSent(src, before, offset, spans, first, at, left, loose, lmbSize)
    requires first < |spans| && spans[first].size <= lmbSize
    ensures SpansSent(src, ms, offset, spans, it, at', left', loose', lmbSize) && it > first && |ms| > |before|
  {
    var xferSize;
    it, xferSize := TakeSpans(spans, first, lmbSize);
    var m := WriteMessage(at, Spans(spans[first..it]), 0);
    GroupPayload(src, spans, first, it, spans[first..it]);
    CarriesRuns(src, before, offset, spans, first, it, spans[first..it], m, lmbSize);
    PayGroup(spans, |before|, first, it, xferSize, loose, lmbSize);
    SizeSplit(spans, 0, it, |spans|);
    ms, at', left', loose' := before + [m], at + xferSize, left - xferSize,
                              if loose.Some? then None else Some(xferSize);
  }

  lemma {:induction false} GroupPayload(src: seq<byte>, spans: seq<Extent>, first: nat, it: nat, part: seq<Extent>)
    requires SpansReadable(src, spans) && first <= it <= |spans| && part == spans[first..it]
    ensures SpansReadable(src, part) && IsPart(part, spans, first, it) && TotalSize(part) == Size(spans, first, it)
  {
    CatPart(src, spans, first, it, part, |part|);
  }

  /** "Take spans in order until we run out of space or spans"; at least one, so the loop makes progress. */
  method TakeSpans(spans: seq<Extent>, first: nat, lmbSize: nat) returns (it: nat, xferSize: nat)
    requires first < |spans| && spans[first].size <= lmbSize
    ensures first < it <= |spans| && xferSize == Size(spans, first, it) <= lmbSize
    ensures spans[first].size <= xferSize && (it < |spans| ==> xferSize + spans[it].size > lmbSize)
  {
    it, xferSize := first, 0;
    while it < |spans| && xferSize + spans[it].size <= lmbSize
      invariant first <= it <= |spans| && xferSize == Size(spans, first, it) <= lmbSize
      invariant if it == first then xferSize == 0 else spans[first].size <= xferSize
      decreases |spans| - it
    {
      xferSize := xferSize + spans[it].size;
      it := it + 1;
    }
  }
}
