/**
 The packets of the MPI active-message layer. The sender fills a buffer of 80 words and sends the part
 it used; the receiver works out from the header alone whether the payload is in the packet.
 */
module MpiPacket {
  import opened Bytes
  import opened Words

  const AM_BUF_MAX: nat := 80
  const AM_MEDIUM_BASE: nat := 0x100
  const AM_LONG_BASE: nat := 0x200
  const ARG_START_SHORT: nat := 2
  const ARG_START_MEDIUM: nat := 4

  datatype Payload = Inline(bytes: seq<byte>) | FromMessage(tag: int)

  /** What the receiver does with a packet: the handler it calls, and with what. */
  datatype Call =
    | ShortCall(handler: word, args: seq<int>)
    | MediumCall(handler: word, args: seq<int>, len: int, payload: Payload)
    | LongCall(handler: word, args: seq<int>, len: int, offset: int)
    | Die

  // ---------------------------------------------------------------------------------------
  // What a packet must say. Bytes that are not mentioned are whatever the buffer held.

  predicate HasArgs(b: seq<byte>, at: nat, args: seq<int32>)
    requires 4 * (at + |args|) <= |b|
  {
    forall k :: 0 <= k < |args| ==> WordAt(b, at + k) == ToWord(args[k])
  }

  predicate ShortPacket(p: seq<byte>, handler: word, args: seq<int32>) {
    && |p| == 4 * (ARG_START_SHORT + |args|)
    && WordAt(p, 0) == ToWord(|args|) && WordAt(p, 1) == handler
    && HasArgs(p, ARG_START_SHORT, args)
  }

  /** The sender's decision: is there room for the message behind the arguments? */
  predicate Inlined(n: nat, len: int) {
    0 < len < (AM_BUF_MAX - (ARG_START_MEDIUM + n)) * 4
  }

  /** The part of a medium packet before the message. */
  predicate MediumHead(b: seq<byte>, handler: word, len: nat, args: seq<int32>) {
    && |b| == 4 * (ARG_START_MEDIUM + |args|)
    && WordAt(b, 0) == ToWord(|args| + AM_MEDIUM_BASE) && WordAt(b, 1) == handler && WordAt(b, 2) == ToWord(len)
    && HasArgs(b, ARG_START_MEDIUM, args)
  }

  predicate MediumPacket(p: seq<byte>, handler: word, msg: seq<byte>, tag: int32, args: seq<int32>) {
    var n, head := |args|, 4 * (ARG_START_MEDIUM + |args|);
    && |p| == head + (if Inlined(n, |msg|) then 4 * ((|msg| + 3) / 4) else 0)
    && MediumHead(p[..head], handler, |msg|, args)
    && (Inlined(n, |msg|) ==> p[head..head + |msg|] == msg)
    && (!Inlined(n, |msg|) && |msg| > 0 ==> WordAt(p, 3) == ToWord(tag))
  }

  predicate LongPacket(p: seq<byte>, handler: word, len: nat, dst: nat, args: seq<int32>) {
    && |p| == 4 * (ARG_START_MEDIUM + |args|)
    && WordAt(p, 0) == ToWord(|args| + AM_LONG_BASE) && WordAt(p, 1) == handler
    && WordAt(p, 2) == ToWord(len) && WordAt(p, 3) == ToWord(dst)
    && HasArgs(p, ARG_START_MEDIUM, args)
  }

  // ---------------------------------------------------------------------------------------
  // Sending

  method PutWord(buf: array<byte>, i: nat, w: word)
    requires 4 * i + 4 <= buf.Length
    modifies buf
    ensures buf[..] == Splice(old(buf[..]), 4 * i, WordBytes(w))
  {
    buf[4 * i], buf[4 * i + 1], buf[4 * i + 2], buf[4 * i + 3] := w % 256, w / 256 % 256, w / 65536 % 256, w / 16777216;
  }

  /** Storing a word changes that word and no other. */
  lemma WordAfterPut(b: seq<byte>, i: nat, w: word, j: nat)
    requires 4 * i + 4 <= |b| && 4 * j + 4 <= |b|
    ensures WordAt(Splice(b, 4 * i, WordBytes(w)), j) == if i == j then w else WordAt(b, j)
  {
    var b' := Splice(b, 4 * i, WordBytes(w));
    SpliceAt(b, 4 * i, WordBytes(w));
    if i == j {
      assert b'[4 * i..4 * i + 4] == WordBytes(w);
      WordFromBytes(w);
    }
  }

  /** The words of `b` from `from` to `to` are those of `was`. */
  ghost predicate Kept(was: seq<byte>, b: seq<byte>, from: nat, to: nat)
    requires |was| == |b| && 4 * to <= |b|
  {
    forall j: nat :: from <= j < to ==> WordAt(b, j) == WordAt(was, j)
  }

  /** AM_copy_short: the arguments follow the header. */
  method CopyShort(buf: array<byte>, at: nat, args: seq<int32>) returns (size: nat)
    requires at + |args| <= AM_BUF_MAX && buf.Length == 4 * AM_BUF_MAX
    modifies buf
    ensures size == at + |args| && HasArgs(buf[..], at, args)
    ensures Kept(old(buf[..]), buf[..], 0, at)
  {
    for i := 0 to |args|
      invariant forall k :: 0 <= k < i ==> WordAt(buf[..], at + k) == ToWord(args[k])
      invariant Kept(old(buf[..]), buf[..], 0, at)
    {
      ghost var before := buf[..];
      PutWord(buf, at + i, ToWord(args[i]));
      forall j: nat | j <= at + i
        ensures WordAt(buf[..], j) == if j == at + i then ToWord(args[i]) else WordAt(before, j)
      {
        WordAfterPut(before, at + i, ToWord(args[i]), j);
      }
    }
    size := at + |args|;
  }

  method PutHeader(buf: array<byte>, t: word, handler: word)
    requires buf.Length == 4 * AM_BUF_MAX
    modifies buf
    ensures WordAt(buf[..], 0) == t && WordAt(buf[..], 1) == handler
  {
    PutWord(buf, 0, t);
    WordAfterPut(old(buf[..]), 0, t, 0);
    ghost var before := buf[..];
    PutWord(buf, 1, handler);
    WordAfterPut(before, 1, handler, 0);
    WordAfterPut(before, 1, handler, 1);
  }

  method PutField(buf: array<byte>, i: nat, w: word)
    requires buf.Length == 4 * AM_BUF_MAX && i < AM_BUF_MAX
    modifies buf
    ensures WordAt(buf[..], i) == w && Kept(old(buf[..]), buf[..], 0, i)
    ensures forall j: nat :: i < j < AM_BUF_MAX ==> WordAt(buf[..], j) == WordAt(old(buf[..]), j)
    ensures forall x :: 4 * i + 4 <= x < buf.Length ==> buf[x] == old(buf[x])
  {
    PutWord(buf, i, w);
    SpliceAt(old(buf[..]), 4 * i, WordBytes(w));
    forall j: nat | j < AM_BUF_MAX
      ensures WordAt(buf[..], j) == if i == j then w else WordAt(old(buf[..]), j)
    {
      WordAfterPut(old(buf[..]), i, w, j);
    }
    assert forall x :: 4 * i + 4 <= x < buf.Length ==> buf[x] == buf[..][x] == old(buf[..])[x];
  }

  method PutLengthHeader(buf: array<byte>, t: word, handler: word, len: nat)
    requires buf.Length == 4 * AM_BUF_MAX
    modifies buf
    ensures WordAt(buf[..], 0) == t && WordAt(buf[..], 1) == handler && WordAt(buf[..], 2) == ToWord(len)
  {
    PutHeader(buf, t, handler);
    PutField(buf, 2, ToWord(len));
  }

  method SendShort(handler: word, args: seq<int32>) returns (packet: seq<byte>)
    requires |args| <= 16
    ensures ShortPacket(packet, handler, args)
  {
    var buf := new byte[4 * AM_BUF_MAX];
    PutHeader(buf, |args|, handler);
    var size := CopyShort(buf, ARG_START_SHORT, args);
    packet := buf[..4 * size];
    WordsOfPrefix(buf[..], 4 * size);
  }

  /** The words of a prefix are the words of the whole. */
  lemma WordsOfPrefix(b: seq<byte>, n: nat)
    requires n <= |b|
    ensures forall j: nat :: 4 * j + 4 <= n ==> WordAt(b[..n], j) == WordAt(b, j)
  {
  }

  /** AM_pack_medium: the message goes behind the arguments if it fits; `size` counts words. */
  method PackMedium(buf: array<byte>, size0: nat, msg: seq<byte>) returns (size: nat, packed: bool)
    requires buf.Length == 4 * AM_BUF_MAX && ARG_START_MEDIUM <= size0 <= AM_BUF_MAX
    modifies buf
    ensures packed <==> Inlined(size0 - ARG_START_MEDIUM, |msg|)
    ensures size == size0 + (if packed then (|msg| + 3) / 4 else 0) <= AM_BUF_MAX
    ensures packed ==> 4 * size0 + |msg| <= 4 * size && buf[4 * size0..4 * size0 + |msg|] == msg
    ensures buf[..4 * size0] == old(buf[..4 * size0])
  {
    var room := (AM_BUF_MAX - size0) * 4;
    size, packed := size0, false;
    if 0 < |msg| && |msg| < room {
      for i := 0 to |msg|
        invariant buf[..4 * size0] == old(buf[..4 * size0])
        invariant buf[4 * size0..4 * size0 + i] == msg[..i]
      {
        buf[4 * size0 + i] := msg[i];
      }
      size := size0 + (|msg| + 3) / 4;
      packed := true;
    }
  }

  /** `separate` says that the message follows on its own, under `tag`. */
  method SendMedium(handler: word, msg: seq<byte>, tag: int32, args: seq<int32>) returns (packet: seq<byte>,
                    separate: bool)
    requires |args| <= 16
    ensures MediumPacket(packet, handler, msg, tag, args) && |packet| <= 4 * AM_BUF_MAX
    ensures separate <==> |msg| > 0 && !Inlined(|args|, |msg|)
  {
    var buf := new byte[4 * AM_BUF_MAX];
    var size := PutMediumHead(buf, handler, |msg|, args);
    ghost var head := buf[..4 * size];
    var total, packed := PackMedium(buf, size, msg);
    separate := |msg| > 0 && !packed;
    if separate {
      ghost var before := buf[..];
      PutField(buf, 3, ToWord(tag));
      TagKeepsHead(before, buf[..], handler, |msg|, args);
      WordsOfPrefix(buf[..], 4 * size);
    }
    packet := buf[..4 * total];
    SliceOfPrefix(buf[..], 4 * total, 0, 4 * size);
    if packed {
      SliceOfPrefix(buf[..], 4 * total, 4 * size, 4 * size + |msg|);
    }
  }

  lemma SliceOfPrefix(b: seq<byte>, n: nat, i: nat, j: nat)
    requires i <= j <= n <= |b|
    ensures b[..n][i..j] == b[i..j]
  {
  }

  method PutMediumHead(buf: array<byte>, handler: word, len: nat, args: seq<int32>) returns (size: nat)
    requires buf.Length == 4 * AM_BUF_MAX && |args| <= 16
    modifies buf
    ensures size == ARG_START_MEDIUM + |args| && MediumHead(buf[..4 * size], handler, len, args)
  {
    PutLengthHeader(buf, |args| + AM_MEDIUM_BASE, handler, len);
    size := CopyShort(buf, ARG_START_MEDIUM, args);
    WordsOfPrefix(buf[..], 4 * size);
  }

  /** Word 3 is not part of the head: it stays free for the tag. */
  lemma TagKeepsHead(was: seq<byte>, b: seq<byte>, handler: word, len: nat, args: seq<int32>)
    requires |was| == |b| == 4 * AM_BUF_MAX && |args| <= 16
    requires MediumHead(was[..4 * (ARG_START_MEDIUM + |args|)], handler, len, args)
    requires forall j: nat :: j < AM_BUF_MAX && j != 3 ==> WordAt(b, j) == WordAt(was, j)
    ensures MediumHead(b[..4 * (ARG_START_MEDIUM + |args|)], handler, len, args)
  {
    var n := 4 * (ARG_START_MEDIUM + |args|);
    WordsOfPrefix(was, n);
    WordsOfPrefix(b, n);
    forall k | 0 <= k < |args|
      ensures WordAt(b[..n], ARG_START_MEDIUM + k) == ToWord(args[k])
    {
      assert WordAt(was[..n], ARG_START_MEDIUM + k) == ToWord(args[k]);
    }
  }

  /** The bytes themselves were put at offset `dst` of the target's window before. */
  method SendLong(handler: word, len: nat, dst: nat, args: seq<int32>) returns (packet: seq<byte>)
    requires |args| <= 16
    ensures LongPacket(packet, handler, len, dst, args)
  {
    var buf := new byte[4 * AM_BUF_MAX];
    PutLongHeader(buf, |args| + AM_LONG_BASE, handler, len, dst);
    ghost var header := buf[..];
    var size := CopyShort(buf, ARG_START_MEDIUM, args);
    packet := buf[..4 * size];
    LongPrefix(header, buf[..], handler, len, dst, args);
  }

  method PutLongHeader(buf: array<byte>, t: word, handler: word, len: nat, dst: nat)
    requires buf.Length == 4 * AM_BUF_MAX
    modifies buf
    ensures LongHeader(buf[..], t, handler, len, dst)
  {
    PutLengthHeader(buf, t, handler, len);
    PutField(buf, 3, ToWord(dst));
  }

  predicate LongHeader(b: seq<byte>, t: word, handler: word, len: nat, dst: nat)
    requires |b| == 4 * AM_BUF_MAX
  {
    WordAt(b, 0) == t && WordAt(b, 1) == handler && WordAt(b, 2) == ToWord(len) && WordAt(b, 3) == ToWord(dst)
  }

  lemma LongPrefix(header: seq<byte>, b: seq<byte>, handler: word, len: nat, dst: nat, args: seq<int32>)
    requires |header| == |b| == 4 * AM_BUF_MAX && |args| <= 16
    requires LongHeader(header, |args| + AM_LONG_BASE, handler, len, dst) && Kept(header, b, 0, ARG_START_MEDIUM)
    requires HasArgs(b, ARG_START_MEDIUM, args)
    ensures LongPacket(b[..4 * (ARG_START_MEDIUM + |args|)], handler, len, dst, args)
  {
    var n := 4 * (ARG_START_MEDIUM + |args|);
    WordsOfPrefix(b, n);
    SmallWord(|args| + AM_LONG_BASE);
    forall j: nat | j < ARG_START_MEDIUM
      ensures WordAt(b[..n], j) == WordAt(header, j)
    {
      assert WordAt(b, j) == WordAt(header, j);
    }
    forall k | 0 <= k < |args|
      ensures WordAt(b[..n], ARG_START_MEDIUM + k) == ToWord(args[k])
    {
      assert WordAt(b, ARG_START_MEDIUM + k) == ToWord(args[k]);
    }
  }

  // ---------------------------------------------------------------------------------------
  // Receiving

  function Args(b: seq<byte>, at: nat, n: nat): seq<int>
    requires 4 * (at + n) <= |b|
  {
    seq(n, k requires 0 <= k < n => ToInt(WordAt(b, at + k)))
  }

  /** What the receiver makes of the contents of its buffer. */
  function Decode(b: seq<byte>): Call
    requires |b| == 4 * AM_BUF_MAX
  {
    var t, fn := WordAt(b, 0), WordAt(b, 1);
    if t < AM_MEDIUM_BASE then
      if 1 <= t <= 16 then ShortCall(fn, Args(b, ARG_START_SHORT, t)) else Die
    else if t < AM_LONG_BASE then
      var n := t - AM_MEDIUM_BASE;
      var len := ToInt(WordAt(b, 2));
      if !(1 <= n <= 16) then Die else
        MediumCall(fn, Args(b, ARG_START_MEDIUM, n), len, PayloadOf(b, ARG_START_MEDIUM + n, len))
    else
      var n := t - AM_LONG_BASE;
      if 1 <= n <= 16 then LongCall(fn, Args(b, ARG_START_MEDIUM, n), ToInt(WordAt(b, 2)), WordAt(b, 3)) else Die
  }

  /** Where the payload of a medium message is, if header and arguments take `size` words. */
  function PayloadOf(b: seq<byte>, size: nat, len: int): Payload
    requires |b| == 4 * AM_BUF_MAX
  {
    if len <= 0 then Inline([])
    else if len < (AM_BUF_MAX - size) * 4 then Inline(b[4 * size..4 * size + len])
    else FromMessage(ToInt(WordAt(b, 3)))
  }

  /** `run_am` and the two dispatchers; it overwrites word 0 with the number of arguments. */
  method RunAm(buf: array<byte>) returns (call: Call)
    requires buf.Length == 4 * AM_BUF_MAX
    modifies buf
    ensures call == Decode(old(buf[..]))
  {
    var t := WordAt(buf[..], 0);
    if t < AM_MEDIUM_BASE {
      call := RunShort(buf);
    } else if t < AM_LONG_BASE {
      call := RunMedium(buf);
    } else {
      call := RunLong(buf);
    }
  }

  method RunShort(buf: array<byte>) returns (call: Call)
    requires buf.Length == 4 * AM_BUF_MAX && WordAt(buf[..], 0) < AM_MEDIUM_BASE
    ensures call == Decode(buf[..])
  {
    var t, fn := WordAt(buf[..], 0), WordAt(buf[..], 1);
    if !(1 <= t <= 16) { return Die; }
    var args := ReadArgs(buf, ARG_START_SHORT, t);
    call := ShortCall(fn, args);
  }

  method RunMedium(buf: array<byte>) returns (call: Call)
    requires buf.Length == 4 * AM_BUF_MAX && AM_MEDIUM_BASE <= WordAt(buf[..], 0) < AM_LONG_BASE
    modifies buf
    ensures call == Decode(old(buf[..]))
  {
    var t, fn, len := WordAt(buf[..], 0), WordAt(buf[..], 1), ToInt(WordAt(buf[..], 2));
    var size := ARG_START_MEDIUM + t - AM_MEDIUM_BASE;
    var payload := ReadPayload(buf, size, len);
    PutField(buf, 0, t - AM_MEDIUM_BASE);
    var n := WordAt(buf[..], 0);
    if !(1 <= n <= 16) { return Die; }
    var args := ReadArgs(buf, ARG_START_MEDIUM, n);
    call := MediumCall(fn, args, len, payload);
  }

  method ReadPayload(buf: array<byte>, size: nat, len: int) returns (payload: Payload)
    requires buf.Length == 4 * AM_BUF_MAX
    ensures payload == PayloadOf(buf[..], size, len)
  {
    payload := Inline([]);
    if len > 0 {
      var room := (AM_BUF_MAX - size) * 4;
      if len < room {
        payload := Inline(buf[4 * size..4 * size + len]);
      } else {
        payload := FromMessage(ToInt(WordAt(buf[..], 3)));
      }
    }
  }

  method RunLong(buf: array<byte>) returns (call: Call)
    requires buf.Length == 4 * AM_BUF_MAX && AM_LONG_BASE <= WordAt(buf[..], 0)
    modifies buf
    ensures call == Decode(old(buf[..]))
  {
    var t, fn := WordAt(buf[..], 0), WordAt(buf[..], 1);
    var len, offset := ToInt(WordAt(buf[..], 2)), WordAt(buf[..], 3);
    PutField(buf, 0, t - AM_LONG_BASE);
    var n := WordAt(buf[..], 0);
    if !(1 <= n <= 16) { return Die; }
    var args := ReadArgs(buf, ARG_START_MEDIUM, n);
    call := LongCall(fn, args, len, offset);
  }

  method ReadArgs(buf: array<byte>, at: nat, n: nat) returns (args: seq<int>)
    requires buf.Length == 4 * AM_BUF_MAX && at + n <= AM_BUF_MAX
    ensures args == Args(buf[..], at, n)
  {
    args := [];
    for k := 0 to n
      invariant args == Args(buf[..], at, k)
    {
      args := args + [ToInt(WordAt(buf[..], at + k))];
    }
  }

  // ---------------------------------------------------------------------------------------
  // Round trips. `rest` is what the receiver's buffer held behind the packet.

  lemma ArgsSurvive(p: seq<byte>, rest: seq<byte>, at: nat, args: seq<int32>)
    requires 4 * (at + |args|) <= |p| && HasArgs(p, at, args)
    ensures Args(p + rest, at, |args|) == args
  {
    forall k | 0 <= k < |args|
      ensures Args(p + rest, at, |args|)[k] == args[k]
    {
      assert WordAt(p + rest, at + k) == WordAt(p, at + k) == ToWord(args[k]);
      IntSurvives(args[k]);
    }
  }

  lemma ShortRoundTrip(p: seq<byte>, rest: seq<byte>, handler: word, args: seq<int32>)
    requires ShortPacket(p, handler, args) && |args| <= 16 && |p + rest| == 4 * AM_BUF_MAX
    ensures Decode(p + rest) == if |args| >= 1 then ShortCall(handler, args) else Die
  {
    ArgsSurvive(p, rest, ARG_START_SHORT, args);
    SmallWord(|args|);
    WordsOfPrefix(p + rest, |p|);
    assert (p + rest)[..|p|] == p;
  }

  /** What the handler gets: the length it is told, and the bytes, if a separate message is `sent`. */
  function Delivered(payload: Payload, tag: int, sent: seq<byte>): Option<seq<byte>> {
    match payload
    case Inline(bytes) => Some(bytes)
    case FromMessage(t) => if t == tag then Some(sent) else None
  }

  lemma HeadSurvives(p: seq<byte>, rest: seq<byte>, handler: word, len: nat, args: seq<int32>)
    requires 4 * (ARG_START_MEDIUM + |args|) <= |p|
    requires MediumHead(p[..4 * (ARG_START_MEDIUM + |args|)], handler, len, args)
    ensures WordAt(p + rest, 0) == ToWord(|args| + AM_MEDIUM_BASE) && WordAt(p + rest, 1) == handler
    ensures WordAt(p + rest, 2) == ToWord(len) && Args(p + rest, ARG_START_MEDIUM, |args|) == args
  {
    var head := 4 * (ARG_START_MEDIUM + |args|);
    assert p + rest == p[..head] + (p[head..] + rest);
    ArgsSurvive(p[..head], p[head..] + rest, ARG_START_MEDIUM, args);
    WordsOfPrefix(p + rest, head);
    assert (p + rest)[..head] == p[..head];
  }

  /** The receiver's decision, from the header alone, is the sender's. */
  lemma SameDecision(b: seq<byte>, n: nat, len: nat)
    requires |b| == 4 * AM_BUF_MAX && 1 <= n <= 16 && len < 0x8000_0000
    requires WordAt(b, 0) == ToWord(n + AM_MEDIUM_BASE) && WordAt(b, 2) == ToWord(len)
    ensures Decode(b) == MediumCall(WordAt(b, 1), Args(b, ARG_START_MEDIUM, n), len,
                                    PayloadOf(b, ARG_START_MEDIUM + n, len))
    ensures PayloadOf(b, ARG_START_MEDIUM + n, len).FromMessage? <==> len > 0 && !Inlined(n, len)
  {
    IntSurvives(len);
    SmallWord(n + AM_MEDIUM_BASE);
  }

  lemma BodySurvives(p: seq<byte>, rest: seq<byte>, handler: word, msg: seq<byte>, tag: int32, args: seq<int32>)
    requires MediumPacket(p, handler, msg, tag, args) && |p + rest| == 4 * AM_BUF_MAX && |args| <= 16
    ensures WordAt(p + rest, 3) == WordAt(p, 3)
    ensures var head := 4 * (ARG_START_MEDIUM + |args|);
            Inlined(|args|, |msg|) ==> (p + rest)[head..head + |msg|] == msg
  {
    var head := 4 * (ARG_START_MEDIUM + |args|);
    if Inlined(|args|, |msg|) {
      assert (p + rest)[head..head + |msg|] == p[head..head + |msg|];
    }
  }

  /** Inline or under its tag, the handler gets the message. */
  lemma PayloadSurvives(p: seq<byte>, rest: seq<byte>, handler: word, msg: seq<byte>, tag: int32, args: seq<int32>)
    requires MediumPacket(p, handler, msg, tag, args) && |args| <= 16 && |p + rest| == 4 * AM_BUF_MAX
    ensures Delivered(PayloadOf(p + rest, ARG_START_MEDIUM + |args|, |msg|), tag, msg) == Some(msg)
  {
    BodySurvives(p, rest, handler, msg, tag, args);
    IntSurvives(tag);
  }

  /** For messages below 2 GB the receiver takes the sender's decision, and the handler gets the sender's bytes. */
  lemma MediumRoundTrip(p: seq<byte>, rest: seq<byte>, handler: word, msg: seq<byte>, tag: int32, args: seq<int32>)
    requires MediumPacket(p, handler, msg, tag, args) && 1 <= |args| <= 16 && |p + rest| == 4 * AM_BUF_MAX
    requires |msg| < 0x8000_0000
    ensures var call := Decode(p + rest);
            && call.MediumCall? && call.handler == handler && call.args == args && call.len == |msg|
            && (call.payload.FromMessage? <==> |msg| > 0 && !Inlined(|args|, |msg|))
            && Delivered(call.payload, tag, msg) == Some(msg)
  {
    HeadSurvives(p, rest, handler, |msg|, args);
    SameDecision(p + rest, |args|, |msg|);
    PayloadSurvives(p, rest, handler, msg, tag, args);
  }

  lemma LengthRead(b: seq<byte>, n: nat, len: nat)
    requires |b| == 4 * AM_BUF_MAX && 1 <= n <= 16
    requires WordAt(b, 0) == ToWord(n + AM_MEDIUM_BASE) && WordAt(b, 2) == ToWord(len)
    ensures Decode(b).MediumCall? && Decode(b).len == ToInt(ToWord(len))
  {
  }

  /** And only for those: the length is sent as a signed 32-bit number. */
  lemma MediumLengthSurvivesIff(p: seq<byte>, rest: seq<byte>, handler: word, msg: seq<byte>, tag: int32,
                                args: seq<int32>)
    requires MediumPacket(p, handler, msg, tag, args) && 1 <= |args| <= 16 && |p + rest| == 4 * AM_BUF_MAX
    ensures Decode(p + rest).MediumCall?
    ensures Decode(p + rest).len == |msg| <==> |msg| < 0x8000_0000
  {
    HeadSurvives(p, rest, handler, |msg|, args);
    LengthRead(p + rest, |args|, |msg|);
    if |msg| < 0x8000_0000 { IntSurvives(|msg|); }
  }

  lemma DecodeLong(b: seq<byte>, n: nat)
    requires |b| == 4 * AM_BUF_MAX && 1 <= n <= 16 && WordAt(b, 0) == n + AM_LONG_BASE
    ensures Decode(b) == LongCall(WordAt(b, 1), Args(b, ARG_START_MEDIUM, n), ToInt(WordAt(b, 2)), WordAt(b, 3))
  {
  }

  /** A long message's handler is pointed at its bytes exactly when their offset has 32 bits and their length 31. */
  lemma LongRoundTrip(p: seq<byte>, rest: seq<byte>, handler: word, len: nat, dst: nat, args: seq<int32>)
    requires LongPacket(p, handler, len, dst, args) && 1 <= |args| <= 16 && |p + rest| == 4 * AM_BUF_MAX
    ensures Decode(p + rest) == LongCall(handler, args, ToInt(ToWord(len)), dst % 0x1_0000_0000)
    ensures Decode(p + rest) == LongCall(handler, args, len, dst) <==> dst < 0x1_0000_0000 && len < 0x8000_0000
  {
    ArgsSurvive(p, rest, ARG_START_MEDIUM, args);
    SmallWord(|args| + AM_LONG_BASE);
    WordsOfPrefix(p + rest, |p|);
    assert (p + rest)[..|p|] == p;
    DecodeLong(p + rest, |args|);
  }

  /** As for a short message: without arguments a packet of either kind is fatal to the receiver. */
  lemma MediumNeedsArguments(p: seq<byte>, rest: seq<byte>, handler: word, msg: seq<byte>, tag: int32)
    requires MediumPacket(p, handler, msg, tag, []) && |p + rest| == 4 * AM_BUF_MAX
    ensures Decode(p + rest) == Die
  {
    HeadSurvives(p, rest, handler, |msg|, []);
    SmallWord(AM_MEDIUM_BASE);
  }

  lemma LongNeedsArguments(p: seq<byte>, rest: seq<byte>, handler: word, len: nat, dst: nat)
    requires LongPacket(p, handler, len, dst, []) && |p + rest| == 4 * AM_BUF_MAX
    ensures Decode(p + rest) == Die
  {
    WordsOfPrefix(p + rest, |p|);
    assert (p + rest)[..|p|] == p;
    SmallWord(AM_LONG_BASE);
  }
}
