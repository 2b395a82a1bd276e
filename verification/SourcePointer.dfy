/**
 The journey of a source pointer: split into two signed 32-bit arguments by the sender of a long
 message, read back as one 64-bit field by the receiver, split again for the reply that releases the
 span, and joined by the handler of that reply.
 */
module SourcePointer {
  import opened Bytes
  import opened Words

  type pointer = x: int | 0 <= x < 0x1_0000_0000_0000_0000

  /** `send_long`: the low half is masked, the high half shifted; both become signed. */
  function SplitForMessage(p: pointer): (int32, int32) {
    (ToInt(ToWord(p)), ToInt(p / 0x1_0000_0000))
  }

  /** The two arguments as they lie in the receiver's union of words and typed arguments. */
  function InMemory(lo: int32, hi: int32): (b: seq<byte>)
    ensures |b| == 8
  {
    WordBytes(ToWord(lo)) + WordBytes(ToWord(hi))
  }

  /** The same eight bytes read as the message's `srcptr` field. */
  function FieldAt(b: seq<byte>): pointer
    requires |b| == 8
  {
    WordAt(b, 0) + 0x1_0000_0000 * WordAt(b, 1)
  }

  /** `send_srcptr_release`: both halves by conversion. */
  function SplitForReply(p: pointer): (int32, int32) {
    (ToInt(ToWord(p)), ToInt(ToWord(p / 0x1_0000_0000)))
  }

  /** `release_srcptr_handler`: the casts to unsigned keep the low half's sign out of the high half. */
  function Joined(arg0: int32, arg1: int32): pointer {
    var lo: word, hi: word := ToWord(arg0), ToWord(arg1);
    0x1_0000_0000 * hi + lo
  }

  lemma WordSurvives(w: word)
    ensures ToWord(ToInt(w)) == w
  {
  }

  lemma TwoWords(a: word, b: word)
    ensures WordAt(WordBytes(a) + WordBytes(b), 0) == a && WordAt(WordBytes(a) + WordBytes(b), 1) == b
  {
    WordFromBytes(a);
    WordFromBytes(b);
  }

  /** The span that is released is the span that was sent; 0, "no span", stays 0 and nothing else becomes 0. */
  lemma PointerSurvives(p: pointer)
    ensures var sent := SplitForMessage(p);
            var field := FieldAt(InMemory(sent.0, sent.1));
            var reply := SplitForReply(field);
            field == p && Joined(reply.0, reply.1) == p
  {
    MessageSurvives(p);
    ReplySurvives(p);
  }

  lemma MessageSurvives(p: pointer)
    ensures var (lo, hi) := SplitForMessage(p); FieldAt(InMemory(lo, hi)) == p
  {
    var lo: word, hi: word := ToWord(p), p / 0x1_0000_0000;
    WordSurvives(lo);
    WordSurvives(hi);
    TwoWords(lo, hi);
  }

  lemma ReplySurvives(p: pointer)
    ensures var (lo, hi) := SplitForReply(p); Joined(lo, hi) == p
  {
    WordSurvives(ToWord(p));
    WordSurvives(ToWord(p / 0x1_0000_0000));
  }
}
