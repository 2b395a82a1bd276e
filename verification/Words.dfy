/** 32-bit words: signed, unsigned, and as bytes in memory. */
module Words {
  import opened Bytes

  type word = x: int | 0 <= x < 0x1_0000_0000
  type int32 = x: int | -0x8000_0000 <= x < 0x8000_0000

  /** Conversion to a 32-bit word: the low 32 bits. */
  function ToWord(x: int): word {
    x % 0x1_0000_0000
  }

  /** A word read as a signed integer. */
  function ToInt(w: word): int32 {
    if w < 0x8000_0000 then w else w - 0x1_0000_0000
  }

  /** A word as the machine stores it, least significant byte first. */
  function WordBytes(w: word): (r: seq<byte>)
    ensures |r| == 4
  {
    [w % 256, w / 256 % 256, w / 65536 % 256, w / 16777216]
  }

  function WordAt(b: seq<byte>, i: nat): word
    requires 4 * i + 4 <= |b|
  {
    var b0: int, b1: int, b2: int, b3: int := b[4 * i], b[4 * i + 1], b[4 * i + 2], b[4 * i + 3];
    b0 + 256 * b1 + 65536 * b2 + 16777216 * b3
  }

  lemma IntSurvives(x: int32)
    ensures ToInt(ToWord(x)) == x
  {
  }

  lemma WordFromBytes(w: word)
    ensures w % 256 + 256 * (w / 256 % 256) + 65536 * (w / 65536 % 256) + 16777216 * (w / 16777216) == w
  {
    var a, b := w / 256, w / 65536;
    assert w == 256 * a + w % 256;
    assert b == a / 256 && a == 256 * b + a % 256;
    assert w / 16777216 == b / 256 && b == 256 * (b / 256) + b % 256;
  }

  lemma SmallWord(x: nat)
    requires x < 0x1_0000_0000
    ensures ToWord(x) == x
  {
  }
}
