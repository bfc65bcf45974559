/** Bytes and little-endian 32-bit words. A 32-bit float is carried as its bit pattern. */
module Bytes {

  type Byte = b: int | 0 <= b < 256

  const WORD_LIMIT: int := 0x1_0000_0000

  type Word = w: int | 0 <= w < WORD_LIMIT

  /** `to_le_bytes`. */
  function ToLe(w: Word): (s: seq<Byte>)
    ensures |s| == 4
  {
    [w % 256, w / 256 % 256, w / 65536 % 256, w / 16777216]
  }

  /** `from_le_bytes`. */
  function FromLe(b0: Byte, b1: Byte, b2: Byte, b3: Byte): Word {
    b0 + 256 * b1 + 65536 * b2 + 16777216 * b3
  }

  /** `from_le_bytes` of a four-byte slice. */
  function WordOf(s: seq<Byte>): Word
    requires |s| == 4
  {
    FromLe(s[0], s[1], s[2], s[3])
  }

  lemma WordOfInvertsToLe(w: Word)
    ensures WordOf(ToLe(w)) == w
  {
    FromLeInvertsToLe(w);
  }

  lemma ToLeInvertsWordOf(s: seq<Byte>)
    requires |s| == 4
    ensures ToLe(WordOf(s)) == s
  {
    ToLeInvertsFromLe(s[0], s[1], s[2], s[3]);
  }

  lemma FromLeInvertsToLe(w: Word)
    ensures FromLe(ToLe(w)[0], ToLe(w)[1], ToLe(w)[2], ToLe(w)[3]) == w
  {
    assert w / 65536 == w / 256 / 256 && w / 16777216 == w / 65536 / 256;
  }

  lemma ToLeInvertsFromLe(b0: Byte, b1: Byte, b2: Byte, b3: Byte)
    ensures ToLe(FromLe(b0, b1, b2, b3)) == [b0, b1, b2, b3]
  {
    var w := FromLe(b0, b1, b2, b3);
    assert w / 256 == b1 + 256 * b2 + 65536 * b3;
    assert w / 65536 == b2 + 256 * b3;
  }

  /** The low byte comes first. */
  lemma LowByteFirst(b0: Byte, b1: Byte, b2: Byte, b3: Byte)
    ensures var w := b0 + b1 * 0x100 + b2 * 0x1_0000 + b3 * 0x100_0000;
            w < WORD_LIMIT && ToLe(w) == [b0, b1, b2, b3] && WordOf([b0, b1, b2, b3]) == w
  {
    ToLeInvertsFromLe(b0, b1, b2, b3);
  }

  function ToLeAll(ws: seq<Word>): (s: seq<Byte>)
    ensures |s| == 4 * |ws|
  {
    if ws == [] then [] else ToLe(ws[0]) + ToLeAll(ws[1..])
  }

  function FromLeAll(s: seq<Byte>): (ws: seq<Word>)
    requires |s| % 4 == 0
    ensures |ws| == |s| / 4
  {
    if s == [] then [] else [FromLe(s[0], s[1], s[2], s[3])] + FromLeAll(s[4..])
  }

  lemma {:induction false} FromLeAllInvertsToLeAll(ws: seq<Word>)
    ensures FromLeAll(ToLeAll(ws)) == ws
  {
    if ws != [] {
      FromLeInvertsToLe(ws[0]);
      FromLeAllInvertsToLeAll(ws[1..]);
      assert ToLeAll(ws)[4..] == ToLeAll(ws[1..]);
    }
  }

  lemma {:induction false} ToLeAllInvertsFromLeAll(s: seq<Byte>)
    requires |s| % 4 == 0
    ensures ToLeAll(FromLeAll(s)) == s
  {
    if s != [] {
      ToLeInvertsFromLe(s[0], s[1], s[2], s[3]);
      ToLeAllInvertsFromLeAll(s[4..]);
      assert FromLeAll(s)[1..] == FromLeAll(s[4..]);
      assert s == [s[0], s[1], s[2], s[3]] + s[4..];
    }
  }

  lemma {:induction false} FromLeAllAt(s: seq<Byte>, j: nat)
    requires |s| % 4 == 0 && j < |s| / 4
    ensures FromLeAll(s)[j] == WordOf(s[4 * j..4 * j + 4])
  {
    if j > 0 {
      FromLeAllAt(s[4..], j - 1);
      assert s[4..][4 * (j - 1)..4 * (j - 1) + 4] == s[4 * j..4 * j + 4];
    }
  }
}
