/** Little-endian words in a sequence of bytes. */
module PackBytes {

  type Byte = x: int | 0 <= x < 256

  const WORD: nat := 4
  const UINT32_RANGE: nat := 0x1_0000_0000

  /** The bytes of a word; a larger number is truncated to one. */
  function Word(x: nat): (w: seq<Byte>)
    ensures |w| == WORD
  {
    [x % 256, x / 256 % 256, x / 256 / 256 % 256, x / 256 / 256 / 256 % 256]
  }

  function ReadWord(bytes: seq<Byte>, at: nat): (x: nat)
    requires at + WORD <= |bytes|
    ensures x < UINT32_RANGE
  {
    bytes[at] as int + 256 * (bytes[at + 1] as int) + 65536 * (bytes[at + 2] as int) + 16777216 * (bytes[at + 3] as int)
  }

  /** The low byte comes first. */
  lemma LowByteFirst(x: nat)
    requires x < UINT32_RANGE
    ensures var w := Word(x);
            w[0] as int + 256 * w[1] as int + 256 * 256 * w[2] as int + 256 * 256 * 256 * w[3] as int == x
  {
    var q1 := x / 256;
    var q2 := q1 / 256;
    assert x == x % 256 + 256 * q1 && q1 == q1 % 256 + 256 * q2 && q2 == q2 % 256 + 256 * (q2 / 256);
  }

  lemma ReadsBack(x: nat)
    ensures ReadWord(Word(x), 0) == x % UINT32_RANGE
  {
    var q1 := x / 256;
    var q2 := q1 / 256;
    var q3 := q2 / 256;
    var q4 := q3 / 256;
    assert x == UINT32_RANGE * q4 + ReadWord(Word(x), 0);
  }

  lemma ReadWordInside(bytes: seq<Byte>, at: nat, x: nat)
    requires at + WORD <= |bytes| && bytes[at..at + WORD] == Word(x)
    ensures ReadWord(bytes, at) == x % UINT32_RANGE
  {
    hide Word;
    ReadsBack(x);
    var w := bytes[at..at + WORD];
    assert bytes[at] == w[0] && bytes[at + 1] == w[1] && bytes[at + 2] == w[2] && bytes[at + 3] == w[3];
  }

  lemma WordTruncates(x: nat)
    ensures Word(x % UINT32_RANGE) == Word(x)
  {
    var q, y := x / UINT32_RANGE, x % UINT32_RANGE;
    assert x == y + 256 * (16777216 * q);
    assert x / 256 == y / 256 + 256 * (65536 * q);
    assert x / 256 / 256 == y / 256 / 256 + 256 * (256 * q);
    assert x / 256 / 256 / 256 == y / 256 / 256 / 256 + 256 * q;
  }
}
