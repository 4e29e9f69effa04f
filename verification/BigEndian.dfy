/** Bytes and big-endian fields. */
module BigEndian {

  type byte = b: int | 0 <= b < 0x100
  type Bytes = seq<byte>

  const U16: int := 0x1_0000
  const U32: int := 0x1_0000_0000

  function Word(hi: int, lo: int): int {
    hi * 0x100 + lo
  }

  /** The two bytes of a 16-bit number, the less significant one first. */
  function B0(v: int): byte { v % 0x100 }
  function B1(v: int): byte { v / 0x100 % 0x100 }

  /** The two halves of a 32-bit number. */
  function Hi(v: int): int { v / U16 }
  function Lo(v: int): int { v % U16 }

  function Be16(v: int): (b: Bytes)
    ensures |b| == 2
  {
    [B1(v), B0(v)]
  }

  function Be32(v: int): (b: Bytes)
    ensures |b| == 4
  {
    [B1(Hi(v)), B0(Hi(v)), B1(Lo(v)), B0(Lo(v))]
  }

  /** The two bytes of a 16-bit number make it up again. */
  lemma WordOfBytes(v: int)
    requires 0 <= v < U16
    ensures Word(B1(v), B0(v)) == v
  {
  }

  /** A word has exactly its two bytes. */
  lemma BytesOfWord(v: int, hi: byte, lo: byte)
    requires v == Word(hi, lo)
    ensures 0 <= v < U16 && Be16(v) == [hi, lo]
  {
  }

  lemma TwoWords(hi: int, lo: int)
    requires 0 <= hi < U16 && 0 <= lo < U16
    ensures Word(B1(hi), B0(hi)) * U16 + Word(B1(lo), B0(lo)) == hi * U16 + lo
  {
    WordOfBytes(hi);
    WordOfBytes(lo);
  }

  lemma TwoHalves(v: int)
    requires 0 <= v < U32
    ensures 0 <= Hi(v) < U16 && 0 <= Lo(v) < U16 && Hi(v) * U16 + Lo(v) == v
  {
  }
}
