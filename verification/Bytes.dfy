/** Octets and big-endian pairs of them. */
module Bytes {
  type Byte = x: int | 0 <= x < 256

  function Word(hi: Byte, lo: Byte): (w: nat)
    ensures w < 0x1_0000
  {
    var h: int, l: int := hi, lo;
    256 * h + l
  }

  lemma WordParts(n: nat)
    requires n < 0x1_0000
    ensures Word(n / 256, n % 256) == n
  {}

  lemma PartsOfWord(hi: Byte, lo: Byte)
    ensures Word(hi, lo) / 256 == hi && Word(hi, lo) % 256 == lo
  {}

  function Zeros(n: nat): (z: seq<Byte>)
    ensures |z| == n
  {
    seq(n, _ => 0)
  }

  /** Zero octets up to the next multiple of four. */
  function Padding(n: nat): (p: seq<Byte>)
    ensures |p| < 4 && (n + |p|) % 4 == 0
  {
    Zeros((4 - n % 4) % 4)
  }
}
