/** Bytes, and the words of several bytes that travel in network byte order. */
module Bytes {

  type Byte = b: int | 0 <= b < 0x100

  type Word = w: int | 0 <= w < 0x1_0000_0000

  /** The four octets of a 32-bit word, most significant first. */
  function ToNetwork(w: Word): (s: seq<Byte>)
    ensures |s| == 4
  {
    [w / 0x100 / 0x100 / 0x100, w / 0x100 / 0x100 % 0x100, w / 0x100 % 0x100, w % 0x100]
  }

  /** The 32-bit word whose octets, most significant first, are s. */
  function FromNetwork(s: seq<Byte>): Word
    requires |s| == 4
  {
    var a: int, b: int, c: int, d: int := s[0], s[1], s[2], s[3];
    0x100 * (0x100 * (0x100 * a + b) + c) + d
  }

  lemma NetworkRoundTrip(w: Word)
    ensures FromNetwork(ToNetwork(w)) == w
  {
    var x: int, y: int := w / 0x100, w / 0x100 / 0x100;
    assert w == 0x100 * x + w % 0x100;
    assert x == 0x100 * y + x % 0x100;
    assert y == 0x100 * (y / 0x100) + y % 0x100;
  }

  /** The first octet weighs most. */
  lemma OctetsWeigh(w: Word)
    ensures ToNetwork(w)[0] as int * 0x100_0000 + ToNetwork(w)[1] as int * 0x1_0000
          + ToNetwork(w)[2] as int * 0x100 + ToNetwork(w)[3] as int == w
  {
    var x: int, y: int := w / 0x100, w / 0x100 / 0x100;
    assert w == 0x100 * x + w % 0x100;
    assert x == 0x100 * y + x % 0x100;
    assert y == 0x100 * (y / 0x100) + y % 0x100;
  }
}
