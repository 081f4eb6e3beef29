/** The header check byte: a reflected CRC-8 with polynomial x^8 + x^5 + x^4 + 1 (0x8C when bit 0 is
    the highest power), started at 0x77 and computed through a table of 256 entries. */
module Crc {
  import opened Bytes
  import opened LinearRegister

  const CRC8_INIT: bv8 := 0x77

  const CRC8_ROW_0: seq<bv8> := [0x00, 0x5e, 0xbc, 0xe2, 0x61, 0x3f, 0xdd, 0x83, 0xc2, 0x9c, 0x7e, 0x20, 0xa3, 0xfd, 0x1f, 0x41]
  const CRC8_ROW_1: seq<bv8> := [0x9d, 0xc3, 0x21, 0x7f, 0xfc, 0xa2, 0x40, 0x1e, 0x5f, 0x01, 0xe3, 0xbd, 0x3e, 0x60, 0x82, 0xdc]
  const CRC8_ROW_2: seq<bv8> := [0x23, 0x7d, 0x9f, 0xc1, 0x42, 0x1c, 0xfe, 0xa0, 0xe1, 0xbf, 0x5d, 0x03, 0x80, 0xde, 0x3c, 0x62]
  const CRC8_ROW_3: seq<bv8> := [0xbe, 0xe0, 0x02, 0x5c, 0xdf, 0x81, 0x63, 0x3d, 0x7c, 0x22, 0xc0, 0x9e, 0x1d, 0x43, 0xa1, 0xff]
  const CRC8_ROW_4: seq<bv8> := [0x46, 0x18, 0xfa, 0xa4, 0x27, 0x79, 0x9b, 0xc5, 0x84, 0xda, 0x38, 0x66, 0xe5, 0xbb, 0x59, 0x07]
  const CRC8_ROW_5: seq<bv8> := [0xdb, 0x85, 0x67, 0x39, 0xba, 0xe4, 0x06, 0x58, 0x19, 0x47, 0xa5, 0xfb, 0x78, 0x26, 0xc4, 0x9a]
  const CRC8_ROW_6: seq<bv8> := [0x65, 0x3b, 0xd9, 0x87, 0x04, 0x5a, 0xb8, 0xe6, 0xa7, 0xf9, 0x1b, 0x45, 0xc6, 0x98, 0x7a, 0x24]
  const CRC8_ROW_7: seq<bv8> := [0xf8, 0xa6, 0x44, 0x1a, 0x99, 0xc7, 0x25, 0x7b, 0x3a, 0x64, 0x86, 0xd8, 0x5b, 0x05, 0xe7, 0xb9]
  const CRC8_ROW_8: seq<bv8> := [0x8c, 0xd2, 0x30, 0x6e, 0xed, 0xb3, 0x51, 0x0f, 0x4e, 0x10, 0xf2, 0xac, 0x2f, 0x71, 0x93, 0xcd]
  const CRC8_ROW_9: seq<bv8> := [0x11, 0x4f, 0xad, 0xf3, 0x70, 0x2e, 0xcc, 0x92, 0xd3, 0x8d, 0x6f, 0x31, 0xb2, 0xec, 0x0e, 0x50]
  const CRC8_ROW_A: seq<bv8> := [0xaf, 0xf1, 0x13, 0x4d, 0xce, 0x90, 0x72, 0x2c, 0x6d, 0x33, 0xd1, 0x8f, 0x0c, 0x52, 0xb0, 0xee]
  const CRC8_ROW_B: seq<bv8> := [0x32, 0x6c, 0x8e, 0xd0, 0x53, 0x0d, 0xef, 0xb1, 0xf0, 0xae, 0x4c, 0x12, 0x91, 0xcf, 0x2d, 0x73]
  const CRC8_ROW_C: seq<bv8> := [0xca, 0x94, 0x76, 0x28, 0xab, 0xf5, 0x17, 0x49, 0x08, 0x56, 0xb4, 0xea, 0x69, 0x37, 0xd5, 0x8b]
  const CRC8_ROW_D: seq<bv8> := [0x57, 0x09, 0xeb, 0xb5, 0x36, 0x68, 0x8a, 0xd4, 0x95, 0xcb, 0x29, 0x77, 0xf4, 0xaa, 0x48, 0x16]
  const CRC8_ROW_E: seq<bv8> := [0xe9, 0xb7, 0x55, 0x0b, 0x88, 0xd6, 0x34, 0x6a, 0x2b, 0x75, 0x97, 0xc9, 0x4a, 0x14, 0xf6, 0xa8]
  const CRC8_ROW_F: seq<bv8> := [0x74, 0x2a, 0xc8, 0x96, 0x15, 0x4b, 0xa9, 0xf7, 0xb6, 0xe8, 0x0a, 0x54, 0xd7, 0x89, 0x6b, 0x35]

  function TableRow(i: bv8): (row: seq<bv8>)
    requires i < 0x10
    ensures |row| == 16
  {
    match i
    case 0x0 => CRC8_ROW_0
    case 0x1 => CRC8_ROW_1
    case 0x2 => CRC8_ROW_2
    case 0x3 => CRC8_ROW_3
    case 0x4 => CRC8_ROW_4
    case 0x5 => CRC8_ROW_5
    case 0x6 => CRC8_ROW_6
    case 0x7 => CRC8_ROW_7
    case 0x8 => CRC8_ROW_8
    case 0x9 => CRC8_ROW_9
    case 0xa => CRC8_ROW_A
    case 0xb => CRC8_ROW_B
    case 0xc => CRC8_ROW_C
    case 0xd => CRC8_ROW_D
    case 0xe => CRC8_ROW_E
    case _ => CRC8_ROW_F
  }

  /** Entry x of the table of 256: column x % 16 of row x / 16. */
  function TableEntry(x: bv8): bv8 {
    TableRow(x >> 4)[x & 0xf]
  }

  // ----- The shift register the table stands for -----

  /** One clock of the register: shift right, and feed the polynomial back when a 1 falls out. */
  function Clock(x: bv8): bv8 {
    if x & 1 == 1 then (x >> 1) ^ 0x8c else x >> 1
  }

  /** One octet's worth of clocks. */
  function Octet(x: bv8): bv8 {
    Clock(Clock(Clock(Clock(Clock(Clock(Clock(Clock(x))))))))
  }

  function Bits(s: seq<Byte>): (r: seq<bv8>)
    ensures |r| == |s|
  {
    seq(|s|, i requires 0 <= i < |s| => s[i] as bv8)
  }

  function XorOctet(x: bv8, y: bv8): bv8 {
    x ^ y
  }

  /** The register that runs eight clocks for each octet, and the one that runs one. */
  const PER_OCTET: Machine<bv8> := Machine(0, XorOctet, Octet)

  const PER_CLOCK: Machine<bv8> := Machine(0, XorOctet, Clock)

  /** The check byte of s: bit 0 of each octet first. */
  function Crc8(s: seq<Byte>): bv8 {
    Register(PER_OCTET, CRC8_INIT, Bits(s))
  }

  lemma Row0(x: bv8) requires x >> 4 == 0x0 ensures CRC8_ROW_0[x & 0xf] == Octet(x) {}
  lemma Row1(x: bv8) requires x >> 4 == 0x1 ensures CRC8_ROW_1[x & 0xf] == Octet(x) {}
  lemma Row2(x: bv8) requires x >> 4 == 0x2 ensures CRC8_ROW_2[x & 0xf] == Octet(x) {}
  lemma Row3(x: bv8) requires x >> 4 == 0x3 ensures CRC8_ROW_3[x & 0xf] == Octet(x) {}
  lemma Row4(x: bv8) requires x >> 4 == 0x4 ensures CRC8_ROW_4[x & 0xf] == Octet(x) {}
  lemma Row5(x: bv8) requires x >> 4 == 0x5 ensures CRC8_ROW_5[x & 0xf] == Octet(x) {}
  lemma Row6(x: bv8) requires x >> 4 == 0x6 ensures CRC8_ROW_6[x & 0xf] == Octet(x) {}
  lemma Row7(x: bv8) requires x >> 4 == 0x7 ensures CRC8_ROW_7[x & 0xf] == Octet(x) {}
  lemma Row8(x: bv8) requires x >> 4 == 0x8 ensures CRC8_ROW_8[x & 0xf] == Octet(x) {}
  lemma Row9(x: bv8) requires x >> 4 == 0x9 ensures CRC8_ROW_9[x & 0xf] == Octet(x) {}
  lemma RowA(x: bv8) requires x >> 4 == 0xa ensures CRC8_ROW_A[x & 0xf] == Octet(x) {}
  lemma RowB(x: bv8) requires x >> 4 == 0xb ensures CRC8_ROW_B[x & 0xf] == Octet(x) {}
  lemma RowC(x: bv8) requires x >> 4 == 0xc ensures CRC8_ROW_C[x & 0xf] == Octet(x) {}
  lemma RowD(x: bv8) requires x >> 4 == 0xd ensures CRC8_ROW_D[x & 0xf] == Octet(x) {}
  lemma RowE(x: bv8) requires x >> 4 == 0xe ensures CRC8_ROW_E[x & 0xf] == Octet(x) {}
  lemma RowF(x: bv8) requires x >> 4 == 0xf ensures CRC8_ROW_F[x & 0xf] == Octet(x) {}

  /** Looking up the table is eight clocks of the register, entry by entry. */
  lemma TableIsEightClocks(x: bv8)
    ensures TableEntry(x) == Octet(x)
  {
    if
    case x >> 4 == 0x0 => Row0(x);
    case x >> 4 == 0x1 => Row1(x);
    case x >> 4 == 0x2 => Row2(x);
    case x >> 4 == 0x3 => Row3(x);
    case x >> 4 == 0x4 => Row4(x);
    case x >> 4 == 0x5 => Row5(x);
    case x >> 4 == 0x6 => Row6(x);
    case x >> 4 == 0x7 => Row7(x);
    case x >> 4 == 0x8 => Row8(x);
    case x >> 4 == 0x9 => Row9(x);
    case x >> 4 == 0xa => RowA(x);
    case x >> 4 == 0xb => RowB(x);
    case x >> 4 == 0xc => RowC(x);
    case x >> 4 == 0xd => RowD(x);
    case x >> 4 == 0xe => RowE(x);
    case x >> 4 == 0xf => RowF(x);
  }

  method LookUp(x: bv8) returns (r: bv8)
    ensures r == Octet(x)
  {
    TableIsEightClocks(x);
    r := TableEntry(x);
  }

  /** The check byte of data[off..off + len], as the table loop computes it. */
  method CalcCrc8(data: array<Byte>, off: nat, len: nat) returns (val: bv8)
    requires off + len <= data.Length
    ensures val == Crc8(data[off..off + len])
  {
    val := CRC8_INIT;
    for i := 0 to len
      invariant val == Crc8(data[off..off + i])
    {
      CrcSnoc(data[off..off + i], data[off + i]);
      assert data[off..off + i + 1] == data[off..off + i] + [data[off + i]];
      val := val ^ data[off + i] as bv8;
      val := LookUp(val);
    }
  }

  /** The register before the first octet, and after a flag. */
  lemma CrcStarts()
    ensures Crc8([]) == 0x77 && Crc8([0x55]) == 0x9f
  {
    CrcSnoc([], 0x55);
    assert [] + [0x55] == [0x55];
  }

  lemma CrcSnoc(s: seq<Byte>, b: Byte)
    ensures Crc8(s + [b]) == Octet(Crc8(s) ^ b as bv8)
  {
    assert Bits(s + [b]) == Bits(s) + [b as bv8];
    RegisterSnoc(PER_OCTET, CRC8_INIT, Bits(s), b as bv8);
  }

  // ----- The algebra of the check byte -----

  lemma XorLaws(x: bv8, y: bv8, a: bv8, b: bv8)
    ensures ExchangeAt(PER_CLOCK, x, y, a, b) && NeutralAt(PER_CLOCK, x)
    ensures ExchangeAt(PER_OCTET, x, y, a, b) && NeutralAt(PER_OCTET, x)
  {
  }

  lemma ClockLaws(x: bv8, y: bv8)
    ensures AdditiveAt(PER_CLOCK, x, y) && InjectiveAt(PER_CLOCK, x, y)
  {
  }

  lemma ClockLinear()
    ensures Linear(PER_CLOCK)
  {
    forall x, y, a, b
      ensures ExchangeAt(PER_CLOCK, x, y, a, b) && NeutralAt(PER_CLOCK, x)
    {
      XorLaws(x, y, a, b);
    }
    forall x, y
      ensures AdditiveAt(PER_CLOCK, x, y) && InjectiveAt(PER_CLOCK, x, y)
    {
      ClockLaws(x, y);
    }
  }

  lemma OctetIsEightClocks(x: bv8)
    ensures PER_OCTET.step(x) == Steps(PER_CLOCK, x, 8)
  {
    assert Steps(PER_CLOCK, x, 2) == Clock(Clock(x));
    assert Steps(PER_CLOCK, x, 4) == Clock(Clock(Steps(PER_CLOCK, x, 2)));
    assert Steps(PER_CLOCK, x, 6) == Clock(Clock(Steps(PER_CLOCK, x, 4)));
  }

  lemma OctetLaws(x: bv8, y: bv8)
    ensures AdditiveAt(PER_OCTET, x, y) && InjectiveAt(PER_OCTET, x, y)
  {
    ClockLinear();
    OctetIsEightClocks(x);
    OctetIsEightClocks(y);
    OctetIsEightClocks(PER_CLOCK.add(x, y));
    StepsAdditive(PER_CLOCK, x, y, 8);
    if PER_OCTET.step(x) == PER_OCTET.step(y) {
      StepsInjective(PER_CLOCK, x, y, 8);
    }
  }

  lemma OctetLinear()
    ensures Linear(PER_OCTET)
  {
    forall x, y, a, b
      ensures ExchangeAt(PER_OCTET, x, y, a, b) && NeutralAt(PER_OCTET, x)
    {
      XorLaws(x, y, a, b);
    }
    forall x, y
      ensures AdditiveAt(PER_OCTET, x, y) && InjectiveAt(PER_OCTET, x, y)
    {
      OctetLaws(x, y);
    }
  }

  /** The difference of two check bytes is the zero-started register of the difference of the data. */
  lemma CrcDifference(s: seq<Byte>, t: seq<Byte>)
    requires |s| == |t|
    ensures XorOctet(Crc8(s), Crc8(t)) == Register(PER_OCTET, 0, Sum(PER_OCTET, Bits(s), Bits(t)))
  {
    OctetLinear();
    RegisterAdditive(PER_OCTET, CRC8_INIT, CRC8_INIT, Bits(s), Bits(t));
  }

  // ----- Which transmission errors the check byte catches -----

  /** cw ends in the check byte of what comes before it. */
  predicate Checks(cw: seq<Byte>) {
    |cw| > 0 && Crc8(cw[..|cw| - 1]) == cw[|cw| - 1] as bv8
  }

  /** The bits in which two codewords differ. */
  function Difference(s: seq<Byte>, t: seq<Byte>): seq<bv8>
    requires |s| == |t|
  {
    Sum(PER_OCTET, Bits(s), Bits(t))
  }

  lemma ResidueOfLast(x: bv8, last: bv8)
    ensures Octet(x ^ last) == 0 <==> x == last
  {
    OctetLaws(x ^ last, 0);
  }

  lemma LastOctet(s: seq<Byte>, b: Byte)
    ensures Crc8(s + [b]) == 0 <==> Crc8(s) == b as bv8
  {
    CrcSnoc(s, b);
    ResidueOfLast(Crc8(s), b as bv8);
  }

  lemma ChecksIffResidueZero(cw: seq<Byte>)
    requires |cw| > 0
    ensures Checks(cw) <==> Register(PER_OCTET, CRC8_INIT, Bits(cw)) == 0
  {
    var n := |cw| - 1;
    assert cw == cw[..n] + [cw[n]];
    LastOctet(cw[..n], cw[n]);
  }

  /** Exactly which errors slip through: those whose pattern leaves the zero-started register at zero. */
  lemma ErrorAcceptedIff(sent: seq<Byte>, got: seq<Byte>)
    requires |sent| == |got| && Checks(sent)
    ensures Checks(got) <==> Register(PER_OCTET, 0, Difference(sent, got)) == 0
  {
    ChecksIffResidueZero(sent);
    ChecksIffResidueZero(got);
    CrcDifference(sent, got);
  }

  // ----- Bursts -----

  /** All the bits of e lie in the 8 consecutive ones that start at bit shift of octet at. */
  ghost predicate IsBurst(e: seq<bv8>, at: nat, pattern: bv8, shift: bv8) {
    && at < |e|
    && pattern != 0
    && shift < 8
    && AllZero(PER_OCTET, e[..at])
    && e[at] == pattern << shift
    && if at + 1 < |e| then e[at + 1] == pattern >> (8 - shift) && AllZero(PER_OCTET, e[at + 2..])
       else pattern >> (8 - shift) == 0
  }

  lemma BurstBy0(x: bv8) requires x != 0 ensures Octet(x << 0) != x >> 8 {}
  lemma BurstBy1(x: bv8) requires x != 0 ensures Octet(x << 1) != x >> 7 {}
  lemma BurstBy2(x: bv8) requires x != 0 ensures Octet(x << 2) != x >> 6 {}
  lemma BurstBy3(x: bv8) requires x != 0 ensures Octet(x << 3) != x >> 5 {}
  lemma BurstBy4(x: bv8) requires x != 0 ensures Octet(x << 4) != x >> 4 {}
  lemma BurstBy5(x: bv8) requires x != 0 ensures Octet(x << 5) != x >> 3 {}
  lemma BurstBy6(x: bv8) requires x != 0 ensures Octet(x << 6) != x >> 2 {}
  lemma BurstBy7(x: bv8) requires x != 0 ensures Octet(x << 7) != x >> 1 {}

  lemma BurstOfTwoOctets(pattern: bv8, shift: bv8)
    requires pattern != 0 && shift < 8
    ensures Octet(pattern << shift) != pattern >> (8 - shift)
  {
    match shift
    case 0 => BurstBy0(pattern);
    case 1 => BurstBy1(pattern);
    case 2 => BurstBy2(pattern);
    case 3 => BurstBy3(pattern);
    case 4 => BurstBy4(pattern);
    case 5 => BurstBy5(pattern);
    case 6 => BurstBy6(pattern);
    case _ => BurstBy7(pattern);
  }

  /** Two neighbouring octets leave a residue unless the second is what the first turns into. */
  lemma TwoOctetsCaught(e: seq<bv8>, at: nat, x: bv8, y: bv8)
    requires at < |e| && AllZero(PER_OCTET, e[..at]) && e[at] == x
    requires if at + 1 < |e| then e[at + 1] == y && AllZero(PER_OCTET, e[at + 2..]) else y == 0
    requires Octet(x) != y
    ensures Register(PER_OCTET, 0, e) != 0
  {
    TwoOctetsInPlace(e, at, x, y);
    ResidueOfLast(Octet(x), y);
  }

  /** An error within any 8 consecutive bits, however long the data, is always caught. */
  lemma BurstDetected(e: seq<bv8>, at: nat, pattern: bv8, shift: bv8)
    requires IsBurst(e, at, pattern, shift)
    ensures Register(PER_OCTET, 0, e) != 0
  {
    BurstOfTwoOctets(pattern, shift);
    TwoOctetsCaught(e, at, pattern << shift, pattern >> (8 - shift));
  }

  lemma TwoOctetsInPlace(e: seq<bv8>, at: nat, x: bv8, y: bv8)
    requires at < |e| && AllZero(PER_OCTET, e[..at]) && e[at] == x
    requires if at + 1 < |e| then e[at + 1] == y && AllZero(PER_OCTET, e[at + 2..]) else y == 0
    ensures Register(PER_OCTET, 0, e) == 0 <==> Octet(Octet(x) ^ y) == 0
  {
    OctetLinear();
    TwoOctets(x, y);
    if at + 1 < |e| {
      assert e == e[..at] + [x, y] + e[at + 2..];
      RegisterPadded(PER_OCTET, e[..at], [x, y], e[at + 2..]);
    } else {
      assert e == e[..at] + [x] + [];
      RegisterPadded(PER_OCTET, e[..at], [x], []);
      ResidueOfLast(Octet(x), 0);
    }
  }

  lemma TwoOctets(x: bv8, y: bv8)
    ensures Register(PER_OCTET, 0, [x]) == Octet(x)
    ensures Register(PER_OCTET, 0, [x, y]) == Octet(Octet(x) ^ y)
  {
    RegisterSnoc(PER_OCTET, 0, [], x);
    RegisterSnoc(PER_OCTET, 0, [x], y);
    assert [] + [x] == [x];
    assert [x] + [y] == [x, y];
  }

  // ----- Odd numbers of bits -----

  predicate Has(x: bv8, mask: bv8) {
    x & mask != 0
  }

  /** x has an odd number of ones. */
  predicate Odd(x: bv8) {
    && (((Has(x, 0x01) != Has(x, 0x02)) != (Has(x, 0x04) != Has(x, 0x08)))
     != ((Has(x, 0x10) != Has(x, 0x20)) != (Has(x, 0x40) != Has(x, 0x80))))
  }

  lemma OddOfClock(x: bv8)
    ensures Odd(Clock(x)) == Odd(x)
  {
  }

  lemma HasOfXor(x: bv8, y: bv8, mask: bv8)
    requires mask in {0x01, 0x02, 0x04, 0x08, 0x10, 0x20, 0x40, 0x80}
    ensures Has(x ^ y, mask) == (Has(x, mask) != Has(y, mask))
  {
  }

  lemma OddOfXor(x: bv8, y: bv8)
    ensures Odd(x ^ y) == (Odd(x) != Odd(y))
  {
    HasOfXor(x, y, 0x01);
    HasOfXor(x, y, 0x02);
    HasOfXor(x, y, 0x04);
    HasOfXor(x, y, 0x08);
    HasOfXor(x, y, 0x10);
    HasOfXor(x, y, 0x20);
    HasOfXor(x, y, 0x40);
    HasOfXor(x, y, 0x80);
  }

  lemma OddOfOctet(x: bv8)
    ensures Odd(Octet(x)) == Odd(x)
  {
    OddOfClock(x);
    OddOfClock(Clock(x));
    OddOfClock(Clock(Clock(x)));
    OddOfClock(Clock(Clock(Clock(x))));
    OddOfClock(Clock(Clock(Clock(Clock(x)))));
    OddOfClock(Clock(Clock(Clock(Clock(Clock(x))))));
    OddOfClock(Clock(Clock(Clock(Clock(Clock(Clock(x)))))));
    OddOfClock(Clock(Clock(Clock(Clock(Clock(Clock(Clock(x))))))));
  }

  lemma OddCarried(x: bv8, y: bv8)
    ensures StepKeepsAt(PER_OCTET, Odd, x) && SumSplitsAt(PER_OCTET, Odd, x, y)
  {
    OddOfXor(x, y);
    OddOfOctet(x);
  }

  /** An error in an odd number of bits, however long the data, is always caught. */
  lemma OddErrorDetected(e: seq<bv8>)
    requires OddMany(Odd, e)
    ensures Register(PER_OCTET, 0, e) != 0
  {
    forall x, y
      ensures StepKeepsAt(PER_OCTET, Odd, x) && SumSplitsAt(PER_OCTET, Odd, x, y)
    {
      OddCarried(x, y);
    }
    RegisterCarries(PER_OCTET, Odd, e);
  }

  // ----- Two bits -----

  lemma {:induction false} OctetStepsAreClocks(x: bv8, n: nat)
    ensures Steps(PER_OCTET, x, n) == Steps(PER_CLOCK, x, 8 * n)
    decreases n
  {
    if n != 0 {
      OctetStepsAreClocks(x, n - 1);
      OctetIsEightClocks(Steps(PER_OCTET, x, n - 1));
      StepsCompose(PER_CLOCK, x, 8 * (n - 1), 8);
    }
  }

  /** The octet in which only bit a is set. */
  function Bit(a: nat): bv8
    requires a < 8
  {
    [0x01, 0x02, 0x04, 0x08, 0x10, 0x20, 0x40, 0x80][a]
  }

  lemma BitMovesDown(a: nat)
    requires 0 < a < 8
    ensures PER_CLOCK.step(Bit(a)) == Bit(a - 1)
  {
  }

  lemma {:induction false} BitFalls(a: nat)
    requires a < 8
    ensures Steps(PER_CLOCK, Bit(a), a) == 1
  {
    if a != 0 {
      BitMovesDown(a);
      BitFalls(a - 1);
      StepsCompose(PER_CLOCK, Bit(a), 1, a - 1);
      assert Steps(PER_CLOCK, Bit(a), 1) == PER_CLOCK.step(Steps(PER_CLOCK, Bit(a), 0));
    }
  }

  /** n clocks take the register from 1 back to 1. */
  ghost predicate Returns(n: nat) {
    Steps(PER_CLOCK, 1, n) == 1
  }

  lemma OctetOrbit(k: nat, x: bv8)
    requires Steps(PER_OCTET, 1, k) == x
    ensures Steps(PER_OCTET, 1, k + 1) == TableEntry(x)
  {
    TableIsEightClocks(x);
  }

  lemma OrbitStart()
    ensures Steps(PER_OCTET, 1, 8) == 0x43
  {
    OctetOrbit(0, 0x1);
    OctetOrbit(1, 0x5e);
    OctetOrbit(2, 0xc4);
    OctetOrbit(3, 0xab);
    OctetOrbit(4, 0x8f);
    OctetOrbit(5, 0xcd);
    OctetOrbit(6, 0x37);
    OctetOrbit(7, 0x3d);
  }

  lemma OrbitEnd()
    ensures Steps(PER_OCTET, 1, 15) == 0x80
  {
    OrbitStart();
    OctetOrbit(8, 0x43);
    OctetOrbit(9, 0xa4);
    OctetOrbit(10, 0xce);
    OctetOrbit(11, 0xd5);
    OctetOrbit(12, 0x68);
    OctetOrbit(13, 0xa7);
    OctetOrbit(14, 0x2c);
  }

  lemma ReturnsAfter127()
    ensures Returns(127)
  {
    OrbitEnd();
    OctetStepsAreClocks(1, 15);
    StepsCompose(PER_CLOCK, 1, 120, 7);
    BitFalls(7);
  }

  lemma ReturnsDifference(i: nat, n: nat)
    requires Returns(i)
    ensures Returns(i + n) <==> Returns(n)
  {
    StepsCompose(PER_CLOCK, 1, i, n);
  }

  lemma {:induction false} ReturnsMultiple(d: nat, q: nat)
    requires Returns(d)
    ensures Returns(q * d)
    decreases q
  {
    if q == 0 {
      assert Returns(0);
    } else {
      ReturnsMultiple(d, q - 1);
      ReturnsDifference(d, (q - 1) * d);
      assert q * d == d + (q - 1) * d;
    }
  }

  lemma ReturnsRemainder(n: nat, d: nat)
    requires d > 0 && Returns(d)
    ensures Returns(n) <==> Returns(n % d)
  {
    ReturnsMultiple(d, n / d);
    ReturnsDifference(n / d * d, n % d);
  }

  lemma Prime127(d: nat)
    requires 2 <= d < 127
    ensures 127 % d != 0
  {
    var q := 127 / d;
    if d >= 12 {
      assert q <= 10;
      assert q in {1, 2, 3, 4, 5, 6, 7, 8, 9, 10};
    }
  }

  lemma OneClockMovesOn()
    ensures !Returns(1)
  {
    assert Steps(PER_CLOCK, 1, 1) == Clock(Steps(PER_CLOCK, 1, 0));
  }

  /** Euclid's descent: a period shorter than 127 would leave a shorter one still, down to 1. */
  lemma {:induction false} NoShorterPeriod(d: nat)
    requires 0 < d < 127 && Returns(d)
    ensures false
    decreases d
  {
    if d == 1 {
      OneClockMovesOn();
      assert false;
    } else {
      Prime127(d);
      ReturnsAfter127();
      ReturnsRemainder(127, d);
      NoShorterPeriod(127 % d);
    }
  }

  /** The register's period is 127 clocks. */
  lemma ReturnsIff(n: nat)
    ensures Returns(n) <==> n % 127 == 0
  {
    ReturnsAfter127();
    ReturnsRemainder(n, 127);
    if n % 127 == 0 {
      assert Returns(0);
    } else if Returns(n) {
      NoShorterPeriod(n % 127);
    }
  }

  /** e has exactly two bits set: bit a of octet i and bit b behind it, of octet j. */
  ghost predicate IsTwoBits(e: seq<bv8>, i: nat, a: nat, j: nat, b: nat) {
    && i <= j < |e|
    && a < 8
    && b < 8
    && (if i < j then e[i] == Bit(a) && e[j] == Bit(b) && AllZero(PER_OCTET, e[i + 1..j])
        else a < b && e[i] == XorOctet(Bit(a), Bit(b)))
    && AllZero(PER_OCTET, e[..i])
    && AllZero(PER_OCTET, e[j + 1..])
  }

  /** A bit is worth as many clocks from position 0 of the register as it has octets behind it. */
  lemma BitAfterOctets(a: nat, gap: nat)
    requires a < 8 && gap > 0
    ensures Steps(PER_OCTET, Bit(a), gap) == Steps(PER_CLOCK, 1, 8 * gap - a)
  {
    OctetStepsAreClocks(Bit(a), gap);
    BitFalls(a);
    StepsCompose(PER_CLOCK, Bit(a), a, 8 * gap - a);
  }

  lemma MeetsBitIff(n: nat, b: nat)
    requires b < 8
    ensures Steps(PER_CLOCK, 1, n) == Bit(b) <==> Returns(n + b)
  {
    ClockLinear();
    BitFalls(b);
    StepsCompose(PER_CLOCK, 1, n, b);
    if Returns(n + b) {
      StepsInjective(PER_CLOCK, Steps(PER_CLOCK, 1, n), Bit(b), b);
    }
  }

  lemma BitsMeetIff(a: nat, b: nat, gap: nat)
    requires a < 8 && b < 8 && gap > 0
    ensures Steps(PER_OCTET, Bit(a), gap) == Bit(b) <==> (8 * gap + b - a) % 127 == 0
  {
    BitAfterOctets(a, gap);
    MeetsBitIff(8 * gap - a, b);
    ReturnsIff(8 * gap - a + b);
  }

  lemma StepsToZeroIff(x: bv8, y: bv8)
    ensures PER_OCTET.step(PER_OCTET.add(x, y)) == 0 <==> x == y
  {
    ResidueOfLast(x, y);
  }

  lemma TwoBitsDiffer(a: nat, b: nat)
    requires a < b < 8
    ensures XorOctet(Bit(a), Bit(b)) != 0
  {
  }

  /** Two bits of one octet are always caught. */
  lemma OneOctetCaught(e: seq<bv8>, i: nat)
    requires i < |e| && e[i] != 0 && AllZero(PER_OCTET, e[..i]) && AllZero(PER_OCTET, e[i + 1..])
    ensures Register(PER_OCTET, 0, e) != 0
  {
    if i + 1 < |e| {
      assert e[i + 1..][0] == 0 && e[i + 2..] == e[i + 1..][1..];
    }
    TwoOctetsInPlace(e, i, e[i], 0);
    ResidueOfLast(Octet(e[i]), 0);
    ResidueOfLast(e[i], 0);
  }

  /** An error in two bits is missed exactly when the bits are a multiple of 127 bits apart. */
  lemma TwoBitErrorMissedIff(e: seq<bv8>, i: nat, a: nat, j: nat, b: nat)
    requires IsTwoBits(e, i, a, j, b)
    ensures Register(PER_OCTET, 0, e) == 0 <==> (8 * (j - i) + b - a) % 127 == 0
  {
    if i < j {
      OctetLinear();
      RegisterOfTwo(PER_OCTET, e, i, j);
      BitsMeetIff(a, b, j - i);
      StepsToZeroIff(Steps(PER_OCTET, e[i], j - i), e[j]);
    } else {
      TwoBitsDiffer(a, b);
      OneOctetCaught(e, i);
    }
  }
}
