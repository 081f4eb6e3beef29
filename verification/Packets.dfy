/** Packets, the identity that pairs a response with its request, and the wire image of a packet. */
module Packets {
  import opened Bytes
  import opened Crc

  const PACKET_BEGIN_FLAG: Byte := 0x55
  const DEVICE_ID_SIZE: nat := 64
  const HEADER_LENGTH: nat := 87
  const MAX_BODY_LENGTH: nat := 16 * 1024

  datatype Option<+T> = None | Some(value: T)

  /** deviceId and body are the bytes of a string and of a buffer. */
  datatype Packet = Packet(cmd: Word, seqNo: Word, rsp: bool, ec: Word, deviceId: seq<Byte>, body: seq<Byte>)

  // ----- Sequence numbers -----

  const MAX_SEQ: Word := 0xffff_ffff

  function NextSeq(last: Word): (s: Word)
    ensures s != 0
  {
    (if last == MAX_SEQ then 0 else last) + 1
  }

  /** The process-wide counter that numbers packets. */
  class SeqGenerator {
    var last: Word

    constructor ()
      ensures last == 0
    {
      last := 0;
    }

    method Next() returns (s: Word)
      modifies this
      ensures s == last == NextSeq(old(last))
    {
      if last == MAX_SEQ {
        last := 0;
      }
      last := last + 1;
      s := last;
    }
  }

  /** The n-th number drawn after last. */
  function NthSeq(last: Word, n: nat): Word
  {
    if n == 0 then last else NextSeq(NthSeq(last, n - 1))
  }

  lemma {:induction false} NthSeqClosedForm(last: Word, n: nat)
    requires n > 0
    ensures NthSeq(last, n) == (last + n - 1) % MAX_SEQ + 1
    decreases n
  {
    if n > 1 {
      NthSeqClosedForm(last, n - 1);
    }
  }

  /** Two draws give the same number exactly when a multiple of 2^32 - 1 draws separates them. */
  lemma SeqRepeatsIff(last: Word, i: nat, j: nat)
    requires 0 < i <= j
    ensures NthSeq(last, i) == NthSeq(last, j) <==> (j - i) % 0xffff_ffff == 0
  {
    NthSeqClosedForm(last, i);
    NthSeqClosedForm(last, j);
  }

  // ----- The identity of a request and its response -----

  /** Bitwise or. */
  function BitOr(a: nat, b: nat): nat
    decreases a + b
  {
    if a == 0 && b == 0 then 0
    else (if a % 2 == 1 || b % 2 == 1 then 1 else 0) + 2 * BitOr(a / 2, b / 2)
  }

  /** cmd << 31 | seq, in 64 bits; the shift cannot lose bits of a 32-bit command. */
  function IdOf(cmd: Word, seqNo: Word): nat {
    BitOr(cmd * 0x8000_0000, seqNo)
  }

  function PacketId(p: Packet): nat {
    IdOf(p.cmd, p.seqNo)
  }

  lemma {:induction false} BitOrZero(a: nat)
    ensures BitOr(a, 0) == a
    decreases a
  {
    if a != 0 {
      BitOrZero(a / 2);
    }
  }

  /** a moved up by k bits, b without its low k bits, and those bits. */
  function Shl(a: nat, k: nat): nat {
    if k == 0 then a else 2 * Shl(a, k - 1)
  }

  function Shr(b: nat, k: nat): nat {
    if k == 0 then b else Shr(b / 2, k - 1)
  }

  function Low(b: nat, k: nat): nat {
    if k == 0 then 0 else b % 2 + 2 * Low(b / 2, k - 1)
  }

  lemma {:induction false} LowAndHigh(b: nat, k: nat)
    ensures b == Shl(Shr(b, k), k) + Low(b, k) && Low(b, k) < Shl(1, k)
  {
    if k != 0 {
      LowAndHigh(b / 2, k - 1);
    }
  }

  lemma BitOrStep(a: nat, b: nat)
    ensures BitOr(2 * a, b) == 2 * BitOr(a, b / 2) + b % 2
  {
  }

  /** Or-ing b into a moved up by k leaves the low k bits of b alone and puts a over the rest. */
  lemma {:induction false} BitOrShifted(a: nat, b: nat, k: nat)
    ensures BitOr(Shl(a, k), b) == Shl(BitOr(a, Shr(b, k)), k) + Low(b, k)
  {
    if k != 0 {
      BitOrShifted(a, b / 2, k - 1);
      BitOrStep(Shl(a, k - 1), b);
    }
  }

  lemma ShlBy31(a: nat)
    ensures Shl(a, 31) == 0x8000_0000 * a
  {
    assert Shl(a, 1) == 0x2 * a && Shl(a, 2) == 0x4 * a && Shl(a, 4) == 0x10 * a && Shl(a, 6) == 0x40 * a;
    assert Shl(a, 8) == 0x100 * a && Shl(a, 10) == 0x400 * a && Shl(a, 12) == 0x1000 * a;
    assert Shl(a, 14) == 0x4000 * a && Shl(a, 16) == 0x10000 * a && Shl(a, 18) == 0x40000 * a;
    assert Shl(a, 20) == 0x100000 * a && Shl(a, 22) == 0x400000 * a && Shl(a, 24) == 0x1000000 * a;
    assert Shl(a, 26) == 0x4000000 * a && Shl(a, 28) == 0x10000000 * a && Shl(a, 30) == 0x40000000 * a;
  }

  lemma IdParts(cmd: Word, seqNo: Word)
    ensures IdOf(cmd, seqNo) == (cmd / 2 * 2 + LowOrHigh(cmd, seqNo)) * 0x8000_0000 + seqNo % 0x8000_0000
  {
    BitOrShifted(cmd, seqNo, 31);
    LowAndHigh(seqNo, 31);
    var top := Shr(seqNo, 31);
    ShlBy31(cmd);
    ShlBy31(1);
    ShlBy31(top);
    ShlBy31(BitOr(cmd, top));
    assert top == seqNo / 0x8000_0000;
    BitOrZero(cmd / 2);
    assert BitOr(cmd, top) == cmd / 2 * 2 + LowOrHigh(cmd, seqNo);
  }

  /** The one bit where the shifted command and the sequence number overlap. */
  function LowOrHigh(cmd: Word, seqNo: Word): nat {
    if cmd % 2 == 1 || seqNo >= 0x8000_0000 then 1 else 0
  }

  /** Exactly when two requests have the same identity. */
  lemma IdCollisionIff(c: Word, s: Word, d: Word, t: Word)
    ensures IdOf(c, s) == IdOf(d, t)
       <==> s % 0x8000_0000 == t % 0x8000_0000 && c / 2 == d / 2 && LowOrHigh(c, s) == LowOrHigh(d, t)
  {
    IdParts(c, s);
    IdParts(d, t);
  }

  /** Below 2^31 the sequence numbers keep identities apart. */
  lemma IdInjectiveBelow(c: Word, s: Word, d: Word, t: Word)
    requires s < 0x8000_0000 && t < 0x8000_0000
    ensures IdOf(c, s) == IdOf(d, t) <==> c == d && s == t
  {
    IdCollisionIff(c, s, d, t);
  }

  // ----- The wire image -----

  function Zeros(n: nat): (s: seq<Byte>)
    ensures |s| == n
  {
    seq(n, _ => 0)
  }

  /** What a C string copy sees of s: the bytes before the first NUL. */
  function CString(s: seq<Byte>): (r: seq<Byte>)
    ensures |r| <= |s|
  {
    if s == [] || s[0] == 0 then [] else [s[0]] + CString(s[1..])
  }

  function DeviceIdField(id: seq<Byte>): (f: seq<Byte>)
    requires |id| < DEVICE_ID_SIZE
    ensures |f| == DEVICE_ID_SIZE
  {
    CString(id) + Zeros(DEVICE_ID_SIZE - |CString(id)|)
  }

  /** What the encoder asserts of its caller, and a frame length that fits 32 bits. */
  predicate Encodable(p: Packet) {
    |p.deviceId| < DEVICE_ID_SIZE && HEADER_LENGTH + |p.body| <= 0xffff_ffff
  }

  function UncheckedHeader(p: Packet): (h: seq<Byte>)
    requires Encodable(p)
    ensures |h| == HEADER_LENGTH - 1
  {
    [PACKET_BEGIN_FLAG] + ToNetwork(p.cmd) + ToNetwork(p.seqNo) + [if p.rsp then 1 else 0] + ToNetwork(p.ec)
    + ToNetwork(|p.deviceId|) + DeviceIdField(p.deviceId) + ToNetwork(|p.body|)
  }

  function Encode(p: Packet): (e: seq<Byte>)
    requires Encodable(p)
    ensures |e| == HEADER_LENGTH + |p.body|
  {
    UncheckedHeader(p) + [Crc8(UncheckedHeader(p)) as int] + p.body
  }

  // ----- Reading a frame -----

  function BodyLength(h: seq<Byte>): Word
    requires |h| >= HEADER_LENGTH
  {
    FromNetwork(h[82..86])
  }

  function DeviceIdLength(h: seq<Byte>): Word
    requires |h| >= HEADER_LENGTH
  {
    FromNetwork(h[14..18])
  }

  ghost predicate IsFrame(raw: seq<Byte>) {
    |raw| >= HEADER_LENGTH && |raw| == HEADER_LENGTH + BodyLength(raw)
  }

  /** The packet a frame holds, with the sequence number it had on the wire; None when the declared
      length of the id runs past the frame, so that the id read is not determined by the frame. */
  function Unpack(raw: seq<Byte>): Option<Packet>
    requires |raw| >= HEADER_LENGTH
  {
    var idLen := DeviceIdLength(raw);
    if 18 + idLen > |raw| then None
    else Some(Packet(FromNetwork(raw[1..5]), FromNetwork(raw[5..9]), raw[9] != 0, FromNetwork(raw[10..14]),
                     raw[18..18 + idLen], raw[HEADER_LENGTH..]))
  }

  /** What the packet constructor makes of a packet read from the wire: number 0 is replaced. */
  ghost predicate Constructed(wire: Packet, p: Packet) {
    && p == wire.(seqNo := p.seqNo)
    && p.seqNo != 0
    && (wire.seqNo != 0 ==> p == wire)
  }

  /** The packet constructor, given the fields of q: a packet without a number gets the next one. */
  method MakePacket(q: Packet, gen: SeqGenerator) returns (p: Packet)
    modifies gen
    ensures Constructed(q, p)
    ensures if q.seqNo == 0 then p.seqNo == gen.last == NextSeq(old(gen.last)) else gen.last == old(gen.last)
  {
    p := q;
    if q.seqNo == 0 {
      var s := gen.Next();
      p := q.(seqNo := s);
    }
  }

  method BuildReqPacket(cmd: Word, body: seq<Byte>, deviceId: seq<Byte>, gen: SeqGenerator) returns (p: Packet)
    modifies gen
    ensures p == Packet(cmd, NextSeq(old(gen.last)), false, 0, deviceId, body) && gen.last == p.seqNo
  {
    p := MakePacket(Packet(cmd, 0, false, 0, deviceId, body), gen);
  }

  method BuildRspPacket(cmd: Word, seqNo: Word, ec: Word, deviceId: seq<Byte>, body: seq<Byte>, gen: SeqGenerator)
    returns (p: Packet)
    modifies gen
    ensures Constructed(Packet(cmd, seqNo, true, ec, deviceId, body), p)
    ensures seqNo != 0 ==> p == Packet(cmd, seqNo, true, ec, deviceId, body) && gen.last == old(gen.last)
    ensures seqNo == 0 ==> p.seqNo == gen.last == NextSeq(old(gen.last))
  {
    p := MakePacket(Packet(cmd, seqNo, true, ec, deviceId, body), gen);
  }

  /** A response has the identity of its request exactly when the request is numbered, but for one chance
      number of the response. */
  lemma ResponseAnswersIff(request: Packet, fields: Packet, rsp: Packet)
    requires fields.cmd == request.cmd && fields.seqNo == request.seqNo && Constructed(fields, rsp)
    ensures PacketId(rsp) == PacketId(request)
       <==> request.seqNo != 0 || (rsp.seqNo == 0x8000_0000 && request.cmd % 2 == 1)
  {
    IdCollisionIff(rsp.cmd, rsp.seqNo, request.cmd, request.seqNo);
  }

  /** Where each field of the wire image lies. */
  lemma WireLayout(p: Packet, rest: seq<Byte>)
    requires Encodable(p)
    ensures var e := Encode(p) + rest;
            && e[0] == 0x55
            && e[1..5] == ToNetwork(p.cmd)
            && e[5..9] == ToNetwork(p.seqNo)
            && e[9] == (if p.rsp then 1 else 0)
            && e[10..14] == ToNetwork(p.ec)
            && e[14..18] == ToNetwork(|p.deviceId|)
            && e[18..82] == DeviceIdField(p.deviceId)
            && e[82..86] == ToNetwork(|p.body|)
            && e[..86] == UncheckedHeader(p)
            && e[86] == Crc8(UncheckedHeader(p)) as int
            && e[87..] == p.body + rest
  {
  }

  /** memcpy: s over buf from off on. */
  method PutBytes(buf: array<Byte>, off: nat, s: seq<Byte>)
    requires off + |s| <= buf.Length
    modifies buf
    ensures buf[off..off + |s|] == s
    ensures forall i :: 0 <= i < off || off + |s| <= i < buf.Length ==> buf[i] == old(buf[i])
  {
    forall i | 0 <= i < |s| {
      buf[off + i] := s[i];
    }
  }

  lemma SlicesJoin(s: seq<Byte>, i: nat, j: nat)
    requires i <= j <= |s|
    ensures s[..j] == s[..i] + s[i..j]
  {
  }

  lemma HeaderInParts(h: seq<Byte>, p: Packet)
    requires |h| == HEADER_LENGTH && Encodable(p)
    requires h[0] == PACKET_BEGIN_FLAG
    requires h[1..5] == ToNetwork(p.cmd) && h[5..9] == ToNetwork(p.seqNo)
    requires h[9] == if p.rsp then 1 else 0
    requires h[10..14] == ToNetwork(p.ec) && h[14..18] == ToNetwork(|p.deviceId|)
    requires h[18..82] == DeviceIdField(p.deviceId) && h[82..86] == ToNetwork(|p.body|)
    ensures h[..86] == UncheckedHeader(p)
  {
    assert h[..1] == [h[0]] && h[9..10] == [h[9]];
    SlicesJoin(h, 1, 5);
    SlicesJoin(h, 5, 9);
    SlicesJoin(h, 9, 10);
    SlicesJoin(h, 10, 14);
    SlicesJoin(h, 14, 18);
    SlicesJoin(h, 18, 82);
    SlicesJoin(h, 82, 86);
  }

  lemma ArrayHeader(h: array<Byte>, p: Packet)
    requires h.Length == HEADER_LENGTH && Encodable(p)
    requires h[0] == PACKET_BEGIN_FLAG
    requires h[1..5] == ToNetwork(p.cmd) && h[5..9] == ToNetwork(p.seqNo)
    requires h[9] == if p.rsp then 1 else 0
    requires h[10..14] == ToNetwork(p.ec) && h[14..18] == ToNetwork(|p.deviceId|)
    requires h[18..82] == DeviceIdField(p.deviceId) && h[82..86] == ToNetwork(|p.body|)
    ensures h[..86] == UncheckedHeader(p)
  {
    var s := h[..];
    assert s[1..5] == h[1..5] && s[5..9] == h[5..9] && s[10..14] == h[10..14] && s[14..18] == h[14..18];
    assert s[18..82] == h[18..82] && s[82..86] == h[82..86] && s[..86] == h[..86];
    HeaderInParts(s, p);
  }

  /** The id field: cleared, then the id copied up to its first NUL. */
  method PutDeviceId(buf: array<Byte>, off: nat, id: seq<Byte>)
    requires off + DEVICE_ID_SIZE <= buf.Length && |id| < DEVICE_ID_SIZE
    modifies buf
    ensures buf[off..off + DEVICE_ID_SIZE] == DeviceIdField(id)
    ensures forall i :: 0 <= i < off || off + DEVICE_ID_SIZE <= i < buf.Length ==> buf[i] == old(buf[i])
  {
    PutBytes(buf, off, Zeros(DEVICE_ID_SIZE));
    ghost var cleared := buf[off..off + DEVICE_ID_SIZE];
    var s := CString(id);
    PutBytes(buf, off, s);
    assert buf[off + |s|..off + DEVICE_ID_SIZE] == cleared[|s|..];
    assert buf[off..off + DEVICE_ID_SIZE] == buf[off..off + |s|] + buf[off + |s|..off + DEVICE_ID_SIZE];
  }

  method EncodeHeader(pack: Packet) returns (header: array<Byte>)
    requires Encodable(pack)
    ensures fresh(header) && header.Length == HEADER_LENGTH
    ensures header[..86] == UncheckedHeader(pack) && header[86] == Crc8(UncheckedHeader(pack)) as int
  {
    header := new Byte[HEADER_LENGTH];
    header[0] := PACKET_BEGIN_FLAG;
    PutBytes(header, 1, ToNetwork(pack.cmd));
    PutBytes(header, 5, ToNetwork(pack.seqNo));
    PutBytes(header, 10, ToNetwork(pack.ec));
    header[9] := if pack.rsp then 1 else 0;
    PutBytes(header, 14, ToNetwork(|pack.deviceId|));
    PutDeviceId(header, 18, pack.deviceId);
    PutBytes(header, 82, ToNetwork(|pack.body|));
    ArrayHeader(header, pack);
    var check := CalcCrc8(header, 0, HEADER_LENGTH - 1);
    header[86] := check as int;
  }

  method EncodePacket(pack: Packet) returns (buf: array<Byte>)
    requires Encodable(pack)
    ensures fresh(buf) && buf[..] == Encode(pack)
  {
    var dataLen := HEADER_LENGTH + |pack.body|;
    buf := new Byte[dataLen];
    var header := EncodeHeader(pack);
    ghost var h := UncheckedHeader(pack) + [Crc8(UncheckedHeader(pack)) as int];
    assert header[..] == header[..86] + [header[86]];
    PutBytes(buf, 0, header[..]);
    assert buf[..HEADER_LENGTH] == buf[0..HEADER_LENGTH] == h;
    if |pack.body| > 0 {
      PutBytes(buf, HEADER_LENGTH, pack.body);
      assert buf[HEADER_LENGTH..] == buf[HEADER_LENGTH..HEADER_LENGTH + |pack.body|];
    }
    assert buf[HEADER_LENGTH..] == pack.body;
    assert forall i :: 0 <= i < HEADER_LENGTH ==> buf[i] == h[i];
    assert buf[..HEADER_LENGTH] == h;
    assert buf[..] == buf[..HEADER_LENGTH] + buf[HEADER_LENGTH..];
  }

  // ----- What survives the trip -----

  /** No byte but NUL follows a NUL. */
  ghost predicate NulOnlyAtEnd(s: seq<Byte>) {
    forall i, j :: 0 <= i < j < |s| && s[i] == 0 ==> s[j] == 0
  }

  /** The id that arrives for id: from the first NUL on it is all NUL. */
  function Carried(id: seq<Byte>): (r: seq<Byte>)
    ensures |r| == |id|
  {
    CString(id) + Zeros(|id| - |CString(id)|)
  }

  lemma {:induction false} CStringStops(s: seq<Byte>)
    ensures CString(s) <= s
    ensures forall i :: 0 <= i < |CString(s)| ==> s[i] != 0
    ensures |CString(s)| < |s| ==> s[|CString(s)|] == 0
  {
    if s != [] && s[0] != 0 {
      CStringStops(s[1..]);
    }
  }

  lemma CarriedIff(id: seq<Byte>)
    ensures Carried(id) == id <==> NulOnlyAtEnd(id)
  {
    CStringStops(id);
    var n := |CString(id)|;
    if NulOnlyAtEnd(id) {
      forall i | 0 <= i < |id|
        ensures Carried(id)[i] == id[i]
      {
        if i > n {
          assert id[n] == 0;
        }
      }
    }
    if Carried(id) == id {
      forall i, j | 0 <= i < j < |id| && id[i] == 0
        ensures id[j] == 0
      {
        assert i >= n;
        assert Carried(id)[j] == 0;
      }
    }
  }

  /** What arrived once arrives again as it is. */
  lemma CarriedTwice(id: seq<Byte>)
    ensures Carried(Carried(id)) == Carried(id)
  {
    CStringStops(id);
    CarriedIff(Carried(id));
  }

  /** An encoded packet is a frame, whatever follows it, and its header carries its check byte. */
  lemma EncodedIsFrame(p: Packet, rest: seq<Byte>)
    requires Encodable(p)
    ensures IsFrame(Encode(p)) && Checks((Encode(p) + rest)[..HEADER_LENGTH])
    ensures BodyLength(Encode(p) + rest) == |p.body|
  {
    WireLayout(p, rest);
    WireLayout(p, []);
    assert Encode(p) + [] == Encode(p);
    NetworkRoundTrip(|p.body|);
    var h := (Encode(p) + rest)[..HEADER_LENGTH];
    assert h[..86] == UncheckedHeader(p);
    CheckByteFits(Crc8(h[..86]));
  }

  lemma CheckByteFits(x: bv8)
    ensures x as int as bv8 == x
  {
  }

  /** Unpacking gives back everything but the part of the id behind a NUL. */
  lemma UnpackEncoded(p: Packet)
    requires Encodable(p)
    ensures Unpack(Encode(p)) == Some(p.(deviceId := Carried(p.deviceId)))
  {
    WireLayout(p, []);
    assert Encode(p) + [] == Encode(p);
    var e := Encode(p);
    NetworkRoundTrip(p.cmd);
    NetworkRoundTrip(p.seqNo);
    NetworkRoundTrip(p.ec);
    NetworkRoundTrip(|p.deviceId|);
    var n := |p.deviceId|;
    assert e[18..18 + n] == e[18..82][..n];
    assert DeviceIdField(p.deviceId)[..n] == Carried(p.deviceId);
  }

  /** The id field octet by octet: the id as far as its first NUL, and zeros. */
  lemma {:induction false} DeviceIdFieldOctet(id: seq<Byte>, i: nat)
    requires |id| < DEVICE_ID_SIZE && i < DEVICE_ID_SIZE
    ensures DeviceIdField(id)[i] == if i < |id| && 0 !in id[..i + 1] then id[i] else 0
  {
    CStringStops(id);
    var n := |CString(id)|;
    if i < n {
      assert forall k :: 0 <= k < i + 1 ==> id[..i + 1][k] == CString(id)[k];
    } else if i < |id| {
      assert id[..i + 1][n] == 0;
    }
  }

  /** What is read out of a frame: any octet but zero marks a response, and the id may run into the rest. */
  lemma FieldsRead(raw: seq<Byte>)
    requires |raw| >= HEADER_LENGTH && Unpack(raw).Some?
    ensures var p, n := Unpack(raw).value, FromNetwork(raw[14..18]);
            && p.cmd == FromNetwork(raw[1..5]) && p.seqNo == FromNetwork(raw[5..9]) && p.ec == FromNetwork(raw[10..14])
            && (p.rsp <==> raw[9] != 0)
            && 18 + n <= |raw| && p.deviceId == raw[18..18 + n]
            && p.body == raw[87..]
  {
  }

  lemma NetworkIs(s: seq<Byte>)
    requires |s| == 4
    ensures ToNetwork(FromNetwork(s)) == s
  {
    var w := FromNetwork(s);
    var a: int, b: int, c: int := s[0], s[1], s[2];
    assert w / 0x100 == 0x100 * (0x100 * a + b) + c;
    assert w / 0x100 / 0x100 == 0x100 * a + b;
    assert w / 0x100 / 0x100 / 0x100 == a;
  }

  lemma SliceOfFront(s: seq<Byte>, i: nat, j: nat)
    requires i <= j <= HEADER_LENGTH <= |s|
    ensures s[..HEADER_LENGTH][i..j] == s[i..j]
  {
    forall k | 0 <= k < j - i
      ensures s[..HEADER_LENGTH][i..j][k] == s[i..j][k]
    {
      assert s[..HEADER_LENGTH][i..j][k] == s[..HEADER_LENGTH][i + k];
    }
  }

  lemma HeaderIs(raw: seq<Byte>, p: Packet)
    requires |raw| >= HEADER_LENGTH && Encodable(p)
    requires raw[0] == PACKET_BEGIN_FLAG && Unpack(raw) == Some(p) && raw[82..86] == ToNetwork(|p.body|)
    requires raw[9] <= 1 && raw[18..82] == DeviceIdField(p.deviceId)
    ensures raw[..86] == UncheckedHeader(p)
  {
    FieldsRead(raw);
    NetworkIs(raw[1..5]);
    NetworkIs(raw[5..9]);
    NetworkIs(raw[10..14]);
    NetworkIs(raw[14..18]);
    var h := raw[..HEADER_LENGTH];
    SliceOfFront(raw, 1, 5);
    SliceOfFront(raw, 5, 9);
    SliceOfFront(raw, 10, 14);
    SliceOfFront(raw, 14, 18);
    SliceOfFront(raw, 18, 82);
    SliceOfFront(raw, 82, 86);
    SliceOfFront(raw, 0, 86);
    HeaderInParts(h, p);
  }

  /** The other way round: a good frame is the encoding of the packet it holds exactly when its response octet is 0
      or 1 and its id field holds that id and zeros. */
  lemma EncodeUnpackedIff(raw: seq<Byte>, p: Packet)
    requires IsFrame(raw) && raw[0] == PACKET_BEGIN_FLAG && raw[86] == Crc8(raw[..86]) as int
    requires Unpack(raw) == Some(p) && Encodable(p)
    ensures Encode(p) == raw <==> raw[9] <= 1 && raw[18..82] == DeviceIdField(p.deviceId)
  {
    WireLayout(p, []);
    assert Encode(p) + [] == Encode(p);
    if raw[9] <= 1 && raw[18..82] == DeviceIdField(p.deviceId) {
      NetworkIs(raw[82..86]);
      HeaderIs(raw, p);
      assert raw == raw[..86] + [raw[86]] + raw[87..];
    }
  }

  /** The round trip restores the packet exactly when its id has no byte behind a NUL and it is numbered. */
  lemma RoundTripIff(p: Packet, q: Packet)
    requires Encodable(p)
    requires Unpack(Encode(p)).Some? && Constructed(Unpack(Encode(p)).value, q)
    ensures q == p <==> NulOnlyAtEnd(p.deviceId) && p.seqNo != 0
  {
    UnpackEncoded(p);
    CarriedIff(p.deviceId);
  }

  /** The id read depends on the frame alone exactly when its declared length stays within the frame. */
  lemma IdWithinFrameIff(raw: seq<Byte>)
    requires IsFrame(raw)
    ensures Unpack(raw).Some?
       <==> forall x: seq<Byte>, y: seq<Byte> :: SameIdRead(raw, x, y)
  {
    var n := 18 + DeviceIdLength(raw);
    if n <= |raw| {
      forall x: seq<Byte>, y: seq<Byte>
        ensures SameIdRead(raw, x, y)
      {
        if n <= |raw + x| && n <= |raw + y| {
          assert (raw + x)[18..n] == raw[18..n] == (raw + y)[18..n];
        }
      }
    } else {
      var k := n - |raw|;
      var x, y := Zeros(k), seq(k, _ => 1);
      assert (raw + x)[18..n][|raw| - 18] == 0 && (raw + y)[18..n][|raw| - 18] == 1;
      assert !SameIdRead(raw, x, y);
    }
  }

  /** Reading the id out of raw followed by x, or by y, gives the same bytes. */
  ghost predicate SameIdRead(raw: seq<Byte>, x: seq<Byte>, y: seq<Byte>)
    requires |raw| >= HEADER_LENGTH
  {
    var n := 18 + DeviceIdLength(raw);
    n <= |raw| + |x| && n <= |raw| + |y| ==> (raw + x)[18..n] == (raw + y)[18..n]
  }
}
