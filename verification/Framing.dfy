/** The decoder and the encoder of packets over the wire: decode_packet as it runs, and what becomes of
    packets that are sent. */
module Framing {
  import opened Bytes
  import opened Crc
  import opened LinearRegister
  import opened Packets
  import opened Parsing

  // ----- The format on the wire -----

  function DeclaredBody(h: seq<Byte>): nat {
    if |h| >= HEADER_LENGTH then BodyLength(h) else 0
  }

  function Opened(raw: seq<Byte>): Option<Packet> {
    if |raw| >= HEADER_LENGTH then Unpack(raw) else None
  }

  function WireLook(s: seq<Byte>): Look {
    HeaderLook(Checks, DeclaredBody, s)
  }

  /** What is written for p; the encoder asserts that p is encodable. */
  function Wire(p: Packet): seq<Byte> {
    if Encodable(p) then Encode(p) else []
  }

  const WIRE_FORMAT := Format(Checks, DeclaredBody, WireLook, Opened, Wire)

  ghost predicate IsWireFormat(f: Format) {
    && IsRegular(f)
    && (forall h: seq<Byte> {:trigger Checks(h)} :: f.check(h) <==> Checks(h))
    && (forall h: seq<Byte> {:trigger DeclaredBody(h)} :: f.bodyLength(h) == DeclaredBody(h))
    && (forall raw: seq<Byte> {:trigger Opened(raw)} :: f.open(raw) == Opened(raw))
    && (forall p: Packet {:trigger Wire(p)} :: f.write(p) == Wire(p))
  }

  /** Every such format is WIRE_FORMAT, whose parts a proof need not look into. */
  type WireFormat = f: Format | IsWireFormat(f) witness WIRE_FORMAT

  lemma WireRegular(f: WireFormat)
    ensures IsRegular(f)
  {
  }

  // ----- The decoder as it runs -----

  method ReadWord(buf: array<Byte>, off: nat) returns (w: Word)
    requires off + 4 <= buf.Length
    ensures w == FromNetwork(buf[..][off..off + 4])
  {
    w := FromNetwork([buf[off], buf[off + 1], buf[off + 2], buf[off + 3]]);
    assert buf[..][off..off + 4] == [buf[off], buf[off + 1], buf[off + 2], buf[off + 3]];
  }

  lemma SliceOfSlice<T>(s: seq<T>, at: nat, end: nat, i: nat, j: nat)
    requires at <= end <= |s| && i <= j <= end - at
    ensures s[at..end][i..j] == s[at + i..at + j]
  {
    forall k | 0 <= k < j - i
      ensures s[at..end][i..j][k] == s[at + i..at + j][k]
    {
      assert s[at..end][i..j][k] == s[at..end][i + k];
    }
  }

  lemma DecodeSkips(f: Format, v: seq<Byte>, at: nat, n: nat)
    requires at <= |v| && f.look(v[at..]) == Skip(n)
    ensures at + n <= |v| && Decode(f, v[at..]) == Decode(f, v[at + n..])
  {
    assert v[at..][n..] == v[at + n..];
  }

  lemma DecodeEmits(f: Format, v: seq<Byte>, at: nat, n: nat)
    requires at <= |v| && f.look(v[at..]) == Emit(n)
    ensures n <= |v| - at
    ensures Decode(f, v[at..]) == Found(v[at..at + n], v[at + n..])
  {
    assert v[at..][n..] == v[at + n..];
    assert v[at..][..n] == v[at..at + n];
  }

  lemma SkipsNonFlag(f: WireFormat, v: seq<Byte>, at: nat)
    requires at < |v| && v[at] != PACKET_BEGIN_FLAG
    ensures Decode(f, v[at..]) == Decode(f, v[at + 1..])
  {
    LookIs(f, v[at..]);
    DecodeSkips(f, v, at, 1);
  }

  lemma {:induction false} SkipsNonFlags(f: WireFormat, v: seq<Byte>, at: nat, k: nat)
    requires at <= k <= |v| && forall j :: at <= j < k ==> v[j] != PACKET_BEGIN_FLAG
    ensures Decode(f, v[at..]) == Decode(f, v[k..])
    decreases k - at
  {
    if at < k {
      SkipsNonFlag(f, v, at);
      SkipsNonFlags(f, v, at + 1, k);
    }
  }

  /** The first flag in buf[at..end], or end. */
  method FindFlag(ghost f: WireFormat, buf: array<Byte>, at: nat, end: nat) returns (k: nat)
    requires at <= end <= buf.Length
    ensures at <= k <= end
    ensures k < end ==> buf[k] == PACKET_BEGIN_FLAG
    ensures Decode(f, buf[..end][at..]) == Decode(f, buf[..end][k..])
  {
    k := ScanBytes(buf, at, end);
    SkipsNonFlags(f, buf[..end], at, k);
  }

  method ScanBytes(buf: array<Byte>, at: nat, end: nat) returns (k: nat)
    requires at <= end <= buf.Length
    ensures at <= k <= end
    ensures k < end ==> buf[k] == PACKET_BEGIN_FLAG
    ensures forall j :: at <= j < k ==> buf[j] != PACKET_BEGIN_FLAG
  {
    k := at;
    while k < end && buf[k] != PACKET_BEGIN_FLAG
      invariant at <= k <= end
      invariant forall j :: at <= j < k ==> buf[j] != PACKET_BEGIN_FLAG
    {
      k := k + 1;
    }
  }

  method HeaderChecks(buf: array<Byte>, at: nat) returns (good: bool)
    requires at + HEADER_LENGTH <= buf.Length
    ensures good == Checks(buf[..][at..at + HEADER_LENGTH])
  {
    var crc := CalcCrc8(buf, at, HEADER_LENGTH - 1);
    good := crc == buf[at + 86] as bv8;
    SliceOfSlice(buf[..], at, at + HEADER_LENGTH, 0, HEADER_LENGTH - 1);
    assert buf[..][at..at + HEADER_LENGTH - 1] == buf[at..at + HEADER_LENGTH - 1];
  }

  /** Whether a header that may start at buf[at] is kept: too short, check byte wrong, body too long, body
      not all there, or a whole frame. */
  method JudgeHeader(ghost f: WireFormat, buf: array<Byte>, at: nat, end: nat) returns (k: Look)
    requires at <= end <= buf.Length
    requires at < end ==> buf[at] == PACKET_BEGIN_FLAG
    ensures k == f.look(buf[..end][at..])
    ensures k.Emit? ==> k.n >= HEADER_LENGTH
  {
    LookIs(f, buf[..end][at..]);
    var validLen := end - at;
    if validLen < HEADER_LENGTH {
      return Wait;
    }
    assert buf[..end][at..][..HEADER_LENGTH] == buf[..][at..at + HEADER_LENGTH];
    var good := HeaderChecks(buf, at);
    if !good {
      return Skip(1);
    }
    var bodyLen := ReadBodyLength(buf, at);
    if bodyLen > MAX_BODY_LENGTH {
      return Skip(HEADER_LENGTH);
    }
    if validLen < HEADER_LENGTH + bodyLen {
      return Wait;
    }
    return Emit(HEADER_LENGTH + bodyLen);
  }

  method ReadBodyLength(buf: array<Byte>, at: nat) returns (n: nat)
    requires at + HEADER_LENGTH <= buf.Length
    ensures n == DeclaredBody(buf[..][at..at + HEADER_LENGTH])
  {
    SliceOfSlice(buf[..], at, at + HEADER_LENGTH, 82, 86);
    n := ReadWord(buf, at + 82);
  }

  /** The fields of the frame buf[at..end], unless the declared length of the id runs past it. */
  method ReadFrame(buf: array<Byte>, at: nat, end: nat) returns (wire: Option<Packet>)
    requires at + HEADER_LENGTH <= end <= buf.Length
    ensures wire == Opened(buf[..][at..end])
  {
    ghost var s := buf[..];
    SliceOfSlice(s, at, end, 1, 5);
    SliceOfSlice(s, at, end, 5, 9);
    SliceOfSlice(s, at, end, 10, 14);
    SliceOfSlice(s, at, end, 14, 18);
    var cmd := ReadWord(buf, at + 1);
    var seqNo := ReadWord(buf, at + 5);
    var ec := ReadWord(buf, at + 10);
    var rsp := buf[at + 9] != 0;
    var idLen: int := ReadWord(buf, at + 14);
    if at + 18 + idLen > end {
      return None;
    }
    SliceOfSlice(s, at, end, 18, 18 + idLen);
    SliceOfSlice(s, at, end, HEADER_LENGTH, end - at);
    return Some(Packet(cmd, seqNo, rsp, ec, buf[at + 18..at + 18 + idLen], buf[at + HEADER_LENGTH..end]));
  }

  datatype Outcome = Nothing | Got(p: Packet) | Overrun

  /** How the packet made of a frame relates to the frame and to the counter before and after. */
  ghost predicate Numbered(wire: Option<Packet>, r: Outcome, before: Word, after: Word) {
    match wire
    case None => r == Overrun && after == before
    case Some(w) =>
      && r.Got?
      && Constructed(w, r.p)
      && if w.seqNo == 0 then r.p.seqNo == after == NextSeq(before) else after == before
  }

  /** Goes from at to the next flag and, when what starts there is no header that is kept, past it. */
  method Advance(ghost f: WireFormat, buf: array<Byte>, at: nat, end: nat) returns (next: nat, k: Look)
    requires at <= end <= buf.Length
    ensures at <= next <= end
    ensures Decode(f, buf[..end][at..]) == Decode(f, buf[..end][next..])
    ensures if k.Skip? then at < next else k == f.look(buf[..end][next..]) && (k.Emit? ==> k.n >= HEADER_LENGTH)
  {
    next := FindFlag(f, buf, at, end);
    k := JudgeHeader(f, buf, next, end);
    if k.Skip? {
      DecodeSkips(f, buf[..end], next, k.n);
      next := next + k.n;
    }
  }

  /** Scans buf[off..end] for a header that is kept: at is where it starts, k what it is. */
  method ScanFrame(ghost f: WireFormat, buf: array<Byte>, off: nat, end: nat) returns (at: nat, k: Look)
    requires off <= end <= buf.Length
    ensures off <= at <= end
    ensures Decode(f, buf[..end][off..]) == Decode(f, buf[..end][at..])
    ensures f.look(buf[..end][at..]) == k && !k.Skip? && (k.Emit? ==> k.n >= HEADER_LENGTH)
  {
    ghost var v := buf[..end];
    at, k := Advance(f, buf, off, end);
    while k.Skip?
      invariant off <= at <= end
      invariant Decode(f, v[off..]) == Decode(f, v[at..])
      invariant !k.Skip? ==> k == f.look(v[at..]) && (k.Emit? ==> k.n >= HEADER_LENGTH)
      decreases if k.Skip? then 1 + end - at else 0
    {
      at, k := Advance(f, buf, at, end);
    }
  }

  /** decode_packet on buf[off..end].  A frame whose declared id length runs past it ends in Overrun. */
  method DecodePacket(ghost f: WireFormat, buf: array<Byte>, off: nat, end: nat, gen: SeqGenerator)
    returns (consumed: nat, r: Outcome)
    requires off <= end <= buf.Length
    modifies gen
    ensures off + consumed <= end
    ensures Decode(f, old(buf[..end])[off..]).rest == old(buf[..end])[off + consumed..]
    ensures match Decode(f, old(buf[..end])[off..])
            case Starved(_) => r == Nothing && gen.last == old(gen.last)
            case Found(raw, _) => Numbered(f.open(raw), r, old(gen.last), gen.last)
  {
    var at, k := ScanFrame(f, buf, off, end);
    consumed := at - off;
    match k {
      case Wait =>
        r := Nothing;
      case Emit(n) =>
        DecodeEmits(f, buf[..end], at, n);
        assert buf[..end] == buf[..][..end];
        SliceOfSlice(buf[..], 0, end, at, at + n);
        consumed := consumed + n;
        r := ReadPacket(buf, at, at + n, gen);
    }
  }

  /** The packet of the frame buf[at..end]. */
  method ReadPacket(buf: array<Byte>, at: nat, end: nat, gen: SeqGenerator) returns (r: Outcome)
    requires at + HEADER_LENGTH <= end <= buf.Length
    modifies gen
    ensures Numbered(Opened(old(buf[..])[at..end]), r, old(gen.last), gen.last)
  {
    var wire := ReadFrame(buf, at, end);
    r := Construct(wire, gen);
  }

  /** The packet of the fields read, if they are determined. */
  method Construct(wire: Option<Packet>, gen: SeqGenerator) returns (r: Outcome)
    modifies gen
    ensures Numbered(wire, r, old(gen.last), gen.last)
  {
    match wire
    case None =>
      r := Overrun;
    case Some(w) =>
      var p := MakePacket(w, gen);
      r := Got(p);
  }

  // ----- Sending and receiving -----

  /** A packet the encoder takes and the decoder lets through. */
  predicate Sendable(p: Packet) {
    Encodable(p) && |p.body| <= MAX_BODY_LENGTH
  }

  /** No byte that could be taken for the start of a header. */
  ghost predicate Quiet(g: seq<Byte>) {
    forall i :: 0 <= i < |g| ==> g[i] != PACKET_BEGIN_FLAG
  }

  datatype Message = Message(before: seq<Byte>, packet: Packet)

  ghost predicate AllSendable(ms: seq<Message>) {
    forall i :: 0 <= i < |ms| ==> Quiet(ms[i].before) && Sendable(ms[i].packet)
  }

  /** The messages on the wire, each with what precedes it. */
  ghost function Transmit(ms: seq<Message>): seq<Byte>
    requires AllSendable(ms)
  {
    if ms == [] then [] else ms[0].before + (Encode(ms[0].packet) + Transmit(ms[1..]))
  }

  ghost function Encodings(ms: seq<Message>): seq<seq<Byte>>
    requires AllSendable(ms)
  {
    if ms == [] then [] else [Encode(ms[0].packet)] + Encodings(ms[1..])
  }

  lemma {:induction false} QuietSkipped(f: WireFormat, g: seq<Byte>, s: seq<Byte>)
    requires Quiet(g)
    ensures Parse(f, g + s) == Parse(f, s)
    decreases |g|
  {
    if g == [] {
      assert g + s == s;
    } else {
      assert (g + s)[0] == g[0];
      assert (g + s)[1..] == g[1..] + s;
      LookIs(f, g + s);
      ParseSkips(f, g + s, 1);
      QuietSkipped(f, g[1..], s);
    }
  }

  lemma LookAtEncoded(f: WireFormat, p: Packet, s: seq<Byte>)
    requires Encodable(p)
    ensures f.look(Encode(p) + s)
         == if |p.body| <= 16384 then Emit(87 + |p.body|) else Skip(87)
  {
    LookIs(f, Encode(p) + s);
    EncodedIsFrame(p, s);
    WireLayout(p, s);
    var h := (Encode(p) + s)[..HEADER_LENGTH];
    assert h[82..86] == (Encode(p) + s)[82..86];
    assert f.check(h) <==> Checks(h);
    assert f.bodyLength(h) == DeclaredBody(h);
  }

  lemma ParseEncoded(f: WireFormat, p: Packet, s: seq<Byte>)
    requires Sendable(p)
    ensures Parse(f, Encode(p) + s) == Then([Encode(p)], Parse(f, s))
  {
    LookAtEncoded(f, p, s);
    SlicesOfSum(Encode(p), s, |Encode(p)|);
    ParseEmits(f, Encode(p) + s, |Encode(p)|);
  }

  /** A body over the limit, which the encoder does not refuse, is read as if it were a stream itself. */
  lemma ParseOversized(f: WireFormat, p: Packet, s: seq<Byte>)
    requires Encodable(p) && |p.body| > MAX_BODY_LENGTH
    ensures Parse(f, Encode(p) + s) == Parse(f, p.body + s)
  {
    LookAtEncoded(f, p, s);
    WireLayout(p, s);
    ParseSkips(f, Encode(p) + s, HEADER_LENGTH);
  }

  /** A header damaged on the way is passed over exactly when its error leaves a residue. */
  lemma DamagedHeaderSkippedIff(f: WireFormat, p: Packet, got: seq<Byte>, s: seq<Byte>)
    requires Encodable(p)
    requires |got| == HEADER_LENGTH && got[0] == PACKET_BEGIN_FLAG
    ensures f.look(got + s) == Skip(1)
       <==> Register(PER_OCTET, 0, Difference(Encode(p)[..HEADER_LENGTH], got)) != 0
  {
    EncodedIsFrame(p, []);
    assert Encode(p) + [] == Encode(p);
    ErrorAcceptedIff(Encode(p)[..HEADER_LENGTH], got);
    SlicesOfSum(got, s, HEADER_LENGTH);
    assert got[..HEADER_LENGTH] == got;
    JudgedByCheck(f, got + s, got);
  }

  lemma JudgedByCheck(f: WireFormat, s: seq<Byte>, h: seq<Byte>)
    requires |h| == HEADER_LENGTH && h <= s && h[0] == PACKET_BEGIN_FLAG
    ensures f.look(s) == Skip(1) <==> !Checks(h)
  {
    LookIs(f, s);
    assert s[..HEADER_LENGTH] == h;
    assert f.check(h) <==> Checks(h);
  }

  lemma OneMessage(f: WireFormat, before: seq<Byte>, p: Packet, more: seq<Byte>)
    requires Quiet(before) && Sendable(p)
    ensures Parse(f, before + (Encode(p) + more)) == Then([Encode(p)], Parse(f, more))
  {
    QuietSkipped(f, before, Encode(p) + more);
    ParseEncoded(f, p, more);
  }

  lemma TransmitFirst(ms: seq<Message>, after: seq<Byte>)
    requires AllSendable(ms) && ms != []
    ensures Transmit(ms) + after == ms[0].before + (Encode(ms[0].packet) + (Transmit(ms[1..]) + after))
  {
    Associate(ms[0].before, Encode(ms[0].packet), Transmit(ms[1..]), after);
  }

  lemma Associate<T>(a: seq<T>, b: seq<T>, c: seq<T>, d: seq<T>)
    ensures a + (b + c) + d == a + (b + (c + d))
  {
  }

  /** Whatever flag-free bytes lie between them, exactly the packets sent are received, in order, and what
      follows them is parsed as if it stood alone. */
  lemma {:induction false} Resynchronises(f: WireFormat, ms: seq<Message>, after: seq<Byte>)
    requires AllSendable(ms)
    ensures Parse(f, Transmit(ms) + after) == Then(Encodings(ms), Parse(f, after))
    decreases |ms|
  {
    if ms == [] {
      assert Transmit(ms) + after == after;
      ThenNothing(Parse(f, after));
    } else {
      TransmitFirst(ms, after);
      OneMessage(f, ms[0].before, ms[0].packet, Transmit(ms[1..]) + after);
      Resynchronises(f, ms[1..], after);
      ThenThen([Encode(ms[0].packet)], Encodings(ms[1..]), Parse(f, after));
    }
  }

  /** No encoding is a proper prefix of another. */
  lemma EncodingPrefixFree(p: Packet, q: Packet, x: seq<Byte>, y: seq<Byte>)
    requires Encodable(p) && Encodable(q)
    requires Encode(p) + x == Encode(q) + y
    ensures Encode(p) == Encode(q) && x == y
    ensures p.(deviceId := Carried(p.deviceId)) == q.(deviceId := Carried(q.deviceId))
  {
    EncodedIsFrame(p, x);
    EncodedIsFrame(q, y);
    var n := HEADER_LENGTH + |p.body|;
    assert Encode(p) == (Encode(p) + x)[..n] == (Encode(q) + y)[..n] == Encode(q);
    assert x == (Encode(p) + x)[n..] == (Encode(q) + y)[n..] == y;
    UnpackEncoded(p);
    UnpackEncoded(q);
  }
}
