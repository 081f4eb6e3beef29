/** One direction of a connection: the packets written to it, the bytes they make, and the packets that come out
    at the other end. */
module Links {
  import opened Bytes
  import opened Packets
  import opened Parsing
  import opened Framing
  import opened Connections
  import opened Identity

  /** The bytes written for ps. */
  function Stream(f: Format, ps: seq<Packet>): seq<Byte>
    decreases |ps|
  {
    if ps == [] then [] else f.write(ps[0]) + Stream(f, ps[1..])
  }

  /** The wire images of ps. */
  function Images(f: Format, ps: seq<Packet>): (ws: seq<seq<Byte>>)
    ensures |ws| == |ps|
  {
    seq(|ps|, i requires 0 <= i < |ps| => f.write(ps[i]))
  }

  /** Event e hands p up: as a request, or as a response to be dispatched. */
  ghost predicate HandsUp(e: Event, p: Packet) {
    (e.Request? || e.Response?) && Constructed(e.p, p)
  }

  /** p is what the connection at the other end hands up as its n-th event. */
  ghost predicate Arrives(f: WireFormat, ps: seq<Packet>, n: nat, p: Packet) {
    var events := Run(f, Stream(f, ps)).events;
    n < |events| && HandsUp(events[n], p)
  }

  /** What arrives for a packet the decoder lets through. */
  function Arrival(p: Packet): Packet {
    p.(deviceId := Carried(p.deviceId))
  }

  /** The decoder makes it of the encoding of p. */
  lemma ArrivalIsDecoded(p: Packet, q: Packet)
    requires Encodable(p) && p.seqNo != 0
    ensures Unpack(Encode(p)).Some? && (Constructed(Unpack(Encode(p)).value, q) <==> q == Arrival(p))
  {
    UnpackEncoded(p);
  }

  lemma Opens(f: WireFormat, p: Packet, q: Packet)
    requires Encodable(p) && p.seqNo != 0
    ensures f.open(f.write(p)).Some? && (Constructed(f.open(f.write(p)).value, q) <==> q == Arrival(p))
  {
    assert f.write(p) == Wire(p);
    assert f.open(Wire(p)) == Opened(Wire(p));
    ArrivalIsDecoded(p, q);
  }

  ghost predicate AllEncodable(ps: seq<Packet>) {
    forall i :: 0 <= i < |ps| ==> Encodable(ps[i])
  }

  /** No body is longer than the decoder takes. */
  ghost predicate AllWithin(ps: seq<Packet>) {
    forall i :: 0 <= i < |ps| ==> |ps[i].body| <= MAX_BODY_LENGTH
  }

  ghost predicate AllNumbered(ps: seq<Packet>) {
    forall i :: 0 <= i < |ps| ==> ps[i].seqNo != 0
  }

  lemma WriteParsed(f: WireFormat, p: Packet, s: seq<Byte>)
    requires Encodable(p)
    ensures |p.body| <= MAX_BODY_LENGTH ==> Parse(f, f.write(p) + s) == Then([f.write(p)], Parse(f, s))
    ensures |p.body| > MAX_BODY_LENGTH ==> Parse(f, f.write(p) + s) == Parse(f, p.body + s)
    ensures |f.write(p)| == HEADER_LENGTH + |p.body|
  {
    assert f.write(p) == Wire(p);
    if |p.body| <= MAX_BODY_LENGTH {
      ParseEncoded(f, p, s);
    } else {
      ParseOversized(f, p, s);
    }
  }

  lemma NothingParsed(f: WireFormat)
    ensures Parse(f, []) == Parsed([], [])
  {
    LookIs(f, []);
    ParseWaits(f, []);
  }

  /** Packets within the limit are the first frames of any stream they start. */
  lemma {:induction false} StreamParsed(f: WireFormat, ps: seq<Packet>, s: seq<Byte>)
    requires AllEncodable(ps) && AllWithin(ps)
    ensures Parse(f, Stream(f, ps) + s) == Then(Images(f, ps), Parse(f, s))
    decreases |ps|
  {
    if ps == [] {
      assert [] + s == s;
      ThenNothing(Parse(f, s));
    } else {
      var w := f.write(ps[0]);
      assert Stream(f, ps) + s == w + (Stream(f, ps[1..]) + s);
      WriteParsed(f, ps[0], Stream(f, ps[1..]) + s);
      StreamParsed(f, ps[1..], s);
      ThenThen([w], Images(f, ps[1..]), Parse(f, s));
      assert Images(f, ps) == [w] + Images(f, ps[1..]);
    }
  }

  lemma StreamAlone(f: WireFormat, ps: seq<Packet>)
    requires AllEncodable(ps) && AllWithin(ps)
    ensures Parse(f, Stream(f, ps)) == Parsed(Images(f, ps), [])
  {
    StreamParsed(f, ps, []);
    NothingParsed(f);
    assert Stream(f, ps) + [] == Stream(f, ps);
    assert Images(f, ps) + [] == Images(f, ps);
  }

  lemma OversizedIsNoFrame(f: WireFormat, s: seq<Byte>, p: Packet, i: nat)
    requires Encodable(p) && |p.body| > MAX_BODY_LENGTH && i < |Parse(f, s).frames|
    ensures Parse(f, s).frames[i] != f.write(p)
  {
    WriteParsed(f, p, []);
    WireRegular(f);
    FramesAreWhole(f, s, i);
  }

  /** The frames of a stream are the packets written, one for one, exactly when no body is over the limit, which
      the encoder does not check. */
  lemma FramesAreImagesIff(f: WireFormat, ps: seq<Packet>)
    requires AllEncodable(ps)
    ensures Parse(f, Stream(f, ps)).frames == Images(f, ps) <==> AllWithin(ps)
  {
    if AllWithin(ps) {
      StreamAlone(f, ps);
    } else {
      var i :| 0 <= i < |ps| && |ps[i].body| > MAX_BODY_LENGTH;
      assert Images(f, ps)[i] == f.write(ps[i]);
      if i < |Parse(f, Stream(f, ps)).frames| {
        OversizedIsNoFrame(f, Stream(f, ps), ps[i], i);
      }
    }
  }

  /** Then only what was written arrives, with its id as carried. */
  lemma ArrivedWasWritten(f: WireFormat, ps: seq<Packet>, n: nat, p: Packet) returns (k: nat)
    requires AllEncodable(ps) && AllWithin(ps) && AllNumbered(ps) && Arrives(f, ps, n, p)
    ensures k < |ps| && p == Arrival(ps[k])
  {
    StreamAlone(f, ps);
    k := HandedUpWasFramed(f, NEW_PEER, Images(f, ps), n);
    assert Images(f, ps)[k] == f.write(ps[k]);
    Opens(f, ps[k], p);
    HandUpHands(f.open(Images(f, ps)[k]).value, p);
  }

  lemma HandUpHands(w: Packet, p: Packet)
    ensures HandsUp(HandUp(w), p) <==> Constructed(w, p)
  {
  }

  // ----- The packets of one device -----

  /** All carry this id. */
  ghost predicate AllOf(ps: seq<Packet>, id: seq<Byte>) {
    forall i :: 0 <= i < |ps| ==> ps[i].deviceId == id
  }

  function Ups(ps: seq<Packet>): (es: seq<Event>)
    ensures |es| == |ps|
  {
    seq(|ps|, i requires 0 <= i < |ps| => HandUp(Arrival(ps[i])))
  }

  lemma OpensAs(f: WireFormat, p: Packet)
    requires Encodable(p)
    ensures f.open(f.write(p)) == Some(Arrival(p))
  {
    assert f.write(p) == Wire(p);
    assert f.open(Wire(p)) == Opened(Wire(p));
    UnpackEncoded(p);
  }

  lemma ImagesFirst(f: WireFormat, ps: seq<Packet>)
    requires ps != []
    ensures Images(f, ps) == [f.write(ps[0])] + Images(f, ps[1..])
    ensures Ups(ps) == [HandUp(Arrival(ps[0]))] + Ups(ps[1..])
  {
  }

  lemma {:induction false} PlayBoundTo(f: WireFormat, ps: seq<Packet>, id: seq<Byte>)
    requires AllEncodable(ps) && AllOf(ps, id) && id != []
    ensures Play(f, Peer(Carried(id), Reading), Images(f, ps)) == Played(Peer(Carried(id), Reading), Ups(ps))
    decreases |ps|
  {
    if ps != [] {
      OpensAs(f, ps[0]);
      PlayBoundTo(f, ps[1..], id);
      ImagesFirst(f, ps);
      PlayFirst(f, Peer(Carried(id), Reading), f.write(ps[0]), Images(f, ps[1..]));
    }
  }

  /** What a connection hands up of the packets of one device: all of them. */
  lemma PlayAll(f: WireFormat, ps: seq<Packet>, id: seq<Byte>)
    requires AllEncodable(ps) && AllOf(ps, id) && ps != [] && id != []
    ensures Play(f, NEW_PEER, Images(f, ps))
         == Played(Peer(Carried(id), Reading), [GotDeviceId(Carried(id))] + Ups(ps))
  {
    OpensAs(f, ps[0]);
    PlayBoundTo(f, ps[1..], id);
    ImagesFirst(f, ps);
    PlayFirst(f, NEW_PEER, f.write(ps[0]), Images(f, ps[1..]));
    var told, up := GotDeviceId(Carried(id)), HandUp(Arrival(ps[0]));
    assert [told] + ([up] + Ups(ps[1..])) == [told, up] + Ups(ps[1..]);
  }

  /** So of what is written for one device exactly that arrives, in order, behind the telling of the id. */
  lemma ArrivesIff(f: WireFormat, ps: seq<Packet>, id: seq<Byte>, n: nat, p: Packet)
    requires AllEncodable(ps) && AllWithin(ps) && AllNumbered(ps) && AllOf(ps, id) && id != []
    ensures Arrives(f, ps, n, p) <==> 1 <= n <= |ps| && p == Arrival(ps[n - 1])
  {
    StreamAlone(f, ps);
    if ps != [] {
      PlayAll(f, ps, id);
      if 1 <= n <= |ps| {
        HandUpHands(Arrival(ps[n - 1]), p);
      }
    }
  }

  // ----- Reading on -----

  /** What has arrived stays when more is written. */
  lemma ArrivesStill(f: WireFormat, ps: seq<Packet>, more: Packet, n: nat, p: Packet)
    requires Arrives(f, ps, n, p)
    ensures Arrives(f, ps + [more], n, p)
  {
    StreamSnoc(f, ps, more);
    EventsExtend(f, Stream(f, ps), f.write(more));
  }

  lemma EventsExtend(f: WireFormat, s: seq<Byte>, t: seq<Byte>)
    ensures Run(f, s).events <= Run(f, s + t).events
  {
    WireRegular(f);
    RunExtends(f, s, t);
  }

  /** Whatever part of the stream has been read so far, its events come first among those of the stream. */
  lemma ReadPartArrives(f: WireFormat, ps: seq<Packet>, read: nat)
    requires read <= |Stream(f, ps)|
    ensures Run(f, Stream(f, ps)[..read]).events <= Run(f, Stream(f, ps)).events
  {
    assert Stream(f, ps) == Stream(f, ps)[..read] + Stream(f, ps)[read..];
    EventsExtend(f, Stream(f, ps)[..read], Stream(f, ps)[read..]);
  }

  lemma {:induction false} StreamSnoc(f: WireFormat, ps: seq<Packet>, p: Packet)
    ensures Stream(f, ps + [p]) == Stream(f, ps) + f.write(p)
    decreases |ps|
  {
    if ps == [] {
      assert [] + [p] == [p] && [p][1..] == [];
      assert Stream(f, [p]) == f.write(p) + Stream(f, []);
    } else {
      assert (ps + [p])[1..] == ps[1..] + [p];
      StreamSnoc(f, ps[1..], p);
    }
  }

  /** p can go through the wire unchanged and is not ignored at the other end. */
  ghost predicate Ordinary(p: Packet) {
    && Sendable(p)
    && p.seqNo != 0
    && p.deviceId != []
    && NulOnlyAtEnd(p.deviceId)
  }

  ghost predicate AllOrdinary(ps: seq<Packet>) {
    forall i :: 0 <= i < |ps| ==> Ordinary(ps[i])
  }

  lemma OrdinaryFit(ps: seq<Packet>)
    requires AllOrdinary(ps)
    ensures AllEncodable(ps) && AllWithin(ps) && AllNumbered(ps)
  {
    forall i | 0 <= i < |ps|
      ensures Sendable(ps[i]) && ps[i].seqNo != 0
    {
      assert Ordinary(ps[i]);
    }
  }

  lemma OrdinaryArrival(p: Packet)
    requires Ordinary(p)
    ensures Arrival(p) == p
  {
    CarriedIff(p.deviceId);
  }

  /** What an oversized packet adds to a stream is what its body is, read as a stream. */
  lemma FramesOfOversized(f: WireFormat, ps: seq<Packet>, p: Packet)
    requires AllEncodable(ps) && AllWithin(ps) && Encodable(p) && |p.body| > MAX_BODY_LENGTH
    ensures Parse(f, Stream(f, ps + [p])) == Then(Images(f, ps), Parse(f, p.body))
  {
    StreamSnoc(f, ps, p);
    StreamParsed(f, ps, f.write(p));
    WriteParsed(f, p, []);
    assert f.write(p) + [] == f.write(p);
    assert p.body + [] == p.body;
  }

  lemma ImagesConcat(f: WireFormat, ps: seq<Packet>, qs: seq<Packet>)
    ensures Images(f, ps + qs) == Images(f, ps) + Images(f, qs)
  {
  }

  /** Frames behind others add events behind theirs. */
  lemma PlayMore(f: WireFormat, a: seq<seq<Byte>>, b: seq<seq<Byte>>)
    ensures Play(f, NEW_PEER, a).events <= Play(f, NEW_PEER, a + b).events
  {
    PlayConcat(f, NEW_PEER, a, b);
  }

  lemma OversizedFrames(f: WireFormat, ps: seq<Packet>, p: Packet, qs: seq<Packet>, pad: seq<Byte>)
    requires AllEncodable(ps) && AllWithin(ps) && AllEncodable(qs) && AllWithin(qs) && Encodable(p)
    requires p.body == Stream(f, qs) + pad && |p.body| > MAX_BODY_LENGTH
    ensures Parse(f, Stream(f, ps + [p])).frames == Images(f, ps + qs) + Parse(f, pad).frames
  {
    FramesOfOversized(f, ps, p);
    StreamParsed(f, qs, pad);
    ThenThen(Images(f, ps), Images(f, qs), Parse(f, pad));
    ImagesConcat(f, ps, qs);
  }

  /** After packets of a device within the limit, one that is over it and whose body starts with what is written for
      qs, packets of that device too, delivers qs instead of itself. */
  lemma OversizedDelivers(f: WireFormat, ps: seq<Packet>, p: Packet, qs: seq<Packet>, pad: seq<Byte>, id: seq<Byte>,
                          n: nat)
    requires AllOrdinary(ps + qs) && AllOf(ps + qs, id) && Encodable(p)
    requires p.body == Stream(f, qs) + pad && |p.body| > MAX_BODY_LENGTH && n < |qs|
    ensures Arrives(f, ps + [p], 1 + |ps| + n, qs[n])
  {
    OrdinaryParts(ps, qs);
    OversizedFrames(f, ps, p, qs, pad);
    var all := ps + qs;
    assert all[|ps| + n] == qs[n] && Ordinary(qs[n]);
    PlayAll(f, all, id);
    PlayMore(f, Images(f, all), Parse(f, pad).frames);
    assert ([GotDeviceId(Carried(id))] + Ups(all))[1 + |ps| + n] == Ups(all)[|ps| + n];
    OrdinaryArrival(qs[n]);
    HandUpHands(qs[n], qs[n]);
  }

  lemma OrdinaryParts(ps: seq<Packet>, qs: seq<Packet>)
    requires AllOrdinary(ps + qs)
    ensures AllEncodable(ps) && AllWithin(ps) && AllEncodable(qs) && AllWithin(qs) && AllEncodable(ps + qs)
  {
    assert forall i :: 0 <= i < |ps| ==> ps[i] == (ps + qs)[i];
    assert forall i :: 0 <= i < |qs| ==> qs[i] == (ps + qs)[|ps| + i];
    OrdinaryFit(ps + qs);
  }
}
