/** From sender to receiver: what is encoded, cut into reads in any way, decoded and handed up. */
module Exchanges {
  import opened Bytes
  import opened Crc
  import opened LinearRegister
  import opened Packets
  import opened Parsing
  import opened Framing
  import opened Links
  import opened Connections
  import opened Identity
  import R = Requests

  // ----- What is sent is what is handed up -----

  function Sent(ms: seq<Message>): (es: seq<Event>)
    ensures |es| == |ms|
  {
    seq(|ms|, i requires 0 <= i < |ms| => HandUp(ms[i].packet))
  }

  /** Packets as the library of one device builds them: numbered, and with its id. */
  ghost predicate AllFrom(ms: seq<Message>, id: seq<Byte>) {
    forall i :: 0 <= i < |ms| ==> ms[i].packet.deviceId == id && ms[i].packet.seqNo != 0
  }

  function PacketsOf(ms: seq<Message>): (ps: seq<Packet>)
    ensures |ps| == |ms|
  {
    seq(|ms|, i requires 0 <= i < |ms| => ms[i].packet)
  }

  lemma {:induction false} EncodingsAreImages(f: WireFormat, ms: seq<Message>)
    requires AllSendable(ms)
    ensures Encodings(ms) == Images(f, PacketsOf(ms))
    decreases |ms|
  {
    if ms != [] {
      EncodingsAreImages(f, ms[1..]);
      assert PacketsOf(ms)[1..] == PacketsOf(ms[1..]);
      ImagesFirst(f, PacketsOf(ms));
      assert f.write(ms[0].packet) == Wire(ms[0].packet);
    }
  }

  lemma UpsAreSent(ms: seq<Message>, id: seq<Byte>)
    requires AllFrom(ms, id) && NulOnlyAtEnd(id)
    ensures Ups(PacketsOf(ms)) == Sent(ms) && Carried(id) == id
  {
    CarriedIff(id);
  }

  lemma FramesSent(f: WireFormat, ms: seq<Message>)
    requires AllSendable(ms)
    ensures Parse(f, Transmit(ms)).frames == Encodings(ms)
  {
    Resynchronises(f, ms, []);
    assert Transmit(ms) + [] == Transmit(ms);
    LookIs(f, []);
    ParseWaits(f, []);
  }

  /** Every packet that one device sends is handed up as it was, once, in order, and nothing else is, whatever
      flag-free bytes lie between. */
  lemma DeliversAll(f: WireFormat, ms: seq<Message>, id: seq<Byte>)
    requires AllSendable(ms) && AllFrom(ms, id) && ms != [] && id != [] && NulOnlyAtEnd(id)
    ensures Run(f, Transmit(ms)) == Played(Peer(id, Reading), [GotDeviceId(id)] + Sent(ms))
  {
    FramesSent(f, ms);
    EncodingsAreImages(f, ms);
    UpsAreSent(ms, id);
    PlayAll(f, PacketsOf(ms), id);
  }

  /** So the log of a receive loop that has read all of it, in reads of any size, is known exactly. */
  lemma LogOfAll(f: WireFormat, ms: seq<Message>, id: seq<Byte>, log: seq<Event>)
    requires AllSendable(ms) && AllFrom(ms, id) && ms != [] && id != [] && NulOnlyAtEnd(id)
    requires AllAgree(Final(f, Transmit(ms)), log)
    ensures log == [GotDeviceId(id)] + Sent(ms) + [Disconnected(id)]
  {
    DeliversAll(f, ms, id);
    NumberedAgreeExactly(Final(f, Transmit(ms)), log);
  }

  lemma SendableFront(ms: seq<Message>, m: Message)
    requires AllSendable(ms + [m])
    ensures AllSendable(ms) && Sendable(m.packet)
  {
    var all := ms + [m];
    assert all[|ms|] == m;
    assert forall i :: 0 <= i < |ms| ==> ms[i] == all[i];
  }

  lemma FramesBehind(f: WireFormat, ms: seq<Message>, m: Message, after: seq<Byte>)
    requires AllSendable(ms + [m])
    ensures Parse(f, Transmit(ms + [m]) + after).frames
         == Images(f, PacketsOf(ms)) + ([f.write(m.packet)] + Parse(f, after).frames)
  {
    Resynchronises(f, ms + [m], after);
    EncodingsAreImages(f, ms + [m]);
    assert PacketsOf(ms + [m]) == PacketsOf(ms) + [m.packet];
    ImagesConcat(f, PacketsOf(ms), [m.packet]);
    assert Images(f, [m.packet]) == [f.write(m.packet)];
    assert Images(f, PacketsOf(ms)) + [f.write(m.packet)] + Parse(f, after).frames
        == Images(f, PacketsOf(ms)) + ([f.write(m.packet)] + Parse(f, after).frames);
  }

  lemma PlayBehind(f: WireFormat, ms: seq<Message>, id: seq<Byte>, p: Packet, more: seq<seq<Byte>>)
    requires AllSendable(ms) && AllFrom(ms, id) && ms != [] && id != [] && NulOnlyAtEnd(id)
    requires Encodable(p) && NulOnlyAtEnd(p.deviceId) && p.deviceId !in {id, []}
    ensures Play(f, NEW_PEER, Images(f, PacketsOf(ms)) + ([f.write(p)] + more))
         == Played(Peer(id, Stranger), [GotDeviceId(id)] + Sent(ms))
  {
    UpsAreSent(ms, id);
    PlayAll(f, PacketsOf(ms), id);
    StrangerStops(f, p, id, more);
    PlayConcat(f, NEW_PEER, Images(f, PacketsOf(ms)), [f.write(p)] + more);
  }

  /** A packet of another device ends the connection, whatever follows: what was sent before is handed up, the owner
      is told that it is over, and that is all. */
  lemma StrangerEnds(f: WireFormat, ms: seq<Message>, id: seq<Byte>, m: Message, after: seq<Byte>)
    requires AllSendable(ms + [m]) && AllFrom(ms, id) && ms != [] && id != [] && NulOnlyAtEnd(id)
    requires m.packet.deviceId !in {id, []} && NulOnlyAtEnd(m.packet.deviceId)
    ensures Final(f, Transmit(ms + [m]) + after) == [GotDeviceId(id)] + Sent(ms) + [Disconnected(id)]
  {
    SendableFront(ms, m);
    FramesBehind(f, ms, m, after);
    PlayBehind(f, ms, id, m.packet, Parse(f, after).frames);
  }

  lemma StrangerStops(f: WireFormat, p: Packet, id: seq<Byte>, more: seq<seq<Byte>>)
    requires Encodable(p) && NulOnlyAtEnd(p.deviceId) && p.deviceId !in {id, []} && id != []
    ensures Play(f, Peer(id, Reading), [f.write(p)] + more) == Played(Peer(id, Stranger), [])
  {
    OpensAs(f, p);
    CarriedIff(p.deviceId);
    PlayFirst(f, Peer(id, Reading), f.write(p), more);
    StoppedStays(f, Peer(id, Stranger), more);
  }

  // ----- Damaged headers -----

  /** A header with a burst of errors, or with an odd number of them, is passed over. */
  lemma DamagedHeaderSkipped(f: WireFormat, p: Packet, got: seq<Byte>, s: seq<Byte>, at: nat, pattern: bv8, shift: bv8)
    requires Encodable(p) && |got| == HEADER_LENGTH
    requires var e := Difference(Encode(p)[..HEADER_LENGTH], got);
             IsBurst(e, at, pattern, shift) || OddMany(Odd, e)
    ensures f.look(got + s) == Skip(1)
  {
    var e := Difference(Encode(p)[..HEADER_LENGTH], got);
    if OddMany(Odd, e) {
      OddErrorDetected(e);
    } else {
      BurstDetected(e, at, pattern, shift);
    }
    if got[0] == PACKET_BEGIN_FLAG {
      DamagedHeaderSkippedIff(f, p, got, s);
    } else {
      LookIs(f, got + s);
    }
  }

  // ----- What a waiting call gets -----

  /** The responses among the events, in order. */
  function Responses(es: seq<Event>): seq<Packet>
    decreases |es|
  {
    if es == [] then []
    else
      var n := |es| - 1;
      Responses(es[..n]) + if es[n].Response? then [es[n].p] else []
  }

  lemma {:induction false} ResponseAt(es: seq<Event>, p: Packet) returns (i: nat)
    requires p in Responses(es)
    ensures i < |es| && es[i] == Response(p)
    decreases |es|
  {
    var n := |es| - 1;
    if es[n] == Response(p) {
      i := n;
    } else {
      i := ResponseAt(es[..n], p);
    }
  }

  /** What a call on a connection gets was in a frame the peer sent, carries the device id of the connection, is
      a response, and has the identity of the request. */
  lemma AnswerWasFramed(f: Format, stream: seq<Byte>, log: seq<Event>, ops: seq<R.Op>, w: nat) returns (k: nat)
    requires AllAgree(Run(f, stream).events, log)
    requires R.Replay(ops).Some? && R.Arrivals(ops) == Responses(log) && w < |R.Replay(ops).value.waiters|
    requires var state := R.Replay(ops).value.waiters[w].state; state.Ready? || state.Returned?
    ensures k < |Parse(f, stream).frames| && f.open(Parse(f, stream).frames[k]).Some?
    ensures var c := R.Replay(ops).value.waiters[w];
            && Constructed(f.open(Parse(f, stream).frames[k]).value, c.state.p)
            && c.state.p.rsp && PacketId(c.state.p) == c.key
            && c.state.p.deviceId == Run(f, stream).peer.deviceId
  {
    R.GetsAnAnswer(ops, w);
    var p := R.Replay(ops).value.waiters[w].state.p;
    var i := ResponseAt(log, p);
    assert Agrees(Run(f, stream).events[i], log[i]);
    BoundToOneDevice(f, stream);
    k := HandedUpWasFramed(f, NEW_PEER, Parse(f, stream).frames, i);
    assert i >= 1 ==> HandedUp(Run(f, stream).events[i], Run(f, stream).peer.deviceId);
  }
}
