/** The receiving side of a client: every request is acknowledged, repeats are suppressed, and what is new goes
    into the channel of its command, from which the application takes it. */
module Clients {
  import opened Bytes
  import opened Packets
  import opened Lru
  import opened Dedup

  const RECENTLY_RECEIVED_REQUEST_CAP: nat := 1000
  const RECEIVED_PACKET_CHANNEL_SIZE: nat := 64

  /** Packets sent and not yet taken, receivers that wait for one, and the packets taken, in order. */
  datatype Channel = Channel(buffer: seq<Packet>, receivers: nat, taken: seq<Packet>)

  const NEW_CHANNEL := Channel([], 0, [])

  predicate WellKept(c: Channel) {
    |c.buffer| <= RECEIVED_PACKET_CHANNEL_SIZE && (c.receivers > 0 ==> c.buffer == [])
  }

  /** Accepted by a channel; dropped because the channel was full; or the command had no channel. */
  datatype Fate = Accepted | Dropped | NoChannel

  datatype Handing = Handing(p: Packet, fate: Fate)

  /** try_send: to a waiting receiver, else into the buffer, else nowhere. */
  function TrySend(c: Channel, p: Packet): (r: (Channel, Fate)) {
    if c.receivers > 0 then (c.(receivers := c.receivers - 1, taken := c.taken + [p]), Accepted)
    else if |c.buffer| < RECEIVED_PACKET_CHANNEL_SIZE then (c.(buffer := c.buffer + [p]), Accepted)
    else (c, Dropped)
  }

  /** async_receive: the oldest packet, or a place among the receivers. */
  function Receive(c: Channel): (r: Channel) {
    if c.buffer != [] then c.(buffer := c.buffer[1..], taken := c.taken + [c.buffer[0]])
    else c.(receivers := c.receivers + 1)
  }

  /** A channel gives out what it accepted, in order; it refuses a packet only when it is full; and whoever asks
      has got a packet or is still waiting. */
  lemma ChannelIsFifo(c: Channel, p: Packet)
    requires WellKept(c)
    ensures var (d, fate) := TrySend(c, p);
            && WellKept(d)
            && d.taken + d.buffer == c.taken + c.buffer + (if fate == Accepted then [p] else [])
            && (fate == Accepted || (fate == Dropped && |c.buffer| == RECEIVED_PACKET_CHANNEL_SIZE))
            && |d.taken| + d.receivers == |c.taken| + c.receivers
    ensures var d := Receive(c);
            && WellKept(d)
            && d.taken + d.buffer == c.taken + c.buffer
            && |d.taken| + d.receivers == |c.taken| + c.receivers + 1
  {
  }

  function Ids(ps: seq<Packet>): (r: seq<nat>)
    ensures |r| == |ps|
  {
    seq(|ps|, i requires 0 <= i < |ps| => PacketId(ps[i]))
  }

  /** The requests that are taken for new. */
  function New(received: seq<Packet>): seq<Packet>
    decreases |received|
  {
    if received == [] then []
    else
      var n := |received| - 1;
      New(received[..n]) + if IsNew(received[..n], received[n]) then [received[n]] else []
  }

  predicate IsNew(received: seq<Packet>, p: Packet) {
    Passes(Ids(received), PacketId(p), RECENTLY_RECEIVED_REQUEST_CAP)
  }

  function Handed(log: seq<Handing>): (r: seq<Packet>)
    ensures |r| == |log|
  {
    seq(|log|, i requires 0 <= i < |log| => log[i].p)
  }

  /** What the channel of cmd has accepted, in order. */
  function AcceptedFor(log: seq<Handing>, cmd: Word): seq<Packet>
    decreases |log|
  {
    if log == [] then []
    else
      var h := log[|log| - 1];
      AcceptedFor(log[..|log| - 1], cmd) + if h.fate == Accepted && h.p.cmd == cmd then [h.p] else []
  }

  /** The acknowledgement of a request: its command and number, with an empty body. */
  function Ack(p: Packet, deviceId: seq<Byte>): Packet {
    Packet(p.cmd, p.seqNo, true, 0, deviceId, [])
  }

  /** An acknowledgement answers its request, and says nothing else. */
  lemma AckAnswers(p: Packet, deviceId: seq<Byte>)
    ensures Ack(p, deviceId).rsp && PacketId(Ack(p, deviceId)) == PacketId(p)
    ensures Ack(p, deviceId).ec == 0 && Ack(p, deviceId).body == [] && Ack(p, deviceId).deviceId == deviceId
  {
  }

  /** One response for each request, of its identity, in order. */
  ghost predicate Acknowledges(acks: seq<Packet>, requests: seq<Packet>) {
    Ids(acks) == Ids(requests) && forall i :: 0 <= i < |acks| ==> acks[i].rsp
  }

  lemma AcknowledgesSnoc(acks: seq<Packet>, requests: seq<Packet>, p: Packet, deviceId: seq<Byte>)
    requires Acknowledges(acks, requests)
    ensures Acknowledges(acks + [Ack(p, deviceId)], requests + [p])
  {
    IdsSnoc(acks, Ack(p, deviceId));
    IdsSnoc(requests, p);
  }

  lemma IdsSnoc(ps: seq<Packet>, p: Packet)
    ensures Ids(ps + [p]) == Ids(ps) + [PacketId(p)]
  {
  }

  lemma NewSnoc(ps: seq<Packet>, p: Packet)
    ensures New(ps + [p]) == New(ps) + if IsNew(ps, p) then [p] else []
  {
    assert (ps + [p])[..|ps|] == ps;
  }

  lemma AcceptedSnoc(log: seq<Handing>, h: Handing, cmd: Word)
    ensures AcceptedFor(log + [h], cmd)
         == AcceptedFor(log, cmd) + if h.fate == Accepted && h.p.cmd == cmd then [h.p] else []
  {
    assert (log + [h])[..|log|] == log;
  }

  /** The new requests are, by identity, what passes the memory of recent ones. */
  lemma {:induction false} NewArePassed(received: seq<Packet>)
    ensures Ids(New(received)) == Passed(Ids(received), RECENTLY_RECEIVED_REQUEST_CAP)
    decreases |received|
  {
    if received != [] {
      var front, last := received[..|received| - 1], received[|received| - 1];
      NewArePassed(front);
      assert received == front + [last];
      IdsSnoc(front, last);
      IdsSnoc(New(front), last);
      assert Ids(received)[..|front|] == Ids(front);
    }
  }

  /** The channel of cmd, which is a new one until the application first asks for cmd. */
  function ChannelOf(channels: map<Word, Channel>, cmd: Word): Channel {
    if cmd in channels then channels[cmd] else NEW_CHANNEL
  }

  ghost predicate Kept(c: Channel, log: seq<Handing>, cmd: Word) {
    WellKept(c) && c.taken + c.buffer == AcceptedFor(log, cmd)
  }

  /** Every channel has accepted its own requests in order and lost none. */
  ghost predicate AllKept(channels: map<Word, Channel>, log: seq<Handing>) {
    forall cmd: Word :: Kept(ChannelOf(channels, cmd), log, cmd)
  }

  /** What handing p on does: to the channel of its command, if there is one. */
  function HandTo(channels: map<Word, Channel>, p: Packet): (map<Word, Channel>, Fate)
  {
    if p.cmd !in channels then (channels, NoChannel)
    else
      var r := TrySend(channels[p.cmd], p);
      (channels[p.cmd := r.0], r.1)
  }

  /** A request is dropped exactly when its channel has accepted 64 that are not taken yet. */
  lemma DroppedIff(channels: map<Word, Channel>, log: seq<Handing>, p: Packet)
    requires AllKept(channels, log) && p.cmd in channels
    ensures HandTo(channels, p).1 == Dropped
       <==> |AcceptedFor(log, p.cmd)| == |channels[p.cmd].taken| + RECEIVED_PACKET_CHANNEL_SIZE
  {
    var c := channels[p.cmd];
    assert Kept(ChannelOf(channels, p.cmd), log, p.cmd);
    assert |c.taken + c.buffer| == |AcceptedFor(log, p.cmd)|;
    ChannelIsFifo(c, p);
  }

  lemma HandKeepsAll(channels: map<Word, Channel>, log: seq<Handing>, p: Packet)
    requires AllKept(channels, log)
    ensures AllKept(HandTo(channels, p).0, log + [Handing(p, HandTo(channels, p).1)])
  {
    assert Kept(ChannelOf(channels, p.cmd), log, p.cmd);
    ChannelIsFifo(ChannelOf(channels, p.cmd), p);
    var r := HandTo(channels, p);
    forall cmd: Word
      ensures Kept(ChannelOf(r.0, cmd), log + [Handing(p, r.1)], cmd)
    {
      assert Kept(ChannelOf(channels, cmd), log, cmd);
      AcceptedSnoc(log, Handing(p, r.1), cmd);
    }
  }

  lemma ReceiveKeepsAll(channels: map<Word, Channel>, log: seq<Handing>, cmd: Word)
    requires AllKept(channels, log)
    ensures AllKept(channels[cmd := Receive(ChannelOf(channels, cmd))], log)
  {
    assert Kept(ChannelOf(channels, cmd), log, cmd);
    ChannelIsFifo(ChannelOf(channels, cmd), Packet(0, 0, false, 0, [], []));
    var r := channels[cmd := Receive(ChannelOf(channels, cmd))];
    forall other: Word
      ensures Kept(ChannelOf(r, other), log, other)
    {
      assert Kept(ChannelOf(channels, other), log, other);
    }
  }

  class TcpClient {
    const recent: Cache<nat>
    const gen: SeqGenerator
    var channels: map<Word, Channel>
    var outbox: seq<Packet>
    var faulted: bool

    // The requests received, and what became of those that were new.
    ghost var received: seq<Packet>
    ghost var log: seq<Handing>

    /** The memory holds the latest identities. */
    ghost predicate Remembers()
      reads this`received, recent
    {
      && recent.Valid() && recent.cap == RECENTLY_RECEIVED_REQUEST_CAP
      && recent.Contents() == Take(Recency(Ids(received)), RECENTLY_RECEIVED_REQUEST_CAP)
    }

    /** Exactly the new requests were handed on, and every request was acknowledged once, in order. */
    ghost predicate Valid()
      reads this, recent
    {
      && Remembers()
      && AllKept(channels, log)
      && Handed(log) == New(received)
      && Acknowledges(outbox, received)
    }

    constructor (gen: SeqGenerator)
      ensures Valid() && fresh(recent) && this.gen == gen
      ensures channels == map[] && outbox == [] && !faulted && received == [] && log == []
    {
      recent := new Cache<nat>(RECENTLY_RECEIVED_REQUEST_CAP);
      this.gen := gen;
      channels, outbox, faulted, received, log := map[], [], false, [], [];
    }

    /** Whether the identity of pack was received lately; it is now. */
    method Remember(pack: Packet) returns (known: bool)
      requires Remembers()
      modifies this`received, recent
      ensures Remembers() && received == old(received) + [pack]
      ensures known == !IsNew(old(received), pack)
    {
      TouchedIsRecency(Ids(received), PacketId(pack), RECENTLY_RECEIVED_REQUEST_CAP);
      IdsSnoc(received, pack);
      received := received + [pack];
      known := recent.Exist(PacketId(pack));
      if !known {
        recent.Put(PacketId(pack));
      }
    }

    /** Acknowledges pack, then hands it to the channel of its command unless it was received lately.  Without
        a channel there is nothing to send to, and the client does not go on. */
    method OnReceiveRequest(deviceId: seq<Byte>, pack: Packet)
      requires Valid() && !faulted && pack.seqNo != 0
      modifies this, recent, gen
      ensures Valid() && received == old(received) + [pack] && gen.last == old(gen.last)
      ensures outbox == old(outbox) + [Packet(pack.cmd, pack.seqNo, true, 0, deviceId, [])]
      ensures if IsNew(old(received), pack)
              then var r := HandTo(old(channels), pack);
                   channels == r.0 && log == old(log) + [Handing(pack, r.1)] && faulted == r.1.NoChannel?
              else channels == old(channels) && log == old(log) && !faulted
    {
      var ack := BuildRspPacket(pack.cmd, pack.seqNo, 0, deviceId, [], gen);
      outbox := outbox + [ack];
      AcknowledgesSnoc(old(outbox), received, pack, deviceId);
      HandIfNew(pack);
    }

    method HandIfNew(pack: Packet)
      requires Remembers() && AllKept(channels, log) && Handed(log) == New(received) && !faulted
      modifies this`channels, this`faulted, this`log, this`received, recent
      ensures Remembers() && AllKept(channels, log) && Handed(log) == New(received)
      ensures received == old(received) + [pack]
      ensures if IsNew(old(received), pack)
              then var r := HandTo(old(channels), pack);
                   channels == r.0 && log == old(log) + [Handing(pack, r.1)] && faulted == r.1.NoChannel?
              else channels == old(channels) && log == old(log) && !faulted
    {
      NewSnoc(received, pack);
      var known := Remember(pack);
      if !known {
        HandOn(pack);
      }
    }

    method HandOn(pack: Packet)
      requires AllKept(channels, log) && !faulted
      modifies this`channels, this`faulted, this`log
      ensures AllKept(channels, log) && Handed(log) == Handed(old(log)) + [pack]
      ensures var r := HandTo(old(channels), pack);
              channels == r.0 && log == old(log) + [Handing(pack, r.1)] && faulted == r.1.NoChannel?
    {
      HandKeepsAll(channels, log, pack);
      ghost var fate := HandTo(channels, pack).1;
      if pack.cmd in channels {
        channels := channels[pack.cmd := TrySend(channels[pack.cmd], pack).0];
      } else {
        faulted := true;
      }
      log := log + [Handing(pack, fate)];
    }

    /** The application asks for a request with cmd; the first time makes the channel. */
    method WaitRequest(cmd: Word)
      requires Valid()
      modifies this`channels
      ensures Valid() && channels == old(channels)[cmd := Receive(ChannelOf(old(channels), cmd))]
    {
      ReceiveKeepsAll(channels, log, cmd);
      if cmd !in channels {
        channels := channels[cmd := NEW_CHANNEL];
      }
      channels := channels[cmd := Receive(channels[cmd])];
      assert channels == old(channels)[cmd := Receive(ChannelOf(old(channels), cmd))];
    }
  }
}
