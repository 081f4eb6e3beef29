/** The server's side: it keeps the registry of its connections, answers heartbeats, and puts every other
    request into the channel of its command if there is one. */
module Servers {
  import opened Bytes
  import opened Packets
  import opened Clients
  import opened Registries

  const HEARTBEAT_CMD: Word := 0

  /** Without the heartbeats, or only those. */
  function Requests(received: seq<Packet>): seq<Packet>
    decreases |received|
  {
    if received == [] then []
    else
      var n := |received| - 1;
      Requests(received[..n]) + if received[n].cmd == HEARTBEAT_CMD then [] else [received[n]]
  }

  function Heartbeats(received: seq<Packet>): seq<Packet>
    decreases |received|
  {
    if received == [] then []
    else
      var n := |received| - 1;
      Heartbeats(received[..n]) + if received[n].cmd == HEARTBEAT_CMD then [received[n]] else []
  }

  lemma SplitSnoc(ps: seq<Packet>, p: Packet)
    ensures Requests(ps + [p]) == Requests(ps) + if p.cmd == HEARTBEAT_CMD then [] else [p]
    ensures Heartbeats(ps + [p]) == Heartbeats(ps) + if p.cmd == HEARTBEAT_CMD then [p] else []
  {
    assert (ps + [p])[..|ps|] == ps;
  }

  class TcpServer {
    const gen: SeqGenerator
    var connections: seq<Option<nat>>
    var connectionMap: map<Id, nat>
    var channels: map<Word, Channel>
    var outbox: seq<Packet>
    var accepted: nat
    var stopped: bool

    // The connections there have been and what they did; the requests received, and what became of those that
    // are no heartbeats.
    ghost var lives: seq<Life>
    ghost var ops: seq<Op>
    ghost var received: seq<Packet>
    ghost var log: seq<Handing>

    ghost function Now(): Registry
      reads this
    {
      Registry(connections, connectionMap, lives)
    }

    ghost predicate ValidRegistry()
      reads this
    {
      Replay(ops) == Some(Now()) && accepted == |lives|
    }

    /** Heartbeats, and only they, are answered; all other requests, repeated or not, are handed on in order,
        and the channels lose none they have accepted. */
    ghost predicate ValidRequests()
      reads this
    {
      && AllKept(channels, log)
      && Handed(log) == Requests(received)
      && Acknowledges(outbox, Heartbeats(received))
    }

    constructor (gen: SeqGenerator)
      ensures ValidRegistry() && ValidRequests() && ops == [] && received == [] && this.gen == gen
    {
      this.gen := gen;
      connections, connectionMap, channels, outbox, accepted, stopped := [], map[], map[], [], 0, false;
      lives, ops, received, log := [], [], [], [];
    }

    method Accept() returns (c: nat)
      requires ValidRegistry()
      modifies this`connections, this`accepted, this`lives, this`ops
      ensures ValidRegistry() && ops == old(ops) + [Op.Accepted] && c == old(accepted)
      ensures connections == old(connections) + [Some(c)] && Some(c) !in old(connections)
    {
      ReplaySnoc(ops, Op.Accepted);
      InOrderOfAcceptance(ops);
      c := accepted;
      connections := connections + [Some(c)];
      accepted := accepted + 1;
      lives := lives + [Life([], false)];
      ops := ops + [Op.Accepted];
    }

    /** The connection c is over; deviceId is what it told, empty if it told nothing. */
    method OnDisconnected(c: nat, deviceId: Id)
      requires ValidRegistry() && Enabled(Now(), Closed(c)) && deviceId == lives[c].id
      modifies this`connections, this`connectionMap, this`lives, this`ops
      ensures ValidRegistry() && ops == old(ops) + [Closed(c)]
    {
      ReplaySnoc(ops, Closed(c));
      connectionMap := connectionMap - {deviceId};
      connections := RemoveIf(connections, c);
      lives := lives[c := lives[c].(over := true)];
      ops := ops + [Closed(c)];
    }

    /** The connection c tells its device id: it leaves the list and goes under that id. */
    method OnGotDeviceId(c: nat, deviceId: Id)
      requires ValidRegistry() && Enabled(Now(), Told(c, deviceId))
      modifies this`connections, this`connectionMap, this`lives, this`ops
      ensures ValidRegistry() && ops == old(ops) + [Told(c, deviceId)]
      ensures deviceId in connectionMap && connectionMap[deviceId] == c && Some(c) !in connections
    {
      ReplaySnoc(ops, Told(c, deviceId));
      ToldIsMapped(ops, c, deviceId);
      var i := FindIf(connections, c);
      if i < |connections| {
        connectionMap := connectionMap[deviceId := c];
        connections := connections[..i] + connections[i + 1..];
      }
      lives := lives[c := Life(deviceId, false)];
      ops := ops + [Told(c, deviceId)];
    }

    /** The connection that calls to a device go to: the one that told the id last, unless one that ever told
        it has closed since. */
    method Find(deviceId: Id) returns (conn: Option<nat>)
      requires ValidRegistry()
      ensures conn.Some? ==> deviceId != []
      ensures forall c: nat :: conn == Some(c) <==> deviceId != [] && exists i: nat :: LatestSince(ops, i, c, deviceId)
    {
      conn := if deviceId in connectionMap then Some(connectionMap[deviceId]) else None;
      Separated(ops, deviceId, deviceId, 0, 0);
      if deviceId != [] {
        forall c: nat
          ensures conn == Some(c) <==> exists i: nat :: LatestSince(ops, i, c, deviceId)
        {
          MappedIff(ops, c, deviceId);
        }
      }
    }

    /** A heartbeat is answered, any other request handed on; one whose command has no channel is dropped. */
    method OnReceiveRequest(deviceId: Id, pack: Packet)
      requires ValidRequests() && pack.seqNo != 0
      modifies this`channels, this`outbox, this`received, this`log, gen
      ensures ValidRequests() && received == old(received) + [pack] && gen.last == old(gen.last)
      ensures if pack.cmd == 0
              then
                && outbox == old(outbox) + [Packet(pack.cmd, pack.seqNo, true, 0, pack.deviceId, [])]
                && channels == old(channels) && log == old(log)
              else
                var r := HandTo(old(channels), pack);
                outbox == old(outbox) && channels == r.0 && log == old(log) + [Handing(pack, r.1)]
    {
      SplitSnoc(received, pack);
      received := received + [pack];
      if pack.cmd == HEARTBEAT_CMD {
        AcknowledgesSnoc(outbox, Heartbeats(old(received)), pack, pack.deviceId);
        var answer := BuildRspPacket(pack.cmd, pack.seqNo, 0, pack.deviceId, [], gen);
        outbox := outbox + [answer];
      } else {
        HandKeepsAll(channels, log, pack);
        ghost var fate := HandTo(channels, pack).1;
        if pack.cmd in channels {
          channels := channels[pack.cmd := TrySend(channels[pack.cmd], pack).0];
        }
        log := log + [Handing(pack, fate)];
      }
    }

    /** The application asks for a request with cmd; the first time makes the channel. */
    method WaitRequest(cmd: Word) returns (ok: bool)
      requires ValidRequests()
      modifies this`channels
      ensures ValidRequests() && ok == !stopped
      ensures channels == if ok then old(channels)[cmd := Receive(ChannelOf(old(channels), cmd))] else old(channels)
    {
      if stopped {
        return false;
      }
      ReceiveKeepsAll(channels, log, cmd);
      if cmd !in channels {
        channels := channels[cmd := NEW_CHANNEL];
      }
      channels := channels[cmd := Receive(channels[cmd])];
      assert channels == old(channels)[cmd := Receive(ChannelOf(old(channels), cmd))];
      return true;
    }
  }
}
