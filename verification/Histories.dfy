/** Runs that do happen: any sequence of requests to a device can be received in this order, and the runs in which a
    request is handed on twice, is dropped, or is never received although the call returns. */
module Histories {
  import opened Bytes
  import opened Packets
  import opened Framing
  import opened Links
  import opened Lru
  import opened Dedup
  import opened Clients
  import opened Calls
  import opened Delivery
  import opened Guarantees

  // ----- One request after the other -----

  function Acks(ps: seq<Packet>): (r: seq<Packet>)
    ensures |r| == |ps|
  {
    seq(|ps|, i requires 0 <= i < |ps| => Ack(ps[i], ps[i].deviceId))
  }

  /** An ordinary packet that is a request. */
  ghost predicate OrdinaryRequest(p: Packet) {
    Ordinary(p) && !p.rsp
  }

  /** Requests to the device id. */
  ghost predicate RequestsTo(ps: seq<Packet>, id: seq<Byte>) {
    forall i :: 0 <= i < |ps| ==> OrdinaryRequest(ps[i]) && ps[i].deviceId == id
  }

  lemma RequestsOrdinary(ps: seq<Packet>, id: seq<Byte>)
    requires RequestsTo(ps, id)
    ensures AllOrdinary(ps) && AllOf(ps, id)
  {
    forall i | 0 <= i < |ps|
      ensures Ordinary(ps[i])
    {
      assert OrdinaryRequest(ps[i]);
    }
  }

  /** The first n packets that came down the connection. */
  function Receipts(n: nat): (r: seq<Receipt>)
    ensures |r| == n
  {
    seq(n, i requires 0 <= i < n => Receipt(1, i + 1))
  }

  lemma ReceiptsMore(n: nat)
    ensures Receipts(n + 1) == Receipts(n) + [Receipt(1, n + 1)] && ReadUpTo(Receipts(n), 1, n + 1)
  {
  }

  /** On one connection each of ps was written and received, in order, and its call waits. */
  ghost predicate Shape(s: System, ps: seq<Packet>) {
    && s.connected && !s.stopped && s.link == 1
    && On(s.down, 1) == ps && On(s.up, 1) == Acks(ps)
    && s.received == ps && s.receipts == Receipts(|ps|)
    && AllWait(s.calls, ps)
  }

  ghost predicate AllWait(calls: seq<Call>, ps: seq<Packet>) {
    |calls| == |ps| && forall k :: 0 <= k < |ps| ==> calls[k] == Call(ps[k], 0, 1, Waiting)
  }

  /** A run to such a state. */
  ghost predicate Exchanged(f: WireFormat, steps: seq<Step>, s: System, ps: seq<Packet>) {
    Runs(f, steps, s) && Shape(s, ps)
  }

  lemma Start(f: WireFormat, device: seq<Byte>) returns (steps: seq<Step>, s: System)
    ensures Exchanged(f, steps, s, []) && s.device == device
    ensures !s.faulted && s.channels == map[] && s.down == s.up == []
  {
    RunsSnoc(f, [], Initial(device), Connect);
    steps, s := [] + [Connect], Next(Initial(device), Connect);
  }

  /** Asking for cmd changes only the channel. */
  lemma TakeMore(f: WireFormat, steps: seq<Step>, s: System, ps: seq<Packet>, cmd: Word)
    requires Exchanged(f, steps, s, ps)
    ensures Exchanged(f, steps + [Take(cmd)], Next(s, Take(cmd)), ps) && Next(s, Take(cmd)).device == s.device
  {
    RunsSnoc(f, steps, s, Take(cmd));
  }

  /** The state when the call of p has written it. */
  function Called(s: System, p: Packet): System {
    s.(calls := s.calls + [Call(p, 0, 1, Waiting)], down := s.down + [Written(s.link, p)])
  }

  lemma CallMore(f: WireFormat, steps: seq<Step>, s: System, p: Packet)
    requires Runs(f, steps, s) && s.connected && !s.stopped
    requires p.seqNo != 0 && Encodable(p) && p.deviceId == s.device
    ensures Runs(f, steps + [Submit(p, 0)] + [Try(|s.calls|)], Called(s, p))
  {
    RunsSnoc(f, steps, s, Submit(p, 0));
    var t := Next(s, Submit(p, 0));
    RunsSnoc(f, steps + [Submit(p, 0)], t, Try(|s.calls|));
    assert t.calls[|s.calls| := Call(p, 0, 1, Waiting)] == s.calls + [Call(p, 0, 1, Waiting)];
    assert Next(t, Try(|s.calls|)) == Called(s, p);
  }

  lemma OrdinaryArrives(f: WireFormat, ps: seq<Packet>, id: seq<Byte>, n: nat)
    requires n < |ps| && AllOrdinary(ps) && AllOf(ps, id)
    ensures Arrives(f, ps, n + 1, ps[n])
  {
    OrdinaryFit(ps);
    assert Ordinary(ps[n]);
    ArrivesIff(f, ps, id, n + 1, ps[n]);
    OrdinaryArrival(ps[n]);
  }

  /** The state when p came behind ps. */
  function Exchange(s: System, ps: seq<Packet>, p: Packet): System {
    Received(Called(s, p), 1, |ps| + 1, p)
  }

  lemma ShapeMore(s: System, ps: seq<Packet>, p: Packet)
    requires Shape(s, ps)
    ensures Shape(Exchange(s, ps, p), ps + [p]) && Exchange(s, ps, p).device == s.device
  {
    OnSnoc(s.down, Written(1, p), 1);
    ReceivedFields(Called(s, p), 1, |ps| + 1, p);
    OnSnoc(s.up, Written(1, Ack(p, p.deviceId)), 1);
    assert Acks(ps + [p]) == Acks(ps) + [Ack(p, p.deviceId)];
    ReceiptsMore(|ps|);
    ReceivedElse(Called(s, p), |ps| + 1, p);
  }

  lemma ReceivedElse(s: System, n: nat, p: Packet)
    ensures var t := Received(s, 1, n, p); t.connected == s.connected && t.stopped == s.stopped && t.link == s.link
  {
  }

  lemma CanReceive(f: WireFormat, s: System, ps: seq<Packet>, p: Packet)
    requires Shape(s, ps) && !s.faulted && RequestsTo(ps + [p], s.device)
    ensures Enabled(f, Called(s, p), Receive(1, |ps| + 1, p))
  {
    assert (ps + [p])[|ps|] == p;
    OnSnoc(s.down, Written(1, p), 1);
    RequestsOrdinary(ps + [p], s.device);
    OrdinaryArrives(f, ps + [p], s.device, |ps|);
    assert OrdinaryRequest(p);
    ReceiptsMore(|ps|);
  }

  /** One more call whose request is received. */
  lemma ExchangeMore(f: WireFormat, steps: seq<Step>, s: System, ps: seq<Packet>, p: Packet) returns (more: seq<Step>)
    requires Exchanged(f, steps, s, ps) && !s.faulted && RequestsTo(ps + [p], s.device)
    ensures Exchanged(f, more, Exchange(s, ps, p), ps + [p]) && Exchange(s, ps, p).device == s.device
  {
    CanReceive(f, s, ps, p);
    assert OrdinaryRequest((ps + [p])[|ps|]) && (ps + [p])[|ps|].deviceId == s.device;
    CallMore(f, steps, s, p);
    more := steps + [Submit(p, 0)] + [Try(|s.calls|)];
    RunsSnoc(f, more, Called(s, p), Receive(1, |ps| + 1, p));
    more := more + [Receive(1, |ps| + 1, p)];
    ShapeMore(s, ps, p);
  }

  lemma AcksOrdinary(ps: seq<Packet>, id: seq<Byte>)
    requires RequestsTo(ps, id)
    ensures AllOrdinary(Acks(ps)) && AllOf(Acks(ps), id)
  {
    forall i | 0 <= i < |ps|
      ensures Ordinary(Acks(ps)[i]) && Acks(ps)[i].deviceId == id
    {
      assert OrdinaryRequest(ps[i]);
    }
  }

  /** The answer to a call that waits: its acknowledgement. */
  lemma HearAck(f: WireFormat, steps: seq<Step>, s: System, ps: seq<Packet>, k: nat)
    requires Exchanged(f, steps, s, ps) && RequestsTo(ps, s.device) && k < |ps|
    ensures var rsp := Ack(ps[k], ps[k].deviceId);
            Runs(f, steps + [Hear(k, 1, k + 1, rsp)], SetCall(s, k, Call(ps[k], 0, 1, Returned(rsp))))
  {
    var rsp := Ack(ps[k], ps[k].deviceId);
    AcksOrdinary(ps, s.device);
    OrdinaryArrives(f, Acks(ps), s.device, k);
    AckAnswers(ps[k], ps[k].deviceId);
    RunsSnoc(f, steps, s, Hear(k, 1, k + 1, rsp));
  }

  // ----- Any history of receipts happens -----

  lemma NotFaulted(s: System, n: nat, p: Packet)
    requires !s.faulted && p.cmd in s.channels
    ensures !Received(s, 1, n, p).faulted
  {
    var c := s.channels[p.cmd];
    if IsNew(s.received, p) {
      assert HandTo(s.channels, p).1 != NoChannel;
    }
  }

  lemma AskedFor(t: System, cmd: Word)
    ensures var u := Next(t, Take(cmd)); cmd in u.channels && u.faulted == t.faulted
  {
  }

  lemma CalledElse(u: System, p: Packet)
    ensures Called(u, p).faulted == u.faulted && Called(u, p).channels == u.channels
  {
  }

  lemma ExchangeAsked(f: WireFormat, before: seq<Step>, u: System, front: seq<Packet>, p: Packet)
    returns (steps: seq<Step>, s: System)
    requires Exchanged(f, before, u, front) && !u.faulted && RequestsTo(front + [p], u.device) && p.cmd in u.channels
    ensures Exchanged(f, steps, s, front + [p]) && !s.faulted && s.device == u.device
  {
    steps := ExchangeMore(f, before, u, front, p);
    s := Exchange(u, front, p);
    CalledElse(u, p);
    NotFaulted(Called(u, p), |front| + 1, p);
  }

  /** The last request, for whose command the application asks first. */
  lemma HistoryMore(f: WireFormat, before: seq<Step>, t: System, ps: seq<Packet>) returns (steps: seq<Step>, s: System)
    requires ps != [] && RequestsTo(ps, t.device)
    requires Exchanged(f, before, t, ps[..|ps| - 1]) && !t.faulted
    ensures Exchanged(f, steps, s, ps) && !s.faulted && s.device == t.device
  {
    var front, p := ps[..|ps| - 1], ps[|ps| - 1];
    assert ps == front + [p];
    TakeMore(f, before, t, front, p.cmd);
    AskedFor(t, p.cmd);
    steps, s := ExchangeAsked(f, before + [Take(p.cmd)], Next(t, Take(p.cmd)), front, p);
  }

  /** Whatever requests to a device are called for, they can be received in this order. */
  lemma {:induction false} HistoryHappens(f: WireFormat, id: seq<Byte>, ps: seq<Packet>)
    returns (steps: seq<Step>, s: System)
    requires RequestsTo(ps, id)
    ensures Exchanged(f, steps, s, ps) && !s.faulted && s.device == id
    decreases |ps|
  {
    if ps == [] {
      steps, s := Start(f, id);
    } else {
      var before, t := HistoryHappens(f, id, ps[..|ps| - 1]);
      steps, s := HistoryMore(f, before, t, ps);
    }
  }

  lemma {:induction false} DistinctSize(s: seq<nat>)
    requires Distinct(s)
    ensures |Values(s)| == |s|
    decreases |s|
  {
    if s == [] {
      assert Values(s) == {};
    } else {
      var front, last := s[..|s| - 1], s[|s| - 1];
      assert s == front + [last];
      DistinctSize(front);
      ValuesSnoc(front, last);
    }
  }

  /** The same value before and after enough distinct others is a late repeat. */
  lemma RepeatIsLate(v: nat, others: seq<nat>, cap: nat)
    requires Distinct(others) && v !in others && |others| >= cap
    ensures LateRepeat([v] + others + [v], |others| + 1, v, cap)
  {
    var history := [v] + others;
    assert (history + [v])[..|others| + 1] == history;
    assert history[1..] == others;
    assert history[0] == v;
    LastAtUnique(history, v, 0);
    DistinctSize(others);
  }

  lemma RepeatedIsTwice(f: WireFormat, steps: seq<Step>, s: System, p: Packet, others: seq<Packet>)
    requires Runs(f, steps, s) && s.received == [p] + others + [p]
    requires Distinct(Ids(others)) && PacketId(p) !in Ids(others) && |others| >= RECENTLY_RECEIVED_REQUEST_CAP
    ensures TimesHanded(s, PacketId(p)) > 1
  {
    assert Ids([p] + others + [p]) == [PacketId(p)] + Ids(others) + [PacketId(p)];
    RepeatIsLate(PacketId(p), Ids(others), RECENTLY_RECEIVED_REQUEST_CAP);
    HandedOnceIff(f, steps, s, PacketId(p));
  }

  /** A request that is received before and after 1000 distinct others is handed on twice. */
  lemma HandedTwice(f: WireFormat, p: Packet, others: seq<Packet>) returns (steps: seq<Step>, s: System)
    requires RequestsTo([p] + others + [p], p.deviceId)
    requires Distinct(Ids(others)) && PacketId(p) !in Ids(others) && |others| >= RECENTLY_RECEIVED_REQUEST_CAP
    ensures Runs(f, steps, s) && TimesHanded(s, PacketId(p)) > 1
  {
    steps, s := HistoryHappens(f, p.deviceId, [p] + others + [p]);
    RepeatedIsTwice(f, steps, s, p, others);
  }

  /** A request with number n. */
  function Plain(n: Word): Packet {
    Packet(1, n, false, 0, [1], [])
  }

  lemma PlainIsOrdinary(n: Word)
    requires n != 0
    ensures OrdinaryRequest(Plain(n))
  {
  }

  /** There are such requests: numbers 1 to 1000 between two receipts of number 1001. */
  lemma SomeHandedTwice(f: WireFormat) returns (steps: seq<Step>, s: System)
    ensures Runs(f, steps, s) && TimesHanded(s, PacketId(Plain(1001))) > 1
  {
    var others := seq(1000, i requires 0 <= i < 1000 => Plain(i + 1));
    var ps := [Plain(1001)] + others + [Plain(1001)];
    forall i | 0 <= i < |ps|
      ensures OrdinaryRequest(ps[i]) && ps[i].deviceId == [1]
    {
      PlainIsOrdinary(if 0 < i <= 1000 then i else 1001);
    }
    forall i, j | 0 <= i < j < 1000
      ensures Ids(others)[i] != Ids(others)[j]
    {
      IdInjectiveBelow(1, i + 1, 1, j + 1);
    }
    forall i | 0 <= i < 1000
      ensures Ids(others)[i] != PacketId(Plain(1001))
    {
      IdInjectiveBelow(1, i + 1, 1, 1001);
    }
    steps, s := HandedTwice(f, Plain(1001), others);
  }

  // ----- A return tells nothing about the channel -----

  /** One of the calls that wait returns. */
  lemma ReturnOne(f: WireFormat, more: seq<Step>, u: System, ps: seq<Packet>, k: nat)
    returns (steps: seq<Step>, s: System)
    requires Exchanged(f, more, u, ps) && RequestsTo(ps, u.device) && k < |ps|
    ensures Runs(f, steps, s) && |s.calls| == |ps|
    ensures s.calls[k] == Call(ps[k], 0, 1, Returned(Ack(ps[k], ps[k].deviceId)))
    ensures s.channels == u.channels && s.faulted == u.faulted
  {
    HearAck(f, more, u, ps, k);
    var rsp := Ack(ps[k], ps[k].deviceId);
    steps, s := more + [Hear(k, 1, k + 1, rsp)], SetCall(u, k, Call(ps[k], 0, 1, Returned(rsp)));
  }

  lemma FaultsWithoutChannel(s: System, p: Packet)
    requires s.channels == map[] && s.received == []
    ensures Exchange(s, [], p).faulted && Exchange(s, [], p).channels == map[]
  {
    UnreachedIsNew([], p);
  }

  /** The acknowledgement comes before the channel is looked for: a call can return although the application
      has not asked for requests of its command, and then never gets this one. */
  lemma ReturnWithoutTaking(f: WireFormat, p: Packet) returns (steps: seq<Step>, s: System)
    requires OrdinaryRequest(p)
    ensures Runs(f, steps, s) && |s.calls| == 1 && s.calls[0].p == p && s.calls[0].status.Returned?
    ensures ChannelOf(s.channels, p.cmd) == NEW_CHANNEL && s.faulted
  {
    var start, s0 := Start(f, p.deviceId);
    FaultsWithoutChannel(s0, p);
    var more := ExchangeMore(f, start, s0, [], p);
    steps, s := ReturnOne(f, more, Exchange(s0, [], p), [] + [p], 0);
  }

  /** The channel of cmd when the application asked once and ps came, all of them new. */
  function Filled(ps: seq<Packet>): Channel {
    if ps == [] then Channel([], 1, []) else Channel(ps[1..], 0, ps[..1])
  }

  ghost predicate SameCommand(ps: seq<Packet>, cmd: Word) {
    Distinct(Ids(ps)) && forall i :: 0 <= i < |ps| ==> ps[i].cmd == cmd
  }

  lemma IdIsNew(front: seq<Packet>, p: Packet)
    requires Distinct(Ids(front + [p]))
    ensures IsNew(front, p)
  {
    forall i | 0 <= i < |front|
      ensures PacketId(front[i]) != PacketId(p)
    {
      assert Ids(front + [p])[i] != Ids(front + [p])[|front|];
    }
    UnreachedIsNew(front, p);
  }

  lemma FillMore(front: seq<Packet>, p: Packet)
    requires |front| <= RECEIVED_PACKET_CHANNEL_SIZE
    ensures Clients.TrySend(Filled(front), p) == (Filled(front + [p]), Accepted)
  {
    if front != [] {
      assert (front + [p])[1..] == front[1..] + [p] && (front + [p])[..1] == front[..1];
    } else {
      assert [] + [p] == [p] && [p][1..] == [] && [p][..1] == [p];
    }
  }

  lemma SameCommandFront(ps: seq<Packet>, p: Packet, cmd: Word)
    requires SameCommand(ps + [p], cmd)
    ensures SameCommand(ps, cmd) && p.cmd == cmd
  {
    var all := ps + [p];
    assert all[|ps|] == p;
    assert forall i :: 0 <= i < |ps| ==> ps[i] == all[i] && Ids(ps)[i] == Ids(all)[i];
  }

  lemma FillStart(f: WireFormat, device: seq<Byte>, cmd: Word) returns (steps: seq<Step>, s: System)
    ensures Exchanged(f, steps, s, []) && !s.faulted && s.channels == map[cmd := Filled([])] && s.device == device
  {
    var start, s0 := Start(f, device);
    TakeMore(f, start, s0, [], cmd);
    steps, s := start + [Take(cmd)], Next(s0, Take(cmd));
  }

  lemma FillReceived(t: System, front: seq<Packet>, p: Packet, cmd: Word)
    requires t.received == front && !t.faulted && t.channels == map[cmd := Filled(front)] && p.cmd == cmd
    requires IsNew(front, p) && |front| <= RECEIVED_PACKET_CHANNEL_SIZE
    ensures !Exchange(t, front, p).faulted && Exchange(t, front, p).channels == map[cmd := Filled(front + [p])]
  {
    FillMore(front, p);
    assert map[cmd := Filled(front)][cmd := Filled(front + [p])] == map[cmd := Filled(front + [p])];
  }

  lemma FillNext(f: WireFormat, before: seq<Step>, t: System, ps: seq<Packet>, cmd: Word)
    returns (steps: seq<Step>, s: System)
    requires RequestsTo(ps, t.device) && SameCommand(ps, cmd) && 0 < |ps| <= RECEIVED_PACKET_CHANNEL_SIZE + 1
    requires Exchanged(f, before, t, ps[..|ps| - 1]) && !t.faulted && t.channels == map[cmd := Filled(ps[..|ps| - 1])]
    ensures Exchanged(f, steps, s, ps) && !s.faulted && s.channels == map[cmd := Filled(ps)] && s.device == t.device
  {
    var front, p := ps[..|ps| - 1], ps[|ps| - 1];
    assert ps == front + [p];
    steps := ExchangeMore(f, before, t, front, p);
    s := Exchange(t, front, p);
    IdIsNew(front, p);
    FillReceived(t, front, p, cmd);
  }

  /** The first 65 requests of a command all get in: one is taken and 64 wait. */
  lemma {:induction false} FillChannel(f: WireFormat, id: seq<Byte>, ps: seq<Packet>, cmd: Word)
    returns (steps: seq<Step>, s: System)
    requires RequestsTo(ps, id) && SameCommand(ps, cmd) && |ps| <= RECEIVED_PACKET_CHANNEL_SIZE + 1
    ensures Exchanged(f, steps, s, ps) && !s.faulted && s.channels == map[cmd := Filled(ps)] && s.device == id
    decreases |ps|
  {
    if ps == [] {
      steps, s := FillStart(f, id, cmd);
    } else {
      var front := ps[..|ps| - 1];
      assert ps == front + [ps[|ps| - 1]];
      SameCommandFront(front, ps[|ps| - 1], cmd);
      var before, t := FillChannel(f, id, front, cmd);
      steps, s := FillNext(f, before, t, ps, cmd);
    }
  }

  lemma NotAmong(ps: seq<Packet>, p: Packet)
    requires Distinct(Ids(ps + [p]))
    ensures p !in ps
  {
    forall i | 0 <= i < |ps|
      ensures ps[i] != p
    {
      assert Ids(ps + [p])[i] != Ids(ps + [p])[|ps|];
    }
  }

  /** The 66th is dropped, and its call returns all the same. */
  lemma ReturnOfDropped(f: WireFormat, ps: seq<Packet>, p: Packet) returns (steps: seq<Step>, s: System)
    requires RequestsTo(ps + [p], p.deviceId) && SameCommand(ps + [p], p.cmd)
    requires |ps| == RECEIVED_PACKET_CHANNEL_SIZE + 1
    ensures Runs(f, steps, s) && !s.faulted && |s.calls| == 66
    ensures s.calls[65] == Call(p, 0, 1, Returned(Ack(p, p.deviceId)))
    ensures p !in ChannelOf(s.channels, p.cmd).taken + ChannelOf(s.channels, p.cmd).buffer
  {
    SameCommandFront(ps, p, p.cmd);
    RequestsFront(ps, p, p.deviceId);
    var before, t := FillChannel(f, p.deviceId, ps, p.cmd);
    IdIsNew(ps, p);
    DroppedWhenFull(t, ps, p);
    var more := ExchangeMore(f, before, t, ps, p);
    steps, s := ReturnOne(f, more, Exchange(t, ps, p), ps + [p], |ps|);
    FilledHolds(ps);
    NotAmong(ps, p);
  }

  lemma RequestsFront(ps: seq<Packet>, p: Packet, id: seq<Byte>)
    requires RequestsTo(ps + [p], id)
    ensures RequestsTo(ps, id)
  {
    assert forall i :: 0 <= i < |ps| ==> ps[i] == (ps + [p])[i];
  }

  lemma FilledHolds(ps: seq<Packet>)
    ensures Filled(ps).taken + Filled(ps).buffer == ps
  {
  }

  lemma DroppedWhenFull(t: System, ps: seq<Packet>, p: Packet)
    requires t.received == ps && !t.faulted && t.channels == map[p.cmd := Filled(ps)] && IsNew(ps, p)
    requires |ps| == RECEIVED_PACKET_CHANNEL_SIZE + 1
    ensures Exchange(t, ps, p).channels == t.channels && !Exchange(t, ps, p).faulted
  {
    assert Clients.TrySend(Filled(ps), p) == (Filled(ps), Dropped);
    assert map[p.cmd := Filled(ps)][p.cmd := Filled(ps)] == map[p.cmd := Filled(ps)];
  }

  // ----- Why the bodies have to be within the limit -----

  /** One oversized call was written; its body makes qs, of which the first n were received. */
  ghost predicate HasSpilled(s: System, p: Packet, qs: seq<Packet>, n: nat) {
    && n <= |qs| && s.received == qs[..n] && s.receipts == Receipts(n)
    && s.calls == [Call(p, 0, 1, Waiting)]
    && On(s.down, 1) == [p] && !s.faulted
  }

  ghost predicate Spilled(f: WireFormat, steps: seq<Step>, s: System, p: Packet, qs: seq<Packet>, n: nat) {
    Runs(f, steps, s) && HasSpilled(s, p, qs, n)
  }

  /** An oversized packet whose body makes qs, requests to one device. */
  ghost predicate Oversized(f: WireFormat, p: Packet, qs: seq<Packet>, id: seq<Byte>, pad: seq<Byte>) {
    p.seqNo != 0 && Encodable(p) && p.body == Stream(f, qs) + pad && |p.body| > MAX_BODY_LENGTH && RequestsTo(qs, id)
  }

  lemma CanSpill(f: WireFormat, s: System, p: Packet, qs: seq<Packet>, id: seq<Byte>, pad: seq<Byte>, n: nat)
    requires Oversized(f, p, qs, id, pad) && n < |qs| && On(s.down, 1) == [p] && !s.faulted && s.receipts == Receipts(n)
    ensures Enabled(f, s, Receive(1, n + 1, qs[n]))
  {
    RequestsOrdinary(qs, id);
    assert [] + qs == qs && [] + [p] == [p];
    OversizedDelivers(f, [], p, qs, pad, id, n);
    assert OrdinaryRequest(qs[n]);
    ReceiptsMore(n);
  }

  lemma SpillReceived(u: System, p: Packet, qs: seq<Packet>, n: nat)
    requires n < |qs| && HasSpilled(u, p, qs, n) && qs[n].cmd in u.channels
    ensures HasSpilled(Received(u, 1, n + 1, qs[n]), p, qs, n + 1)
  {
    ReceivedFields(u, 1, n + 1, qs[n]);
    NotFaulted(u, n + 1, qs[n]);
    ReceiptsMore(n);
    assert qs[..n + 1] == qs[..n] + [qs[n]];
  }

  lemma SpillAsked(t: System, p: Packet, qs: seq<Packet>, n: nat, cmd: Word)
    requires HasSpilled(t, p, qs, n)
    ensures HasSpilled(Next(t, Take(cmd)), p, qs, n) && cmd in Next(t, Take(cmd)).channels
  {
  }

  lemma SpillMore(f: WireFormat, before: seq<Step>, t: System, p: Packet, qs: seq<Packet>, id: seq<Byte>,
                  pad: seq<Byte>, n: nat)
    returns (steps: seq<Step>, s: System)
    requires Oversized(f, p, qs, id, pad) && n < |qs| && Spilled(f, before, t, p, qs, n)
    ensures Spilled(f, steps, s, p, qs, n + 1)
  {
    var ask, receive := Take(qs[n].cmd), Receive(1, n + 1, qs[n]);
    RunsSnoc(f, before, t, ask);
    SpillAsked(t, p, qs, n, qs[n].cmd);
    CanSpill(f, Next(t, ask), p, qs, id, pad, n);
    RunsSnoc(f, before + [ask], Next(t, ask), receive);
    SpillReceived(Next(t, ask), p, qs, n);
    steps, s := before + [ask] + [receive], Next(Next(t, ask), receive);
  }

  lemma {:induction false} SpillAll(f: WireFormat, p: Packet, qs: seq<Packet>, id: seq<Byte>, pad: seq<Byte>, n: nat)
    returns (steps: seq<Step>, s: System)
    requires Oversized(f, p, qs, id, pad) && n <= |qs|
    ensures Spilled(f, steps, s, p, qs, n)
    decreases n
  {
    if n == 0 {
      var start, s0 := Start(f, p.deviceId);
      CallMore(f, start, s0, p);
      OnSnoc([], Written(1, p), 1);
      steps, s := start + [Submit(p, 0)] + [Try(0)], Called(s0, p);
    } else {
      var before, t := SpillAll(f, p, qs, id, pad, n - 1);
      steps, s := SpillMore(f, before, t, p, qs, id, pad, n - 1);
    }
  }

  /** One call for a request with a longer body delivers any number of other requests, all with one device id, for
      which there never was a call. */
  lemma OversizedCallDelivers(f: WireFormat, p: Packet, qs: seq<Packet>, id: seq<Byte>, pad: seq<Byte>)
    returns (steps: seq<Step>, s: System)
    requires Oversized(f, p, qs, id, pad)
    ensures Runs(f, steps, s) && s.received == qs && |s.calls| == 1 && s.calls[0].p == p
  {
    steps, s := SpillAll(f, p, qs, id, pad, |qs|);
    assert qs[..|qs|] == qs;
  }

  /** So with one such call already a request can be handed on twice. */
  lemma OneCallHandedTwice(f: WireFormat, p: Packet, q: Packet, others: seq<Packet>, pad: seq<Byte>)
    returns (steps: seq<Step>, s: System)
    requires Oversized(f, p, [q] + others + [q], q.deviceId, pad)
    requires Distinct(Ids(others)) && PacketId(q) !in Ids(others) && |others| >= RECENTLY_RECEIVED_REQUEST_CAP
    ensures Runs(f, steps, s) && |s.calls| == 1 && TimesHanded(s, PacketId(q)) > 1
  {
    steps, s := OversizedCallDelivers(f, p, [q] + others + [q], q.deviceId, pad);
    RepeatedIsTwice(f, steps, s, q, others);
  }

  lemma OversizedReplyArrives(f: WireFormat, up: seq<Written>, first: Packet, rsp: Packet, ack: Packet, pad: seq<Byte>)
    requires Ordinary(first) && Ordinary(ack) && ack.deviceId == first.deviceId && Encodable(rsp)
    requires On(up, 1) == [first] && rsp.body == Encode(ack) + pad && |rsp.body| > MAX_BODY_LENGTH
    ensures Arrives(f, On(up + [Written(1, rsp)], 1), 2, ack)
  {
    OnSnoc(up, Written(1, rsp), 1);
    assert f.write(ack) == Wire(ack);
    assert Stream(f, [ack]) == f.write(ack) + Stream(f, []) == Encode(ack);
    OversizedDelivers(f, [first], rsp, [ack], pad, ack.deviceId, 0);
  }

  /** The state in which p was taken by the application, which answered with rsp, and q was called for. */
  lemma RunToReply(f: WireFormat, p: Packet, q: Packet, rsp: Packet) returns (steps: seq<Step>, s: System)
    requires OrdinaryRequest(p) && OrdinaryRequest(q) && p.deviceId == q.deviceId == rsp.deviceId
    requires rsp.rsp && rsp.seqNo != 0 && Encodable(rsp) && PacketId(rsp) == PacketId(p)
    ensures Runs(f, steps, s) && s.received == [p]
    ensures |s.calls| == 2 && s.calls[1] == Call(q, 0, 1, Waiting)
    ensures exists up :: On(up, 1) == [Ack(p, p.deviceId)] && s.up == up + [Written(1, rsp)]
  {
    var before, t := FillChannel(f, p.deviceId, [p], p.cmd);
    assert Filled([p]).taken == [p];
    assert Acks([p]) == [Ack(p, p.deviceId)];
    var reply := Reply(1, p.cmd, 0, rsp);
    RunsSnoc(f, before, t, reply);
    CallMore(f, before + [reply], Next(t, reply), q);
    steps, s := before + [reply] + [Submit(q, 0)] + [Try(1)], Called(Next(t, reply), q);
  }

  /** And one response with a longer body makes a call return whose request was never received. */
  lemma OversizedReplyReturns(f: WireFormat, p: Packet, q: Packet, rsp: Packet, pad: seq<Byte>)
    returns (steps: seq<Step>, s: System)
    requires OrdinaryRequest(p) && OrdinaryRequest(q) && PacketId(p) != PacketId(q)
    requires p.deviceId == q.deviceId == rsp.deviceId
    requires rsp.rsp && rsp.seqNo != 0 && Encodable(rsp) && PacketId(rsp) == PacketId(p)
    requires rsp.body == Encode(Ack(q, q.deviceId)) + pad && |rsp.body| > MAX_BODY_LENGTH
    ensures Runs(f, steps, s) && |s.calls| == 2 && s.calls[1].p == q && s.calls[1].status.Returned?
    ensures !Reached(s.received, PacketId(q))
  {
    var before, t := RunToReply(f, p, q, rsp);
    var up :| On(up, 1) == [Ack(p, p.deviceId)] && t.up == up + [Written(1, rsp)];
    var ack := Ack(q, q.deviceId);
    OversizedReplyArrives(f, up, Ack(p, p.deviceId), rsp, ack, pad);
    AckAnswers(q, q.deviceId);
    RunsSnoc(f, before, t, Hear(1, 1, 2, ack));
    steps, s := before + [Hear(1, 1, 2, ack)], SetCall(t, 1, Call(q, 0, 1, Returned(ack)));
  }
}
