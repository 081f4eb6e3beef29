/** Server and client together: calls of the server, connections that come and go, the client's acknowledgements
    and its memory of recent requests.  What arrives is what the connection at the other end hands up of the bytes
    written. */
module Delivery {
  import opened Bytes
  import opened Packets
  import opened Framing
  import opened Links
  import opened Clients
  import opened Calls

  /** A packet that was begun to be written to the connection with this number. */
  datatype Written = Written(link: nat, p: Packet)

  /** The n-th event of the connection with this number. */
  datatype Receipt = Receipt(link: nat, n: nat)

  /** One device, the server's calls to it, and the client that runs there.  down and up are all the writes begun by
      the server and by the client, in order; receipts says where each packet received came from.  Whatever comes
      out of a connection may be lost or late, and connections come and go and overlap; the client's memory of
      recent requests outlives them. */
  datatype System = System(
    device: seq<Byte>,
    calls: seq<Call>,
    stopped: bool,
    connected: bool,
    link: nat,
    down: seq<Written>,
    received: seq<Packet>,
    receipts: seq<Receipt>,
    log: seq<Handing>,
    channels: map<Word, Channel>,
    faulted: bool,
    up: seq<Written>)

  function Initial(device: seq<Byte>): System {
    System(device, [], false, false, 0, [], [], [], [], map[], false, [])
  }

  datatype Step =
    | Submit(p: Packet, maxTries: nat)                   // a call is made
    | Try(call: nat)                                     // a turn of its loop begins
    | Hear(call: nat, link: nat, n: nat, rsp: Packet)    // it gets what comes up as the n-th event of link
    | GiveUp(call: nat)                                  // it gets none in time
    | Receive(link: nat, n: nat, p: Packet)              // the client gets what comes down as the n-th of link
    | Take(cmd: Word)                                    // the application waits for a request
    | Reply(link: nat, cmd: Word, i: nat, rsp: Packet)   // and answers one it took
    | Connect
    | Disconnect
    | Stop

  /** What was written to one connection. */
  function On(ws: seq<Written>, link: nat): seq<Packet>
    decreases |ws|
  {
    if ws == [] then []
    else
      var w := ws[|ws| - 1];
      On(ws[..|ws| - 1], link) + if w.link == link then [w.p] else []
  }

  /** All that was received from link came before its n-th event. */
  ghost predicate ReadUpTo(receipts: seq<Receipt>, link: nat, n: nat) {
    forall i :: 0 <= i < |receipts| && receipts[i].link == link ==> receipts[i].n < n
  }

  /** Packets that are made have a number, the encoder asserts that they are encodable, the server finds the
      connection by the packet's device id, and the client sends packets of its own id only.  A connection is read
      in order; it hands a request to the client's OnReceiveRequest, whose answer carries the request's id. */
  ghost predicate Enabled(f: WireFormat, s: System, step: Step) {
    match step
    case Submit(p, _) => p.seqNo != 0 && Encodable(p) && p.deviceId == s.device
    case Try(k) => k < |s.calls| && s.calls[k].status.Idle?
    case Hear(k, link, n, rsp) =>
      && k < |s.calls| && s.calls[k].status.Waiting?
      && rsp.rsp && PacketId(rsp) == PacketId(s.calls[k].p)
      && Arrives(f, On(s.up, link), n, rsp)
    case GiveUp(k) => k < |s.calls| && s.calls[k].status.Waiting?
    case Receive(link, n, p) =>
      && !s.faulted
      && !p.rsp && |p.deviceId| < DEVICE_ID_SIZE
      && ReadUpTo(s.receipts, link, n)
      && Arrives(f, On(s.down, link), n, p)
    case Reply(_, cmd, i, rsp) =>
      && i < |ChannelOf(s.channels, cmd).taken|
      && rsp.rsp && rsp.seqNo != 0 && Encodable(rsp) && rsp.deviceId == s.device
      && PacketId(rsp) == PacketId(ChannelOf(s.channels, cmd).taken[i])
    case _ => true
  }

  function SetCall(s: System, k: nat, c: Call): System
    requires k < |s.calls|
  {
    s.(calls := s.calls[k := c])
  }

  /** A turn of the loop: it ends at once, or writes the packet and waits. */
  function Tried(s: System, k: nat): System
    requires k < |s.calls|
  {
    var c := s.calls[k];
    if s.stopped then SetCall(s, k, Meet(c, Attempt.Stopped))
    else if !s.connected then SetCall(s, k, Meet(c, NotConnected))
    else SetCall(s, k, c.(tries := c.tries + 1, status := Waiting)).(down := s.down + [Written(s.link, c.p)])
  }

  /** What OnReceiveRequest of the client's class does with p. */
  function Received(s: System, link: nat, n: nat, p: Packet): System {
    var acked := s.(received := s.received + [p], receipts := s.receipts + [Receipt(link, n)],
                    up := s.up + [Written(link, Ack(p, p.deviceId))]);
    if !IsNew(s.received, p) then acked
    else
      var r := HandTo(s.channels, p);
      acked.(channels := r.0, log := s.log + [Handing(p, r.1)], faulted := r.1.NoChannel?)
  }

  function Next(s: System, step: Step): System {
    match step
    case Submit(p, maxTries) => s.(calls := s.calls + [Call(p, maxTries, 0, Idle)])
    case Try(k) => if k < |s.calls| then Tried(s, k) else s
    case Hear(k, _, _, rsp) => if k < |s.calls| then SetCall(s, k, s.calls[k].(status := Returned(rsp))) else s
    case GiveUp(k) => if k < |s.calls| then SetCall(s, k, Unanswered(s.calls[k])) else s
    case Receive(link, n, p) => Received(s, link, n, p)
    case Take(cmd) => s.(channels := s.channels[cmd := Clients.Receive(ChannelOf(s.channels, cmd))])
    case Reply(link, _, _, rsp) => s.(up := s.up + [Written(link, rsp)])
    case Connect => s.(connected := true, link := s.link + 1)
    case Disconnect => s.(connected := false)
    case Stop => s.(stopped := true)
  }

  function Unanswered(c: Call): Call {
    c.(status := if c.tries > c.maxTries then Failed(TimeoutError) else Idle)
  }

  /** What a call does here, turn by turn, is the retry loop. */
  lemma TurnsAreTheLoop(f: WireFormat, s: System, k: nat, link: nat, n: nat, rsp: Packet)
    requires Enabled(f, s, Try(k))
    ensures var c := s.calls[k];
            var t := Next(s, Try(k));
            if s.stopped then t.calls[k] == Meet(c, Attempt.Stopped)
            else if !s.connected then t.calls[k] == Meet(c, NotConnected)
            else
              && Next(t, GiveUp(k)).calls[k] == Meet(c, NoAnswer)
              && Next(t, Hear(k, link, n, rsp)).calls[k] == Meet(c, Answer(rsp))
  {
  }

  /** What a turn does: with a stopped server the call fails as one that cannot be made, without a connection as one
      that has nobody to go to, and otherwise its packet is written to the latest connection. */
  lemma TryTells(s: System, k: nat)
    requires k < |s.calls| && s.calls[k].status.Idle?
    ensures var c, t := s.calls[k], Next(s, Try(k));
            if s.stopped then t.calls[k].status == Failed(InvalidState) && t.down == s.down
            else if !s.connected then t.calls[k].status == Failed(ConnectionError) && t.down == s.down
            else
              && t.calls[k] == c.(tries := c.tries + 1, status := Waiting)
              && t.down == s.down + [Written(s.link, c.p)]
  {
  }

  // ----- Runs -----

  /** Where the steps lead. */
  function After(device: seq<Byte>, steps: seq<Step>): System
    decreases |steps|
  {
    if steps == [] then Initial(device) else Next(After(device, steps[..|steps| - 1]), steps[|steps| - 1])
  }

  /** The n-th step can be taken where it is. */
  ghost predicate CanTake(f: WireFormat, device: seq<Byte>, steps: seq<Step>, n: nat)
    requires n < |steps|
  {
    Enabled(f, After(device, steps[..n]), steps[n])
  }

  ghost predicate Legal(f: WireFormat, device: seq<Byte>, steps: seq<Step>) {
    forall n :: 0 <= n < |steps| ==> CanTake(f, device, steps, n)
  }

  ghost predicate Runs(f: WireFormat, steps: seq<Step>, s: System) {
    Legal(f, s.device, steps) && s == After(s.device, steps)
  }

  lemma NextDevice(s: System, step: Step)
    ensures Next(s, step).device == s.device
  {
  }

  lemma {:induction false} AfterDevice(device: seq<Byte>, steps: seq<Step>)
    ensures After(device, steps).device == device
    decreases |steps|
  {
    if steps != [] {
      var n := |steps| - 1;
      AfterDevice(device, steps[..n]);
      NextDevice(After(device, steps[..n]), steps[n]);
    }
  }

  lemma RunsSnoc(f: WireFormat, steps: seq<Step>, s: System, step: Step)
    requires Runs(f, steps, s) && Enabled(f, s, step)
    ensures Runs(f, steps + [step], Next(s, step))
  {
    var more := steps + [step];
    assert more[..|steps|] == steps;
    NextDevice(s, step);
    forall n | 0 <= n < |more|
      ensures CanTake(f, s.device, more, n)
    {
      if n < |steps| {
        assert more[..n] == steps[..n];
        assert CanTake(f, s.device, steps, n);
      }
    }
  }

  lemma LegalPrefix(f: WireFormat, device: seq<Byte>, steps: seq<Step>, m: nat)
    requires Legal(f, device, steps) && m <= |steps|
    ensures Legal(f, device, steps[..m]) && Runs(f, steps[..m], After(device, steps[..m]))
  {
    AfterDevice(device, steps[..m]);
    forall n | 0 <= n < m
      ensures CanTake(f, device, steps[..m], n)
    {
      assert steps[..m][..n] == steps[..n];
      assert CanTake(f, device, steps, n);
    }
  }

  lemma RunsFront(f: WireFormat, steps: seq<Step>, s: System)
    requires Runs(f, steps, s) && steps != []
    ensures var n := |steps| - 1;
            && Runs(f, steps[..n], After(s.device, steps[..n]))
            && Enabled(f, After(s.device, steps[..n]), steps[n])
            && s == Next(After(s.device, steps[..n]), steps[n])
  {
    LegalPrefix(f, s.device, steps, |steps| - 1);
    assert CanTake(f, s.device, steps, |steps| - 1);
  }

  // ----- What every run keeps -----

  /** Some packet of received has identity id. */
  ghost predicate Reached(received: seq<Packet>, id: nat) {
    exists i :: 0 <= i < |received| && PacketId(received[i]) == id
  }

  ghost predicate CallOk(c: Call) {
    && c.p.seqNo != 0 && Encodable(c.p)
    && c.tries <= c.maxTries + 1
    && (c.status.Idle? ==> c.tries <= c.maxTries)
    && (c.status.Waiting? ==> c.tries > 0)
    && (c.status.Returned? ==> c.tries > 0 && c.status.rsp.rsp && PacketId(c.status.rsp) == PacketId(c.p))
    && (c.status == Failed(TimeoutError) ==> c.tries == c.maxTries + 1)
  }

  ghost predicate CallsOk(calls: seq<Call>) {
    forall k :: 0 <= k < |calls| ==> CallOk(calls[k])
  }

  /** A call that has returned was received. */
  ghost predicate ReturnOk(c: Call, received: seq<Packet>) {
    c.status.Returned? ==> Reached(received, PacketId(c.p))
  }

  ghost predicate ReturnsOk(calls: seq<Call>, received: seq<Packet>) {
    forall k :: 0 <= k < |calls| ==> ReturnOk(calls[k], received)
  }

  /** p was written for the call c. */
  predicate WrittenFor(c: Call, p: Packet) {
    c.p == p && c.tries > 0
  }

  ghost predicate WasWritten(calls: seq<Call>, p: Packet) {
    exists k :: 0 <= k < |calls| && WrittenFor(calls[k], p)
  }

  ghost predicate DownOk(calls: seq<Call>, down: seq<Written>) {
    forall i :: 0 <= i < |down| ==> WasWritten(calls, down[i].p)
  }

  /** All that is written is encodable and numbered. */
  ghost predicate Fit(ws: seq<Written>) {
    forall i :: 0 <= i < |ws| ==> Encodable(ws[i].p) && ws[i].p.seqNo != 0
  }

  /** No body written is longer than the decoder takes. */
  ghost predicate Within(ws: seq<Written>) {
    forall i :: 0 <= i < |ws| ==> |ws[i].p.body| <= MAX_BODY_LENGTH
  }

  /** p arrived for a packet that was written. */
  ghost predicate Came(ws: seq<Written>, p: Packet) {
    exists i :: 0 <= i < |ws| && p == Arrival(ws[i].p)
  }

  ghost predicate CameOk(down: seq<Written>, received: seq<Packet>) {
    forall i :: 0 <= i < |received| ==> Came(down, received[i])
  }

  ghost predicate HandedOk(received: seq<Packet>, log: seq<Handing>, channels: map<Word, Channel>) {
    Handed(log) == New(received) && AllKept(channels, log)
  }

  /** Every packet written up answers something the client received. */
  ghost predicate UpOk(up: seq<Written>, received: seq<Packet>) {
    forall i :: 0 <= i < |up| ==> up[i].p.rsp && Reached(received, PacketId(up[i].p))
  }

  ghost predicate Inv(s: System) {
    && CallsOk(s.calls)
    && DownOk(s.calls, s.down)
    && Fit(s.down)
    && Fit(s.up)
    && HandedOk(s.received, s.log, s.channels)
    && UpOk(s.up, s.received)
    && (Within(s.down) ==> CameOk(s.down, s.received))
    && (Within(s.up) ==> ReturnsOk(s.calls, s.received))
  }

  // ----- What comes out of a connection -----

  lemma OnSnoc(ws: seq<Written>, w: Written, link: nat)
    ensures On(ws + [w], link) == On(ws, link) + if w.link == link then [w.p] else []
  {
    assert (ws + [w])[..|ws|] == ws;
  }

  lemma {:induction false} OnMember(ws: seq<Written>, link: nat, n: nat) returns (i: nat)
    requires n < |On(ws, link)|
    ensures i < |ws| && ws[i].p == On(ws, link)[n]
    decreases |ws|
  {
    var front := ws[..|ws| - 1];
    if n < |On(front, link)| {
      i := OnMember(front, link, n);
    } else {
      i := |front|;
    }
  }

  lemma OnFits(ws: seq<Written>, link: nat)
    requires Fit(ws) && Within(ws)
    ensures AllEncodable(On(ws, link)) && AllNumbered(On(ws, link)) && AllWithin(On(ws, link))
  {
    forall n | 0 <= n < |On(ws, link)|
      ensures var p := On(ws, link)[n]; Encodable(p) && p.seqNo != 0 && |p.body| <= MAX_BODY_LENGTH
    {
      var i := OnMember(ws, link, n);
    }
  }

  /** With all bodies within the limit only what was written arrives. */
  lemma ArrivedCame(f: WireFormat, ws: seq<Written>, link: nat, n: nat, p: Packet)
    requires Fit(ws) && Within(ws) && Arrives(f, On(ws, link), n, p)
    ensures Came(ws, p)
  {
    OnFits(ws, link);
    var k := ArrivedWasWritten(f, On(ws, link), n, p);
    var i := OnMember(ws, link, k);
  }

  lemma ArrivedNumbered(f: WireFormat, ps: seq<Packet>, n: nat, p: Packet)
    requires Arrives(f, ps, n, p)
    ensures p.seqNo != 0
  {
  }

  lemma ReachedGrows(received: seq<Packet>, p: Packet, id: nat)
    requires Reached(received, id) || PacketId(p) == id
    ensures Reached(received + [p], id)
  {
    if Reached(received, id) {
      var i :| 0 <= i < |received| && PacketId(received[i]) == id;
      assert (received + [p])[i] == received[i];
    } else {
      assert (received + [p])[|received|] == p;
    }
  }

  lemma ReturnsOkGrow(calls: seq<Call>, received: seq<Packet>, p: Packet)
    requires ReturnsOk(calls, received)
    ensures ReturnsOk(calls, received + [p])
  {
    forall k | 0 <= k < |calls|
      ensures ReturnOk(calls[k], received + [p])
    {
      assert ReturnOk(calls[k], received);
      if calls[k].status.Returned? {
        ReachedGrows(received, p, PacketId(calls[k].p));
      }
    }
  }

  lemma UpOkGrows(up: seq<Written>, received: seq<Packet>, p: Packet)
    requires UpOk(up, received)
    ensures UpOk(up, received + [p])
  {
    forall i | 0 <= i < |up|
      ensures Reached(received + [p], PacketId(up[i].p))
    {
      ReachedGrows(received, p, PacketId(up[i].p));
    }
  }

  lemma UpOkSnoc(up: seq<Written>, received: seq<Packet>, w: Written)
    requires UpOk(up, received) && w.p.rsp && Reached(received, PacketId(w.p))
    ensures UpOk(up + [w], received)
  {
  }

  lemma FitSnoc(ws: seq<Written>, w: Written)
    requires Fit(ws) && Encodable(w.p) && w.p.seqNo != 0
    ensures Fit(ws + [w])
  {
  }

  lemma WithinFront(ws: seq<Written>, w: Written)
    ensures Within(ws + [w]) ==> Within(ws)
  {
    if Within(ws + [w]) {
      forall i | 0 <= i < |ws|
        ensures |ws[i].p.body| <= MAX_BODY_LENGTH
      {
        assert (ws + [w])[i] == ws[i];
      }
    }
  }

  lemma DownReplaced(calls: seq<Call>, down: seq<Written>, k: nat, c: Call)
    requires DownOk(calls, down) && k < |calls| && c.p == calls[k].p && c.tries >= calls[k].tries
    ensures DownOk(calls[k := c], down)
  {
    forall i | 0 <= i < |down|
      ensures WasWritten(calls[k := c], down[i].p)
    {
      assert WasWritten(calls, down[i].p);
      var j :| 0 <= j < |calls| && WrittenFor(calls[j], down[i].p);
      assert WrittenFor(calls[k := c][j], down[i].p);
    }
  }

  lemma DownSnoc(calls: seq<Call>, down: seq<Written>, k: nat, link: nat)
    requires DownOk(calls, down) && k < |calls| && calls[k].tries > 0
    ensures DownOk(calls, down + [Written(link, calls[k].p)])
  {
    assert WrittenFor(calls[k], calls[k].p);
    forall i | 0 <= i < |down| + 1
      ensures WasWritten(calls, (down + [Written(link, calls[k].p)])[i].p)
    {
      if i < |down| {
        assert WasWritten(calls, down[i].p);
      }
    }
  }

  lemma CameGrows(down: seq<Written>, received: seq<Packet>, more: Written)
    requires CameOk(down, received)
    ensures CameOk(down + [more], received)
  {
    forall j | 0 <= j < |received|
      ensures Came(down + [more], received[j])
    {
      assert Came(down, received[j]);
      var i :| 0 <= i < |down| && received[j] == Arrival(down[i].p);
      assert (down + [more])[i] == down[i];
    }
  }

  // ----- Step by step -----

  lemma CallsReplaced(calls: seq<Call>, k: nat, c: Call)
    requires CallsOk(calls) && CallOk(c) && k < |calls|
    ensures CallsOk(calls[k := c])
  {
  }

  lemma ReturnsReplaced(calls: seq<Call>, received: seq<Packet>, k: nat, c: Call)
    requires ReturnsOk(calls, received) && ReturnOk(c, received) && k < |calls|
    ensures ReturnsOk(calls[k := c], received)
  {
  }

  /** Changing a call, without forgetting a try, keeps the rest. */
  lemma SetCallKeeps(s: System, k: nat, c: Call)
    requires Inv(s) && k < |s.calls| && CallOk(c) && (Within(s.up) ==> ReturnOk(c, s.received))
    requires c.p == s.calls[k].p && c.tries >= s.calls[k].tries
    ensures Inv(SetCall(s, k, c))
  {
    CallsReplaced(s.calls, k, c);
    DownReplaced(s.calls, s.down, k, c);
    if Within(s.up) {
      ReturnsReplaced(s.calls, s.received, k, c);
    }
  }

  lemma SubmitKeeps(s: System, p: Packet, maxTries: nat)
    requires Inv(s) && p.seqNo != 0 && Encodable(p)
    ensures Inv(Next(s, Submit(p, maxTries)))
  {
    var c := Call(p, maxTries, 0, Idle);
    assert CallOk(c);
    forall i | 0 <= i < |s.down|
      ensures WasWritten(s.calls + [c], s.down[i].p)
    {
      assert WasWritten(s.calls, s.down[i].p);
      var j :| 0 <= j < |s.calls| && WrittenFor(s.calls[j], s.down[i].p);
      assert WrittenFor((s.calls + [c])[j], s.down[i].p);
    }
  }

  lemma WriteKeeps(s: System, k: nat)
    requires Inv(s) && k < |s.calls| && s.calls[k].tries > 0
    ensures Inv(s.(down := s.down + [Written(s.link, s.calls[k].p)]))
  {
    var w := Written(s.link, s.calls[k].p);
    assert CallOk(s.calls[k]);
    DownSnoc(s.calls, s.down, k, s.link);
    FitSnoc(s.down, w);
    WithinFront(s.down, w);
    if Within(s.down) {
      CameGrows(s.down, s.received, w);
    }
  }

  lemma TryKeeps(s: System, k: nat)
    requires Inv(s) && k < |s.calls| && s.calls[k].status.Idle?
    ensures Inv(Next(s, Try(k)))
  {
    assert CallOk(s.calls[k]);
    var c := Next(s, Try(k)).calls[k];
    SetCallKeeps(s, k, c);
    if !s.stopped && s.connected {
      WriteKeeps(SetCall(s, k, c), k);
    }
  }

  lemma HearKeeps(f: WireFormat, s: System, k: nat, link: nat, n: nat, rsp: Packet)
    requires Inv(s) && Enabled(f, s, Hear(k, link, n, rsp))
    ensures Inv(Next(s, Hear(k, link, n, rsp)))
  {
    assert CallOk(s.calls[k]);
    if Within(s.up) {
      ArrivedCame(f, s.up, link, n, rsp);
      var i :| 0 <= i < |s.up| && rsp == Arrival(s.up[i].p);
      assert Reached(s.received, PacketId(s.up[i].p));
    }
    SetCallKeeps(s, k, s.calls[k].(status := Returned(rsp)));
  }

  lemma GiveUpKeeps(s: System, k: nat)
    requires Inv(s) && k < |s.calls| && s.calls[k].status.Waiting?
    ensures Inv(Next(s, GiveUp(k)))
  {
    assert CallOk(s.calls[k]);
    SetCallKeeps(s, k, Unanswered(s.calls[k]));
  }

  lemma AckKeepsUp(up: seq<Written>, received: seq<Packet>, p: Packet, link: nat)
    requires UpOk(up, received) && Fit(up) && p.seqNo != 0 && |p.deviceId| < DEVICE_ID_SIZE
    ensures UpOk(up + [Written(link, Ack(p, p.deviceId))], received + [p])
    ensures Fit(up + [Written(link, Ack(p, p.deviceId))])
  {
    UpOkGrows(up, received, p);
    AckAnswers(p, p.deviceId);
    ReachedGrows(received, p, PacketId(p));
    UpOkSnoc(up, received + [p], Written(link, Ack(p, p.deviceId)));
    FitSnoc(up, Written(link, Ack(p, p.deviceId)));
  }

  lemma HandingKept(s: System, link: nat, n: nat, p: Packet)
    requires HandedOk(s.received, s.log, s.channels)
    ensures var t := Received(s, link, n, p); HandedOk(t.received, t.log, t.channels)
  {
    NewSnoc(s.received, p);
    HandKeepsAll(s.channels, s.log, p);
    assert New(s.received) + [] == New(s.received);
  }

  lemma ReceivedReturns(s: System, link: nat, p: Packet)
    requires Within(s.up) ==> ReturnsOk(s.calls, s.received)
    ensures Within(s.up + [Written(link, Ack(p, p.deviceId))]) ==> ReturnsOk(s.calls, s.received + [p])
  {
    WithinFront(s.up, Written(link, Ack(p, p.deviceId)));
    if Within(s.up) {
      ReturnsOkGrow(s.calls, s.received, p);
    }
  }

  lemma ReceivedCame(f: WireFormat, s: System, link: nat, n: nat, p: Packet)
    requires Fit(s.down) && (Within(s.down) ==> CameOk(s.down, s.received))
    requires Arrives(f, On(s.down, link), n, p)
    ensures Within(s.down) ==> CameOk(s.down, s.received + [p])
  {
    if Within(s.down) {
      ArrivedCame(f, s.down, link, n, p);
    }
  }

  lemma ReceivedFields(s: System, link: nat, n: nat, p: Packet)
    ensures var t := Received(s, link, n, p);
            && t.device == s.device && t.calls == s.calls && t.down == s.down
            && t.receipts == s.receipts + [Receipt(link, n)]
            && t.received == s.received + [p] && t.up == s.up + [Written(link, Ack(p, p.deviceId))]
  {
  }

  lemma InvOf(s: System, t: System)
    requires Inv(s) && t.calls == s.calls && t.down == s.down
    requires Fit(t.up) && HandedOk(t.received, t.log, t.channels) && UpOk(t.up, t.received)
    requires Within(t.down) ==> CameOk(t.down, t.received)
    requires Within(t.up) ==> ReturnsOk(t.calls, t.received)
    ensures Inv(t)
  {
  }

  lemma ReceiveKeeps(f: WireFormat, s: System, link: nat, n: nat, p: Packet)
    requires Inv(s) && p.seqNo != 0 && |p.deviceId| < DEVICE_ID_SIZE && Arrives(f, On(s.down, link), n, p)
    ensures Inv(Received(s, link, n, p))
  {
    AckKeepsUp(s.up, s.received, p, link);
    ReceivedReturns(s, link, p);
    ReceivedCame(f, s, link, n, p);
    HandingKept(s, link, n, p);
    ReceivedFields(s, link, n, p);
    InvOf(s, Received(s, link, n, p));
  }

  /** What a channel gave out was handed to it. */
  lemma {:induction false} AcceptedWasHanded(log: seq<Handing>, cmd: Word, i: nat)
    requires i < |AcceptedFor(log, cmd)|
    ensures AcceptedFor(log, cmd)[i] in Handed(log)
    decreases |log|
  {
    var front, last := log[..|log| - 1], log[|log| - 1];
    assert Handed(log) == Handed(front) + [last.p];
    if i < |AcceptedFor(front, cmd)| {
      AcceptedWasHanded(front, cmd, i);
    } else {
      assert Handed(log)[|front|] == last.p;
    }
  }

  lemma {:induction false} NewWasReceived(received: seq<Packet>, p: Packet)
    requires p in New(received)
    ensures p in received
    decreases |received|
  {
    var front, last := received[..|received| - 1], received[|received| - 1];
    assert received == front + [last];
    if p in New(front) {
      NewWasReceived(front, p);
    }
  }

  lemma TakenWasReceived(s: System, cmd: Word, i: nat)
    requires HandedOk(s.received, s.log, s.channels) && i < |ChannelOf(s.channels, cmd).taken|
    ensures ChannelOf(s.channels, cmd).taken[i] in s.received
  {
    var c := ChannelOf(s.channels, cmd);
    assert Kept(c, s.log, cmd);
    assert c.taken[i] == (c.taken + c.buffer)[i];
    AcceptedWasHanded(s.log, cmd, i);
    NewWasReceived(s.received, c.taken[i]);
  }

  lemma ReplyKeeps(f: WireFormat, s: System, link: nat, cmd: Word, i: nat, rsp: Packet)
    requires Inv(s) && Enabled(f, s, Reply(link, cmd, i, rsp))
    ensures Inv(Next(s, Reply(link, cmd, i, rsp)))
  {
    TakenWasReceived(s, cmd, i);
    assert Reached(s.received, PacketId(rsp));
    UpOkSnoc(s.up, s.received, Written(link, rsp));
    FitSnoc(s.up, Written(link, rsp));
    WithinFront(s.up, Written(link, rsp));
  }

  lemma StepKeeps(f: WireFormat, s: System, step: Step)
    requires Inv(s) && Enabled(f, s, step)
    ensures Inv(Next(s, step))
  {
    match step
    case Submit(p, maxTries) => SubmitKeeps(s, p, maxTries);
    case Try(k) => TryKeeps(s, k);
    case Hear(k, link, n, rsp) => HearKeeps(f, s, k, link, n, rsp);
    case GiveUp(k) => GiveUpKeeps(s, k);
    case Receive(link, n, p) =>
      ArrivedNumbered(f, On(s.down, link), n, p);
      ReceiveKeeps(f, s, link, n, p);
    case Take(cmd) => ReceiveKeepsAll(s.channels, s.log, cmd);
    case Reply(link, cmd, i, rsp) => ReplyKeeps(f, s, link, cmd, i, rsp);
    case _ =>
  }

  lemma {:induction false} RunsKeep(f: WireFormat, steps: seq<Step>, s: System)
    requires Runs(f, steps, s)
    ensures Inv(s)
    decreases |steps|
  {
    if steps == [] {
      assert AllKept(map[], []);
    } else {
      var n := |steps| - 1;
      RunsFront(f, steps, s);
      RunsKeep(f, steps[..n], After(s.device, steps[..n]));
      StepKeeps(f, After(s.device, steps[..n]), steps[n]);
    }
  }
}
