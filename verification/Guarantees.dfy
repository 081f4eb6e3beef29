/** What the retries, the acknowledgements and the memory of recent requests guarantee over whole runs. */
module Guarantees {
  import opened Bytes
  import opened Packets
  import opened Framing
  import opened Links
  import opened Lru
  import opened Counting
  import opened Dedup
  import opened Clients
  import opened Calls
  import opened Delivery

  // ----- Which packets are written -----

  function TriesFor(calls: seq<Call>, id: nat): nat
    decreases |calls|
  {
    if calls == [] then 0 else TriesFor(calls[..|calls| - 1], id) + TriesIf(calls[|calls| - 1], id)
  }

  function TriesIf(c: Call, id: nat): nat {
    if PacketId(c.p) == id then c.tries else 0
  }

  lemma {:induction false} TriesReplaced(calls: seq<Call>, k: nat, c: Call, id: nat)
    requires k < |calls|
    ensures TriesFor(calls[k := c], id) == TriesFor(calls, id) - TriesIf(calls[k], id) + TriesIf(c, id)
    decreases |calls|
  {
    var n := |calls| - 1;
    if k == n {
      assert calls[k := c][..n] == calls[..n];
    } else {
      assert calls[k := c][..n] == calls[..n][k := c];
      TriesReplaced(calls[..n], k, c, id);
    }
  }

  function Payload(ws: seq<Written>): (ps: seq<Packet>)
    ensures |ps| == |ws|
  {
    seq(|ws|, i requires 0 <= i < |ws| => ws[i].p)
  }

  /** How often a write of identity id was begun. */
  function TimesWritten(s: System, id: nat): nat {
    Count(Ids(Payload(s.down)), id)
  }

  lemma WrittenSnoc(ws: seq<Written>, w: Written, id: nat)
    ensures Count(Ids(Payload(ws + [w])), id) == Count(Ids(Payload(ws)), id) + One(PacketId(w.p) == id)
  {
    assert Payload(ws + [w]) == Payload(ws) + [w.p];
    IdsSnoc(Payload(ws), w.p);
    CountSnoc(Ids(Payload(ws)), PacketId(w.p), id);
  }

  ghost predicate Balanced(s: System, id: nat) {
    TimesWritten(s, id) == TriesFor(s.calls, id)
  }

  lemma TryBalances(s: System, k: nat, id: nat)
    requires Balanced(s, id) && k < |s.calls| && s.calls[k].status.Idle?
    ensures Balanced(Next(s, Try(k)), id)
  {
    TriesReplaced(s.calls, k, Next(s, Try(k)).calls[k], id);
    if !s.stopped && s.connected {
      WrittenSnoc(s.down, Written(s.link, s.calls[k].p), id);
    }
  }

  lemma ReceiveBalances(s: System, link: nat, n: nat, p: Packet, id: nat)
    requires Balanced(s, id)
    ensures Balanced(Received(s, link, n, p), id)
  {
    ReceivedFields(s, link, n, p);
  }

  lemma StepBalances(f: WireFormat, s: System, step: Step, id: nat)
    requires Balanced(s, id) && Enabled(f, s, step)
    ensures Balanced(Next(s, step), id)
  {
    match step
    case Submit(p, maxTries) => assert (s.calls + [Call(p, maxTries, 0, Idle)])[..|s.calls|] == s.calls;
    case Try(k) => TryBalances(s, k, id);
    case Hear(k, _, _, rsp) => TriesReplaced(s.calls, k, s.calls[k].(status := Returned(rsp)), id);
    case GiveUp(k) => TriesReplaced(s.calls, k, Unanswered(s.calls[k]), id);
    case Receive(link, n, p) => ReceiveBalances(s, link, n, p, id);
    case _ =>
  }

  /** A write of a request is begun once for every try of a call that makes it, and never otherwise. */
  lemma {:induction false} WrittenOncePerTry(f: WireFormat, steps: seq<Step>, s: System, id: nat)
    requires Runs(f, steps, s)
    ensures TimesWritten(s, id) == TriesFor(s.calls, id)
    decreases |steps|
  {
    if steps != [] {
      var n := |steps| - 1;
      RunsFront(f, steps, s);
      WrittenOncePerTry(f, steps[..n], After(s.device, steps[..n]), id);
      StepBalances(f, After(s.device, steps[..n]), steps[n], id);
    }
  }

  /** No two calls make requests of the same identity. */
  ghost predicate DistinctCalls(calls: seq<Call>) {
    forall j, k :: 0 <= j < k < |calls| ==> PacketId(calls[j].p) != PacketId(calls[k].p)
  }

  lemma {:induction false} TriesOfOne(calls: seq<Call>, k: nat)
    requires DistinctCalls(calls) && k < |calls|
    ensures TriesFor(calls, PacketId(calls[k].p)) == calls[k].tries
    decreases |calls|
  {
    var n := |calls| - 1;
    if k < n {
      TriesOfOne(calls[..n], k);
    } else {
      TriesOfNone(calls[..n], PacketId(calls[k].p));
    }
  }

  lemma {:induction false} TriesOfNone(calls: seq<Call>, id: nat)
    requires forall k :: 0 <= k < |calls| ==> PacketId(calls[k].p) != id
    ensures TriesFor(calls, id) == 0
    decreases |calls|
  {
    if calls != [] {
      TriesOfNone(calls[..|calls| - 1], id);
    }
  }

  /** A call never begins to write its request more than maxTries + 1 times, and that often if it times out. */
  lemma WrittenAtMost(f: WireFormat, steps: seq<Step>, s: System, k: nat)
    requires Runs(f, steps, s) && DistinctCalls(s.calls) && k < |s.calls|
    ensures TimesWritten(s, PacketId(s.calls[k].p)) <= s.calls[k].maxTries + 1
    ensures s.calls[k].status == Failed(TimeoutError)
        ==> TimesWritten(s, PacketId(s.calls[k].p)) == s.calls[k].maxTries + 1
  {
    WrittenOncePerTry(f, steps, s, PacketId(s.calls[k].p));
    TriesOfOne(s.calls, k);
    RunsKeep(f, steps, s);
    assert CallOk(s.calls[k]);
  }

  /** Numbers drawn from a fresh counter keep calls apart for the first 2^31 - 1 draws. */
  lemma NumbersKeepCallsApart(calls: seq<Call>, draws: seq<nat>)
    requires |draws| == |calls|
    requires forall j, k :: 0 <= j < k < |calls| ==> draws[j] != draws[k]
    requires forall k :: 0 <= k < |calls| ==> 0 < draws[k] < 0x8000_0000 && calls[k].p.seqNo == NthSeq(0, draws[k])
    ensures DistinctCalls(calls)
  {
    forall j, k | 0 <= j < k < |calls|
      ensures PacketId(calls[j].p) != PacketId(calls[k].p)
    {
      NthSeqClosedForm(0, draws[j]);
      NthSeqClosedForm(0, draws[k]);
      IdInjectiveBelow(calls[j].p.cmd, calls[j].p.seqNo, calls[k].p.cmd, calls[k].p.seqNo);
    }
  }

  // ----- What a return tells the server -----

  /** No call makes a request with a body the decoder does not take. */
  ghost predicate BodiesWithin(calls: seq<Call>) {
    forall k :: 0 <= k < |calls| ==> |calls[k].p.body| <= MAX_BODY_LENGTH
  }

  lemma DownWithin(s: System)
    requires Inv(s) && BodiesWithin(s.calls)
    ensures Within(s.down)
  {
    forall i | 0 <= i < |s.down|
      ensures |s.down[i].p.body| <= MAX_BODY_LENGTH
    {
      assert WasWritten(s.calls, s.down[i].p);
    }
  }

  /** A call that returns has got a response of its identity; and if no response is over the body limit, the client
      has received a request of that identity. */
  lemma ReturnMeansReceipt(f: WireFormat, steps: seq<Step>, s: System, k: nat)
    requires Runs(f, steps, s) && k < |s.calls| && s.calls[k].status.Returned?
    ensures var c := s.calls[k]; c.status.rsp.rsp && PacketId(c.status.rsp) == PacketId(c.p)
    ensures Within(s.up) ==> Reached(s.received, PacketId(s.calls[k].p))
  {
    RunsKeep(f, steps, s);
    assert CallOk(s.calls[k]);
    assert Within(s.up) ==> ReturnOk(s.calls[k], s.received);
  }

  /** If no request is over the body limit, all that is received was written for a call. */
  lemma ReceivedWasWritten(f: WireFormat, steps: seq<Step>, s: System, i: nat) returns (k: nat)
    requires Runs(f, steps, s) && BodiesWithin(s.calls) && i < |s.received|
    ensures k < |s.calls| && s.calls[k].tries > 0 && s.received[i] == Arrival(s.calls[k].p)
  {
    RunsKeep(f, steps, s);
    DownWithin(s);
    assert Came(s.down, s.received[i]);
    var j :| 0 <= j < |s.down| && s.received[i] == Arrival(s.down[j].p);
    assert WasWritten(s.calls, s.down[j].p);
    k :| 0 <= k < |s.calls| && WrittenFor(s.calls[k], s.down[j].p);
  }

  lemma SameId(p: Packet)
    ensures PacketId(Arrival(p)) == PacketId(p)
  {
  }

  /** With calls of different identities, what is received of an identity is the request of its call. */
  lemma ReceivedIsOwn(f: WireFormat, steps: seq<Step>, s: System, i: nat, k: nat)
    requires Runs(f, steps, s) && BodiesWithin(s.calls) && DistinctCalls(s.calls)
    requires i < |s.received| && k < |s.calls| && PacketId(s.received[i]) == PacketId(s.calls[k].p)
    ensures s.received[i] == Arrival(s.calls[k].p)
  {
    var j := ReceivedWasWritten(f, steps, s, i);
    SameId(s.calls[j].p);
    assert j == k;
  }

  /** So the client has received the request of a call that returned. */
  lemma ReturnMeansThisRequest(f: WireFormat, steps: seq<Step>, s: System, k: nat)
    requires Runs(f, steps, s) && BodiesWithin(s.calls) && Within(s.up) && DistinctCalls(s.calls)
    requires k < |s.calls| && s.calls[k].status.Returned?
    ensures Arrival(s.calls[k].p) in s.received
  {
    ReturnMeansReceipt(f, steps, s, k);
    var i :| 0 <= i < |s.received| && PacketId(s.received[i]) == PacketId(s.calls[k].p);
    ReceivedIsOwn(f, steps, s, i, k);
  }

  // ----- How often the application is given a request -----

  lemma ReachedIffIn(received: seq<Packet>, id: nat)
    ensures Reached(received, id) <==> id in Ids(received)
  {
    if Reached(received, id) {
      var i :| 0 <= i < |received| && PacketId(received[i]) == id;
      assert Ids(received)[i] == id;
    }
    if id in Ids(received) {
      var i :| 0 <= i < |received| && Ids(received)[i] == id;
      assert PacketId(received[i]) == id;
    }
  }

  /** How often requests of identity id were handed on. */
  function TimesHanded(s: System, id: nat): nat {
    Count(Ids(Handed(s.log)), id)
  }

  /** Whatever is lost, late or sent again, and however connections come, go and overlap: what was received is handed
      on, and only once unless it came again after 1000 or more distinct others. */
  lemma HandedOnceIff(f: WireFormat, steps: seq<Step>, s: System, id: nat)
    requires Runs(f, steps, s)
    ensures TimesHanded(s, id) > 0 <==> Reached(s.received, id)
    ensures TimesHanded(s, id) <= 1
       <==> forall k: nat :: !LateRepeat(Ids(s.received), k, id, RECENTLY_RECEIVED_REQUEST_CAP)
  {
    RunsKeep(f, steps, s);
    NewArePassed(s.received);
    ReachedIffIn(s.received, id);
    PassedAtLeastOnce(Ids(s.received), id, RECENTLY_RECEIVED_REQUEST_CAP);
    OnceIff(Ids(s.received), id, RECENTLY_RECEIVED_REQUEST_CAP);
  }

  function CallIds(calls: seq<Call>): (ids: set<nat>)
    ensures |ids| <= |calls|
    ensures forall k :: 0 <= k < |calls| ==> PacketId(calls[k].p) in ids
    decreases |calls|
  {
    if calls == [] then {}
    else
      var ids, id := CallIds(calls[..|calls| - 1]), PacketId(calls[|calls| - 1].p);
      AddOne(ids, id);
      ids + {id}
  }

  lemma ReceivedAreCalled(f: WireFormat, steps: seq<Step>, s: System)
    requires Runs(f, steps, s) && BodiesWithin(s.calls)
    ensures Values(Ids(s.received)) <= CallIds(s.calls)
  {
    forall id | id in Ids(s.received)
      ensures id in CallIds(s.calls)
    {
      ReachedIffIn(s.received, id);
      var i :| 0 <= i < |s.received| && PacketId(s.received[i]) == id;
      var k := ReceivedWasWritten(f, steps, s, i);
      SameId(s.calls[k].p);
    }
  }

  /** A server that has made at most 1000 calls, none with a body over the limit, never has a request handed on
      twice. */
  lemma FewCallsHandedOnce(f: WireFormat, steps: seq<Step>, s: System, k: nat)
    requires Runs(f, steps, s) && BodiesWithin(s.calls)
    requires |s.calls| <= 1000 && k < |s.calls|
    ensures TimesHanded(s, PacketId(s.calls[k].p)) <= 1
  {
    var id := PacketId(s.calls[k].p);
    RunsKeep(f, steps, s);
    NewArePassed(s.received);
    ReceivedAreCalled(f, steps, s);
    var ids := CallIds(s.calls);
    AddOne(ids - {id}, id);
    assert ids - {id} + {id} == ids;
    SubsetSize(Values(Ids(s.received)) - {id}, ids - {id});
    FewValuesPassOnce(Ids(s.received), id, RECENTLY_RECEIVED_REQUEST_CAP);
  }

  /** And if no response is over it either, a request for which a call returned was handed on exactly once. */
  lemma ReturnedIsHandedOnce(f: WireFormat, steps: seq<Step>, s: System, k: nat)
    requires Runs(f, steps, s) && BodiesWithin(s.calls) && Within(s.up)
    requires |s.calls| <= 1000 && k < |s.calls| && s.calls[k].status.Returned?
    ensures TimesHanded(s, PacketId(s.calls[k].p)) == 1
  {
    FewCallsHandedOnce(f, steps, s, k);
    ReturnMeansReceipt(f, steps, s, k);
    HandedOnceIff(f, steps, s, PacketId(s.calls[k].p));
  }

  lemma FewerOfPrefix(ps: seq<Packet>, qs: seq<Packet>, id: nat)
    ensures Count(Ids(ps), id) <= Count(Ids(ps + qs), id)
  {
    assert Ids(ps + qs) == Ids(ps) + Ids(qs);
    CountConcat(Ids(ps), Ids(qs), id);
  }

  lemma {:induction false} AcceptedAtMostHanded(log: seq<Handing>, cmd: Word, id: nat)
    ensures Count(Ids(AcceptedFor(log, cmd)), id) <= Count(Ids(Handed(log)), id)
    decreases |log|
  {
    if log != [] {
      var front, last := log[..|log| - 1], log[|log| - 1];
      AcceptedAtMostHanded(front, cmd, id);
      assert Handed(log) == Handed(front) + [last.p];
      IdsSnoc(Handed(front), last.p);
      CountSnoc(Ids(Handed(front)), PacketId(last.p), id);
      IdsSnoc(AcceptedFor(front, cmd), last.p);
      CountSnoc(Ids(AcceptedFor(front, cmd)), PacketId(last.p), id);
      assert AcceptedFor(front, cmd) + [] == AcceptedFor(front, cmd);
    }
  }

  /** The application gets no request more often than it was handed on. */
  lemma TakenAtMostHanded(f: WireFormat, steps: seq<Step>, s: System, cmd: Word, id: nat)
    requires Runs(f, steps, s)
    ensures Count(Ids(ChannelOf(s.channels, cmd).taken), id) <= TimesHanded(s, id)
  {
    RunsKeep(f, steps, s);
    var c := ChannelOf(s.channels, cmd);
    assert Kept(c, s.log, cmd);
    FewerOfPrefix(c.taken, c.buffer, id);
    AcceptedAtMostHanded(s.log, cmd, id);
  }

  // ----- When a request gets into its channel -----

  /** The application has asked for cmd, and fewer than 64 requests of cmd wait for it. */
  ghost predicate HasRoom(s: System, cmd: Word) {
    && cmd in s.channels
    && |AcceptedFor(s.log, cmd)| < |s.channels[cmd].taken| + RECEIVED_PACKET_CHANNEL_SIZE
  }

  /** A new request is accepted exactly when there is room. */
  lemma AcceptedIffRoom(s: System, link: nat, n: nat, p: Packet)
    requires Inv(s) && IsNew(s.received, p)
    ensures exists fate :: Received(s, link, n, p).log == s.log + [Handing(p, fate)]
                        && (fate == Accepted <==> HasRoom(s, p.cmd))
  {
    var fate := HandTo(s.channels, p).1;
    assert Received(s, link, n, p).log == s.log + [Handing(p, fate)];
    if p.cmd in s.channels {
      var c := s.channels[p.cmd];
      assert Kept(ChannelOf(s.channels, p.cmd), s.log, p.cmd);
      assert |c.taken + c.buffer| == |AcceptedFor(s.log, p.cmd)|;
      DroppedIff(s.channels, s.log, p);
      ChannelIsFifo(c, p);
    }
  }

  /** Step m is the first receipt of identity id. */
  ghost predicate FirstReceipt(device: seq<Byte>, steps: seq<Step>, m: nat, id: nat) {
    && m < |steps|
    && steps[m].Receive?
    && PacketId(steps[m].p) == id
    && !Reached(After(device, steps[..m]).received, id)
  }

  lemma StepReaches(s: System, step: Step, id: nat)
    requires Reached(Next(s, step).received, id) && !Reached(s.received, id)
    ensures step.Receive? && PacketId(step.p) == id
  {
    if step.Receive? {
      ReceivedFields(s, step.link, step.n, step.p);
      var i :| 0 <= i < |s.received + [step.p]| && PacketId((s.received + [step.p])[i]) == id;
      assert i == |s.received|;
    }
  }

  lemma FirstReceiptLater(device: seq<Byte>, steps: seq<Step>, n: nat, m: nat, id: nat)
    requires n <= |steps| && FirstReceipt(device, steps[..n], m, id)
    ensures FirstReceipt(device, steps, m, id)
  {
    assert steps[..n][..m] == steps[..m];
  }

  lemma FirstReceiptLast(device: seq<Byte>, steps: seq<Step>, id: nat)
    requires steps != [] && Reached(After(device, steps).received, id)
    requires !Reached(After(device, steps[..|steps| - 1]).received, id)
    ensures FirstReceipt(device, steps, |steps| - 1, id)
  {
    StepReaches(After(device, steps[..|steps| - 1]), steps[|steps| - 1], id);
  }

  lemma {:induction false} FirstReceiptExists(f: WireFormat, steps: seq<Step>, s: System, id: nat) returns (m: nat)
    requires Runs(f, steps, s) && Reached(s.received, id)
    ensures FirstReceipt(s.device, steps, m, id)
    decreases |steps|
  {
    var n := |steps| - 1;
    RunsFront(f, steps, s);
    var t := After(s.device, steps[..n]);
    if Reached(t.received, id) {
      m := FirstReceiptExists(f, steps[..n], t, id);
      FirstReceiptLater(s.device, steps, n, m, id);
    } else {
      FirstReceiptLast(s.device, steps, id);
      m := n;
    }
  }

  lemma LogGrowsByOne(s: System, step: Step)
    ensures s.log <= Next(s, step).log
  {
  }

  lemma {:induction false} LogGrows(device: seq<Byte>, steps: seq<Step>, m: nat)
    requires m <= |steps|
    ensures After(device, steps[..m]).log <= After(device, steps).log
    decreases |steps|
  {
    if m == |steps| {
      assert steps[..m] == steps;
    } else {
      var n := |steps| - 1;
      LogGrows(device, steps[..n], m);
      assert steps[..n][..m] == steps[..m];
      LogGrowsByOne(After(device, steps[..n]), steps[n]);
    }
  }

  lemma {:induction false} AcceptedInLog(log: seq<Handing>, cmd: Word, p: Packet) returns (i: nat)
    requires p in AcceptedFor(log, cmd)
    ensures i < |log| && log[i] == Handing(p, Accepted) && p.cmd == cmd
    decreases |log|
  {
    var n := |log| - 1;
    if log[n] == Handing(p, Accepted) && p.cmd == cmd {
      i := n;
    } else {
      i := AcceptedInLog(log[..n], cmd, p);
    }
  }

  lemma {:induction false} LogIsAccepted(log: seq<Handing>, i: nat)
    requires i < |log| && log[i].fate == Accepted
    ensures log[i].p in AcceptedFor(log, log[i].p.cmd)
    decreases |log|
  {
    if i < |log| - 1 {
      LogIsAccepted(log[..|log| - 1], i);
    }
  }

  /** What is handed on at two places is handed on twice. */
  lemma TwoPlaces(log: seq<Handing>, i: nat, j: nat, id: nat)
    requires i < j < |log| && PacketId(log[i].p) == id == PacketId(log[j].p)
    ensures Count(Ids(Handed(log)), id) >= 2
  {
    var a, b := Handed(log[..j]), Handed(log[j..]);
    assert Handed(log) == a + b;
    assert Ids(a + b) == Ids(a) + Ids(b);
    CountConcat(Ids(a), Ids(b), id);
    assert Ids(a)[i] == id && Ids(b)[0] == id;
    CountIn(Ids(a), id);
    CountIn(Ids(b), id);
  }

  lemma OnePlace(log: seq<Handing>, i: nat, j: nat)
    requires i < |log| && j < |log| && PacketId(log[i].p) == PacketId(log[j].p)
    ensures Count(Ids(Handed(log)), PacketId(log[i].p)) <= 1 ==> i == j
  {
    if i < j {
      TwoPlaces(log, i, j, PacketId(log[i].p));
    } else if j < i {
      TwoPlaces(log, j, i, PacketId(log[i].p));
    }
  }

  /** The place of p in the log tells whether it was accepted, if its identity was handed on once. */
  lemma {:induction false} PlaceTells(log: seq<Handing>, at: nat)
    requires at < |log| && Count(Ids(Handed(log)), PacketId(log[at].p)) <= 1
    ensures log[at].p in AcceptedFor(log, log[at].p.cmd) <==> log[at].fate == Accepted
  {
    var p := log[at].p;
    if log[at].fate == Accepted {
      LogIsAccepted(log, at);
    }
    if p in AcceptedFor(log, p.cmd) {
      var i := AcceptedInLog(log, p.cmd, p);
      OnePlace(log, i, at);
    }
  }

  lemma AfterNext(device: seq<Byte>, steps: seq<Step>, m: nat)
    requires m < |steps|
    ensures After(device, steps[..m + 1]) == Next(After(device, steps[..m]), steps[m])
  {
    assert steps[..m + 1][..m] == steps[..m];
  }

  lemma ReceiptLogged(t: System, step: Step)
    requires Inv(t) && step.Receive? && IsNew(t.received, step.p)
    ensures |Next(t, step).log| == |t.log| + 1 && Next(t, step).log[|t.log|].p == step.p
    ensures Next(t, step).log[|t.log|].fate == Accepted <==> HasRoom(t, step.p.cmd)
  {
    AcceptedIffRoom(t, step.link, step.n, step.p);
  }

  /** What is handed on at step m stays in the log, accepted exactly when there was room. */
  lemma FirstReceiptLogged(f: WireFormat, steps: seq<Step>, s: System, m: nat, id: nat) returns (at: nat)
    requires Runs(f, steps, s) && FirstReceipt(s.device, steps, m, id)
    ensures at < |s.log| && s.log[at].p == steps[m].p
    ensures s.log[at].fate == Accepted <==> HasRoom(After(s.device, steps[..m]), steps[m].p.cmd)
  {
    var t, p := After(s.device, steps[..m]), steps[m].p;
    LegalPrefix(f, s.device, steps, m);
    RunsKeep(f, steps[..m], t);
    UnreachedIsNew(t.received, p);
    at := |t.log|;
    ReceiptLogged(t, steps[m]);
    AfterNext(s.device, steps, m);
    LogGrows(s.device, steps, m + 1);
    assert s.log[at] == Next(t, steps[m]).log[at];
  }

  /** A request that is handed on once is in its channel, or was taken from it, exactly when there was room at its
      first receipt. */
  lemma KeptIffRoom(f: WireFormat, steps: seq<Step>, s: System, m: nat, id: nat)
    requires Runs(f, steps, s) && FirstReceipt(s.device, steps, m, id) && TimesHanded(s, id) <= 1
    ensures var p, c := steps[m].p, ChannelOf(s.channels, steps[m].p.cmd);
            p in c.taken + c.buffer <==> HasRoom(After(s.device, steps[..m]), p.cmd)
  {
    RunsKeep(f, steps, s);
    assert Kept(ChannelOf(s.channels, steps[m].p.cmd), s.log, steps[m].p.cmd);
    var at := FirstReceiptLogged(f, steps, s, m, id);
    PlaceTells(s.log, at);
  }

  lemma UnreachedIsNew(received: seq<Packet>, p: Packet)
    requires !Reached(received, PacketId(p))
    ensures IsNew(received, p)
  {
    ReachedIffIn(received, PacketId(p));
    NewPasses(Ids(received), PacketId(p), RECENTLY_RECEIVED_REQUEST_CAP);
  }

  /** When a call has returned, its request is in its channel, or was taken by the application, exactly when there
      was room for it when the client first received it. */
  lemma ReturnedIsKeptIff(f: WireFormat, steps: seq<Step>, s: System, k: nat) returns (m: nat)
    requires Runs(f, steps, s) && BodiesWithin(s.calls) && Within(s.up) && DistinctCalls(s.calls)
    requires |s.calls| <= 1000 && k < |s.calls| && s.calls[k].status.Returned?
    ensures FirstReceipt(s.device, steps, m, PacketId(s.calls[k].p)) && steps[m].p == Arrival(s.calls[k].p)
    ensures var c := ChannelOf(s.channels, s.calls[k].p.cmd);
            Arrival(s.calls[k].p) in c.taken + c.buffer <==> HasRoom(After(s.device, steps[..m]), s.calls[k].p.cmd)
  {
    var id := PacketId(s.calls[k].p);
    ReturnMeansReceipt(f, steps, s, k);
    m := FirstReceiptExists(f, steps, s, id);
    var i := ReceiptStays(f, steps, s, m);
    ReceivedIsOwn(f, steps, s, i, k);
    FewCallsHandedOnce(f, steps, s, k);
    KeptIffRoom(f, steps, s, m, id);
  }

  lemma ReceivedGrowsByOne(s: System, step: Step)
    ensures s.received <= Next(s, step).received
  {
    if step.Receive? {
      ReceivedFields(s, step.link, step.n, step.p);
    }
  }

  /** What a step receives is among what has been received in the end. */
  lemma {:induction false} ReceiptStays(f: WireFormat, steps: seq<Step>, s: System, m: nat) returns (i: nat)
    requires Runs(f, steps, s) && m < |steps| && steps[m].Receive?
    ensures i < |s.received| && s.received[i] == steps[m].p
    decreases |steps|
  {
    var n := |steps| - 1;
    RunsFront(f, steps, s);
    var t := After(s.device, steps[..n]);
    if m == n {
      ReceivedFields(t, steps[m].link, steps[m].n, steps[m].p);
      i := |t.received|;
    } else {
      i := ReceiptStays(f, steps[..n], t, m);
      ReceivedGrowsByOne(t, steps[n]);
    }
  }

  // ----- What a call fails with -----

  lemma StopsOnlySo(s: System, step: Step)
    ensures Next(s, step).stopped == (s.stopped || step.Stop?)
    ensures Next(s, step).connected == (step.Connect? || (s.connected && !step.Disconnect?))
  {
    if step.Receive? {
      ReceivedState(s, step);
    }
  }

  /** The server is stopped exactly when a step stopped it. */
  lemma {:induction false} StoppedIff(device: seq<Byte>, steps: seq<Step>)
    ensures After(device, steps).stopped <==> Step.Stop in steps
    decreases |steps|
  {
    if steps != [] {
      var front, last := steps[..|steps| - 1], steps[|steps| - 1];
      StoppedIff(device, front);
      assert steps == front + [last];
      StopsOnlySo(After(device, front), last);
    }
  }

  lemma ReceivedState(s: System, step: Step)
    requires step.Receive?
    ensures Next(s, step).stopped == s.stopped && Next(s, step).connected == s.connected
    ensures Next(s, step).calls == s.calls
  {
  }

  /** Step m connects, and no step since disconnects. */
  ghost predicate ConnectedSince(steps: seq<Step>, m: nat) {
    m < |steps| && steps[m].Connect? && forall j :: m < j < |steps| ==> !steps[j].Disconnect?
  }

  /** There is a connection exactly when one was made that no step has ended. */
  lemma {:induction false} ConnectedIff(device: seq<Byte>, steps: seq<Step>)
    ensures After(device, steps).connected <==> exists m: nat :: ConnectedSince(steps, m)
    decreases |steps|
  {
    if steps != [] {
      var front, last := steps[..|steps| - 1], steps[|steps| - 1];
      assert steps == front + [last];
      ConnectedIff(device, front);
      StopsOnlySo(After(device, front), last);
      ConnectedExtends(front, last);
    }
  }

  lemma ConnectedExtends(front: seq<Step>, last: Step)
    ensures (exists m: nat :: ConnectedSince(front + [last], m))
       <==> (last.Connect? || (!last.Disconnect? && exists m: nat :: ConnectedSince(front, m)))
  {
    var steps := front + [last];
    if m: nat :| ConnectedSince(steps, m) {
      if m < |front| {
        assert !steps[|front|].Disconnect?;
        assert ConnectedSince(front, m) by {
          forall j | m < j < |front|
            ensures !front[j].Disconnect?
          {
            assert !steps[j].Disconnect?;
          }
        }
      }
    }
    if last.Connect? {
      assert ConnectedSince(steps, |front|);
    } else if !last.Disconnect? {
      if m: nat :| ConnectedSince(front, m) {
        assert ConnectedSince(steps, m);
      }
    }
  }

  /** At step m a turn of the call k met a stopped server, or no connection. */
  ghost predicate FailedAt(device: seq<Byte>, steps: seq<Step>, k: nat, m: nat, error: CallError) {
    && m < |steps| && steps[m] == Try(k)
    && var t := After(device, steps[..m]);
       match error
       case InvalidState => t.stopped
       case ConnectionError => !t.stopped && !t.connected
       case TimeoutError => false
  }

  lemma FailsOnlySo(f: WireFormat, s: System, step: Step, k: nat)
    requires Enabled(f, s, step) && k < |Next(s, step).calls|
    requires Next(s, step).calls[k].status in {Failed(InvalidState), Failed(ConnectionError)}
    ensures k < |s.calls|
    ensures s.calls[k].status == Next(s, step).calls[k].status
         || (step == Try(k) && if s.stopped then Next(s, step).calls[k].status == Failed(InvalidState)
                               else !s.connected && Next(s, step).calls[k].status == Failed(ConnectionError))
  {
    if step.Try? {
      TryTells(s, step.call);
    } else if step.Receive? {
      ReceivedState(s, step);
    }
  }

  /** In every run a call that failed, other than by running out of tries, did so for this reason. */
  lemma {:induction false} FailureTells(f: WireFormat, steps: seq<Step>, s: System, k: nat) returns (m: nat)
    requires Runs(f, steps, s) && k < |s.calls|
    requires s.calls[k].status in {Failed(InvalidState), Failed(ConnectionError)}
    ensures FailedAt(s.device, steps, k, m, s.calls[k].status.error)
    decreases |steps|
  {
    var n := |steps| - 1;
    RunsFront(f, steps, s);
    var t := After(s.device, steps[..n]);
    FailsOnlySo(f, t, steps[n], k);
    if t.calls[k].status == s.calls[k].status {
      m := FailureTells(f, steps[..n], t, k);
      assert steps[..n][..m] == steps[..m];
    } else {
      m := n;
    }
  }

  // ----- What the acknowledgement says -----

  /** u acknowledges something received. */
  ghost predicate IsAck(received: seq<Packet>, u: Packet) {
    exists j :: 0 <= j < |received| && u == Ack(received[j], received[j].deviceId)
  }

  ghost predicate GotAck(received: seq<Packet>, rsp: Packet) {
    exists j :: 0 <= j < |received| && rsp == Arrival(Ack(received[j], received[j].deviceId))
  }

  /** All that answers id is an acknowledgement, and so is all that calls have got for it. */
  ghost predicate AcksOnly(s: System, id: nat) {
    && (forall i :: 0 <= i < |s.up| && PacketId(s.up[i].p) == id ==> IsAck(s.received, s.up[i].p))
    && (Within(s.up) ==> ReturnsAcks(s, id))
  }

  ghost predicate ReturnsAcks(s: System, id: nat) {
    forall k :: 0 <= k < |s.calls| && s.calls[k].status.Returned? && PacketId(s.calls[k].p) == id
            ==> GotAck(s.received, s.calls[k].status.rsp)
  }

  ghost predicate RepliesTo(step: Step, id: nat) {
    step.Reply? && PacketId(step.rsp) == id
  }

  lemma IsAckStill(received: seq<Packet>, p: Packet, u: Packet)
    ensures IsAck(received, u) ==> IsAck(received + [p], u)
    ensures GotAck(received, u) ==> GotAck(received + [p], u)
    ensures IsAck(received + [p], Ack(p, p.deviceId))
  {
    var more := received + [p];
    assert more[|received|] == p;
    if IsAck(received, u) {
      var j :| 0 <= j < |received| && u == Ack(received[j], received[j].deviceId);
      assert more[j] == received[j];
    }
    if GotAck(received, u) {
      var j :| 0 <= j < |received| && u == Arrival(Ack(received[j], received[j].deviceId));
      assert more[j] == received[j];
    }
  }

  lemma ReceiveAcks(s: System, step: Step, id: nat)
    requires AcksOnly(s, id) && step.Receive?
    ensures AcksOnly(Next(s, step), id)
  {
    var t, p := Next(s, step), step.p;
    ReceivedFields(s, step.link, step.n, p);
    WithinFront(s.up, Written(step.link, Ack(p, p.deviceId)));
    forall i | 0 <= i < |t.up| && PacketId(t.up[i].p) == id
      ensures IsAck(t.received, t.up[i].p)
    {
      IsAckStill(s.received, p, t.up[i].p);
    }
    if Within(t.up) {
      forall k | 0 <= k < |t.calls| && t.calls[k].status.Returned? && PacketId(t.calls[k].p) == id
        ensures GotAck(t.received, t.calls[k].status.rsp)
      {
        IsAckStill(s.received, p, t.calls[k].status.rsp);
      }
    }
  }

  lemma HearAcks(f: WireFormat, s: System, step: Step, id: nat)
    requires Inv(s) && AcksOnly(s, id) && step.Hear? && Enabled(f, s, step)
    ensures AcksOnly(Next(s, step), id)
  {
    var t := Next(s, step);
    if Within(s.up) {
      ArrivedCame(f, s.up, step.link, step.n, step.rsp);
      var i :| 0 <= i < |s.up| && step.rsp == Arrival(s.up[i].p);
      SameId(s.up[i].p);
      forall k | 0 <= k < |t.calls| && t.calls[k].status.Returned? && PacketId(t.calls[k].p) == id
        ensures GotAck(t.received, t.calls[k].status.rsp)
      {
        if k == step.call {
          assert IsAck(s.received, s.up[i].p);
        }
      }
    }
  }

  /** A step that adds nothing to what was answered and lets no call return. */
  lemma OtherAcks(s: System, t: System, id: nat)
    requires AcksOnly(s, id) && t.up == s.up && t.received == s.received
    requires forall k :: 0 <= k < |t.calls| && t.calls[k].status.Returned? ==> k < |s.calls| && t.calls[k] == s.calls[k]
    ensures AcksOnly(t, id)
  {
  }

  lemma ReplyAcks(s: System, step: Step, id: nat)
    requires AcksOnly(s, id) && step.Reply? && !RepliesTo(step, id)
    ensures AcksOnly(Next(s, step), id)
  {
    WithinFront(s.up, Written(step.link, step.rsp));
  }

  lemma QuietStep(s: System, step: Step)
    requires !step.Hear? && !step.Receive? && !step.Reply?
    ensures var t := Next(s, step);
            && t.up == s.up && t.received == s.received
            && forall k :: 0 <= k < |t.calls| && t.calls[k].status.Returned? ==> k < |s.calls| && t.calls[k] == s.calls[k]
  {
  }

  lemma StepAcks(f: WireFormat, s: System, step: Step, id: nat)
    requires Inv(s) && AcksOnly(s, id) && Enabled(f, s, step) && !RepliesTo(step, id)
    ensures AcksOnly(Next(s, step), id)
  {
    if step.Hear? {
      HearAcks(f, s, step, id);
    } else if step.Receive? {
      ReceiveAcks(s, step, id);
    } else if step.Reply? {
      ReplyAcks(s, step, id);
    } else {
      QuietStep(s, step);
      OtherAcks(s, Next(s, step), id);
    }
  }

  lemma {:induction false} RunsAck(f: WireFormat, steps: seq<Step>, s: System, id: nat)
    requires Runs(f, steps, s) && forall m :: 0 <= m < |steps| ==> !RepliesTo(steps[m], id)
    ensures AcksOnly(s, id)
    decreases |steps|
  {
    if steps != [] {
      var n := |steps| - 1;
      RunsFront(f, steps, s);
      var t := After(s.device, steps[..n]);
      RunsAck(f, steps[..n], t, id);
      RunsKeep(f, steps[..n], t);
      StepAcks(f, t, steps[n], id);
    }
  }

  /** A call whose request the application never answered returns exactly this: the command and the number of the
      request, no error, the device id, and an empty body. */
  lemma ReturnsTheAck(f: WireFormat, steps: seq<Step>, s: System, k: nat)
    requires Runs(f, steps, s) && BodiesWithin(s.calls) && Within(s.up) && DistinctCalls(s.calls)
    requires k < |s.calls| && s.calls[k].status.Returned?
    requires forall m :: 0 <= m < |steps| ==> !RepliesTo(steps[m], PacketId(s.calls[k].p))
    ensures var p := s.calls[k].p;
            s.calls[k].status.rsp == Packet(p.cmd, p.seqNo, true, 0, Carried(p.deviceId), [])
  {
    var p, rsp := s.calls[k].p, s.calls[k].status.rsp;
    RunsAck(f, steps, s, PacketId(p));
    RunsKeep(f, steps, s);
    assert CallOk(s.calls[k]);
    var j :| 0 <= j < |s.received| && rsp == Arrival(Ack(s.received[j], s.received[j].deviceId));
    AckAnswers(s.received[j], s.received[j].deviceId);
    SameId(Ack(s.received[j], s.received[j].deviceId));
    ReceivedIsOwn(f, steps, s, j, k);
    CarriedTwice(p.deviceId);
  }
}
