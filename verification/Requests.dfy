/** Requests that wait for their response on one connection: a map from request identity to the channel the
    latest sender with that identity listens on. */
module Requests {
  import opened Packets
  import opened Counting

  /** Ready: the response has been handed over but the sender has not resumed yet. */
  datatype WaitState = Waiting | Ready(p: Packet) | Returned(p: Packet) | TimedOut

  /** One call of send_packet_and_wait_rsp and its channel, which buffers one packet nobody listens for. */
  datatype Waiter = Waiter(key: nat, state: WaitState, spare: Option<Packet>)

  /** entries: key to index of a waiter.  dropped: responses no channel took. */
  datatype Table = Table(entries: map<nat, nat>, waiters: seq<Waiter>, dropped: seq<Packet>)

  const EMPTY_TABLE := Table(map[], [], [])

  datatype Op = Begin(key: nat) | Arrive(p: Packet) | TimeOut(w: nat) | Resume(w: nat)

  predicate Enabled(t: Table, op: Op) {
    match op
    case Begin(_) => true
    case Arrive(p) => p.rsp
    case TimeOut(w) => w < |t.waiters| && t.waiters[w].state.Waiting?
    case Resume(w) => w < |t.waiters| && t.waiters[w].state.Ready?
  }

  ghost predicate InTable(t: Table) {
    forall k :: k in t.entries ==> t.entries[k] < |t.waiters|
  }

  /** try_send to the channel of one call: to the call that waits, else into the one free place. */
  function Offer(c: Waiter, p: Packet): (r: (Waiter, bool)) {
    if c.state.Waiting? then (c.(state := Ready(p)), true)
    else if c.spare.None? then (c.(spare := Some(p)), true)
    else (c, false)
  }

  function Apply(t: Table, op: Op): (r: Table)
    requires Enabled(t, op) && InTable(t)
    ensures InTable(r)
  {
    match op
    case Begin(key) =>
      Table(t.entries[key := |t.waiters|], t.waiters + [Waiter(key, Waiting, None)], t.dropped)
    case Arrive(p) =>
      var key := PacketId(p);
      if key !in t.entries then t.(dropped := t.dropped + [p])
      else
        var (c, taken) := Offer(t.waiters[t.entries[key]], p);
        if taken then t.(waiters := t.waiters[t.entries[key] := c]) else t.(dropped := t.dropped + [p])
    case TimeOut(w) =>
      t.(waiters := t.waiters[w := t.waiters[w].(state := TimedOut)])
    case Resume(w) =>
      var c := t.waiters[w];
      Table(t.entries - {c.key}, t.waiters[w := c.(state := Returned(c.state.p))], t.dropped)
  }

  // ----- As the connection keeps it -----

  class RequestTable {
    var entries: map<nat, nat>
    var waiters: seq<Waiter>
    var dropped: seq<Packet>
    ghost var ops: seq<Op>

    ghost function Now(): Table
      reads this
    {
      Table(entries, waiters, dropped)
    }

    ghost predicate Valid()
      reads this
    {
      Replay(ops) == Some(Now())
    }

    constructor ()
      ensures Valid() && ops == []
    {
      entries, waiters, dropped, ops := map[], [], [], [];
    }

    /** Registers a new channel under key, in place of any other. */
    method StartWaiting(key: nat) returns (w: nat)
      requires Valid()
      modifies this
      ensures Valid() && ops == old(ops) + [Begin(key)] && w == old(|waiters|)
      ensures entries == old(entries)[key := w] && waiters == old(waiters) + [Waiter(key, Waiting, None)]
    {
      ReplaySnoc(ops, Begin(key));
      w := |waiters|;
      waiters := waiters + [Waiter(key, Waiting, None)];
      entries := entries[key := w];
      ops := ops + [Begin(key)];
    }

    /** Hands a response to the channel registered for its identity, if there is one that takes it. */
    method Dispatch(p: Packet)
      requires Valid() && p.rsp
      modifies this
      ensures Valid() && ops == old(ops) + [Arrive(p)]
    {
      ReplaySnoc(ops, Arrive(p));
      var key := PacketId(p);
      if key in entries {
        var w := entries[key];
        if waiters[w].state.Waiting? {
          waiters := waiters[w := waiters[w].(state := Ready(p))];
        } else if waiters[w].spare.None? {
          waiters := waiters[w := waiters[w].(spare := Some(p))];
        } else {
          dropped := dropped + [p];
        }
      } else {
        dropped := dropped + [p];
      }
      ops := ops + [Arrive(p)];
    }

    /** The timer fires first: the call throws, and its entry stays. */
    method GiveUp(w: nat)
      requires Valid() && w < |waiters| && waiters[w].state.Waiting?
      modifies this
      ensures Valid() && ops == old(ops) + [TimeOut(w)] && entries == old(entries)
      ensures waiters == old(waiters)[w := old(waiters[w]).(state := TimedOut)] && dropped == old(dropped)
    {
      ReplaySnoc(ops, TimeOut(w));
      waiters := waiters[w := waiters[w].(state := TimedOut)];
      ops := ops + [TimeOut(w)];
    }

    /** The call resumes with its response, one that answers it, and erases the entry of its identity. */
    method Finish(w: nat) returns (p: Packet)
      requires Valid() && w < |waiters| && waiters[w].state.Ready?
      modifies this
      ensures Valid() && ops == old(ops) + [Resume(w)] && p == old(waiters[w].state.p)
      ensures p.rsp && PacketId(p) == old(waiters[w].key) && p in Arrivals(old(ops))
      ensures exists b: nat, j: nat :: Starts(old(ops), b, w) && FirstSince(old(ops), b, j, p)
      ensures entries == old(entries) - {PacketId(p)} && waiters[w].state == Returned(p)
    {
      ReplaySnoc(ops, Resume(w));
      GetsAnAnswer(ops, w);
      var b, j := GetsTheFirst(ops, w);
      p := waiters[w].state.p;
      entries := entries - {waiters[w].key};
      waiters := waiters[w := waiters[w].(state := Returned(p))];
      ops := ops + [Resume(w)];
    }
  }

  // ----- Whole runs -----

  /** What a run of steps leads to; None when some step could not be taken where it stands. */
  function Replay(ops: seq<Op>): (r: Option<Table>)
    ensures r.Some? ==> InTable(r.value)
    decreases |ops|
  {
    if ops == [] then Some(EMPTY_TABLE)
    else
      match Replay(ops[..|ops| - 1])
      case None => None
      case Some(t) => if Enabled(t, ops[|ops| - 1]) then Some(Apply(t, ops[|ops| - 1])) else None
  }

  lemma ReplaySnoc(ops: seq<Op>, op: Op)
    requires Replay(ops).Some? && Enabled(Replay(ops).value, op)
    ensures Replay(ops + [op]) == Some(Apply(Replay(ops).value, op))
  {
    assert (ops + [op])[..|ops|] == ops;
  }

  /** The responses that have arrived. */
  function Arrivals(ops: seq<Op>): seq<Packet>
    decreases |ops|
  {
    if ops == [] then []
    else
      var n := |ops| - 1;
      Arrivals(ops[..n]) + Arrived(ops[n])
  }

  function Arrived(op: Op): seq<Packet> {
    if op.Arrive? then [op.p] else []
  }

  /** p is a response to the request c waits for. */
  predicate Answers(p: Packet, c: Waiter) {
    p.rsp && PacketId(p) == c.key
  }

  /** What has gone into a channel: what its call gets, and a spare. */
  predicate Holds(c: Waiter, p: Packet) {
    ((c.state.Ready? || c.state.Returned?) && c.state.p == p) || c.spare == Some(p)
  }

  /** How often p is in the channel c, and in the channels ws. */
  function InChannel(c: Waiter, p: Packet): nat {
    One((c.state.Ready? || c.state.Returned?) && c.state.p == p) + One(c.spare == Some(p))
  }

  function InChannels(ws: seq<Waiter>, p: Packet): nat
    decreases |ws|
  {
    if ws == [] then 0 else InChannels(ws[..|ws| - 1], p) + InChannel(ws[|ws| - 1], p)
  }

  /** Entries lead to a channel of their key, channels hold only answers to their request, and every response
      that has arrived is in exactly one channel or was dropped. */
  ghost predicate Matched(t: Table, arrived: seq<Packet>) {
    && InTable(t)
    && (forall k :: k in t.entries ==> t.waiters[t.entries[k]].key == k)
    && (forall w :: 0 <= w < |t.waiters| ==> HoldsAnswers(t.waiters[w]))
    && (forall p :: Conserved(t.waiters, t.dropped, arrived, p))
  }

  ghost predicate HoldsAnswers(c: Waiter) {
    forall p :: Holds(c, p) ==> Answers(p, c)
  }

  ghost predicate Conserved(ws: seq<Waiter>, dropped: seq<Packet>, arrived: seq<Packet>, p: Packet) {
    Count(arrived, p) == InChannels(ws, p) + Count(dropped, p)
  }

  lemma {:induction false} ChannelReplaced(ws: seq<Waiter>, i: nat, c: Waiter, p: Packet)
    requires i < |ws|
    ensures InChannels(ws[i := c], p) + InChannel(ws[i], p) == InChannels(ws, p) + InChannel(c, p)
    decreases |ws|
  {
    var n := |ws| - 1;
    if i == n {
      assert ws[i := c][..n] == ws[..n];
    } else {
      assert ws[i := c][..n] == ws[..n][i := c];
      ChannelReplaced(ws[..n], i, c, p);
    }
  }

  lemma {:induction false} InOneOfMany(ws: seq<Waiter>, i: nat, p: Packet)
    requires i < |ws| && Holds(ws[i], p)
    ensures InChannels(ws, p) > 0
    decreases |ws|
  {
    if i < |ws| - 1 {
      InOneOfMany(ws[..|ws| - 1], i, p);
    }
  }

  /** A channel that takes in nothing stays as good as it was. */
  lemma KeepsHolding(t: Table, arrived: seq<Packet>, w: nat, c: Waiter)
    requires Matched(t, arrived) && w < |t.waiters|
    requires c.key == t.waiters[w].key && forall p :: InChannel(c, p) == InChannel(t.waiters[w], p)
    ensures Matched(t.(waiters := t.waiters[w := c]), arrived)
  {
    var r := t.(waiters := t.waiters[w := c]);
    assert HoldsAnswers(t.waiters[w]);
    forall p | Holds(c, p)
      ensures Answers(p, c)
    {
      assert InChannel(c, p) == InChannel(t.waiters[w], p);
      assert Holds(t.waiters[w], p);
    }
    forall p
      ensures Conserved(r.waiters, r.dropped, arrived, p)
    {
      assert Conserved(t.waiters, t.dropped, arrived, p);
      ChannelReplaced(t.waiters, w, c, p);
    }
  }

  lemma TakenKeepsMatched(t: Table, arrived: seq<Packet>, p: Packet, w: nat)
    requires Matched(t, arrived) && p.rsp
    requires w < |t.waiters| && t.waiters[w].key == PacketId(p) && Offer(t.waiters[w], p).1
    ensures Matched(t.(waiters := t.waiters[w := Offer(t.waiters[w], p).0]), arrived + [p])
  {
    var c := Offer(t.waiters[w], p).0;
    var r := t.(waiters := t.waiters[w := c]);
    assert HoldsAnswers(t.waiters[w]);
    forall q | Holds(c, q)
      ensures Answers(q, c)
    {
      assert q == p || Holds(t.waiters[w], q);
    }
    forall q
      ensures Conserved(r.waiters, r.dropped, arrived + [p], q)
    {
      assert Conserved(t.waiters, t.dropped, arrived, q);
      ChannelReplaced(t.waiters, w, c, q);
      CountSnoc(arrived, p, q);
    }
  }

  lemma DroppedKeepsMatched(t: Table, arrived: seq<Packet>, p: Packet)
    requires Matched(t, arrived)
    ensures Matched(t.(dropped := t.dropped + [p]), arrived + [p])
  {
    var r := t.(dropped := t.dropped + [p]);
    forall q
      ensures Conserved(r.waiters, r.dropped, arrived + [p], q)
    {
      assert Conserved(t.waiters, t.dropped, arrived, q);
      CountSnoc(arrived, p, q);
      CountSnoc(t.dropped, p, q);
    }
  }

  lemma BeginKeepsMatched(t: Table, arrived: seq<Packet>, key: nat)
    requires Matched(t, arrived)
    ensures Matched(Apply(t, Begin(key)), arrived)
  {
    var r := Apply(t, Begin(key));
    forall p
      ensures Conserved(r.waiters, r.dropped, arrived, p)
    {
      assert Conserved(t.waiters, t.dropped, arrived, p);
      assert r.waiters[..|t.waiters|] == t.waiters;
    }
  }

  lemma StepKeepsMatched(t: Table, arrived: seq<Packet>, op: Op)
    requires Matched(t, arrived) && Enabled(t, op)
    ensures Matched(Apply(t, op), arrived + Arrived(op))
  {
    assert arrived + [] == arrived;
    match op
    case Begin(key) =>
      BeginKeepsMatched(t, arrived, key);
    case Arrive(p) =>
      if PacketId(p) in t.entries && Offer(t.waiters[t.entries[PacketId(p)]], p).1 {
        TakenKeepsMatched(t, arrived, p, t.entries[PacketId(p)]);
      } else {
        DroppedKeepsMatched(t, arrived, p);
      }
    case TimeOut(w) =>
      KeepsHolding(t, arrived, w, t.waiters[w].(state := TimedOut));
    case Resume(w) =>
      var c := t.waiters[w];
      KeepsHolding(t, arrived, w, c.(state := Returned(c.state.p)));
  }

  /** In every run channels hold only answers to their request, and no response is in two places. */
  lemma {:induction false} MatchedAlways(ops: seq<Op>)
    requires Replay(ops).Some?
    ensures Matched(Replay(ops).value, Arrivals(ops))
    decreases |ops|
  {
    if ops == [] {
      assert forall p :: Conserved([], [], [], p);
    } else {
      var n := |ops| - 1;
      MatchedAlways(ops[..n]);
      StepKeepsMatched(Replay(ops[..n]).value, Arrivals(ops[..n]), ops[n]);
    }
  }

  /** In every run, what a call gets is a response that arrived and carries the identity of its request. */
  lemma GetsAnAnswer(ops: seq<Op>, w: nat)
    requires Replay(ops).Some? && w < |Replay(ops).value.waiters|
    ensures var c := Replay(ops).value.waiters[w];
            c.state.Ready? || c.state.Returned? ==> Answers(c.state.p, c) && c.state.p in Arrivals(ops)
  {
    MatchedAlways(ops);
    var t := Replay(ops).value;
    var c := t.waiters[w];
    if c.state.Ready? || c.state.Returned? {
      assert HoldsAnswers(c) && Holds(c, c.state.p);
      InOneOfMany(t.waiters, w, c.state.p);
      assert Conserved(t.waiters, t.dropped, Arrivals(ops), c.state.p);
      CountIn(Arrivals(ops), c.state.p);
    }
  }

  // ----- When a call can still be answered -----

  /** The entry of its identity leads to the call w. */
  ghost predicate Reachable(t: Table, w: nat)
    requires w < |t.waiters|
  {
    t.waiters[w].key in t.entries && t.entries[t.waiters[w].key] == w
  }

  ghost predicate IsWaiting(t: Table, w: nat) {
    w < |t.waiters| && t.waiters[w].state.Waiting?
  }

  /** A response reaches the call that waits for it exactly when the entry of its identity leads there, and then
      changes nothing else. */
  lemma AnswerReachesIff(t: Table, p: Packet, w: nat)
    requires InTable(t) && p.rsp && IsWaiting(t, w) && t.waiters[w].key == PacketId(p)
    ensures Apply(t, Arrive(p)).waiters[w].state == Ready(p) <==> Reachable(t, w)
    ensures Reachable(t, w)
        ==> Apply(t, Arrive(p)) == t.(waiters := t.waiters[w := t.waiters[w].(state := Ready(p))])
  {
  }

  /** A response is dropped exactly when no channel is registered for its identity, or the one that is has been
      answered or given up already and still holds a response nobody takes. */
  lemma DroppedIff(t: Table, p: Packet)
    requires InTable(t) && p.rsp
    ensures Apply(t, Arrive(p)).dropped == t.dropped + [p]
       <==> (PacketId(p) in t.entries
             ==> !t.waiters[t.entries[PacketId(p)]].state.Waiting? && t.waiters[t.entries[PacketId(p)]].spare.Some?)
  {
    assert |t.dropped + [p]| != |t.dropped|;
  }

  /** The step takes the entry of key away from whatever call it leads to. */
  predicate Takes(t: Table, op: Op, key: nat) {
    match op
    case Begin(k) => k == key
    case Resume(u) => u < |t.waiters| && t.waiters[u].key == key
    case _ => false
  }

  /** For a call that goes on waiting, a step strands it exactly when it starts or ends a call of its identity. */
  lemma StrandsIff(t: Table, op: Op, w: nat)
    requires InTable(t) && Enabled(t, op) && IsWaiting(t, w) && IsWaiting(Apply(t, op), w)
    ensures Reachable(Apply(t, op), w) <==> Reachable(t, w) && !Takes(t, op, t.waiters[w].key)
  {
  }

  /** The same, step j of a run, as things stood then. */
  ghost predicate TakesAt(ops: seq<Op>, j: nat, key: nat)
    requires j < |ops|
  {
    Replay(ops[..j]).Some? && Takes(Replay(ops[..j]).value, ops[j], key)
  }

  function Begins(ops: seq<Op>): nat
    decreases |ops|
  {
    if ops == [] then 0 else Begins(ops[..|ops| - 1]) + One(ops[|ops| - 1].Begin?)
  }

  /** Step b is the start of the call w. */
  ghost predicate Starts(ops: seq<Op>, b: nat, w: nat) {
    b < |ops| && ops[b].Begin? && Begins(ops[..b]) == w
  }

  /** Since step b no other call of this identity has started, and none has ended. */
  ghost predicate UntakenSince(ops: seq<Op>, b: nat, key: nat) {
    forall j :: b < j < |ops| ==> !TakesAt(ops, j, key)
  }

  lemma {:induction false} CallsAreBegins(ops: seq<Op>)
    requires Replay(ops).Some?
    ensures |Replay(ops).value.waiters| == Begins(ops)
    decreases |ops|
  {
    if ops != [] {
      CallsAreBegins(ops[..|ops| - 1]);
    }
  }

  lemma {:induction false} BeginsGrow(ops: seq<Op>, b: nat)
    requires b < |ops| && ops[b].Begin?
    ensures Begins(ops[..b]) < Begins(ops)
    decreases |ops|
  {
    var front := ops[..|ops| - 1];
    if b < |front| {
      assert front[..b] == ops[..b];
      BeginsGrow(front, b);
    }
  }

  lemma UntakenSnoc(front: seq<Op>, last: Op, b: nat, key: nat)
    requires b < |front| && Replay(front).Some?
    ensures UntakenSince(front + [last], b, key)
       <==> UntakenSince(front, b, key) && !Takes(Replay(front).value, last, key)
  {
    var ops := front + [last];
    assert ops[..|front|] == front;
    forall j | b < j < |front|
      ensures TakesAt(ops, j, key) == TakesAt(front, j, key)
    {
      assert ops[..j] == front[..j];
    }
    if UntakenSince(ops, b, key) {
      assert !TakesAt(ops, |front|, key);
      forall j | b < j < |front|
        ensures !TakesAt(front, j, key)
      {
        assert !TakesAt(ops, j, key);
      }
    }
  }

  lemma WaitedBefore(t: Table, op: Op, w: nat)
    requires InTable(t) && Enabled(t, op) && IsWaiting(Apply(t, op), w) && w < |t.waiters|
    ensures IsWaiting(t, w) && Apply(t, op).waiters[w].key == t.waiters[w].key
  {
  }

  lemma JustBegun(t: Table, op: Op)
    requires InTable(t) && op.Begin?
    ensures Reachable(Apply(t, op), |t.waiters|)
  {
  }

  /** In every run a waiting call can be reached exactly when, since it started, no call of its identity has
      started or ended. */
  lemma {:induction false} ReachableIff(ops: seq<Op>, b: nat, w: nat)
    requires Replay(ops).Some? && Starts(ops, b, w) && IsWaiting(Replay(ops).value, w)
    ensures Reachable(Replay(ops).value, w) <==> UntakenSince(ops, b, Replay(ops).value.waiters[w].key)
    decreases |ops|
  {
    var front, last := ops[..|ops| - 1], ops[|ops| - 1];
    var t := Replay(front).value;
    assert ops == front + [last];
    CallsAreBegins(front);
    if b == |front| {
      assert ops[..b] == front;
      JustBegun(t, last);
    } else {
      assert ops[..b] == front[..b];
      BeginsGrow(front, b);
      WaitedBefore(t, last, w);
      ReachableIff(front, b, w);
      StrandsIff(t, last, w);
      UntakenSnoc(front, last, b, t.waiters[w].key);
    }
  }

  /** So in every run a response of its identity answers a waiting call exactly then. */
  lemma AnsweredIff(ops: seq<Op>, b: nat, w: nat, p: Packet)
    requires Replay(ops).Some? && Starts(ops, b, w) && IsWaiting(Replay(ops).value, w)
    requires Answers(p, Replay(ops).value.waiters[w])
    ensures Replay(ops + [Arrive(p)]).Some?
    ensures Replay(ops + [Arrive(p)]).value.waiters[w].state == Ready(p) <==> UntakenSince(ops, b, PacketId(p))
  {
    ReplaySnoc(ops, Arrive(p));
    AnswerReachesIff(Replay(ops).value, p, w);
    ReachableIff(ops, b, w);
  }

  /** Of two calls that make the same request one after the other the second gets the response.  The first has lost
      its channel; here it waits until it gives up, in the code the loss of the channel can end it earlier. */
  lemma FirstOfTwoIsStranded(key: nat, p: Packet) returns (t: Table)
    requires p.rsp && PacketId(p) == key
    ensures Replay([Begin(key), Begin(key)]) == Some(t) && IsWaiting(t, 0) && !Reachable(t, 0)
    ensures Apply(t, Arrive(p)).waiters == [Waiter(key, Waiting, None), Waiter(key, Ready(p), None)]
  {
    var e: seq<Op> := [];
    ReplaySnoc(e, Begin(key));
    ReplaySnoc(e + [Begin(key)], Begin(key));
    assert e + [Begin(key)] + [Begin(key)] == [Begin(key), Begin(key)];
    t := Apply(Apply(EMPTY_TABLE, Begin(key)), Begin(key));
  }

  // ----- Which response a call gets -----

  /** What a step can make of the state of a call: only a response that arrives makes one ready that waits, and one
      that is ready returns that response or stays ready with it. */
  ghost predicate Moves(before: WaitState, op: Op, w: nat, after: WaitState) {
    match before
    case Waiting => after == before || (op == TimeOut(w) && after == TimedOut) || (op.Arrive? && after == Ready(op.p))
    case Ready(p) => after == if op == Resume(w) then Returned(p) else before
    case _ => after == before
  }

  lemma StatesMove(t: Table, op: Op, w: nat)
    requires InTable(t) && Enabled(t, op) && w < |t.waiters|
    ensures Moves(t.waiters[w].state, op, w, Apply(t, op).waiters[w].state)
    ensures op == TimeOut(w) ==> Apply(t, op).waiters[w].state == TimedOut
    ensures Apply(t, op).waiters[w].key == t.waiters[w].key
  {
  }

  /** Step j is the first arrival of the identity of p since step b, and of p. */
  ghost predicate FirstSince(ops: seq<Op>, b: nat, j: nat, p: Packet) {
    b < j < |ops| && ops[j] == Arrive(p) && NoneBetween(ops, b, j, PacketId(p))
  }

  /** No response of this identity arrived between steps b and j. */
  ghost predicate NoneBetween(ops: seq<Op>, b: nat, j: nat, key: nat) {
    forall i :: b < i < j && i < |ops| && ops[i].Arrive? ==> PacketId(ops[i].p) != key
  }

  /** The call c has got p. */
  predicate Has(c: Waiter, p: Packet) {
    (c.state.Ready? || c.state.Returned?) && c.state.p == p
  }

  /** Before it is answered nothing of its identity has arrived for a call that can be reached. */
  lemma {:induction false} NothingMissed(ops: seq<Op>, b: nat, w: nat)
    requires Replay(ops).Some? && Starts(ops, b, w) && IsWaiting(Replay(ops).value, w)
    requires Reachable(Replay(ops).value, w)
    ensures NoneBetween(ops, b, |ops|, Replay(ops).value.waiters[w].key)
    decreases |ops|
  {
    var front, last := ops[..|ops| - 1], ops[|ops| - 1];
    assert ops == front + [last];
    if b < |front| {
      var t := Replay(front).value;
      CallsAreBegins(front);
      assert ops[..b] == front[..b];
      BeginsGrow(front, b);
      WaitedBefore(t, last, w);
      StrandsIff(t, last, w);
      NothingMissed(front, b, w);
      if last.Arrive? && PacketId(last.p) == t.waiters[w].key {
        AnswerReachesIff(t, last.p, w);
      }
    }
  }

  lemma FirstStays(front: seq<Op>, last: Op, b: nat, j: nat, p: Packet)
    requires FirstSince(front, b, j, p)
    ensures FirstSince(front + [last], b, j, p)
  {
  }

  /** Only the arrival of its response makes a call ready, and then it could be reached. */
  lemma BecomesReady(t: Table, op: Op, w: nat, p: Packet)
    requires InTable(t) && Enabled(t, op) && IsWaiting(t, w) && Has(Apply(t, op).waiters[w], p)
    ensures op == Arrive(p) && PacketId(p) in t.entries && t.entries[PacketId(p)] == w
  {
  }

  /** In every run a call that has a response has the first one of its identity that arrived since it started. */
  lemma {:induction false} HasTheFirst(ops: seq<Op>, b: nat, w: nat, p: Packet) returns (j: nat)
    requires Replay(ops).Some? && w < |Replay(ops).value.waiters| && Has(Replay(ops).value.waiters[w], p)
    requires Starts(ops, b, w)
    ensures FirstSince(ops, b, j, p)
    decreases |ops|
  {
    var front, last := ops[..|ops| - 1], ops[|ops| - 1];
    assert ops == front + [last];
    var t := Replay(front).value;
    CallsAreBegins(front);
    assert b < |front| && ops[..b] == front[..b];
    BeginsGrow(front, b);
    StatesMove(t, last, w);
    if IsWaiting(t, w) {
      BecomesReady(t, last, w, p);
      MatchedAlways(front);
      NothingMissed(front, b, w);
      j := |front|;
    } else {
      j := HasTheFirst(front, b, w, p);
      FirstStays(front, last, b, j, p);
    }
  }

  /** Every call has started. */
  lemma {:induction false} HasStarted(ops: seq<Op>, w: nat) returns (b: nat)
    requires Replay(ops).Some? && w < |Replay(ops).value.waiters|
    ensures Starts(ops, b, w)
    decreases |ops|
  {
    var front, last := ops[..|ops| - 1], ops[|ops| - 1];
    CallsAreBegins(front);
    if w < Begins(front) {
      b := HasStarted(front, w);
      assert front[..b] == ops[..b];
    } else {
      b := |front|;
    }
  }

  lemma GetsTheFirst(ops: seq<Op>, w: nat) returns (b: nat, j: nat)
    requires Replay(ops).Some? && w < |Replay(ops).value.waiters|
    requires Replay(ops).value.waiters[w].state.Ready?
    ensures Starts(ops, b, w) && FirstSince(ops, b, j, Replay(ops).value.waiters[w].state.p)
  {
    b := HasStarted(ops, w);
    j := HasTheFirst(ops, b, w, Replay(ops).value.waiters[w].state.p);
  }

  // ----- States in which no call is stranded -----

  /** Every call that waits is the one its identity leads to. */
  ghost predicate NoneStranded(t: Table)
  {
    forall w :: 0 <= w < |t.waiters| && t.waiters[w].state.Waiting? ==> Reachable(t, w)
  }

  /** Some call other than w waits under key. */
  ghost predicate AnotherWaits(t: Table, key: nat, w: nat) {
    exists v :: 0 <= v < |t.waiters| && v != w && IsWaiting(t, v) && t.waiters[v].key == key
  }

  /** Then a response reaches the one call that waits for it. */
  lemma OnlyOneWaits(t: Table, p: Packet, w: nat)
    requires InTable(t) && NoneStranded(t) && p.rsp && IsWaiting(t, w) && t.waiters[w].key == PacketId(p)
    ensures Apply(t, Arrive(p)).waiters[w].state == Ready(p) && !AnotherWaits(t, PacketId(p), w)
  {
  }

  /** A step out of such a state strands a call exactly when it starts or ends a call with the identity of another
      that still waits. */
  lemma NoneStrandedIff(t: Table, op: Op)
    requires InTable(t) && Enabled(t, op) && NoneStranded(t)
    ensures NoneStranded(Apply(t, op))
       <==> match op
            case Begin(key) => !AnotherWaits(t, key, |t.waiters|)
            case Resume(w) => !AnotherWaits(t, t.waiters[w].key, w)
            case _ => true
  {
    var r := Apply(t, op);
    forall w | 0 <= w < |t.waiters| && IsWaiting(t, w) && IsWaiting(r, w)
      ensures Reachable(r, w) <==> !Takes(t, op, t.waiters[w].key)
    {
      assert Reachable(t, w);
      StrandsIff(t, op, w);
    }
    forall w | 0 <= w < |t.waiters| && IsWaiting(r, w)
      ensures IsWaiting(t, w) && r.waiters[w].key == t.waiters[w].key
    {
      WaitedBefore(t, op, w);
    }
    if op.Begin? {
      JustBegun(t, op);
    }
  }
}
