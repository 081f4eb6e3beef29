/** Where the calls, the connections and the packets received of a run come from. */
module Origins {
  import opened Bytes
  import opened Packets
  import opened Framing
  import opened Links
  import opened Delivery

  // ----- Where calls and connections come from -----

  /** Every call in a run was submitted so. */
  lemma {:induction false} CallsAreSubmitted(f: WireFormat, steps: seq<Step>, s: System, k: nat) returns (m: nat)
    requires Runs(f, steps, s) && k < |s.calls|
    ensures m < |steps| && steps[m] == Submit(s.calls[k].p, s.calls[k].maxTries)
    decreases |steps|
  {
    var n := |steps| - 1;
    RunsFront(f, steps, s);
    var t := After(s.device, steps[..n]);
    CallsKept(t, steps[n], k);
    if k < |t.calls| {
      m := CallsAreSubmitted(f, steps[..n], t, k);
    } else {
      m := n;
    }
  }

  lemma CallsKept(t: System, step: Step, k: nat)
    requires k < |Next(t, step).calls|
    ensures if k < |t.calls|
            then Next(t, step).calls[k].p == t.calls[k].p && Next(t, step).calls[k].maxTries == t.calls[k].maxTries
            else step == Submit(Next(t, step).calls[k].p, Next(t, step).calls[k].maxTries)
  {
    if step.Receive? {
      ReceivedFields(t, step.link, step.n, step.p);
    }
  }

  ghost predicate LinksUpTo(ws: seq<Written>, link: nat) {
    forall i :: 0 <= i < |ws| ==> ws[i].link <= link
  }

  lemma StepLinks(s: System, step: Step)
    requires LinksUpTo(s.down, s.link)
    ensures LinksUpTo(Next(s, step).down, Next(s, step).link)
    ensures Next(s, step).link == if step.Connect? then s.link + 1 else s.link
  {
    if step.Receive? {
      ReceivedFields(s, step.link, step.n, step.p);
      ReceivedLink(s, step);
    }
  }

  lemma ReceivedLink(s: System, step: Step)
    requires step.Receive?
    ensures Next(s, step).link == s.link
  {
  }

  lemma {:induction false} NothingOn(ws: seq<Written>, link: nat, above: nat)
    requires LinksUpTo(ws, link) && link < above
    ensures On(ws, above) == []
    decreases |ws|
  {
    if ws != [] {
      NothingOn(ws[..|ws| - 1], link, above);
    }
  }

  lemma {:induction false} RunLinks(device: seq<Byte>, steps: seq<Step>)
    ensures LinksUpTo(After(device, steps).down, After(device, steps).link)
    decreases |steps|
  {
    if steps != [] {
      RunLinks(device, steps[..|steps| - 1]);
      StepLinks(After(device, steps[..|steps| - 1]), steps[|steps| - 1]);
    }
  }

  /** A new connection is one of its own: nothing was ever written to it. */
  lemma ConnectionsAreNew(device: seq<Byte>, steps: seq<Step>)
    ensures var t := Next(After(device, steps), Connect); t.link > After(device, steps).link && On(t.down, t.link) == []
  {
    var s := After(device, steps);
    RunLinks(device, steps);
    StepLinks(s, Connect);
    NothingOn(s.down, s.link, s.link + 1);
  }

  // ----- Where what is received comes from -----

  /** Each packet received is the event its receipt names, and no two receipts of a connection are out of order. */
  ghost predicate Traced(f: WireFormat, s: System) {
    && |s.receipts| == |s.received|
    && (forall i :: 0 <= i < |s.received| ==> CameFrom(f, s.down, s.receipts[i], s.received[i]))
    && (forall i, j :: 0 <= i < j < |s.receipts| ==> InOrder(s.receipts[i], s.receipts[j]))
  }

  ghost predicate CameFrom(f: WireFormat, down: seq<Written>, r: Receipt, p: Packet) {
    !p.rsp && Arrives(f, On(down, r.link), r.n, p)
  }

  predicate InOrder(r: Receipt, later: Receipt) {
    r.link == later.link ==> r.n < later.n
  }

  lemma StillFrom(f: WireFormat, down: seq<Written>, w: Written, r: Receipt, p: Packet)
    requires CameFrom(f, down, r, p)
    ensures CameFrom(f, down + [w], r, p)
  {
    OnSnoc(down, w, r.link);
    if w.link == r.link {
      ArrivesStill(f, On(down, r.link), w.p, r.n, p);
    } else {
      assert On(down, r.link) + [] == On(down, r.link);
    }
  }

  lemma WriteTraced(f: WireFormat, s: System, t: System, w: Written)
    requires Traced(f, s) && t.received == s.received && t.receipts == s.receipts && t.down == s.down + [w]
    ensures Traced(f, t)
  {
    forall i | 0 <= i < |t.received|
      ensures CameFrom(f, t.down, t.receipts[i], t.received[i])
    {
      StillFrom(f, s.down, w, s.receipts[i], s.received[i]);
    }
  }

  lemma ReceiveTraced(f: WireFormat, s: System, link: nat, n: nat, p: Packet)
    requires Traced(f, s) && !p.rsp && ReadUpTo(s.receipts, link, n) && Arrives(f, On(s.down, link), n, p)
    ensures Traced(f, Received(s, link, n, p))
  {
    ReceivedFields(s, link, n, p);
    var t := Received(s, link, n, p);
    assert CameFrom(f, t.down, Receipt(link, n), p);
    forall i | 0 <= i < |t.received|
      ensures CameFrom(f, t.down, t.receipts[i], t.received[i])
    {
      if i < |s.received| {
        assert CameFrom(f, s.down, s.receipts[i], s.received[i]);
      }
    }
  }

  lemma SameTraced(f: WireFormat, s: System, t: System)
    requires Traced(f, s) && t.received == s.received && t.receipts == s.receipts && t.down == s.down
    ensures Traced(f, t)
  {
  }

  lemma StepTraced(f: WireFormat, s: System, step: Step)
    requires Traced(f, s) && Enabled(f, s, step)
    ensures Traced(f, Next(s, step))
  {
    match step
    case Try(k) =>
      if !s.stopped && s.connected {
        WriteTraced(f, s, Next(s, step), Written(s.link, s.calls[k].p));
      } else {
        SameTraced(f, s, Next(s, step));
      }
    case Receive(link, n, p) => ReceiveTraced(f, s, link, n, p);
    case _ => SameTraced(f, s, Next(s, step));
  }

  lemma {:induction false} RunsTraced(f: WireFormat, steps: seq<Step>, s: System)
    requires Runs(f, steps, s)
    ensures Traced(f, s)
    decreases |steps|
  {
    if steps != [] {
      var n := |steps| - 1;
      RunsFront(f, steps, s);
      RunsTraced(f, steps[..n], After(s.device, steps[..n]));
      StepTraced(f, After(s.device, steps[..n]), steps[n]);
    }
  }
}
