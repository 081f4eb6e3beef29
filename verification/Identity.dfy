/** What a connection does with the packets of a stream, in one formula: it is bound to the device id of the
    first packet that has one, and hands up the packets of that device until another one shows up. */
module Identity {
  import opened Bytes
  import opened Packets
  import opened Parsing
  import opened Connections

  function Wires(f: Format, frames: seq<seq<Byte>>): (ws: seq<Option<Packet>>)
    ensures |ws| == |frames|
  {
    seq(|frames|, i requires 0 <= i < |frames| => f.open(frames[i]))
  }

  /** Without the packets that carry no device id, which are ignored. */
  function Named(ws: seq<Option<Packet>>): seq<Option<Packet>> {
    if ws == [] then []
    else if ws[0].Some? && ws[0].value.deviceId == [] then Named(ws[1..])
    else [ws[0]] + Named(ws[1..])
  }

  predicate From(w: Option<Packet>, id: seq<Byte>) {
    w.Some? && w.value.deviceId == id
  }

  /** How many packets from the device id come before any other. */
  function Streak(ws: seq<Option<Packet>>, id: seq<Byte>): (k: nat)
    ensures k <= |ws|
    ensures forall i :: 0 <= i < k ==> From(ws[i], id)
    ensures k < |ws| ==> !From(ws[k], id)
  {
    if ws == [] || !From(ws[0], id) then 0 else 1 + Streak(ws[1..], id)
  }

  function HandUps(ws: seq<Option<Packet>>): (es: seq<Event>)
    requires forall i :: 0 <= i < |ws| ==> ws[i].Some?
    ensures |es| == |ws|
  {
    seq(|ws|, i requires 0 <= i < |ws| => HandUp(ws[i].value))
  }

  function StatusAfter(ws: seq<Option<Packet>>, k: nat): Status
    requires k <= |ws|
  {
    if k == |ws| then Reading else if ws[k].None? then Undetermined else Stranger
  }

  /** What the named packets ws do to a connection bound to id. */
  function Bound(ws: seq<Option<Packet>>, id: seq<Byte>): Played {
    var k := Streak(ws, id);
    Played(Peer(id, StatusAfter(ws, k)), HandUps(ws[..k]))
  }

  /** What they do to a connection that is new. */
  function Fresh(ws: seq<Option<Packet>>): Played {
    if ws == [] then Played(NEW_PEER, [])
    else if ws[0].None? then Played(Peer([], Undetermined), [])
    else
      var id := ws[0].value.deviceId;
      Prefixed([GotDeviceId(id)], Bound(ws, id))
  }

  lemma WiresTail(f: Format, frames: seq<seq<Byte>>)
    requires frames != []
    ensures Wires(f, frames)[0] == f.open(frames[0]) && Wires(f, frames)[1..] == Wires(f, frames[1..])
  {
  }

  lemma BoundTakesOne(w: Packet, ws: seq<Option<Packet>>, id: seq<Byte>)
    requires w.deviceId == id
    ensures Bound([Some(w)] + ws, id) == Prefixed([HandUp(w)], Bound(ws, id))
  {
    var all := [Some(w)] + ws;
    assert all[1..] == ws;
    var k := Streak(ws, id);
    assert all[..k + 1] == [Some(w)] + ws[..k];
    assert HandUps(all[..k + 1]) == [HandUp(w)] + HandUps(ws[..k]);
  }

  lemma {:induction false} PlayBound(f: Format, id: seq<Byte>, frames: seq<seq<Byte>>)
    requires id != []
    ensures Play(f, Peer(id, Reading), frames) == Bound(Named(Wires(f, frames)), id)
    decreases |frames|
  {
    if frames != [] {
      WiresTail(f, frames);
      var w := f.open(frames[0]);
      var more := Named(Wires(f, frames[1..]));
      PlayBound(f, id, frames[1..]);
      if From(w, id) {
        BoundTakesOne(w.value, more, id);
      } else if w.None? || w.value.deviceId != [] {
        assert Named(Wires(f, frames)) == [w] + more;
        assert HandUps(([w] + more)[..0]) == [];
        StoppedStays(f, Handle(Peer(id, Reading), w).peer, frames[1..]);
      }
    }
  }

  /** The whole life of a connection, from the packets of its stream. */
  lemma {:induction false} PlayFresh(f: Format, frames: seq<seq<Byte>>)
    ensures Play(f, NEW_PEER, frames) == Fresh(Named(Wires(f, frames)))
    decreases |frames|
  {
    if frames != [] {
      WiresTail(f, frames);
      var w := f.open(frames[0]);
      var more := Named(Wires(f, frames[1..]));
      if w.None? {
        StoppedStays(f, Peer([], Undetermined), frames[1..]);
      } else if w.value.deviceId == [] {
        PlayFresh(f, frames[1..]);
      } else {
        var id := w.value.deviceId;
        PlayBound(f, id, frames[1..]);
        BoundTakesOne(w.value, more, id);
        PrefixedTwice([GotDeviceId(id)], [HandUp(w.value)], Bound(more, id));
      }
    }
  }

  ghost predicate HandedUp(e: Event, id: seq<Byte>) {
    match e
    case Request(i, p) => i == id && p.deviceId == id && !p.rsp
    case Response(p) => p.deviceId == id && p.rsp
    case _ => false
  }

  /** A connection learns one device id, before it hands up anything, and all it hands up is from there. */
  lemma BoundToOneDevice(f: Format, stream: seq<Byte>)
    ensures var r := Run(f, stream);
            && (r.peer.deviceId == [] ==> r.events == [])
            && (r.peer.deviceId != [] ==> r.events != [] && r.events[0] == GotDeviceId(r.peer.deviceId))
            && forall i :: 1 <= i < |r.events| ==> HandedUp(r.events[i], r.peer.deviceId)
  {
    PlayFresh(f, Parse(f, stream).frames);
    NamedHaveIds(Wires(f, Parse(f, stream).frames));
  }

  lemma {:induction false} NamedHaveIds(ws: seq<Option<Packet>>)
    ensures forall i :: 0 <= i < |Named(ws)| && Named(ws)[i].Some? ==> Named(ws)[i].value.deviceId != []
  {
    if ws != [] {
      NamedHaveIds(ws[1..]);
    }
  }

  /** All that is handed up was in a frame of the stream. */
  lemma {:induction false} HandedUpWasFramed(f: Format, peer: Peer, frames: seq<seq<Byte>>, i: nat) returns (k: nat)
    requires i < |Play(f, peer, frames).events| && !Play(f, peer, frames).events[i].GotDeviceId?
    ensures k < |frames| && f.open(frames[k]).Some?
    ensures Play(f, peer, frames).events[i] == HandUp(f.open(frames[k]).value)
    decreases |frames|
  {
    var h := Handle(peer, f.open(frames[0]));
    if i < |h.events| {
      k := 0;
    } else {
      k := HandedUpWasFramed(f, h.peer, frames[1..], i - |h.events|);
      k := k + 1;
    }
  }

  // ----- Numbers -----

  ghost predicate AllNumbered(es: seq<Event>) {
    forall i :: 0 <= i < |es| ==>
      (es[i].Request? ==> es[i].p.seqNo != 0) && (es[i].Response? ==> es[i].p.seqNo != 0)
  }

  /** When every packet is numbered on the wire, as all that are built are, the log is the events exactly. */
  lemma NumberedAgreeExactly(ws: seq<Event>, es: seq<Event>)
    requires AllAgree(ws, es) && AllNumbered(ws)
    ensures es == ws
  {
    forall i | 0 <= i < |ws|
      ensures es[i] == ws[i]
    {
      assert Agrees(ws[i], es[i]);
    }
  }
}
