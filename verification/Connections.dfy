/** One connection: bytes are read into the buffer, packets are taken out of it, the peer's device id is
    learned from the first packet that has one, and packets are handed up or dispatched to waiting calls. */
module Connections {
  import opened Bytes
  import opened Packets
  import opened Parsing
  import opened Framing
  import opened IoBuffers

  const RECV_BUF_SIZE: nat := 128 * 1024

  /** One byte short of the longest frame. */
  const LONGEST_RESIDUE: nat := HEADER_LENGTH + MAX_BODY_LENGTH - 1

  /** Reading; or a packet with another device id came; or one whose id is not determined by its frame. */
  datatype Status = Reading | Stranger | Undetermined

  datatype Event =
    | GotDeviceId(id: seq<Byte>)
    | Request(id: seq<Byte>, p: Packet)
    | Response(p: Packet)
    | Disconnected(id: seq<Byte>)

  // ----- What a stream means -----

  datatype Peer = Peer(deviceId: seq<Byte>, status: Status)

  const NEW_PEER := Peer([], Reading)

  datatype Played = Played(peer: Peer, events: seq<Event>)

  function HandUp(p: Packet): Event {
    if p.rsp then Response(p) else Request(p.deviceId, p)
  }

  /** What one frame does to a connection that is reading. */
  function Handle(peer: Peer, wire: Option<Packet>): Played {
    match wire
    case None => Played(peer.(status := Undetermined), [])
    case Some(p) =>
      if p.deviceId == [] then Played(peer, [])
      else if peer.deviceId == [] then Played(peer.(deviceId := p.deviceId), [GotDeviceId(p.deviceId), HandUp(p)])
      else if peer.deviceId != p.deviceId then Played(peer.(status := Stranger), [])
      else Played(peer, [HandUp(p)])
  }

  function Prefixed(es: seq<Event>, p: Played): Played {
    Played(p.peer, es + p.events)
  }

  function Play(f: Format, peer: Peer, frames: seq<seq<Byte>>): Played
    decreases |frames|
  {
    if frames == [] || peer.status != Reading then Played(peer, [])
    else
      var h := Handle(peer, f.open(frames[0]));
      Prefixed(h.events, Play(f, h.peer, frames[1..]))
  }

  /** The whole stream in one go. */
  function Run(f: Format, stream: seq<Byte>): Played {
    Play(f, NEW_PEER, Parse(f, stream).frames)
  }

  /** What the connection has done when it stops after reading stream. */
  function Final(f: Format, stream: seq<Byte>): seq<Event> {
    var r := Run(f, stream);
    r.events + if r.peer.status == Undetermined then [] else [Disconnected(r.peer.deviceId)]
  }

  /** e is the event w, with the packet as constructed from the one on the wire. */
  ghost predicate Agrees(w: Event, e: Event) {
    match w
    case Request(id, p) => e.Request? && e.id == id && Constructed(p, e.p)
    case Response(p) => e.Response? && Constructed(p, e.p)
    case _ => e == w
  }

  ghost predicate AllAgree(ws: seq<Event>, es: seq<Event>) {
    |ws| == |es| && forall i :: 0 <= i < |ws| ==> Agrees(ws[i], es[i])
  }

  lemma AllAgreeConcat(ws: seq<Event>, es: seq<Event>, vs: seq<Event>, fs: seq<Event>)
    requires AllAgree(ws, es) && AllAgree(vs, fs)
    ensures AllAgree(ws + vs, es + fs)
  {
  }

  /** Numbering a packet changes nothing about what becomes of it. */
  lemma HandleConstructed(peer: Peer, wire: Packet, p: Packet)
    requires Constructed(wire, p)
    ensures Handle(peer, Some(wire)).peer == Handle(peer, Some(p)).peer
    ensures AllAgree(Handle(peer, Some(wire)).events, Handle(peer, Some(p)).events)
  {
  }

  lemma PrefixedTwice(es: seq<Event>, fs: seq<Event>, p: Played)
    ensures Prefixed(es, Prefixed(fs, p)) == Prefixed(es + fs, p)
  {
    assert es + (fs + p.events) == (es + fs) + p.events;
  }

  lemma PlayFirst(f: Format, peer: Peer, raw: seq<Byte>, more: seq<seq<Byte>>)
    requires peer.status == Reading
    ensures var h := Handle(peer, f.open(raw));
            Play(f, peer, [raw] + more) == Prefixed(h.events, Play(f, h.peer, more))
  {
    assert ([raw] + more)[1..] == more;
  }

  /** Frames can be handled in batches. */
  lemma {:induction false} PlayConcat(f: Format, peer: Peer, a: seq<seq<Byte>>, b: seq<seq<Byte>>)
    ensures Play(f, peer, a + b) == Prefixed(Play(f, peer, a).events, Play(f, Play(f, peer, a).peer, b))
    decreases |a|
  {
    if a == [] {
      assert a + b == b;
      assert Prefixed([], Play(f, peer, b)) == Play(f, peer, b);
    } else if peer.status == Reading {
      var h := Handle(peer, f.open(a[0]));
      assert (a + b)[1..] == a[1..] + b;
      PlayConcat(f, h.peer, a[1..], b);
      PrefixedTwice(h.events, Play(f, h.peer, a[1..]).events, Play(f, Play(f, peer, a).peer, b));
    }
  }

  lemma StoppedStays(f: Format, peer: Peer, frames: seq<seq<Byte>>)
    requires peer.status != Reading
    ensures Play(f, peer, frames) == Played(peer, [])
  {
  }

  /** Reading on: what more bytes add depends only on the peer and the residue so far. */
  lemma RunExtends(f: Format, s: seq<Byte>, t: seq<Byte>)
    requires IsRegular(f)
    ensures Run(f, s + t)
         == Prefixed(Run(f, s).events, Play(f, Run(f, s).peer, Parse(f, Parse(f, s).residue + t).frames))
  {
    ParseExtends(f, s, t);
    PlayConcat(f, NEW_PEER, Parse(f, s).frames, Parse(f, Parse(f, s).residue + t).frames);
  }

  /** Once a connection has stopped, what would have come after changes nothing. */
  lemma StoppedRunIsFinal(f: Format, s: seq<Byte>, t: seq<Byte>)
    requires IsRegular(f)
    requires Run(f, s).peer.status != Reading
    ensures Run(f, s + t) == Run(f, s) && Final(f, s + t) == Final(f, s)
  {
    RunExtends(f, s, t);
    StoppedStays(f, Run(f, s).peer, Parse(f, Parse(f, s).residue + t).frames);
    assert Prefixed(Run(f, s).events, Played(Run(f, s).peer, [])) == Run(f, s);
  }

  lemma StoppedBefore(f: WireFormat, stream: seq<Byte>, read: nat)
    requires read <= |stream| && Run(f, stream[..read]).peer.status != Reading
    ensures Final(f, stream) == Final(f, stream[..read])
  {
    WireRegular(f);
    assert stream == stream[..read] + stream[read..];
    StoppedRunIsFinal(f, stream[..read], stream[read..]);
  }

  /** Nothing in es tells that the connection is over. */
  ghost predicate NoneOver(es: seq<Event>) {
    forall i :: 0 <= i < |es| ==> !es[i].Disconnected?
  }

  lemma {:induction false} PlayNoneOver(f: Format, peer: Peer, frames: seq<seq<Byte>>)
    ensures NoneOver(Play(f, peer, frames).events)
    decreases |frames|
  {
    if frames != [] && peer.status == Reading {
      PlayNoneOver(f, Handle(peer, f.open(frames[0])).peer, frames[1..]);
    }
  }

  /** The log tells that the connection is over at its end, with the device id, and nowhere else. */
  ghost predicate OverOnce(log: seq<Event>, id: seq<Byte>) {
    log != [] && log[|log| - 1] == Disconnected(id) && NoneOver(log[..|log| - 1])
  }

  lemma AgreeNoneOver(ws: seq<Event>, es: seq<Event>)
    requires AllAgree(ws, es) && NoneOver(ws)
    ensures NoneOver(es)
  {
    forall i | 0 <= i < |es|
      ensures !es[i].Disconnected?
    {
      assert Agrees(ws[i], es[i]);
    }
  }

  /** The same, taking one frame at a time out of the bytes at hand: what happens, and the bytes left. */
  function Drain(f: Format, peer: Peer, view: seq<Byte>): (Played, seq<Byte>)
    decreases |view|
  {
    if peer.status != Reading then (Played(peer, []), view)
    else
      match Decode(f, view)
      case Starved(rest) => (Played(peer, []), rest)
      case Found(raw, rest) =>
        var h := Handle(peer, f.open(raw));
        Onto(h.events, Drain(f, h.peer, rest))
  }

  function Onto(es: seq<Event>, d: (Played, seq<Byte>)): (Played, seq<Byte>) {
    (Prefixed(es, d.0), d.1)
  }

  lemma OntoNothing(d: (Played, seq<Byte>))
    ensures Onto([], d) == d
  {
    assert [] + d.0.events == d.0.events;
  }

  lemma OntoTwice(es: seq<Event>, fs: seq<Event>, d: (Played, seq<Byte>))
    ensures Onto(es, Onto(fs, d)) == Onto(es + fs, d)
  {
    PrefixedTwice(es, fs, d.0);
  }

  lemma {:induction false} DrainIsPlay(f: Format, peer: Peer, view: seq<Byte>)
    ensures Drain(f, peer, view).0 == Play(f, peer, Parse(f, view).frames)
    ensures Drain(f, peer, view).0.peer.status == Reading ==> Drain(f, peer, view).1 == Parse(f, view).residue
    decreases |view|
  {
    if peer.status == Reading {
      match Decode(f, view)
      case Starved(_) =>
      case Found(raw, rest) =>
        var h := Handle(peer, f.open(raw));
        DrainIsPlay(f, h.peer, rest);
        PlayFirst(f, peer, raw, Parse(f, rest).frames);
    }
  }

  // ----- The connection as it runs -----

  /** Before the end nothing in a log tells that the connection is over. */
  lemma LogNoneOver(f: Format, stream: seq<Byte>, log: seq<Event>)
    requires AllAgree(Run(f, stream).events, log)
    ensures NoneOver(log)
  {
    PlayNoneOver(f, NEW_PEER, Parse(f, stream).frames);
    AgreeNoneOver(Run(f, stream).events, log);
  }

  lemma DropTwice<T>(s: seq<T>, i: nat, j: nat)
    requires i + j <= |s|
    ensures s[i..][j..] == s[i + j..]
  {
  }

  class Connection {
    const buf: IoBuffer
    const gen: SeqGenerator
    var deviceId: seq<Byte>
    var status: Status
    var log: seq<Event>

    // The format of headers, the bytes read so far, and the events they stand for.
    ghost const format: WireFormat
    ghost var received: seq<Byte>
    ghost var spec: seq<Event>

    ghost predicate Formed()
      reads this, buf
    {
      && buf.Valid() && buf.buffer.Length == RECV_BUF_SIZE
      && AllAgree(spec, log)
    }

    ghost function Now(): Peer
      reads this
    {
      Peer(deviceId, status)
    }

    /** The connection is where one parse of everything received leads, and the buffer holds the residue. */
    ghost predicate Valid()
      reads this, buf, buf.buffer
    {
      && Formed()
      && Run(format, received) == Played(Now(), spec)
      && (status == Reading ==> buf.Contents() == Parse(format, received).residue)
      && |received| == buf.committed
      && 6 * buf.moved + buf.tail <= buf.committed
      && buf.lastMove <= buf.committed && buf.tail <= LONGEST_RESIDUE + buf.committed - buf.lastMove
    }

    constructor (gen: SeqGenerator, ghost f: WireFormat)
      ensures Valid() && fresh(buf) && fresh(buf.buffer)
      ensures this.gen == gen && this.format == f
      ensures log == [] && received == [] && Now() == NEW_PEER
    {
      buf := new IoBuffer(RECV_BUF_SIZE);
      this.gen, this.format := gen, f;
      deviceId, status, log, received, spec := [], Reading, [], [], [];
    }

    /** Takes one packet: false when it comes from another device. */
    method Accept(p: Packet) returns (more: bool)
      requires status == Reading
      modifies this`deviceId, this`status, this`log
      ensures var h := Handle(old(Now()), Some(p)); Now() == h.peer && log == old(log) + h.events
      ensures more <==> status == Reading
    {
      if p.deviceId == [] {
        return true;
      }
      if deviceId == [] {
        deviceId := p.deviceId;
        log := log + [GotDeviceId(deviceId)];
      } else if deviceId != p.deviceId {
        status := Stranger;
        return false;
      }
      log := log + [HandUp(p)];
      return true;
    }

    /** Takes what was made of the frame with fields wire. */
    method Settle(r: Outcome, ghost wire: Option<Packet>)
      requires AllAgree(spec, log) && status == Reading
      requires if wire.Some? then r.Got? && Constructed(wire.value, r.p) else r == Overrun
      modifies this`deviceId, this`status, this`log, this`spec
      ensures AllAgree(spec, log)
      ensures var h := Handle(old(Now()), wire); Now() == h.peer && spec == old(spec) + h.events
    {
      ghost var before, logged := Now(), log;
      if r == Overrun {
        status := Undetermined;
      } else {
        var _ := Accept(r.p);
        HandleConstructed(before, wire.value, r.p);
        AllAgreeConcat(spec, logged, Handle(before, wire).events, Handle(before, Some(r.p)).events);
        spec := spec + Handle(before, wire).events;
      }
    }

    /** Decodes at the head of the buffer and drops what the decoder is done with. */
    method DecodeHere() returns (r: Outcome)
      requires buf.Valid()
      modifies gen, buf`head, buf`tail
      ensures buf.Valid() && buf.tail <= old(buf.tail)
      ensures buf.Contents() == Decode(format, old(buf.Contents())).rest
      ensures match Decode(format, old(buf.Contents()))
              case Starved(_) => r == Nothing
              case Found(raw, _) => Numbered(format.open(raw), r, old(gen.last), gen.last)
    {
      var consumed;
      consumed, r := DecodePacket(format, buf.buffer, buf.head, buf.tail, gen);
      DropTwice(buf.buffer[..buf.tail], buf.head, consumed);
      buf.Consume(consumed);
    }

    /** Takes the next packet out of the buffer, if it is there whole. */
    method TakeOne() returns (found: bool)
      requires Formed() && status == Reading
      modifies this`deviceId, this`status, this`log, this`spec, gen, buf`head, buf`tail
      ensures Formed() && buf.tail <= old(buf.tail)
      ensures found == Decode(format, old(buf.Contents())).Found?
      ensures buf.Contents() == Decode(format, old(buf.Contents())).rest
      ensures var h := if found then Handle(old(Now()), format.open(Decode(format, old(buf.Contents())).raw))
                       else Played(old(Now()), []);
              Now() == h.peer && spec == old(spec) + h.events
    {
      ghost var d := Decode(format, buf.Contents());
      var r := DecodeHere();
      found := r != Nothing;
      if found {
        Settle(r, format.open(d.raw));
      }
    }

    /** Takes every packet out of the buffer that is there whole: false when reading has to stop. */
    method ProcessPacket() returns (more: bool)
      requires Formed() && status == Reading
      modifies this`deviceId, this`status, this`log, this`spec, gen, buf`head, buf`tail
      ensures Formed() && buf.tail <= old(buf.tail)
      ensures var d := Drain(format, old(Now()), old(buf.Contents()));
              d.0.peer == Now() && d.1 == buf.Contents() && spec == old(spec) + d.0.events
      ensures more <==> status == Reading
    {
      ghost var all := Drain(format, Now(), buf.Contents());
      ghost var done: seq<Event> := [];
      OntoNothing(all);
      while true
        invariant Formed() && status == Reading && buf.tail <= old(buf.tail)
        invariant all == Onto(done, Drain(format, Now(), buf.Contents()))
        invariant spec == old(spec) + done
        decreases |buf.Contents()|
      {
        ghost var peer, view := Now(), buf.Contents();
        var found := TakeOne();
        if !found {
          return true;
        }
        ghost var h := Handle(peer, format.open(Decode(format, view).raw));
        OntoTwice(done, h.events, Drain(format, h.peer, buf.Contents()));
        done := done + h.events;
        if status != Reading {
          return false;
        }
      }
    }

    /** Takes in the bytes that are read into the slab at the tail, and handles what they complete. */
    method TakeIn(at: nat, chunk: seq<Byte>) returns (more: bool)
      requires Valid() && status == Reading && at == buf.tail && at + |chunk| <= RECV_BUF_SIZE
      modifies this, gen, buf, buf.buffer
      ensures Valid() && received == old(received) + chunk
      ensures more <==> status == Reading
    {
      ghost var view := buf.Contents();
      PutBytes(buf.buffer, at, chunk);
      assert buf.Contents() == view;
      buf.Commit(|chunk|);
      assert buf.Contents() == view + chunk;
      received := received + chunk;
      ghost var peer := Now();
      WireRegular(format);
      more := ProcessPacket();
      DrainIsPlay(format, peer, view + chunk);
      RunExtends(format, old(received), chunk);
      ParseExtends(format, old(received), chunk);
    }

    /** Room for the next read; there always is some, so the two ways out of the loop for a full buffer are
        never taken.  Bytes are moved only once the buffer is filled to its end, fewer than a frame, and not
        before another 114602 have come in. */
    method MakeRoom() returns (at: nat, size: nat)
      requires Valid() && status == Reading
      modifies buf`head, buf`tail, buf`moved, buf`lastMove, buf.buffer
      ensures Valid() && at == buf.tail && size > 0 && at + size == 131072
      ensures if old(buf.tail) < RECV_BUF_SIZE
              then buf.moved == old(buf.moved) && buf.lastMove == old(buf.lastMove)
              else
                && buf.moved <= old(buf.moved) + 16470
                && buf.lastMove == buf.committed >= old(buf.lastMove) + 114602
    {
      WireRegular(format);
      ResidueWaits(format, received);
      var sizeToRead := if buf.FreeSize() > 0 then buf.FreeSize() else buf.Capacity();
      if sizeToRead <= 0 {
        assert false;
      }
      at, size := buf.Prepare(sizeToRead);
    }

    /** Tells the owner that the connection is over. */
    method HangUp()
      requires Valid()
      modifies this`log
      ensures log == old(log) + [Disconnected(deviceId)] && OverOnce(log, deviceId)
      ensures AllAgree(spec + [Disconnected(deviceId)], log)
    {
      LogNoneOver(format, received, log);
      log := log + [Disconnected(deviceId)];
    }

    /** The bytes received are the first read of stream. */
    ghost predicate HasRead(stream: seq<Byte>, read: nat)
      reads this`received
    {
      read <= |stream| && received == stream[..read]
    }

    lemma NothingRead(stream: seq<Byte>)
      requires received == []
      ensures HasRead(stream, 0)
    {
    }

    /** One read, of at most limit bytes. */
    method ReadOnce(stream: seq<Byte>, from: nat, limit: nat) returns (read: nat)
      requires Valid() && status == Reading && HasRead(stream, from) && from < |stream|
      modifies this, gen, buf, buf.buffer
      ensures Valid() && HasRead(stream, read)
      ensures from <= read && (limit > 0 ==> from < read)
    {
      var at, size := MakeRoom();
      var readSize := Min(Min(limit, size), |stream| - from);
      read := from + readSize;
      if readSize > 0 {
        SlicesJoin(stream, from, read);
        var _ := TakeIn(at, stream[from..read]);
      }
    }

    /** Reads on until the socket fails, the stream ends or the connection stops. */
    method ReadAll(stream: seq<Byte>, from: nat, sizes: seq<nat>) returns (read: nat)
      requires Valid() && status == Reading && HasRead(stream, from)
      modifies this, gen, buf, buf.buffer
      ensures Valid() && HasRead(stream, read)
      ensures status == Reading && |stream| <= from + |sizes| && (forall i :: 0 <= i < |sizes| ==> sizes[i] > 0)
              ==> read == |stream|
    {
      var i := 0;
      read := from;
      while status == Reading && i < |sizes| && read < |stream|
        invariant Valid() && HasRead(stream, read)
        invariant i <= |sizes|
        invariant (forall j :: 0 <= j < |sizes| ==> sizes[j] > 0) ==> from + i <= read
      {
        read := ReadOnce(stream, read, sizes[i]);
        i := i + 1;
      }
    }

    /** How the loop is left: the owner is told, unless what came is not determined. */
    method End(stream: seq<Byte>, read: nat)
      requires Valid() && HasRead(stream, read)
      modifies this`log
      ensures AllAgree(Final(format, stream[..read]), log)
      ensures if status == Undetermined then NoneOver(log) else OverOnce(log, deviceId)
      ensures status != Reading ==> Final(format, stream) == Final(format, stream[..read])
    {
      LogNoneOver(format, received, log);
      if status != Reading {
        StoppedBefore(format, stream, read);
      }
      if status != Undetermined {
        HangUp();
      }
    }

    /** The receive loop over a socket that delivers stream, at most sizes[i] bytes at the i-th read, and fails
        or ends after that.  However the stream is cut, the log is that of one parse of what was read. */
    method ReceivePacket(stream: seq<Byte>, sizes: seq<nat>) returns (read: nat)
      requires Valid() && status == Reading && received == []
      modifies this, gen, buf, buf.buffer
      ensures read <= |stream|
      ensures AllAgree(Final(format, stream[..read]), log)
      ensures if status == Undetermined then NoneOver(log) else OverOnce(log, deviceId)
      ensures status == Reading && |stream| <= |sizes| && (forall i :: 0 <= i < |sizes| ==> sizes[i] > 0)
              ==> read == |stream|
      ensures status != Reading ==> Final(format, stream) == Final(format, stream[..read])
      ensures 6 * buf.moved <= read
    {
      NothingRead(stream);
      read := ReadAll(stream, 0, sizes);
      End(stream, read);
    }
  }
}
