/** From a byte stream to frames: scanning for headers, resynchronising after bytes that are none, and
    waiting for what has not arrived yet. */
module Parsing {
  import opened Bytes
  import opened Packets

  // ----- One look at the front of a stream -----

  /** The front of the stream is passed over, is a frame, or has to wait for more bytes. */
  datatype Look = Skip(n: nat) | Emit(n: nat) | Wait

  type Looker = look: seq<Byte> -> Look | LooksWithin(look) witness (_: seq<Byte>) => Wait

  ghost predicate LooksWithin(look: seq<Byte> -> Look) {
    forall s: seq<Byte> {:trigger look(s)} :: !look(s).Wait? ==> 0 < look(s).n <= |s|
  }

  /** A format of frames: whether a candidate header is good, the body length a header declares, the look
      these two give, the packet a frame holds, and what is written for a packet. */
  datatype Format = Format(
    check: seq<Byte> -> bool,
    bodyLength: seq<Byte> -> nat,
    look: Looker,
    open: seq<Byte> -> Option<Packet>,
    write: Packet -> seq<Byte>)

  /** The decision of the decoder, in the order it makes its tests. */
  function HeaderLook(check: seq<Byte> -> bool, bodyLength: seq<Byte> -> nat, s: seq<Byte>): Look {
    if |s| == 0 then Wait
    else if s[0] != PACKET_BEGIN_FLAG then Skip(1)
    else if |s| < HEADER_LENGTH then Wait
    else if !check(s[..HEADER_LENGTH]) then Skip(1)
    else if bodyLength(s[..HEADER_LENGTH]) > MAX_BODY_LENGTH then Skip(HEADER_LENGTH)
    else if |s| < HEADER_LENGTH + bodyLength(s[..HEADER_LENGTH]) then Wait
    else Emit(HEADER_LENGTH + bodyLength(s[..HEADER_LENGTH]))
  }

  ghost predicate IsRegular(f: Format) {
    forall s: seq<Byte> {:trigger HeaderLook(f.check, f.bodyLength, s)} ::
      f.look(s) == HeaderLook(f.check, f.bodyLength, s)
  }

  lemma LookIs(f: Format, s: seq<Byte>)
    requires IsRegular(f)
    ensures f.look(s) == HeaderLook(f.check, f.bodyLength, s)
  {
  }

  // ----- The parse -----

  /** What decode_packet does to the bytes: the next frame and what is behind it, or none yet. */
  datatype Decoding = Found(raw: seq<Byte>, rest: seq<Byte>) | Starved(rest: seq<Byte>)

  function Decode(f: Format, s: seq<Byte>): (d: Decoding)
    ensures if d.Found? then |d.rest| < |s| else |d.rest| <= |s|
    decreases |s|
  {
    match f.look(s)
    case Skip(n) => Decode(f, s[n..])
    case Emit(n) => Found(s[..n], s[n..])
    case Wait => Starved(s)
  }

  /** All the frames of a stream, in order, and the bytes still waited on. */
  datatype Parsed = Parsed(frames: seq<seq<Byte>>, residue: seq<Byte>)

  function Parse(f: Format, s: seq<Byte>): (r: Parsed)
    decreases |s|
  {
    match Decode(f, s)
    case Found(raw, rest) => Then([raw], Parse(f, rest))
    case Starved(rest) => Parsed([], rest)
  }

  /** Some frames, then the frames and the residue of q. */
  function Then(frames: seq<seq<Byte>>, q: Parsed): Parsed {
    Parsed(frames + q.frames, q.residue)
  }

  lemma ThenThen(p: seq<seq<Byte>>, q: seq<seq<Byte>>, r: Parsed)
    ensures Then(p, Then(q, r)) == Then(p + q, r)
  {
    assert p + (q + r.frames) == (p + q) + r.frames;
  }

  lemma ThenNothing(p: Parsed)
    ensures Then([], p) == p
  {
  }

  lemma ParseSkips(f: Format, s: seq<Byte>, n: nat)
    requires f.look(s) == Skip(n)
    ensures Parse(f, s) == Parse(f, s[n..])
  {
  }

  lemma ParseEmits(f: Format, s: seq<Byte>, n: nat)
    requires f.look(s) == Emit(n)
    ensures Parse(f, s) == Then([s[..n]], Parse(f, s[n..]))
  {
  }

  lemma ParseWaits(f: Format, s: seq<Byte>)
    requires f.look(s) == Wait
    ensures Parse(f, s) == Parsed([], s)
  {
  }

  lemma SlicesOfSum<T>(s: seq<T>, t: seq<T>, n: nat)
    requires n <= |s|
    ensures (s + t)[..n] == s[..n] && (s + t)[n..] == s[n..] + t
  {
  }

  /** What a look decides, no later byte changes. */
  lemma LookStable(f: Format, s: seq<Byte>, t: seq<Byte>)
    requires IsRegular(f) && !f.look(s).Wait?
    ensures f.look(s + t) == f.look(s)
  {
    LookIs(f, s);
    LookIs(f, s + t);
    if |s| >= HEADER_LENGTH {
      SlicesOfSum(s, t, HEADER_LENGTH);
    }
  }

  lemma SkipExtended(f: Format, s: seq<Byte>, t: seq<Byte>, n: nat)
    requires IsRegular(f) && f.look(s) == Skip(n)
    ensures Parse(f, s) == Parse(f, s[n..]) && Parse(f, s + t) == Parse(f, s[n..] + t)
  {
    LookStable(f, s, t);
    SlicesOfSum(s, t, n);
    ParseSkips(f, s, n);
    ParseSkips(f, s + t, n);
  }

  lemma EmitExtended(f: Format, s: seq<Byte>, t: seq<Byte>, n: nat)
    requires IsRegular(f) && f.look(s) == Emit(n)
    ensures Parse(f, s) == Then([s[..n]], Parse(f, s[n..]))
    ensures Parse(f, s + t) == Then([s[..n]], Parse(f, s[n..] + t))
  {
    LookStable(f, s, t);
    SlicesOfSum(s, t, n);
    ParseEmits(f, s, n);
    ParseEmits(f, s + t, n);
  }

  /** Parsing can stop anywhere and go on from the residue: the frames are those of the whole stream. */
  lemma {:induction false} ParseExtends(f: Format, s: seq<Byte>, t: seq<Byte>)
    requires IsRegular(f)
    ensures Parse(f, s + t) == Then(Parse(f, s).frames, Parse(f, Parse(f, s).residue + t))
    decreases |s|
  {
    match f.look(s)
    case Wait =>
      ParseWaits(f, s);
      ThenNothing(Parse(f, s + t));
    case Skip(n) =>
      SkipExtended(f, s, t, n);
      ParseExtends(f, s[n..], t);
    case Emit(n) =>
      EmitExtended(f, s, t, n);
      ParseExtends(f, s[n..], t);
      ThenThen([s[..n]], Parse(f, s[n..]).frames, Parse(f, Parse(f, s).residue + t));
  }

  /** What is left at the end has to wait: it is short of one frame, so of the longest. */
  lemma {:induction false} ResidueWaits(f: Format, s: seq<Byte>)
    requires IsRegular(f)
    ensures f.look(Parse(f, s).residue).Wait?
    ensures |Parse(f, s).residue| < HEADER_LENGTH + MAX_BODY_LENGTH
    decreases |s|
  {
    match f.look(s)
    case Wait =>
      ParseWaits(f, s);
      LookIs(f, s);
    case Skip(n) =>
      ParseSkips(f, s, n);
      ResidueWaits(f, s[n..]);
    case Emit(n) =>
      ParseEmits(f, s, n);
      ResidueWaits(f, s[n..]);
  }

  /** raw is as long as its header says, within the limit. */
  ghost predicate IsWhole(f: Format, raw: seq<Byte>) {
    && HEADER_LENGTH <= |raw| <= HEADER_LENGTH + MAX_BODY_LENGTH
    && |raw| == HEADER_LENGTH + f.bodyLength(raw[..HEADER_LENGTH])
  }

  /** Every frame is whole. */
  lemma {:induction false} FramesAreWhole(f: Format, s: seq<Byte>, i: nat)
    requires IsRegular(f) && i < |Parse(f, s).frames|
    ensures IsWhole(f, Parse(f, s).frames[i])
    decreases |s|
  {
    match f.look(s)
    case Wait =>
      ParseWaits(f, s);
    case Skip(n) =>
      ParseSkips(f, s, n);
      FramesAreWhole(f, s[n..], i);
    case Emit(n) =>
      ParseEmits(f, s, n);
      if i > 0 {
        FramesAreWhole(f, s[n..], i - 1);
      } else {
        LookIs(f, s);
        assert s[..n][..HEADER_LENGTH] == s[..HEADER_LENGTH];
      }
  }

  function TotalLength(frames: seq<seq<Byte>>): nat {
    if frames == [] then 0 else |frames[0]| + TotalLength(frames[1..])
  }

  /** The frames and the residue together are no longer than the stream. */
  lemma {:induction false} FramesFit(f: Format, s: seq<Byte>)
    requires IsRegular(f)
    ensures var p := Parse(f, s);
            HEADER_LENGTH * |p.frames| <= TotalLength(p.frames) <= |s| - |p.residue|
    decreases |s|
  {
    match f.look(s)
    case Wait =>
      ParseWaits(f, s);
    case Skip(n) =>
      ParseSkips(f, s, n);
      FramesFit(f, s[n..]);
    case Emit(n) =>
      LookIs(f, s);
      ParseEmits(f, s, n);
      FramesFit(f, s[n..]);
      assert Parse(f, s).frames[1..] == Parse(f, s[n..]).frames;
  }

  // ----- What the parse means -----

  datatype Kind = Noise | BadHeader | Oversized | Whole

  /** A stretch of the stream that the decoder is done with. */
  datatype Piece = Piece(at: nat, len: nat, kind: Kind)

  ghost predicate HeaderAt(s: seq<Byte>, at: nat) {
    at + HEADER_LENGTH <= |s| && s[at] == PACKET_BEGIN_FLAG
  }

  /** Why a stretch is passed over, or why it is a frame. */
  ghost predicate Justified(f: Format, s: seq<Byte>, p: Piece) {
    && p.at + p.len <= |s|
    && match p.kind
       case Noise =>
         p.len == 1 && s[p.at] != PACKET_BEGIN_FLAG
       case BadHeader =>
         p.len == 1 && HeaderAt(s, p.at) && !f.check(s[p.at..p.at + HEADER_LENGTH])
       case Oversized =>
         && HeaderAt(s, p.at) && f.check(s[p.at..p.at + HEADER_LENGTH])
         && f.bodyLength(s[p.at..p.at + HEADER_LENGTH]) > MAX_BODY_LENGTH
         && p.len == HEADER_LENGTH
       case Whole =>
         && HeaderAt(s, p.at) && f.check(s[p.at..p.at + HEADER_LENGTH])
         && f.bodyLength(s[p.at..p.at + HEADER_LENGTH]) <= MAX_BODY_LENGTH
         && p.len == HEADER_LENGTH + f.bodyLength(s[p.at..p.at + HEADER_LENGTH])
  }

  /** The pieces, each justified, lie end to end over s[from..end]. */
  ghost predicate Covers(f: Format, s: seq<Byte>, from: nat, pieces: seq<Piece>, end: nat)
    decreases |pieces|
  {
    if pieces == [] then from == end
    else
      && pieces[0].at == from
      && Justified(f, s, pieces[0])
      && Covers(f, s, from + pieces[0].len, pieces[1..], end)
  }

  /** No piece can start at end: what is there has to wait for more bytes. */
  ghost predicate Pending(f: Format, s: seq<Byte>, end: nat) {
    end <= |s| && forall p: Piece :: p.at == end ==> !Justified(f, s, p)
  }

  function Wholes(s: seq<Byte>, pieces: seq<Piece>): seq<seq<Byte>>
    decreases |pieces|
  {
    if pieces == [] then [] else IfWhole(s, pieces[0]) + Wholes(s, pieces[1..])
  }

  function IfWhole(s: seq<Byte>, p: Piece): seq<seq<Byte>> {
    if p.kind == Whole && p.at + p.len <= |s| then [s[p.at..p.at + p.len]] else []
  }

  function LookOf(p: Piece): Look {
    if p.kind == Whole then Emit(p.len) else Skip(p.len)
  }

  /** A piece says the same as a look at its front. */
  lemma JustifiedLook(f: Format, s: seq<Byte>, p: Piece)
    requires IsRegular(f) && Justified(f, s, p)
    ensures f.look(s[p.at..]) == LookOf(p)
  {
    var v := s[p.at..];
    LookIs(f, v);
    if HeaderAt(s, p.at) {
      assert v[..HEADER_LENGTH] == s[p.at..p.at + HEADER_LENGTH];
    }
  }

  lemma LookJustifies(f: Format, s: seq<Byte>, at: nat) returns (p: Piece)
    requires IsRegular(f) && at <= |s| && !f.look(s[at..]).Wait?
    ensures p.at == at && Justified(f, s, p) && LookOf(p) == f.look(s[at..])
  {
    var v := s[at..];
    LookIs(f, v);
    var n := f.look(v).n;
    if s[at] != PACKET_BEGIN_FLAG {
      p := Piece(at, n, Noise);
    } else {
      var h := v[..HEADER_LENGTH];
      assert h == s[at..at + HEADER_LENGTH];
      p := Piece(at, n, if !f.check(h) then BadHeader else if f.bodyLength(h) > MAX_BODY_LENGTH then Oversized
                        else Whole);
    }
  }

  /** Every stream can be covered up to a point where nothing can start. */
  lemma {:induction false} CoverExists(f: Format, s: seq<Byte>, from: nat)
    returns (pieces: seq<Piece>, end: nat)
    requires IsRegular(f) && from <= |s|
    ensures Covers(f, s, from, pieces, end) && Pending(f, s, end)
    decreases |s| - from
  {
    if f.look(s[from..]).Wait? {
      pieces, end := [], from;
      forall p: Piece | p.at == from
        ensures !Justified(f, s, p)
      {
        if Justified(f, s, p) {
          JustifiedLook(f, s, p);
        }
      }
    } else {
      var p := LookJustifies(f, s, from);
      var rest;
      rest, end := CoverExists(f, s, from + p.len);
      pieces := [p] + rest;
    }
  }

  lemma PendingWaits(f: Format, s: seq<Byte>, end: nat)
    requires IsRegular(f) && Pending(f, s, end)
    ensures Parse(f, s[end..]) == Parsed([], s[end..])
  {
    if !f.look(s[end..]).Wait? {
      var p := LookJustifies(f, s, end);
    }
    ParseWaits(f, s[end..]);
  }

  lemma FrontLook(f: Format, s: seq<Byte>, from: nat, pieces: seq<Piece>, end: nat)
    requires IsRegular(f) && pieces != [] && Covers(f, s, from, pieces, end)
    ensures pieces[0].at == from && from + pieces[0].len <= |s|
    ensures f.look(s[from..]) == LookOf(pieces[0])
  {
    JustifiedLook(f, s, pieces[0]);
  }

  lemma CoversTail(f: Format, s: seq<Byte>, from: nat, pieces: seq<Piece>, end: nat, next: nat)
    requires pieces != [] && Covers(f, s, from, pieces, end) && next == from + pieces[0].len
    ensures Covers(f, s, next, pieces[1..], end)
  {
  }

  lemma ParseFront(f: Format, s: seq<Byte>, from: nat, p: Piece, next: nat)
    requires p.at == from && from + p.len == next <= |s|
    requires f.look(s[from..]) == LookOf(p)
    ensures from < next
    ensures Parse(f, s[from..]) == Then(IfWhole(s, p), Parse(f, s[next..]))
  {
    var v := s[from..];
    assert v[p.len..] == s[next..];
    if p.kind == Whole {
      assert v[..p.len] == s[from..next];
      ParseEmits(f, v, p.len);
    } else {
      ParseSkips(f, v, p.len);
      ThenNothing(Parse(f, s[next..]));
    }
  }

  lemma JoinPiece(s: seq<Byte>, pieces: seq<Piece>, here: Parsed, next: Parsed, last: Parsed)
    requires pieces != []
    requires here == Then(IfWhole(s, pieces[0]), next) && next == Then(Wholes(s, pieces[1..]), last)
    ensures here == Then(Wholes(s, pieces), last)
  {
    ThenThen(IfWhole(s, pieces[0]), Wholes(s, pieces[1..]), last);
  }

  lemma {:induction false} CoverParses(f: Format, s: seq<Byte>, from: nat, pieces: seq<Piece>, end: nat)
    requires IsRegular(f) && from <= |s| && end <= |s| && Covers(f, s, from, pieces, end)
    ensures Parse(f, s[from..]) == Then(Wholes(s, pieces), Parse(f, s[end..]))
    decreases |pieces|
  {
    if pieces == [] {
      assert from == end;
      ThenNothing(Parse(f, s[end..]));
    } else {
      var next := from + pieces[0].len;
      FrontLook(f, s, from, pieces, end);
      ParseFront(f, s, from, pieces[0], next);
      CoversTail(f, s, from, pieces, end, next);
      CoverParses(f, s, next, pieces[1..], end);
      JoinPiece(s, pieces, Parse(f, s[from..]), Parse(f, s[next..]), Parse(f, s[end..]));
    }
  }

  /** There is no choice: whatever covers a stream up to a point where nothing can start has the frames of
      the parse as its whole frames, in order, and stops at the residue. */
  lemma CoverDetermines(f: Format, s: seq<Byte>, pieces: seq<Piece>, end: nat)
    requires IsRegular(f) && Covers(f, s, 0, pieces, end) && Pending(f, s, end)
    ensures Parse(f, s) == Parsed(Wholes(s, pieces), s[end..])
  {
    CoverParses(f, s, 0, pieces, end);
    PendingWaits(f, s, end);
    assert s[0..] == s;
  }
}
