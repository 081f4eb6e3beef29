/** A call of the server to a client: the packet is written again until it is answered, the tries are used up, or
    there is nobody to send it to. */
module Calls {
  import opened Packets

  /** What one turn of the loop meets: the server stopped, no connection for the device, a response to what was
      written, or none (a timeout or any other exception, also one of the write itself). */
  datatype Attempt = Stopped | NotConnected | Answer(rsp: Packet) | NoAnswer

  datatype CallError = InvalidState | ConnectionError | TimeoutError

  datatype CallStatus = Idle | Waiting | Returned(rsp: Packet) | Failed(error: CallError)

  datatype Call = Call(p: Packet, maxTries: nat, tries: nat, status: CallStatus)

  /** What an attempt other than NoAnswer ends the call with. */
  function Verdict(a: Attempt): CallStatus
    requires !a.NoAnswer?
  {
    match a
    case Stopped => Failed(InvalidState)
    case NotConnected => Failed(ConnectionError)
    case Answer(rsp) => Returned(rsp)
  }

  /** Whether the attempt begins to write the packet. */
  function Writes(a: Attempt): nat {
    if a.Answer? || a.NoAnswer? then 1 else 0
  }

  /** The first of the attempts that is not NoAnswer, or their number. */
  function FirstDecisive(attempts: seq<Attempt>): (j: nat)
    ensures j <= |attempts|
    ensures forall i :: 0 <= i < j ==> attempts[i].NoAnswer?
    ensures j < |attempts| ==> !attempts[j].NoAnswer?
  {
    if attempts == [] || !attempts[0].NoAnswer? then 0 else 1 + FirstDecisive(attempts[1..])
  }

  /** The turns before j meet nothing, and turn j does. */
  ghost predicate Decides(attempts: seq<Attempt>, j: nat) {
    j < |attempts| && !attempts[j].NoAnswer? && forall i :: 0 <= i < j ==> attempts[i].NoAnswer?
  }

  /** How a call ends whose turns meet these attempts: the first that meets anything decides. */
  function End(attempts: seq<Attempt>): CallStatus {
    var j := FirstDecisive(attempts);
    if j < |attempts| then Verdict(attempts[j]) else Failed(TimeoutError)
  }

  /** How often its packet is begun to be written: once for each turn up to the decisive one. */
  function WritesOf(attempts: seq<Attempt>): nat {
    var j := FirstDecisive(attempts);
    if j < |attempts| then j + Writes(attempts[j]) else j
  }

  /** The retry loop, given what its maxTries + 1 turns would meet; written is how often a write was begun. */
  method SendPacketAndWaitRsp(maxTries: nat, attempts: seq<Attempt>) returns (r: CallStatus, written: nat)
    requires |attempts| == maxTries + 1
    ensures r == End(attempts)
    ensures written == WritesOf(attempts) <= maxTries + 1
    ensures (forall i :: 0 <= i <= maxTries ==> attempts[i].NoAnswer?)
        ==> r == Failed(TimeoutError) && written == maxTries + 1
    ensures forall j :: 0 <= j <= maxTries && Decides(attempts, j) ==>
              match attempts[j]
              case Stopped => r == Failed(InvalidState) && written == j
              case NotConnected => r == Failed(ConnectionError) && written == j
              case Answer(rsp) => r == Returned(rsp) && written == j + 1
  {
    written := 0;
    var i := 0;
    ghost var j := FirstDecisive(attempts);
    while i <= maxTries
      invariant i <= maxTries + 1 && i <= j && written == i
    {
      if attempts[i].Stopped? {
        return Failed(InvalidState), written;
      }
      if attempts[i].NotConnected? {
        return Failed(ConnectionError), written;
      }
      written := written + 1;
      if attempts[i].Answer? {
        return Returned(attempts[i].rsp), written;
      }
      i := i + 1;
    }
    r := Failed(TimeoutError);
  }

  /** One turn of the loop, as a step of the call. */
  function Meet(c: Call, a: Attempt): Call
  {
    if !c.status.Idle? then c
    else if !a.NoAnswer? then c.(tries := c.tries + Writes(a), status := Verdict(a))
    else if c.tries + 1 > c.maxTries then c.(tries := c.tries + 1, status := Failed(TimeoutError))
    else c.(tries := c.tries + 1)
  }

  function MeetAll(c: Call, attempts: seq<Attempt>): Call
    decreases |attempts|
  {
    if attempts == [] then c else MeetAll(Meet(c, attempts[0]), attempts[1..])
  }

  lemma {:induction false} OverStays(c: Call, attempts: seq<Attempt>)
    requires !c.status.Idle?
    ensures MeetAll(c, attempts) == c
    decreases |attempts|
  {
    if attempts != [] {
      OverStays(c, attempts[1..]);
    }
  }

  /** The steps of a call end where the loop ends. */
  lemma {:induction false} StepsAreTheLoop(c: Call, attempts: seq<Attempt>)
    requires c.status.Idle? && c.tries + |attempts| == c.maxTries + 1 && attempts != []
    ensures MeetAll(c, attempts) == c.(tries := c.tries + WritesOf(attempts), status := End(attempts))
    decreases |attempts|
  {
    var d := Meet(c, attempts[0]);
    if !d.status.Idle? {
      OverStays(d, attempts[1..]);
    } else {
      StepsAreTheLoop(d, attempts[1..]);
    }
  }
}
