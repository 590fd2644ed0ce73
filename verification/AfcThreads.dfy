/** Many threads on one AFC client, as steps of lock, dispatch, receive and unlock against a device
    that answers in order and echoes packet numbers.  A packet that is rejected for its number leaves
    its body on the wire. */
module AfcThreads {
  import opened Bytes
  import opened Options
  import F = AfcFrame

  /** Where a thread stands: outside every request function, inside one between packets, or waiting
      for the reply to the request it sent. */
  datatype Phase = Outside | Inside | Waiting(request: nat)

  /** A packet in flight.  request identifies it; only its number travels. */
  datatype Packet = Packet(request: nat) {
    function Num(): nat { request % TWO_64 }
  }

  /** What the device answers a request with, besides the number. */
  datatype Answer = Answer(thisLength: nat, operation: nat, body: seq<byte>)

  type Device = nat -> Answer

  function Header(p: Packet, device: Device): F.Packet {
    var a := device(p.request);
    F.Packet(F.HEADER_SIZE + |a.body|, a.thisLength, p.Num(), a.operation)
  }

  /** The replies to requests, one behind another. */
  function Replies(packets: seq<Packet>, device: Device): seq<byte> {
    if packets == [] then []
    else F.Frame(Header(packets[0], device), device(packets[0].request).body) + Replies(packets[1..], device)
  }

  /** Misread: what a thread took for a header, within or behind the body of a rejected packet, has the
      number it expected. */
  datatype Event = Answered(thread: nat, request: nat, reply: nat) | Mismatch(thread: nat) | Misread(thread: nat)

  datatype State = State(
    mutex: Option<nat>,
    phases: map<nat, Phase>,
    count: nat,               // how often packet_num was incremented
    toDevice: seq<Packet>,
    fromDevice: seq<Packet>,
    loose: Option<seq<byte>>, // once a packet has been rejected: the bytes from the device
    log: seq<Event>)
  {
    function PhaseOf(t: nat): Phase {
      if t in phases then phases[t] else Outside
    }

    /** client->afc_packet->packet_num */
    function PacketNum(): nat { count % TWO_64 }

    function InFlight(): seq<Packet> { fromDevice + toDevice }
  }

  datatype Step =
    | Lock(t: nat)          // afc_lock
    | Dispatch(t: nat)      // afc_dispatch_packet sends
    | Refuse(t: nat)        // afc_dispatch_packet finds the lengths inconsistent
    | Serve                 // the device answers the oldest request
    | Receive(t: nat, n: nat)  // afc_receive_data gets a packet; n counts only behind a rejected one
    | Abandon(t: nat)       // afc_receive_data gives up without a packet
    | Unlock(t: nat)        // afc_unlock

  const INIT := State(None, map[], 0, [], [], None, [])

  predicate Enabled(s: State, step: Step) {
    match step
    case Lock(t) => s.mutex == None && s.PhaseOf(t) == Outside
    case Dispatch(t) => s.PhaseOf(t) == Inside
    case Refuse(t) => s.PhaseOf(t) == Inside
    case Serve => s.toDevice != []
    case Receive(t, n) =>
      s.PhaseOf(t).Waiting? && if s.loose.None? then s.fromDevice != [] else F.HEADER_SIZE + n <= |s.loose.value|
    case Abandon(t) => s.PhaseOf(t).Waiting?
    case Unlock(t) => s.PhaseOf(t) == Inside
  }

  /** A receive from a wire that is at the beginning of a packet. */
  function Received(s: State, t: nat, device: Device): State
    requires s.fromDevice != [] && s.PhaseOf(t).Waiting?
  {
    var reply, rest := s.fromDevice[0], s.fromDevice[1..];
    var after := s.(phases := s.phases[t := Inside]);
    if reply.Num() == s.PacketNum() then
      after.(fromDevice := rest, log := s.log + [Answered(t, s.PhaseOf(t).request, reply.request)])
    else
      after.(fromDevice := [], loose := Some(device(reply.request).body + Replies(rest, device)),
             log := s.log + [Mismatch(t)])
  }

  /** A receive from any bytes: the next forty are taken for a header, and n more if it is accepted. */
  function ReceivedLoose(s: State, t: nat, n: nat): State
    requires s.loose.Some? && F.HEADER_SIZE + n <= |s.loose.value|
  {
    var bytes := s.loose.value;
    var accepted := F.LongAt(bytes, 24) == s.PacketNum();
    s.(loose := Some(bytes[F.HEADER_SIZE + (if accepted then n else 0)..]),
       log := s.log + [if accepted then Misread(t) else Mismatch(t)], phases := s.phases[t := Inside])
  }

  function Next(s: State, step: Step, device: Device): State
    requires Enabled(s, step)
  {
    match step
    case Lock(t) => s.(mutex := Some(t), phases := s.phases[t := Inside])
    case Dispatch(t) =>
      var n := s.count + 1;
      s.(count := n, toDevice := s.toDevice + [Packet(n)], phases := s.phases[t := Waiting(n)])
    case Refuse(t) => s.(count := s.count + 1)
    case Serve =>
      if s.loose.None? then s.(toDevice := s.toDevice[1..], fromDevice := s.fromDevice + [s.toDevice[0]])
      else s.(toDevice := s.toDevice[1..], loose := Some(s.loose.value + Replies([s.toDevice[0]], device)))
    case Receive(t, n) => if s.loose.None? then Received(s, t, device) else ReceivedLoose(s, t, n)
    case Abandon(t) => s.(phases := s.phases[t := Inside])
    case Unlock(t) => s.(mutex := None, phases := s.phases[t := Outside])
  }

  /** The state after a run; None when some step was not enabled. */
  function Exec(steps: seq<Step>, device: Device): (r: Option<State>) {
    if steps == [] then Some(INIT)
    else
      var s := Exec(steps[..|steps| - 1], device);
      if s.Some? && Enabled(s.value, steps[|steps| - 1]) then Some(Next(s.value, steps[|steps| - 1], device)) else None
  }

  // ---------------------------------------------------------------- invariants

  /** The mutex is held exactly by the one thread that is inside a request function. */
  ghost predicate Exclusive(s: State) {
    forall t: nat :: s.mutex == Some(t) <==> s.PhaseOf(t) != Outside
  }

  /** At most one packet is in flight, it is the last one numbered, and the holder waits for it. */
  ghost predicate Orderly(s: State) {
    && s.loose.None? && |s.InFlight()| <= 1
    && (forall t: nat :: s.PhaseOf(t).Waiting? ==> s.PhaseOf(t).request == s.count && s.InFlight() == [Packet(s.count)])
    && (s.InFlight() != [] ==> s.mutex.Some? && s.PhaseOf(s.mutex.value).Waiting?)
  }

  /** Every reply a thread received answers the request it sent. */
  ghost predicate OwnReplies(log: seq<Event>) {
    forall i :: 0 <= i < |log| ==> log[i].Answered? && log[i].reply == log[i].request
  }

  predicate NeverAbandons(steps: seq<Step>) {
    forall i :: 0 <= i < |steps| ==> !steps[i].Abandon?
  }

  lemma {:induction false} StepExclusive(s: State, step: Step, device: Device)
    requires Exclusive(s) && Enabled(s, step)
    ensures Exclusive(Next(s, step, device))
  {
    var s' := Next(s, step, device);
    forall t: nat
      ensures s'.mutex == Some(t) <==> s'.PhaseOf(t) != Outside
    {
      assert s.mutex == Some(t) <==> s.PhaseOf(t) != Outside;
      if !step.Serve? {
        assert s.mutex == Some(step.t) <==> s.PhaseOf(step.t) != Outside;
      }
    }
  }

  /** The holder is the only thread that is not outside. */
  lemma {:induction false} OthersOutside(s: State, t: nat, u: nat)
    requires Exclusive(s) && s.PhaseOf(t) != Outside && u != t
    ensures s.PhaseOf(u) == Outside && s.mutex == Some(t)
  {
    assert s.mutex == Some(t);
    assert s.mutex == Some(u) <==> s.PhaseOf(u) != Outside;
  }

  lemma {:induction false} StepOrderly(s: State, step: Step, device: Device)
    requires Exclusive(s) && Orderly(s) && Enabled(s, step) && !step.Abandon?
    ensures Orderly(Next(s, step, device))
  {
    var s' := Next(s, step, device);
    match step {
      case Serve =>
        assert s'.InFlight() == s.InFlight();
        assert forall t: nat :: s'.PhaseOf(t) == s.PhaseOf(t);
      case Lock(t) =>
        forall u: nat | u != t ensures s'.PhaseOf(u) == s.PhaseOf(u) {}
      case Dispatch(t) =>
        assert s.InFlight() == [] by { InsideIdle(s, t); }
        assert s'.InFlight() == [Packet(s.count + 1)];
        forall u: nat | u != t ensures s'.PhaseOf(u) == Outside { OthersOutside(s, t, u); }
        OthersOutside(s, t, t + 1);
      case Receive(t, n) =>
        assert s.InFlight() == [Packet(s.count)] && s.fromDevice[0] == s.InFlight()[0];
        assert s'.InFlight() == [];
        forall u: nat | u != t ensures s'.PhaseOf(u) == Outside { OthersOutside(s, t, u); }
      case Refuse(t) =>
        InsideIdle(s, t);
        forall u: nat | u != t ensures s'.PhaseOf(u) == Outside { OthersOutside(s, t, u); }
      case Unlock(t) =>
        InsideIdle(s, t);
        forall u: nat | u != t ensures s'.PhaseOf(u) == Outside { OthersOutside(s, t, u); }
    }
  }

  /** While a thread is inside but not waiting, nothing is in flight. */
  lemma {:induction false} InsideIdle(s: State, t: nat)
    requires Exclusive(s) && Orderly(s) && s.PhaseOf(t) == Inside
    ensures s.InFlight() == [] && s.mutex == Some(t)
  {
    assert s.mutex == Some(t);
  }

  lemma {:induction false} StepOwnReplies(s: State, step: Step, device: Device)
    requires Exclusive(s) && Orderly(s) && OwnReplies(s.log) && Enabled(s, step)
    ensures OwnReplies(Next(s, step, device).log)
  {
    if step.Receive? {
      assert s.InFlight() == [Packet(s.count)];
      assert s.fromDevice[0] == s.InFlight()[0];
    }
  }

  /** Over every run in which no receive is abandoned: one thread at a time, at most one packet in
      flight, every reply goes to the thread that asked, and packet numbers never disagree. */
  lemma {:induction false} Safe(steps: seq<Step>, device: Device)
    requires Exec(steps, device).Some? && NeverAbandons(steps)
    ensures var s := Exec(steps, device).value; Exclusive(s) && Orderly(s) && OwnReplies(s.log)
  {
    if steps != [] {
      var front, step := steps[..|steps| - 1], steps[|steps| - 1];
      Safe(front, device);
      var s := Exec(front, device).value;
      StepExclusive(s, step, device);
      StepOrderly(s, step, device);
      StepOwnReplies(s, step, device);
    }
  }

  /** Every run keeps the mutex discipline, abandoned receives included. */
  lemma {:induction false} AlwaysExclusive(steps: seq<Step>, device: Device)
    requires Exec(steps, device).Some?
    ensures Exclusive(Exec(steps, device).value)
  {
    if steps != [] {
      AlwaysExclusive(steps[..|steps| - 1], device);
      StepExclusive(Exec(steps[..|steps| - 1], device).value, steps[|steps| - 1], device);
    }
  }

  // ---------------------------------------------------------------- abandoned receives

  predicate HasMismatch(log: seq<Event>) {
    exists i :: 0 <= i < |log| && log[i].Mismatch?
  }

  predicate Abandoned(steps: seq<Step>) {
    exists i :: 0 <= i < |steps| && steps[i].Abandon?
  }

  /** A packet is received after one was given up on. */
  predicate ReceivesAfterAbandon(steps: seq<Step>) {
    exists i, j :: 0 <= i < j < |steps| && steps[i].Abandon? && steps[j].Receive?
  }

  /** Requests in flight are numbered in order, none later than the last; the holder, if it waits,
      waits for the last, behind at least one that was given up on. */
  ghost predicate Stale(s: State) {
    var q := s.InFlight();
    && s.loose.None? && q != []
    && (forall i :: 0 <= i < |q| ==> q[i].request <= s.count)
    && (forall i, j :: 0 <= i < j < |q| ==> q[i].request < q[j].request)
    && (forall t: nat :: s.PhaseOf(t).Waiting? ==> |q| >= 2 && s.PhaseOf(t).request == s.count)
  }

  lemma {:induction false} StepStale(s: State, step: Step, device: Device)
    requires Exclusive(s) && Stale(s) && Enabled(s, step) && !step.Receive?
    ensures Stale(Next(s, step, device))
  {
    var s' := Next(s, step, device);
    var q, q' := s.InFlight(), s'.InFlight();
    match step {
      case Serve =>
        assert q' == q;
        forall u: nat ensures s'.PhaseOf(u) == s.PhaseOf(u) {}
      case Dispatch(t) =>
        assert q' == q + [Packet(s.count + 1)];
        forall u: nat | u != t ensures s'.PhaseOf(u) == Outside { OthersOutside(s, t, u); }
      case Lock(t) =>
        forall u: nat | u != t ensures s'.PhaseOf(u) == s.PhaseOf(u) {}
      case Refuse(t) =>
        forall u: nat | u != t ensures s'.PhaseOf(u) == Outside { OthersOutside(s, t, u); }
      case Abandon(t) =>
        forall u: nat | u != t ensures s'.PhaseOf(u) == Outside { OthersOutside(s, t, u); }
      case Unlock(t) =>
        forall u: nat | u != t ensures s'.PhaseOf(u) == Outside { OthersOutside(s, t, u); }
    }
  }

  lemma {:induction false} FirstAbandon(s: State, t: nat, device: Device)
    requires Exclusive(s) && Orderly(s) && Enabled(s, Abandon(t))
    ensures Stale(Next(s, Abandon(t), device))
  {
    var s' := Next(s, Abandon(t), device);
    assert s'.InFlight() == [Packet(s.count)];
    forall u: nat | u != t ensures s'.PhaseOf(u) == Outside { OthersOutside(s, t, u); }
  }

  lemma {:induction false} StaleReceive(s: State, t: nat, n: nat, device: Device)
    requires Stale(s) && Enabled(s, Receive(t, n)) && s.count < TWO_64
    ensures HasMismatch(Next(s, Receive(t, n), device).log)
  {
    var q := s.InFlight();
    assert s.fromDevice[0] == q[0];
    assert q[0].request < q[1].request <= s.count;
    assert Next(s, Receive(t, n), device).log[|s.log|] == Mismatch(t);
  }

  lemma {:induction false} CountBound(steps: seq<Step>, device: Device)
    requires Exec(steps, device).Some?
    ensures Exec(steps, device).value.count <= |steps|
  {
    if steps != [] {
      CountBound(steps[..|steps| - 1], device);
    }
  }

  /** Over every run of fewer than 2^64 steps: the packet-number mismatch exit is taken if and only
      if some packet is received after a receive was abandoned. */
  lemma {:induction false} MismatchExactly(steps: seq<Step>, device: Device)
    requires Exec(steps, device).Some? && |steps| < TWO_64
    ensures var s := Exec(steps, device).value;
      && (HasMismatch(s.log) <==> ReceivesAfterAbandon(steps))
      && (!Abandoned(steps) ==> Orderly(s) && OwnReplies(s.log))
      && (Abandoned(steps) && !ReceivesAfterAbandon(steps) ==> Stale(s))
  {
    if steps != [] {
      var n := |steps| - 1;
      var front, step := steps[..n], steps[n];
      MismatchExactly(front, device);
      AlwaysExclusive(front, device);
      CountBound(front, device);
      var s := Exec(front, device).value;
      Grows(steps);
      if !Abandoned(front) {
        StepOwnReplies(s, step, device);
        if step.Abandon? {
          FirstAbandon(s, step.t, device);
        } else {
          StepOrderly(s, step, device);
        }
      } else if !ReceivesAfterAbandon(front) {
        if step.Receive? {
          StaleReceive(s, step.t, step.n, device);
        } else {
          StepStale(s, step, device);
        }
      } else {
        KeepsMismatch(s, step, device);
      }
    }
  }

  lemma {:induction false} KeepsMismatch(s: State, step: Step, device: Device)
    requires Enabled(s, step) && HasMismatch(s.log)
    ensures HasMismatch(Next(s, step, device).log)
  {
    var i :| 0 <= i < |s.log| && s.log[i].Mismatch?;
    assert Next(s, step, device).log[i] == s.log[i];
  }

  /** How the two conditions on a run develop with its last step. */
  lemma {:induction false} Grows(steps: seq<Step>)
    requires steps != []
    ensures var front, step := steps[..|steps| - 1], steps[|steps| - 1];
      && (Abandoned(steps) <==> Abandoned(front) || step.Abandon?)
      && (ReceivesAfterAbandon(steps) <==> ReceivesAfterAbandon(front) || (Abandoned(front) && step.Receive?))
  {
    var n := |steps| - 1;
    var front := steps[..n];
    assert forall i :: 0 <= i < n ==> front[i] == steps[i];
    if Abandoned(front) && steps[n].Receive? {
      var i :| 0 <= i < n && front[i].Abandon?;
      assert steps[i].Abandon? && steps[n].Receive?;
    }
  }

  // ---------------------------------------------------------------- every packet accounted for

  function Dispatches(steps: seq<Step>): nat {
    if steps == [] then 0
    else Dispatches(steps[..|steps| - 1]) + (if steps[|steps| - 1].Dispatch? then 1 else 0)
  }

  function Refusals(steps: seq<Step>): nat {
    if steps == [] then 0
    else Refusals(steps[..|steps| - 1]) + (if steps[|steps| - 1].Refuse? then 1 else 0)
  }

  function Receives(steps: seq<Step>): nat {
    if steps == [] then 0
    else Receives(steps[..|steps| - 1]) + (if steps[|steps| - 1].Receive? then 1 else 0)
  }

  /** Over every run: a number is used by every packet sent and by every one refused; every receive ends in
      an answer, a mismatch or a misreading; and as long as no packet has been rejected, every packet sent
      has been received or is on its way. */
  lemma {:induction false} AllPackets(steps: seq<Step>, device: Device)
    requires Exec(steps, device).Some?
    ensures var s := Exec(steps, device).value;
      && s.count == Dispatches(steps) + Refusals(steps)
      && |s.log| == Receives(steps)
      && (s.loose.None? ==> Receives(steps) + |s.InFlight()| == Dispatches(steps))
  {
    if steps != [] {
      AllPackets(steps[..|steps| - 1], device);
    }
  }

  // ---------------------------------------------------------------- behind a rejected packet

  function OneMore(s: Option<State>, step: Step, device: Device): Option<State> {
    if s.Some? && Enabled(s.value, step) then Some(Next(s.value, step, device)) else None
  }

  lemma {:induction false} ExecMore(steps: seq<Step>, step: Step, device: Device)
    ensures Exec(steps + [step], device) == OneMore(Exec(steps, device), step, device)
  {
    assert (steps + [step])[..|steps|] == steps;
  }

  /** A request whose reply is not waited for, and the next one, which gets the reply to the first. */
  function AbandonedOnce(t: nat): seq<Step> {
    [Lock(t), Dispatch(t), Abandon(t)] + [Serve, Dispatch(t), Serve]
  }

  lemma {:induction false} StepMore(steps: seq<Step>, s: State, step: Step, device: Device)
    returns (longer: seq<Step>, t: State)
    requires Exec(steps, device) == Some(s) && Enabled(s, step)
    ensures longer == steps + [step] && t == Next(s, step, device) && Exec(longer, device) == Some(t)
  {
    ExecMore(steps, step, device);
    longer, t := steps + [step], Next(s, step, device);
  }

  lemma {:induction false} AbandonedState(t: nat, device: Device)
    ensures Exec(AbandonedOnce(t), device).Some?
    ensures var s := Exec(AbandonedOnce(t), device).value;
      && s.fromDevice == [Packet(1), Packet(2)] && s.toDevice == [] && s.loose == None && s.log == []
      && s.count == 2 && s.PhaseOf(t) == Waiting(2)
  {
    var s := INIT;
    var steps: seq<Step> := [];
    steps, s := StepMore(steps, s, Lock(t), device);
    steps, s := StepMore(steps, s, Dispatch(t), device);
    steps, s := StepMore(steps, s, Abandon(t), device);
    steps, s := StepMore(steps, s, Serve, device);
    steps, s := StepMore(steps, s, Dispatch(t), device);
    steps, s := StepMore(steps, s, Serve, device);
    assert steps == AbandonedOnce(t);
  }

  /** A run that takes the mismatch exit: the body of the rejected reply stays in front of the next. */
  lemma {:induction false} RejectedReply(t: nat, device: Device)
    ensures var r := Exec(AbandonedOnce(t) + [Receive(t, 0)], device);
      && r.Some? && r.value.log == [Mismatch(t)] && r.value.PhaseOf(t) == Inside && r.value.count == 2
      && r.value.loose == Some(device(1).body + Replies([Packet(2)], device))
  {
    AbandonedState(t, device);
    ExecMore(AbandonedOnce(t), Receive(t, 0), device);
  }

  /** The number that the next receive compares: the first bytes of the body if there are enough, the
      number of the next reply if there is no body, the length of its parameters behind a status. */
  lemma {:induction false} NumberRead(body: seq<byte>, p: Packet, device: Device)
    requires device(p.request).thisLength < TWO_64
    ensures var bytes := body + Replies([p], device);
      && |bytes| >= F.HEADER_SIZE
      && (|body| >= 32 ==> F.LongAt(bytes, 24) == F.LongAt(body, 24))
      && (|body| == 8 ==> F.LongAt(bytes, 24) == device(p.request).thisLength)
      && (body == [] ==> F.LongAt(bytes, 24) == p.Num())
  {
    var h := F.PacketBytes(Header(p, device));
    var bytes, reply := body + Replies([p], device), h + device(p.request).body;
    assert Replies([p], device) == reply + Replies([], device) == reply;
    F.HeaderWords(Header(p, device));
    ModUnique(p.Num(), TWO_64, 0, p.Num());
    Le64RoundTrip(p.Num());
    Le64RoundTrip(device(p.request).thisLength);
    if |body| >= 32 {
      assert bytes[24..32] == body[24..32];
    } else if |body| == 8 {
      assert bytes[24..32] == h[16..24];
    } else if body == [] {
      assert bytes[24..32] == h[24..32];
    }
  }

  /** The receive behind a rejected reply is misled if and only if the body of that reply has the number
      expected where a header has its own; behind a status, or a reply without a body, it fails. */
  lemma {:induction false} MisreadExactly(t: nat, n: nat, device: Device)
    requires device(2).thisLength < TWO_64 && F.HEADER_SIZE <= device(2).thisLength
    requires F.HEADER_SIZE + n <= |device(1).body + Replies([Packet(2)], device)|
    ensures var steps, body := AbandonedOnce(t) + [Receive(t, 0)] + [Dispatch(t)] + [Receive(t, n)], device(1).body;
      var r := Exec(steps, device);
      && r.Some? && |r.value.log| == 2
      && (|body| >= 32 ==> (r.value.log[1] == Misread(t) <==> F.LongAt(body, 24) == 3))
      && (|body| == 8 || body == [] ==> r.value.log[1] == Mismatch(t))
  {
    RejectedReply(t, device);
    var steps := AbandonedOnce(t) + [Receive(t, 0)];
    ExecMore(steps, Dispatch(t), device);
    ExecMore(steps + [Dispatch(t)], Receive(t, n), device);
    NumberRead(device(1).body, Packet(2), device);
  }
}
