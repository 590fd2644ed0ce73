/** The mobilesync client: a data class that is set while a session runs, a direction that turns once. */
module MobileSync {
  import opened Options

  datatype Direction = DeviceToComputer | ComputerToDevice

  datatype Error = Success | InvalidArg | PlistError | MuxError | SyncRefused | Cancelled | WrongDirection
    | NotReady | Unknown

  const READY := "SDMessageDeviceReadyToReceiveChanges"
  const CANCEL := "SDMessageCancelSession"
  const REFUSE := "SDMessageRefuseToSyncDataClassWithComputer"
  const FINISHED := "SDMessageDeviceFinishedSession"
  const REMAP := "SDMessageRemapRecordIdentifiers"
  const PROCESS_CHANGES := "SDMessageProcessChanges"
  const CLEARING := "SDMessageDeviceWillClearAllRecords"

  /** What happens, in order: messages sent and received, pings sent, and the moments the two client
      fields change. */
  datatype Event =
    | Sent(message: string)
    | Got(message: string)
    | Pinged
    | Opened(dataClass: string)
    | Closed
    | Turned

  /** What the link does during one call: whether a message goes out, what comes back (None when
      receiving fails; no type when the reply has none), whether a ping goes out. */
  datatype Link = Link(sends: bool, reply: Option<Option<string>>, pings: bool)

  datatype Session = Session(dataClass: Option<string>, direction: Direction, log: seq<Event>)

  function Emit(s: Session, e: Event): Session {
    var log := s.log + [e];
    match e
    case Opened(dc) => Session(Some(dc), DeviceToComputer, log)
    case Closed => Session(None, DeviceToComputer, log)
    case Turned => Session(s.dataClass, ComputerToDevice, log)
    case _ => s.(log := log)
  }

  const FRESH := Session(None, DeviceToComputer, [])

  /** Send a message; the caller learns whether it went out. */
  function Send(s: Session, link: Link, message: string): Session {
    if link.sends then Emit(s, Sent(message)) else s
  }

  /** Receive a reply: an error, or its type. */
  function Receive(s: Session, link: Link): (Session, Error, string) {
    match link.reply
    case None => (s, MuxError, "")
    case Some(None) => (s, PlistError, "")
    case Some(Some(kind)) => (Emit(s, Got(kind)), Success, kind)
  }

  class MobileSyncClient {
    var dataClass: Option<string>
    var direction: Direction
    var log: seq<Event>

    constructor ()
      ensures Now() == FRESH
    {
      dataClass, direction, log := None, DeviceToComputer, [];
    }

    function Now(): Session
      reads this
    {
      Session(dataClass, direction, log)
    }

    method DoSend(link: Link, message: string) returns (err: Error)
      modifies this`log
      ensures Now() == Send(old(Now()), link, message) && err == if link.sends then Success else MuxError
    {
      if !link.sends {
        return MuxError;
      }
      log := log + [Sent(message)];
      return Success;
    }

    method DoReceive(link: Link) returns (err: Error, kind: string)
      modifies this`log
      ensures (Now(), err, kind) == Receive(old(Now()), link)
    {
      match link.reply {
        case None => return MuxError, "";
        case Some(None) => return PlistError, "";
        case Some(Some(k)) =>
          log := log + [Got(k)];
          return Success, k;
      }
    }

    /** mobilesync_start.  syncTypeOk: the reply carries what the caller asked to be told.  The data
        class is set whatever happened after the argument check. */
    method Start(dc: Option<string>, anchors: bool, link: Link, syncTypeOk: bool) returns (err: Error)
      modifies this
      ensures (Now(), err) == Step(old(Now()), Call.Start(dc, anchors, link, syncTypeOk))
    {
      if dataClass.Some? || dc.None? || !anchors {
        return InvalidArg;
      }
      err := DoSend(link, "SDMessageSyncDataClassWithDevice");
      if err == Success {
        var kind;
        err, kind := DoReceive(link);
        if err == Success {
          if kind == REFUSE {
            err := SyncRefused;
          } else if kind == CANCEL {
            err := Cancelled;
          } else if !syncTypeOk {
            err := PlistError;
          }
        }
      }
      log := log + [Opened(dc.value)];
      dataClass := dc;
      direction := DeviceToComputer;
    }

    /** mobilesync_finish */
    method Finish(link: Link) returns (err: Error)
      modifies this
      ensures (Now(), err) == Step(old(Now()), Call.Finish(link))
    {
      if dataClass == None {
        return InvalidArg;
      }
      err := DoSend(link, "SDMessageFinishSessionOnDevice");
      if err == Success {
        var kind;
        err, kind := DoReceive(link);
        if err == Success && kind == FINISHED {
          err := Success;
        }
      }
      log := log + [Closed];
      dataClass := None;
      direction := DeviceToComputer;
    }

    /** mobilesync_ready_to_send_changes_from_computer */
    method ReadyToSendChanges(link: Link) returns (err: Error)
      modifies this
      ensures (Now(), err) == Step(old(Now()), Call.ReadyToSendChanges(link))
    {
      if dataClass == None {
        return InvalidArg;
      }
      if direction != DeviceToComputer {
        return WrongDirection;
      }
      var kind;
      err, kind := DoReceive(link);
      if err != Success {
        return;
      }
      if kind == CANCEL {
        return Cancelled;
      }
      if kind != READY {
        return NotReady;
      }
      if !link.pings {
        return MuxError;
      }
      log := log + [Pinged];
      log := log + [Turned];
      direction := ComputerToDevice;
      return Success;
    }

    /** mobilesync_send_changes */
    method SendChanges(entities: bool, link: Link) returns (err: Error)
      modifies this
      ensures (Now(), err) == Step(old(Now()), Call.SendChanges(entities, link))
    {
      if dataClass == None || !entities {
        return InvalidArg;
      }
      if direction != ComputerToDevice {
        return WrongDirection;
      }
      err := DoSend(link, PROCESS_CHANGES);
    }

    /** mobilesync_remap_identifiers */
    method RemapIdentifiers(link: Link) returns (err: Error)
      modifies this
      ensures (Now(), err) == Step(old(Now()), Call.RemapIdentifiers(link))
    {
      if dataClass == None {
        return InvalidArg;
      }
      if direction == DeviceToComputer {
        return WrongDirection;
      }
      var kind;
      err, kind := DoReceive(link);
      if err != Success {
        return;
      }
      if kind == CANCEL {
        return Cancelled;
      }
      if kind != REMAP {
        return PlistError;
      }
      return Success;
    }

    /** mobilesync_cancel */
    method Cancel(reason: bool, link: Link) returns (err: Error)
      modifies this
      ensures (Now(), err) == Step(old(Now()), Call.Cancel(reason, link))
    {
      if dataClass == None || !reason {
        return InvalidArg;
      }
      err := DoSend(link, CANCEL);
      log := log + [Closed];
      dataClass := None;
      direction := DeviceToComputer;
    }

    /** mobilesync_get_records and mobilesync_acknowledge_changes_from_device: one message each. */
    method Notify(message: string, link: Link) returns (err: Error)
      requires message != PROCESS_CHANGES
      modifies this
      ensures (Now(), err) == Step(old(Now()), Call.Notify(message, link))
    {
      if dataClass == None {
        return InvalidArg;
      }
      err := DoSend(link, message);
    }

    /** mobilesync_receive_changes */
    method ReceiveChanges(link: Link) returns (err: Error)
      modifies this
      ensures (Now(), err) == Step(old(Now()), Call.ReceiveChanges(link))
    {
      if dataClass == None {
        return InvalidArg;
      }
      var kind;
      err, kind := DoReceive(link);
      if err == Success && kind == CANCEL {
        return Cancelled;
      }
    }

    /** mobilesync_clear_all_records_on_device */
    method ClearAllRecords(link: Link) returns (err: Error)
      modifies this
      ensures (Now(), err) == Step(old(Now()), Call.ClearAllRecords(link))
    {
      if dataClass == None {
        return InvalidArg;
      }
      err := DoSend(link, "SDMessageClearAllRecordsOnDevice");
      if err != Success {
        return;
      }
      var kind;
      err, kind := DoReceive(link);
      if err != Success {
        return;
      }
      if kind == CANCEL {
        return Cancelled;
      }
      if kind != CLEARING {
        return PlistError;
      }
    }
  }

  // ---------------------------------------------------------------- the calls as functions

  datatype Call =
    | Start(dc: Option<string>, anchors: bool, link: Link, syncTypeOk: bool)
    | Finish(link: Link)
    | ReadyToSendChanges(link: Link)
    | SendChanges(entities: bool, link: Link)
    | RemapIdentifiers(link: Link)
    | Cancel(reason: bool, link: Link)
    | Notify(message: string, link: Link)
    | ReceiveChanges(link: Link)
    | ClearAllRecords(link: Link)

  /** Send, then receive if that went out. */
  function Exchange(s: Session, link: Link, message: string): (Session, Error, string) {
    if link.sends then Receive(Send(s, link, message), link) else (s, MuxError, "")
  }

  function Step(s: Session, c: Call): (Session, Error) {
    match c
    case Start(dc, anchors, link, syncTypeOk) =>
      if s.dataClass.Some? || dc.None? || !anchors then (s, InvalidArg)
      else
        var (t, err, kind) := Exchange(s, link, "SDMessageSyncDataClassWithDevice");
        (Emit(t, Opened(dc.value)),
         if err != Success then err else if kind == REFUSE then SyncRefused else if kind == CANCEL then Cancelled
         else if !syncTypeOk then PlistError else Success)
    case Finish(link) =>
      if s.dataClass.None? then (s, InvalidArg)
      else
        var (t, err, kind) := Exchange(s, link, "SDMessageFinishSessionOnDevice");
        (Emit(t, Closed), err)
    case ReadyToSendChanges(link) =>
      if s.dataClass.None? then (s, InvalidArg)
      else if s.direction != DeviceToComputer then (s, WrongDirection)
      else
        var (t, err, kind) := Receive(s, link);
        if err != Success then (t, err)
        else if kind == CANCEL then (t, Cancelled)
        else if kind != READY then (t, NotReady)
        else if !link.pings then (t, MuxError)
        else (Emit(Emit(t, Pinged), Turned), Success)
    case SendChanges(entities, link) =>
      if s.dataClass.None? || !entities then (s, InvalidArg)
      else if s.direction != ComputerToDevice then (s, WrongDirection)
      else (Send(s, link, PROCESS_CHANGES), if link.sends then Success else MuxError)
    case RemapIdentifiers(link) =>
      if s.dataClass.None? then (s, InvalidArg)
      else if s.direction == DeviceToComputer then (s, WrongDirection)
      else
        var (t, err, kind) := Receive(s, link);
        (t, if err != Success then err else if kind == CANCEL then Cancelled
            else if kind != REMAP then PlistError else Success)
    case Cancel(reason, link) =>
      if s.dataClass.None? || !reason then (s, InvalidArg)
      else (Emit(Send(s, link, CANCEL), Closed), if link.sends then Success else MuxError)
    case Notify(message, link) =>
      if s.dataClass.None? then (s, InvalidArg)
      else (Send(s, link, message), if link.sends then Success else MuxError)
    case ReceiveChanges(link) =>
      if s.dataClass.None? then (s, InvalidArg)
      else
        var (t, err, kind) := Receive(s, link);
        (t, if err == Success && kind == CANCEL then Cancelled else err)
    case ClearAllRecords(link) =>
      if s.dataClass.None? then (s, InvalidArg)
      else
        var (t, err, kind) := Exchange(s, link, "SDMessageClearAllRecordsOnDevice");
        (t, if err != Success then err else if kind == CANCEL then Cancelled
            else if kind != CLEARING then PlistError else Success)
  }

  /** Only mobilesync_send_changes sends changes. */
  predicate Proper(c: Call) {
    c.Notify? ==> c.message != PROCESS_CHANGES
  }

  /** The session after a sequence of calls on a new client. */
  function After(calls: seq<Call>): Session {
    if calls == [] then FRESH else Step(After(calls[..|calls| - 1]), calls[|calls| - 1]).0
  }

  // ---------------------------------------------------------------- invariants

  predicate Boundary(e: Event) {
    e.Opened? || e.Closed?
  }

  /** Nothing opens or closes strictly between a and b. */
  ghost predicate SameSession(log: seq<Event>, a: int, b: int) {
    forall k {:trigger log[k]} :: a < k < b && 0 <= k < |log| ==> !Boundary(log[k])
  }

  /** A session with this data class was opened at o and is still open at i. */
  ghost predicate OpenSince(log: seq<Event>, o: int, i: int) {
    0 <= o < i <= |log| && log[o].Opened? && SameSession(log, o, i)
  }

  /** At t the direction turned, in the session opened at o, after the device had said in this session
      that it was ready and the ping had gone out. */
  ghost predicate GoodTurn(log: seq<Event>, o: int, t: int) {
    && OpenSince(log, o, t) && o + 2 < t < |log|
    && log[t] == Turned && log[t - 1] == Pinged && log[t - 2] == Got(READY)
  }

  /** At i the session opened at o is still open, and its direction turned at t. */
  ghost predicate AllowedBy(log: seq<Event>, o: int, t: int, i: int) {
    GoodTurn(log, o, t) && t < i && OpenSince(log, o, i)
  }

  ghost predicate ChangesAllowed(log: seq<Event>) {
    forall i :: 0 <= i < |log| && log[i] == Sent(PROCESS_CHANGES) ==> exists o, t :: AllowedBy(log, o, t, i)
  }

  ghost predicate TurnsAllowed(log: seq<Event>) {
    forall t :: 0 <= t < |log| && log[t] == Turned ==> exists o :: GoodTurn(log, o, t)
  }

  ghost predicate OneTurn(log: seq<Event>) {
    forall a, b :: 0 <= a < b < |log| && log[a] == Turned && log[b] == Turned ==> !SameSession(log, a, b)
  }

  ghost predicate NoNesting(log: seq<Event>) {
    forall a, b :: 0 <= a < b < |log| && log[a].Opened? && log[b].Opened? ==> exists k :: a < k < b && log[k] == Closed
  }

  /** Without a data class every session has been closed, with one a session with it is open. */
  ghost predicate ClassMatches(log: seq<Event>, dataClass: Option<string>) {
    match dataClass
    case None => forall a :: 0 <= a < |log| && log[a].Opened? ==> exists k :: a < k < |log| && log[k] == Closed
    case Some(dc) => exists o :: OpenSince(log, o, |log|) && log[o] == Opened(dc)
  }

  /** The direction has turned exactly if the session under way has. */
  ghost predicate DirectionMatches(log: seq<Event>, direction: Direction) {
    match direction
    case ComputerToDevice => exists o, t :: AllowedBy(log, o, t, |log|)
    case DeviceToComputer => forall a :: 0 <= a < |log| && log[a] == Turned ==> !SameSession(log, a, |log|)
  }

  /** How the fields reflect the log. */
  ghost predicate FieldsMatch(s: Session) {
    && (s.dataClass == None ==> s.direction == DeviceToComputer)
    && ClassMatches(s.log, s.dataClass) && DirectionMatches(s.log, s.direction)
  }

  ghost predicate Inv(s: Session) {
    FieldsMatch(s) && ChangesAllowed(s.log) && TurnsAllowed(s.log) && OneTurn(s.log) && NoNesting(s.log)
  }

  /** Events that leave the fields alone. */
  predicate Plain(s: Session, e: Event) {
    match e
    case Sent(m) => m == PROCESS_CHANGES ==> s.direction == ComputerToDevice
    case Got(_) => true
    case Pinged => true
    case _ => false
  }

  // ---------------------------------------------------------------- one event more

  lemma {:induction false} SameSessionGrows(log: seq<Event>, e: Event, a: int, b: int)
    requires a < |log|
    ensures b <= |log| ==> (SameSession(log + [e], a, b) <==> SameSession(log, a, b))
    ensures SameSession(log + [e], a, |log| + 1) <==> SameSession(log, a, |log|) && !Boundary(e)
  {
    var l := log + [e];
    assert l[|log|] == e;
    assert forall k :: 0 <= k < |log| ==> l[k] == log[k];
  }

  lemma {:induction false} OpenGrows(log: seq<Event>, e: Event, o: int, i: int)
    requires OpenSince(log, o, i)
    ensures OpenSince(log + [e], o, i)
    ensures i == |log| && !Boundary(e) ==> OpenSince(log + [e], o, |log| + 1)
  {
    assert (log + [e])[o] == log[o];
    SameSessionGrows(log, e, o, i);
  }

  lemma {:induction false} TurnGrows(log: seq<Event>, e: Event, o: int, t: int)
    requires GoodTurn(log, o, t)
    ensures GoodTurn(log + [e], o, t)
  {
    OpenGrows(log, e, o, t);
    var l := log + [e];
    assert l[t] == log[t] && l[t - 1] == log[t - 1] && l[t - 2] == log[t - 2];
  }

  lemma {:induction false} AllowedGrows(log: seq<Event>, e: Event, o: int, t: int, i: int)
    requires AllowedBy(log, o, t, i)
    ensures AllowedBy(log + [e], o, t, i)
    ensures i == |log| && !Boundary(e) ==> AllowedBy(log + [e], o, t, |log| + 1)
  {
    TurnGrows(log, e, o, t);
    OpenGrows(log, e, o, i);
  }

  lemma {:induction false} ChangesStayAllowed(log: seq<Event>, e: Event)
    requires ChangesAllowed(log)
    requires e == Sent(PROCESS_CHANGES) ==> exists o, t :: AllowedBy(log, o, t, |log|)
    ensures ChangesAllowed(log + [e])
  {
    var l := log + [e];
    forall i | 0 <= i < |l| && l[i] == Sent(PROCESS_CHANGES)
      ensures exists o, t :: AllowedBy(l, o, t, i)
    {
      assert i < |log| ==> log[i] == l[i];
      StaysAllowed(log, e, i);
    }
  }

  lemma {:induction false} StaysAllowed(log: seq<Event>, e: Event, i: int)
    requires exists o, t :: AllowedBy(log, o, t, i)
    ensures exists o, t :: AllowedBy(log + [e], o, t, i)
  {
    var o, t :| AllowedBy(log, o, t, i);
    AllowedGrows(log, e, o, t, i);
  }

  lemma {:induction false} TurnsStayAllowed(log: seq<Event>, e: Event)
    requires TurnsAllowed(log)
    requires e == Turned ==> exists o :: GoodTurn(log + [e], o, |log|)
    ensures TurnsAllowed(log + [e])
  {
    var l := log + [e];
    forall t | 0 <= t < |l| && l[t] == Turned
      ensures exists o :: GoodTurn(l, o, t)
    {
      if t < |log| {
        assert log[t] == l[t];
        var o :| GoodTurn(log, o, t);
        TurnGrows(log, e, o, t);
      }
    }
  }

  lemma {:induction false} TurnsStayApart(log: seq<Event>, e: Event)
    requires OneTurn(log)
    requires e == Turned ==> forall a :: 0 <= a < |log| && log[a] == Turned ==> !SameSession(log, a, |log|)
    ensures OneTurn(log + [e])
  {
    var l := log + [e];
    forall a, b | 0 <= a < b < |l| && l[a] == Turned && l[b] == Turned
      ensures !SameSession(l, a, b)
    {
      SameSessionGrows(log, e, a, b);
    }
  }

  lemma {:induction false} NestingStaysAbsent(log: seq<Event>, e: Event)
    requires NoNesting(log)
    requires e.Opened? ==> forall a :: 0 <= a < |log| && log[a].Opened? ==>
      exists k :: a < k < |log| && log[k] == Closed
    ensures NoNesting(log + [e])
  {
    var l := log + [e];
    forall a, b | 0 <= a < b < |l| && l[a].Opened? && l[b].Opened?
      ensures exists k :: a < k < b && l[k] == Closed
    {
      assert log[a] == l[a];
      if b < |log| {
        assert log[b] == l[b];
      }
      var k :| a < k < b && log[k] == Closed;
      assert l[k] == Closed;
    }
  }

  lemma {:induction false} EmitPlain(s: Session, e: Event)
    requires Inv(s) && Plain(s, e)
    ensures Inv(Emit(s, e))
  {
    ChangesStayAllowed(s.log, e);
    TurnsStayApart(s.log, e);
    NestingStaysAbsent(s.log, e);
    TurnsStayAllowed(s.log, e);
    DirectionStays(s.log, s.direction, e);
    ClassStays(s.log, s.dataClass, e);
  }

  lemma {:induction false} DirectionStays(log: seq<Event>, direction: Direction, e: Event)
    requires DirectionMatches(log, direction) && !Boundary(e) && e != Turned
    ensures DirectionMatches(log + [e], direction)
  {
    var l := log + [e];
    match direction
    case ComputerToDevice =>
      var o, t :| AllowedBy(log, o, t, |log|);
      AllowedGrows(log, e, o, t, |log|);
    case DeviceToComputer =>
      forall a | 0 <= a < |l| && l[a] == Turned ensures !SameSession(l, a, |l|) {
        assert log[a] == Turned;
        SameSessionGrows(log, e, a, |l|);
      }
  }

  lemma {:induction false} ClassStays(log: seq<Event>, dataClass: Option<string>, e: Event)
    requires ClassMatches(log, dataClass) && !Boundary(e)
    ensures ClassMatches(log + [e], dataClass)
  {
    match dataClass
    case None => ClosedStays(log, e);
    case Some(dc) =>
      var o :| OpenSince(log, o, |log|) && log[o] == Opened(dc);
      OpenGrows(log, e, o, |log|);
      assert (log + [e])[o] == log[o];
  }

  lemma {:induction false} ClosedStays(log: seq<Event>, e: Event)
    requires !e.Opened?
    requires forall a :: 0 <= a < |log| && log[a].Opened? ==> exists k :: a < k < |log| && log[k] == Closed
    ensures var l := log + [e];
      forall a :: 0 <= a < |l| && l[a].Opened? ==> exists k :: a < k < |l| && l[k] == Closed
  {
    var l := log + [e];
    forall a | 0 <= a < |l| && l[a].Opened?
      ensures exists k :: a < k < |l| && l[k] == Closed
    {
      assert log[a].Opened?;
      var k :| a < k < |log| && log[k] == Closed;
      assert l[k] == Closed;
    }
  }

  lemma {:induction false} EmitOpened(s: Session, dc: string)
    requires Inv(s) && s.dataClass == None
    ensures Inv(Emit(s, Opened(dc)))
  {
    var e := Opened(dc);
    ChangesStayAllowed(s.log, e);
    TurnsStayApart(s.log, e);
    TurnsStayAllowed(s.log, e);
    NestingStaysAbsent(s.log, e);
    BoundarySeparates(s.log, e);
    assert OpenSince(s.log + [e], |s.log|, |s.log| + 1);
  }

  lemma {:induction false} EmitClosed(s: Session)
    requires Inv(s)
    ensures Inv(Emit(s, Closed))
  {
    ChangesStayAllowed(s.log, Closed);
    TurnsStayApart(s.log, Closed);
    TurnsStayAllowed(s.log, Closed);
    NestingStaysAbsent(s.log, Closed);
    BoundarySeparates(s.log, Closed);
    var l := s.log + [Closed];
    assert l[|s.log|] == Closed;
  }

  lemma {:induction false} BoundarySeparates(log: seq<Event>, e: Event)
    requires Boundary(e)
    ensures var l := log + [e]; forall a :: 0 <= a < |l| && l[a] == Turned ==> !SameSession(l, a, |l|)
  {
    var l := log + [e];
    assert l[|log|] == e;
  }

  lemma {:induction false} EmitTurned(s: Session)
    requires Inv(s) && s.dataClass.Some? && s.direction == DeviceToComputer
    requires |s.log| >= 2 && s.log[|s.log| - 1] == Pinged && s.log[|s.log| - 2] == Got(READY)
    ensures Inv(Emit(s, Turned))
  {
    TurnIsGood(s.log, s.dataClass.value);
    ChangesStayAllowed(s.log, Turned);
    TurnsStayAllowed(s.log, Turned);
    TurnsStayApart(s.log, Turned);
    NestingStaysAbsent(s.log, Turned);
    ClassStays(s.log, s.dataClass, Turned);
  }

  lemma {:induction false} TurnIsGood(log: seq<Event>, dc: string)
    requires ClassMatches(log, Some(dc))
    requires |log| >= 2 && log[|log| - 1] == Pinged && log[|log| - 2] == Got(READY)
    ensures var l := log + [Turned];
      (exists o :: GoodTurn(l, o, |log|)) && DirectionMatches(l, ComputerToDevice)
  {
    var l, t := log + [Turned], |log|;
    var o :| OpenSince(log, o, t) && log[o] == Opened(dc);
    OpenGrows(log, Turned, o, t);
    assert l[t] == Turned && l[t - 1] == Pinged && l[t - 2] == Got(READY) && l[o] == log[o];
    assert GoodTurn(l, o, t) && AllowedBy(l, o, t, t + 1);
  }

  // ---------------------------------------------------------------- one call more

  lemma {:induction false} SendKeeps(s: Session, link: Link, message: string)
    requires Inv(s) && (message == PROCESS_CHANGES ==> s.direction == ComputerToDevice)
    ensures Inv(Send(s, link, message))
  {
    if link.sends {
      EmitPlain(s, Sent(message));
    }
  }

  lemma {:induction false} ReceiveKeeps(s: Session, link: Link)
    requires Inv(s)
    ensures Inv(Receive(s, link).0)
  {
    match link.reply
    case Some(Some(kind)) => EmitPlain(s, Got(kind));
    case _ =>
  }

  lemma {:induction false} ExchangeKeeps(s: Session, link: Link, message: string)
    requires Inv(s) && message != PROCESS_CHANGES
    ensures Inv(Exchange(s, link, message).0)
    ensures Exchange(s, link, message).0.dataClass == s.dataClass
  {
    SendKeeps(s, link, message);
    ReceiveKeeps(Send(s, link, message), link);
  }

  lemma {:induction false} ReadyKeeps(s: Session, link: Link)
    requires Inv(s)
    ensures Inv(Step(s, ReadyToSendChanges(link)).0)
  {
    ReceiveKeeps(s, link);
    var (t, err, kind) := Receive(s, link);
    if s.dataClass.Some? && s.direction == DeviceToComputer && err == Success && kind == READY && link.pings {
      EmitPlain(t, Pinged);
      EmitTurned(Emit(t, Pinged));
    }
  }

  lemma {:induction false} StartKeeps(s: Session, dc: Option<string>, anchors: bool, link: Link, syncTypeOk: bool)
    requires Inv(s)
    ensures Inv(Step(s, Start(dc, anchors, link, syncTypeOk)).0)
  {
    ExchangeKeeps(s, link, "SDMessageSyncDataClassWithDevice");
    if s.dataClass == None && dc.Some? && anchors {
      EmitOpened(Exchange(s, link, "SDMessageSyncDataClassWithDevice").0, dc.value);
    }
  }

  lemma {:induction false} FinishKeeps(s: Session, link: Link)
    requires Inv(s)
    ensures Inv(Step(s, Finish(link)).0)
  {
    ExchangeKeeps(s, link, "SDMessageFinishSessionOnDevice");
    EmitClosed(Exchange(s, link, "SDMessageFinishSessionOnDevice").0);
  }

  lemma {:induction false} CancelKeeps(s: Session, reason: bool, link: Link)
    requires Inv(s)
    ensures Inv(Step(s, Cancel(reason, link)).0)
  {
    SendKeeps(s, link, CANCEL);
    EmitClosed(Send(s, link, CANCEL));
  }

  lemma {:induction false} SendChangesKeeps(s: Session, entities: bool, link: Link)
    requires Inv(s)
    ensures Inv(Step(s, SendChanges(entities, link)).0)
  {
    if s.direction == ComputerToDevice {
      SendKeeps(s, link, PROCESS_CHANGES);
    }
  }

  lemma {:induction false} ClearKeeps(s: Session, link: Link)
    requires Inv(s)
    ensures Inv(Step(s, ClearAllRecords(link)).0)
  {
    ExchangeKeeps(s, link, "SDMessageClearAllRecordsOnDevice");
  }

  lemma {:induction false} NotifyKeeps(s: Session, message: string, link: Link)
    requires Inv(s) && Proper(Notify(message, link))
    ensures Inv(Step(s, Notify(message, link)).0)
  {
    SendKeeps(s, link, message);
  }

  lemma {:induction false} RemapKeeps(s: Session, link: Link)
    requires Inv(s)
    ensures Inv(Step(s, RemapIdentifiers(link)).0) && Inv(Step(s, ReceiveChanges(link)).0)
  {
    ReceiveKeeps(s, link);
  }

  lemma {:induction false} StepKeeps(s: Session, c: Call)
    requires Inv(s) && Proper(c)
    ensures Inv(Step(s, c).0)
  {
    match c
    case Start(dc, anchors, link, syncTypeOk) => StartKeeps(s, dc, anchors, link, syncTypeOk);
    case Finish(link) => FinishKeeps(s, link);
    case ReadyToSendChanges(link) => ReadyKeeps(s, link);
    case SendChanges(entities, link) => SendChangesKeeps(s, entities, link);
    case RemapIdentifiers(link) => RemapKeeps(s, link);
    case Cancel(reason, link) => CancelKeeps(s, reason, link);
    case Notify(message, link) => NotifyKeeps(s, message, link);
    case ReceiveChanges(link) => RemapKeeps(s, link);
    case ClearAllRecords(link) => ClearKeeps(s, link);
  }

  /** Over all sequences of calls and all behaviours of the device: without a data class the direction
      is device-to-computer, with one a session with this class is open; every changes message, and
      every turn, lies in an open session, behind a ready message and a ping of that session; a session
      turns at most once; sessions do not nest. */
  lemma {:induction false} AllRuns(calls: seq<Call>)
    requires forall i :: 0 <= i < |calls| ==> Proper(calls[i])
    ensures var s := After(calls);
      && (s.dataClass == None ==> s.direction == DeviceToComputer)
      && ChangesAllowed(s.log) && TurnsAllowed(s.log) && OneTurn(s.log) && NoNesting(s.log) && Inv(s)
  {
    if calls != [] {
      var front := calls[..|calls| - 1];
      AllRuns(front);
      StepKeeps(After(front), calls[|calls| - 1]);
    }
  }

  /** The documentation calls a started session one that the device agreed to.  The code opens it as
      soon as the arguments pass, whatever the device answers. */
  lemma {:induction false} StartOpensAnyway(s: Session, dc: string, link: Link, ok: bool)
    requires s.dataClass == None
    ensures Step(s, Start(Some(dc), true, link, ok)).0.dataClass == Some(dc)
    ensures link.sends && link.reply == Some(Some(REFUSE)) ==> Step(s, Start(Some(dc), true, link, ok)).1 == SyncRefused
  {
  }
}
