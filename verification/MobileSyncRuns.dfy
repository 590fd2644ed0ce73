/** Runs of calls on a mobilesync client, counted: which calls are refused, what each of the others puts into
    the log, and what it reports. */
module MobileSyncRuns {
  import opened Options
  import opened MobileSync

  function Times(log: seq<Event>, e: Event): (n: nat) {
    if log == [] then 0 else Times(log[..|log| - 1], e) + (if log[|log| - 1] == e then 1 else 0)
  }

  /** The message a call has to send. */
  function MessageOf(c: Call): Option<string> {
    match c
    case Start(_, _, _, _) => Some("SDMessageSyncDataClassWithDevice")
    case Finish(_) => Some("SDMessageFinishSessionOnDevice")
    case SendChanges(_, _) => Some("SDMessageProcessChanges")
    case Cancel(_, _) => Some("SDMessageCancelSession")
    case Notify(message, _) => Some(message)
    case ClearAllRecords(_) => Some("SDMessageClearAllRecordsOnDevice")
    case _ => None
  }

  /** The call waits for a message of the device. */
  predicate Awaits(c: Call) {
    c.Start? || c.Finish? || c.ReadyToSendChanges? || c.RemapIdentifiers? || c.ReceiveChanges? || c.ClearAllRecords?
  }

  /** What the call sends, if it has to send, goes out. */
  predicate GoesOut(c: Call) {
    MessageOf(c).Some? ==> c.link.sends
  }

  /** The device says that it is ready, and the ping goes out. */
  predicate Readies(c: Call) {
    c.ReadyToSendChanges? && c.link.reply == Some(Some("SDMessageDeviceReadyToReceiveChanges")) && c.link.pings
  }

  /** The call, if it is not refused, makes this happen. */
  predicate Causes(c: Call, e: Event) {
    match e
    case Sent(message) => MessageOf(c) == Some(message) && c.link.sends
    case Got(kind) => Awaits(c) && GoesOut(c) && c.link.reply == Some(Some(kind))
    case Pinged => Readies(c)
    case Turned => Readies(c)
    case Opened(dc) => c.Start? && c.dc == Some(dc)
    case Closed => c.Finish? || c.Cancel?
  }

  predicate Refused(err: Error) {
    err == InvalidArg || err == WrongDirection
  }

  /** The number of calls of a run that make this happen. */
  function Caused(calls: seq<Call>, e: Event): (n: nat) {
    if calls == [] then 0
    else
      var front, c := calls[..|calls| - 1], calls[|calls| - 1];
      Caused(front, e) + (if !Refused(Step(After(front), c).1) && Causes(c, e) then 1 else 0)
  }

  lemma {:induction false} OneMore(log: seq<Event>, e: Event, f: Event)
    ensures Times(log + [e], f) == Times(log, f) + (if e == f then 1 else 0)
  {
    assert (log + [e])[..|log|] == log;
  }

  lemma {:induction false} SendCounts(s: Session, link: Link, message: string, f: Event)
    ensures Times(Send(s, link, message).log, f)
         == Times(s.log, f) + (if link.sends && f == Sent(message) then 1 else 0)
  {
    OneMore(s.log, Sent(message), f);
  }

  lemma {:induction false} ReceiveCounts(s: Session, link: Link, f: Event)
    ensures Times(Receive(s, link).0.log, f)
         == Times(s.log, f) + (if f.Got? && link.reply == Some(Some(f.message)) then 1 else 0)
  {
    if link.reply.Some? && link.reply.value.Some? {
      OneMore(s.log, Got(link.reply.value.value), f);
    }
  }

  lemma {:induction false} ExchangeCounts(s: Session, link: Link, message: string, f: Event)
    ensures Times(Exchange(s, link, message).0.log, f)
      == Times(s.log, f) + (if link.sends && f == Sent(message) then 1 else 0)
           + (if link.sends && f.Got? && link.reply == Some(Some(f.message)) then 1 else 0)
  {
    SendCounts(s, link, message, f);
    ReceiveCounts(Send(s, link, message), link, f);
  }

  lemma {:induction false} ReadyCounts(s: Session, link: Link, f: Event)
    requires !Refused(Step(s, ReadyToSendChanges(link)).1)
    ensures Times(Step(s, ReadyToSendChanges(link)).0.log, f)
         == Times(s.log, f) + (if Causes(ReadyToSendChanges(link), f) then 1 else 0)
  {
    ReceiveCounts(s, link, f);
    var t := Receive(s, link).0;
    OneMore(t.log, Pinged, f);
    OneMore(t.log + [Pinged], Turned, f);
  }

  lemma {:induction false} StartCounts(s: Session, dc: Option<string>, anchors: bool, link: Link, ok: bool, f: Event)
    requires !Refused(Step(s, Start(dc, anchors, link, ok)).1)
    ensures Times(Step(s, Start(dc, anchors, link, ok)).0.log, f)
         == Times(s.log, f) + (if Causes(Start(dc, anchors, link, ok), f) then 1 else 0)
  {
    ExchangeCounts(s, link, "SDMessageSyncDataClassWithDevice", f);
    OneMore(Exchange(s, link, "SDMessageSyncDataClassWithDevice").0.log, Opened(dc.value), f);
  }

  lemma {:induction false} FinishCounts(s: Session, link: Link, f: Event)
    requires !Refused(Step(s, Finish(link)).1)
    ensures Times(Step(s, Finish(link)).0.log, f) == Times(s.log, f) + (if Causes(Finish(link), f) then 1 else 0)
  {
    ExchangeCounts(s, link, "SDMessageFinishSessionOnDevice", f);
    OneMore(Exchange(s, link, "SDMessageFinishSessionOnDevice").0.log, Closed, f);
  }

  lemma {:induction false} ClearCounts(s: Session, link: Link, f: Event)
    requires !Refused(Step(s, ClearAllRecords(link)).1)
    ensures Times(Step(s, ClearAllRecords(link)).0.log, f)
         == Times(s.log, f) + (if Causes(ClearAllRecords(link), f) then 1 else 0)
  {
    ExchangeCounts(s, link, "SDMessageClearAllRecordsOnDevice", f);
  }

  /** What a call does to the number of times that something has happened. */
  lemma {:induction false} StepCounts(s: Session, c: Call, f: Event)
    requires !Refused(Step(s, c).1)
    ensures Times(Step(s, c).0.log, f) == Times(s.log, f) + (if Causes(c, f) then 1 else 0)
  {
    match c
    case ReadyToSendChanges(link) => ReadyCounts(s, link, f);
    case SendChanges(_, link) => SendCounts(s, link, "SDMessageProcessChanges", f);
    case RemapIdentifiers(link) => ReceiveCounts(s, link, f);
    case Cancel(_, link) => CancelCounts(s, link, f);
    case Notify(message, link) => SendCounts(s, link, message, f);
    case ReceiveChanges(link) => ReceiveCounts(s, link, f);
    case Start(dc, anchors, link, ok) => StartCounts(s, dc, anchors, link, ok, f);
    case Finish(link) => FinishCounts(s, link, f);
    case ClearAllRecords(link) => ClearCounts(s, link, f);
  }

  lemma {:induction false} CancelCounts(s: Session, link: Link, f: Event)
    ensures Times(Emit(Send(s, link, "SDMessageCancelSession"), Closed).log, f)
      == Times(s.log, f) + (if f == Closed || (link.sends && f == Sent("SDMessageCancelSession")) then 1 else 0)
  {
    SendCounts(s, link, "SDMessageCancelSession", f);
    OneMore(Send(s, link, "SDMessageCancelSession").log, Closed, f);
  }

  lemma {:induction false} RefusedChangesNothing(s: Session, c: Call)
    requires Refused(Step(s, c).1)
    ensures Step(s, c).0 == s
  {
  }

  /** Over all sequences of calls: whatever happens, happens as often as calls that are not refused make it
      happen. */
  lemma {:induction false} Accounted(calls: seq<Call>, e: Event)
    ensures Times(After(calls).log, e) == Caused(calls, e)
  {
    if calls != [] {
      var front := calls[..|calls| - 1];
      Accounted(front, e);
      var c := calls[|calls| - 1];
      if Refused(Step(After(front), c).1) {
        RefusedChangesNothing(After(front), c);
      } else {
        StepCounts(After(front), c, e);
      }
    }
  }

  /** The number of calls of a run that report success in sending changes. */
  function ChangesReported(calls: seq<Call>): (n: nat) {
    if calls == [] then 0
    else
      var front, c := calls[..|calls| - 1], calls[|calls| - 1];
      ChangesReported(front) + (if c.SendChanges? && Step(After(front), c).1 == Success then 1 else 0)
  }

  /** As many changes messages are sent as calls report it. */
  lemma {:induction false} ChangesSent(calls: seq<Call>)
    requires forall i :: 0 <= i < |calls| ==> Proper(calls[i])
    ensures Times(After(calls).log, Sent("SDMessageProcessChanges")) == ChangesReported(calls)
  {
    if calls != [] {
      var front, c := calls[..|calls| - 1], calls[|calls| - 1];
      ChangesSent(front);
      OnlyChanges(After(front), c);
      if Refused(Step(After(front), c).1) {
        RefusedChangesNothing(After(front), c);
      } else {
        StepCounts(After(front), c, Sent("SDMessageProcessChanges"));
      }
    }
  }

  lemma {:induction false} OnlyChanges(s: Session, c: Call)
    requires Proper(c)
    ensures !Refused(Step(s, c).1) && Causes(c, Sent("SDMessageProcessChanges"))
      <==> c.SendChanges? && Step(s, c).1 == Success
  {
  }

  // ---------------------------------------------------------------- refused calls

  /** In the log a session has been opened and not closed since. */
  ghost predicate InSession(log: seq<Event>) {
    exists o :: OpenSince(log, o, |log|)
  }

  /** In the log the session that is open has turned. */
  ghost predicate HasTurned(log: seq<Event>) {
    exists o, t :: AllowedBy(log, o, t, |log|)
  }

  lemma {:induction false} FieldsTell(s: Session)
    requires FieldsMatch(s)
    ensures s.dataClass.Some? <==> InSession(s.log)
    ensures s.direction == ComputerToDevice <==> HasTurned(s.log)
  {
    if s.dataClass.None? {
      forall o
        ensures !OpenSince(s.log, o, |s.log|)
      {
        if 0 <= o < |s.log| && s.log[o].Opened? {
          var k :| o < k < |s.log| && s.log[k] == Closed;
          assert Boundary(s.log[k]);
        }
      }
    }
    if s.direction == DeviceToComputer {
      forall o, t
        ensures !AllowedBy(s.log, o, t, |s.log|)
      {
        if 0 <= t < |s.log| && s.log[t] == Turned {
          assert !SameSession(s.log, t, |s.log|);
        }
      }
    }
  }

  /** The arguments of a call are complete. */
  predicate HasArguments(c: Call) {
    match c
    case Start(dc, anchors, _, _) => dc.Some? && anchors
    case SendChanges(entities, _) => entities
    case Cancel(reason, _) => reason
    case _ => true
  }

  lemma {:induction false} RefusedByFields(s: Session, c: Call, open: bool, turned: bool)
    requires open == s.dataClass.Some? && turned == (s.direction == ComputerToDevice) && (turned ==> open)
    ensures Step(s, c).1 == InvalidArg <==> !HasArguments(c) || c.Start? == open
    ensures Step(s, c).1 == WrongDirection <==>
      HasArguments(c) && open
        && if c.ReadyToSendChanges? then turned else (c.SendChanges? || c.RemapIdentifiers?) && !turned
  {
  }

  /** Over all sequences of calls, told by the log alone: a start is refused in a session, any other call
      outside one, both without their arguments; and in a session the direction refuses a second turn, and
      before the turn changes and remapped identifiers.  A refused call does nothing. */
  lemma {:induction false} RefusedExactly(calls: seq<Call>, c: Call)
    requires forall i :: 0 <= i < |calls| ==> Proper(calls[i])
    ensures var log, err := After(calls).log, Step(After(calls), c).1;
      && (err == InvalidArg <==> !HasArguments(c) || c.Start? == InSession(log))
      && (err == WrongDirection <==>
           HasArguments(c) && InSession(log)
             && if c.ReadyToSendChanges? then HasTurned(log)
                else (c.SendChanges? || c.RemapIdentifiers?) && !HasTurned(log))
      && (Refused(err) ==> Step(After(calls), c).0 == After(calls))
  {
    var s := After(calls);
    AllRuns(calls);
    FieldsTell(s);
    RefusedByFields(s, c, InSession(s.log), HasTurned(s.log));
    if Refused(Step(s, c).1) {
      RefusedChangesNothing(s, c);
    }
  }

  // ---------------------------------------------------------------- what is reported

  /** The message the device answers with, or sends, is the one the call asks for. */
  predicate Satisfied(c: Call, kind: string) {
    match c
    case Start(_, _, _, syncTypeOk) =>
      kind != "SDMessageRefuseToSyncDataClassWithComputer" && kind != "SDMessageCancelSession" && syncTypeOk
    case ReadyToSendChanges(link) => kind == "SDMessageDeviceReadyToReceiveChanges" && link.pings
    case RemapIdentifiers(_) => kind == "SDMessageRemapRecordIdentifiers"
    case ReceiveChanges(_) => kind != "SDMessageCancelSession"
    case ClearAllRecords(_) => kind == "SDMessageDeviceWillClearAllRecords"
    case _ => true
  }

  /** A call that is not refused succeeds if and only if its message goes out and the device answers what the
      call asks for; it reports the link if it is the link that fails, and a cancelled session unless it is
      finishing one. */
  lemma {:induction false} ReportedExactly(s: Session, c: Call)
    requires !Refused(Step(s, c).1)
    ensures var err, reply := Step(s, c).1, c.link.reply;
      && (err == Success <==>
           GoesOut(c) && (Awaits(c) ==> reply.Some? && reply.value.Some? && Satisfied(c, reply.value.value)))
      && (err == MuxError <==>
           || !GoesOut(c) || (Awaits(c) && reply.None?)
           || (c.ReadyToSendChanges? && reply == Some(Some("SDMessageDeviceReadyToReceiveChanges")) && !c.link.pings))
      && (err == Cancelled <==>
           Awaits(c) && !c.Finish? && GoesOut(c) && reply == Some(Some("SDMessageCancelSession")))
  {
  }
}
