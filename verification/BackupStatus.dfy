/** Status.plist of the old backup tool, one disk operation per step, over any number of sessions each
    of which may be interrupted anywhere.  The operations on Status.plist itself may fail, which the tool
    does not look at. */
module BackupStatus {
  import opened Options

  type Path = string
  type Files = map<Path, seq<int>>

  /** What one write leaves in Status.plist: the whole text of a status, or a part of it. */
  datatype Text = Whole(success: bool) | Part(success: bool)

  /** Status.plist: missing, or the texts written to it one behind another, as files are opened for
      appending. */
  type StatusFile = Option<seq<Text>>

  /** mobilebackup_read_status finds success.  Of anything but one whole text the parser decides. */
  predicate Claims(status: StatusFile, odd: seq<Text> -> bool) {
    match status
    case None => false
    case Some(texts) =>
      if texts == [] then false else if |texts| == 1 && texts[0].Whole? then texts[0].success else odd(texts)
  }

  /** A node of a received message. */
  datatype Node = NoNode | OtherType | Str(value: string)

  /** plist_strcmp, which finds a node that is no string equal to anything. */
  predicate StrcmpEqual(node: Node, s: string) {
    node.Str? ==> node.value == s
  }

  /** The loop over DLSendFile messages goes on with this message. */
  predicate TakenForHunk(tag: Node) {
    StrcmpEqual(tag, "DLSendFile")
  }

  /** The message that ended the loop is processed as the end of a successful backup. */
  predicate TakenForFinished(tag: Node, kind: Node) {
    StrcmpEqual(tag, "DLMessageProcessMessage") && !kind.NoNode? && StrcmpEqual(kind, "BackupMessageBackupFinished")
  }

  /** A message that says so is taken for the end, and so is one whose type is not even a string;
      a message that says anything else is not. */
  lemma {:induction false} FinishedExactly(tag: Node, kind: Node)
    requires !TakenForHunk(tag)
    ensures TakenForFinished(tag, kind)
      <==> tag == Str("DLMessageProcessMessage") && (kind == OtherType || kind == Str("BackupMessageBackupFinished"))
  {
  }

  /** The loop goes on exactly with a message that says so or whose tag is no string. */
  lemma {:induction false} HunkExactly(tag: Node)
    ensures TakenForHunk(tag) <==> tag == NoNode || tag == OtherType || tag == Str("DLSendFile")
  {
  }

  /** Where the tool stands.  Mark: writing a status, before the given one of its three operations. */
  datatype Phase =
    | Idle
    | Mark(success: bool, operation: Operation)
    | Requesting
    | Receiving
    | Deleting
    | DroppingManifest
    | StoringManifest
    | Restoring

  datatype Operation = Remove | Open | Write

  /** How an operation turns out.  Refused: no effect.  Short: only a part is written. */
  datatype Effect = Done | Refused | Short

  datatype State = State(
    phase: Phase,
    status: StatusFile,
    files: Files,
    hunks: nat,               // file hunks written since the last finished message was processed
    finished: Option<Files>)  // the files when the last finished message had been processed

  datatype Step =
    | BeginBackup
    | MarkStep(effect: Effect)
    | RequestAnswered(accepted: bool)
    | WriteHunk(files: Files)
    | EndOfHunks(tag: Node, kind: Node)
    | DeleteFile(path: Path)
    | DeletedAll(hasManifest: bool)
    | DropManifest(path: Path)
    | StoreManifest(path: Path, data: seq<int>)
    | BeginRestore
    | EndRestore
    | Interrupt

  predicate Enabled(s: State, step: Step) {
    match step
    case BeginBackup => s.phase == Idle
    case MarkStep(effect) =>
      && s.phase.Mark? && (effect == Refused ==> s.phase.operation != Open)
      && (effect == Short ==> s.phase.operation == Write)
    case RequestAnswered(_) => s.phase == Requesting
    case WriteHunk(_) => s.phase == Receiving
    case EndOfHunks(tag, _) => s.phase == Receiving && !TakenForHunk(tag)
    case DeleteFile(_) => s.phase == Deleting
    case DeletedAll(_) => s.phase == Deleting
    case DropManifest(_) => s.phase == DroppingManifest
    case StoreManifest(_, _) => s.phase == StoringManifest
    case BeginRestore => s.phase == Idle
    case EndRestore => s.phase == Restoring
    case Interrupt => true
  }

  /** The texts after a write behind what is there. */
  function Written(status: StatusFile, success: bool, effect: Effect): StatusFile {
    var texts := if status.Some? then status.value else [];
    Some(texts + match effect case Done => [Whole(success)] case Short => [Part(success)] case Refused => [])
  }

  /** Opening for appending, which creates a missing file. */
  function Opened(status: StatusFile): StatusFile {
    if status.Some? then status else Some([])
  }

  function Removed(status: StatusFile, effect: Effect): StatusFile {
    if effect == Refused then status else None
  }

  /** mobilebackup_write_status: remove if there is a file, open, write. */
  function Marked(s: State, effect: Effect): State
    requires s.phase.Mark?
  {
    var Mark(success, operation) := s.phase;
    match operation
    case Remove => s.(status := Removed(s.status, effect), phase := Mark(success, Open))
    case Open => s.(status := Opened(s.status), phase := Mark(success, Write))
    case Write =>
      s.(status := Written(s.status, success, effect), phase := if success then Idle else Requesting)
  }

  function Next(s: State, step: Step, odd: seq<Text> -> bool): State
    requires Enabled(s, step)
  {
    match step
    case BeginBackup => s.(phase := Mark(false, Remove))
    case MarkStep(effect) => Marked(s, effect)
    case RequestAnswered(accepted) => s.(phase := if accepted then Receiving else Idle)
    case WriteHunk(files) => s.(files := files, hunks := s.hunks + 1)
    case EndOfHunks(tag, kind) =>
      if TakenForFinished(tag, kind) then s.(phase := Deleting, hunks := 0) else s.(phase := Idle)
    case DeleteFile(path) => s.(files := s.files - {path})
    case DeletedAll(hasManifest) =>
      if hasManifest then s.(phase := DroppingManifest) else s.(phase := Mark(true, Remove), finished := Some(s.files))
    case DropManifest(path) => s.(files := s.files - {path}, phase := StoringManifest)
    case StoreManifest(path, data) =>
      var files := s.files[path := data];
      s.(files := files, phase := Mark(true, Remove), finished := Some(files))
    case BeginRestore => if Claims(s.status, odd) then s.(phase := Restoring) else s
    case EndRestore => s.(phase := Idle)
    case Interrupt => s.(phase := Idle)
  }

  function Exec(s: State, steps: seq<Step>, odd: seq<Text> -> bool): Option<State> {
    if steps == [] then Some(s)
    else
      var r := Exec(s, steps[..|steps| - 1], odd);
      if r.Some? && Enabled(r.value, steps[|steps| - 1]) then Some(Next(r.value, steps[|steps| - 1], odd)) else None
  }

  /** A success on disk vouches for the files as the last finished message left them, and nothing has
      been written since. */
  predicate Vouched(s: State, odd: seq<Text> -> bool) {
    Claims(s.status, odd) ==> s.hunks == 0 && s.finished == Some(s.files)
  }

  /** Before the first session followed here, a success on disk, if there is one, is justified. */
  predicate Initial(s: State, odd: seq<Text> -> bool) {
    s.phase == Idle && Vouched(s, odd)
  }

  /** While files may change, the disk does not claim success; when it is about to, all is in place. */
  predicate Guarded(s: State, odd: seq<Text> -> bool) {
    match s.phase
    case Idle => true
    case Restoring => Claims(s.status, odd)
    case Mark(success, _) => success ==> s.hunks == 0 && s.finished == Some(s.files)
    case Deleting => !Claims(s.status, odd) && s.hunks == 0
    case DroppingManifest => !Claims(s.status, odd) && s.hunks == 0
    case StoringManifest => !Claims(s.status, odd) && s.hunks == 0
    case _ => !Claims(s.status, odd)
  }

  /** If Status.plist reads success then no hunk has been written since the last finished message was
      processed and the files are those it left; a restore is only under way over such files. */
  predicate Safe(s: State, odd: seq<Text> -> bool) {
    && Vouched(s, odd)
    && (s.phase == Restoring ==> Claims(s.status, odd) && s.hunks == 0 && s.finished == Some(s.files))
  }

  // ---------------------------------------------------------------- runs in which no marking fails

  /** How far the writing of the failed status has come. */
  predicate Marking(s: State) {
    s.phase.Mark? && !s.phase.success ==>
      && (s.phase.operation == Open ==> s.status == None)
      && (s.phase.operation == Write ==> s.status == Some([]))
  }

  predicate Inv(s: State, odd: seq<Text> -> bool) {
    Vouched(s, odd) && Guarded(s, odd) && Marking(s)
  }

  predicate Succeeds(step: Step) {
    step.MarkStep? ==> step.effect == Done
  }

  predicate AllSucceed(steps: seq<Step>) {
    forall i :: 0 <= i < |steps| ==> Succeeds(steps[i])
  }

  lemma {:induction false} StepKeeps(s: State, step: Step, odd: seq<Text> -> bool)
    requires Inv(s, odd) && Enabled(s, step) && Succeeds(step)
    ensures Inv(Next(s, step, odd), odd)
  {
    match step {
      case MarkStep(effect) => MarkSucceeds(s, odd);
      case BeginRestore => assert s.phase == Idle;
      case _ =>
    }
  }

  lemma {:induction false} MarkSucceeds(s: State, odd: seq<Text> -> bool)
    requires Inv(s, odd) && s.phase.Mark?
    ensures Inv(Marked(s, Done), odd)
  {
    assert [] + [Whole(false)] == [Whole(false)];
  }

  /** At every point of every run, interrupted sessions included, whatever the parser makes of odd
      texts. */
  lemma {:induction false} NeverHalfWritten(s0: State, steps: seq<Step>, odd: seq<Text> -> bool)
    requires Initial(s0, odd) && Exec(s0, steps, odd).Some? && AllSucceed(steps)
    ensures Safe(Exec(s0, steps, odd).value, odd) && Inv(Exec(s0, steps, odd).value, odd)
  {
    if steps != [] {
      var front := steps[..|steps| - 1];
      NeverHalfWritten(s0, front, odd);
      StepKeeps(Exec(s0, front, odd).value, steps[|steps| - 1], odd);
    }
  }

  // ---------------------------------------------------------------- runs in which markings fail

  /** A backup that is requested has got the success of an earlier one off the disk. */
  predicate ClearedHere(s: State, odd: seq<Text> -> bool) {
    s.phase == Requesting ==> !Claims(s.status, odd)
  }

  ghost predicate Cleared(s0: State, steps: seq<Step>, odd: seq<Text> -> bool)
    requires Exec(s0, steps, odd).Some?
  {
    (steps != [] ==> Cleared(s0, steps[..|steps| - 1], odd)) && ClearedHere(Exec(s0, steps, odd).value, odd)
  }

  lemma {:induction false} ClearedStep(s: State, step: Step, odd: seq<Text> -> bool)
    requires Vouched(s, odd) && Guarded(s, odd) && Enabled(s, step) && ClearedHere(Next(s, step, odd), odd)
    ensures Vouched(Next(s, step, odd), odd) && Guarded(Next(s, step, odd), odd)
  {
    match step {
      case MarkStep(effect) => assert s.phase.Mark?;
      case BeginRestore => assert s.phase == Idle;
      case _ =>
    }
  }

  /** Whatever fails, the safety above needs no more than that no backup is requested over a success. */
  lemma {:induction false} ClearedIsSafe(s0: State, steps: seq<Step>, odd: seq<Text> -> bool)
    requires Initial(s0, odd) && Exec(s0, steps, odd).Some? && Cleared(s0, steps, odd)
    ensures var s := Exec(s0, steps, odd).value; Safe(s, odd) && Guarded(s, odd)
  {
    if steps != [] {
      var front := steps[..|steps| - 1];
      ClearedIsSafe(s0, front, odd);
      ClearedStep(Exec(s0, front, odd).value, steps[|steps| - 1], odd);
    }
  }

  /** The number of operations of a marking that a run ends with. */
  function Marks(steps: seq<Step>): nat {
    if steps != [] && steps[|steps| - 1].MarkStep? then 1 + Marks(steps[..|steps| - 1]) else 0
  }

  /** Status.plist as the steps alone tell it.  A marking of failure is one right behind BeginBackup. */
  function Disk(status: StatusFile, steps: seq<Step>): StatusFile {
    if steps == [] then status
    else
      var n := |steps| - 1;
      var before, done := Disk(status, steps[..n]), Marks(steps[..n]);
      if !steps[n].MarkStep? then before
      else if done == 0 then Removed(before, steps[n].effect)
      else if done == 1 then Opened(before)
      else Written(before, !Begins(steps, n - 2), steps[n].effect)
  }

  predicate Begins(steps: seq<Step>, i: int) {
    0 < i <= |steps| && steps[i - 1].BeginBackup?
  }

  /** Steps k to k + 3 begin a backup and write the failed status. */
  predicate MarksFailure(steps: seq<Step>, k: nat) {
    && k + 4 <= |steps| && steps[k].BeginBackup?
    && steps[k + 1].MarkStep? && steps[k + 2].MarkStep? && steps[k + 3].MarkStep?
  }

  /** A backup is requested although success is still on disk, told by the steps alone. */
  ghost predicate SuccessKept(status: StatusFile, steps: seq<Step>, odd: seq<Text> -> bool) {
    exists k: nat :: MarksFailure(steps, k) && Claims(Disk(status, steps[..k + 4]), odd)
  }

  /** What the last steps of a run tell of the phase it is in. */
  ghost predicate Told(s: State, steps: seq<Step>) {
    var m := Marks(steps);
    match s.phase
    case Mark(success, operation) =>
      && m == (match operation case Remove => 0 case Open => 1 case Write => 2)
      && m < |steps| && (success <==> !steps[|steps| - 1 - m].BeginBackup?)
    case Requesting => |steps| >= 4 && MarksFailure(steps, |steps| - 4)
    case _ => |steps| >= 4 ==> !MarksFailure(steps, |steps| - 4)
  }

  lemma {:induction false} DiskTold(s0: State, steps: seq<Step>, odd: seq<Text> -> bool)
    requires s0.phase == Idle && Exec(s0, steps, odd).Some?
    ensures var s := Exec(s0, steps, odd).value; s.status == Disk(s0.status, steps) && Told(s, steps)
  {
    if steps != [] {
      var n := |steps| - 1;
      DiskTold(s0, steps[..n], odd);
      StepTold(Exec(s0, steps[..n], odd).value, steps, s0.status, odd);
    }
  }

  lemma {:induction false} StepTold(s: State, steps: seq<Step>, status: StatusFile, odd: seq<Text> -> bool)
    requires steps != []
    requires var n := |steps| - 1; s.status == Disk(status, steps[..n]) && Told(s, steps[..n]) && Enabled(s, steps[n])
    ensures var t := Next(s, steps[|steps| - 1], odd); t.status == Disk(status, steps) && Told(t, steps)
  {
    var n := |steps| - 1;
    if steps[n].MarkStep? {
      MarkTold(s, steps, status);
    }
  }

  lemma {:induction false} MarkTold(s: State, steps: seq<Step>, status: StatusFile)
    requires steps != [] && steps[|steps| - 1].MarkStep? && s.phase.Mark?
    requires var n := |steps| - 1; s.status == Disk(status, steps[..n]) && Told(s, steps[..n])
    ensures var t := Marked(s, steps[|steps| - 1].effect); t.status == Disk(status, steps) && Told(t, steps)
  {
    var n, m := |steps| - 1, Marks(steps[..|steps| - 1]);
    MarksAtEnd(steps[..n]);
    assert steps[..n][n - 1 - m] == steps[n - 1 - m];
  }

  lemma {:induction false} MarksAtEnd(steps: seq<Step>)
    ensures var m := Marks(steps); m <= |steps| && forall i :: |steps| - m <= i < |steps| ==> steps[i].MarkStep?
  {
    if steps != [] && steps[|steps| - 1].MarkStep? {
      MarksAtEnd(steps[..|steps| - 1]);
      assert forall i :: 0 <= i < |steps| - 1 ==> steps[..|steps| - 1][i] == steps[i];
    }
  }

  lemma {:induction false} KeptGrows(status: StatusFile, steps: seq<Step>, odd: seq<Text> -> bool)
    requires steps != []
    ensures SuccessKept(status, steps, odd) <==>
      || SuccessKept(status, steps[..|steps| - 1], odd)
      || (|steps| >= 4 && MarksFailure(steps, |steps| - 4) && Claims(Disk(status, steps), odd))
  {
    var front := steps[..|steps| - 1];
    assert forall k :: 0 <= k <= |front| ==> front[..k] == steps[..k];
    assert forall k :: 0 <= k < |front| ==> front[k] == steps[k];
    assert steps[..|steps|] == steps;
    assert forall k: nat :: k + 4 <= |front| ==> (MarksFailure(front, k) <==> MarksFailure(steps, k));
  }

  /** A run is cleared exactly if its steps keep no success on disk. */
  lemma {:induction false} ClearedExactly(s0: State, steps: seq<Step>, odd: seq<Text> -> bool)
    requires s0.phase == Idle && Exec(s0, steps, odd).Some?
    ensures Cleared(s0, steps, odd) <==> !SuccessKept(s0.status, steps, odd)
  {
    if steps != [] {
      ClearedExactly(s0, steps[..|steps| - 1], odd);
      KeptGrows(s0.status, steps, odd);
      DiskTold(s0, steps, odd);
    }
  }

  lemma {:induction false} MarkedDisk(status: StatusFile, steps: seq<Step>, k: nat)
    requires MarksFailure(steps, k)
    ensures var d := Disk(status, steps[..k]);
      Disk(status, steps[..k + 4]) == Written(Opened(Removed(d, steps[k + 1].effect)), false, steps[k + 3].effect)
  {
    var a, b, c, d := steps[..k + 1], steps[..k + 2], steps[..k + 3], steps[..k + 4];
    assert a[..k] == steps[..k] && b[..k + 1] == a && c[..k + 2] == b && d[..k + 3] == c;
    assert Marks(a) == 0 && Marks(b) == 1 && Marks(c) == 2;
    assert Disk(status, a) == Disk(status, steps[..k]);
    assert Disk(status, b) == Removed(Disk(status, a), steps[k + 1].effect);
    assert Disk(status, c) == Opened(Disk(status, b));
    assert Begins(d, k + 1);
  }

  /** With a parser that finds success in no odd text: success is kept exactly by a backup that begins
      with success on disk, cannot remove it, and cannot write behind it. */
  lemma {:induction false} SuccessKeptExactly(status: StatusFile, steps: seq<Step>, odd: seq<Text> -> bool)
    requires forall texts :: !odd(texts)
    ensures SuccessKept(status, steps, odd) <==>
      exists k: nat :: MarksFailure(steps, k) && steps[k + 1].effect == steps[k + 3].effect == Refused
        && Claims(Disk(status, steps[..k]), odd)
  {
    forall k: nat | MarksFailure(steps, k)
      ensures Claims(Disk(status, steps[..k + 4]), odd) <==>
        steps[k + 1].effect == Refused && steps[k + 3].effect == Refused && Claims(Disk(status, steps[..k]), odd)
    {
      MarkedDisk(status, steps, k);
      OddMarking(Disk(status, steps[..k]), steps[k + 1].effect, steps[k + 3].effect, odd);
    }
  }

  lemma {:induction false} OddMarking(d: StatusFile, removal: Effect, writing: Effect, odd: seq<Text> -> bool)
    requires forall texts :: !odd(texts)
    ensures Claims(Written(Opened(Removed(d, removal)), false, writing), odd)
      <==> removal == Refused && writing == Refused && Claims(d, odd)
  {
  }

  // ---------------------------------------------------------------- restoring half-written files

  /** The request is granted, a hunk comes, the tool is interrupted, and a restore begins. */
  function CutOff(files: Files): seq<Step> {
    [RequestAnswered(true), WriteHunk(files), Interrupt, BeginRestore]
  }

  /** A restore is under way over files that a hunk has been written to since they were finished. */
  predicate HalfRestored(s0: State, steps: seq<Step>, odd: seq<Text> -> bool) {
    var r := Exec(s0, steps, odd);
    r.Some? && r.value.phase == Restoring && r.value.hunks > 0
  }

  lemma {:induction false} CutOffExec(s0: State, steps: seq<Step>, files: Files, odd: seq<Text> -> bool)
    requires Exec(s0, steps, odd).Some?
    ensures var s, r := Exec(s0, steps, odd).value, Exec(s0, steps + CutOff(files), odd);
      && (r.Some? <==> s.phase == Requesting)
      && (r.Some? ==> r.value == s.(phase := if Claims(s.status, odd) then Restoring else Idle, files := files,
                                   hunks := s.hunks + 1))
  {
    var c := CutOff(files);
    FourSteps(s0, steps, c[0], c[1], c[2], c[3], odd);
    assert steps + c == steps + [c[0]] + [c[1]] + [c[2]] + [c[3]];
  }

  lemma {:induction false} FourSteps(s0: State, steps: seq<Step>, a: Step, b: Step, c: Step, d: Step,
                                     odd: seq<Text> -> bool)
    ensures Exec(s0, steps + [a] + [b] + [c] + [d], odd)
      == Then(Then(Then(Then(Exec(s0, steps, odd), a, odd), b, odd), c, odd), d, odd)
  {
    ThenExec(s0, steps, a, odd);
    ThenExec(s0, steps + [a], b, odd);
    ThenExec(s0, steps + [a] + [b], c, odd);
    ThenExec(s0, steps + [a] + [b] + [c], d, odd);
  }

  function Then(s: Option<State>, step: Step, odd: seq<Text> -> bool): Option<State> {
    if s.Some? && Enabled(s.value, step) then Some(Next(s.value, step, odd)) else None
  }

  lemma {:induction false} ThenExec(s0: State, steps: seq<Step>, step: Step, odd: seq<Text> -> bool)
    ensures Exec(s0, steps + [step], odd) == Then(Exec(s0, steps, odd), step, odd)
  {
    assert (steps + [step])[..|steps|] == steps;
  }

  lemma {:induction false} FirstUncleared(s0: State, steps: seq<Step>, odd: seq<Text> -> bool) returns (i: nat)
    requires Exec(s0, steps, odd).Some? && !Cleared(s0, steps, odd)
    ensures i <= |steps| && Exec(s0, steps[..i], odd).Some? && !ClearedHere(Exec(s0, steps[..i], odd).value, odd)
  {
    var n := |steps| - 1;
    if steps != [] && !Cleared(s0, steps[..n], odd) {
      i := FirstUncleared(s0, steps[..n], odd);
      assert steps[..n][..i] == steps[..i];
    } else {
      i := |steps|;
      assert steps[..i] == steps;
    }
  }

  lemma {:induction false} ClearedFront(s0: State, steps: seq<Step>, i: nat, odd: seq<Text> -> bool)
    requires Exec(s0, steps, odd).Some? && Cleared(s0, steps, odd) && i <= |steps|
    ensures Exec(s0, steps[..i], odd).Some? && ClearedHere(Exec(s0, steps[..i], odd).value, odd)
  {
    if i == |steps| {
      assert steps[..i] == steps;
    } else {
      ClearedFront(s0, steps[..|steps| - 1], i, odd);
      assert steps[..|steps| - 1][..i] == steps[..i];
    }
  }

  /** Some point of a run is one at which the device granting the request and the tool being cut off
      behind the first hunk leads to a restore over half-written files, if and only if the steps of the
      run keep a success on disk. */
  lemma {:induction false} HalfRestoredExactly(s0: State, steps: seq<Step>, files: Files, odd: seq<Text> -> bool)
    requires s0.phase == Idle && Exec(s0, steps, odd).Some?
    ensures SuccessKept(s0.status, steps, odd)
      <==> exists i :: 0 <= i <= |steps| && HalfRestored(s0, steps[..i] + CutOff(files), odd)
  {
    ClearedExactly(s0, steps, odd);
    if Cleared(s0, steps, odd) {
      forall i | 0 <= i <= |steps|
        ensures !HalfRestored(s0, steps[..i] + CutOff(files), odd)
      {
        ClearedFront(s0, steps, i, odd);
        CutOffExec(s0, steps[..i], files, odd);
      }
    } else {
      var i := FirstUncleared(s0, steps, odd);
      CutOffExec(s0, steps[..i], files, odd);
      assert HalfRestored(s0, steps[..i] + CutOff(files), odd);
    }
  }

  /** A success on disk that can be neither removed nor written behind: the next backup is cut off after
      its first hunk, and the restore that follows is let through. */
  lemma {:induction false} RestoresHalfWritten(before: Files, hunk: Files, odd: seq<Text> -> bool)
    ensures var s0 := State(Idle, Some([Whole(true)]), before, 0, Some(before));
      var steps := [BeginBackup, MarkStep(Refused), MarkStep(Done), MarkStep(Refused)] + CutOff(hunk);
      && Initial(s0, odd) && HalfRestored(s0, steps, odd) && Exec(s0, steps, odd).value.files == hunk
  {
    var s0 := State(Idle, Some([Whole(true)]), before, 0, Some(before));
    var marking := [BeginBackup, MarkStep(Refused), MarkStep(Done), MarkStep(Refused)];
    FourSteps(s0, [], marking[0], marking[1], marking[2], marking[3], odd);
    assert marking == [] + [marking[0]] + [marking[1]] + [marking[2]] + [marking[3]];
    assert [Whole(true)] + [] == [Whole(true)];
    CutOffExec(s0, marking, hunk, odd);
  }

  // ---------------------------------------------------------------- a session in which nothing fails

  lemma {:induction false} OneMore(s0: State, steps: seq<Step>, s: State, step: Step, odd: seq<Text> -> bool)
    returns (longer: seq<Step>, t: State)
    requires Exec(s0, steps, odd) == Some(s) && Enabled(s, step)
    ensures t == Next(s, step, odd) && Exec(s0, longer, odd) == Some(t)
  {
    longer, t := steps + [step], Next(s, step, odd);
    assert longer[..|longer| - 1] == steps;
  }

  lemma {:induction false} MarkDone(s0: State, steps: seq<Step>, s: State, odd: seq<Text> -> bool)
    returns (longer: seq<Step>, t: State)
    requires Exec(s0, steps, odd) == Some(s) && s.phase.Mark? && s.phase.operation == Remove
    ensures Exec(s0, longer, odd) == Some(t)
    ensures t == s.(status := Some([Whole(s.phase.success)]), phase := if s.phase.success then Idle else Requesting)
  {
    assert [] + [Whole(s.phase.success)] == [Whole(s.phase.success)];
    longer, t := OneMore(s0, steps, s, MarkStep(Done), odd);
    longer, t := OneMore(s0, longer, t, MarkStep(Done), odd);
    longer, t := OneMore(s0, longer, t, MarkStep(Done), odd);
  }

  lemma {:induction false} HunksWritten(s0: State, steps: seq<Step>, s: State, hunks: seq<Files>,
                                        odd: seq<Text> -> bool)
    returns (longer: seq<Step>, t: State)
    requires Exec(s0, steps, odd) == Some(s) && s.phase == Receiving
    ensures Exec(s0, longer, odd) == Some(t)
    ensures t == s.(files := if hunks == [] then s.files else hunks[|hunks| - 1], hunks := s.hunks + |hunks|)
    decreases |hunks|
  {
    longer, t := steps, s;
    if hunks != [] {
      longer, t := HunksWritten(s0, longer, t, hunks[..|hunks| - 1], odd);
      longer, t := OneMore(s0, longer, t, WriteHunk(hunks[|hunks| - 1]), odd);
    }
  }

  lemma {:induction false} FilesDeleted(s0: State, steps: seq<Step>, s: State, paths: seq<Path>, odd: seq<Text> -> bool)
    returns (longer: seq<Step>, t: State)
    requires Exec(s0, steps, odd) == Some(s) && s.phase == Deleting
    ensures Exec(s0, longer, odd) == Some(t)
    ensures t == s.(files := s.files - (set p | p in paths))
    decreases |paths|
  {
    longer, t := steps, s;
    if paths != [] {
      var n := |paths| - 1;
      longer, t := FilesDeleted(s0, longer, t, paths[..n], odd);
      longer, t := OneMore(s0, longer, t, DeleteFile(paths[n]), odd);
      LastDeleted(s.files, paths[..n], paths[n], paths);
    } else {
      assert s.files - (set p | p in paths) == s.files;
    }
  }

  lemma {:induction false} LastDeleted(files: Files, front: seq<Path>, last: Path, paths: seq<Path>)
    requires paths == front + [last]
    ensures files - (set p | p in front) - {last} == files - (set p | p in paths)
  {
  }

  /** What a whole session leaves of the files: those its last hunk left, without the deleted ones, with the
      manifest if one is sent. */
  function Completed(files: Files, deleted: seq<Path>, manifest: Option<(Path, seq<int>)>): Files {
    var kept := files - (set p | p in deleted);
    if manifest.Some? then kept[manifest.value.0 := manifest.value.1] else kept
  }

  lemma {:induction false} ManifestStored(s0: State, steps: seq<Step>, s: State, manifest: Option<(Path, seq<int>)>,
                                          odd: seq<Text> -> bool)
    returns (longer: seq<Step>, t: State)
    requires Exec(s0, steps, odd) == Some(s) && s.phase == Deleting
    ensures Exec(s0, longer, odd) == Some(t)
    ensures t.phase == Mark(true, Remove) && t.hunks == s.hunks && t.finished == Some(t.files)
    ensures t.files == if manifest.Some? then s.files[manifest.value.0 := manifest.value.1] else s.files
  {
    longer, t := OneMore(s0, steps, s, DeletedAll(manifest.Some?), odd);
    if manifest.Some? {
      longer, t := OneMore(s0, longer, t, DropManifest(manifest.value.0), odd);
      longer, t := OneMore(s0, longer, t, StoreManifest(manifest.value.0, manifest.value.1), odd);
    }
  }

  /** A session in which nothing fails, and which is not cut short and ends with a message taken for finished:
      its hunks have been written, the files the device names are gone, the manifest is there, success is on
      disk, and the next restore is let through, over these files. */
  lemma {:induction false} CompleteSession(s0: State, hunks: seq<Files>, tag: Node, kind: Node, deleted: seq<Path>,
                                           manifest: Option<(Path, seq<int>)>, odd: seq<Text> -> bool)
    returns (steps: seq<Step>)
    requires s0.phase == Idle && !TakenForHunk(tag) && TakenForFinished(tag, kind)
    ensures Exec(s0, steps, odd).Some?
    ensures var s := Exec(s0, steps, odd).value;
      && s.phase == Restoring && Claims(s.status, odd) && s.status == Some([Whole(true)]) && s.hunks == 0
      && s.files == Completed(if hunks == [] then s0.files else hunks[|hunks| - 1], deleted, manifest)
      && s.finished == Some(s.files)
  {
    var s := s0;
    steps := [];
    steps, s := OneMore(s0, steps, s, BeginBackup, odd);
    steps, s := MarkDone(s0, steps, s, odd);
    steps, s := OneMore(s0, steps, s, RequestAnswered(true), odd);
    steps, s := HunksWritten(s0, steps, s, hunks, odd);
    steps, s := OneMore(s0, steps, s, EndOfHunks(tag, kind), odd);
    steps, s := FilesDeleted(s0, steps, s, deleted, odd);
    steps, s := ManifestStored(s0, steps, s, manifest, odd);
    steps, s := MarkDone(s0, steps, s, odd);
    steps, s := OneMore(s0, steps, s, BeginRestore, odd);
  }

  /** Without success on disk no restore is let through. */
  lemma {:induction false} RestoreRefused(s0: State, steps: seq<Step>, odd: seq<Text> -> bool)
    requires Exec(s0, steps, odd).Some? && Exec(s0, steps, odd).value.phase == Idle
    ensures var s, r := Exec(s0, steps, odd).value, Exec(s0, steps + [BeginRestore], odd);
      r == Some(if Claims(s.status, odd) then s.(phase := Restoring) else s)
  {
    ThenExec(s0, steps, BeginRestore, odd);
  }

  /** A request that the device refuses, and a last message that is not taken for the end, end a session in
      failure: files and status are as they were. */
  lemma {:induction false} Unfinished(s0: State, steps: seq<Step>, last: Step, odd: seq<Text> -> bool)
    requires Exec(s0, steps, odd).Some? && Enabled(Exec(s0, steps, odd).value, last)
    requires last == RequestAnswered(false) || (last.EndOfHunks? && !TakenForFinished(last.tag, last.kind))
    ensures Exec(s0, steps + [last], odd) == Some(Exec(s0, steps, odd).value.(phase := Idle))
  {
    ThenExec(s0, steps, last, odd);
  }
}
