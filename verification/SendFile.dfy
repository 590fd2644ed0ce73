/** The DLSendFile protocol of idevicebackup: the restore side cuts a file into hunks, the backup side
    puts files together from hunks and acknowledges each file. */
module SendFile {
  import opened Bytes
  import opened Chunks
  import opened Options

  const HUNK_SIZE: nat := 8192

  datatype Status = None_ | Hunk | LastHunk

  datatype Piece = Piece(offset: nat, status: Status, data: seq<byte>)

  // ---------------------------------------------------------------- the splitter

  /** The hunks from an offset on. */
  function Hunks(content: seq<byte>, offset: nat): (h: seq<Piece>)
    requires offset <= |content|
    decreases |content| - offset
  {
    if |content| - offset <= HUNK_SIZE then [Piece(offset, LastHunk, content[offset..])]
    else [Piece(offset, Hunk, content[offset..offset + HUNK_SIZE])] + Hunks(content, offset + HUNK_SIZE)
  }

  /** The connection as the restore loop uses it: whether the i-th message goes out, whether the
      acknowledgement for the i-th message comes in. */
  class Restorer {
    const sends: nat -> bool
    const acks: nat -> bool
    var messages: seq<Piece>

    constructor (sends: nat -> bool, acks: nat -> bool)
      ensures this.sends == sends && this.acks == acks && messages == []
    {
      this.sends, this.acks, messages := sends, acks, [];
    }

    /** n messages from the i-th on all go out, and the last one is acknowledged. */
    predicate Reliable(i: nat, n: nat)
      requires n > 0
    {
      (forall k :: i <= k < i + n ==> sends(k)) && acks(i + n - 1)
    }

    /** The do-while loop that sends one file; false once a message or the acknowledgement fails. */
    method SendContent(content: seq<byte>) returns (ok: bool)
      requires |content| < TWO_64
      modifies this
      ensures ok ==> messages == old(messages) + Hunks(content, 0)
      ensures old(messages) <= messages <= old(messages) + Hunks(content, 0)
      ensures ok <==> Reliable(|old(messages)|, |Hunks(content, 0)|)
    {
      var fileOffset := 0;
      ghost var start, all := messages, Hunks(content, 0);
      var fileStatus := None_;
      while true
        invariant fileOffset <= |content|
        invariant messages + Hunks(content, fileOffset) == start + all && start <= messages
        invariant forall i :: |start| <= i < |messages| ==> sends(i)
        decreases |content| - fileOffset
      {
        if |content| - fileOffset <= HUNK_SIZE {
          fileStatus := LastHunk;
        } else {
          fileStatus := Hunk;
        }
        var data :=
          if fileStatus == LastHunk then content[fileOffset..] else content[fileOffset..fileOffset + HUNK_SIZE];
        var sent := sends(|messages|);
        ghost var left := Hunks(content, fileOffset);
        assert (start + all)[|messages|] == left[0];
        assert |start| + |all| == |messages| + |left|;
        if !sent {
          return false;
        }
        messages := messages + [Piece(fileOffset, fileStatus, data)];
        assert messages == (start + all)[..|messages|];
        if fileStatus == LastHunk {
          ok := acks(|messages| - 1);
          return;
        }
        fileOffset := fileOffset + HUNK_SIZE;
      }
    }
  }

  /** The data of hunks. */
  function SplitPieces(h: seq<Piece>): seq<seq<byte>> {
    if h == [] then [] else [h[0].data] + SplitPieces(h[1..])
  }

  /** Hunk i starts at 8192 i; only the last hunk, and there is always one, is marked last; the data
      put together are the file. */
  lemma {:induction false} HunksOf(content: seq<byte>, offset: nat)
    requires offset <= |content|
    ensures var h := Hunks(content, offset);
      && |h| > 0 && Flatten(SplitPieces(h)) == content[offset..] && |SplitPieces(h)| == |h|
      && |h| == (if offset == |content| then 1 else (|content| - offset + 8191) / 8192)
      && (forall i :: 0 <= i < |h| ==> h[i].offset == offset + 8192 * i)
      && (forall i :: 0 <= i < |h| ==> h[i].status == if i == |h| - 1 then LastHunk else Hunk)
      && (forall i :: 0 <= i < |h| - 1 ==> |h[i].data| == 8192)
    decreases |content| - offset
  {
    var h := Hunks(content, offset);
    if |content| - offset <= HUNK_SIZE {
      assert SplitPieces(h) == [h[0].data] && Flatten(SplitPieces(h)) == h[0].data + Flatten([]);
    } else {
      HunksOf(content, offset + HUNK_SIZE);
      var rest := Hunks(content, offset + HUNK_SIZE);
      assert h[1..] == rest;
      assert content[offset..] == content[offset..offset + HUNK_SIZE] + content[offset + HUNK_SIZE..];
      assert forall i :: 0 < i < |h| ==> h[i] == rest[i - 1];
    }
  }

  /** The hunks of what is left are its packets of 8192 bytes, or one empty hunk when nothing is. */
  lemma {:induction false} HunksArePackets(content: seq<byte>, offset: nat)
    requires offset <= |content|
    ensures SplitPieces(Hunks(content, offset)) ==
      if offset == |content| then [[]] else Packets(content, offset, HUNK_SIZE)
    decreases |content| - offset
  {
    var h := Hunks(content, offset);
    if |content| - offset <= HUNK_SIZE {
      assert h[1..] == [] && content[offset..] == content[offset..|content|];
      assert Packets(content, offset + HUNK_SIZE, HUNK_SIZE) == [];
    } else {
      HunksArePackets(content, offset + HUNK_SIZE);
      assert h[1..] == Hunks(content, offset + HUNK_SIZE);
    }
  }

  // ---------------------------------------------------------------- the receiver

  type Dest = string

  /** Files of the backup directory: data and metadata of a file, a manifest under way, the manifest. */
  datatype DiskFile = MdData(dest: Dest) | MdInfo(dest: Dest) | Pending(dest: Dest) | Manifest

  type Disk = map<DiskFile, seq<byte>>

  datatype Message = Message(dest: Dest, data: seq<byte>, status: Status, manifest: bool, info: Option<seq<byte>>)

  function PathOf(m: Message): DiskFile {
    if m.manifest then Pending(m.dest) else MdData(m.dest)
  }

  class Receiver {
    var disk: Disk
    var hunkIndex: nat
    var fileIndex: nat
    var acks: nat

    constructor (disk: Disk)
      ensures this.disk == disk && hunkIndex == fileIndex == acks == 0
    {
      this.disk, hunkIndex, fileIndex, acks := disk, 0, 0, 0;
    }

    /** fopen "ab", fwrite. */
    method Append(path: DiskFile, data: seq<byte>)
      modifies this`disk
      ensures disk == old(disk)[path := (if path in old(disk) then old(disk)[path] else []) + data]
    {
      disk := disk[path := (if path in disk then disk[path] else []) + data];
    }

    /** One round of the loop over DLSendFile messages. */
    method ReceiveHunk(m: Message)
      modifies this
      ensures State(disk, hunkIndex, fileIndex, acks)
          == Received(State(old(disk), old(hunkIndex), old(fileIndex), old(acks)), m)
    {
      ghost var d := disk;
      if m.status == LastHunk && !m.manifest {
        if m.info.Some? {
          disk := disk - {MdInfo(m.dest)};
          Append(MdInfo(m.dest), m.info.value);
          assert [] + m.info.value == m.info.value;
          assert disk == d[MdInfo(m.dest) := m.info.value];
        }
        fileIndex := fileIndex + 1;
      }
      var filename := PathOf(m);
      if hunkIndex == 0 && filename in disk {
        disk := disk - {filename};
      }
      ghost var d0 :=
        if m.status == LastHunk && !m.manifest && m.info.Some? then d[MdInfo(m.dest) := m.info.value] else d;
      Append(filename, m.data);
      assert disk == Stored(d0, m, hunkIndex == 0);
      if m.status == LastHunk && m.manifest {
        disk := (disk - {filename})[Manifest := disk[filename]];
      }
      hunkIndex := hunkIndex + 1;
      if m.status == LastHunk {
        acks := acks + 1;
        hunkIndex := 0;
      }
    }

    /** The loop, up to the first message that is no DLSendFile. */
    method ReceiveAll(messages: seq<Message>)
      modifies this
      ensures State(disk, hunkIndex, fileIndex, acks)
          == ReceivedAll(State(old(disk), old(hunkIndex), old(fileIndex), old(acks)), messages)
    {
      var i := 0;
      assert messages[0..] == messages;
      while i < |messages|
        invariant i <= |messages|
        invariant ReceivedAll(State(disk, hunkIndex, fileIndex, acks), messages[i..])
          == ReceivedAll(State(old(disk), old(hunkIndex), old(fileIndex), old(acks)), messages)
      {
        assert messages[i..][0] == messages[i] && messages[i..][1..] == messages[i + 1..];
        ReceiveHunk(messages[i]);
        i := i + 1;
      }
    }
  }

  datatype State = State(disk: Disk, hunkIndex: nat, fileIndex: nat, acks: nat)

  function Stored(disk: Disk, m: Message, first: bool): Disk {
    var path := PathOf(m);
    disk[path := (if path in disk && !first then disk[path] else []) + m.data]
  }

  function Received(s: State, m: Message): State {
    var last := m.status == LastHunk;
    var d0 := if last && !m.manifest && m.info.Some? then s.disk[MdInfo(m.dest) := m.info.value] else s.disk;
    var d1 := Stored(d0, m, s.hunkIndex == 0);
    var d2 := if last && m.manifest then (d1 - {Pending(m.dest)})[Manifest := d1[Pending(m.dest)]] else d1;
    State(d2, if last then 0 else s.hunkIndex + 1,
          s.fileIndex + (if last && !m.manifest then 1 else 0), s.acks + (if last then 1 else 0))
  }

  function ReceivedAll(s: State, messages: seq<Message>): State
    decreases |messages|
  {
    if messages == [] then s else ReceivedAll(Received(s, messages[0]), messages[1..])
  }

  lemma {:induction false} ReceivedAppend(s: State, a: seq<Message>, b: seq<Message>)
    ensures ReceivedAll(s, a + b) == ReceivedAll(ReceivedAll(s, a), b)
    decreases |a|
  {
    if a == [] {
      assert a + b == b;
    } else {
      ReceivedAppend(Received(s, a[0]), a[1..], b);
      assert (a + b)[1..] == a[1..] + b;
    }
  }

  /** A file as the device sends it, cut into one or more pieces of any size. */
  datatype Transfer = Transfer(dest: Dest, pieces: seq<seq<byte>>, manifest: bool, info: Option<seq<byte>>)

  /** The messages of a transfer from piece i on. */
  function Messages(t: Transfer, i: nat): (m: seq<Message>)
    requires i <= |t.pieces|
    decreases |t.pieces| - i
  {
    if i == |t.pieces| then []
    else
      var status := if i == |t.pieces| - 1 then LastHunk else Hunk;
      [Message(t.dest, t.pieces[i], status, t.manifest, t.info)] + Messages(t, i + 1)
  }

  /** The directory once a transfer is complete. */
  function Placed(disk: Disk, t: Transfer): Disk {
    if t.manifest then (disk - {Pending(t.dest)})[Manifest := Flatten(t.pieces)]
    else (if t.info.Some? then disk[MdInfo(t.dest) := t.info.value] else disk)[MdData(t.dest) := Flatten(t.pieces)]
  }

  /** Pieces 0 to i are on disk. */
  function Partial(disk: Disk, t: Transfer, done: seq<byte>): Disk {
    disk[(if t.manifest then Pending(t.dest) else MdData(t.dest)) := done]
  }

  lemma {:induction false} RestOfTransfer(disk: Disk, t: Transfer, i: nat, files: nat, acks: nat)
    requires 0 < i < |t.pieces|
    ensures ReceivedAll(State(Partial(disk, t, Flatten(t.pieces[..i])), i, files, acks), Messages(t, i))
         == State(Placed(disk, t), 0, files + (if t.manifest then 0 else 1), acks + 1)
    decreases |t.pieces| - i
  {
    var m := NextMessage(t, i);
    FlattenSnoc(t.pieces, i);
    if i == |t.pieces| - 1 {
      assert t.pieces[..i + 1] == t.pieces;
      LastReceived(disk, t, Flatten(t.pieces[..i]), m, i, files, acks);
    } else {
      RestOfTransfer(disk, t, i + 1, files, acks);
      HunkReceived(disk, t, Flatten(t.pieces[..i]), m, i, files, acks);
    }
  }

  lemma {:induction false} NextMessage(t: Transfer, i: nat) returns (m: Message)
    requires i < |t.pieces|
    ensures m == Message(t.dest, t.pieces[i], if i == |t.pieces| - 1 then LastHunk else Hunk, t.manifest, t.info)
    ensures Messages(t, i) == [m] + Messages(t, i + 1)
    ensures forall s :: ReceivedAll(s, Messages(t, i)) == ReceivedAll(Received(s, m), Messages(t, i + 1))
  {
    m := Messages(t, i)[0];
    assert Messages(t, i)[1..] == Messages(t, i + 1);
  }

  lemma {:induction false} HunkReceived(disk: Disk, t: Transfer, done: seq<byte>, m: Message, i: nat, files: nat,
                                        acks: nat)
    requires i > 0 && m.dest == t.dest && m.manifest == t.manifest && m.status == Hunk
    ensures Received(State(Partial(disk, t, done), i, files, acks), m)
      == State(Partial(disk, t, done + m.data), i + 1, files, acks)
  {
  }

  lemma {:induction false} LastReceived(disk: Disk, t: Transfer, done: seq<byte>, m: Message, i: nat, files: nat,
                                        acks: nat)
    requires i > 0 && m == Message(t.dest, m.data, LastHunk, t.manifest, t.info) && done + m.data == Flatten(t.pieces)
    ensures Received(State(Partial(disk, t, done), i, files, acks), m)
      == State(Placed(disk, t), 0, files + (if t.manifest then 0 else 1), acks + 1)
  {
    assert Received(State(Partial(disk, t, done), i, files, acks), m).disk == Placed(disk, t);
  }

  /** From between two files, a whole transfer is stored as one file and acknowledged once. */
  lemma {:induction false} WholeTransfer(disk: Disk, t: Transfer, files: nat, acks: nat)
    requires t.pieces != []
    ensures ReceivedAll(State(disk, 0, files, acks), Messages(t, 0))
         == State(Placed(disk, t), 0, files + (if t.manifest then 0 else 1), acks + 1)
  {
    var m := Messages(t, 0)[0];
    assert Messages(t, 0)[1..] == Messages(t, 1);
    FlattenSnoc(t.pieces, 0);
    assert Flatten(t.pieces[..0]) + t.pieces[0] == t.pieces[0];
    if |t.pieces| == 1 {
      assert t.pieces[..1] == t.pieces;
      assert Received(State(disk, 0, files, acks), m).disk == Placed(disk, t);
    } else {
      RestOfTransfer(disk, t, 1, files, acks);
      assert Received(State(disk, 0, files, acks), m).disk == Partial(disk, t, Flatten(t.pieces[..1]));
    }
  }

  function AllMessages(ts: seq<Transfer>): seq<Message> {
    if ts == [] then [] else Messages(ts[0], 0) + AllMessages(ts[1..])
  }

  function AllPlaced(disk: Disk, ts: seq<Transfer>): Disk
    decreases |ts|
  {
    if ts == [] then disk else AllPlaced(Placed(disk, ts[0]), ts[1..])
  }

  function DataFiles(ts: seq<Transfer>): nat {
    if ts == [] then 0 else (if ts[0].manifest then 0 else 1) + DataFiles(ts[1..])
  }

  /** Over any sequence of files, cut in any way: every file is rebuilt, one acknowledgement per file,
      and the count is that of the files other than manifests. */
  lemma {:induction false} AllTransfers(disk: Disk, ts: seq<Transfer>, files: nat, acks: nat)
    requires forall i :: 0 <= i < |ts| ==> ts[i].pieces != []
    ensures ReceivedAll(State(disk, 0, files, acks), AllMessages(ts))
         == State(AllPlaced(disk, ts), 0, files + DataFiles(ts), acks + |ts|)
    decreases |ts|
  {
    if ts != [] {
      ReceivedAppend(State(disk, 0, files, acks), Messages(ts[0], 0), AllMessages(ts[1..]));
      WholeTransfer(disk, ts[0], files, acks);
      AllTransfers(Placed(disk, ts[0]), ts[1..], files + (if ts[0].manifest then 0 else 1), acks + 1);
    }
  }

  /** The files of the directory that a transfer decides: data files their data and, if it comes with
      them, their metadata; a manifest the manifest, and what was under way under its name. */
  predicate Decides(t: Transfer, p: DiskFile) {
    match p
    case MdData(d) => !t.manifest && d == t.dest
    case MdInfo(d) => !t.manifest && d == t.dest && t.info.Some?
    case Pending(d) => t.manifest && d == t.dest
    case Manifest => t.manifest
  }

  /** What there is under the name then; None: no file. */
  function Left(t: Transfer, p: DiskFile): Option<seq<byte>> {
    match p
    case MdData(_) => Some(Flatten(t.pieces))
    case MdInfo(_) => t.info
    case Pending(_) => None
    case Manifest => Some(Flatten(t.pieces))
  }

  function Lookup(disk: Disk, p: DiskFile): Option<seq<byte>> {
    if p in disk then Some(disk[p]) else None
  }

  /** The last transfer that decides a file decides it; so the metadata of an earlier transfer outlive
      the data that came with them when a later one brings none. */
  lemma {:induction false} LastTransferWins(disk: Disk, ts: seq<Transfer>, i: nat, p: DiskFile)
    requires i < |ts| && Decides(ts[i], p) && forall j :: i < j < |ts| ==> !Decides(ts[j], p)
    ensures Lookup(AllPlaced(disk, ts), p) == Left(ts[i], p)
    decreases |ts|
  {
    var later := ts[1..];
    assert forall j :: 0 <= j < |later| ==> later[j] == ts[j + 1];
    if i > 0 {
      LastTransferWins(Placed(disk, ts[0]), later, i - 1, p);
    } else {
      UndecidedKept(Placed(disk, ts[0]), later, p);
    }
  }

  /** Files that no transfer decides stay as they were. */
  lemma {:induction false} UndecidedKept(disk: Disk, ts: seq<Transfer>, p: DiskFile)
    requires forall j :: 0 <= j < |ts| ==> !Decides(ts[j], p)
    ensures Lookup(AllPlaced(disk, ts), p) == Lookup(disk, p)
    decreases |ts|
  {
    if ts != [] {
      var later := ts[1..];
      assert forall j :: 0 <= j < |later| ==> later[j] == ts[j + 1];
      UndecidedKept(Placed(disk, ts[0]), later, p);
    }
  }

  /** A file cut by the restore splitter and sent as a data file is rebuilt exactly. */
  lemma {:induction false} SplitThenReceive(disk: Disk, dest: Dest, content: seq<byte>, files: nat, acks: nat)
    ensures var t := Transfer(dest, SplitPieces(Hunks(content, 0)), false, None);
      ReceivedAll(State(disk, 0, files, acks), Messages(t, 0))
        == State(disk[MdData(dest) := content], 0, files + 1, acks + 1)
  {
    HunksOf(content, 0);
    assert content[0..] == content;
    WholeTransfer(disk, Transfer(dest, SplitPieces(Hunks(content, 0)), false, None), files, acks);
  }
}
