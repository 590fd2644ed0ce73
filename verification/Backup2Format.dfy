/** The mobilebackup2 file stream: names, length/code/data blocks, a closing zero. */
module Backup2Format {
  import opened Bytes
  import opened Chunks
  import opened Options

  const CODE_SUCCESS: byte := 0x00
  const CODE_ERROR_LOCAL: byte := 0x06
  const CODE_ERROR_REMOTE: byte := 0x0B
  const CODE_FILE_DATA: byte := 0x0C

  const MAX_NAME: nat := 4096
  const BUFFER_SIZE: nat := 32768

  type Path = seq<byte>
  type Tree = map<Path, seq<byte>>

  /** How a file's blocks end: with a success marker, with a message from the device, or by the zero
      that closes the whole stream. */
  datatype Ending = Done | RemoteError(message: seq<byte>) | Cut

  datatype Entry = Entry(device: seq<byte>, name: seq<byte>, blocks: seq<seq<byte>>, ending: Ending)

  function Chunk(code: byte, data: seq<byte>): (s: seq<byte>) {
    Be32(|data| + 1) + [code] + data
  }

  function EndBytes(e: Ending): (s: seq<byte>) {
    match e
    case Done => Chunk(CODE_SUCCESS, [])
    case RemoteError(m) => Chunk(CODE_ERROR_REMOTE, m)
    case Cut => []
  }

  /** Everything behind the names. */
  function Items(blocks: seq<seq<byte>>, ending: Ending): (s: seq<byte>) {
    if blocks == [] then EndBytes(ending) else Chunk(CODE_FILE_DATA, blocks[0]) + Items(blocks[1..], ending)
  }

  function Named(s: seq<byte>): seq<byte> {
    Be32(|s|) + s
  }

  function EntryBytes(e: Entry): (s: seq<byte>) {
    Named(e.device) + Named(e.name) + Items(e.blocks, e.ending)
  }

  function Stream(files: seq<Entry>): (s: seq<byte>) {
    if files == [] then Be32(0) else EntryBytes(files[0]) + Stream(files[1..])
  }

  predicate ValidBlocks(blocks: seq<seq<byte>>) {
    forall i :: 0 <= i < |blocks| ==> |blocks[i]| + 1 < TWO_32
  }

  /** Names of 1 to 4096 bytes; messages are not empty; only the last entry may be cut, behind data. */
  predicate ValidEntry(e: Entry, last: bool) {
    && 0 < |e.device| <= MAX_NAME && 0 < |e.name| <= MAX_NAME && ValidBlocks(e.blocks)
    && (e.ending.RemoteError? ==> 0 < |e.ending.message| && |e.ending.message| + 1 < TWO_32)
    && (e.ending.Cut? ==> last && e.blocks != [])
  }

  predicate ValidFiles(files: seq<Entry>) {
    files == [] || (ValidEntry(files[0], |files| == 1) && ValidFiles(files[1..]))
  }

  /** The C string a buffer holds: everything before the first NUL. */
  function CString(s: seq<byte>): Path {
    if s == [] || s[0] == 0 then [] else [s[0]] + CString(s[1..])
  }

  lemma {:induction false} CStringExactly(s: seq<byte>)
    ensures CString(s) <= s && forall i :: 0 <= i < |CString(s)| ==> s[i] != 0
    ensures |CString(s)| < |s| ==> s[|CString(s)|] == 0
  {
    if s != [] && s[0] != 0 {
      CStringExactly(s[1..]);
      assert forall i :: 0 < i < |s| ==> s[i] == s[1..][i - 1];
    }
  }

  /** The tree after all entries have been written in order. */
  function Applied(tree: Tree, files: seq<Entry>): (t: Tree)
    decreases |files|
  {
    if files == [] then tree
    else Applied(tree[CString(files[0].name) := Flatten(files[0].blocks)], files[1..])
  }

  /** The last entry for a path decides; other paths keep what they had. */
  lemma {:induction false} LastWins(tree: Tree, files: seq<Entry>, i: nat)
    requires i < |files|
    requires forall j :: i < j < |files| ==> CString(files[j].name) != CString(files[i].name)
    ensures var p := CString(files[i].name);
      p in Applied(tree, files) && Applied(tree, files)[p] == Flatten(files[i].blocks)
    decreases |files|
  {
    var tree' := tree[CString(files[0].name) := Flatten(files[0].blocks)];
    assert forall j :: 0 < j < |files| ==> files[1..][j - 1] == files[j];
    if i > 0 {
      assert forall j :: i - 1 < j < |files[1..]| ==> files[1..][j] == files[j + 1];
      LastWins(tree', files[1..], i - 1);
    } else {
      assert forall j :: 0 <= j < |files[1..]| ==> files[1..][j] == files[j + 1];
      Untouched(tree', files[1..], CString(files[0].name));
    }
  }

  lemma {:induction false} Untouched(tree: Tree, files: seq<Entry>, p: Path)
    requires forall j :: 0 <= j < |files| ==> CString(files[j].name) != p
    ensures p in Applied(tree, files) <==> p in tree
    ensures p in tree ==> Applied(tree, files)[p] == tree[p]
    decreases |files|
  {
    if files != [] {
      assert forall j :: 0 <= j < |files[1..]| ==> files[1..][j] == files[j + 1];
      Untouched(tree[CString(files[0].name) := Flatten(files[0].blocks)], files[1..], p);
    }
  }

  // ---------------------------------------------------------------- the sender

  const ENOENT: nat := 2
  const EEXIST: nat := 17
  const MULTI_STATUS: int := -13

  /** Failed: the file cannot be read.  Refused: the path itself could not be sent, because it is empty. */
  datatype SendOutcome = Sent(content: seq<byte>) | Failed(errno: nat) | Refused

  function OutcomeOf(tree: Tree, denied: map<Path, nat>, path: Path): SendOutcome {
    if path == [] then Refused
    else if path in denied then Failed(denied[path])
    else if path !in tree then Failed(ENOENT)
    else Sent(tree[path])
  }

  /** errno_to_device_error */
  function DeviceError(errno: nat): int {
    if errno == ENOENT then -6 else if errno == EEXIST then -7 else 0 - errno
  }

  function Added(errs: Option<map<Path, int>>, path: Path, errno: nat): map<Path, int> {
    (if errs.Some? then errs.value else map[])[path := DeviceError(errno)]
  }

  /** A file cut into blocks of 32768 bytes, the last one shorter. */
  function Split(content: seq<byte>): (blocks: seq<seq<byte>>) {
    Packets(content, 0, BUFFER_SIZE)
  }

  lemma {:induction false} SplitStep(content: seq<byte>)
    requires content != []
    ensures var n := Min(BUFFER_SIZE, |content|); Split(content) == [content[..n]] + Split(content[n..])
  {
    var n := Min(BUFFER_SIZE, |content|);
    assert content[0..n] == content[..n];
    PacketsShift(content, 0, n, BUFFER_SIZE);
    assert Packets(content, BUFFER_SIZE, BUFFER_SIZE) == Packets(content, n + 0, BUFFER_SIZE);
  }

  /** The blocks of a file on the wire. */
  function BlockBytes(content: seq<byte>): (s: seq<byte>)
    decreases |content|
  {
    if content == [] then []
    else
      var n := Min(BUFFER_SIZE, |content|);
      Be32(n + 1) + [CODE_FILE_DATA] + content[..n] + BlockBytes(content[n..])
  }

  function SentBytes(path: Path, outcome: SendOutcome, strerror: nat -> seq<byte>): (s: seq<byte>) {
    match outcome
    case Refused => Be32(|path|)
    case Failed(errno) => Named(path) + Chunk(CODE_ERROR_LOCAL, strerror(errno))
    case Sent(content) => Named(path) + Items(Split(content), Done)
  }

  /** The frames of a batch: up to and including the first file that is not sent. */
  function BatchBytes(tree: Tree, denied: map<Path, nat>, strerror: nat -> seq<byte>,
                      files: seq<Option<Path>>): (s: seq<byte>)
    decreases |files|
  {
    if files == [] then []
    else if files[0].None? then BatchBytes(tree, denied, strerror, files[1..])
    else
      var o := OutcomeOf(tree, denied, files[0].value);
      SentBytes(files[0].value, o, strerror) + (if o.Sent? then BatchBytes(tree, denied, strerror, files[1..]) else [])
  }

  /** A status response: its code, and the device error of each file that failed. */
  datatype Response = Response(code: int, files: map<Path, int>)

  function BatchResponse(tree: Tree, denied: map<Path, nat>, files: seq<Option<Path>>): (r: Response)
    decreases |files|
  {
    if files == [] then Response(0, map[])
    else if files[0].None? then BatchResponse(tree, denied, files[1..])
    else
      match OutcomeOf(tree, denied, files[0].value)
      case Sent(_) => BatchResponse(tree, denied, files[1..])
      case Failed(errno) => Response(MULTI_STATUS, map[files[0].value := DeviceError(errno)])
      case Refused => Response(0, map[])
  }

  lemma {:induction false} BlocksThenEnd(content: seq<byte>)
    ensures BlockBytes(content) + (Be32(1) + [CODE_SUCCESS]) == Items(Split(content), Done)
    decreases |content|
  {
    if content == [] {
      assert Be32(1) + [CODE_SUCCESS] == Be32(1) + [CODE_SUCCESS] + [];
    } else {
      var n := Min(BUFFER_SIZE, |content|);
      BlocksThenEnd(content[n..]);
      var c, rest := Be32(n + 1) + [CODE_FILE_DATA] + content[..n], BlockBytes(content[n..]);
      assert (c + rest) + (Be32(1) + [CODE_SUCCESS]) == c + (rest + (Be32(1) + [CODE_SUCCESS]));
      SplitStep(content);
    }
  }

  lemma {:induction false} Appended(wire: seq<byte>, a: seq<byte>, b: seq<byte>, c: seq<byte>, d: seq<byte>)
    ensures wire + a + b + c + d == wire + ((a + b) + (c + d))
    ensures c == [] ==> wire + a + b + d == wire + ((a + b) + d)
  {
  }

  lemma {:induction false} BlockStep(wire: seq<byte>, left: seq<byte>, r: nat)
    requires left != [] && r == Min(BUFFER_SIZE, |left|)
    ensures wire + BlockBytes(left) == (wire + (Be32(r + 1) + [CODE_FILE_DATA]) + left[..r]) + BlockBytes(left[r..])
  {
  }

  lemma {:induction false} CastIsExact(total: nat, sent: nat)
    requires sent <= total && total - sent < TWO_32
    ensures (total % TWO_32 - sent) % TWO_32 == total - sent
  {
    var q, x := total / TWO_32, total % TWO_32 - sent;
    var y := x % TWO_32;
    assert total == q * TWO_32 + total % TWO_32;
    assert x == (x / TWO_32) * TWO_32 + y;
    MultipleAtLeast(x / TWO_32 + q, TWO_32);
  }

  // ---------------------------------------------------------------- what sender and receiver agree on

  /** The blocks put together are the file; there are ceil(size / 32768) of them, none is empty, all but
      the last hold 32768 bytes. */
  lemma {:induction false} SplitBlocks(content: seq<byte>)
    ensures var blocks := Split(content);
      && Flatten(blocks) == content && ValidBlocks(blocks) && |blocks| == CeilDiv(|content|, 32768)
      && (forall i :: 0 <= i < |blocks| ==> 0 < |blocks[i]| <= 32768)
      && (forall i :: 0 <= i < |blocks| - 1 ==> |blocks[i]| == 32768)
  {
    PacketsOf(content, 0, BUFFER_SIZE);
    assert content[0..] == content;
  }

  /** What the sender emits for a file, with the device's name put in front, is an entry of the
      receiver's stream that holds exactly this file. */
  lemma {:induction false} SentIsEntry(device: seq<byte>, path: Path, content: seq<byte>, strerror: nat -> seq<byte>)
    requires 0 < |device| <= MAX_NAME && 0 < |path| <= MAX_NAME
    ensures var e := Entry(device, path, Split(content), Done);
      && ValidEntry(e, false) && Flatten(e.blocks) == content
      && Named(device) + SentBytes(path, Sent(content), strerror) == EntryBytes(e)
  {
    SplitBlocks(content);
    Regroup(Named(device), Named(path), Items(Split(content), Done));
  }

  // ---------------------------------------------------------------- the status of a batch

  /** The i-th entry is the first that is a path and is not sent. */
  ghost predicate FirstUnsent(tree: Tree, denied: map<Path, nat>, files: seq<Option<Path>>, i: int) {
    && 0 <= i < |files| && files[i].Some? && !OutcomeOf(tree, denied, files[i].value).Sent?
    && forall j :: 0 <= j < i && files[j].Some? ==> OutcomeOf(tree, denied, files[j].value).Sent?
  }

  ghost predicate SomeUnsent(tree: Tree, denied: map<Path, nat>, files: seq<Option<Path>>) {
    exists i :: 0 <= i < |files| && files[i].Some? && !OutcomeOf(tree, denied, files[i].value).Sent?
  }

  /** The status is decided by the first file that is not sent: 0 if its path is empty, and 0 if
      there is none. */
  lemma {:induction false} StatusOfBatch(tree: Tree, denied: map<Path, nat>, files: seq<Option<Path>>)
    ensures BatchResponse(tree, denied, files).code == 0
       <==> !SomeUnsent(tree, denied, files) || exists i :: FirstUnsent(tree, denied, files, i) && files[i].value == []
    ensures forall i :: FirstUnsent(tree, denied, files, i) ==>
      (files[i].value != [] ==> BatchResponse(tree, denied, files).files.Keys == {files[i].value})
    decreases |files|
  {
    if files != [] {
      var rest := files[1..];
      assert forall j :: 0 <= j < |rest| ==> rest[j] == files[j + 1];
      if files[0].None? || OutcomeOf(tree, denied, files[0].value).Sent? {
        StatusOfBatch(tree, denied, rest);
        UnsentLater(tree, denied, files);
      } else {
        assert FirstUnsent(tree, denied, files, 0);
        assert forall i :: FirstUnsent(tree, denied, files, i) ==> i == 0;
      }
    }
  }

  lemma {:induction false} UnsentLater(tree: Tree, denied: map<Path, nat>, files: seq<Option<Path>>)
    requires files != [] && (files[0].None? || OutcomeOf(tree, denied, files[0].value).Sent?)
    ensures SomeUnsent(tree, denied, files) <==> SomeUnsent(tree, denied, files[1..])
    ensures forall i :: FirstUnsent(tree, denied, files, i) ==> i > 0 && FirstUnsent(tree, denied, files[1..], i - 1)
    ensures forall i :: FirstUnsent(tree, denied, files[1..], i) ==> FirstUnsent(tree, denied, files, i + 1)
  {
    var rest := files[1..];
    assert forall j :: 0 <= j < |rest| ==> rest[j] == files[j + 1];
    assert forall j :: 0 < j < |files| ==> files[j] == rest[j - 1];
  }

  /** What one entry of a batch is on the wire: nothing if it is no path. */
  function Frame(tree: Tree, denied: map<Path, nat>, strerror: nat -> seq<byte>, f: Option<Path>): seq<byte> {
    if f.None? then [] else SentBytes(f.value, OutcomeOf(tree, denied, f.value), strerror)
  }

  ghost function Frames(tree: Tree, denied: map<Path, nat>, strerror: nat -> seq<byte>,
                        files: seq<Option<Path>>): (frames: seq<seq<byte>>)
    ensures |frames| == |files|
    ensures forall i :: 0 <= i < |files| ==> frames[i] == Frame(tree, denied, strerror, files[i])
  {
    seq(|files|, i requires 0 <= i < |files| => Frame(tree, denied, strerror, files[i]))
  }

  lemma {:induction false} FramesStep(tree: Tree, denied: map<Path, nat>, strerror: nat -> seq<byte>,
                                      files: seq<Option<Path>>)
    requires files != []
    ensures var frames := Frames(tree, denied, strerror, files);
      frames[0] == Frame(tree, denied, strerror, files[0]) && frames[1..] == Frames(tree, denied, strerror, files[1..])
  {
  }

  lemma {:induction false} FrameInFront(tree: Tree, denied: map<Path, nat>, strerror: nat -> seq<byte>,
                                        files: seq<Option<Path>>, n: nat)
    requires 0 < n <= |files|
    ensures Flatten(Frames(tree, denied, strerror, files[..n]))
      == Frame(tree, denied, strerror, files[0]) + Flatten(Frames(tree, denied, strerror, files[1..][..n - 1]))
  {
    FramesStep(tree, denied, strerror, files[..n]);
    assert files[..n][1..] == files[1..][..n - 1];
  }

  lemma {:induction false} AllFrames(tree: Tree, denied: map<Path, nat>, strerror: nat -> seq<byte>,
                                     files: seq<Option<Path>>)
    requires !SomeUnsent(tree, denied, files)
    ensures BatchBytes(tree, denied, strerror, files) == Flatten(Frames(tree, denied, strerror, files))
    decreases |files|
  {
    if files != [] {
      assert files[0].None? || OutcomeOf(tree, denied, files[0].value).Sent?;
      UnsentLater(tree, denied, files);
      AllFrames(tree, denied, strerror, files[1..]);
      FramesStep(tree, denied, strerror, files);
    }
  }

  lemma {:induction false} FramesUpTo(tree: Tree, denied: map<Path, nat>, strerror: nat -> seq<byte>,
                                      files: seq<Option<Path>>, i: nat)
    requires FirstUnsent(tree, denied, files, i)
    ensures BatchBytes(tree, denied, strerror, files) == Flatten(Frames(tree, denied, strerror, files[..i + 1]))
    decreases |files|
  {
    FrameInFront(tree, denied, strerror, files, i + 1);
    if i > 0 {
      assert files[0].None? || OutcomeOf(tree, denied, files[0].value).Sent?;
      UnsentLater(tree, denied, files);
      FramesUpTo(tree, denied, strerror, files[1..], i - 1);
    } else {
      assert files[1..][..0] == [];
    }
  }

  /** A batch on the wire: the frames of all its files when each is sent, else those up to the first
      file that is not sent and its own. */
  lemma {:induction false} FramesOfBatch(tree: Tree, denied: map<Path, nat>, strerror: nat -> seq<byte>,
                                         files: seq<Option<Path>>, n: nat)
    requires if SomeUnsent(tree, denied, files) then FirstUnsent(tree, denied, files, n - 1) else n == |files|
    ensures BatchBytes(tree, denied, strerror, files) == Flatten(Frames(tree, denied, strerror, files[..n]))
  {
    if SomeUnsent(tree, denied, files) {
      FramesUpTo(tree, denied, strerror, files, n - 1);
    } else {
      assert files[..n] == files;
      AllFrames(tree, denied, strerror, files);
    }
  }

  /** "Status 0 exactly when no file failed" is false of an empty path, which fails without a trace. */
  lemma {:induction false} EmptyPathGoesUnreported(tree: Tree, denied: map<Path, nat>)
    ensures var files := [Some([])]; SomeUnsent(tree, denied, files) && BatchResponse(tree, denied, files).code == 0
  {
    var files: seq<Option<Path>> := [Some([])];
    assert files[0].Some? && OutcomeOf(tree, denied, files[0].value) == Refused;
  }
}
