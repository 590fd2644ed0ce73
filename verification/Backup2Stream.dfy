/** What the mobilebackup2 receiver does with any bytes, well formed or not, and with streams that end
    early.  Lengths that are not received keep what the variable held. */
module Backup2Stream {
  import opened Bytes
  import opened Chunks
  import opened Options
  import opened Backup2Format

  /** The variables of the receive loop. */
  datatype State = State(
    stream: seq<byte>,      // still to be received
    tree: Tree,
    nlen: nat,
    code: byte,
    bname: Option<Path>,
    count: nat)

  /** The loop goes on, or it ends. */
  datatype Progress = Go(s: State) | Stop(s: State)

  function Front(s: seq<byte>, n: nat): (f: seq<byte>)
    ensures |f| == Min(n, |s|)
  {
    s[..Min(n, |s|)]
  }

  function Behind(s: seq<byte>, n: nat): (r: seq<byte>)
    ensures |r| == |s| - Min(n, |s|)
  {
    s[Min(n, |s|)..]
  }

  /** The four bytes of a length variable after receiving into it. */
  function LengthBytes(stream: seq<byte>, stale: nat): (b: seq<byte>)
    ensures |b| == 4
  {
    Front(stream, 4) + Le32(stale)[|Front(stream, 4)|..]
  }

  /** The device's name for a file, which is dropped, and the name it is stored under. */
  function Names(s: State): Progress {
    var n1, s1 := FromBe(LengthBytes(s.stream, s.nlen)), Behind(s.stream, 4);
    if n1 == 0 || n1 > MAX_NAME then Stop(s.(stream := s1, nlen := n1))
    else if |s1| < n1 then Stop(s.(stream := [], nlen := n1))
    else StoredName(s.(stream := s1[n1..]))
  }

  function StoredName(s: State): Progress {
    var n2, s2 := FromBe(LengthBytes(s.stream, 0)), Behind(s.stream, 4);
    if n2 == 0 || n2 > MAX_NAME then Stop(s.(stream := s2, nlen := n2))
    else if |s2| < n2 then Stop(s.(stream := [], nlen := n2))
    else Go(s.(stream := s2[n2..], nlen := n2, bname := Some(CString(s2[..n2]))))
  }

  /** The first length and code of a file. */
  function Head(s: State): Progress {
    if |s.stream| < 4 then Stop(s.(stream := [], nlen := FromLe(LengthBytes(s.stream, 0))))
    else
      var n := FromBe(s.stream[..4]);
      if |s.stream| == 4 then Stop(s.(stream := [], nlen := n, code := 0))
      else Go(s.(stream := s.stream[5..], nlen := n, code := s.stream[4]))
  }

  /** Arithmetic on an unsigned 32-bit length. */
  function BlockSize(nlen: nat): nat {
    if nlen == 0 then TWO_32 - 1 else nlen - 1
  }

  lemma {:induction false} NothingReceived(stream: seq<byte>)
    ensures FromBe(LengthBytes(stream, 0)) > 0 ==> stream != []
  {
    if stream == [] {
      assert LengthBytes([], 0) == [0, 0, 0, 0];
      assert Be32(0) == [0, 0, 0, 0];
      Be32RoundTrip(0);
    }
  }

  /** A block, and the length and code of the next. */
  function ItemTaken(s: State): (p: Progress)
    requires s.bname.Some? && s.bname.value in s.tree
    ensures p.s.bname == s.bname && s.bname.value in p.s.tree && p.s.count == s.count
  {
    var data, s1 := Front(s.stream, BlockSize(s.nlen)), Behind(s.stream, BlockSize(s.nlen));
    var tree := s.tree[s.bname.value := s.tree[s.bname.value] + data];
    var n, s2 := FromBe(LengthBytes(s1, 0)), Behind(s1, 4);
    if n == 0 then Stop(s.(stream := s2, tree := tree, nlen := 0))
    else Go(s.(stream := Behind(s2, 1), tree := tree, nlen := n, code := if s2 == [] then s.code else s2[0]))
  }

  lemma {:induction false} BlockTaken(s: State)
    requires s.bname.Some? && s.bname.value in s.tree
    ensures |ItemTaken(s).s.stream| <= |s.stream| && (ItemTaken(s).Go? ==> |ItemTaken(s).s.stream| < |s.stream|)
  {
    NothingReceived(Behind(s.stream, BlockSize(s.nlen)));
  }

  /** The loop over the blocks of a file. */
  function Blocks(s: State): (r: State)
    requires s.bname.Some? && s.bname.value in s.tree
    ensures |r.stream| <= |s.stream| && r.bname == s.bname && r.count == s.count
    decreases |s.stream|
  {
    if s.code != CODE_FILE_DATA then s
    else
      BlockTaken(s);
      match ItemTaken(s)
      case Stop(r) => r
      case Go(r) => Blocks(r)
  }

  /** A file from its first code on.  None: an empty error message, whose terminator goes to an index
      left over from another receive. */
  function Body(s: State): Option<Progress>
    requires s.bname.Some?
  {
    BodyEnd(Blocks(s.(tree := s.tree[s.bname.value := []])))
  }

  /** Behind the blocks of a file. */
  function BodyEnd(r: State): Option<Progress> {
    var t := r.(count := r.count + 1);
    if t.nlen == 0 then Some(Stop(t))
    else if t.code == CODE_ERROR_REMOTE then
      if t.nlen == 1 then None else Some(Go(t.(stream := Behind(t.stream, t.nlen - 1))))
    else Some(Go(t))
  }

  function Round(s: State): Option<Progress> {
    var names := Names(s);
    if names.Stop? then Some(names)
    else
      var head := Head(names.s);
      if head.Stop? then Some(head) else Body(head.s)
  }

  lemma {:induction false} NamesShorten(s: State)
    ensures Names(s).Go? ==> |Names(s).s.stream| < |s.stream| && Names(s).s.bname.Some?
  {
  }

  lemma {:induction false} RoundShortens(s: State)
    ensures Names(s).Go? && Head(Names(s).s).Go? ==> Head(Names(s).s).s.bname.Some?
    ensures Round(s).Some? && Round(s).value.Go? ==> |Round(s).value.s.stream| < |s.stream|
  {
    NamesShorten(s);
  }

  function Rounds(s: State): Option<State>
    decreases |s.stream|
  {
    RoundShortens(s);
    var r := Round(s);
    if r.None? then None else if r.value.Stop? then Some(r.value.s) else Rounds(r.value.s)
  }

  /** What is left to read is dropped, and the file written last is removed.  None: a length whose signed
      decrement overflows. */
  function CleanedUp(s: State): Option<State> {
    if s.nlen == TWO_31 then None
    else if 1 < s.nlen < TWO_31 then
      var tree := if s.bname.Some? then s.tree - {s.bname.value} else s.tree;
      Some(s.(stream := Behind(s.stream, s.nlen - 1), tree := tree))
    else Some(s)
  }

  function Received(stream: seq<byte>, tree: Tree): Option<State> {
    var s := Rounds(State(stream, tree, 0, 0, None, 0));
    if s.None? then None else CleanedUp(s.value)
  }

  // ---------------------------------------------------------------- well-formed streams

  ghost predicate ValidTail(blocks: seq<seq<byte>>, ending: Ending) {
    ValidBlocks(blocks) && (ending.RemoteError? ==> 0 < |ending.message| && |ending.message| + 1 < TWO_32)
  }

  /** The stream behind the length and code of the first item. */
  ghost predicate HeadRead(incoming: seq<byte>, nlen: nat, code: byte, blocks: seq<seq<byte>>, ending: Ending,
                           rest: seq<byte>) {
    if blocks != [] then
      nlen == |blocks[0]| + 1 && code == CODE_FILE_DATA && incoming == blocks[0] + (Items(blocks[1..], ending) + rest)
    else
      match ending
      case Done => nlen == 1 && code == CODE_SUCCESS && incoming == rest
      case RemoteError(m) => nlen == |m| + 1 && code == CODE_ERROR_REMOTE && incoming == m + rest
      case Cut => false
  }

  lemma {:induction false} HeadLength(blocks: seq<seq<byte>>, ending: Ending, rest: seq<byte>)
    requires ValidTail(blocks, ending)
    requires blocks == [] && ending.Cut? ==> Be32(0) <= rest
    ensures var s := Items(blocks, ending) + rest;
      if blocks == [] && ending.Cut? then |s| >= 4 && FromBe(s[..4]) == 0 && s[4..] == rest[4..]
      else |s| >= 5 && FromBe(s[..4]) > 0 && HeadRead(s[5..], FromBe(s[..4]), s[4], blocks, ending, rest)
  {
    if blocks != [] {
      BlockFront(blocks, ending, rest);
    } else {
      EndFront(ending, rest);
    }
  }

  lemma {:induction false} BlockFront(blocks: seq<seq<byte>>, ending: Ending, rest: seq<byte>)
    requires ValidBlocks(blocks) && blocks != []
    ensures var s := Items(blocks, ending) + rest;
      |s| >= 5 && FromBe(s[..4]) == |blocks[0]| + 1 && s[4] == CODE_FILE_DATA
        && s[5..] == blocks[0] + (Items(blocks[1..], ending) + rest)
  {
    Regroup(Chunk(CODE_FILE_DATA, blocks[0]), Items(blocks[1..], ending), rest);
    ChunkFront(CODE_FILE_DATA, blocks[0], Items(blocks[1..], ending) + rest);
  }

  lemma {:induction false} EndFront(ending: Ending, rest: seq<byte>)
    requires ValidTail([], ending) && (ending.Cut? ==> Be32(0) <= rest)
    ensures var s := EndBytes(ending) + rest;
      match ending
      case Done => |s| >= 5 && FromBe(s[..4]) == 1 && s[4] == CODE_SUCCESS && s[5..] == rest
      case RemoteError(m) => |s| >= 5 && FromBe(s[..4]) == |m| + 1 && s[4] == CODE_ERROR_REMOTE && s[5..] == m + rest
      case Cut => |s| >= 4 && FromBe(s[..4]) == 0 && s[4..] == rest[4..]
  {
    match ending
    case Done =>
      ChunkFront(CODE_SUCCESS, [], rest);
      assert [] + rest == rest;
    case RemoteError(m) => ChunkFront(CODE_ERROR_REMOTE, m, rest);
    case Cut =>
      Be32RoundTrip(0);
      assert [] + rest == rest && rest[..4] == Be32(0);
  }

  lemma {:induction false} ChunkFront(code: byte, data: seq<byte>, rest: seq<byte>)
    requires |data| + 1 < TWO_32
    ensures var s := Chunk(code, data) + rest;
      |s| >= 5 && FromBe(s[..4]) == |data| + 1 && s[4] == code && s[5..] == data + rest
  {
    Be32RoundTrip(|data| + 1);
    assert (Chunk(code, data) + rest)[..4] == Be32(|data| + 1);
  }

  lemma {:induction false} LengthRead(n: nat, tail: seq<byte>, stale: nat)
    requires n < TWO_32
    ensures FromBe(LengthBytes(Be32(n) + tail, stale)) == n && Behind(Be32(n) + tail, 4) == tail
  {
    Be32RoundTrip(n);
    assert LengthBytes(Be32(n) + tail, stale) == Be32(n);
  }

  lemma {:induction false} StoredNameOf(s: State, name: seq<byte>, tail: seq<byte>)
    requires 0 < |name| <= MAX_NAME && s.stream == Be32(|name|) + (name + tail)
    ensures StoredName(s) == Go(s.(stream := tail, nlen := |name|, bname := Some(CString(name))))
  {
    LengthRead(|name|, name + tail, 0);
    assert (name + tail)[|name|..] == tail && (name + tail)[..|name|] == name;
  }

  lemma {:induction false} DeviceNameOf(s: State, device: seq<byte>, more: seq<byte>)
    requires 0 < |device| <= MAX_NAME && s.stream == Be32(|device|) + (device + more)
    ensures Names(s) == StoredName(s.(stream := more))
  {
    LengthRead(|device|, device + more, s.nlen);
    assert (device + more)[|device|..] == more;
  }

  lemma {:induction false} NamesOf(s: State, device: seq<byte>, name: seq<byte>, tail: seq<byte>)
    requires 0 < |device| <= MAX_NAME && 0 < |name| <= MAX_NAME
    requires s.stream == Named(device) + (Named(name) + tail)
    ensures Names(s) == Go(s.(stream := tail, nlen := |name|, bname := Some(CString(name))))
  {
    var more := Named(name) + tail;
    Regroup(Be32(|device|), device, more);
    Regroup(Be32(|name|), name, tail);
    DeviceNameOf(s, device, more);
    StoredNameOf(s.(stream := more), name, tail);
  }

  /** What the receiver has read when the blocks of a file are done. */
  ghost predicate BlocksDone(r: State, ending: Ending, tail: seq<byte>) {
    if ending.Cut? then Be32(0) <= tail && r.nlen == 0 && r.stream == tail[4..]
    else r.nlen > 0 && HeadRead(r.stream, r.nlen, r.code, [], ending, tail)
  }

  lemma {:induction false} BlocksOf(s: State, blocks: seq<seq<byte>>, ending: Ending, tail: seq<byte>)
    requires s.bname.Some? && s.bname.value in s.tree && ValidTail(blocks, ending)
    requires ending.Cut? ==> blocks != [] && Be32(0) <= tail
    requires s.nlen > 0 && HeadRead(s.stream, s.nlen, s.code, blocks, ending, tail)
    ensures var r := Blocks(s);
      && BlocksDone(r, ending, tail) && r.tree == s.tree[s.bname.value := s.tree[s.bname.value] + Flatten(blocks)]
    decreases |blocks|
  {
    if blocks == [] {
      NoBlocks(s, ending, tail);
    } else if blocks[1..] == [] && ending.Cut? {
      OneFlattened(blocks);
      LastBlock(s, blocks[0], tail);
    } else {
      AddedTwice(s.tree, s.bname.value, blocks);
      var next := OneBlock(s, blocks, ending, tail);
      BlocksOf(next, blocks[1..], ending, tail);
    }
  }

  lemma {:induction false} NoBlocks(s: State, ending: Ending, tail: seq<byte>)
    requires s.bname.Some? && s.bname.value in s.tree
    requires s.nlen > 0 && HeadRead(s.stream, s.nlen, s.code, [], ending, tail)
    ensures Blocks(s) == s && !ending.Cut?
    ensures s.tree == s.tree[s.bname.value := s.tree[s.bname.value] + Flatten<byte>([])]
  {
    NothingAdded(s.tree, s.bname.value);
  }

  lemma {:induction false} NothingAdded(tree: Tree, b: Path)
    requires b in tree
    ensures tree[b := tree[b] + Flatten<byte>([])] == tree
  {
    assert tree[b] + [] == tree[b];
  }

  lemma {:induction false} OneFlattened(blocks: seq<seq<byte>>)
    requires |blocks| == 1
    ensures Flatten(blocks) == blocks[0]
  {
    assert blocks[0] + Flatten<byte>([]) == blocks[0];
  }

  lemma {:induction false} AddedTwice(tree: Tree, b: Path, blocks: seq<seq<byte>>)
    requires b in tree && blocks != []
    ensures var t := tree[b := tree[b] + blocks[0]];
      t[b := t[b] + Flatten(blocks[1..])] == tree[b := tree[b] + Flatten(blocks)]
  {
    Regroup(tree[b], blocks[0], Flatten(blocks[1..]));
  }

  lemma {:induction false} LastBlock(s: State, block: seq<byte>, tail: seq<byte>)
    requires s.bname.Some? && s.bname.value in s.tree && s.code == CODE_FILE_DATA && s.nlen == |block| + 1
    requires s.stream == block + tail && Be32(0) <= tail
    ensures var r := Blocks(s);
      r.tree == s.tree[s.bname.value := s.tree[s.bname.value] + block] && r.nlen == 0 && r.stream == tail[4..]
  {
    FrontOfBlock(block, tail);
    NextLength(tail, 0);
    Be32RoundTrip(0);
    assert tail[..4] == Be32(0);
  }

  lemma {:induction false} FrontOfBlock(block: seq<byte>, more: seq<byte>)
    ensures Front(block + more, |block|) == block && Behind(block + more, |block|) == more
  {
  }

  lemma {:induction false} OneBlock(s: State, blocks: seq<seq<byte>>, ending: Ending, tail: seq<byte>)
    returns (next: State)
    requires s.bname.Some? && s.bname.value in s.tree && ValidTail(blocks, ending) && blocks != []
    requires ending.Cut? ==> blocks[1..] != []
    requires s.nlen > 0 && HeadRead(s.stream, s.nlen, s.code, blocks, ending, tail)
    ensures next.bname == s.bname && next.nlen > 0
    ensures next.tree == s.tree[s.bname.value := s.tree[s.bname.value] + blocks[0]]
    ensures HeadRead(next.stream, next.nlen, next.code, blocks[1..], ending, tail) && Blocks(s) == Blocks(next)
  {
    var b, more := s.bname.value, Items(blocks[1..], ending) + tail;
    FrontOfBlock(blocks[0], more);
    HeadLength(blocks[1..], ending, tail);
    var tree := s.tree[b := s.tree[b] + blocks[0]];
    next := s.(stream := more[5..], tree := tree, nlen := FromBe(more[..4]), code := more[4]);
    NextState(s, next, more);
  }

  lemma {:induction false} NextLength(stream: seq<byte>, stale: nat)
    requires |stream| >= 4
    ensures LengthBytes(stream, stale) == stream[..4] && Behind(stream, 4) == stream[4..]
  {
  }

  /** One step of the block loop, when a length and a code follow the block. */
  lemma {:induction false} NextState(s: State, next: State, more: seq<byte>)
    requires s.bname.Some? && s.bname.value in s.tree && s.code == CODE_FILE_DATA
    requires Behind(s.stream, BlockSize(s.nlen)) == more && |more| >= 5 && FromBe(more[..4]) > 0
    requires var b := s.bname.value; var data := Front(s.stream, BlockSize(s.nlen));
      next == s.(stream := more[5..], tree := s.tree[b := s.tree[b] + data], nlen := FromBe(more[..4]), code := more[4])
    ensures Blocks(s) == Blocks(next)
  {
    NextLength(more, 0);
    assert Behind(more[4..], 1) == more[5..];
  }

  /** The length variable after an entry, and the code. */
  function LastLength(e: Ending): nat {
    if e.RemoteError? then |e.message| + 1 else 1
  }

  function LastCode(e: Ending): byte {
    if e.RemoteError? then CODE_ERROR_REMOTE else CODE_SUCCESS
  }

  /** The state after an entry. */
  function Entered(s: State, e: Entry, tail: seq<byte>): State {
    var name := CString(e.name);
    State(tail, s.tree[name := Flatten(e.blocks)], LastLength(e.ending), LastCode(e.ending), Some(name), s.count + 1)
  }

  lemma {:induction false} HeadOf(s: State, blocks: seq<seq<byte>>, ending: Ending, tail: seq<byte>)
    requires ValidTail(blocks, ending) && (blocks == [] ==> !ending.Cut?) && s.stream == Items(blocks, ending) + tail
    ensures Head(s).Go? && Head(s).s == s.(stream := Head(s).s.stream, nlen := Head(s).s.nlen, code := Head(s).s.code)
    ensures var h := Head(s).s; h.nlen > 0 && HeadRead(h.stream, h.nlen, h.code, blocks, ending, tail)
  {
    HeadLength(blocks, ending, tail);
  }

  lemma {:induction false} RoundOfEntry(s: State, e: Entry, tail: seq<byte>)
    requires ValidEntry(e, false) && s.stream == EntryBytes(e) + tail
    ensures Round(s) == Some(Go(Entered(s, e, tail)))
  {
    EntryNames(s, e, tail);
    var named := Names(s).s;
    HeadOf(named, e.blocks, e.ending, tail);
    BodyOfEntry(s, Head(named).s, e, tail);
  }

  lemma {:induction false} EntryNames(s: State, e: Entry, tail: seq<byte>)
    requires 0 < |e.device| <= MAX_NAME && 0 < |e.name| <= MAX_NAME && s.stream == EntryBytes(e) + tail
    ensures Names(s)
         == Go(s.(stream := Items(e.blocks, e.ending) + tail, nlen := |e.name|, bname := Some(CString(e.name))))
  {
    var items := Items(e.blocks, e.ending);
    Chained(Named(e.device), Named(e.name), items, tail);
    Regroup(Named(e.device) + Named(e.name), items, tail);
    NamesOf(s, e.device, e.name, items + tail);
  }

  /** The blocks of an entry written to its file, opened anew. */
  lemma {:induction false} BlocksEntered(h: State, e: Entry, tail: seq<byte>) returns (r: State)
    requires ValidEntry(e, true) && h.bname == Some(CString(e.name)) && h.nlen > 0
    requires e.ending.Cut? ==> Be32(0) <= tail
    requires HeadRead(h.stream, h.nlen, h.code, e.blocks, e.ending, tail)
    ensures r == Blocks(h.(tree := h.tree[h.bname.value := []])) && r.bname == h.bname
    ensures BlocksDone(r, e.ending, tail) && r.tree == h.tree[CString(e.name) := Flatten(e.blocks)]
  {
    var emptied := h.(tree := h.tree[CString(e.name) := []]);
    WrittenAnew(h.tree, CString(e.name), Flatten(e.blocks));
    BlocksOf(emptied, e.blocks, e.ending, tail);
    r := Blocks(emptied);
  }

  lemma {:induction false} WrittenAnew(tree: Tree, b: Path, content: seq<byte>)
    ensures var t := tree[b := []]; t[b := t[b] + content] == tree[b := content]
  {
    NothingInFront(content);
  }

  lemma {:induction false} NothingInFront(s: seq<byte>)
    ensures [] + s == s
  {
  }

  lemma {:induction false} BodyOfEntry(s: State, h: State, e: Entry, tail: seq<byte>)
    requires ValidEntry(e, false) && h.tree == s.tree && h.bname == Some(CString(e.name)) && h.count == s.count
    requires h.nlen > 0 && HeadRead(h.stream, h.nlen, h.code, e.blocks, e.ending, tail)
    ensures Body(h) == Some(Go(Entered(s, e, tail)))
  {
    var r := BlocksEntered(h, e, tail);
    Enters(s, r, e, tail);
    BodyAfter(h, r);
  }

  /** The state after a file whose blocks are done. */
  function AfterBody(r: State, count: nat): State
    requires r.code == CODE_ERROR_REMOTE ==> r.nlen > 1
  {
    var t := r.(count := count + 1);
    if r.code == CODE_ERROR_REMOTE then t.(stream := Behind(r.stream, r.nlen - 1)) else t
  }

  lemma {:induction false} Enters(s: State, r: State, e: Entry, tail: seq<byte>)
    requires ValidEntry(e, false) && BlocksDone(r, e.ending, tail)
    requires r.tree == s.tree[CString(e.name) := Flatten(e.blocks)] && r.bname == Some(CString(e.name))
    ensures r.nlen > 0 && (r.code == CODE_ERROR_REMOTE ==> r.nlen > 1)
    ensures AfterBody(r, s.count) == Entered(s, e, tail)
  {
    AfterBlocks(r, e.ending, tail);
  }

  lemma {:induction false} BodyAfter(h: State, r: State)
    requires h.bname.Some? && r == Blocks(h.(tree := h.tree[h.bname.value := []])) && r.nlen > 0
    requires r.code == CODE_ERROR_REMOTE ==> r.nlen > 1
    ensures Body(h) == Some(Go(AfterBody(r, h.count)))
  {
  }

  lemma {:induction false} AfterBlocks(r: State, ending: Ending, tail: seq<byte>)
    requires !ending.Cut? && ValidTail([], ending) && BlocksDone(r, ending, tail)
    ensures r.nlen == LastLength(ending) && r.code == LastCode(ending)
    ensures if ending.RemoteError? then r.nlen > 1 && Behind(r.stream, r.nlen - 1) == tail else r.stream == tail
  {
    if ending.RemoteError? {
      FrontOfBlock(ending.message, tail);
    }
  }

  /** The last entry of a stream may lack its ending; the closing zero then ends both. */
  lemma {:induction false} RoundOfCut(s: State, e: Entry, rest: seq<byte>)
    requires ValidEntry(e, true) && e.ending.Cut? && s.stream == EntryBytes(e) + (Be32(0) + rest)
    ensures Round(s).Some? && Round(s).value.Stop?
    ensures var r := Round(s).value.s;
      && r.stream == rest && r.nlen == 0 && r.count == s.count + 1
      && r.tree == s.tree[CString(e.name) := Flatten(e.blocks)]
  {
    var tail := Be32(0) + rest;
    EntryNames(s, e, tail);
    HeadOf(Names(s).s, e.blocks, e.ending, tail);
    var r := BlocksEntered(Head(Names(s).s).s, e, tail);
    assert tail[4..] == rest;
  }

  /** On the encoding of any list of files the receiver ends up with every file, the right count and the
      stream consumed exactly to its end. */
  lemma {:induction false} RoundsOfStream(s: State, files: seq<Entry>, rest: seq<byte>)
    requires ValidFiles(files) && s.stream == Stream(files) + rest
    ensures Rounds(s).Some?
    ensures var r := Rounds(s).value;
      r.stream == rest && r.nlen == 0 && r.tree == Applied(s.tree, files) && r.count == s.count + |files|
    decreases |files|
  {
    if files == [] {
      LengthRead(0, rest, s.nlen);
    } else {
      var e, more := files[0], Stream(files[1..]) + rest;
      Regroup(EntryBytes(e), Stream(files[1..]), rest);
      if e.ending.Cut? {
        assert files[1..] == [];
        RoundOfCut(s, e, rest);
        assert Applied(s.tree, files) == s.tree[CString(e.name) := Flatten(e.blocks)];
      } else {
        RoundOfEntry(s, e, more);
        RoundsOfStream(Entered(s, e, more), files[1..], rest);
      }
    }
  }

  lemma {:induction false} ReceivedStream(tree: Tree, files: seq<Entry>, rest: seq<byte>)
    requires ValidFiles(files)
    ensures var r := Received(Stream(files) + rest, tree);
      r.Some? && r.value.stream == rest && r.value.tree == Applied(tree, files) && r.value.count == |files|
  {
    RoundsOfStream(State(Stream(files) + rest, tree, 0, 0, None, 0), files, rest);
  }

  // ---------------------------------------------------------------- streams that end early

  /** Complete entries, without the zero that closes a stream. */
  function Entries(files: seq<Entry>): seq<byte> {
    if files == [] then [] else EntryBytes(files[0]) + Entries(files[1..])
  }

  predicate AllComplete(files: seq<Entry>) {
    forall i :: 0 <= i < |files| ==> ValidEntry(files[i], false)
  }

  /** The state after complete entries. */
  function EnteredAll(s: State, files: seq<Entry>, tail: seq<byte>): State
    decreases |files|
  {
    if files == [] then s.(stream := tail)
    else EnteredAll(Entered(s, files[0], Entries(files[1..]) + tail), files[1..], tail)
  }

  lemma {:induction false} RoundsOfEntries(s: State, files: seq<Entry>, tail: seq<byte>)
    requires AllComplete(files) && s.stream == Entries(files) + tail
    ensures Rounds(s) == Rounds(EnteredAll(s, files, tail))
    decreases |files|
  {
    if files == [] {
      NothingInFront(tail);
    } else {
      var more := Entries(files[1..]) + tail;
      Regroup(EntryBytes(files[0]), Entries(files[1..]), tail);
      RoundOfEntry(s, files[0], more);
      RoundsOfEntries(Entered(s, files[0], more), files[1..], tail);
    }
  }

  lemma {:induction false} EnteredAllIs(s: State, files: seq<Entry>, tail: seq<byte>)
    ensures var r := EnteredAll(s, files, tail);
      && r.stream == tail && r.tree == Applied(s.tree, files) && r.count == s.count + |files|
      && (files == [] ==> r == s.(stream := tail))
      && (files != [] ==> r.nlen == LastLength(files[|files| - 1].ending))
      && (files != [] ==> r.bname == Some(CString(files[|files| - 1].name)))
    decreases |files|
  {
    if files != [] {
      EnteredAllIs(Entered(s, files[0], Entries(files[1..]) + tail), files[1..], tail);
    }
  }

  lemma {:induction false} NothingLeft(stale: nat)
    ensures LengthBytes([], stale) == Le32(stale) && FromBe(Le32(0)) == 0
  {
    assert Le32(0) == Be32(0);
    Be32RoundTrip(0);
  }

  /** A stream that ends right behind a complete file: the length that no longer comes is the byte-swapped
      length of the file's ending.  The file is counted, and removed if that number is above one as a
      signed one. */
  lemma {:induction false} EndsBehindFile(tree: Tree, files: seq<Entry>)
    requires AllComplete(files) && files != []
    ensures var e := files[|files| - 1];
      var n, r, all := FromBe(Le32(LastLength(e.ending))), Received(Entries(files), tree), Applied(tree, files);
      && (r.None? <==> n == TWO_31)
      && (r.Some? ==> r.value.count == |files|)
      && (r.Some? ==> r.value.tree == if 1 < n < TWO_31 then all - {CString(e.name)} else all)
  {
    var s := State(Entries(files), tree, 0, 0, None, 0);
    NothingBehind(Entries(files));
    RoundsOfEntries(s, files, []);
    EnteredAllIs(s, files, []);
    var r := EnteredAll(s, files, []);
    StopsAtEnd(r);
  }

  lemma {:induction false} StopsAtEnd(r: State)
    requires r.stream == []
    ensures Rounds(r) == Some(r.(nlen := FromBe(Le32(r.nlen))))
  {
    NothingLeft(r.nlen);
    assert Names(r) == Stop(r.(nlen := FromBe(Le32(r.nlen))));
  }

  lemma {:induction false} StopsInName(r: State, n: nat, part: seq<byte>)
    requires r.stream == Be32(n) + part && |part| < n && 1 < n <= MAX_NAME
    ensures Rounds(r) == Some(r.(stream := [], nlen := n))
  {
    LengthRead(n, part, r.nlen);
    assert Names(r) == Stop(r.(stream := [], nlen := n));
  }

  lemma {:induction false} NothingBehind(s: seq<byte>)
    ensures s + [] == s
  {
  }

  /** So of a list of files that the stream breaks off behind, the last one is lost, although it was
      received whole and is counted. */
  lemma {:induction false} LastFileLost(tree: Tree, files: seq<Entry>)
    requires AllComplete(files) && files != [] && files[|files| - 1].ending.Done?
    ensures var r := Received(Entries(files), tree);
      r.Some? && r.value.count == |files| && r.value.tree == Applied(tree, files) - {CString(files[|files| - 1].name)}
  {
    EndsBehindFile(tree, files);
    OneSwapped();
  }

  lemma {:induction false} OneSwapped()
    ensures FromBe(Le32(1)) == 0x100_0000
  {
    assert Le32(1) == [1, 0, 0, 0];
    assert Be32(0x100_0000) == [1, 0, 0, 0];
    Be32RoundTrip(0x100_0000);
  }

  /** A stream that ends within the device's name for the next file costs the file before it as well. */
  lemma {:induction false} EndsWithinName(tree: Tree, files: seq<Entry>, n: nat, part: seq<byte>)
    requires AllComplete(files) && files != [] && |part| < n && 1 < n <= MAX_NAME
    ensures var r := Received(Entries(files) + (Be32(n) + part), tree);
      r.Some? && r.value.count == |files| && r.value.tree == Applied(tree, files) - {CString(files[|files| - 1].name)}
  {
    var tail := Be32(n) + part;
    var s := State(Entries(files) + tail, tree, 0, 0, None, 0);
    RoundsOfEntries(s, files, tail);
    EnteredAllIs(s, files, tail);
    var r := EnteredAll(s, files, tail);
    StopsInName(r, n, part);
  }

  /** The stream ends within the length and code of a block, or within its data, of which part is there. */
  predicate EndsInData(tail: seq<byte>, part: seq<byte>) {
    if |tail| <= 4 then part == []
    else tail[4] == CODE_FILE_DATA && part == tail[5..] && FromBe(tail[..4]) >= |part| + 1
  }

  lemma {:induction false} LastPart(s: State)
    requires s.bname.Some? && s.bname.value in s.tree && s.code == CODE_FILE_DATA && |s.stream| <= BlockSize(s.nlen)
    ensures var r := Blocks(s);
      r.stream == [] && r.nlen == 0 && r.tree == s.tree[s.bname.value := s.tree[s.bname.value] + s.stream]
  {
    NothingLeft(0);
    assert Front(s.stream, BlockSize(s.nlen)) == s.stream && Behind(s.stream, BlockSize(s.nlen)) == [];
  }

  lemma {:induction false} ShortHead(s: State, block: seq<byte>, tail: seq<byte>)
    requires s.bname.Some? && s.bname.value in s.tree && s.code == CODE_FILE_DATA && s.nlen == |block| + 1
    requires s.stream == block + tail && |tail| <= 4
    ensures var r := Blocks(s);
      r.stream == [] && r.nlen == 0 && r.tree == s.tree[s.bname.value := s.tree[s.bname.value] + block]
  {
    var next := ItemBeforeEnd(s, block, tail);
    if next.nlen > 0 {
      NothingMore(next);
    }
  }

  lemma {:induction false} NothingMore(s: State)
    requires s.bname.Some? && s.bname.value in s.tree && s.code == CODE_FILE_DATA && s.stream == []
    ensures var r := Blocks(s); r.stream == [] && r.nlen == 0 && r.tree == s.tree
  {
    LastPart(s);
    Unchanged(s.tree, s.bname.value);
  }

  lemma {:induction false} Unchanged(tree: Tree, b: Path)
    requires b in tree
    ensures tree[b := tree[b] + []] == tree
  {
    assert tree[b] + [] == tree[b];
  }

  /** A block whose next length and code the stream does not have in full. */
  lemma {:induction false} ItemBeforeEnd(s: State, block: seq<byte>, tail: seq<byte>) returns (next: State)
    requires s.bname.Some? && s.bname.value in s.tree && s.nlen == |block| + 1
    requires s.stream == block + tail && |tail| <= 4
    ensures next.stream == [] && next.code == s.code && next.bname == s.bname
    ensures next.tree == s.tree[s.bname.value := s.tree[s.bname.value] + block]
    ensures ItemTaken(s) == if next.nlen == 0 then Stop(next) else Go(next)
  {
    FrontOfBlock(block, tail);
    next := ItemTaken(s).s;
  }

  lemma {:induction false} BlocksCut(s: State, blocks: seq<seq<byte>>, tail: seq<byte>, part: seq<byte>)
    requires s.bname.Some? && s.bname.value in s.tree && ValidBlocks(blocks) && EndsInData(tail, part)
    requires blocks != [] ==> s.nlen > 0 && HeadRead(s.stream, s.nlen, s.code, blocks, Cut, tail)
    requires blocks == [] ==> s.code == CODE_FILE_DATA && s.stream == part && |part| <= BlockSize(s.nlen)
    ensures var r := Blocks(s);
      && r.stream == [] && r.nlen == 0
      && r.tree == s.tree[s.bname.value := s.tree[s.bname.value] + (Flatten(blocks) + part)]
    decreases |blocks|
  {
    if blocks == [] {
      NothingInFront(part);
      LastPart(s);
    } else if blocks[1..] == [] && |tail| <= 4 {
      OneFlattened(blocks);
      NothingBehind(Flatten(blocks));
      NothingInFront(tail);
      ShortHead(s, blocks[0], tail);
    } else {
      PartAdded(s.tree, s.bname.value, blocks, part);
      var next := OneBlockOfCut(s, blocks, tail, part);
      BlocksCut(next, blocks[1..], tail, part);
    }
  }

  lemma {:induction false} PartAdded(tree: Tree, b: Path, blocks: seq<seq<byte>>, part: seq<byte>)
    requires b in tree && blocks != []
    ensures var t := tree[b := tree[b] + blocks[0]];
      t[b := t[b] + (Flatten(blocks[1..]) + part)] == tree[b := tree[b] + (Flatten(blocks) + part)]
  {
    Regroup(blocks[0], Flatten(blocks[1..]), part);
    Regroup(tree[b], blocks[0], Flatten(blocks[1..]) + part);
  }

  lemma {:induction false} OneBlockOfCut(s: State, blocks: seq<seq<byte>>, tail: seq<byte>, part: seq<byte>)
    returns (next: State)
    requires s.bname.Some? && s.bname.value in s.tree && ValidBlocks(blocks) && EndsInData(tail, part) && blocks != []
    requires blocks[1..] == [] ==> |tail| >= 5
    requires s.nlen > 0 && HeadRead(s.stream, s.nlen, s.code, blocks, Cut, tail)
    ensures next.bname == s.bname && next.tree == s.tree[s.bname.value := s.tree[s.bname.value] + blocks[0]]
    ensures blocks[1..] != [] ==> next.nlen > 0 && HeadRead(next.stream, next.nlen, next.code, blocks[1..], Cut, tail)
    ensures blocks[1..] == [] ==> next.code == CODE_FILE_DATA && next.stream == part && |part| <= BlockSize(next.nlen)
    ensures Blocks(s) == Blocks(next)
  {
    var b, more := s.bname.value, Items(blocks[1..], Cut) + tail;
    FrontOfBlock(blocks[0], more);
    if blocks[1..] != [] {
      HeadLength(blocks[1..], Cut, tail);
    } else {
      NothingInFront(tail);
    }
    var tree := s.tree[b := s.tree[b] + blocks[0]];
    next := s.(stream := more[5..], tree := tree, nlen := FromBe(more[..4]), code := more[4]);
    NextState(s, next, more);
  }

  /** A stream that ends within the data of a file: what has come of it is kept, and it is counted. */
  lemma {:induction false} EndsWithinData(tree: Tree, files: seq<Entry>, e: Entry, tail: seq<byte>, part: seq<byte>)
    requires AllComplete(files) && e.ending.Cut? && EndsInData(tail, part) && (e.blocks == [] ==> |tail| >= 5)
    requires 0 < |e.device| <= MAX_NAME && 0 < |e.name| <= MAX_NAME && ValidBlocks(e.blocks)
    ensures var r := Received(Entries(files) + (EntryBytes(e) + tail), tree);
      && r.Some? && r.value.stream == [] && r.value.count == |files| + 1
      && r.value.tree == Applied(tree, files)[CString(e.name) := Flatten(e.blocks) + part]
  {
    var more := EntryBytes(e) + tail;
    var s := State(Entries(files) + more, tree, 0, 0, None, 0);
    RoundsOfEntries(s, files, more);
    EnteredAllIs(s, files, more);
    RoundOfPart(EnteredAll(s, files, more), e, tail, part);
  }

  lemma {:induction false} RoundOfPart(s: State, e: Entry, tail: seq<byte>, part: seq<byte>)
    requires e.ending.Cut? && EndsInData(tail, part) && (e.blocks == [] ==> |tail| >= 5)
    requires 0 < |e.device| <= MAX_NAME && 0 < |e.name| <= MAX_NAME && ValidBlocks(e.blocks)
    requires s.stream == EntryBytes(e) + tail
    ensures Round(s).Some? && Round(s).value.Stop?
    ensures var r := Round(s).value.s;
      && r.stream == [] && r.nlen == 0 && r.count == s.count + 1
      && r.tree == s.tree[CString(e.name) := Flatten(e.blocks) + part]
  {
    EntryNames(s, e, tail);
    var named := Names(s).s;
    var h := HeadOfPart(named, e.blocks, tail, part);
    var r := PartEntered(h, e.blocks, tail, part);
    BodyStops(h, r);
  }

  lemma {:induction false} PartEntered(h: State, blocks: seq<seq<byte>>, tail: seq<byte>, part: seq<byte>)
    returns (r: State)
    requires h.bname.Some? && ValidBlocks(blocks) && EndsInData(tail, part)
    requires blocks != [] ==> h.nlen > 0 && HeadRead(h.stream, h.nlen, h.code, blocks, Cut, tail)
    requires blocks == [] ==> h.code == CODE_FILE_DATA && h.stream == part && |part| <= BlockSize(h.nlen)
    ensures r == Blocks(h.(tree := h.tree[h.bname.value := []])) && r.bname == h.bname
    ensures r.stream == [] && r.nlen == 0 && r.tree == h.tree[h.bname.value := Flatten(blocks) + part]
  {
    var emptied := h.(tree := h.tree[h.bname.value := []]);
    WrittenAnew(h.tree, h.bname.value, Flatten(blocks) + part);
    BlocksCut(emptied, blocks, tail, part);
    r := Blocks(emptied);
  }

  lemma {:induction false} BodyStops(h: State, r: State)
    requires h.bname.Some? && r == Blocks(h.(tree := h.tree[h.bname.value := []])) && r.nlen == 0
    ensures Body(h) == Some(Stop(r.(count := h.count + 1)))
  {
  }

  lemma {:induction false} HeadOfPart(s: State, blocks: seq<seq<byte>>, tail: seq<byte>, part: seq<byte>)
    returns (h: State)
    requires ValidBlocks(blocks) && EndsInData(tail, part) && (blocks == [] ==> |tail| >= 5)
    requires s.stream == Items(blocks, Cut) + tail
    ensures Head(s) == Go(h) && h == s.(stream := h.stream, nlen := h.nlen, code := h.code)
    ensures blocks != [] ==> h.nlen > 0 && HeadRead(h.stream, h.nlen, h.code, blocks, Cut, tail)
    ensures blocks == [] ==> h.code == CODE_FILE_DATA && h.stream == part && |part| <= BlockSize(h.nlen)
  {
    if blocks != [] {
      HeadOf(s, blocks, Cut, tail);
    } else {
      NothingInFront(tail);
    }
    h := s.(stream := s.stream[5..], nlen := FromBe(s.stream[..4]), code := s.stream[4]);
  }
}
