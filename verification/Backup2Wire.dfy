/** The device's side of a restore batch: a reader that takes frames off the wire by their lengths and codes. */
module Backup2Wire {
  import opened Bytes
  import opened Chunks
  import opened Options
  import opened Backup2Format
  import S = Backup2Stream

  /** What the device learns of a file: its content, or the text of the error that kept it from being sent. */
  datatype Arrival = File(path: Path, content: seq<byte>) | NotSent(path: Path, text: seq<byte>)

  /** The blocks of one file: its data, the error text if it ends with one, and what is behind. */
  datatype Blocks = Blocks(data: seq<byte>, text: Option<seq<byte>>, rest: seq<byte>)

  function BehindData(data: seq<byte>, more: Option<Blocks>): Option<Blocks> {
    if more.None? then None else Some(Blocks(data + more.value.data, more.value.text, more.value.rest))
  }

  function ReadBlocks(s: seq<byte>): (r: Option<Blocks>)
    ensures r.Some? ==> |r.value.rest| < |s|
    decreases |s|
  {
    if |s| < 5 then None
    else
      var n := FromBe(s[..4]);
      if n == 0 || 4 + n > |s| then None
      else if s[4] == 0x0C then BehindData(s[5..4 + n], ReadBlocks(s[4 + n..]))
      else if s[4] == 0x06 then Some(Blocks([], Some(s[5..4 + n]), s[4 + n..]))
      else if s[4] == 0x00 && n == 1 then Some(Blocks([], None, s[5..]))
      else None
  }

  datatype Reading = Reading(files: seq<Arrival>, rest: seq<byte>)

  function BehindFile(a: Arrival, more: Option<Reading>): Option<Reading> {
    if more.None? then None else Some(Reading([a] + more.value.files, more.value.rest))
  }

  function ArrivalOf(path: Path, b: Blocks): Arrival {
    if b.text.Some? then NotSent(path, b.text.value) else File(path, b.data)
  }

  /** The files on the wire up to the zero that ends a batch. */
  function ReadBatch(s: seq<byte>): (r: Option<Reading>)
    decreases |s|
  {
    if |s| < 4 then None
    else
      var n := FromBe(s[..4]);
      if n == 0 then Some(Reading([], s[4..]))
      else if 4 + n > |s| then None
      else
        var b := ReadBlocks(s[4 + n..]);
        if b.None? then None else BehindFile(ArrivalOf(s[4..4 + n], b.value), ReadBatch(b.value.rest))
  }

  /** What a batch tells the device: the files asked for, each in the tree and readable, up to the first
      that is not; an empty path ends the batch. */
  function Told(tree: Tree, denied: map<Path, nat>, strerror: nat -> seq<byte>, files: seq<Option<Path>>): seq<Arrival>
    decreases |files|
  {
    if files == [] then []
    else if files[0].None? then Told(tree, denied, strerror, files[1..])
    else
      var p := files[0].value;
      if p == [] then []
      else if p in tree && p !in denied then [File(p, tree[p])] + Told(tree, denied, strerror, files[1..])
      else [NotSent(p, strerror(if p in denied then denied[p] else 2))]
  }

  // ---------------------------------------------------------------- one frame

  lemma {:induction false} WordInFront(n: nat, tail: seq<byte>)
    requires n < TWO_32
    ensures var s := Be32(n) + tail; |s| >= 4 && FromBe(s[..4]) == n && s[4..] == tail
  {
    assert (Be32(n) + tail)[..4] == Be32(n);
    Be32RoundTrip(n);
  }

  lemma {:induction false} ChunkInFront(code: byte, data: seq<byte>, rest: seq<byte>)
    requires |data| + 1 < TWO_32
    ensures var s := Be32(|data| + 1) + [code] + data + rest;
      && |s| >= 5 && FromBe(s[..4]) == |data| + 1 && s[4] == code
      && s[5..5 + |data|] == data && s[5 + |data|..] == rest
  {
    var s := Be32(|data| + 1) + [code] + data + rest;
    WordInFront(|data| + 1, [code] + data + rest);
    assert s == Be32(|data| + 1) + ([code] + data + rest);
  }

  lemma {:induction false} BlockRead(data: seq<byte>, more: seq<byte>)
    requires |data| + 1 < TWO_32
    ensures ReadBlocks(Chunk(CODE_FILE_DATA, data) + more) == BehindData(data, ReadBlocks(more))
  {
    ChunkInFront(0x0C, data, more);
  }

  lemma {:induction false} MarkerRead(rest: seq<byte>)
    ensures ReadBlocks(Chunk(CODE_SUCCESS, []) + rest) == Some(Blocks([], None, rest))
  {
    ChunkInFront(0x00, [], rest);
  }

  lemma {:induction false} ItemsRead(blocks: seq<seq<byte>>, rest: seq<byte>)
    requires ValidBlocks(blocks)
    ensures ReadBlocks(Items(blocks, Done) + rest) == Some(Blocks(Flatten(blocks), None, rest))
    decreases |blocks|
  {
    if blocks == [] {
      MarkerRead(rest);
    } else {
      ItemsRead(blocks[1..], rest);
      Regroup(Chunk(CODE_FILE_DATA, blocks[0]), Items(blocks[1..], Done), rest);
      BlockRead(blocks[0], Items(blocks[1..], Done) + rest);
    }
  }

  lemma {:induction false} ErrorRead(text: seq<byte>, rest: seq<byte>)
    requires |text| + 1 < TWO_32
    ensures ReadBlocks(Chunk(CODE_ERROR_LOCAL, text) + rest) == Some(Blocks([], Some(text), rest))
  {
    ChunkInFront(0x06, text, rest);
  }

  lemma {:induction false} PathInFront(path: Path, more: seq<byte>)
    requires 0 < |path| < TWO_32
    ensures var s := Named(path) + more;
      && |s| >= 4 + |path| && FromBe(s[..4]) == |path|
      && s[4..4 + |path|] == path && s[4 + |path|..] == more
  {
    Regroup(Be32(|path|), path, more);
    WordInFront(|path|, path + more);
  }

  /** The frame of a path as the device reads it: the file, exactly if it is in the tree and readable, or
      else the text of the error. */
  lemma {:induction false} FrameRead(tree: Tree, denied: map<Path, nat>, strerror: nat -> seq<byte>, path: Path,
                                     rest: seq<byte>)
    requires 0 < |path| < TWO_32 && forall e {:trigger strerror(e)} :: |strerror(e)| + 1 < TWO_32
    ensures var a := if path in tree && path !in denied then File(path, tree[path])
                     else NotSent(path, strerror(if path in denied then denied[path] else 2));
      ReadBatch(SentBytes(path, OutcomeOf(tree, denied, path), strerror) + rest) == BehindFile(a, ReadBatch(rest))
  {
    match OutcomeOf(tree, denied, path) {
      case Sent(content) =>
        SplitBlocks(content);
        ItemsRead(Split(content), rest);
        Regroup(Named(path), Items(Split(content), Done), rest);
        PathInFront(path, Items(Split(content), Done) + rest);
      case Failed(errno) =>
        ErrorRead(strerror(errno), rest);
        Regroup(Named(path), Chunk(CODE_ERROR_LOCAL, strerror(errno)), rest);
        PathInFront(path, Chunk(CODE_ERROR_LOCAL, strerror(errno)) + rest);
    }
  }

  // ---------------------------------------------------------------- a batch

  /** The batch ends at an empty path, whose length is itself a zero. */
  ghost predicate EndsEmpty(tree: Tree, denied: map<Path, nat>, files: seq<Option<Path>>) {
    exists i :: FirstUnsent(tree, denied, files, i) && files[i].value == []
  }

  lemma {:induction false} EndsLater(tree: Tree, denied: map<Path, nat>, files: seq<Option<Path>>)
    requires files != [] && (files[0].None? || OutcomeOf(tree, denied, files[0].value).Sent?)
    ensures EndsEmpty(tree, denied, files) <==> EndsEmpty(tree, denied, files[1..])
  {
    UnsentLater(tree, denied, files);
    if i :| FirstUnsent(tree, denied, files[1..], i) && files[1..][i].value == [] {
      assert FirstUnsent(tree, denied, files, i + 1) && files[i + 1].value == [];
    }
  }

  lemma {:induction false} EndsHere(tree: Tree, denied: map<Path, nat>, files: seq<Option<Path>>)
    requires files != [] && files[0].Some? && !OutcomeOf(tree, denied, files[0].value).Sent?
    ensures EndsEmpty(tree, denied, files) <==> files[0].value == []
  {
    assert FirstUnsent(tree, denied, files, 0);
    assert forall i :: FirstUnsent(tree, denied, files, i) ==> i == 0;
  }

  /** Whatever files are asked for, the device reads from the bytes of the batch the content of each file that
      is sent and the error text of the one that is not, and stops at the zero behind them. */
  lemma {:induction false} BatchRead(tree: Tree, denied: map<Path, nat>, strerror: nat -> seq<byte>,
                                     files: seq<Option<Path>>, rest: seq<byte>) returns (left: seq<byte>)
    requires forall e {:trigger strerror(e)} :: |strerror(e)| + 1 < TWO_32
    requires forall i {:trigger files[i]} :: 0 <= i < |files| && files[i].Some? ==> |files[i].value| < TWO_32
    ensures ReadBatch(BatchBytes(tree, denied, strerror, files) + (Be32(0) + rest))
         == Some(Reading(Told(tree, denied, strerror, files), left))
    ensures left == if EndsEmpty(tree, denied, files) then Be32(0) + rest else rest
    decreases |files|
  {
    if files == [] {
      left := rest;
      EndRead(rest);
    } else if files[0].None? {
      EndsLater(tree, denied, files);
      left := BatchRead(tree, denied, strerror, files[1..], rest);
    } else if files[0].value == [] {
      EndsHere(tree, denied, files);
      left := Be32(0) + rest;
      assert Be32(0) + [] == Be32(0);
      WordInFront(0, left);
    } else {
      left := FileThenRest(tree, denied, strerror, files, rest);
    }
  }

  lemma {:induction false} EndRead(rest: seq<byte>)
    ensures ReadBatch([] + (Be32(0) + rest)) == Some(Reading([], rest))
    ensures ReadBatch(Be32(0) + rest) == Some(Reading([], rest))
  {
    assert [] + (Be32(0) + rest) == Be32(0) + rest;
    WordInFront(0, rest);
  }

  lemma {:induction false} FileThenRest(tree: Tree, denied: map<Path, nat>, strerror: nat -> seq<byte>,
                                        files: seq<Option<Path>>, rest: seq<byte>) returns (left: seq<byte>)
    requires forall e {:trigger strerror(e)} :: |strerror(e)| + 1 < TWO_32
    requires forall i {:trigger files[i]} :: 0 <= i < |files| && files[i].Some? ==> |files[i].value| < TWO_32
    requires files != [] && files[0].Some? && files[0].value != []
    ensures ReadBatch(BatchBytes(tree, denied, strerror, files) + (Be32(0) + rest))
         == Some(Reading(Told(tree, denied, strerror, files), left))
    ensures left == if EndsEmpty(tree, denied, files) then Be32(0) + rest else rest
    decreases |files|, 0
  {
    var p := files[0].value;
    if OutcomeOf(tree, denied, p).Sent? {
      EndsLater(tree, denied, files);
      left := BatchRead(tree, denied, strerror, files[1..], rest);
      SentInFront(tree, denied, strerror, files, rest, left);
    } else {
      EndsHere(tree, denied, files);
      left := rest;
      NotSentInFront(tree, denied, strerror, files, rest);
    }
  }

  lemma {:induction false} NotSentInFront(tree: Tree, denied: map<Path, nat>, strerror: nat -> seq<byte>,
                                          files: seq<Option<Path>>, rest: seq<byte>)
    requires forall e {:trigger strerror(e)} :: |strerror(e)| + 1 < TWO_32
    requires files != [] && files[0].Some? && 0 < |files[0].value| < TWO_32
    requires !OutcomeOf(tree, denied, files[0].value).Sent?
    ensures ReadBatch(BatchBytes(tree, denied, strerror, files) + (Be32(0) + rest))
         == Some(Reading(Told(tree, denied, strerror, files), rest))
  {
    var frame, a := LastFrame(tree, denied, strerror, files);
    var end := Be32(0) + rest;
    EndRead(rest);
    FrameRead(tree, denied, strerror, files[0].value, end);
    assert [a] + [] == [a];
  }

  lemma {:induction false} LastFrame(tree: Tree, denied: map<Path, nat>, strerror: nat -> seq<byte>,
                                     files: seq<Option<Path>>) returns (frame: seq<byte>, a: Arrival)
    requires files != [] && files[0].Some? && files[0].value != []
    requires !OutcomeOf(tree, denied, files[0].value).Sent?
    ensures var p := files[0].value;
      && frame == SentBytes(p, OutcomeOf(tree, denied, p), strerror) == BatchBytes(tree, denied, strerror, files)
      && a == NotSent(p, strerror(if p in denied then denied[p] else 2)) && !(p in tree && p !in denied)
      && Told(tree, denied, strerror, files) == [a]
  {
    var p := files[0].value;
    frame := SentBytes(p, OutcomeOf(tree, denied, p), strerror);
    a := NotSent(p, strerror(if p in denied then denied[p] else 2));
    assert frame + [] == frame;
  }

  lemma {:induction false} SentInFront(tree: Tree, denied: map<Path, nat>, strerror: nat -> seq<byte>,
                                       files: seq<Option<Path>>, rest: seq<byte>, left: seq<byte>)
    requires forall e {:trigger strerror(e)} :: |strerror(e)| + 1 < TWO_32
    requires files != [] && files[0].Some? && 0 < |files[0].value| < TWO_32
    requires OutcomeOf(tree, denied, files[0].value).Sent?
    requires ReadBatch(BatchBytes(tree, denied, strerror, files[1..]) + (Be32(0) + rest))
          == Some(Reading(Told(tree, denied, strerror, files[1..]), left))
    ensures ReadBatch(BatchBytes(tree, denied, strerror, files) + (Be32(0) + rest))
         == Some(Reading(Told(tree, denied, strerror, files), left))
  {
    var p, more := files[0].value, BatchBytes(tree, denied, strerror, files[1..]);
    Regroup(SentBytes(p, OutcomeOf(tree, denied, p), strerror), more, Be32(0) + rest);
    FrameRead(tree, denied, strerror, p, more + (Be32(0) + rest));
  }

  /** The status response names the file that was not sent, with the device's number for its error. */
  lemma {:induction false} ResponseOfBatch(tree: Tree, denied: map<Path, nat>, files: seq<Option<Path>>, i: int)
    requires FirstUnsent(tree, denied, files, i) && files[i].value != []
    ensures var p := files[i].value;
      BatchResponse(tree, denied, files) == Response(-13,
        map[p := if p !in denied || denied[p] == 2 then -6 else if denied[p] == 17 then -7 else 0 - denied[p]])
    decreases |files|
  {
    if i > 0 {
      var rest := files[1..];
      assert rest[i - 1] == files[i] && forall j :: 0 <= j < |rest| ==> rest[j] == files[j + 1];
      assert files[0].None? || OutcomeOf(tree, denied, files[0].value).Sent?;
      ResponseOfBatch(tree, denied, rest, i - 1);
    }
  }
}
