/** idevicebackup2: the raw send and receive loops, the receiver of backup files, the sender of
    restore files. */
module Backup2 {
  import opened Bytes
  import opened Chunks
  import opened Memory
  import opened Options
  import opened Transport
  import opened Backup2Format
  import opened Backup2Stream

  datatype Error = Success | InvalidArg | MuxError

  class Backup {
    const conn: Connection
    const denied: map<Path, nat>       // files stat or fopen refuse, with their errno
    const strerror: nat -> seq<byte>
    var tree: Tree                     // the backup directory
    var responses: seq<Response>

    constructor (conn: Connection, denied: map<Path, nat>, strerror: nat -> seq<byte>, tree: Tree)
      ensures this.conn == conn && this.denied == denied && this.strerror == strerror
      ensures this.tree == tree && responses == []
    {
      this.conn, this.denied, this.strerror, this.tree, responses := conn, denied, strerror, tree, [];
    }

    /** mobilebackup2_receive_raw.  bytes is an in-out parameter: it stays as it is when the length
        is zero. */
    method ReceiveRaw(data: array<byte>, length: nat, before: nat) returns (err: Error, bytes: nat)
      requires length <= data.Length
      modifies conn`incoming, conn`calls, data
      ensures length == 0 ==> err == InvalidArg && bytes == before
      ensures length > 0 ==> err == Success && bytes == Min(length, |old(conn.incoming)|)
      ensures length > 0 ==> data[..bytes] == old(conn.incoming)[..bytes]
      ensures length > 0 ==> conn.incoming == old(conn.incoming)[bytes..] && data[bytes..] == old(data[..])[bytes..]
      ensures length == 0 ==> conn.incoming == old(conn.incoming)
    {
      if length == 0 {
        return InvalidArg, before;
      }
      var received := 0;
      ghost var stream, was := conn.incoming, data[..];
      while true
        invariant received < length && received <= |stream| && data[received..] == was[received..]
        invariant data[..received] == stream[..received] && conn.incoming == stream[received..]
        decreases length - received
      {
        ghost var old_ := data[..];
        var bytesLoc := conn.Receive(data, received, length - received);
        if bytesLoc == 0 {
          break;
        }
        Extended(stream, old_, data[..], 0, received, bytesLoc);
        assert was[received..][bytesLoc..] == was[received + bytesLoc..];
        assert old_[received..][bytesLoc..] == old_[received + bytesLoc..];
        received := received + bytesLoc;
        if received >= length {
          break;
        }
      }
      return Success, received;
    }

    /** mobilebackup2_send_raw: repeats short sends until everything is gone. */
    method SendRaw(data: seq<byte>, before: nat) returns (err: Error, bytes: nat)
      modifies conn`outgoing, conn`sends
      ensures data == [] ==> err == InvalidArg && bytes == before && conn.outgoing == old(conn.outgoing)
      ensures data != [] ==> err == Success && bytes == |data| && conn.outgoing == old(conn.outgoing) + data
    {
      if data == [] {
        return InvalidArg, before;
      }
      var sent := 0;
      while true
        invariant sent < |data| && conn.outgoing == old(conn.outgoing) + data[..sent]
        decreases |data| - sent
      {
        var bytesLoc := conn.Send(data[sent..]);
        if bytesLoc == 0 {
          break;
        }
        assert data[..sent + bytesLoc] == data[..sent] + data[sent..][..bytesLoc];
        sent := sent + bytesLoc;
        if sent >= |data| {
          break;
        }
      }
      assert data[..|data|] == data;
      return Success, sent;
    }

    /** The variables of the receive loop, with what is in the connection and in the tree. */
    function At(nlen: nat, code: byte, bname: Option<Path>, count: nat): State
      reads this, conn
    {
      State(conn.incoming, tree, nlen, code, bname, count)
    }

    /** Four bytes into a length variable, which keeps what does not come. */
    method ReceiveLength(stale: nat) returns (bytes: seq<byte>, r: nat)
      modifies conn`incoming, conn`calls
      ensures r == Min(4, |old(conn.incoming)|) && bytes == LengthBytes(old(conn.incoming), stale)
      ensures conn.incoming == Behind(old(conn.incoming), 4)
    {
      var buf := new byte[4];
      Copy(buf, 0, Le32(stale));
      assert buf[..] == buf[0..4];
      var err;
      err, r := ReceiveRaw(buf, 4, 0);
      bytes := buf[..];
      assert bytes == buf[..r] + buf[r..];
    }

    /** A name of known length. */
    method ReceiveName(nlen: nat) returns (name: seq<byte>, r: nat)
      requires nlen > 0
      modifies conn`incoming, conn`calls
      ensures name == Front(old(conn.incoming), nlen) && r == |name|
      ensures conn.incoming == Behind(old(conn.incoming), nlen)
    {
      var buf := new byte[nlen + 1];
      var err;
      err, r := ReceiveRaw(buf, nlen, 0);
      name := buf[..r];
    }

    /** The inner loop: one block, in pieces of at most 32768 bytes, appended to the open file. */
    method ReceiveBlock(bname: Path, blocksize: nat)
      requires bname in tree
      modifies this`tree, conn`incoming, conn`calls
      ensures tree == old(tree)[bname := old(tree)[bname] + Front(old(conn.incoming), blocksize)]
      ensures conn.incoming == Behind(old(conn.incoming), blocksize)
    {
      var buf := new byte[BUFFER_SIZE];
      var bdone := 0;
      ghost var start, stream := tree, conn.incoming;
      assert start[bname] + stream[..0] == start[bname];
      while bdone < blocksize
        invariant bdone <= blocksize && bdone <= |stream| && conn.incoming == stream[bdone..]
        invariant bname in tree && tree == start[bname := start[bname] + stream[..bdone]]
      {
        var rlen := if blocksize - bdone < BUFFER_SIZE then blocksize - bdone else BUFFER_SIZE;
        var err, r := ReceiveRaw(buf, rlen, 0);
        if r == 0 {
          break;
        }
        assert stream[..bdone + r] == stream[..bdone] + buf[..r];
        Regroup(start[bname], stream[..bdone], buf[..r]);
        tree := tree[bname := tree[bname] + buf[..r]];
        bdone := bdone + r;
      }
    }

    /** The device's name for the file, which is dropped, and the name it is stored under; false ends the
        loop. */
    method ReceiveNames(nlen0: nat, code: byte, bname0: Option<Path>, count: nat)
      returns (more: bool, nlen: nat, bname: Option<Path>)
      modifies conn`incoming, conn`calls
      ensures var r := At(nlen, code, bname, count);
        old(Names(At(nlen0, code, bname0, count))) == if more then Go(r) else Stop(r)
      ensures more ==> bname.Some?
    {
      bname := bname0;
      var bytes, r := ReceiveLength(nlen0);
      nlen := FromBe(bytes);
      if nlen == 0 || nlen > MAX_NAME {
        return false, nlen, bname;
      }
      var dname;
      dname, r := ReceiveName(nlen);
      if r != nlen {
        return false, nlen, bname;
      }
      more, nlen, bname := ReceiveStoredName(nlen, code, bname, count);
    }

    method ReceiveStoredName(ghost nlen0: nat, code: byte, bname0: Option<Path>, count: nat)
      returns (more: bool, nlen: nat, bname: Option<Path>)
      modifies conn`incoming, conn`calls
      ensures var r := At(nlen, code, bname, count);
        old(StoredName(At(nlen0, code, bname0, count))) == if more then Go(r) else Stop(r)
      ensures more ==> bname.Some?
    {
      bname := bname0;
      var bytes, r := ReceiveLength(0);
      nlen := FromBe(bytes);
      if nlen == 0 || nlen > MAX_NAME {
        return false, nlen, bname;
      }
      var fname;
      fname, r := ReceiveName(nlen);
      if r != nlen {
        return false, nlen, bname;
      }
      return true, nlen, Some(CString(fname));
    }

    /** The first length and code of a file. */
    method ReceiveHead(ghost nlen0: nat, code0: byte, bname: Option<Path>, count: nat)
      returns (more: bool, nlen: nat, code: byte)
      modifies conn`incoming, conn`calls
      ensures var r := At(nlen, code, bname, count);
        old(Head(At(nlen0, code0, bname, count))) == if more then Go(r) else Stop(r)
    {
      code := code0;
      ghost var stream := conn.incoming;
      var bytes, r := ReceiveLength(0);
      if r != 4 {
        return false, FromLe(bytes), code;
      }
      assert bytes == stream[..4];
      nlen := FromBe(bytes);
      var buf := new byte[1];
      var err;
      err, r := ReceiveRaw(buf, 1, 0);
      if r != 1 {
        return false, nlen, 0;
      }
      assert buf[..1][0] == stream[4] && conn.incoming == stream[5..];
      return true, nlen, buf[0];
    }

    /** The loop over a file's blocks, entered with the first length and code read. */
    method ReceiveBlocks(bname: Path, nlen0: nat, code0: byte, count: nat) returns (nlen: nat, code: byte)
      requires bname in tree
      modifies this`tree, conn`incoming, conn`calls
      ensures At(nlen, code, Some(bname), count) == old(Blocks(At(nlen0, code0, Some(bname), count)))
    {
      nlen, code := nlen0, code0;
      ghost var goal := Blocks(At(nlen, code, Some(bname), count));
      while code == CODE_FILE_DATA
        invariant bname in tree && Blocks(At(nlen, code, Some(bname), count)) == goal
        decreases |conn.incoming|
      {
        BlockTaken(At(nlen, code, Some(bname), count));
        var more;
        more, nlen, code := ReceiveItem(bname, nlen, code, count);
        if !more {
          break;
        }
      }
    }

    /** A block, and the length and code of the next; false ends the loop. */
    method ReceiveItem(bname: Path, nlen0: nat, code0: byte, ghost count: nat)
      returns (more: bool, nlen: nat, code: byte)
      requires bname in tree && code0 == CODE_FILE_DATA
      modifies this`tree, conn`incoming, conn`calls
      ensures var r := At(nlen, code, Some(bname), count);
        old(ItemTaken(At(nlen0, code0, Some(bname), count))) == if more then Go(r) else Stop(r)
      ensures bname in tree
    {
      code := code0;
      var blocksize := if nlen0 == 0 then TWO_32 - 1 else nlen0 - 1;
      ReceiveBlock(bname, blocksize);
      var bytes, r := ReceiveLength(0);
      nlen := FromBe(bytes);
      if nlen == 0 {
        return false, nlen, code;
      }
      code := ReceiveCode(code);
      more := true;
    }

    /** A code, which stays as it is when none comes. */
    method ReceiveCode(before: byte) returns (code: byte)
      modifies conn`incoming, conn`calls
      ensures code == if old(conn.incoming) == [] then before else old(conn.incoming)[0]
      ensures conn.incoming == Behind(old(conn.incoming), 1)
    {
      var buf := new byte[1];
      buf[0] := before;
      var err, r := ReceiveRaw(buf, 1, 0);
      code := buf[0];
      if r == 1 {
        assert buf[..1][0] == code;
      } else {
        assert buf[0..][0] == code;
      }
    }

    /** One round of the receiver; false ends the loop. */
    method ReceiveRound(nlen0: nat, code0: byte, bname0: Option<Path>, count0: nat)
      returns (more: bool, nlen: nat, code: byte, bname: Option<Path>, count: nat)
      requires Round(At(nlen0, code0, bname0, count0)).Some?
      modifies this`tree, conn`incoming, conn`calls
      ensures var r := At(nlen, code, bname, count);
        old(Round(At(nlen0, code0, bname0, count0))) == Some(if more then Go(r) else Stop(r))
    {
      code, count := code0, count0;
      more, nlen, bname := ReceiveNames(nlen0, code, bname0, count);
      if !more {
        return;
      }
      more, nlen, code := ReceiveHead(nlen, code, bname, count);
      if !more {
        return;
      }
      more, nlen, code, count := ReceiveBody(nlen, code, bname.value, count);
    }

    method ReceiveBody(nlen0: nat, code0: byte, bname: Path, count0: nat)
      returns (more: bool, nlen: nat, code: byte, count: nat)
      requires Body(At(nlen0, code0, Some(bname), count0)).Some?
      modifies this`tree, conn`incoming, conn`calls
      ensures var r := At(nlen, code, Some(bname), count);
        old(Body(At(nlen0, code0, Some(bname), count0))) == Some(if more then Go(r) else Stop(r))
    {
      tree := tree[bname := []];
      nlen, code := ReceiveBlocks(bname, nlen0, code0, count0);
      more, count := ReceiveEnd(nlen, code, bname, count0);
    }

    /** Behind the blocks: the file is counted, and an error message is read. */
    method ReceiveEnd(nlen: nat, code: byte, ghost bname: Path, count0: nat) returns (more: bool, count: nat)
      requires BodyEnd(At(nlen, code, Some(bname), count0)).Some?
      modifies conn`incoming, conn`calls
      ensures var r := At(nlen, code, Some(bname), count);
        old(BodyEnd(At(nlen, code, Some(bname), count0))) == Some(if more then Go(r) else Stop(r))
    {
      count := count0 + 1;
      if nlen == 0 {
        return false, count;
      }
      if code == CODE_ERROR_REMOTE {
        var msg := new byte[nlen];
        var err, r := ReceiveRaw(msg, nlen - 1, 1);
      }
      return true, count;
    }

    /** mb2_handle_receive_files, on any stream for which the code is defined. */
    method HandleReceiveFiles() returns (fileCount: nat)
      requires Received(conn.incoming, tree).Some?
      modifies this, conn`incoming, conn`calls
      ensures var r := old(Received(conn.incoming, tree)).value;
        tree == r.tree && fileCount == r.count && conn.incoming == r.stream
      ensures responses == old(responses) + [Response(0, map[])]
    {
      fileCount := 0;
      var nlen: nat, code: byte, bname: Option<Path> := 0, 0, None;
      ghost var goal := Rounds(At(0, 0, None, 0));
      while true
        invariant goal.Some? && Rounds(At(nlen, code, bname, fileCount)) == goal && responses == old(responses)
        decreases |conn.incoming|
      {
        RoundShortens(At(nlen, code, bname, fileCount));
        var more;
        more, nlen, code, bname, fileCount := ReceiveRound(nlen, code, bname, fileCount);
        if !more {
          break;
        }
      }
      DiscardLeftovers(nlen, code, bname, fileCount);
      responses := responses + [Response(0, map[])];
    }

    /** Behind the loop: what is left to read is dropped, and the current file is removed. */
    method DiscardLeftovers(nlen: nat, ghost code: byte, bname: Option<Path>, ghost count: nat)
      requires CleanedUp(At(nlen, code, bname, count)).Some?
      modifies this`tree, conn`incoming, conn`calls
      ensures old(CleanedUp(At(nlen, code, bname, count))).value == At(nlen, code, bname, count)
    {
      if 1 < nlen < TWO_31 {
        var fname := new byte[nlen - 1];
        var err, r := ReceiveRaw(fname, nlen - 1, 0);
        if bname.Some? {
          tree := tree - {bname.value};
        }
      }
    }

    /** Error numbers are not zero, and their texts fit the send buffer. */
    ghost predicate SystemErrors() {
      (forall p :: p in denied ==> denied[p] > 0) && (forall e :: 5 + |strerror(e)| <= BUFFER_SIZE)
    }

    function Outcome(path: Path): SendOutcome
      reads this
    {
      OutcomeOf(tree, denied, path)
    }

    /** mb2_handle_send_file: path length, path, then blocks and a success marker or an error text. */
    method HandleSendFile(path: Path, errplist: Option<map<Path, int>>)
      returns (result: int, errs: Option<map<Path, int>>)
      requires |path| < TWO_32 && SystemErrors()
      modifies conn`outgoing, conn`sends
      ensures conn.outgoing == old(conn.outgoing) + SentBytes(path, Outcome(path), strerror)
      ensures result == if Outcome(path).Sent? then 0 else -1
      ensures !Outcome(path).Failed? ==> errs == errplist
      ensures Outcome(path).Failed? ==>
        errs == Some((if errplist.Some? then errplist.value else map[])[path := DeviceError(Outcome(path).errno)])
    {
      errs := errplist;
      ghost var wire := conn.outgoing;
      var err, bytes := SendRaw(Be32(|path|), 0);
      err, bytes := SendRaw(path, bytes);
      if err != Success {
        assert path == [] && wire + Be32(0) + [] == wire + Be32(0);
        return -1, errs;
      }
      var errcode := 0;
      if path in denied {
        errcode := denied[path];
      } else if path !in tree {
        errcode := ENOENT;
      } else if tree[path] != [] {
        SendBlocks(tree[path]);
      }
      if errcode == 0 {
        result := 0;
        err, bytes := SendRaw(Be32(1) + [CODE_SUCCESS], bytes);
        if path !in denied {
          Appended(wire, Be32(|path|), path, BlockBytes(tree[path]), Be32(1) + [CODE_SUCCESS]);
          BlocksThenEnd(tree[path]);
        }
      } else {
        result := -1;
        errs := Some(Added(errs, path, errcode));
        var errdesc := strerror(errcode);
        err, bytes := SendRaw(Be32(|errdesc| + 1) + [CODE_ERROR_LOCAL] + errdesc, bytes);
        Appended(wire, Be32(|path|), path, [], Chunk(CODE_ERROR_LOCAL, errdesc));
      }
    }

    /** The block loop of mb2_handle_send_file on a file that is not empty. */
    method SendBlocks(content: seq<byte>)
      requires content != []
      modifies conn`outgoing, conn`sends
      ensures conn.outgoing == old(conn.outgoing) + BlockBytes(content)
    {
      var total, sent := |content|, 0;
      ghost var wire := conn.outgoing + BlockBytes(content);
      assert content[0..] == content;
      while true
        invariant sent < total && conn.outgoing + BlockBytes(content[sent..]) == wire
        decreases total - sent
      {
        var length := BUFFER_SIZE;
        if total - sent < BUFFER_SIZE {
          // (uint32_t)total-sent: the cast applies to total alone
          length := (total % TWO_32 - sent) % TWO_32;
          CastIsExact(total, sent);
        }
        var r := Min(BUFFER_SIZE, total - sent);
        SendBlock(content[sent..], length, r);
        assert content[sent..][r..] == content[sent + r..];
        sent := sent + r;
        if sent >= total {
          assert BlockBytes([]) == [];
          break;
        }
      }
    }

    /** One block of the file: its length and code, then the r bytes that fread delivered. */
    method SendBlock(left: seq<byte>, length: nat, r: nat)
      requires left != [] && r == length == Min(BUFFER_SIZE, |left|)
      modifies conn`outgoing, conn`sends
      ensures conn.outgoing + BlockBytes(left[r..]) == old(conn.outgoing) + BlockBytes(left)
    {
      BlockStep(conn.outgoing, left, r);
      var err, bytes := SendRaw(Be32(length + 1) + [CODE_FILE_DATA], 0);
      err, bytes := SendRaw(left[..r], bytes);
    }

    /** mb2_handle_send_files: the files up to the first that fails, a zero, one status response. */
    method HandleSendFiles(files: seq<Option<Path>>)
      requires SystemErrors()
      requires forall i :: 0 <= i < |files| && files[i].Some? ==> |files[i].value| < TWO_32
      modifies conn`outgoing, conn`sends, this`responses
      ensures files == [] ==> conn.outgoing == old(conn.outgoing) && responses == old(responses)
      ensures files != [] ==> conn.outgoing == old(conn.outgoing) + BatchBytes(tree, denied, strerror, files) + Be32(0)
      ensures files != [] ==> responses == old(responses) + [BatchResponse(tree, denied, files)]
    {
      if files == [] {
        return;
      }
      var errplist: Option<map<Path, int>> := None;
      ghost var wire := conn.outgoing + BatchBytes(tree, denied, strerror, files);
      var i := 0;
      assert files[0..] == files;
      while i < |files|
        invariant i <= |files| && errplist == None && responses == old(responses)
        invariant conn.outgoing + BatchBytes(tree, denied, strerror, files[i..]) == wire
        invariant BatchResponse(tree, denied, files[i..]) == BatchResponse(tree, denied, files)
      {
        assert files[i..][0] == files[i] && files[i..][1..] == files[i + 1..];
        if files[i].Some? {
          var result;
          ghost var before := conn.outgoing;
          result, errplist := HandleSendFile(files[i].value, errplist);
          if result < 0 {
            break;
          }
          Regroup(before, SentBytes(files[i].value, Outcome(files[i].value), strerror),
            BatchBytes(tree, denied, strerror, files[i + 1..]));
        }
        i := i + 1;
      }
      assert conn.outgoing == wire;
      var err, sent := SendRaw(Be32(0), 0);
      if errplist == None {
        responses := responses + [Response(0, map[])];
      } else {
        responses := responses + [Response(MULTI_STATUS, errplist.value)];
      }
    }
  }
}
