/** The peer of the AFC client: open files with positions, one reply per request, replies in order.
    How much a read returns and how a reply is cut into parameters and payload is arbitrary. */
module AfcDevice {
  import opened Bytes
  import opened Options
  import opened Transport
  import opened AfcFrame

  datatype OpenFile = OpenFile(content: seq<byte>, pos: nat) {
    predicate Valid() { pos <= |content| }
  }

  /** The file after data has been written at its position. */
  function Written(f: OpenFile, data: seq<byte>): (g: OpenFile)
    requires f.Valid()
    ensures g.Valid()
  {
    OpenFile(f.content[..f.pos] + data + f.content[Min(f.pos + |data|, |f.content|)..], f.pos + |data|)
  }

  /** The next n bytes, as far as there are any. */
  function Next(f: OpenFile, n: nat): (s: seq<byte>)
    requires f.Valid()
    ensures |s| == Min(n, |f.content| - f.pos)
  {
    f.content[f.pos..f.pos + Min(n, |f.content| - f.pos)]
  }

  function Advanced(f: OpenFile, n: nat): (g: OpenFile)
    requires f.Valid()
    ensures g.Valid()
  {
    OpenFile(f.content, f.pos + Min(n, |f.content| - f.pos))
  }

  const NO_SUCH_HANDLE: nat := 8
  const SEEK_SET: int := 0
  const SEEK_CUR: int := 1
  const SEEK_END: int := 2

  /** The 64-bit word of a signed number, and the number of a word. */
  function Word(n: int): (w: nat)
    ensures w < TWO_64
  {
    n % TWO_64
  }

  function Signed(w: nat): int {
    if w < TWO_64 / 2 then w else w - TWO_64
  }

  predicate IsLong(n: int) {
    -(TWO_64 / 2) <= n < TWO_64 / 2
  }

  lemma {:induction false} SignedWord(n: int)
    requires IsLong(n)
    ensures Signed(Word(n)) == n
  {
    if n < 0 {
      ModUnique(n + TWO_64, TWO_64, 0, n + TWO_64);
      WordOfNegative(n);
    } else {
      ModUnique(n, TWO_64, 0, n);
    }
  }

  lemma {:induction false} WordOfNegative(n: int)
    requires IsLong(n) && n < 0
    ensures Word(n) == n + TWO_64
  {
  }

  /** The file at the place a seek leads to; None: no such origin, or a place outside the file. */
  function Sought(f: OpenFile, whence: int, offset: int): (g: Option<OpenFile>)
    requires f.Valid()
    ensures g.Some? ==> g.value.Valid() && g.value.content == f.content
  {
    if whence !in {SEEK_SET, SEEK_CUR, SEEK_END} then None
    else
      var at := (if whence == SEEK_SET then 0 else if whence == SEEK_CUR then f.pos else |f.content|) + offset;
      if 0 <= at <= |f.content| then Some(OpenFile(f.content, at)) else None
  }

  class Device {
    const readWish: nat -> nat  // how much the i-th request would like to return
    const split: nat -> nat     // how much of the i-th reply travels as parameters
    const handles: nat -> nat   // the handle that the i-th request would get if it opens a file
    const directories: map<seq<byte>, seq<byte>>  // the listing of each directory
    const contents: (seq<byte>, nat) -> Option<seq<byte>>  // what a path opened in a mode holds, if it can be opened
    var files: map<nat, OpenFile>
    var served: nat

    constructor (readWish: nat -> nat, split: nat -> nat, handles: nat -> nat, directories: map<seq<byte>, seq<byte>>,
                 contents: (seq<byte>, nat) -> Option<seq<byte>>, files: map<nat, OpenFile>)
      ensures this.readWish == readWish && this.split == split && this.handles == handles
      ensures this.directories == directories && this.contents == contents && this.files == files && served == 0
    {
      this.readWish, this.split, this.handles := readWish, split, handles;
      this.directories, this.contents := directories, contents;
      this.files, served := files, 0;
    }

    /** The handle for a path that is opened now; None: it cannot be, or there is no free handle. */
    function Granted(path: seq<byte>, mode: nat): Option<nat>
      reads this
    {
      var h := handles(served);
      if contents(path, mode).Some? && 0 < h < TWO_64 && h !in files then Some(h) else None
    }

    ghost predicate Valid()
      reads this
    {
      forall h :: h in files ==> files[h].Valid()
    }

    /** No reply carries more than forty bytes of parameters. */
    ghost predicate SmallParameters() {
      forall i {:trigger split(i)} :: split(i) <= HEADER_SIZE
    }

    /** One reply. */
    method Reply(conn: Connection, num: nat, op: nat, body: seq<byte>) returns (ghost p: Packet)
      requires num < TWO_64 && op < TWO_64 && HEADER_SIZE + |body| < TWO_32
      modifies conn`incoming, this`served
      ensures Describes(p, body) && p.packetNum == num && p.operation == op
      ensures SmallParameters() ==> p.thisLength <= 2 * HEADER_SIZE
      ensures conn.incoming == old(conn.incoming) + Frame(p, body)
      ensures old(conn.incoming) == [] ==> conn.incoming == Frame(p, body)
      ensures served == old(served) + 1
    {
      var reply := Packet(HEADER_SIZE + |body|, HEADER_SIZE + Min(split(served), |body|), num, op);
      p := reply;
      conn.incoming := conn.incoming + (PacketBytes(reply) + body);
      served := served + 1;
    }

    /** A write request on the wire: handle in the parameters, data in the payload. */
    method ServeWrite(conn: Connection, ghost q: Packet, ghost handle: nat, ghost data: seq<byte>)
      returns (ghost p: Packet, ghost code: nat)
      requires Valid() && handle < TWO_64
      requires Describes(q, Le64(handle) + data) && q.operation == 0x10
          && conn.outgoing == Frame(q, Le64(handle) + data)
      modifies this, conn`incoming, conn`outgoing
      ensures Valid() && conn.outgoing == []
      ensures code == if handle in old(files) then STATUS_SUCCESS else NO_SUCH_HANDLE
      ensures handle in old(files) ==> files == old(files)[handle := Written(old(files)[handle], data)]
      ensures handle !in old(files) ==> files == old(files)
      ensures Describes(p, StatusBody(code)) && p.packetNum == q.packetNum && p.operation == 0x01
      ensures SmallParameters() ==> p.thisLength <= 2 * HEADER_SIZE
      ensures conn.incoming == old(conn.incoming) + Frame(p, StatusBody(code))
      ensures old(conn.incoming) == [] ==> conn.incoming == Frame(p, StatusBody(code))
    {
      DecodeRequest(q, Le64(handle) + data);
      HandleInFront(handle, data);
      var num, body := PacketOf(conn.outgoing).packetNum, conn.outgoing[HEADER_SIZE..];
      var h := LongAt(body, 0);
      conn.outgoing := [];
      var status := NO_SUCH_HANDLE;
      if h in files {
        files := files[h := Written(files[h], body[8..])];
        status := STATUS_SUCCESS;
      }
      code := status;
      p := Reply(conn, num, OP_STATUS, StatusBody(status));
    }

    /** A read request: a nonempty prefix of what was asked, empty only at the end of the file. */
    method ServeRead(conn: Connection, ghost q: Packet, ghost handle: nat, ghost n: nat)
      returns (ghost p: Packet, ghost body: seq<byte>)
      requires Valid() && handle < TWO_64 && n < TWO_31
      requires Describes(q, Le64(handle) + Le64(n)) && q.operation == 0x0F
          && conn.outgoing == Frame(q, Le64(handle) + Le64(n))
      modifies this, conn`incoming, conn`outgoing
      ensures Valid() && conn.outgoing == []
      ensures handle !in old(files) ==>
        files == old(files) && body == StatusBody(NO_SUCH_HANDLE) && p.operation == 0x01
      ensures handle in old(files) ==>
        && |body| <= n && (|body| == 0 ==> n == 0 || Next(old(files)[handle], n) == [])
        && body == Next(old(files)[handle], |body|) && p.operation == 0x02
        && files == old(files)[handle := Advanced(old(files)[handle], |body|)]
      ensures Describes(p, body) && p.packetNum == q.packetNum
      ensures SmallParameters() ==> p.thisLength <= 2 * HEADER_SIZE
      ensures conn.incoming == old(conn.incoming) + Frame(p, body)
      ensures old(conn.incoming) == [] ==> conn.incoming == Frame(p, body)
    {
      DecodeRequest(q, Le64(handle) + Le64(n));
      HandleInFront(handle, Le64(n));
      Le64RoundTrip(n);
      var num, request := PacketOf(conn.outgoing).packetNum, conn.outgoing[HEADER_SIZE..];
      assert request[8..16] == Le64(n);
      var h, size := LongAt(request, 0), LongAt(request, 8);
      conn.outgoing := [];
      if h in files {
        var f := files[h];
        var k := Fragment(readWish(served), size, |f.content| - f.pos);
        files := files[h := Advanced(f, k)];
        body := Next(f, k);
        p := Reply(conn, num, OP_DATA, Next(f, k));
      } else {
        body := StatusBody(NO_SUCH_HANDLE);
        p := Reply(conn, num, OP_STATUS, StatusBody(NO_SUCH_HANDLE));
      }
    }

    /** A seek request. */
    method ServeSeek(conn: Connection, ghost q: Packet, ghost handle: nat, ghost whence: int, ghost offset: int)
      returns (ghost p: Packet, ghost code: nat)
      requires Valid() && handle < TWO_64 && IsLong(whence) && IsLong(offset)
      requires Describes(q, SeekBody(handle, whence, offset)) && q.operation == 0x11
      requires conn.outgoing == Frame(q, SeekBody(handle, whence, offset))
      modifies this, conn`incoming, conn`outgoing
      ensures Valid() && conn.outgoing == []
      ensures var found := handle in old(files) && Sought(old(files)[handle], whence, offset).Some?;
        && code == (if found then STATUS_SUCCESS else NO_SUCH_HANDLE)
        && files == if found then old(files)[handle := Sought(old(files)[handle], whence, offset).value] else old(files)
      ensures Describes(p, StatusBody(code)) && p.packetNum == q.packetNum && p.operation == 0x01
      ensures SmallParameters() ==> p.thisLength <= 2 * HEADER_SIZE
      ensures conn.incoming == old(conn.incoming) + Frame(p, StatusBody(code))
      ensures old(conn.incoming) == [] ==> conn.incoming == Frame(p, StatusBody(code))
    {
      DecodeRequest(q, SeekBody(handle, whence, offset));
      DecodeSeek(handle, whence, offset);
      var num, request := PacketOf(conn.outgoing).packetNum, conn.outgoing[HEADER_SIZE..];
      var h, origin, at := LongAt(request, 0), Signed(LongAt(request, 8)), Signed(LongAt(request, 16));
      conn.outgoing := [];
      var status := NO_SUCH_HANDLE;
      if h in files && Sought(files[h], origin, at).Some? {
        files := files[h := Sought(files[h], origin, at).value];
        status := STATUS_SUCCESS;
      }
      code := status;
      p := Reply(conn, num, OP_STATUS, StatusBody(status));
    }

    /** A request to open a file: the reply is its handle. */
    method ServeOpen(conn: Connection, ghost q: Packet, ghost mode: nat, ghost path: seq<byte>)
      returns (ghost p: Packet, ghost body: seq<byte>)
      requires Valid() && mode < TWO_64
      requires Describes(q, Le64(mode) + (path + [0])) && q.operation == 0x0D
          && conn.outgoing == Frame(q, Le64(mode) + (path + [0]))
      modifies this, conn`incoming, conn`outgoing
      ensures Valid() && conn.outgoing == []
      ensures var granted := old(Granted(path, mode));
        && (granted.Some? ==>
          && files == old(files)[granted.value := OpenFile(contents(path, mode).value, 0)]
          && body == Le64(granted.value) && p.operation == 0x0E)
        && (granted.None? ==> files == old(files) && body == StatusBody(NO_SUCH_HANDLE) && p.operation == 0x01)
      ensures Describes(p, body) && p.packetNum == q.packetNum
      ensures SmallParameters() ==> p.thisLength <= 2 * HEADER_SIZE
      ensures conn.incoming == old(conn.incoming) + Frame(p, body)
      ensures old(conn.incoming) == [] ==> conn.incoming == Frame(p, body)
    {
      DecodeRequest(q, Le64(mode) + (path + [0]));
      HandleInFront(mode, path + [0]);
      var num, request := PacketOf(conn.outgoing).packetNum, conn.outgoing[HEADER_SIZE..];
      var wanted, name := LongAt(request, 0), request[8..|request| - 1];
      assert request[8..] == path + [0];
      assert name == request[8..][..|request| - 9] == path;
      conn.outgoing := [];
      var granted := Granted(name, wanted);
      if granted.Some? {
        files := files[granted.value := OpenFile(contents(name, wanted).value, 0)];
        body := Le64(granted.value);
        p := Reply(conn, num, OP_FILE_OPEN_RES, Le64(granted.value));
      } else {
        body := StatusBody(NO_SUCH_HANDLE);
        p := Reply(conn, num, OP_STATUS, StatusBody(NO_SUCH_HANDLE));
      }
    }

    /** A request for the listing of a directory. */
    method ServeDirectory(conn: Connection, ghost q: Packet, ghost dir: seq<byte>)
      returns (ghost p: Packet, ghost body: seq<byte>)
      requires forall d :: d in directories ==> HEADER_SIZE + |directories[d]| < TWO_32
      requires Describes(q, dir + [0]) && q.operation == 0x03 && conn.outgoing == Frame(q, dir + [0])
      modifies this`served, conn`incoming, conn`outgoing
      ensures conn.outgoing == []
      ensures dir in directories ==> body == directories[dir] && p.operation == 0x02
      ensures dir !in directories ==> body == StatusBody(NO_SUCH_HANDLE) && p.operation == 0x01
      ensures Describes(p, body) && p.packetNum == q.packetNum
      ensures SmallParameters() ==> p.thisLength <= 2 * HEADER_SIZE
      ensures conn.incoming == old(conn.incoming) + Frame(p, body)
      ensures old(conn.incoming) == [] ==> conn.incoming == Frame(p, body)
    {
      DecodeRequest(q, dir + [0]);
      var num, request := PacketOf(conn.outgoing).packetNum, conn.outgoing[HEADER_SIZE..];
      var name := request[..|request| - 1];
      assert name == dir;
      conn.outgoing := [];
      if name in directories {
        body := directories[name];
        p := Reply(conn, num, OP_DATA, directories[name]);
      } else {
        body := StatusBody(NO_SUCH_HANDLE);
        p := Reply(conn, num, OP_STATUS, StatusBody(NO_SUCH_HANDLE));
      }
    }
  }

  /** The parameters of a seek request. */
  function SeekBody(handle: nat, whence: int, offset: int): (s: seq<byte>)
    ensures |s| == 24
  {
    Le64(handle) + (Le64(Word(whence)) + Le64(Word(offset)))
  }

  lemma {:induction false} DecodeSeek(handle: nat, whence: int, offset: int)
    requires handle < TWO_64 && IsLong(whence) && IsLong(offset)
    ensures var s := SeekBody(handle, whence, offset);
      LongAt(s, 0) == handle && Signed(LongAt(s, 8)) == whence && Signed(LongAt(s, 16)) == offset
  {
    HandleInFront(handle, Le64(Word(whence)) + Le64(Word(offset)));
    TwoLongs(handle, Le64(Word(whence)), Le64(Word(offset)));
    Le64RoundTrip(Word(whence));
    Le64RoundTrip(Word(offset));
    SignedWord(whence);
    SignedWord(offset);
  }

  lemma {:induction false} TwoLongs(handle: nat, a: seq<byte>, b: seq<byte>)
    requires |a| == 8 && |b| == 8
    ensures var s := Le64(handle) + (a + b); s[8..16] == a && s[16..24] == b
  {
    var s := Le64(handle) + (a + b);
    assert s[8..] == a + b;
    assert s[8..16] == s[8..][..8] && s[16..24] == s[8..][8..16];
  }

  lemma {:induction false} DecodeRequest(q: Packet, body: seq<byte>)
    requires q.Fits()
    ensures PacketOf(Frame(q, body)) == q && Frame(q, body)[HEADER_SIZE..] == body
  {
    PacketRoundTrip(q, body);
  }

  lemma {:induction false} HandleInFront(handle: nat, rest: seq<byte>)
    requires handle < TWO_64
    ensures LongAt(Le64(handle) + rest, 0) == handle && (Le64(handle) + rest)[8..] == rest
  {
    Le64RoundTrip(handle);
    assert (Le64(handle) + rest)[0..8] == Le64(handle);
  }

  // ---------------------------------------------------------------- files

  /** Writing in two pieces is writing the whole. */
  lemma {:induction false} WrittenTwice(f: OpenFile, a: seq<byte>, b: seq<byte>)
    requires f.Valid()
    ensures Written(Written(f, a), b) == Written(f, a + b)
  {
    var g := Written(f, a);
    assert g.content[..g.pos] == f.content[..f.pos] + a;
    assert Written(Written(f, a), b).content == Written(f, a + b).content;
  }

  lemma {:induction false} WrittenNothing(f: OpenFile)
    requires f.Valid()
    ensures Written(f, []) == f
  {
    assert f.content[..f.pos] + [] + f.content[f.pos..] == f.content;
  }

  /** Reading in two pieces is reading the whole. */
  lemma {:induction false} NextTwice(f: OpenFile, m: nat, n: nat)
    requires f.Valid()
    ensures Next(f, m) + Next(Advanced(f, m), n) == Next(f, m + n)
    ensures Advanced(Advanced(f, m), n) == Advanced(f, m + n)
  {
  }
}
