/** The device's side of a run of requests: frames taken off the wire one by one, by their length fields. */
module AfcRequests {
  import opened Bytes
  import opened Chunks
  import opened Options
  import opened AfcFrame
  import opened AfcClient
  import opened AfcAgreement

  datatype Request = Request(num: nat, operation: nat, parameters: seq<byte>, payload: seq<byte>)

  function Before(r: Request, rest: Option<seq<Request>>): Option<seq<Request>> {
    if rest.None? then None else Some([r] + rest.value)
  }

  /** The requests on the wire; None where the lengths of a header do not fit. */
  function Requests(s: seq<byte>): (r: Option<seq<Request>>)
    decreases |s|
  {
    if s == [] then Some([])
    else if |s| < 40 then None
    else
      var entire, this_ := LongAt(s, 8), LongAt(s, 16);
      if !(40 <= this_ <= entire <= |s|) then None
      else Before(Request(LongAt(s, 24), LongAt(s, 32), s[40..this_], s[this_..entire]), Requests(s[entire..]))
  }

  /** The write requests for pieces of data. */
  function Writes(handle: nat, pieces: seq<seq<byte>>, num: nat): (r: seq<Request>)
    decreases |pieces|
  {
    if pieces == [] then []
    else [Request(num + 1, 0x10, Le64(handle), pieces[0])] + Writes(handle, pieces[1..], num + 1)
  }

  /** What a call asks of the device, the last packet having had number num: a file to be opened, pieces of
      32768 bytes to be written one after another, a file to be closed. */
  function Asked(c: Call, num: nat): (r: seq<Request>) {
    match c
    case Open(path, mode) => [Request(num + 1, 0x0D, Le64(mode) + path + [0], [])]
    case Write(h, data) => if h == 0 then [] else Writes(h, Packets(data, 0, 0x8000), num)
    case Close(h) => if h == 0 then [] else [Request(num + 1, 0x14, Le64(h), [])]
  }

  function AllAsked(calls: seq<Call>, num: nat): (r: seq<Request>)
    decreases |calls|
  {
    if calls == [] then [] else Asked(calls[0], num) + AllAsked(calls[1..], num + |Asked(calls[0], num)|)
  }

  function Joined(r: seq<Request>, rest: Option<seq<Request>>): Option<seq<Request>> {
    if rest.None? then None else Some(r + rest.value)
  }

  lemma {:induction false} JoinedOne(r: Request, more: seq<Request>, rest: Option<seq<Request>>)
    ensures Joined([r] + more, rest) == Before(r, Joined(more, rest))
    ensures Joined([r], rest) == Before(r, rest) && Joined([], rest) == rest
  {
    if rest.Some? {
      Regroup([r], more, rest.value);
      assert [] + rest.value == rest.value;
    }
  }

  lemma {:induction false} JoinedTwice(a: seq<Request>, b: seq<Request>)
    ensures Joined(a, Some(b)) == Some(a + b)
  {
  }

  /** A frame in front is read as one request. */
  lemma {:induction false} FrameRead(p: Packet, body: seq<byte>, rest: seq<byte>)
    requires Describes(p, body)
    ensures var n := p.thisLength - 40;
      Requests(Frame(p, body) + rest)
        == Before(Request(p.packetNum, p.operation, body[..n], body[n..]), Requests(rest))
  {
    var s := Frame(p, body) + rest;
    PacketRoundTrip(p, body + rest);
    FrameParts(PacketBytes(p), body, rest, p.thisLength - 40);
  }

  lemma {:induction false} FrameParts(header: seq<byte>, body: seq<byte>, rest: seq<byte>, n: nat)
    requires |header| == 40 && n <= |body|
    ensures var s := header + body + rest;
      && s == header + (body + rest) && s[40..40 + n] == body[..n] && s[40 + n..40 + |body|] == body[n..]
      && s[40 + |body|..] == rest
  {
  }

  lemma {:induction false} WritesRead(handle: nat, data: seq<byte>, num: nat, rest: seq<byte>)
    requires handle < TWO_64 && |data| + 48 < TWO_32 && num + |Packets(data, 0, 0x8000)| < TWO_64
    ensures Requests(WriteFrames(handle, data, num) + rest)
         == Joined(Writes(handle, Packets(data, 0, 0x8000), num), Requests(rest))
    decreases |data|
  {
    if data == [] {
      assert [] + rest == rest;
      JoinedOne(Request(0, 0, [], []), [], Requests(rest));
    } else {
      var n := Min(0x8000, |data|);
      var p, body := Packet(48 + n, 48, num + 1, 0x10), Le64(handle) + data[..n];
      var more := WriteFrames(handle, data[n..], num + 1);
      FirstPiece(data, n);
      WritesRead(handle, data[n..], num + 1, rest);
      Regroup(Frame(p, body), more, rest);
      FrameRead(p, body, more + rest);
      assert body[..8] == Le64(handle) && body[8..] == data[..n];
      JoinedOne(Request(num + 1, 0x10, Le64(handle), data[..n]), Writes(handle, Packets(data[n..], 0, 0x8000), num + 1),
        Requests(rest));
    }
  }

  lemma {:induction false} FirstPiece(data: seq<byte>, n: nat)
    requires data != [] && n == Min(0x8000, |data|)
    ensures var p := Packets(data, 0, 0x8000);
      p == [data[..n]] + Packets(data[n..], 0, 0x8000) && p[1..] == Packets(data[n..], 0, 0x8000) && p[0] == data[..n]
  {
    assert data[0..n] == data[..n];
    PacketsShift(data, 0, n, 0x8000);
    assert Packets(data, 0x8000, 0x8000) == Packets(data, n + 0, 0x8000);
  }

  lemma {:induction false} OneRequest(p: Packet, body: seq<byte>, rest: seq<byte>)
    requires Describes(p, body) && p.thisLength == p.entireLength
    ensures Requests(Frame(p, body) + rest)
         == Joined([Request(p.packetNum, p.operation, body, [])], Requests(rest))
  {
    FrameRead(p, body, rest);
    assert body[..|body|] == body && body[|body|..] == [];
    JoinedOne(Request(p.packetNum, p.operation, body, []), [], Requests(rest));
  }

  lemma {:induction false} OpenRead(path: seq<byte>, mode: nat, num: nat, rest: seq<byte>)
    requires Packable(Open(path, mode)) && num + 1 < TWO_64
    ensures Requests(CBytes(Open(path, mode), num) + rest)
         == Joined([Request(num + 1, 0x0D, Le64(mode) + path + [0], [])], Requests(rest))
  {
    var body := Le64(mode) + path + [0];
    OneRequest(Packet(40 + |body|, 40 + |body|, num + 1, 0x0D), body, rest);
  }

  lemma {:induction false} CloseRead(h: nat, num: nat, rest: seq<byte>)
    requires 0 < h < TWO_32 && num + 1 < TWO_64
    ensures Requests(CBytes(Close(h), num) + rest) == Joined([Request(num + 1, 0x14, Le64(h), [])], Requests(rest))
  {
    OneRequest(Packet(48, 48, num + 1, 0x14), Le64(h), rest);
  }

  lemma {:induction false} SilentRead(rest: seq<byte>)
    ensures Requests([] + rest) == Joined([], Requests(rest))
  {
    JoinedOne(Request(0, 0, [], []), [], Requests(rest));
    assert [] + rest == rest;
  }

  lemma {:induction false} CallRead(c: Call, num: nat, rest: seq<byte>)
    requires Packable(c) && num + |Asked(c, num)| < TWO_64
    ensures Requests(CBytes(c, num) + rest) == Joined(Asked(c, num), Requests(rest))
  {
    SilentRead(rest);
    match c
    case Open(path, mode) => OpenRead(path, mode, num, rest);
    case Write(h, data) =>
      if h != 0 {
        WritesAre(h, Packets(data, 0, 0x8000), num);
        WritesRead(h, data, num, rest);
      }
    case Close(h) =>
      if h != 0 {
        CloseRead(h, num, rest);
      }
  }

  lemma {:induction false} NumbersUsed(c: Call, num: nat)
    ensures |Asked(c, num)| == Used(c)
  {
    if c.Write? && c.handle != 0 {
      PacketsOf(c.data, 0, 0x8000);
      AsManyWrites(c.handle, Packets(c.data, 0, 0x8000), num);
    }
  }

  lemma {:induction false} AsManyWrites(handle: nat, pieces: seq<seq<byte>>, num: nat)
    ensures |Writes(handle, pieces, num)| == |pieces|
    decreases |pieces|
  {
    if pieces != [] {
      AsManyWrites(handle, pieces[1..], num + 1);
    }
  }

  /** The device reads off the wire exactly what the calls of a run ask, in order, numbered without a gap. */
  lemma {:induction false} RunRead(calls: seq<Call>, num: nat)
    requires AllPackable(calls) && num + |AllAsked(calls, num)| < TWO_64
    ensures Requests(CStream(calls, num)) == Some(AllAsked(calls, num))
    decreases |calls|
  {
    if calls != [] {
      var asked, later, bytes, rest := RunStep(calls, num);
      RunRead(calls[1..], num + |asked|);
      CallRead(calls[0], num, rest);
      JoinedTwice(asked, later);
    }
  }

  lemma {:induction false} RunStep(calls: seq<Call>, num: nat)
    returns (asked: seq<Request>, later: seq<Request>, bytes: seq<byte>, rest: seq<byte>)
    requires calls != []
    ensures asked == Asked(calls[0], num) && later == AllAsked(calls[1..], num + |asked|)
    ensures bytes == CBytes(calls[0], num) && rest == CStream(calls[1..], num + |asked|)
    ensures AllAsked(calls, num) == asked + later && CStream(calls, num) == bytes + rest
  {
    NumbersUsed(calls[0], num);
    asked, bytes := Asked(calls[0], num), CBytes(calls[0], num);
    later, rest := AllAsked(calls[1..], num + |asked|), CStream(calls[1..], num + |asked|);
  }

  /** The pieces of a write are the data: ceil(length / 32768) of them, none empty, only the last one shorter. */
  lemma {:induction false} WriteCarriesData(handle: nat, data: seq<byte>, num: nat)
    requires handle != 0
    ensures var r := Asked(Write(handle, data), num);
      && |r| == CeilDiv(|data|, 0x8000) && Flatten(Payloads(r)) == data
      && forall i :: 0 <= i < |r| ==> r[i].num == num + 1 + i && r[i].parameters == Le64(handle)
  {
    PacketsOf(data, 0, 0x8000);
    assert data[0..] == data;
    WritesAre(handle, Packets(data, 0, 0x8000), num);
  }

  function Payloads(r: seq<Request>): (p: seq<seq<byte>>) {
    if r == [] then [] else [r[0].payload] + Payloads(r[1..])
  }

  lemma {:induction false} WritesAre(handle: nat, pieces: seq<seq<byte>>, num: nat)
    ensures var r := Writes(handle, pieces, num);
      && |r| == |pieces| && Payloads(r) == pieces
      && forall i :: 0 <= i < |r| ==> r[i].num == num + 1 + i && r[i].parameters == Le64(handle)
    decreases |pieces|
  {
    if pieces != [] {
      WritesAre(handle, pieces[1..], num + 1);
    }
  }
}
