/** Runs of requests through the two AFC clients, with their replies left out, over a transport whose sends
    may come short, which the C client does not notice. */
module AfcRuns {
  import opened Bytes
  import opened Chunks
  import opened Transport
  import opened AfcFrame
  import opened AfcClient
  import opened AfcRuby
  import opened AfcAgreement

  // ---------------------------------------------------------------- requests as pieces

  /** The sends of a write. */
  function WritePieces(handle: nat, data: seq<byte>, num: nat): (p: seq<seq<byte>>)
    decreases |data|
  {
    if data == [] then []
    else
      var n := Min(MAXIMUM_WRITE_SIZE, |data|);
      [PacketBytes(Packet(HEADER_SIZE + 8 + n, HEADER_SIZE + 8, num + 1, OP_WRITE)), Le64(handle), data[..n]]
        + WritePieces(handle, data[n..], num + 1)
  }

  /** The sends of a request, the last packet having had number num. */
  function Pieces(c: Call, num: nat): (p: seq<seq<byte>>) {
    match c
    case Open(path, mode) =>
      var n := HEADER_SIZE + |OpenBody(c)|;
      [PacketBytes(Packet(n, n, num + 1, OP_FILE_OPEN)), OpenBody(c)]
    case Write(h, data) => if h == 0 then [] else WritePieces(h, data, num)
    case Close(h) =>
      if h == 0 then []
      else [PacketBytes(Packet(HEADER_SIZE + 8, HEADER_SIZE + 8, num + 1, OP_FILE_CLOSE)), Le64(h)]
  }

  function AllPieces(calls: seq<Call>, num: nat): (p: seq<seq<byte>>)
    decreases |calls|
  {
    if calls == [] then [] else Pieces(calls[0], num) + AllPieces(calls[1..], num + Used(calls[0]))
  }

  lemma {:induction false} TwoFlattened(a: seq<byte>, b: seq<byte>)
    ensures Flatten([a, b]) == a + b
  {
    assert [a, b][1..] == [b] && Flatten([b]) == b + Flatten([]) == b;
  }

  lemma {:induction false} ThreeFlattened(a: seq<byte>, b: seq<byte>, c: seq<byte>)
    ensures Flatten([a, b, c]) == a + (b + c)
  {
    TwoFlattened(b, c);
    assert [a, b, c][1..] == [b, c];
  }

  lemma {:induction false} WriteIsFrames(handle: nat, data: seq<byte>, num: nat)
    ensures Flatten(WritePieces(handle, data, num)) == WriteFrames(handle, data, num)
    decreases |data|
  {
    if data != [] {
      var n := Min(MAXIMUM_WRITE_SIZE, |data|);
      var h := PacketBytes(Packet(HEADER_SIZE + 8 + n, HEADER_SIZE + 8, num + 1, OP_WRITE));
      WriteIsFrames(handle, data[n..], num + 1);
      FlattenSum([h, Le64(handle), data[..n]], WritePieces(handle, data[n..], num + 1));
      ThreeFlattened(h, Le64(handle), data[..n]);
    }
  }

  /** The pieces of a request put together are its frames. */
  lemma {:induction false} PiecesAreFrames(c: Call, num: nat)
    ensures Flatten(Pieces(c, num)) == CBytes(c, num)
  {
    match c
    case Open(path, mode) =>
      var n := HEADER_SIZE + |OpenBody(c)|;
      TwoFlattened(PacketBytes(Packet(n, n, num + 1, OP_FILE_OPEN)), OpenBody(c));
    case Write(h, data) => WriteIsFrames(h, data, num);
    case Close(h) =>
      TwoFlattened(PacketBytes(Packet(HEADER_SIZE + 8, HEADER_SIZE + 8, num + 1, OP_FILE_CLOSE)), Le64(h));
  }

  lemma {:induction false} AllPiecesAreStream(calls: seq<Call>, num: nat)
    ensures Flatten(AllPieces(calls, num)) == CStream(calls, num)
    decreases |calls|
  {
    if calls != [] {
      AllPiecesAreStream(calls[1..], num + Used(calls[0]));
      PiecesAreFrames(calls[0], num);
      FlattenSum(Pieces(calls[0], num), AllPieces(calls[1..], num + Used(calls[0])));
    }
  }

  /** What a request puts on the wire, its first send being number k, is its frames if and only if none of
      its own sends comes short; otherwise it is less. */
  lemma {:induction false} RequestReaches(c: Call, num: nat, schedule: nat -> nat, k: nat)
    ensures Sent(Pieces(c, num), schedule, k) == CBytes(c, num) <==> AllWhole(Pieces(c, num), schedule, k)
    ensures |Sent(Pieces(c, num), schedule, k)| == |CBytes(c, num)| <==> AllWhole(Pieces(c, num), schedule, k)
    ensures |Sent(Pieces(c, num), schedule, k)| <= |CBytes(c, num)|
  {
    PiecesAreFrames(c, num);
    SentExactly(Pieces(c, num), schedule, k);
  }

  /** A run puts the stream of its frames on the wire if and only if no send of the run comes short. */
  lemma {:induction false} RunReaches(calls: seq<Call>, num: nat, schedule: nat -> nat, k: nat)
    ensures Sent(AllPieces(calls, num), schedule, k) == CStream(calls, num)
      <==> AllWhole(AllPieces(calls, num), schedule, k)
  {
    AllPiecesAreStream(calls, num);
    SentExactly(AllPieces(calls, num), schedule, k);
  }

  /** It puts there, one behind another, what each of its requests does. */
  lemma {:induction false} RequestsOneByOne(calls: seq<Call>, num: nat, schedule: nat -> nat, k: nat)
    requires calls != []
    ensures var p, next := Pieces(calls[0], num), num + Used(calls[0]);
      Sent(AllPieces(calls, num), schedule, k)
        == Sent(p, schedule, k) + Sent(AllPieces(calls[1..], next), schedule, k + |p|)
  {
    var p, rest := FirstRequest(calls, num);
    SentSum(p, rest, schedule, k);
  }

  lemma {:induction false} FirstRequest(calls: seq<Call>, num: nat) returns (p: seq<seq<byte>>, rest: seq<seq<byte>>)
    requires calls != []
    ensures p == Pieces(calls[0], num) && rest == AllPieces(calls[1..], num + Used(calls[0]))
    ensures AllPieces(calls, num) == p + rest && |AllPieces(calls, num)| == |p| + |rest|
  {
    p, rest := Pieces(calls[0], num), AllPieces(calls[1..], num + Used(calls[0]));
  }

  // ---------------------------------------------------------------- the C client

  lemma {:induction false} Together(p: Packet, data: seq<byte>, schedule: nat -> nat, k: nat)
    requires p.thisLength == p.entireLength && data != []
    ensures WireBytes(p, data, schedule, k) == Sent([PacketBytes(p), data], schedule, k) && SendsMade(p, |data|) == 2
  {
    var pieces := [PacketBytes(p), data];
    assert pieces[1..] == [data] && [data][1..] == [];
    assert Sent([data], schedule, k + 1) == Taken(data, schedule(k + 1)) + Sent([], schedule, k + 2);
  }

  lemma {:induction false} Apart(p: Packet, a: seq<byte>, b: seq<byte>, schedule: nat -> nat, k: nat)
    requires p.thisLength == HEADER_SIZE + |a| < p.entireLength && a != []
    ensures WireBytes(p, a + b, schedule, k) == Sent([PacketBytes(p), a, b], schedule, k) && SendsMade(p, |a + b|) == 3
  {
    var pieces := [PacketBytes(p), a, b];
    assert pieces[1..] == [a, b] && [a, b][1..] == [b] && [b][1..] == [];
    assert Sent([b], schedule, k + 2) == Taken(b, schedule(k + 2)) + Sent([], schedule, k + 3);
    assert Sent([a, b], schedule, k + 1) == Taken(a, schedule(k + 1)) + Sent([b], schedule, k + 2);
    assert (a + b)[..|a|] == a && (a + b)[|a|..] == b;
  }

  /** A dispatch in one piece. */
  method DispatchTogether(client: AfcClient, operation: nat, data: seq<byte>)
    requires 0 < |data| && HEADER_SIZE + |data| < TWO_32 && client.packetNum + 1 < TWO_64 && operation < TWO_64
    modifies client, client.conn
    ensures client.packetNum == old(client.packetNum) + 1 && client.conn.sends == old(client.conn.sends) + 2
    ensures var n := HEADER_SIZE + |data|;
      client.conn.outgoing == old(client.conn.outgoing)
        + Sent([PacketBytes(Packet(n, n, client.packetNum, operation)), data], client.conn.sendSchedule,
               old(client.conn.sends))
  {
    ModUnique(client.packetNum + 1, TWO_64, 0, client.packetNum + 1);
    client.operation := operation;
    client.entireLength, client.thisLength := 0, 0;
    ghost var k := client.conn.sends;
    var ret, sent := client.DispatchPacket(data);
    ghost var n := HEADER_SIZE + |data|;
    assert client.Header() == Packet(n, n, client.packetNum, operation);
    Together(client.Header(), data, client.conn.sendSchedule, k);
  }

  /** A segmented dispatch. */
  method DispatchApart(client: AfcClient, operation: nat, parameters: seq<byte>, payload: seq<byte>)
    requires parameters != [] && payload != [] && HEADER_SIZE + |parameters| + |payload| < TWO_32
    requires client.packetNum + 1 < TWO_64 && operation < TWO_64
    modifies client, client.conn
    ensures client.packetNum == old(client.packetNum) + 1 && client.conn.sends == old(client.conn.sends) + 3
    ensures var n := HEADER_SIZE + |parameters|;
      client.conn.outgoing == old(client.conn.outgoing)
        + Sent([PacketBytes(Packet(n + |payload|, n, client.packetNum, operation)), parameters, payload],
               client.conn.sendSchedule, old(client.conn.sends))
  {
    ModUnique(client.packetNum + 1, TWO_64, 0, client.packetNum + 1);
    client.thisLength := HEADER_SIZE + |parameters|;
    client.entireLength := client.thisLength + |payload|;
    client.operation := operation;
    ghost var k := client.conn.sends;
    var ret, n := client.DispatchPacket(parameters + payload);
    Apart(client.Header(), parameters, payload, client.conn.sendSchedule, k);
  }

  /** The sending half of afc_file_open, afc_file_write and afc_file_close; the replies are taken to
      report success. */
  method IssueC(client: AfcClient, c: Call)
    requires Packable(c) && client.packetNum + Used(c) < TWO_64
    modifies client, client.conn
    ensures client.packetNum == old(client.packetNum) + Used(c)
    ensures client.conn.sends == old(client.conn.sends) + |Pieces(c, old(client.packetNum))|
    ensures client.conn.outgoing == old(client.conn.outgoing)
      + Sent(Pieces(c, old(client.packetNum)), client.conn.sendSchedule, old(client.conn.sends))
  {
    NothingSent(client.conn.outgoing, client.conn.sendSchedule, client.conn.sends);
    match c {
      case Open(path, mode) =>
        DispatchTogether(client, OP_FILE_OPEN, Le64(mode) + path + [0]);
      case Write(h, data) =>
        if h != 0 {
          IssueWrite(client, h, data);
        }
      case Close(h) =>
        if h != 0 {
          DispatchTogether(client, OP_FILE_CLOSE, Le64(h));
        }
    }
  }

  lemma {:induction false} NothingSent(wire: seq<byte>, schedule: nat -> nat, k: nat)
    ensures wire + Sent([], schedule, k) == wire
  {
    assert wire + [] == wire;
  }

  /** What is left of a write leads from where the run is to where the whole write leads. */
  ghost predicate Leads(client: AfcClient, handle: nat, left: seq<byte>, wire: seq<byte>, sends: nat)
    reads client, client.conn
  {
    var p := WritePieces(handle, left, client.packetNum);
    && client.conn.outgoing + Sent(p, client.conn.sendSchedule, client.conn.sends) == wire
    && client.conn.sends + |p| == sends
  }

  method IssueWrite(client: AfcClient, handle: nat, data: seq<byte>)
    requires |data| + 48 < TWO_32 && client.packetNum + Segments(|data|) < TWO_64
    modifies client, client.conn
    ensures client.packetNum == old(client.packetNum) + Segments(|data|)
    ensures var p := WritePieces(handle, data, old(client.packetNum));
      && client.conn.outgoing
           == old(client.conn.outgoing) + Sent(p, client.conn.sendSchedule, old(client.conn.sends))
      && client.conn.sends == old(client.conn.sends) + |p|
  {
    var segments, currentCount, i := |data| / MAXIMUM_WRITE_SIZE, 0, 0;
    ghost var num, pieces := client.packetNum, WritePieces(handle, data, client.packetNum);
    ghost var wire := client.conn.outgoing + Sent(pieces, client.conn.sendSchedule, client.conn.sends);
    ghost var sends := client.conn.sends + |pieces|;
    assert data[0..] == data;
    while i < segments
      invariant i <= segments && currentCount == i * MAXIMUM_WRITE_SIZE && client.packetNum == num + i
      invariant Leads(client, handle, data[currentCount..], wire, sends)
    {
      SendSegment(client, handle, data[currentCount..], MAXIMUM_WRITE_SIZE, wire, sends);
      assert data[currentCount..][MAXIMUM_WRITE_SIZE..] == data[currentCount + MAXIMUM_WRITE_SIZE..];
      currentCount := currentCount + MAXIMUM_WRITE_SIZE;
      i := i + 1;
    }
    if currentCount == |data| {
      AllSegmentsSent(client, handle, data[currentCount..], wire, sends);
      return;
    }
    SendSegment(client, handle, data[currentCount..], |data| - currentCount, wire, sends);
    AllSegmentsSent(client, handle, data[currentCount..][|data| - currentCount..], wire, sends);
  }

  lemma {:induction false} AllSegmentsSent(client: AfcClient, handle: nat, left: seq<byte>, wire: seq<byte>, sends: nat)
    requires left == [] && Leads(client, handle, left, wire, sends)
    ensures client.conn.outgoing == wire && client.conn.sends == sends
  {
    assert client.conn.outgoing + [] == client.conn.outgoing;
  }

  /** One segment: the lengths say where the parameters end. */
  method SendSegment(client: AfcClient, handle: nat, left: seq<byte>, n: nat, ghost wire: seq<byte>, ghost sends: nat)
    requires n == Min(MAXIMUM_WRITE_SIZE, |left|) && n > 0 && client.packetNum + 1 < TWO_64
    requires Leads(client, handle, left, wire, sends)
    modifies client, client.conn
    ensures client.packetNum == old(client.packetNum) + 1 && Leads(client, handle, left[n..], wire, sends)
  {
    SegmentStep(client.conn.outgoing, handle, left, n, client.packetNum, client.conn.sendSchedule, client.conn.sends);
    DispatchApart(client, OP_WRITE, Le64(handle), left[..n]);
  }

  lemma {:induction false} SegmentStep(wire: seq<byte>, handle: nat, left: seq<byte>, n: nat, num: nat,
                                       schedule: nat -> nat, k: nat)
    requires n == Min(MAXIMUM_WRITE_SIZE, |left|) && n > 0
    ensures var h := PacketBytes(Packet(HEADER_SIZE + 8 + n, HEADER_SIZE + 8, num + 1, OP_WRITE));
      var all, rest := WritePieces(handle, left, num), WritePieces(handle, left[n..], num + 1);
      && wire + Sent(all, schedule, k)
           == (wire + Sent([h, Le64(handle), left[..n]], schedule, k)) + Sent(rest, schedule, k + 3)
      && |all| == 3 + |rest|
  {
    var h := PacketBytes(Packet(HEADER_SIZE + 8 + n, HEADER_SIZE + 8, num + 1, OP_WRITE));
    var first, rest := [h, Le64(handle), left[..n]], WritePieces(handle, left[n..], num + 1);
    SentSum(first, rest, schedule, k);
    Regroup(wire, Sent(first, schedule, k), Sent(rest, schedule, k + 3));
  }

  function TotalUsed(calls: seq<Call>): nat {
    if calls == [] then 0 else Used(calls[0]) + TotalUsed(calls[1..])
  }

  lemma {:induction false} WholePieces(c: Call, num: nat, schedule: nat -> nat, k: nat)
    requires Packable(c) && forall i {:trigger schedule(i)} :: schedule(i) >= TWO_32
    ensures AllWhole(Pieces(c, num), schedule, k)
  {
    match c
    case Open(path, mode) => WholeTwo(Pieces(c, num), schedule, k);
    case Write(h, data) =>
      if h != 0 {
        WholeWrite(h, data, num, schedule, k);
      }
    case Close(h) =>
      if h != 0 {
        WholeTwo(Pieces(c, num), schedule, k);
      }
  }

  lemma {:induction false} WholeTwo(p: seq<seq<byte>>, schedule: nat -> nat, k: nat)
    requires |p| == 2 && |p[0]| < TWO_32 && |p[1]| < TWO_32
    requires forall i {:trigger schedule(i)} :: schedule(i) >= TWO_32
    ensures AllWhole(p, schedule, k)
  {
    assert AllWhole(p[1..][1..], schedule, k + 2);
    assert AllWhole(p[1..], schedule, k + 1);
  }

  lemma {:induction false} WholeWrite(handle: nat, data: seq<byte>, num: nat, schedule: nat -> nat, k: nat)
    requires forall i {:trigger schedule(i)} :: schedule(i) >= TWO_32
    ensures AllWhole(WritePieces(handle, data, num), schedule, k)
    decreases |data|
  {
    if data != [] {
      var n := Min(MAXIMUM_WRITE_SIZE, |data|);
      var h := PacketBytes(Packet(HEADER_SIZE + 8 + n, HEADER_SIZE + 8, num + 1, OP_WRITE));
      WholeWrite(handle, data[n..], num + 1, schedule, k + 3);
      WholeTwo([h, Le64(handle)], schedule, k);
      WholeOne(data[..n], schedule, k + 2);
      SentSum([h, Le64(handle)], [data[..n]], schedule, k);
      assert [h, Le64(handle)] + [data[..n]] == [h, Le64(handle), data[..n]];
      SentSum([h, Le64(handle), data[..n]], WritePieces(handle, data[n..], num + 1), schedule, k);
    }
  }

  lemma {:induction false} WholeOne(piece: seq<byte>, schedule: nat -> nat, k: nat)
    requires |piece| < TWO_32 && schedule(k) >= TWO_32
    ensures AllWhole([piece], schedule, k)
  {
    assert AllWhole([piece][1..], schedule, k + 1);
  }

  /** A request over a transport that takes every send whole. */
  method IssueWhole(client: AfcClient, c: Call)
    requires SendsWhole(client.conn) && Packable(c) && client.packetNum + Used(c) < TWO_64
    modifies client, client.conn
    ensures client.packetNum == old(client.packetNum) + Used(c)
    ensures client.conn.outgoing == old(client.conn.outgoing) + CBytes(c, old(client.packetNum))
  {
    WholePieces(c, client.packetNum, client.conn.sendSchedule, client.conn.sends);
    RequestReaches(c, client.packetNum, client.conn.sendSchedule, client.conn.sends);
    IssueC(client, c);
  }

  lemma {:induction false} CStep(wire: seq<byte>, calls: seq<Call>, num: nat)
    returns (bytes: seq<byte>, rest: seq<byte>)
    requires calls != []
    ensures bytes == CBytes(calls[0], num) && rest == CStream(calls[1..], num + Used(calls[0]))
    ensures wire + CStream(calls, num) == (wire + bytes) + rest
    ensures TotalUsed(calls) == Used(calls[0]) + TotalUsed(calls[1..])
  {
    bytes, rest := CBytes(calls[0], num), CStream(calls[1..], num + Used(calls[0]));
    Regroup(wire, bytes, rest);
  }

  method RunC(client: AfcClient, calls: seq<Call>)
    requires SendsWhole(client.conn) && AllPackable(calls)
    requires client.packetNum + TotalUsed(calls) < TWO_64
    modifies client, client.conn
    ensures client.conn.outgoing == old(client.conn.outgoing) + CStream(calls, old(client.packetNum))
    decreases |calls|, 0
  {
    if calls == [] {
      assert client.conn.outgoing + [] == client.conn.outgoing;
    } else {
      ghost var bytes, rest := CStep(client.conn.outgoing, calls, client.packetNum);
      ghost var num := client.packetNum + Used(calls[0]);
      IssueWhole(client, calls[0]);
      RunRest(client, calls[1..], num, rest);
    }
  }

  /** The calls behind the first, with the number and the stream they start from and lead to. */
  method RunRest(client: AfcClient, calls: seq<Call>, ghost num: nat, ghost stream: seq<byte>)
    requires SendsWhole(client.conn) && AllPackable(calls)
    requires num == client.packetNum && num + TotalUsed(calls) < TWO_64 && stream == CStream(calls, num)
    modifies client, client.conn
    ensures client.conn.outgoing == old(client.conn.outgoing) + stream
    decreases |calls|, 1
  {
    RunC(client, calls);
  }

  // ---------------------------------------------------------------- the Ruby client

  lemma {:induction false} RubyStep(wire: seq<byte>, calls: seq<Call>, num: nat)
    requires calls != []
    ensures wire + RubyStream(calls, num) == (wire + RubyBytes(calls[0], num)) + RubyStream(calls[1..], num + 1)
  {
    Regroup(wire, RubyBytes(calls[0], num), RubyStream(calls[1..], num + 1));
  }

  method IssueRuby(service: AfcService, c: Call)
    modifies service
    ensures service.sequenceNumber == old(service.sequenceNumber) + 1
    ensures service.written == old(service.written) + RubyBytes(c, old(service.sequenceNumber))
  {
    match c {
      case Open(path, mode) => service.SendFrame(0x0D, Packed(mode) + path + [0], |path| + 49);
      case Write(h, data) => service.SendFrame(0x10, Packed(h) + data, 48);
      case Close(h) => service.SendFrame(0x14, Packed(h), 48);
    }
  }

  method RunRuby(service: AfcService, calls: seq<Call>)
    modifies service
    ensures service.written == old(service.written) + RubyStream(calls, old(service.sequenceNumber))
    decreases |calls|
  {
    if calls == [] {
      assert service.written + [] == service.written;
    } else {
      RubyStep(service.written, calls, service.sequenceNumber);
      IssueRuby(service, calls[0]);
      RunRuby(service, calls[1..]);
    }
  }
}
