/** The AFC client of afc.c: one packet header shared by all requests, a mutex around each of them,
    segmented writes and reads. */
module AfcClient {
  import opened Bytes
  import opened Chunks
  import opened Memory
  import opened Options
  import opened Transport
  import opened AfcFrame
  import opened AfcDevice

  const MAXIMUM_READ_SIZE: nat := 0x1_0000
  const MAXIMUM_WRITE_SIZE: nat := 0x8000

  /** The transport takes any buffer a 32-bit length can name in one send. */
  ghost predicate SendsWhole(conn: Connection) {
    forall i {:trigger conn.sendSchedule(i)} :: conn.sendSchedule(i) >= TWO_32
  }

  /** The transport never splits a block of at most forty bytes, and parameters are such a block. */
  ghost predicate KeepsHeads(conn: Connection, device: Device) {
    (forall i {:trigger conn.schedule(i)} :: conn.schedule(i) >= HEADER_SIZE) && device.SmallParameters()
  }

  // ---------------------------------------------------------------- what a dispatch puts on the wire

  /** The end of the parameters, if it is set, lies within the data. */
  predicate Placed(thisLength: nat, length: nat) {
    thisLength == 0 || HEADER_SIZE <= thisLength <= HEADER_SIZE + length
  }

  /** The lengths are different and promise more payload than there are data. */
  predicate Inconsistent(p: Packet, length: nat) {
    p.thisLength != p.entireLength && (p.entireLength < p.thisLength || length < p.entireLength - p.thisLength)
  }

  lemma {:induction false} LengthCheck(p: Packet, length: nat)
    requires length < TWO_32 && p.entireLength < TWO_64 && p.thisLength <= HEADER_SIZE + length
    ensures p.thisLength != p.entireLength && length < (p.entireLength - p.thisLength) % TWO_64
        <==> Inconsistent(p, length)
  {
    var d := p.entireLength - p.thisLength;
    if d < 0 {
      ModUnique(d + TWO_64, TWO_64, 0, d + TWO_64);
      assert (d + TWO_64) % TWO_64 == d % TWO_64;
    }
  }

  /** What header and data sent one after the other, from send number k on, put on the wire. */
  function TwoPieces(header: seq<byte>, data: seq<byte>, schedule: nat -> nat, k: nat): (s: seq<byte>) {
    Taken(header, schedule(k)) + Taken(data, schedule(k + 1))
  }

  /** Header, parameters and payload; without parameters the payload is not sent. */
  function ThreePieces(header: seq<byte>, a: seq<byte>, b: seq<byte>, schedule: nat -> nat, k: nat): (s: seq<byte>) {
    Taken(header, schedule(k)) + (if a == [] then [] else Taken(a, schedule(k + 1)) + Taken(b, schedule(k + 2)))
  }

  /** The number of bytes then reported as sent: that of the last piece alone, if it gets that far. */
  function ThreeReported(header: seq<byte>, a: seq<byte>, b: seq<byte>, schedule: nat -> nat, k: nat): (n: nat) {
    if a == [] then |Taken(header, schedule(k))| else |Taken(b, schedule(k + 2))|
  }

  /** The bytes that the sends of a packet from number k on put on the wire. */
  function WireBytes(p: Packet, data: seq<byte>, schedule: nat -> nat, k: nat): (s: seq<byte>)
    requires p.thisLength == p.entireLength || HEADER_SIZE <= p.thisLength <= HEADER_SIZE + |data|
  {
    if p.thisLength == p.entireLength then TwoPieces(PacketBytes(p), data, schedule, k)
    else
      var offset := p.thisLength - HEADER_SIZE;
      ThreePieces(PacketBytes(p), data[..offset], data[offset..], schedule, k)
  }

  /** The number of bytes reported as sent. */
  function Reported(p: Packet, data: seq<byte>, schedule: nat -> nat, k: nat): (n: nat)
    requires p.thisLength == p.entireLength || HEADER_SIZE <= p.thisLength <= HEADER_SIZE + |data|
  {
    if p.thisLength == p.entireLength then |TwoPieces(PacketBytes(p), data, schedule, k)|
    else
      var offset := p.thisLength - HEADER_SIZE;
      ThreeReported(PacketBytes(p), data[..offset], data[offset..], schedule, k)
  }

  /** The number of sends a packet takes. */
  function SendsMade(p: Packet, length: nat): nat {
    if p.thisLength == p.entireLength then if length > 0 then 2 else 1
    else if p.thisLength == HEADER_SIZE then 2 else 3
  }

  /** No send of the packet comes short, and none is left out. */
  predicate SentWhole(p: Packet, length: nat, schedule: nat -> nat, k: nat)
    requires p.thisLength == p.entireLength || HEADER_SIZE <= p.thisLength <= HEADER_SIZE + length
  {
    && Whole(schedule(k), HEADER_SIZE)
    && if p.thisLength == p.entireLength then Whole(schedule(k + 1), length)
       else
         var offset := p.thisLength - HEADER_SIZE;
         if offset == 0 then length == 0
         else Whole(schedule(k + 1), offset) && Whole(schedule(k + 2), length - offset)
  }

  lemma {:induction false} TwoExactly(h: seq<byte>, d: seq<byte>, schedule: nat -> nat, k: nat)
    ensures TwoPieces(h, d, schedule, k) == h + d <==> Whole(schedule(k), |h|) && Whole(schedule(k + 1), |d|)
    ensures |TwoPieces(h, d, schedule, k)| == |h| + |d| <==> Whole(schedule(k), |h|) && Whole(schedule(k + 1), |d|)
  {
    SameParts(Taken(h, schedule(k)), Taken(d, schedule(k + 1)), h, d);
  }

  lemma {:induction false} ThreeExactly(h: seq<byte>, a: seq<byte>, b: seq<byte>, schedule: nat -> nat, k: nat)
    requires a != []
    ensures ThreePieces(h, a, b, schedule, k) == h + (a + b)
      <==> Whole(schedule(k), |h|) && Whole(schedule(k + 1), |a|) && Whole(schedule(k + 2), |b|)
  {
    var a', b' := Taken(a, schedule(k + 1)), Taken(b, schedule(k + 2));
    SameParts(a', b', a, b);
    SameParts(Taken(h, schedule(k)), a' + b', h, a + b);
  }

  /** The frame goes out if and only if every single send takes all it is offered. */
  lemma {:induction false} DispatchExactly(p: Packet, data: seq<byte>, schedule: nat -> nat, k: nat)
    requires p.thisLength == p.entireLength || HEADER_SIZE <= p.thisLength <= HEADER_SIZE + |data|
    ensures WireBytes(p, data, schedule, k) == Frame(p, data) <==> SentWhole(p, |data|, schedule, k)
  {
    var header := PacketBytes(p);
    if p.thisLength == p.entireLength {
      TwoExactly(header, data, schedule, k);
    } else {
      var offset := p.thisLength - HEADER_SIZE;
      var a, b := data[..offset], data[offset..];
      assert data == a + b;
      if a == [] {
        SameParts(Taken(header, schedule(k)), [], header, data);
      } else {
        ThreeExactly(header, a, b, schedule, k);
      }
    }
  }

  /** The wire has grown by the whole frame if and only if no send came short. */
  predicate WholeFrame(before: seq<byte>, after: seq<byte>, p: Packet, data: seq<byte>, schedule: nat -> nat, k: nat)
    requires p.thisLength == p.entireLength || HEADER_SIZE <= p.thisLength <= HEADER_SIZE + |data|
  {
    after == before + Frame(p, data) <==> SentWhole(p, |data|, schedule, k)
  }

  lemma {:induction false} OnlyTheFrame(before: seq<byte>, p: Packet, data: seq<byte>, schedule: nat -> nat, k: nat)
    requires p.thisLength == p.entireLength || HEADER_SIZE <= p.thisLength <= HEADER_SIZE + |data|
    ensures WholeFrame(before, before + WireBytes(p, data, schedule, k), p, data, schedule, k)
  {
    DispatchExactly(p, data, schedule, k);
    SamePrefix(before, WireBytes(p, data, schedule, k), Frame(p, data));
  }

  lemma {:induction false} SamePrefix(p: seq<byte>, a: seq<byte>, b: seq<byte>)
    ensures p + a == p + b <==> a == b
  {
    assert (p + a)[|p|..] == a && (p + b)[|p|..] == b;
  }

  /** The check compares the payload promised with all of the data, parameters included.  A segmented
      packet that passes it is well formed if and only if it promises exactly the data behind the
      parameters. */
  lemma {:induction false} WellFormedExactly(p: Packet, data: seq<byte>)
    requires p.Fits() && HEADER_SIZE + |data| < TWO_32
    requires p.thisLength != p.entireLength && HEADER_SIZE <= p.thisLength <= HEADER_SIZE + |data|
    requires !Inconsistent(p, |data|)
    ensures Describes(p, data) <==> p.entireLength - p.thisLength == |data| - (p.thisLength - HEADER_SIZE)
  {
  }

  /** A packet that promises more than the data behind its parameters, and goes out all the same. */
  lemma {:induction false} OverlongAccepted(data: seq<byte>, num: nat)
    requires |data| == 16 && num < TWO_64
    ensures var p := Packet(HEADER_SIZE + 24, HEADER_SIZE + 8, num, OP_WRITE);
      !Inconsistent(p, |data|) && !Describes(p, data)
  {
  }

  /** The number reported tells whether a packet in one piece went out whole; of a segmented packet it
      tells whether the payload did, or the header if there are no parameters, when nothing follows it. */
  lemma {:induction false} ReportedExactly(p: Packet, data: seq<byte>, schedule: nat -> nat, k: nat)
    requires p.thisLength == p.entireLength || HEADER_SIZE <= p.thisLength <= HEADER_SIZE + |data|
    ensures p.thisLength == p.entireLength ==>
      (Reported(p, data, schedule, k) == 40 + |data| <==> SentWhole(p, |data|, schedule, k))
    ensures p.thisLength != p.entireLength && p.thisLength > 40 ==>
      var payload := 40 + |data| - p.thisLength;
      Reported(p, data, schedule, k) == payload <==> Whole(schedule(k + 2), payload)
    ensures p.thisLength != p.entireLength && p.thisLength == 40 ==>
      && (Reported(p, data, schedule, k) == 40 <==> Whole(schedule(k), 40))
      && WireBytes(p, data, schedule, k) <= PacketBytes(p)
  {
    TwoExactly(PacketBytes(p), data, schedule, k);
  }

  /** A write of one byte whose parameters are cut short on the wire: all of the payload is reported as
      sent, the lengths are consistent, so the dispatch succeeds, and the frame is not on the wire. */
  lemma {:induction false} TruncatedFrame(handle: nat, num: nat, payload: byte)
    ensures var p, data := Packet(HEADER_SIZE + 9, HEADER_SIZE + 8, num, OP_WRITE), Le64(handle) + [payload];
      var schedule := (i: nat) => if i == 1 then 7 else HEADER_SIZE;
      && !Inconsistent(p, |data|)
      && Reported(p, data, schedule, 0) == 1
      && WireBytes(p, data, schedule, 0) == PacketBytes(p) + (Le64(handle)[..7] + [payload]) != Frame(p, data)
  {
    var p, data := Packet(HEADER_SIZE + 9, HEADER_SIZE + 8, num, OP_WRITE), Le64(handle) + [payload];
    var schedule := (i: nat) => if i == 1 then 7 else HEADER_SIZE;
    DispatchExactly(p, data, schedule, 0);
    assert data[..8] == Le64(handle) && data[8..] == [payload];
  }

  // ---------------------------------------------------------------- the client

  class AfcClient {
    const conn: Connection
    var entireLength: nat
    var thisLength: nat
    var packetNum: nat
    var operation: nat
    var locked: bool

    constructor (conn: Connection)
      ensures this.conn == conn && packetNum == 0 && !locked
      ensures entireLength == thisLength == 0
    {
      this.conn := conn;
      entireLength, thisLength, packetNum, operation := 0, 0, 0, 0;
      locked := false;
    }

    function Header(): Packet
      reads this
    {
      Packet(entireLength, thisLength, packetNum, operation)
    }

    /** afc_lock; a second lock by the holder would block forever. */
    method Lock()
      requires !locked
      modifies this`locked
      ensures locked
    {
      locked := true;
    }

    method Unlock()
      requires locked
      modifies this`locked
      ensures !locked
    {
      locked := false;
    }

    /** The number of the next packet, and the lengths where they are not set. */
    method SetHeader(length: nat)
      modifies this`entireLength, this`thisLength, this`packetNum
      ensures packetNum == (old(packetNum) + 1) % TWO_64
      ensures entireLength == if old(entireLength) == 0 then HEADER_SIZE + length else old(entireLength)
      ensures thisLength ==
        if old(entireLength) == 0 then entireLength else if old(thisLength) == 0 then HEADER_SIZE else old(thisLength)
    {
      packetNum := (packetNum + 1) % TWO_64;
      if entireLength == 0 {
        entireLength := HEADER_SIZE + length;
        thisLength := entireLength;
      }
      if thisLength == 0 {
        thisLength := HEADER_SIZE;
      }
    }

    /** afc_dispatch_packet.  Equal lengths (or none set) send header and data; different lengths
        send header, parameters and payload as three pieces.  The packet number is used up even
        when the lengths turn out not to fit.  A send that comes short is not noticed. */
    method DispatchPacket(data: seq<byte>) returns (ret: Error, bytesSent: nat)
      requires |data| < TWO_32 && packetNum < TWO_64 && operation < TWO_64
      requires entireLength != 0 ==> entireLength < TWO_64 && Placed(thisLength, |data|)
      modifies this`entireLength, this`thisLength, this`packetNum, conn`outgoing, conn`sends
      ensures packetNum == (old(packetNum) + 1) % TWO_64
      ensures entireLength == if old(entireLength) == 0 then HEADER_SIZE + |data| else old(entireLength)
      ensures thisLength ==
        if old(entireLength) == 0 then entireLength else if old(thisLength) == 0 then HEADER_SIZE else old(thisLength)
      ensures ret == if Inconsistent(Header(), |data|) then InternalError else Success
      ensures ret != Success ==>
        conn.outgoing == old(conn.outgoing) && conn.sends == old(conn.sends) && bytesSent == 0
      ensures ret == Success ==>
        && conn.sends == old(conn.sends) + SendsMade(Header(), |data|)
        && conn.outgoing == old(conn.outgoing) + WireBytes(Header(), data, conn.sendSchedule, old(conn.sends))
        && bytesSent == Reported(Header(), data, conn.sendSchedule, old(conn.sends))
        && WholeFrame(old(conn.outgoing), conn.outgoing, Header(), data, conn.sendSchedule, old(conn.sends))
    {
      bytesSent := 0;
      SetHeader(|data|);
      LengthCheck(Header(), |data|);
      // an unsigned difference
      if thisLength != entireLength && |data| < (entireLength - thisLength) % TWO_64 {
        return InternalError, 0;
      }
      bytesSent := SendPacket(data);
      return Success, bytesSent;
    }

    /** The sending part of afc_dispatch_packet. */
    method SendPacket(data: seq<byte>) returns (bytesSent: nat)
      requires thisLength == entireLength || HEADER_SIZE <= thisLength <= HEADER_SIZE + |data|
      modifies conn`outgoing, conn`sends
      ensures conn.outgoing == old(conn.outgoing) + WireBytes(Header(), data, conn.sendSchedule, old(conn.sends))
      ensures bytesSent == Reported(Header(), data, conn.sendSchedule, old(conn.sends))
      ensures conn.sends == old(conn.sends) + SendsMade(Header(), |data|)
      ensures WholeFrame(old(conn.outgoing), conn.outgoing, Header(), data, conn.sendSchedule, old(conn.sends))
    {
      OnlyTheFrame(conn.outgoing, Header(), data, conn.sendSchedule, conn.sends);
      if thisLength != entireLength {
        var offset := thisLength - HEADER_SIZE;
        bytesSent := SendSegments(PacketBytes(Header()), data[..offset], data[offset..]);
      } else {
        bytesSent := SendTogether(PacketBytes(Header()), data);
      }
    }

    /** Header, parameters and payload as three pieces; only the payload counts as sent. */
    method SendSegments(header: seq<byte>, parameters: seq<byte>, payload: seq<byte>) returns (bytesSent: nat)
      requires header != []
      modifies conn`outgoing, conn`sends
      ensures conn.outgoing
          == old(conn.outgoing) + ThreePieces(header, parameters, payload, conn.sendSchedule, old(conn.sends))
      ensures bytesSent == ThreeReported(header, parameters, payload, conn.sendSchedule, old(conn.sends))
      ensures conn.sends == old(conn.sends) + if parameters == [] then 2 else 3
    {
      bytesSent := 0;
      ghost var k := conn.sends;
      Chained(conn.outgoing, Taken(header, conn.sendSchedule(k)), Taken(parameters, conn.sendSchedule(k + 1)),
        Taken(payload, conn.sendSchedule(k + 2)));
      var sent := conn.Send(header);
      if sent == 0 {
        return;
      }
      bytesSent := bytesSent + sent;
      sent := conn.Send(parameters);
      if sent == 0 {
        return;
      }
      bytesSent := bytesSent + sent;
      sent := conn.Send(payload);
      bytesSent := sent;
    }

    /** Header and data, both counted. */
    method SendTogether(header: seq<byte>, data: seq<byte>) returns (bytesSent: nat)
      requires header != []
      modifies conn`outgoing, conn`sends
      ensures conn.outgoing == old(conn.outgoing) + TwoPieces(header, data, conn.sendSchedule, old(conn.sends))
      ensures bytesSent == |TwoPieces(header, data, conn.sendSchedule, old(conn.sends))|
      ensures conn.sends == old(conn.sends) + if data == [] then 1 else 2
    {
      bytesSent := 0;
      ghost var k := conn.sends;
      Regroup(conn.outgoing, Taken(header, conn.sendSchedule(k)), Taken(data, conn.sendSchedule(k + 1)));
      var sent := conn.Send(header);
      if sent == 0 {
        return;
      }
      bytesSent := bytesSent + sent;
      if |data| > 0 {
        sent := conn.Send(data);
        bytesSent := bytesSent + sent;
      }
    }

    /** A dispatch over a transport that takes every send whole, of lengths that describe the data. */
    method DispatchWhole(data: seq<byte>) returns (ret: Error, bytesSent: nat)
      requires SendsWhole(conn) && HEADER_SIZE + |data| < TWO_32 && packetNum < TWO_64 && operation < TWO_64
      requires entireLength != 0 ==> HEADER_SIZE < thisLength <= entireLength == HEADER_SIZE + |data|
      modifies this`entireLength, this`thisLength, this`packetNum, conn`outgoing, conn`sends
      ensures packetNum == (old(packetNum) + 1) % TWO_64 && entireLength == HEADER_SIZE + |data|
      ensures thisLength == if old(entireLength) == 0 then entireLength else old(thisLength)
      ensures ret == Success && Describes(Header(), data)
      ensures conn.outgoing == old(conn.outgoing) + Frame(Header(), data)
      ensures old(conn.outgoing) == [] ==> conn.outgoing == Frame(Header(), data)
      ensures bytesSent == entireLength - (if thisLength != entireLength then thisLength else 0)
    {
      ghost var k := conn.sends;
      ret, bytesSent := DispatchPacket(data);
      DispatchExactly(Header(), data, conn.sendSchedule, k);
      ReportedExactly(Header(), data, conn.sendSchedule, k);
      assert [] + Frame(Header(), data) == Frame(Header(), data);
    }

    /** The remainder of a packet, read piece by piece until it is complete or nothing more comes. */
    method ReceiveRest(dump: array<byte>, from: nat) returns (currentCount: nat)
      requires from <= dump.Length
      modifies conn`incoming, conn`calls, dump
      ensures currentCount == from + Min(dump.Length - from, |old(conn.incoming)|)
      ensures dump[..from] == old(dump[..from]) && dump[from..currentCount] == old(conn.incoming)[..currentCount - from]
      ensures conn.incoming == old(conn.incoming)[currentCount - from..]
    {
      currentCount := from;
      ghost var stream, head := conn.incoming, dump[..from];
      while currentCount < dump.Length
        invariant from <= currentCount <= dump.Length && currentCount - from <= |stream|
        invariant dump[..from] == head && dump[from..currentCount] == stream[..currentCount - from]
        invariant conn.incoming == stream[currentCount - from..]
        decreases dump.Length - currentCount
      {
        ghost var before := dump[..];
        var bytesRecv := conn.Receive(dump, currentCount, dump.Length - currentCount);
        if bytesRecv == 0 {
          break;
        }
        Extended(stream, before, dump[..], from, currentCount, bytesRecv);
        currentCount := currentCount + bytesRecv;
      }
    }

    /** afc_receive_data.  Header and parameters are read with one receive each, the rest in a loop that
        also ends when nothing more comes. */
    method ReceiveData() returns (ret: Error, dump: array?<byte>, bytesRecv: nat)
      requires Receivable(conn.incoming)
      modifies conn`incoming, conn`calls
      ensures ret == Outcome(conn.schedule, old(conn.calls), packetNum, old(conn.incoming))
      ensures conn.incoming == Left(conn.schedule, old(conn.calls), packetNum, old(conn.incoming))
      ensures ret == Success ==> bytesRecv == |Arrived(old(conn.incoming))|
      ensures dump == null <==> ret != Success || IsEmpty(PacketOf(old(conn.incoming)))
      ensures dump != null ==>
        && fresh(dump) && bytesRecv <= dump.Length == Announced(old(conn.incoming))
        && dump[..bytesRecv] == Arrived(old(conn.incoming))
    {
      dump, bytesRecv := null, 0;
      ghost var stream := conn.incoming;
      var received := ReceiveHeader();
      if received == None {
        return MuxError, null, 0;
      }
      var header := received.value;
      if header.packetNum != packetNum {
        return OpHeaderInvalid, null, HEADER_SIZE;
      }
      if header.thisLength < HEADER_SIZE {
        return OpHeaderInvalid, null, HEADER_SIZE;
      } else if header.thisLength == header.entireLength && header.entireLength == HEADER_SIZE {
        return if header.operation == OP_DATA then Success else IoError, null, 0;
      }
      ret, dump, bytesRecv := ReceiveContent(header, stream);
    }

    /** The part of afc_receive_data behind the checks of the header. */
    method ReceiveContent(header: Packet, ghost stream: seq<byte>)
      returns (ret: Error, dump: array?<byte>, bytesRecv: nat)
      requires |stream| >= HEADER_SIZE && header == PacketOf(stream) && conn.incoming == stream[HEADER_SIZE..]
      requires Wrapped(header.thisLength) <= Wrapped(header.entireLength)
      modifies conn`incoming, conn`calls
      ensures var tail, schedule, call := old(conn.incoming), conn.schedule, old(conn.calls);
        if ParametersArrive(schedule(call), Wrapped(header.thisLength), tail) then
          && ret == Verdict(header.operation, Arrived(stream)) && bytesRecv == |Arrived(stream)|
          && conn.incoming == tail[bytesRecv..]
        else
          && ret == NotEnoughData
          && conn.incoming == tail[Fragment(schedule(call), Wrapped(header.thisLength), |tail|)..]
      ensures ret == Success ==>
        && dump != null && fresh(dump) && bytesRecv <= dump.Length == Announced(stream)
        && dump[..bytesRecv] == Arrived(stream)
      ensures ret != Success ==> dump == null
    {
      // the difference is one of 64 bits, its low half is kept
      SameWrapped(header.entireLength);
      SameWrapped(header.thisLength);
      var entireLen := (header.entireLength % TWO_32 - HEADER_SIZE) % TWO_32;
      var thisLen := (header.thisLength % TWO_32 - HEADER_SIZE) % TWO_32;
      var buffer, currentCount := ReceiveBody(entireLen, thisLen);
      dump := null;
      if buffer == null {
        return NotEnoughData, null, 0;
      }
      ret := Judge(header.operation, buffer[..currentCount]);
      bytesRecv := currentCount;
      if ret == Success {
        dump := buffer;
      }
    }

    /** The header, with a single receive. */
    method ReceiveHeader() returns (header: Option<Packet>)
      modifies conn`incoming, conn`calls
      ensures conn.calls == old(conn.calls) + 1
      ensures header == if HeaderArrives(conn.schedule, old(conn.calls), old(conn.incoming))
                        then Some(PacketOf(old(conn.incoming))) else None
      ensures conn.incoming
           == old(conn.incoming)[Fragment(conn.schedule(old(conn.calls)), HEADER_SIZE, |old(conn.incoming)|)..]
    {
      var raw := new byte[HEADER_SIZE];
      ghost var stream := conn.incoming;
      var bytesRecv := conn.Receive(raw, 0, HEADER_SIZE);
      if bytesRecv == 0 {
        return None;
      } else if bytesRecv < HEADER_SIZE {
        return None;
      }
      assert raw[..] == stream[..HEADER_SIZE];
      SameHeader(stream);
      return Some(PacketOf(raw[..]));
    }

    /** Parameters with a single receive, the rest in a loop; null when the parameters come short. */
    method ReceiveBody(entireLen: nat, thisLen: nat) returns (buffer: array?<byte>, currentCount: nat)
      requires thisLen <= entireLen
      modifies conn`incoming, conn`calls
      ensures buffer != null <==> ParametersArrive(conn.schedule(old(conn.calls)), thisLen, old(conn.incoming))
      ensures buffer == null ==>
        conn.incoming == old(conn.incoming)[Fragment(conn.schedule(old(conn.calls)), thisLen, |old(conn.incoming)|)..]
      ensures buffer != null ==>
        && fresh(buffer) && buffer.Length == entireLen && currentCount == Min(entireLen, |old(conn.incoming)|)
        && buffer[..currentCount] == old(conn.incoming)[..currentCount]
        && conn.incoming == old(conn.incoming)[currentCount..]
    {
      var data := new byte[entireLen];
      ghost var stream := conn.incoming;
      if thisLen > 0 {
        var bytesRecv := conn.Receive(data, 0, thisLen);
        if bytesRecv == 0 {
          return null, 0;
        } else if bytesRecv < thisLen {
          return null, 0;
        }
      }
      assert data[..thisLen] == stream[..thisLen] && conn.incoming == stream[thisLen..];
      currentCount := thisLen;
      if entireLen > thisLen {
        currentCount := ReceiveRest(data, thisLen);
        TwoParts(data[..], stream, thisLen, currentCount);
      }
      return data, currentCount;
    }

    /** The operation check at the end of afc_receive_data. */
    static method Judge(operation: nat, data: seq<byte>) returns (ret: Error)
      ensures ret == Verdict(operation, data)
    {
      var param1 := TWO_64 - 1;
      if |data| >= 8 {
        param1 := LongAt(data, 0);
      }
      if operation == OP_STATUS {
        if param1 != STATUS_SUCCESS {
          return Device(param1);
        }
      } else if operation == OP_DATA {
      } else if operation == OP_FILE_OPEN_RES {
      } else if operation == OP_FILE_TELL_RES {
      } else {
        return NotSupported;
      }
      return Success;
    }

    /** Nothing under way: the mutex is free and no bytes are on the wire. */
    ghost predicate Quiet()
      reads this, conn
    {
      !locked && conn.outgoing == [] && conn.incoming == [] && packetNum < TWO_64
    }

    /** afc_receive_data on a wire with nothing but the device's reply to the last request. */
    method ReceiveReply(ghost device: Device, ghost p: Packet, ghost body: seq<byte>)
      returns (ret: Error, dump: array?<byte>, bytesRecv: nat)
      requires Describes(p, body) && conn.incoming == Frame(p, body) && p.packetNum == packetNum
      requires device.SmallParameters() ==> p.thisLength <= 2 * HEADER_SIZE
      modifies conn`incoming, conn`calls
      ensures ret == Success ==>
        && conn.incoming == [] && bytesRecv == |body| && Meaning(p.operation, body) == Success
        && (if body == [] then dump == null else dump != null && fresh(dump) && dump[..] == body)
      ensures KeepsHeads(conn, device) ==> conn.incoming == [] && ret == Meaning(p.operation, body)
    {
      WholeReply(conn.schedule, conn.calls, packetNum, p, body, []);
      assert Frame(p, body) + [] == Frame(p, body);
      assert KeepsHeads(conn, device) ==> Complete(conn.schedule, conn.calls, packetNum, p);
      ret, dump, bytesRecv := ReceiveData();
      assert bytesRecv == |body| && dump != null ==> dump[..bytesRecv] == dump[..];
    }

    /** The same for a reply that is a status. */
    method ReceiveStatus(ghost device: Device, ghost p: Packet, ghost code: nat) returns (ret: Error)
      requires Describes(p, StatusBody(code)) && p.operation == OP_STATUS && code < TWO_64
      requires conn.incoming == Frame(p, StatusBody(code)) && p.packetNum == packetNum
      requires device.SmallParameters() ==> p.thisLength <= 2 * HEADER_SIZE
      modifies conn`incoming, conn`calls
      ensures ret == Success ==> conn.incoming == [] && code == STATUS_SUCCESS
      ensures KeepsHeads(conn, device) ==>
        conn.incoming == [] && ret == if code == STATUS_SUCCESS then Success else Error.Device(code)
    {
      StatusMeaning(code);
      var buffer, bytes;
      ret, buffer, bytes := ReceiveReply(device, p, StatusBody(code));
    }

    /** The same for a reply that is data, or the status that there are none. */
    method ReceiveAnswer(ghost device: Device, ghost p: Packet, ghost body: seq<byte>, ghost known: bool)
      returns (ret: Error, dump: array?<byte>, bytesRecv: nat)
      requires Describes(p, body) && conn.incoming == Frame(p, body) && p.packetNum == packetNum
      requires if known then p.operation == OP_DATA else p.operation == OP_STATUS && body == StatusBody(NO_SUCH_HANDLE)
      requires device.SmallParameters() ==> p.thisLength <= 2 * HEADER_SIZE
      modifies conn`incoming, conn`calls
      ensures ret == Success ==>
        && known && conn.incoming == [] && bytesRecv == |body|
        && (if body == [] then dump == null else dump != null && fresh(dump) && dump[..] == body)
      ensures KeepsHeads(conn, device) ==>
        conn.incoming == [] && ret == if known then Success else Error.Device(NO_SUCH_HANDLE)
    {
      StatusMeaning(NO_SUCH_HANDLE);
      ret, dump, bytesRecv := ReceiveReply(device, p, body);
    }

    /** afc_file_open. */
    method FileOpen(device: Device, filename: seq<byte>, mode: nat) returns (ret: Error, handle: nat)
      requires SendsWhole(conn) && device.Valid() && Quiet() && mode < TWO_64 && HEADER_SIZE + 9 + |filename| < TWO_32
      modifies this, conn, device
      ensures !locked && device.Valid()
      ensures var granted := old(device.Granted(filename, mode));
        && device.files == (if granted.Some?
             then old(device.files)[granted.value := OpenFile(device.contents(filename, mode).value, 0)]
             else old(device.files))
        && (ret == Success ==> Quiet() && granted == Some(handle))
        && (ret != Success ==> handle == 0)
        && (KeepsHeads(conn, device) ==>
          Quiet() && ret == if granted.Some? then Success else Error.Device(NO_SUCH_HANDLE))
    {
      handle := 0;
      Lock();
      var data, bytes;
      ret, data, bytes := RequestHandle(device, filename, mode);
      if ret == Success && bytes > 0 && data != null {
        Unlock();
        handle := LongAt(data[..], 0);
        return;
      }
      Unlock();
    }

    /** Between the lock and its release: the request and the reply. */
    method RequestHandle(device: Device, filename: seq<byte>, mode: nat)
      returns (ret: Error, data: array?<byte>, bytes: nat)
      requires SendsWhole(conn) && device.Valid() && mode < TWO_64 && HEADER_SIZE + 9 + |filename| < TWO_32
      requires locked && conn.outgoing == [] && conn.incoming == [] && packetNum < TWO_64
      modifies this, conn, device
      ensures locked && conn.outgoing == [] && packetNum < TWO_64 && device.Valid()
      ensures var granted := old(device.Granted(filename, mode));
        && device.files == (if granted.Some?
             then old(device.files)[granted.value := OpenFile(device.contents(filename, mode).value, 0)]
             else old(device.files))
        && (ret == Success ==>
          && conn.incoming == [] && granted.Some? && bytes == 8 && data != null && data.Length == 8
          && LongAt(data[..], 0) == granted.value)
        && (KeepsHeads(conn, device) ==>
          conn.incoming == [] && ret == if granted.Some? then Success else Error.Device(NO_SUCH_HANDLE))
    {
      operation := OP_FILE_OPEN;
      entireLength, thisLength := 0, 0;
      var sent, n := DispatchWhole(Le64(mode) + (filename + [0]));
      if sent != Success {
        assert false;  // the lengths are not set
      }
      ghost var granted := device.Granted(filename, mode);
      ghost var p, body := device.ServeOpen(conn, Header(), mode, filename);
      ret, data, bytes := ReceiveHandle(device, p, body, granted);
    }

    /** The reply to a request to open a file: its handle, or the status that there is none. */
    method ReceiveHandle(ghost device: Device, ghost p: Packet, ghost body: seq<byte>, ghost granted: Option<nat>)
      returns (ret: Error, data: array?<byte>, bytes: nat)
      requires Describes(p, body) && conn.incoming == Frame(p, body) && p.packetNum == packetNum
      requires granted.Some? ==> granted.value < TWO_64 && p.operation == 0x0E && body == Le64(granted.value)
      requires granted.None? ==> p.operation == 0x01 && body == StatusBody(NO_SUCH_HANDLE)
      requires device.SmallParameters() ==> p.thisLength <= 2 * HEADER_SIZE
      modifies conn`incoming, conn`calls
      ensures ret == Success ==>
        && conn.incoming == [] && granted.Some? && bytes == 8 && data != null && data.Length == 8
        && LongAt(data[..], 0) == granted.value
      ensures KeepsHeads(conn, device) ==>
        conn.incoming == [] && ret == if granted.Some? then Success else Error.Device(NO_SUCH_HANDLE)
    {
      StatusMeaning(NO_SUCH_HANDLE);
      if granted.Some? {
        HandleRead(granted.value);
      }
      ret, data, bytes := ReceiveReply(device, p, body);
    }

    /** One write request of afc_file_write: send, let the device answer, receive. */
    method WriteSegment(device: Device, handle: nat, chunk: seq<byte>) returns (sent: Error, bytesLoc: nat, ack: Error)
      requires SendsWhole(conn) && device.Valid()
      requires 0 < handle < TWO_64 && 0 < |chunk| && |chunk| + 2 * HEADER_SIZE < TWO_32
      requires locked && conn.outgoing == [] && conn.incoming == [] && packetNum < TWO_64
      modifies this, conn, device
      ensures locked && conn.outgoing == [] && packetNum < TWO_64 && device.Valid()
      ensures sent == Success && bytesLoc == |chunk|
      ensures var known := handle in old(device.files);
        && (known ==> device.files == old(device.files)[handle := Written(old(device.files)[handle], chunk)])
        && (!known ==> device.files == old(device.files))
        && (ack == Success ==> known && conn.incoming == [])
        && (KeepsHeads(conn, device) ==>
          conn.incoming == [] && ack == if known then Success else Error.Device(NO_SUCH_HANDLE))
    {
      thisLength := HEADER_SIZE + 8;
      entireLength := thisLength + |chunk|;
      operation := OP_WRITE;
      sent, bytesLoc := DispatchWhole(Le64(handle) + chunk);
      ghost var p, code := device.ServeWrite(conn, Header(), handle, chunk);
      ack := ReceiveStatus(device, p, code);
    }

    /** afc_file_write. */
    method FileWrite(device: Device, handle: nat, data: seq<byte>) returns (ret: Error, bytesWritten: nat)
      requires SendsWhole(conn) && device.Valid() && Quiet() && handle < TWO_64 && |data| < TWO_32
      modifies this, conn, device
      ensures !locked && device.Valid()
      ensures handle == 0 ==> ret == InvalidArg && device.files == old(device.files) && Quiet()
      ensures ret == Success ==> Quiet() && bytesWritten == |data| && (data != [] ==> handle in old(device.files))
      ensures ret == Success && handle in old(device.files)
        ==> device.files == old(device.files)[handle := Written(old(device.files)[handle], data)]
      ensures handle !in old(device.files) ==> device.files == old(device.files)
      ensures handle != 0 ==> exists n :: Progress(old(device.files), device.files, handle, data, n)
      ensures KeepsHeads(conn, device) && handle != 0 ==> Quiet()
      ensures KeepsHeads(conn, device) && handle != 0 ==>
        ret == if data == [] || handle in old(device.files) then Success else Error.Device(NO_SUCH_HANDLE)
    {
      bytesWritten := 0;
      if handle == 0 {
        return InvalidArg, 0;
      }
      var segments, currentCount, i := |data| / MAXIMUM_WRITE_SIZE, 0, 0;
      Lock();
      ghost var start := device.files;
      if handle in start {
        WrittenNothing(start[handle]);
        assert start[handle := start[handle]] == start;
      }
      while i < segments
        invariant i <= segments && currentCount == i * MAXIMUM_WRITE_SIZE
        invariant locked && device.Valid() && conn.outgoing == [] && conn.incoming == [] && packetNum < TWO_64
        invariant Progress(start, device.files, handle, data, currentCount)
      {
        var bytesLoc, ack := WriteMore(device, handle, data, currentCount, MAXIMUM_WRITE_SIZE, start);
        currentCount := currentCount + bytesLoc;
        if ack != Success {
          Unlock();
          return ack, 0;
        }
        i := i + 1;
      }
      WrittenAll(start, handle, data);
      if currentCount == |data| {
        Unlock();
        return Success, currentCount;
      }
      var bytesLoc, ack := WriteMore(device, handle, data, currentCount, |data| - currentCount, start);
      currentCount := currentCount + bytesLoc;
      Unlock();
      return ack, currentCount;
    }

    /** One segment of afc_file_write, of n bytes. */
    method WriteMore(device: Device, handle: nat, data: seq<byte>, at: nat, n: nat, ghost start: map<nat, OpenFile>)
      returns (bytesLoc: nat, ack: Error)
      requires SendsWhole(conn) && device.Valid() && 0 < handle < TWO_64
      requires 0 < n && at + n <= |data| < TWO_32 && n + 2 * HEADER_SIZE < TWO_32
      requires locked && conn.outgoing == [] && conn.incoming == [] && packetNum < TWO_64
      requires Progress(start, device.files, handle, data, at)
      modifies this, conn, device
      ensures locked && conn.outgoing == [] && packetNum < TWO_64 && device.Valid() && bytesLoc == n
      ensures Progress(start, device.files, handle, data, if handle in start then at + n else 0)
      ensures ack == Success ==> handle in start && conn.incoming == []
      ensures KeepsHeads(conn, device) ==>
        conn.incoming == [] && ack == if handle in start then Success else Error.Device(NO_SUCH_HANDLE)
    {
      var sent;
      sent, bytesLoc, ack := WriteSegment(device, handle, data[at..at + n]);
      if sent != Success {
        assert false;  // the lengths always describe the segment
      }
      MoreWritten(start, handle, data, at, at + n);
    }

    /** One read request of afc_file_read; bytesLoc is the length of the reply, taken the number of bytes
        the device has advanced over. */
    method ReadSegment(device: Device, handle: nat, size: nat)
      returns (sent: Error, ret: Error, input: array?<byte>, bytesLoc: nat, ghost taken: nat)
      requires SendsWhole(conn) && device.Valid() && 0 < handle < TWO_64 && size <= MAXIMUM_READ_SIZE
      requires locked && conn.outgoing == [] && conn.incoming == [] && packetNum < TWO_64
      modifies this, conn, device
      ensures locked && conn.outgoing == [] && packetNum < TWO_64 && device.Valid() && sent == Success
      ensures ReadProgress(old(device.files), device.files, handle, taken)
      ensures ret == Success ==> conn.incoming == [] && handle in old(device.files) && taken == bytesLoc <= size
      ensures ret == Success && bytesLoc == 0 ==>
        input == null && (size == 0 || Next(old(device.files)[handle], size) == [])
      ensures ret == Success && bytesLoc > 0 ==>
        input != null && fresh(input) && input[..] == Next(old(device.files)[handle], bytesLoc)
      ensures KeepsHeads(conn, device) ==>
        conn.incoming == [] && ret == if handle in old(device.files) then Success else Error.Device(NO_SUCH_HANDLE)
    {
      operation := OP_READ;
      entireLength, thisLength := 0, 0;
      var n;
      sent, n := DispatchWhole(Le64(handle) + Le64(size));
      ghost var p, body := device.ServeRead(conn, Header(), handle, size);
      taken := if handle in old(device.files) then |body| else 0;
      ret, input, bytesLoc := ReceiveAnswer(device, p, body, handle in old(device.files));
    }

    /** afc_file_read. */
    method FileRead(device: Device, handle: nat, data: array<byte>, length: nat) returns (ret: Error, bytesRead: nat)
      requires SendsWhole(conn) && device.Valid() && Quiet() && handle < TWO_64 && length < TWO_32
          && length <= data.Length
      modifies this, conn, device, data
      ensures !locked && device.Valid()
      ensures handle == 0 ==> ret == InvalidArg && device.files == old(device.files) && Quiet()
      ensures ret == Success ==> Quiet() && (length > 0 ==> handle in old(device.files))
      ensures ret == Success && handle in old(device.files) ==>
        var f := old(device.files)[handle];
        && device.files == old(device.files)[handle := Advanced(f, length)]
        && bytesRead <= length && data[..bytesRead] == Next(f, length) && data[bytesRead..] == old(data[bytesRead..])
      ensures handle != 0 ==> exists n :: ReadProgress(old(device.files), device.files, handle, n)
      ensures KeepsHeads(conn, device) && handle != 0 ==> Quiet()
      ensures KeepsHeads(conn, device) && handle != 0 ==>
        ret == if length == 0 || handle in old(device.files) then Success else Error.Device(NO_SUCH_HANDLE)
    {
      var currentCount := 0;
      bytesRead := 0;
      if handle == 0 {
        return InvalidArg, 0;
      }
      Lock();
      ghost var start, buffer := device.files, data[..];
      while currentCount < length
        invariant currentCount <= length
        invariant locked && device.Valid() && conn.outgoing == [] && conn.incoming == [] && packetNum < TWO_64
        invariant ReadProgress(start, device.files, handle, currentCount)
        invariant Filled(start, handle, data[..], buffer, currentCount)
        decreases length - currentCount
      {
        ghost var taken;
        var r, n;
        r, n, taken := ReadMore(device, handle, data, currentCount, length, start, buffer);
        if r != Success {
          Unlock();
          return r, 0;
        } else if n == 0 {
          ReadDone(start, device.files, handle, data[..], buffer, currentCount, length);
          Unlock();
          return r, currentCount;
        }
        currentCount := currentCount + n;
      }
      if handle in start {
        ReadDone(start, device.files, handle, data[..], buffer, currentCount, length);
      }
      Unlock();
      return Success, currentCount;
    }

    /** One round of afc_file_read: a request, its reply, and the copying of what came. */
    method ReadMore(device: Device, handle: nat, data: array<byte>, at: nat, length: nat,
                    ghost start: map<nat, OpenFile>, ghost buffer: seq<byte>)
      returns (r: Error, n: nat, ghost taken: nat)
      requires SendsWhole(conn) && device.Valid() && 0 < handle < TWO_64 && at < length < TWO_32
          && length <= data.Length
      requires locked && conn.outgoing == [] && conn.incoming == [] && packetNum < TWO_64
      requires ReadProgress(start, device.files, handle, at) && Filled(start, handle, data[..], buffer, at)
      modifies this, conn, device, data
      ensures locked && conn.outgoing == [] && packetNum < TWO_64 && device.Valid()
      ensures ReadProgress(start, device.files, handle, taken)
      ensures r == Success ==>
        && handle in start && conn.incoming == [] && taken == at + n <= length
        && Filled(start, handle, data[..], buffer, at + n)
      ensures r == Success && n == 0 ==> AllRead(start, handle, at, length)
      ensures KeepsHeads(conn, device) ==>
        conn.incoming == [] && r == if handle in start then Success else Error.Device(NO_SUCH_HANDLE)
    {
      var size := if length - at < MAXIMUM_READ_SIZE then length - at else MAXIMUM_READ_SIZE;
      ghost var before, files := data[..], device.files;
      AdvancedTo(start, files, handle, at);
      var sent, input, bytesLoc;
      sent, r, input, bytesLoc, taken := ReadSegment(device, handle, size);
      if sent != Success {
        assert false;  // the request is always well formed
      }
      assert data[..] == before;
      MoreProgress(start, files, device.files, handle, at, taken);
      taken := at + taken;
      n := 0;
      if r == Success {
        n := StoreReply(data, at, size, length, input, bytesLoc, start, device.files, handle, buffer);
      }
    }

    /** What afc_file_read does with a reply. */
    static method StoreReply(data: array<byte>, at: nat, size: nat, length: nat, input: array?<byte>, bytesLoc: nat,
                             ghost start: map<nat, OpenFile>, ghost now: map<nat, OpenFile>, ghost handle: nat,
                             ghost buffer: seq<byte>)
      returns (n: nat)
      requires ReadProgress(start, now, handle, at + bytesLoc) && handle in start && input != data
      requires 0 < size && at + size <= length <= data.Length && bytesLoc <= size
      requires Filled(start, handle, data[..], buffer, at)
      requires bytesLoc == 0 ==> Next(Advanced(start[handle], at), size) == []
      requires bytesLoc > 0 ==> input != null && input[..] == Next(Advanced(start[handle], at), bytesLoc)
      modifies data
      ensures n == bytesLoc && Filled(start, handle, data[..], buffer, at + n)
      ensures n == 0 ==> AllRead(start, handle, at, length)
    {
      n := 0;
      StillThere(start, now, handle, at, bytesLoc);
      if bytesLoc == 0 {
        AtEnd(start, handle, at, size, length);
      } else {
        n := Min(bytesLoc, length);
        assert input[..n] == input[..];
        StoreInput(data, at, input[..n], start, handle, buffer);
      }
    }

    /** The memcpy of a reply behind what is already there. */
    static method StoreInput(data: array<byte>, at: nat, input: seq<byte>, ghost start: map<nat, OpenFile>,
                             ghost handle: nat, ghost buffer: seq<byte>)
      requires (forall h :: h in start ==> start[h].Valid()) && handle in start
      requires at + |input| <= data.Length && at + |input| <= |start[handle].content| - start[handle].pos
      requires Filled(start, handle, data[..], buffer, at) && input == Next(Advanced(start[handle], at), |input|)
      modifies data
      ensures Filled(start, handle, data[..], buffer, at + |input|)
    {
      ghost var before := data[..];
      Copy(data, at, input);
      MoreFilled(start, handle, before, data[..], buffer, at, |input|);
    }

    /** afc_file_seek, from any origin. */
    method FileSeek(device: Device, handle: nat, offset: int, whence: int) returns (ret: Error)
      requires SendsWhole(conn) && device.Valid() && Quiet() && handle < TWO_64 && IsLong(offset) && IsLong(whence)
      modifies this, conn, device
      ensures !locked && device.Valid()
      ensures handle == 0 ==> ret == InvalidArg && device.files == old(device.files) && Quiet()
      ensures var files := old(device.files);
        var found := handle in files && Sought(files[handle], whence, offset).Some?;
        && (handle != 0 ==>
          device.files == if found then files[handle := Sought(files[handle], whence, offset).value] else files)
        && (ret == Success ==> Quiet() && found)
        && (KeepsHeads(conn, device) && handle != 0 ==>
          Quiet() && ret == if found then Success else Error.Device(NO_SUCH_HANDLE))
    {
      if handle == 0 {
        return InvalidArg;
      }
      Lock();
      operation := OP_FILE_SEEK;
      thisLength, entireLength := 0, 0;
      var sent, n := DispatchWhole(SeekBody(handle, whence, offset));
      if sent != Success {
        assert false;
      }
      ghost var p, code := device.ServeSeek(conn, Header(), handle, whence, offset);
      ret := ReceiveStatus(device, p, code);
      Unlock();
    }
  }

  lemma {:induction false} HandleRead(handle: nat)
    requires handle < TWO_64
    ensures |Le64(handle)| == 8 && LongAt(Le64(handle), 0) == handle
  {
    Le64RoundTrip(handle);
    assert Le64(handle)[0..8] == Le64(handle);
  }

  /** n bytes have been taken from an open file, if any were asked for. */
  ghost predicate ReadProgress(start: map<nat, OpenFile>, now: map<nat, OpenFile>, handle: nat, n: nat) {
    && (forall h :: h in start ==> start[h].Valid())
    && (n > 0 ==> handle in start)
    && (handle in start ==>
      n <= |start[handle].content| - start[handle].pos && now == start[handle := Advanced(start[handle], n)])
    && (handle !in start ==> now == start)
  }

  lemma {:induction false} AdvancedTo(start: map<nat, OpenFile>, now: map<nat, OpenFile>, handle: nat, n: nat)
    requires ReadProgress(start, now, handle, n)
    ensures handle in start <==> handle in now
    ensures handle in start ==> now[handle] == Advanced(start[handle], n)
  {
  }

  lemma {:induction false} StillThere(start: map<nat, OpenFile>, now: map<nat, OpenFile>, handle: nat, m: nat, n: nat)
    requires ReadProgress(start, now, handle, m + n) && handle in start
    ensures forall h :: h in start ==> start[h].Valid()
    ensures m + n <= |start[handle].content| - start[handle].pos
  {
  }

  /** The buffer holds the next n bytes of the file and is otherwise untouched. */
  ghost predicate Filled(start: map<nat, OpenFile>, handle: nat, data: seq<byte>, buffer: seq<byte>, n: nat)
    requires forall h :: h in start ==> start[h].Valid()
  {
    && n <= |data| == |buffer| && data[n..] == buffer[n..]
    && (handle in start ==> data[..n] == Next(start[handle], n))
  }

  lemma {:induction false} MoreRead(start: map<nat, OpenFile>, handle: nat, m: nat, n: nat)
    requires (forall h :: h in start ==> start[h].Valid()) && handle in start
    requires m <= |start[handle].content| - start[handle].pos
    ensures var now := start[handle := Advanced(start[handle], m)];
      now[handle := Advanced(now[handle], n)] == start[handle := Advanced(start[handle], m + n)]
  {
    NextTwice(start[handle], m, n);
  }

  lemma {:induction false} MoreProgress(start: map<nat, OpenFile>, between: map<nat, OpenFile>,
                                        now: map<nat, OpenFile>, handle: nat, m: nat, n: nat)
    requires ReadProgress(start, between, handle, m) && ReadProgress(between, now, handle, n)
    ensures ReadProgress(start, now, handle, m + n)
  {
    if handle in start {
      MoreRead(start, handle, m, n);
    }
  }

  lemma {:induction false} MoreFilled(start: map<nat, OpenFile>, handle: nat, before: seq<byte>, after: seq<byte>,
                                      buffer: seq<byte>, m: nat, n: nat)
    requires (forall h :: h in start ==> start[h].Valid()) && handle in start
    requires Filled(start, handle, before, buffer, m) && m + n <= |before| == |after|
    requires m + n <= |start[handle].content| - start[handle].pos
    requires after[m..m + n] == Next(Advanced(start[handle], m), n) && after[..m] == before[..m]
        && after[m + n..] == before[m + n..]
    ensures Filled(start, handle, after, buffer, m + n)
  {
    NextTwice(start[handle], m, n);
    assert after[..m + n] == after[..m] + after[m..m + n];
    assert before[m + n..] == before[m..][n..] && buffer[m + n..] == buffer[m..][n..];
  }

  /** Asking for more than m bytes gives no more than m bytes do. */
  ghost predicate AllRead(start: map<nat, OpenFile>, handle: nat, m: nat, length: nat)
    requires (forall h :: h in start ==> start[h].Valid()) && handle in start
  {
    Next(start[handle], length) == Next(start[handle], m)
      && Advanced(start[handle], length) == Advanced(start[handle], m)
  }

  lemma {:induction false} ReadDone(start: map<nat, OpenFile>, now: map<nat, OpenFile>, handle: nat, data: seq<byte>,
                                    buffer: seq<byte>, n: nat, length: nat)
    requires ReadProgress(start, now, handle, n) && handle in start && Filled(start, handle, data, buffer, n)
    requires n == length || AllRead(start, handle, n, length)
    ensures now == start[handle := Advanced(start[handle], length)]
    ensures data[..n] == Next(start[handle], length) && data[n..] == buffer[n..]
  {
  }

  lemma {:induction false} AtEnd(start: map<nat, OpenFile>, handle: nat, m: nat, size: nat, length: nat)
    requires (forall h :: h in start ==> start[h].Valid()) && handle in start
    requires m <= |start[handle].content| - start[handle].pos && m <= length && size > 0
    requires Next(Advanced(start[handle], m), size) == []
    ensures AllRead(start, handle, m, length)
  {
  }

  /** The first n bytes of data have been written, to an open file if there was anything to write. */
  ghost predicate Progress(start: map<nat, OpenFile>, now: map<nat, OpenFile>, handle: nat, data: seq<byte>, n: nat) {
    && n <= |data| && (forall h :: h in start ==> start[h].Valid())
    && (n > 0 ==> handle in start)
    && now == (if handle in start then start[handle := Written(start[handle], data[..n])] else start)
  }

  lemma {:induction false} WrittenAll(start: map<nat, OpenFile>, handle: nat, data: seq<byte>)
    ensures forall now :: Progress(start, now, handle, data, |data|) && handle in start ==>
      now == start[handle := Written(start[handle], data)]
  {
    assert data[..|data|] == data;
  }

  lemma {:induction false} MoreWritten(start: map<nat, OpenFile>, handle: nat, data: seq<byte>, m: nat, n: nat)
    requires m <= n <= |data| && forall h :: h in start ==> start[h].Valid()
    ensures handle in start ==>
      var now := start[handle := Written(start[handle], data[..m])];
      now[handle := Written(now[handle], data[m..n])] == start[handle := Written(start[handle], data[..n])]
  {
    if handle in start {
      WrittenTwice(start[handle], data[..m], data[m..n]);
      assert data[..n] == data[..m] + data[m..n];
    }
  }

  // ---------------------------------------------------------------- receiving

  /** A 64-bit length of a header as a 32-bit number of bytes behind it. */
  function Wrapped(length: nat): (n: nat)
    ensures n < TWO_32
    ensures HEADER_SIZE <= length < TWO_32 ==> n == length - HEADER_SIZE
  {
    (length - HEADER_SIZE) % TWO_32
  }

  lemma {:induction false} SameWrapped(length: nat)
    ensures (length % TWO_32 - HEADER_SIZE) % TWO_32 == Wrapped(length)
  {
    var q, r := length / TWO_32, length % TWO_32;
    assert length == q * TWO_32 + r;
    AddMultiple(r - HEADER_SIZE, q);
  }

  lemma {:induction false} AddMultiple(x: int, q: nat)
    ensures (x + q * TWO_32) % TWO_32 == x % TWO_32
  {
    if q > 0 {
      AddMultiple(x, q - 1);
      assert x + q * TWO_32 == (x + (q - 1) * TWO_32) + TWO_32;
    }
  }

  /** If the stream starts with a header that passes the checks, the parameters lie within the packet, in
      32 bits: beyond it they would be written behind the buffer. */
  predicate Receivable(stream: seq<byte>) {
    |stream| >= HEADER_SIZE && PacketOf(stream).thisLength >= HEADER_SIZE ==>
      Wrapped(PacketOf(stream).thisLength) <= Wrapped(PacketOf(stream).entireLength)
  }

  /** The header announces nothing behind itself. */
  predicate IsEmpty(p: Packet) {
    p.thisLength == p.entireLength == HEADER_SIZE
  }

  /** The number of bytes the header announces behind itself. */
  function Announced(stream: seq<byte>): (n: nat) {
    if |stream| < HEADER_SIZE then 0 else Wrapped(PacketOf(stream).entireLength)
  }

  /** Those of them that the stream has. */
  function Arrived(stream: seq<byte>): (s: seq<byte>)
    ensures |s| <= Announced(stream)
  {
    if |stream| < HEADER_SIZE then []
    else stream[HEADER_SIZE..][..Min(Announced(stream), |stream| - HEADER_SIZE)]
  }

  predicate HeaderArrives(schedule: nat -> nat, call: nat, stream: seq<byte>) {
    |stream| >= HEADER_SIZE && Whole(schedule(call), HEADER_SIZE)
  }

  predicate ParametersArrive(wish: nat, length: nat, tail: seq<byte>) {
    length <= |tail| && Whole(wish, length)
  }

  /** What afc_receive_data returns, expecting packet number num, when its first receive is number call. */
  function Outcome(schedule: nat -> nat, call: nat, num: nat, stream: seq<byte>): Error {
    if !HeaderArrives(schedule, call, stream) then MuxError
    else
      var p, tail := PacketOf(stream), stream[HEADER_SIZE..];
      if p.packetNum != num || p.thisLength < HEADER_SIZE then OpHeaderInvalid
      else if IsEmpty(p) then Meaning(p.operation, [])
      else if !ParametersArrive(schedule(call + 1), Wrapped(p.thisLength), tail) then NotEnoughData
      else Verdict(p.operation, Arrived(stream))
  }

  /** And what it leaves in the stream. */
  function Left(schedule: nat -> nat, call: nat, num: nat, stream: seq<byte>): seq<byte> {
    if !HeaderArrives(schedule, call, stream) then stream[Fragment(schedule(call), HEADER_SIZE, |stream|)..]
    else
      var p, tail := PacketOf(stream), stream[HEADER_SIZE..];
      if p.packetNum != num || p.thisLength < HEADER_SIZE || IsEmpty(p) then tail
      else if !ParametersArrive(schedule(call + 1), Wrapped(p.thisLength), tail) then
        tail[Fragment(schedule(call + 1), Wrapped(p.thisLength), |tail|)..]
      else tail[|Arrived(stream)|..]
  }

  lemma {:induction false} SameHeader(stream: seq<byte>)
    requires |stream| >= HEADER_SIZE
    ensures PacketOf(stream[..HEADER_SIZE]) == PacketOf(stream)
  {
    var s := stream[..HEADER_SIZE];
    assert s[8..16] == stream[8..16] && s[16..24] == stream[16..24];
    assert s[24..32] == stream[24..32] && s[32..40] == stream[32..40];
  }

  lemma {:induction false} TwoParts(data: seq<byte>, stream: seq<byte>, a: nat, b: nat)
    requires a <= b <= |data| && b <= |stream|
    requires data[..a] == stream[..a] && data[a..b] == stream[a..][..b - a]
    ensures data[..b] == stream[..b] && stream[a..][b - a..] == stream[b..]
  {
    assert data[..b] == data[..a] + data[a..b];
    assert stream[..b] == stream[..a] + stream[a..][..b - a];
  }

  /** The reply's number is the one expected, and neither header nor parameters arrive in pieces. */
  predicate Complete(schedule: nat -> nat, call: nat, num: nat, p: Packet) {
    && Whole(schedule(call), HEADER_SIZE) && p.packetNum == num
    && HEADER_SIZE <= p.thisLength && Whole(schedule(call + 1), p.thisLength - HEADER_SIZE)
  }

  /** A reply that is all there: it is judged by its meaning and taken off the stream exactly, or it fails
      because its number is foreign or header or parameters came in pieces. */
  lemma {:induction false} WholeReply(schedule: nat -> nat, call: nat, num: nat, p: Packet, body: seq<byte>,
                                      rest: seq<byte>)
    requires Describes(p, body)
    ensures var stream := Frame(p, body) + rest;
      && Receivable(stream) && Announced(stream) == |body| && Arrived(stream) == body
      && (IsEmpty(PacketOf(stream)) <==> body == [])
      && Outcome(schedule, call, num, stream) == (if !Whole(schedule(call), HEADER_SIZE) then MuxError
           else if p.packetNum != num then OpHeaderInvalid
           else if body == [] || Complete(schedule, call, num, p) then Meaning(p.operation, body)
           else NotEnoughData)
      && (Complete(schedule, call, num, p) ==> Left(schedule, call, num, stream) == rest)
      && (Outcome(schedule, call, num, stream) == Success ==> Left(schedule, call, num, stream) == rest)
  {
    var stream := Frame(p, body) + rest;
    FrameInFront(p, body, rest);
    BodyArrives(stream, p, body, rest);
    ReplyOutcome(schedule, call, num, stream, p, body);
    ReplyLeft(schedule, call, num, stream, p, body, rest);
  }

  /** What a reply that is all there comes to: success for data, a handle or a position, and for a status
      that is zero; the code of a status that is not; an empty reply is a success as data only. */
  lemma {:induction false} ReplyJudged(schedule: nat -> nat, call: nat, num: nat, p: Packet, body: seq<byte>,
                                       rest: seq<byte>)
    requires Describes(p, body) && Complete(schedule, call, num, p)
    ensures var ret := Outcome(schedule, call, num, Frame(p, body) + rest);
      && (ret == Success <==>
           if body == [] then p.operation == 0x02
           else p.operation in {0x02, 0x0E, 0x13} || (p.operation == 0x01 && |body| >= 8 && LongAt(body, 0) == 0))
      && (ret == NotSupported <==> body != [] && p.operation !in {0x01, 0x02, 0x0E, 0x13})
      && (ret == IoError <==> body == [] && p.operation != 0x02)
      && (|body| >= 8 && p.operation == 0x01 && LongAt(body, 0) != 0 ==> ret == Error.Device(LongAt(body, 0)))
  {
    WholeReply(schedule, call, num, p, body, rest);
    VerdictExactly(p.operation, body);
  }

  /** A header that does not come in one piece, has a foreign number or a length below its own is an
      error, and so are parameters that do not come in one piece. */
  lemma {:induction false} ReplyRefused(schedule: nat -> nat, call: nat, num: nat, stream: seq<byte>)
    requires Receivable(stream)
    ensures var ret := Outcome(schedule, call, num, stream);
      && (ret == MuxError <==> |stream| < 40 || schedule(call) < 40)
      && (ret == OpHeaderInvalid <==>
           |stream| >= 40 && schedule(call) >= 40 && (LongAt(stream, 24) != num || LongAt(stream, 16) < 40))
      && (ret == NotEnoughData ==> LongAt(stream, 16) > 40)
  {
  }

  lemma {:induction false} FrameInFront(p: Packet, body: seq<byte>, rest: seq<byte>)
    requires p.Fits()
    ensures var stream := Frame(p, body) + rest;
      |stream| >= HEADER_SIZE && PacketOf(stream) == p && stream[HEADER_SIZE..] == body + rest
  {
    PacketRoundTrip(p, body + rest);
    Regroup(PacketBytes(p), body, rest);
  }

  lemma {:induction false} BodyArrives(stream: seq<byte>, p: Packet, body: seq<byte>, rest: seq<byte>)
    requires Describes(p, body) && |stream| >= HEADER_SIZE && PacketOf(stream) == p
    requires stream[HEADER_SIZE..] == body + rest
    ensures Receivable(stream) && Announced(stream) == |body| && Arrived(stream) == body
    ensures stream[HEADER_SIZE..][|body|..] == rest
  {
  }

  lemma {:induction false} ReplyOutcome(schedule: nat -> nat, call: nat, num: nat, stream: seq<byte>, p: Packet,
                                        body: seq<byte>)
    requires Describes(p, body) && |stream| >= HEADER_SIZE + |body| && PacketOf(stream) == p && Arrived(stream) == body
    ensures Outcome(schedule, call, num, stream) == if !Whole(schedule(call), HEADER_SIZE) then MuxError
      else if p.packetNum != num then OpHeaderInvalid
      else if body == [] || Complete(schedule, call, num, p) then Meaning(p.operation, body)
      else NotEnoughData
  {
  }

  lemma {:induction false} ReplyLeft(schedule: nat -> nat, call: nat, num: nat, stream: seq<byte>, p: Packet,
                                     body: seq<byte>, rest: seq<byte>)
    requires Describes(p, body) && |stream| >= HEADER_SIZE + |body| && PacketOf(stream) == p && Arrived(stream) == body
    requires stream[HEADER_SIZE..][|body|..] == rest
    ensures Complete(schedule, call, num, p) || Outcome(schedule, call, num, stream) == Success ==>
      Left(schedule, call, num, stream) == rest
  {
    if body == [] {
      assert stream[HEADER_SIZE..][0..] == stream[HEADER_SIZE..];
    }
  }

  /** A reply that is cut in its remainder: what has come is all there is, a data reply is a success with
      the shorter count, and a status counts once its eight bytes are there. */
  lemma {:induction false} CutReply(schedule: nat -> nat, call: nat, num: nat, stream: seq<byte>)
    requires Receivable(stream) && HeaderArrives(schedule, call, stream)
    requires var p := PacketOf(stream);
      && p.packetNum == num && HEADER_SIZE <= p.thisLength
      && ParametersArrive(schedule(call + 1), Wrapped(p.thisLength), stream[HEADER_SIZE..])
    requires |stream| - HEADER_SIZE < Announced(stream)
    ensures Arrived(stream) == stream[HEADER_SIZE..] && |Arrived(stream)| < Announced(stream)
    ensures Left(schedule, call, num, stream) == []
    ensures PacketOf(stream).operation == OP_DATA ==> Outcome(schedule, call, num, stream) == Success
    ensures PacketOf(stream).operation == OP_STATUS ==>
      (Outcome(schedule, call, num, stream) == Success
       <==> |stream| >= HEADER_SIZE + 8 && LongAt(stream, HEADER_SIZE) == STATUS_SUCCESS)
  {
    var tail := stream[HEADER_SIZE..];
    assert tail[..|tail|] == tail && tail[|tail|..] == [];
    if |tail| >= 8 {
      assert tail[0..8] == stream[HEADER_SIZE..HEADER_SIZE + 8];
    }
  }
}
