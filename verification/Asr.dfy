/** Sending the filesystem in a restore: validation, which serves out-of-band requests, then the payload. */
module Asr {
  import opened Bytes
  import opened Chunks
  import opened Options
  import opened Transport

  const PAYLOAD_PACKET: nat := 1450
  const RETRIES: nat := 5

  /** What asr_receive brings: an error, data that are no plist, a plist without a command string, or a
      command with the length and offset it may ask for. */
  datatype Packet = Broken | Null | NoCommand | Command(name: string, length: Option<nat>, offset: Option<nat>)

  predicate IsRequest(p: Packet) { p.Command? && p.name == "OOBData" }
  predicate IsPayload(p: Packet) { p.Command? && p.name == "Payload" }

  // ---------------------------------------------------------------- requests

  /** The request asks for bytes that the file has. */
  predicate InBounds(file: seq<byte>, p: Packet) {
    && p.Command? && p.length.Some? && p.offset.Some?
    && (p.length.value == 0 || p.offset.value + p.length.value <= |file|)
  }

  function Slice(file: seq<byte>, p: Packet): seq<byte>
    requires InBounds(file, p)
  {
    if p.length.value == 0 then [] else file[p.offset.value..p.offset.value + p.length.value]
  }

  /** The bytes offered to the transport; their number passes through a 32-bit parameter. */
  function Reply(file: seq<byte>, p: Packet): (r: seq<byte>)
    requires InBounds(file, p)
  {
    Slice(file, p)[..|Slice(file, p)| % TWO_32]
  }

  /** The bytes that go out for requests, the first send of which is number k. */
  function Replies(file: seq<byte>, requests: seq<Packet>, schedule: nat -> nat, k: nat): seq<byte> {
    if requests == [] then []
    else if !InBounds(file, requests[0]) then Replies(file, requests[1..], schedule, k)
    else Taken(Reply(file, requests[0]), schedule(k)) + Replies(file, requests[1..], schedule, k + 1)
  }

  // ---------------------------------------------------------------- validation

  /** How validation proceeds over the packets that arrive, after a number of packets in a row that
      were no plist: its result, the packets not looked at, the requests served. */
  datatype Course = Course(result: int, left: seq<Packet>, served: seq<Packet>)

  function Validated(packets: seq<Packet>, attempts: nat): (c: Course)
    ensures c.result == 0 || c.result == -1
  {
    if packets == [] then Course(-1, [], [])
    else
      var p, rest := packets[0], packets[1..];
      if p.Null? && attempts < RETRIES then Validated(rest, attempts + 1)
      else if IsRequest(p) then
        var c := Validated(rest, 0);
        c.(served := [p] + c.served)
      else Course(if IsPayload(p) then 0 else -1, rest, [])
  }

  /** The number of packets in front that validation may pass over. */
  function Lead(packets: seq<Packet>): (n: nat)
    ensures n <= |packets|
  {
    if packets == [] || !(packets[0].Null? || IsRequest(packets[0])) then 0 else 1 + Lead(packets[1..])
  }

  /** No six packets in a row fail to be a plist. */
  predicate Patient(packets: seq<Packet>) {
    forall j {:trigger AllNull(packets, j)} :: 0 <= j <= |packets| - RETRIES - 1 ==> !AllNull(packets, j)
  }

  predicate AllNull(packets: seq<Packet>, j: nat)
    requires j + RETRIES + 1 <= |packets|
  {
    forall i :: j <= i <= j + RETRIES ==> packets[i].Null?
  }

  function Nulls(n: nat): (s: seq<Packet>)
    ensures |s| == n && forall i :: 0 <= i < n ==> s[i].Null?
  {
    seq(n, _ => Null)
  }

  function Requests(packets: seq<Packet>): seq<Packet> {
    if packets == [] then []
    else (if IsRequest(packets[0]) then [packets[0]] else []) + Requests(packets[1..])
  }

  lemma {:induction false} Interrupted(t: seq<Packet>, j: nat, i: nat)
    requires j + RETRIES + 1 <= |t| && j <= i <= j + RETRIES && !t[i].Null?
    ensures !AllNull(t, j)
  {
  }

  lemma {:induction false} WindowMoved(before: seq<Packet>, s: seq<Packet>, j: nat)
    requires j + RETRIES + 1 <= |s|
    ensures AllNull(s, j) <==> AllNull(before + s, |before| + j)
  {
    var t := before + s;
    if AllNull(t, |before| + j) {
      forall i | j <= i <= j + RETRIES
        ensures s[i].Null?
      {
        assert t[|before| + i] == s[i];
      }
    }
  }

  lemma {:induction false} PatientAfterRequest(a: nat, p: Packet, s: seq<Packet>)
    requires a <= RETRIES && IsRequest(p)
    ensures Patient(Nulls(a) + ([p] + s)) <==> Patient(s)
  {
    var before := Nulls(a) + [p];
    var t := before + s;
    assert Nulls(a) + ([p] + s) == t;
    if Patient(t) {
      forall j | 0 <= j <= |s| - RETRIES - 1
        ensures !AllNull(s, j)
      {
        WindowMoved(before, s, j);
      }
    }
    if Patient(s) {
      forall j | 0 <= j <= |t| - RETRIES - 1
        ensures !AllNull(t, j)
      {
        if j <= a {
          Interrupted(t, j, a);
        } else {
          WindowMoved(before, s, j - a - 1);
        }
      }
    }
  }

  lemma {:induction false} NullsMoved(a: nat, s: seq<Packet>)
    ensures Nulls(a) + ([Null] + s) == Nulls(a + 1) + s
  {
  }

  lemma {:induction false} TooManyNulls(s: seq<Packet>)
    ensures !Patient(Nulls(RETRIES) + ([Null] + s))
  {
    var t := Nulls(RETRIES) + ([Null] + s);
    assert forall i :: 0 <= i <= RETRIES ==> t[i].Null?;
    assert AllNull(t, 0);
  }

  lemma {:induction false} FewNulls(a: nat)
    requires a <= RETRIES
    ensures Patient(Nulls(a) + [])
  {
  }

  /** Validation succeeds if and only if a Payload command comes before anything that is neither a
      request nor a packet to be received again, and no six packets in a row have to be received again;
      it then has served the requests before the command, in order, and stops right behind it. */
  lemma {:induction false} ValidationExactly(packets: seq<Packet>, attempts: nat)
    requires attempts <= RETRIES
    ensures var c, n := Validated(packets, attempts), Lead(packets);
      && (c.result == 0 <==> n < |packets| && IsPayload(packets[n]) && Patient(Nulls(attempts) + packets[..n]))
      && (c.result == 0 ==> c.served == Requests(packets[..n]) && c.left == packets[n + 1..])
  {
    var n := Lead(packets);
    if packets == [] {
    } else if n == 0 {
      assert packets[..0] == [];
      FewNulls(attempts);
    } else {
      var p, rest := packets[0], packets[1..];
      assert packets[..n] == [p] + rest[..n - 1] && ([p] + rest[..n - 1])[1..] == rest[..n - 1];
      if IsRequest(p) {
        ValidationExactly(rest, 0);
        PatientAfterRequest(attempts, p, rest[..n - 1]);
        assert Nulls(0) + rest[..n - 1] == rest[..n - 1];
      } else if attempts < RETRIES {
        ValidationExactly(rest, attempts + 1);
        NullsMoved(attempts, rest[..n - 1]);
      } else {
        TooManyNulls(rest[..n - 1]);
      }
    }
  }

  /** The answer to a request is all of what was asked for if and only if that is less than 4 GiB. */
  lemma {:induction false} ReplyIsSlice(file: seq<byte>, p: Packet)
    requires InBounds(file, p)
    ensures Reply(file, p) == Slice(file, p) <==> p.length.value < TWO_32
  {
    if p.length.value >= TWO_32 {
      assert |Reply(file, p)| < TWO_32;
    }
  }

  /** A request for bytes that the file has, its last ones included, is served with exactly these. */
  lemma {:induction false} SliceServed(front: seq<byte>, slice: seq<byte>, back: seq<byte>, name: string)
    ensures var file, p := front + slice + back, Command(name, Some(|slice|), Some(|front|));
      InBounds(file, p) && Slice(file, p) == slice
  {
    assert (front + slice + back)[|front|..|front| + |slice|] == slice;
  }

  /** One that lacks its length or offset, or reaches behind the end, is not served. */
  lemma {:induction false} NotServed(file: seq<byte>, name: string, length: Option<nat>, offset: Option<nat>)
    ensures length == None || offset == None ==> !InBounds(file, Command(name, length, offset))
    ensures length.Some? && offset.Some? && 0 < length.value && |file| < offset.value + length.value ==>
      !InBounds(file, Command(name, length, offset))
  {
  }

  /** What each command does to validation. */
  lemma {:induction false} CommandsMeant(name: string, length: Option<nat>, offset: Option<nat>, rest: seq<Packet>,
                                         attempts: nat)
    ensures var p := Command(name, length, offset);
      var c, later := Validated([p] + rest, attempts), Validated(rest, 0);
      c == if name == "OOBData" then Course(later.result, later.left, [p] + later.served)
           else Course(if name == "Payload" then 0 else -1, rest, [])
  {
    var p := Command(name, length, offset);
    assert ([p] + rest)[0] == p && ([p] + rest)[1..] == rest;
  }

  /** Five packets in a row that are no plist are received again, a sixth is the end. */
  lemma {:induction false} SixthFails(rest: seq<Packet>)
    ensures Validated(Nulls(5) + rest, 0) == Validated(rest, 5)
    ensures Validated(Nulls(6) + rest, 0) == Course(-1, rest, [])
  {
    NullsPassed(5, rest, 0);
    NullsPassed(5, [Null] + rest, 0);
    OneNull(rest, 5);
    NullsMoved(5, rest);
  }

  lemma {:induction false} NullsPassed(n: nat, rest: seq<Packet>, attempts: nat)
    requires attempts + n <= 5
    ensures Validated(Nulls(n) + rest, attempts) == Validated(rest, attempts + n)
    decreases n
  {
    if n == 0 {
      assert Nulls(0) + rest == rest;
    } else {
      assert Nulls(n) + rest == [Null] + (Nulls(n - 1) + rest);
      OneNull(Nulls(n - 1) + rest, attempts);
      NullsPassed(n - 1, rest, attempts + 1);
    }
  }

  lemma {:induction false} OneNull(rest: seq<Packet>, attempts: nat)
    ensures Validated([Null] + rest, attempts) ==
      if attempts < 5 then Validated(rest, attempts + 1) else Course(-1, rest, [])
  {
    assert ([Null] + rest)[0] == Null && ([Null] + rest)[1..] == rest;
  }

  function Slices(file: seq<byte>, requests: seq<Packet>): seq<seq<byte>>
    requires forall i :: 0 <= i < |requests| ==> InBounds(file, requests[i])
  {
    if requests == [] then [] else [Slice(file, requests[0])] + Slices(file, requests[1..])
  }

  /** The sends from number k on take all that a 32-bit length can offer. */
  ghost predicate Reliable(schedule: nat -> nat, k: nat) {
    forall i :: i >= k ==> schedule(i) >= TWO_32
  }

  predicate Serviceable(file: seq<byte>, requests: seq<Packet>) {
    forall i :: 0 <= i < |requests| ==> InBounds(file, requests[i]) && requests[i].length.value < TWO_32
  }

  /** Requests within the file are answered with the slices they ask for, in their order. */
  lemma {:induction false} RequestsAnswered(file: seq<byte>, requests: seq<Packet>, schedule: nat -> nat, k: nat)
    requires Serviceable(file, requests) && Reliable(schedule, k)
    ensures Replies(file, requests, schedule, k) == Flatten(Slices(file, requests))
  {
    if requests == [] {
    } else {
      RequestAnswered(file, requests[0], schedule(k));
      RequestsAnswered(file, requests[1..], schedule, k + 1);
      assert Slices(file, requests)[1..] == Slices(file, requests[1..]);
    }
  }

  lemma {:induction false} RequestAnswered(file: seq<byte>, p: Packet, wish: nat)
    requires InBounds(file, p) && p.length.value < TWO_32 <= wish
    ensures Taken(Reply(file, p), wish) == Slice(file, p)
  {
    ReplyIsSlice(file, p);
    assert Whole(wish, |Slice(file, p)|);
  }

  // ---------------------------------------------------------------- the payload

  /** A 32-bit unsigned number assigned to an int. */
  function AsInt(n: nat): (i: int)
    requires n < TWO_32
  {
    if n < TWO_31 then n else n - TWO_32
  }

  /** Where the payload loop starts counting down from. */
  function Counter(size: nat): int {
    AsInt(size % TWO_32)
  }

  /** The part of the file that the payload loop goes over. */
  function Covered(file: seq<byte>): seq<byte> {
    file[..if Counter(|file|) > 0 then Counter(|file|) else 0]
  }

  /** Result and bytes of sending pieces, the first of them with send number k. */
  function Streamed(pieces: seq<seq<byte>>, schedule: nat -> nat, k: nat): (s: (int, seq<byte>))
    ensures s.0 == 0 || s.0 == -1
  {
    if pieces == [] then (0, [])
    else if !Whole(schedule(k), |pieces[0]|) then (-1, Taken(pieces[0], schedule(k)))
    else
      var rest := Streamed(pieces[1..], schedule, k + 1);
      (rest.0, pieces[0] + rest.1)
  }

  /** The piece that the payload loop reads when it has i bytes to go is the next one. */
  lemma {:induction false} NextPiece(file: seq<byte>, from: nat, i: nat, size: nat)
    requires 0 < i && from + i == |Covered(file)| && size == Min(i, PAYLOAD_PACKET)
    ensures Packets(Covered(file), from, PAYLOAD_PACKET)
      == [file[from..from + size]] + Packets(Covered(file), from + PAYLOAD_PACKET, PAYLOAD_PACKET)
  {
    var content := Covered(file);
    PacketsUnroll(content, from, from + PAYLOAD_PACKET, PAYLOAD_PACKET);
    assert content[from..from + size] == file[from..from + size];
  }

  /** The loop goes over the whole file if and only if the file is smaller than 2 GiB. */
  lemma {:induction false} CoveredExactly(file: seq<byte>)
    ensures Covered(file) == file <==> |file| < TWO_31
  {
  }

  /** Of a file of exactly 2 GiB nothing is sent, and no error is reported. */
  lemma {:induction false} TwoGigabytes(file: seq<byte>, schedule: nat -> nat, k: nat)
    requires |file| == TWO_31
    ensures Streamed(Packets(Covered(file), 0, PAYLOAD_PACKET), schedule, k) == (0, [])
  {
    assert Covered(file) == [];
  }

  /** If all sends take what they are offered, all of what the loop goes over arrives. */
  lemma {:induction false} StreamedAll(pieces: seq<seq<byte>>, schedule: nat -> nat, k: nat)
    requires Reliable(schedule, k) && forall i :: 0 <= i < |pieces| ==> |pieces[i]| <= PAYLOAD_PACKET
    ensures Streamed(pieces, schedule, k) == (0, Flatten(pieces))
  {
    if pieces == [] {
    } else {
      StreamedAll(pieces[1..], schedule, k + 1);
      assert Whole(schedule(k), |pieces[0]|);
    }
  }

  /** In any case what arrives is a prefix of it, and all of it if no error is reported. */
  lemma {:induction false} StreamedPrefix(pieces: seq<seq<byte>>, schedule: nat -> nat, k: nat)
    ensures var s := Streamed(pieces, schedule, k);
      s.1 <= Flatten(pieces) && (s.0 == 0 ==> s.1 == Flatten(pieces))
  {
    if pieces == [] {
    } else {
      StreamedPrefix(pieces[1..], schedule, k + 1);
      Longer(pieces[0], Streamed(pieces[1..], schedule, k + 1).1, Flatten(pieces[1..]));
    }
  }

  /** The payload, in pieces of 1450 bytes and a last one: with a reliable transport the whole file arrives
      if and only if it is smaller than 2 GiB; with any transport, a prefix of the file. */
  lemma {:induction false} PayloadExactly(file: seq<byte>, schedule: nat -> nat, k: nat)
    ensures var p := Packets(Covered(file), 0, PAYLOAD_PACKET);
      && (forall i :: 0 <= i < |p| - 1 ==> |p[i]| == 1450) && (p != [] ==> 0 < |p[|p| - 1]| <= 1450)
    ensures var s := Streamed(Packets(Covered(file), 0, PAYLOAD_PACKET), schedule, k);
      && s.1 <= file
      && (Reliable(schedule, k) ==> s.0 == 0 && (s.1 == file <==> |file| < TWO_31))
      && (s.0 == 0 ==> (s.1 == file <==> |file| < TWO_31))
  {
    var content := Covered(file);
    var pieces := Packets(content, 0, PAYLOAD_PACKET);
    PacketsOf(content, 0, PAYLOAD_PACKET);
    assert content[0..] == content;
    CoveredExactly(file);
    StreamedPrefix(pieces, schedule, k);
    if Reliable(schedule, k) {
      StreamedAll(pieces, schedule, k);
    }
  }

  /** How much of a file arrives through a reliable transport: of its size modulo 2^32 all if that is below
      2 GiB, and nothing otherwise. */
  lemma {:induction false} PayloadLength(file: seq<byte>, q: nat, r: nat, schedule: nat -> nat, k: nat)
    requires Reliable(schedule, k) && |file| == q * 0x1_0000_0000 + r && r < 0x1_0000_0000
    ensures Streamed(Packets(Covered(file), 0, 1450), schedule, k).1 == file[..if r < 0x8000_0000 then r else 0]
  {
    ModUnique(|file|, 0x1_0000_0000, q, r);
    PacketsOf(Covered(file), 0, 1450);
    assert Covered(file)[0..] == Covered(file);
    StreamedAll(Packets(Covered(file), 0, 1450), schedule, k);
  }

  // ---------------------------------------------------------------- the host

  /** The stdio view of the filesystem image. */
  class Reader {
    const content: seq<byte>
    var position: nat

    constructor (content: seq<byte>)
      ensures this.content == content && position == 0
    {
      this.content, position := content, 0;
    }

    /** fread. */
    method Read(n: nat) returns (data: seq<byte>)
      modifies this
      ensures data ==
        if old(position) >= |content| then [] else content[old(position)..Min(old(position) + n, |content|)]
      ensures position == old(position) + |data|
    {
      data := if position >= |content| then [] else content[position..Min(position + n, |content|)];
      position := position + |data|;
    }
  }

  class Host {
    const conn: Connection
    var packets: seq<Packet>  // what asr_receive is going to bring

    constructor (conn: Connection, packets: seq<Packet>)
      ensures this.conn == conn && this.packets == packets
    {
      this.conn, this.packets := conn, packets;
    }

    /** asr_receive. */
    method Receive() returns (p: Packet)
      modifies this
      ensures old(packets) == [] ==> p == Broken && packets == []
      ensures old(packets) != [] ==> p == old(packets)[0] && packets == old(packets)[1..]
    {
      p := Broken;
      if packets != [] {
        p, packets := packets[0], packets[1..];
      }
    }

    /** asr_send_buffer. */
    method SendBuffer(data: seq<byte>) returns (r: int)
      requires |data| < TWO_32
      modifies conn`outgoing, conn`sends
      ensures r == if Whole(conn.sendSchedule(old(conn.sends)), |data|) then 0 else -1
      ensures conn.outgoing == old(conn.outgoing) + Taken(data, conn.sendSchedule(old(conn.sends)))
      ensures conn.sends == old(conn.sends) + 1
    {
      var bytes := conn.Send(data);
      r := if bytes != |data| then -1 else 0;
    }

    /** asr_handle_oob_data_request. */
    method HandleOobDataRequest(packet: Packet, file: Reader) returns (r: int)
      requires packet.Command?
      modifies conn`outgoing, conn`sends, file
      ensures !InBounds(file.content, packet) ==>
        r == -1 && conn.outgoing == old(conn.outgoing) && conn.sends == old(conn.sends)
      ensures InBounds(file.content, packet) ==> var reply := Reply(file.content, packet);
        && r == (if Whole(conn.sendSchedule(old(conn.sends)), |reply|) then 0 else -1)
        && conn.outgoing == old(conn.outgoing) + Taken(reply, conn.sendSchedule(old(conn.sends)))
        && conn.sends == old(conn.sends) + 1
    {
      if packet.length.None? {
        return -1;
      }
      var oobLength := packet.length.value;
      if packet.offset.None? {
        return -1;
      }
      var oobOffset := packet.offset.value;
      file.position := oobOffset;
      var oobData := file.Read(oobLength);
      if |oobData| != oobLength {
        return -1;
      }
      r := SendBuffer(oobData[..oobLength % TWO_32]);
    }

    /** asr_perform_validation; packetInfo is the plist that announces the packet sizes. */
    method PerformValidation(filesystem: Option<seq<byte>>, packetInfo: seq<byte>) returns (r: int)
      requires |packetInfo| < TWO_32
      modifies this, conn`outgoing, conn`sends
      ensures filesystem.None? ==> r == -1 && packets == old(packets) && conn.outgoing == old(conn.outgoing)
      ensures filesystem.Some? && !Whole(conn.sendSchedule(old(conn.sends)), |packetInfo|) ==>
        && r == -1 && packets == old(packets)
        && conn.outgoing == old(conn.outgoing) + Taken(packetInfo, conn.sendSchedule(old(conn.sends)))
      ensures filesystem.Some? && Whole(conn.sendSchedule(old(conn.sends)), |packetInfo|) ==>
        var c := Validated(old(packets), 0);
        && r == c.result && packets == c.left
        && conn.outgoing == old(conn.outgoing) + packetInfo
             + Replies(filesystem.value, c.served, conn.sendSchedule, old(conn.sends) + 1)
        && conn.sends >= old(conn.sends)
    {
      if filesystem.None? {
        return -1;
      }
      var file := new Reader(filesystem.value);
      var sent := SendBuffer(packetInfo);
      if sent != 0 {
        return -1;
      }
      assert Taken(packetInfo, conn.sendSchedule(old(conn.sends))) == packetInfo;
      r := ServeRequests(file);
    }

    /** The packet loop of asr_perform_validation. */
    method ServeRequests(file: Reader) returns (r: int)
      modifies this, conn`outgoing, conn`sends, file
      ensures var c := Validated(old(packets), 0);
        && r == c.result && packets == c.left
        && conn.outgoing == old(conn.outgoing) + Replies(file.content, c.served, conn.sendSchedule, old(conn.sends))
      ensures conn.sends >= old(conn.sends)
    {
      var attempts := 0;
      ghost var course := Validated(packets, 0);
      ghost var first := conn.sends;
      ghost var start := conn.outgoing;
      while true
        invariant attempts <= RETRIES && conn.sends >= first
        invariant var c := Validated(packets, attempts);
          c.result == course.result && c.left == course.left
        invariant
          conn.outgoing + Replies(file.content, Validated(packets, attempts).served, conn.sendSchedule, conn.sends)
          == start + Replies(file.content, course.served, conn.sendSchedule, first)
        decreases |packets|
      {
        var packet := Receive();
        if packet == Broken {
          return -1;
        }
        if packet.Null? {
          if attempts < RETRIES {
            attempts := attempts + 1;
            continue;
          }
        }
        attempts := 0;
        if !packet.Command? {
          return -1;
        }
        if packet.name == "OOBData" {
          var _ := HandleOobDataRequest(packet, file);
        } else if packet.name == "Payload" {
          break;
        } else {
          return -1;
        }
      }
      r := 0;
    }

    /** asr_send_payload. */
    method SendPayload(filesystem: Option<seq<byte>>) returns (r: int)
      modifies conn`outgoing, conn`sends
      ensures filesystem.None? ==> r == -1 && conn.outgoing == old(conn.outgoing)
      ensures filesystem.Some? ==>
        var s := Streamed(Packets(Covered(filesystem.value), 0, PAYLOAD_PACKET), conn.sendSchedule, old(conn.sends));
        r == s.0 && conn.outgoing == old(conn.outgoing) + s.1
    {
      if filesystem.None? {
        return -1;
      }
      var file := new Reader(filesystem.value);
      var length := |file.content| % TWO_32;
      ghost var left := Packets(Covered(file.content), 0, PAYLOAD_PACKET);
      ghost var whole := Streamed(left, conn.sendSchedule, conn.sends);
      ghost var goal := conn.outgoing + whole.1;
      var i := AsInt(length);
      while i > 0
        invariant i > 0 ==> file.position + i == |Covered(file.content)|
        invariant left == if i > 0 then Packets(Covered(file.content), file.position, PAYLOAD_PACKET) else []
        invariant Streamed(left, conn.sendSchedule, conn.sends).0 == whole.0
        invariant conn.outgoing + Streamed(left, conn.sendSchedule, conn.sends).1 == goal
      {
        var size := 1450;
        if i < 1450 {
          size := i;
        }
        NextPiece(file.content, file.position, i, size);
        var data := file.Read(size);
        if |data| != size {
          return -1;
        }
        var sent := SendPiece(data, left);
        if sent < 0 {
          return -1;
        }
        left := left[1..];
        i := i - 1450;
      }
      r := 0;
    }

    /** The first piece of those left. */
    method SendPiece(data: seq<byte>, ghost left: seq<seq<byte>>) returns (r: int)
      requires |data| <= PAYLOAD_PACKET && left != [] && left[0] == data
      modifies conn`outgoing, conn`sends
      ensures r == 0 || r == -1
      ensures var s := Streamed(left, conn.sendSchedule, old(conn.sends));
        if r < 0 then s.0 == r && conn.outgoing == old(conn.outgoing) + s.1
        else
          var rest := Streamed(left[1..], conn.sendSchedule, conn.sends);
          rest.0 == s.0 && conn.outgoing + rest.1 == old(conn.outgoing) + s.1
    {
      Regroup(conn.outgoing, data, Streamed(left[1..], conn.sendSchedule, conn.sends + 1).1);
      r := SendBuffer(data);
    }

    /** restore_send_filesystem from the validation on.  It succeeds only if the packets lead to a Payload
        command; and if they do, every request is within the file, the transport is reliable and the
        file is smaller than 2 GiB, exactly the packet sizes, the slices asked for and the file go out. */
    method SendFilesystem(filesystem: Option<seq<byte>>, packetInfo: seq<byte>) returns (r: int)
      requires |packetInfo| < TWO_32
      modifies this, conn`outgoing, conn`sends
      ensures r == 0 || r == -1
      ensures r == 0 ==> filesystem.Some? && Accepted(old(packets))
      ensures filesystem.Some? && Undisturbed(filesystem.value, old(packets), conn.sendSchedule, old(conn.sends)) ==>
        && r == 0
        && conn.outgoing == old(conn.outgoing) + packetInfo
             + Flatten(Slices(filesystem.value, Requests(old(packets)[..Lead(old(packets))]))) + filesystem.value
    {
      ghost var k := conn.sends;
      ghost var undisturbed := filesystem.Some? && Undisturbed(filesystem.value, packets, conn.sendSchedule, k);
      AcceptedExactly(packets);
      ghost var slices := [];
      if undisturbed {
        slices := AllServed(filesystem.value, packets, conn.sendSchedule, k, |packetInfo|);
      }
      r := PerformValidation(filesystem, packetInfo);
      if r < 0 {
        return -1;
      }
      assert undisturbed ==> conn.outgoing == old(conn.outgoing) + packetInfo + slices;
      if undisturbed {
        AllSent(filesystem.value, conn.sendSchedule, k, conn.sends);
      }
      r := SendPayload(filesystem);
      if r < 0 {
        return -1;
      }
    }
  }

  /** The packets lead validation to a Payload command. */
  predicate Accepted(packets: seq<Packet>) {
    var n := Lead(packets);
    n < |packets| && IsPayload(packets[n]) && Patient(packets[..n])
  }

  lemma {:induction false} AcceptedExactly(packets: seq<Packet>)
    ensures Validated(packets, 0).result == 0 <==> Accepted(packets)
    ensures Accepted(packets) ==> Validated(packets, 0).served == Requests(packets[..Lead(packets)])
  {
    ValidationExactly(packets, 0);
    assert Nulls(0) + packets[..Lead(packets)] == packets[..Lead(packets)];
  }

  lemma {:induction false} AllServed(file: seq<byte>, packets: seq<Packet>, schedule: nat -> nat, k: nat, n: nat)
    returns (slices: seq<byte>)
    requires Undisturbed(file, packets, schedule, k) && n < TWO_32
    ensures Whole(schedule(k), n) && Validated(packets, 0).result == 0
    ensures slices == Replies(file, Validated(packets, 0).served, schedule, k + 1)
    ensures slices == Flatten(Slices(file, Requests(packets[..Lead(packets)])))
  {
    AcceptedExactly(packets);
    RequestsAnswered(file, Requests(packets[..Lead(packets)]), schedule, k + 1);
    slices := Flatten(Slices(file, Requests(packets[..Lead(packets)])));
  }

  lemma {:induction false} AllSent(file: seq<byte>, schedule: nat -> nat, k: nat, m: nat)
    requires |file| < TWO_31 && Reliable(schedule, k) && k <= m
    ensures Streamed(Packets(Covered(file), 0, PAYLOAD_PACKET), schedule, m) == (0, file)
  {
    PayloadExactly(file, schedule, m);
  }

  ghost predicate Undisturbed(file: seq<byte>, packets: seq<Packet>, schedule: nat -> nat, k: nat) {
    && |file| < TWO_31
    && Accepted(packets) && Serviceable(file, Requests(packets[..Lead(packets)]))
    && Reliable(schedule, k)
  }
}
