/** Uploads to and downloads from a device in recovery or DFU mode, cut into USB transfers. */
module Usb {
  import opened Bytes
  import opened Chunks

  const SUCCESS: int := 0
  const NO_DEVICE: int := -1
  const USB_UPLOAD: int := -6
  const USB_STATUS: int := -7

  const UPLOAD_PACKET: nat := 0x800
  const POLLS: nat := 3

  /** What libusb is asked to do. */
  datatype Request =
    | ControlOut(requestType: nat, request: nat, data: seq<byte>)
    | ControlIn(requestType: nat, request: nat, size: nat)
    | Bulk(data: seq<byte>)
    | Reset

  /** How it ends: the return value of libusb where that is no byte count of incoming data, the count
      a bulk transfer moved, the data a device-to-host transfer brought. */
  datatype Answer = Answer(code: int, moved: nat, data: seq<byte>)

  /** The return value of a device-to-host control transfer of at most size bytes. */
  function Got(a: Answer, size: nat): (n: int)
    ensures n <= size
    ensures 0 <= n ==> n <= |a.data|
  {
    if a.code < 0 then a.code else Min(|a.data|, size)
  }

  /** irecv_get_status came back with a status. */
  predicate HasStatus(a: Answer) {
    Got(a, 6) == 6
  }

  // ---------------------------------------------------------------- the packets of a buffer

  /** The last of the packets holds last bytes, the others size bytes each. */
  predicate Counted(length: nat, size: nat, packets: nat, last: nat) {
    0 < last <= size && length + size == packets * size + last
  }

  /** The number of packets for a length, and the length of the last one. */
  method Count(length: nat, packetSize: nat) returns (packets: nat, last: nat)
    requires packetSize > 0
    ensures Counted(length, packetSize, packets, last)
  {
    last := length % packetSize;
    packets := length / packetSize;
    if last != 0 {
      packets := packets + 1;
    } else {
      last := packetSize;
    }
  }

  /** The loop over packet numbers visits the offsets below the length, and its packet lengths are
      those of the partition. */
  lemma {:induction false} PacketArithmetic(length: nat, size: nat, packets: nat, last: nat, i: nat)
    requires Counted(length, size, packets, last) && i <= packets
    ensures i < packets <==> i * size < length
    ensures i < packets ==> (if i + 1 < packets then size else last) == Min(i * size + size, length) - i * size
    ensures (i + 1) * size == i * size + size
  {
    Products(size, packets, i);
    Offsets(length, size, packets, last, i, i * size, packets * size);
  }

  lemma {:induction false} Products(size: nat, packets: nat, i: nat)
    requires i <= packets
    ensures (i + 1) * size == i * size + size
    ensures i + 1 == packets ==> i * size + size == packets * size
    ensures i + 1 < packets ==> i * size + 2 * size <= packets * size
  {
    if i + 1 < packets {
      assert packets * size == i * size + (packets - i) * size;
      MultipleAtLeast(packets - i - 1, size);
      assert (packets - i) * size == (packets - i - 1) * size + size;
    }
  }

  lemma {:induction false} Offsets(length: nat, size: nat, packets: nat, last: nat, i: nat, from: nat, all: nat)
    requires 0 < last <= size && length + size == all + last && i <= packets
    requires i == packets ==> from == all
    requires i + 1 == packets ==> from + size == all
    requires i + 1 < packets ==> from + 2 * size <= all
    ensures i < packets <==> from < length
    ensures i < packets ==> (if i + 1 < packets then size else last) == Min(from + size, length) - from
  {
  }

  /** The packet the loop sends in round i is the next one of the partition. */
  lemma {:induction false} PacketsStep(buffer: seq<byte>, size: nat, packets: nat, last: nat, i: nat, from: nat,
                                       next: nat)
    requires Counted(|buffer|, size, packets, last) && i <= packets
    requires from == i * size && next == (i + 1) * size
    ensures i == packets ==> Packets(buffer, from, size) == []
    ensures i < packets ==> var n := if i + 1 < packets then size else last;
      from + n <= |buffer| && Packets(buffer, from, size) == [buffer[from..from + n]] + Packets(buffer, next, size)
  {
    PacketArithmetic(|buffer|, size, packets, last, i);
    if i < packets {
      PacketsUnroll(buffer, from, next, size);
    }
  }

  lemma {:induction false} SizesStep(length: nat, size: nat, packets: nat, last: nat, i: nat, from: nat)
    requires Counted(length, size, packets, last) && i <= packets && from == i * size
    ensures i == packets ==> Sizes(length, from, size) == []
    ensures i < packets ==> var n := if i + 1 < packets then size else last;
      from + n <= length && Sizes(length, from, size) == [n] + Sizes(length, from + size, size)
    ensures (i + 1) * size == from + size
  {
    PacketArithmetic(length, size, packets, last, i);
  }

  // ---------------------------------------------------------------- the client

  class Client {
    const open: bool
    const dfu: bool
    const answers: nat -> Answer  // how the i-th request ends
    var log: seq<Request>

    constructor (open: bool, dfu: bool, answers: nat -> Answer)
      ensures this.open == open && this.dfu == dfu && this.answers == answers && log == []
    {
      this.open, this.dfu, this.answers, log := open, dfu, answers, [];
    }

    method Submit(r: Request) returns (a: Answer)
      modifies this
      ensures log == old(log) + [r] && a == answers(|old(log)|)
    {
      a := answers(|log|);
      log := log + [r];
    }

    /** irecv_get_status: byte 4 of a six-byte answer. */
    method GetStatus() returns (error: int, status: byte)
      requires open
      modifies this
      ensures log == old(log) + [ControlIn(0xA1, 3, 6)]
      ensures error == (if HasStatus(answers(|old(log)|)) then SUCCESS else USB_STATUS)
      ensures status == if error == SUCCESS then answers(|old(log)|).data[4] else 0
    {
      var a := Submit(ControlIn(0xA1, 3, 6));
      if Got(a, 6) != 6 {
        return USB_STATUS, 0;
      }
      return SUCCESS, a.data[4];
    }

    // -------------------------------------------------------------- sending

    /** The requests that bring one packet over. */
    function Carrying(packet: seq<byte>): (r: seq<Request>) {
      if dfu then [ControlOut(0x21, 1, packet), ControlIn(0xA1, 3, 6)] else [Bulk(packet)]
    }

    /** The error of the packet carried by the requests from number n on. */
    function PacketError(packet: seq<byte>, n: nat): (error: int) {
      var a := answers(n);
      if !dfu then if a.moved != |packet| then USB_UPLOAD else a.code
      else if a.code != |packet| then USB_UPLOAD
      else if !HasStatus(answers(n + 1)) then USB_STATUS
      else if answers(n + 1).data[4] != 5 then USB_UPLOAD
      else SUCCESS
    }

    /** The requests that packet needs when it is the last one made, for whatever reason. */
    function Cut(packet: seq<byte>, n: nat): (r: seq<Request>)
      ensures r <= Carrying(packet)
      ensures PacketError(packet, n) == SUCCESS ==> r == Carrying(packet)
    {
      if dfu && answers(n).code != |packet| then [ControlOut(0x21, 1, packet)] else Carrying(packet)
    }

    /** The error and the requests of an upload of packets, the first of them being request n. */
    function Upload(packets: seq<seq<byte>>, n: nat): (r: (int, seq<Request>)) {
      if packets == [] then (SUCCESS, [])
      else
        var error := PacketError(packets[0], n);
        var made := Cut(packets[0], n);
        if error != SUCCESS then (error, made)
        else
          var rest := Upload(packets[1..], n + |made|);
          (rest.0, made + rest.1)
    }

    function Initiation(): Request {
      if dfu then ControlOut(0x21, 4, []) else ControlOut(0x41, 0, [])
    }

    /** The status requests, up to k, from number n on, until one fails. */
    function Polls(n: nat, k: nat): (r: seq<Request>)
      decreases k
    {
      if k == 0 then []
      else if !HasStatus(answers(n)) then [ControlIn(0xA1, 3, 6)]
      else [ControlIn(0xA1, 3, 6)] + Polls(n + 1, k - 1)
    }

    predicate AllPolled(n: nat, k: nat) {
      forall i :: n <= i < n + k ==> HasStatus(answers(i))
    }

    /** Error and requests of the notification that ends a DFU upload. */
    function Notification(n: nat): (r: (int, seq<Request>)) {
      if AllPolled(n + 1, POLLS) then (SUCCESS, [ControlOut(0x21, 1, [])] + (Polls(n + 1, POLLS) + [Reset]))
      else (USB_STATUS, [ControlOut(0x21, 1, [])] + Polls(n + 1, POLLS))
    }

    /** Error and requests of what follows the packet loop, which ended with an error or not. */
    function Ending(error: int, notify: bool, n: nat): (r: (int, seq<Request>)) {
      if error == SUCCESS && notify && dfu then Notification(n) else (error, [])
    }

    /** Error and requests of an irecv_send_buffer of packets whose first request is number n. */
    function Sending(packets: seq<seq<byte>>, notify: bool, n: nat): (r: (int, seq<Request>)) {
      if answers(n).code != SUCCESS then (answers(n).code, [Initiation()])
      else
        var rest := Initiated(packets, notify, n + 1);
        (rest.0, [Initiation()] + rest.1)
    }

    /** Error and requests once the transfer has been initiated. */
    function Initiated(packets: seq<seq<byte>>, notify: bool, n: nat): (r: (int, seq<Request>)) {
      var body := Upload(packets, n);
      var end := Ending(body.0, notify, n + |body.1|);
      (end.0, body.1 + end.1)
    }

    /** One packet of the upload loop. */
    method SendPacket(packet: seq<byte>) returns (error: int)
      requires open
      modifies this
      ensures error == PacketError(packet, |old(log)|)
      ensures log == old(log) + Cut(packet, |old(log)|)
    {
      var bytes: int;
      error := SUCCESS;
      if !dfu {
        var a := Submit(Bulk(packet));
        error, bytes := a.code, a.moved;
      } else {
        var a := Submit(ControlOut(0x21, 1, packet));
        bytes := a.code;
      }
      if bytes != |packet| {
        return USB_UPLOAD;
      }
      var status: byte := 0;
      if dfu {
        error, status := GetStatus();
      }
      if error != SUCCESS {
        return;
      }
      if dfu && status != 5 {
        return USB_UPLOAD;
      }
    }

    /** The first packet of those left. */
    method SendNext(packet: seq<byte>, ghost left: seq<seq<byte>>) returns (error: int)
      requires open && left != [] && left[0] == packet
      modifies this
      ensures var u := Upload(left, |old(log)|);
        if error != SUCCESS then u.0 == error && log == old(log) + u.1
        else
          var rest := Upload(left[1..], |log|);
          u.0 == rest.0 && log + rest.1 == old(log) + u.1
    {
      Regroup(log, Cut(packet, |log|), Upload(left[1..], |log| + |Cut(packet, |log|)|).1);
      error := SendPacket(packet);
    }

    /** The packet loop of irecv_send_buffer. */
    method SendPackets(buffer: seq<byte>) returns (error: int)
      requires open && |buffer| < TWO_31
      modifies this
      ensures var u := Upload(Packets(buffer, 0, UPLOAD_PACKET), |old(log)|); error == u.0 && log == old(log) + u.1
    {
      var packetSize := UPLOAD_PACKET;
      var packets, last := Count(|buffer|, packetSize);
      error := SUCCESS;
      ghost var left := Packets(buffer, 0, packetSize);
      ghost var whole := Upload(left, |log|);
      ghost var goal := log + whole.1;
      for i := 0 to packets
        invariant left == Packets(buffer, i * packetSize, packetSize)
        invariant Upload(left, |log|).0 == whole.0 && log + Upload(left, |log|).1 == goal
        invariant error == SUCCESS
      {
        PacketsStep(buffer, packetSize, packets, last, i, i * packetSize, (i + 1) * packetSize);
        var size := if i + 1 < packets then packetSize else last;
        var packet := buffer[i * packetSize..i * packetSize + size];
        error := SendNext(packet, left);
        if error != SUCCESS {
          return;
        }
        left := left[1..];
      }
      PacketsStep(buffer, packetSize, packets, last, packets, packets * packetSize, (packets + 1) * packetSize);
    }

    /** irecv_send_buffer. */
    method SendBuffer(buffer: seq<byte>, dfuNotifyFinished: bool) returns (error: int)
      requires |buffer| < TWO_31
      modifies this
      ensures !open ==> error == -1 && log == old(log)
      ensures open ==> var s := Sending(Packets(buffer, 0, UPLOAD_PACKET), dfuNotifyFinished, |old(log)|);
        error == s.0 && log == old(log) + s.1
    {
      if !open {
        return NO_DEVICE;
      }
      var a := Submit(Initiation());
      if a.code != SUCCESS {
        return a.code;
      }
      Regroup(old(log), [Initiation()], Initiated(Packets(buffer, 0, UPLOAD_PACKET), dfuNotifyFinished, |log|).1);
      error := SendInitiated(buffer, dfuNotifyFinished);
    }

    /** irecv_send_buffer once the transfer has been initiated. */
    method SendInitiated(buffer: seq<byte>, dfuNotifyFinished: bool) returns (error: int)
      requires open && |buffer| < TWO_31
      modifies this
      ensures var s := Initiated(Packets(buffer, 0, UPLOAD_PACKET), dfuNotifyFinished, |old(log)|);
        error == s.0 && log == old(log) + s.1
    {
      ghost var body := Upload(Packets(buffer, 0, UPLOAD_PACKET), |log|);
      Regroup(log, body.1, Ending(body.0, dfuNotifyFinished, |log| + |body.1|).1);
      error := SendPackets(buffer);
      if error != SUCCESS {
        return;
      }
      if dfuNotifyFinished && dfu {
        error := Notify();
      }
    }

    /** The zero-length packet, three status requests and the reset. */
    method Notify() returns (error: int)
      requires open
      modifies this
      ensures var s := Notification(|old(log)|); error == s.0 && log == old(log) + s.1
    {
      var out := ControlOut(0x21, 1, []);
      ghost var polls := Polls(|log| + 1, POLLS);
      Chained(log, [out], polls, [Reset]);
      Regroup(log, [out], polls);
      var _ := Submit(out);
      error := Poll(POLLS);
      if error == SUCCESS {
        var _ := Submit(Reset);
      }
    }

    /** Status requests until one fails, at most k. */
    method Poll(k: nat) returns (error: int)
      requires open
      modifies this
      ensures error == if AllPolled(|old(log)|, k) then SUCCESS else USB_STATUS
      ensures log == old(log) + Polls(|old(log)|, k)
    {
      ghost var n := |log|;
      ghost var goal := log + Polls(n, k);
      for i := 0 to k
        invariant |log| == n + i && AllPolled(n, i)
        invariant log + Polls(n + i, k - i) == goal
      {
        var status;
        Regroup(log, [ControlIn(0xA1, 3, 6)], Polls(n + i + 1, k - i - 1));
        error, status := GetStatus();
        if error != SUCCESS {
          assert !HasStatus(answers(n + i));
          return;
        }
      }
      error := SUCCESS;
    }

    /** The requests of an upload of packets that all go through. */
    function Carriage(packets: seq<seq<byte>>): seq<Request> {
      if packets == [] then [] else Carrying(packets[0]) + Carriage(packets[1..])
    }

    /** An upload reports no error if and only if every packet is taken, and then has made exactly the
        requests that carry the packets. */
    lemma {:induction false} UploadExactly(packets: seq<seq<byte>>, n: nat)
      ensures Upload(packets, n).0 == SUCCESS <==> AllTaken(packets, n)
      ensures Upload(packets, n).0 == SUCCESS ==> Upload(packets, n).1 == Carriage(packets)
    {
      if packets == [] {
      } else {
        FirstTaken(packets, n);
        if PacketError(packets[0], n) == SUCCESS {
          AllTakenStep(packets, n);
          UploadExactly(packets[1..], n + Stride());
        }
      }
    }

    lemma {:induction false} FirstTaken(packets: seq<seq<byte>>, n: nat)
      requires packets != []
      ensures AllTaken(packets, n) ==> PacketError(packets[0], n) == SUCCESS
    {
      assert n + Stride() * 0 == n;
    }

    /** Wherever it stops, an upload has carried a prefix of the packets. */
    lemma {:induction false} UploadPrefix(packets: seq<seq<byte>>, n: nat)
      requires NoneEmpty(packets)
      ensures Carried(Upload(packets, n).1) <= packets
    {
      if packets == [] {
      } else {
        var made := Cut(packets[0], n);
        CarriedByOne(packets[0], made);
        if PacketError(packets[0], n) == SUCCESS {
          UploadPrefix(packets[1..], n + |made|);
          UploadCarries(packets, n);
          PrefixOfMore(packets, Carried(Upload(packets[1..], n + |made|).1));
        } else {
          PrefixOfMore(packets, []);
        }
      }
    }

    lemma {:induction false} UploadCarries(packets: seq<seq<byte>>, n: nat)
      requires packets != [] && PacketError(packets[0], n) == SUCCESS
      ensures var made := Cut(packets[0], n);
        Carried(Upload(packets, n).1) == Carried(made) + Carried(Upload(packets[1..], n + |made|).1)
    {
      var made := Cut(packets[0], n);
      CarriedOfSum(made, Upload(packets[1..], n + |made|).1);
    }

    lemma {:induction false} CarriageCarries(packets: seq<seq<byte>>)
      requires NoneEmpty(packets)
      ensures Carried(Carriage(packets)) == packets
    {
      if packets == [] {
      } else {
        CarriedByOne(packets[0], Carrying(packets[0]));
        CarriageCarries(packets[1..]);
        CarriedOfSum(Carrying(packets[0]), Carriage(packets[1..]));
      }
    }

    lemma {:induction false} CarriageAt(packets: seq<seq<byte>>)
      ensures CarriedBy(packets, Carriage(packets)) && |Carriage(packets)| == Stride() * |packets|
    {
      if packets == [] {
      } else {
        CarriageAt(packets[1..]);
        CarriedByStep(packets, Carriage(packets[1..]));
      }
    }

    /** How many requests a packet takes. */
    function Stride(): nat {
      if dfu then 2 else 1
    }

    /** Packet i goes through with the requests it gets when all packets before it did. */
    predicate AllTaken(packets: seq<seq<byte>>, n: nat) {
      forall i :: 0 <= i < |packets| ==> PacketError(packets[i], n + Stride() * i) == SUCCESS
    }

    lemma {:induction false} AllTakenStep(packets: seq<seq<byte>>, n: nat)
      requires packets != [] && PacketError(packets[0], n) == SUCCESS
      ensures AllTaken(packets, n) <==> AllTaken(packets[1..], n + Stride())
    {
      assert forall i :: 0 <= i < |packets| - 1 ==> n + Stride() * (i + 1) == n + Stride() + Stride() * i;
      if AllTaken(packets[1..], n + Stride()) {
        forall i | 0 < i < |packets|
          ensures PacketError(packets[i], n + Stride() * i) == SUCCESS
        {
          assert packets[i] == packets[1..][i - 1];
        }
      }
    }

    /** In the requests r, packet i is carried by request stride i and, in DFU mode, the status request
        right after it. */
    predicate CarriedBy(packets: seq<seq<byte>>, r: seq<Request>) {
      && Stride() * |packets| <= |r|
      && forall i {:trigger packets[i]} :: 0 <= i < |packets| ==>
           r[Stride() * i..Stride() * i + Stride()] == Carrying(packets[i])
    }

    lemma {:induction false} CarriedByStep(packets: seq<seq<byte>>, rest: seq<Request>)
      requires packets != [] && CarriedBy(packets[1..], rest)
      ensures CarriedBy(packets, Carrying(packets[0]) + rest)
    {
      var r := Carrying(packets[0]) + rest;
      forall i | 0 <= i < |packets|
        ensures r[Stride() * i..Stride() * i + Stride()] == Carrying(packets[i])
      {
        if i > 0 {
          assert packets[i] == packets[1..][i - 1];
          assert r[Stride() * i..Stride() * i + Stride()] == rest[Stride() * (i - 1)..Stride() * (i - 1) + Stride()];
        }
      }
    }

    lemma {:induction false} CarriedByOne(packet: seq<byte>, made: seq<Request>)
      requires |packet| > 0 && made != [] && made <= Carrying(packet)
      ensures Carried(made) == [packet]
    {
      assert Carried(made[1..]) == [];
    }

    /** The notification sends no data, and fails if and only if one of its status requests does. */
    lemma {:induction false} EndingCarriesNothing(error: int, notify: bool, n: nat)
      ensures Carried(Ending(error, notify, n).1) == []
      ensures Ending(error, notify, n).0 == SUCCESS
        <==> error == SUCCESS && (notify && dfu ==> AllPolled(n + 1, POLLS))
    {
      var out, polls := [ControlOut(0x21, 1, [])], Polls(n + 1, POLLS);
      PollsCarryNothing(n + 1, POLLS);
      assert Carried(out) == [] && Carried([Reset]) == [];
      CarriedOfSum(out, polls);
      CarriedOfSum(polls, [Reset]);
      CarriedOfSum(out, polls + [Reset]);
    }

    lemma {:induction false} PollsCarryNothing(n: nat, k: nat)
      ensures Carried(Polls(n, k)) == []
      decreases k
    {
      if k == 0 {
      } else {
        PollsCarryNothing(n + 1, k - 1);
        assert Polls(n, k)[1..] == [] || Polls(n, k)[1..] == Polls(n + 1, k - 1);
      }
    }

    /** Everything that has to go right in an upload. */
    predicate Smooth(packets: seq<seq<byte>>, notify: bool, n: nat) {
      && answers(n).code == SUCCESS
      && AllTaken(packets, n + 1)
      && (notify && dfu ==> AllPolled(n + 2 + Stride() * |packets|, POLLS))
    }

    /** The data that irecv_send_buffer sends, however it ends, are the packets from the first one on,
        one after another. */
    lemma {:induction false} SendingPrefix(packets: seq<seq<byte>>, notify: bool, n: nat)
      requires NoneEmpty(packets)
      ensures Carried(Sending(packets, notify, n).1) <= packets
    {
      AfterInitiation([]);
      assert [Initiation()] + [] == [Initiation()];
      UploadPrefix(packets, n + 1);
      if answers(n).code == SUCCESS {
        SendingCarries(packets, notify, n);
      }
    }

    lemma {:induction false} SendingCarries(packets: seq<seq<byte>>, notify: bool, n: nat)
      requires answers(n).code == SUCCESS
      ensures Carried(Sending(packets, notify, n).1) == Carried(Upload(packets, n + 1).1)
    {
      InitiatedCarries(packets, notify, n + 1);
      AfterInitiation(Initiated(packets, notify, n + 1).1);
    }

    lemma {:induction false} InitiatedCarries(packets: seq<seq<byte>>, notify: bool, n: nat)
      ensures Carried(Initiated(packets, notify, n).1) == Carried(Upload(packets, n).1)
    {
      var body := Upload(packets, n);
      EndingCarriesNothing(body.0, notify, n + |body.1|);
      CarriedFront(body.1, Ending(body.0, notify, n + |body.1|).1);
    }

    lemma {:induction false} AfterInitiation(r: seq<Request>)
      ensures Carried([Initiation()] + r) == Carried(r)
    {
      assert ([Initiation()] + r)[1..] == r;
    }

    /** irecv_send_buffer reports no error if and only if all goes right. */
    lemma {:induction false} SendingExactly(packets: seq<seq<byte>>, notify: bool, n: nat)
      ensures Sending(packets, notify, n).0 == SUCCESS <==> Smooth(packets, notify, n)
    {
      UploadExactly(packets, n + 1);
      CarriageAt(packets);
      EndingCarriesNothing(Upload(packets, n + 1).0, notify, n + 1 + |Upload(packets, n + 1).1|);
    }

    /** When the packet loop runs to its end all packets are sent, even if the notification fails. */
    lemma {:induction false} SendingWhole(packets: seq<seq<byte>>, notify: bool, n: nat)
      requires NoneEmpty(packets)
      requires answers(n).code == SUCCESS && AllTaken(packets, n + 1)
      ensures var r := Sending(packets, notify, n).1;
        Carried(r) == packets && [Initiation()] + Carriage(packets) <= r
    {
      UploadExactly(packets, n + 1);
      CarriageCarries(packets);
      SendingCarries(packets, notify, n);
    }

    /** A successful upload sends every packet once, in order, each followed in DFU mode by a status
        request that is answered with 5. */
    lemma {:induction false} SuccessfulUpload(packets: seq<seq<byte>>, notify: bool, n: nat)
      requires NoneEmpty(packets)
      requires Sending(packets, notify, n).0 == SUCCESS
      ensures var r := Sending(packets, notify, n).1;
        Carried(r) == packets && r != [] && CarriedBy(packets, r[1..])
      ensures dfu ==> forall i :: 0 <= i < |packets| ==> Acknowledged(n + 2 + 2 * i)
    {
      var r := Sending(packets, notify, n).1;
      SendingExactly(packets, notify, n);
      SendingWhole(packets, notify, n);
      CarriageAt(packets);
      CarriedByMore(packets, Carriage(packets), r[1..]);
      if dfu {
        forall i | 0 <= i < |packets|
          ensures Acknowledged(n + 2 + 2 * i)
        {
          TakenAcknowledged(packets, n + 1, i);
        }
      }
    }

    /** irecv_send_buffer of any buffer: the packets sent, put together, are a prefix of the buffer, and
        no packet is empty or longer than 2048 bytes; on success they are the whole buffer in
        ceil(length / 2048) packets. */
    lemma {:induction false} UploadOfBuffer(buffer: seq<byte>, notify: bool, n: nat)
      ensures var s := Sending(Packets(buffer, 0, UPLOAD_PACKET), notify, n);
        && Flatten(Carried(s.1)) <= buffer
        && (forall p <- Carried(s.1) :: 0 < |p| <= 2048)
        && (s.0 == SUCCESS ==> Flatten(Carried(s.1)) == buffer && |Carried(s.1)| == CeilDiv(|buffer|, 2048))
    {
      var p := Packets(buffer, 0, UPLOAD_PACKET);
      PacketsOf(buffer, 0, UPLOAD_PACKET);
      assert buffer[0..] == buffer;
      SendingPrefix(p, notify, n);
      var sent := Carried(Sending(p, notify, n).1);
      FlattenPrefix(sent, p);
      if Sending(p, notify, n).0 == SUCCESS {
        SuccessfulUpload(p, notify, n);
      }
    }

    lemma {:induction false} TakenAcknowledged(p: seq<seq<byte>>, n: nat, i: nat)
      requires dfu && AllTaken(p, n) && i < |p|
      ensures Acknowledged(n + 1 + 2 * i)
    {
      assert PacketError(p[i], n + Stride() * i) == SUCCESS;
    }

    /** Answer number m is the status 5. */
    predicate Acknowledged(m: nat) {
      HasStatus(answers(m)) && answers(m).data[4] == 5
    }

    lemma {:induction false} CarriedByMore(packets: seq<seq<byte>>, a: seq<Request>, r: seq<Request>)
      requires CarriedBy(packets, a) && a <= r
      ensures CarriedBy(packets, r)
    {
      forall i | 0 <= i < |packets|
        ensures r[Stride() * i..Stride() * i + Stride()] == Carrying(packets[i])
      {
        assert Stride() * i + Stride() <= Stride() * |packets|;
        assert r[Stride() * i..Stride() * i + Stride()] == a[Stride() * i..Stride() * i + Stride()];
      }
    }

    // -------------------------------------------------------------- receiving

    /** Error, requests and received data of downloads of the given sizes from request n on. */
    function Download(sizes: seq<nat>, n: nat): (r: (int, seq<Request>, seq<byte>))
      ensures |r.2| <= Sum(sizes)
    {
      if sizes == [] then (SUCCESS, [], [])
      else
        var got := Got(answers(n), sizes[0]);
        var data := if got < 0 then [] else answers(n).data[..got];
        var request := ControlIn(0xA1, 2, sizes[0]);
        if got != sizes[0] then (USB_UPLOAD, [request], data)
        else
          var rest := Download(sizes[1..], n + 1);
          (rest.0, [request] + rest.1, data + rest.2)
    }

    function DownloadPacket(): nat {
      if dfu then 0x800 else 0x2000
    }

    /** A device-to-host control transfer into the buffer behind what has been filled in. */
    method Fetch(buffer: array<byte>, off: nat, size: nat, ghost filled: seq<byte>, ghost was: seq<byte>)
      returns (bytes: int, ghost data: seq<byte>)
      requires off + size <= buffer.Length == |was| && off == |filled|
      requires buffer[..] == filled + was[off..]
      modifies this, buffer
      ensures log == old(log) + [ControlIn(0xA1, 2, size)] && bytes == Got(answers(|old(log)|), size)
      ensures data == if bytes < 0 then [] else answers(|old(log)|).data[..bytes]
      ensures buffer[..] == (filled + data) + was[|filled + data|..]
    {
      var a := Submit(ControlIn(0xA1, 2, size));
      bytes := Got(a, size);
      data := [];
      if bytes >= 0 {
        data := a.data[..bytes];
        forall i | 0 <= i < bytes {
          buffer[off + i] := a.data[i];
        }
      }
    }

    /** What the download loop keeps: the state reached, completed by the download of the sizes left,
        is the state the download of all sizes leads to. */
    ghost predicate OnTheWay(left: seq<nat>, filled: seq<byte>, whole: (int, seq<Request>, seq<byte>))
      reads this
    {
      var rest := Download(left, |log|);
      rest.0 == whole.0 && log + rest.1 == whole.1 && filled + rest.2 == whole.2
    }

    /** One packet of the download loop, the first one left. */
    method RecvPacket(buffer: array<byte>, off: nat, ghost left: seq<nat>, size: nat, ghost before: seq<byte>,
                      ghost was: seq<byte>, ghost whole: (int, seq<Request>, seq<byte>))
      returns (bytes: int, ghost filled: seq<byte>)
      requires off + size <= buffer.Length == |was| && off == |before|
      requires buffer[..] == before + was[off..] && left != [] && left[0] == size && OnTheWay(left, before, whole)
      modifies this, buffer
      ensures off <= |filled| <= off + size && buffer[..] == filled + was[|filled|..]
      ensures bytes == size ==> |filled| == off + size && OnTheWay(left[1..], filled, whole)
      ensures bytes != size ==> whole == (USB_UPLOAD, log, filled)
    {
      ghost var rest := Download(left[1..], |log| + 1);
      Regroup(log, [ControlIn(0xA1, 2, size)], rest.1);
      ghost var data;
      bytes, data := Fetch(buffer, off, size, before, was);
      Regroup(before, data, rest.2);
      filled := before + data;
    }

    /** irecv_recv_buffer. */
    method RecvBuffer(buffer: array<byte>) returns (error: int)
      requires buffer.Length < TWO_31
      modifies this, buffer
      ensures !open ==> error == -1 && log == old(log) && buffer[..] == old(buffer[..])
      ensures open ==> var d := Download(Sizes(buffer.Length, 0, DownloadPacket()), |old(log)|);
        && error == d.0 && log == old(log) + d.1
        && |d.2| <= buffer.Length && buffer[..] == d.2 + old(buffer[..])[|d.2|..]
    {
      SizesSum(buffer.Length, 0, DownloadPacket());
      if !open {
        return NO_DEVICE;
      }
      error := RecvPackets(buffer, DownloadPacket());
    }

    /** The packet loop of irecv_recv_buffer. */
    method RecvPackets(buffer: array<byte>, packetSize: nat) returns (error: int)
      requires open && packetSize > 0
      modifies this, buffer
      ensures var d := Download(Sizes(buffer.Length, 0, packetSize), |old(log)|);
        && error == d.0 && log == old(log) + d.1
        && |d.2| <= buffer.Length && buffer[..] == d.2 + old(buffer[..])[|d.2|..]
    {
      var length := buffer.Length;
      var packets, last := Count(length, packetSize);
      error := SUCCESS;
      ghost var left := Sizes(length, 0, packetSize);
      ghost var whole := Download(left, |log|);
      whole := (whole.0, log + whole.1, whole.2);
      ghost var was, filled := buffer[..], [];
      var from := 0;
      for i := 0 to packets
        invariant from == i * packetSize && left == Sizes(length, from, packetSize) && OnTheWay(left, filled, whole)
        invariant |filled| <= length && (i < packets ==> |filled| == from)
        invariant buffer[..] == filled + was[|filled|..]
        invariant error == SUCCESS
      {
        SizesStep(length, packetSize, packets, last, i, from);
        var size := if i + 1 < packets then packetSize else last;
        var bytes;
        bytes, filled := RecvPacket(buffer, from, left, size, filled, was, whole);
        if bytes != size {
          return USB_UPLOAD;
        }
        left, from := left[1..], from + packetSize;
      }
      SizesStep(length, packetSize, packets, last, packets, from);
      AllCame(filled, whole);
    }

    lemma {:induction false} AllCame(filled: seq<byte>, whole: (int, seq<Request>, seq<byte>))
      requires OnTheWay([], filled, whole)
      ensures whole == (SUCCESS, log, filled)
    {
      assert log + [] == log && filled + [] == filled;
    }

    /** A download reports no error if and only if every request brings all it asks for; only then
        are all requests made and all bytes of the buffer filled. */
    lemma {:induction false} DownloadExactly(sizes: seq<nat>, n: nat)
      requires forall i :: 0 <= i < |sizes| ==> sizes[i] > 0
      ensures var d := Download(sizes, n);
        && (d.0 == SUCCESS <==> AllFull(sizes, n))
        && (d.0 == SUCCESS <==> |d.2| == Sum(sizes))
        && (d.0 == SUCCESS ==> d.1 == Asking(sizes))
        && d.1 <= Asking(sizes)
    {
      if sizes == [] {
      } else {
        DownloadExactly(sizes[1..], n + 1);
        AllFullStep(sizes, n);
      }
    }

    function Asking(sizes: seq<nat>): seq<Request> {
      if sizes == [] then [] else [ControlIn(0xA1, 2, sizes[0])] + Asking(sizes[1..])
    }

    predicate AllFull(sizes: seq<nat>, n: nat) {
      forall i :: 0 <= i < |sizes| ==> Got(answers(n + i), sizes[i]) == sizes[i]
    }

    lemma {:induction false} AllFullStep(sizes: seq<nat>, n: nat)
      requires sizes != []
      ensures AllFull(sizes, n) <==> Got(answers(n), sizes[0]) == sizes[0] && AllFull(sizes[1..], n + 1)
    {
      assert Got(answers(n), sizes[0]) == Got(answers(n + 0), sizes[0]);
      assert forall i :: 0 < i < |sizes| ==> sizes[i] == sizes[1..][i - 1] && n + i == n + 1 + (i - 1);
      if Got(answers(n), sizes[0]) == sizes[0] && AllFull(sizes[1..], n + 1) {
        forall i | 0 <= i < |sizes|
          ensures Got(answers(n + i), sizes[i]) == sizes[i]
        {
          if i > 0 {
            assert Got(answers(n + 1 + (i - 1)), sizes[1..][i - 1]) == sizes[1..][i - 1];
          }
        }
      }
      if AllFull(sizes, n) {
        forall i | 0 <= i < |sizes| - 1
          ensures Got(answers(n + 1 + i), sizes[1..][i]) == sizes[1..][i]
        {
          assert Got(answers(n + (i + 1)), sizes[i + 1]) == sizes[i + 1];
        }
      }
    }

    predicate Delivers(request: nat, packet: seq<byte>) {
      answers(request).code >= 0 && answers(request).data == packet
    }

    /** The device answers request n + i with packet i. */
    predicate HandsOut(packets: seq<seq<byte>>, n: nat) {
      forall i :: 0 <= i < |packets| ==> Delivers(n + i, packets[i])
    }

    lemma {:induction false} DownloadPackets(packets: seq<seq<byte>>, sizes: seq<nat>, n: nat)
      requires |sizes| == |packets| && HandsOut(packets, n)
      requires forall i :: 0 <= i < |packets| ==> sizes[i] == |packets[i]| > 0
      ensures var d := Download(sizes, n); d.0 == SUCCESS && d.2 == Flatten(packets)
      decreases |packets|
    {
      if packets != [] {
        assert Delivers(n + 0, packets[0]);
        HandsOutRest(packets, n);
        DownloadPackets(packets[1..], sizes[1..], n + 1);
      }
    }

    lemma {:induction false} HandsOutRest(packets: seq<seq<byte>>, n: nat)
      requires packets != [] && HandsOut(packets, n)
      ensures HandsOut(packets[1..], n + 1)
    {
      forall i | 0 <= i < |packets| - 1
        ensures Delivers(n + 1 + i, packets[1..][i])
      {
        assert Delivers(n + (i + 1), packets[i + 1]);
      }
    }

    /** The buffer is filled by the partition the upload cuts a buffer into: a device that hands out the
        packets of a file leaves the file in the buffer. */
    lemma {:induction false} DownloadOf(file: seq<byte>, size: nat, n: nat)
      requires size > 0 && HandsOut(Packets(file, 0, size), n)
      ensures var d := Download(Sizes(|file|, 0, size), n); d.0 == SUCCESS && d.2 == file
    {
      SizesOf(file, 0, size);
      PacketsOf(file, 0, size);
      assert file[0..] == file;
      DownloadPackets(Packets(file, 0, size), Sizes(|file|, 0, size), n);
    }
  }

  lemma {:induction false} PrefixOfMore(packets: seq<seq<byte>>, front: seq<seq<byte>>)
    requires packets != [] && front <= packets[1..]
    ensures [packets[0]] + front <= packets
  {
  }

  predicate NoneEmpty(packets: seq<seq<byte>>) {
    forall i :: 0 <= i < |packets| ==> |packets[i]| > 0
  }

  /** The data of a request, if it carries some. */
  function Data(r: Request): (d: seq<seq<byte>>) {
    match r
    case Bulk(data) => [data]
    case ControlOut(_, _, data) => if data == [] then [] else [data]
    case _ => []
  }

  function Carried(r: seq<Request>): seq<seq<byte>> {
    if r == [] then [] else Data(r[0]) + Carried(r[1..])
  }

  lemma {:induction false} CarriedFront(body: seq<Request>, end: seq<Request>)
    requires Carried(end) == []
    ensures Carried(body + end) == Carried(body)
  {
    CarriedOfSum(body, end);
  }

  lemma {:induction false} CarriedOfSum(a: seq<Request>, b: seq<Request>)
    ensures Carried(a + b) == Carried(a) + Carried(b)
  {
    if a == [] {
      assert a + b == b;
    } else {
      CarriedOfSum(a[1..], b);
      assert (a + b)[1..] == a[1..] + b;
      Regroup(Data(a[0]), Carried(a[1..]), Carried(b));
    }
  }
}
