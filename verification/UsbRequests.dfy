/** The requests that uploads and downloads make of libusb, and the errors they end with. */
module UsbRequests {
  import opened Bytes
  import opened Chunks
  import opened Usb

  /** A request that may follow the first one of an upload. */
  predicate FollowsUp(r: Request, dfu: bool) {
    if dfu then (r.ControlOut? && r.requestType == 0x21 && r.request == 1) || r == ControlIn(0xA1, 3, 6) || r == Reset
    else r.Bulk?
  }

  predicate AllFollowUp(r: seq<Request>, dfu: bool) {
    forall i :: 0 <= i < |r| ==> FollowsUp(r[i], dfu)
  }

  lemma {:induction false} FollowUpSum(a: seq<Request>, b: seq<Request>, dfu: bool)
    requires AllFollowUp(a, dfu) && AllFollowUp(b, dfu)
    ensures AllFollowUp(a + b, dfu)
  {
  }

  lemma {:induction false} CarryingFollows(c: Client, packet: seq<byte>, n: nat)
    ensures AllFollowUp(c.Carrying(packet), c.dfu) && AllFollowUp(c.Cut(packet, n), c.dfu)
  {
    if c.dfu {
      assert FollowsUp(ControlOut(0x21, 1, packet), true) && FollowsUp(ControlIn(0xA1, 3, 6), true);
    }
  }

  lemma {:induction false} UploadFollows(c: Client, packets: seq<seq<byte>>, n: nat)
    ensures AllFollowUp(c.Upload(packets, n).1, c.dfu)
    decreases |packets|
  {
    if packets != [] {
      var made := c.Cut(packets[0], n);
      CarryingFollows(c, packets[0], n);
      UploadFollows(c, packets[1..], n + |made|);
      FollowUpSum(made, c.Upload(packets[1..], n + |made|).1, c.dfu);
    }
  }

  lemma {:induction false} PollsFollow(c: Client, n: nat, k: nat)
    ensures AllFollowUp(c.Polls(n, k), true)
    decreases k
  {
    if k > 0 {
      PollsFollow(c, n + 1, k - 1);
    }
  }

  lemma {:induction false} EndingFollows(c: Client, error: int, notify: bool, n: nat)
    ensures AllFollowUp(c.Ending(error, notify, n).1, c.dfu)
  {
    PollsFollow(c, n + 1, POLLS);
    var polls := c.Polls(n + 1, POLLS);
    assert FollowsUp(ControlOut(0x21, 1, []), true) && FollowsUp(Reset, true);
    FollowUpSum(polls, [Reset], true);
    FollowUpSum([ControlOut(0x21, 1, [])], polls, true);
    FollowUpSum([ControlOut(0x21, 1, [])], polls + [Reset], true);
  }

  lemma {:induction false} InitiatedFollows(c: Client, packets: seq<seq<byte>>, notify: bool, n: nat)
    ensures AllFollowUp(c.Initiated(packets, notify, n).1, c.dfu)
  {
    var body := c.Upload(packets, n);
    var end := c.Ending(body.0, notify, n + |body.1|);
    UploadFollows(c, packets, n);
    EndingFollows(c, body.0, notify, n + |body.1|);
    FollowUpSum(body.1, end.1, c.dfu);
  }

  lemma {:induction false} BehindFirst<T>(first: T, r: seq<T>)
    ensures ([first] + r)[1..] == r && [first] == [first] + []
  {
  }

  /** Every upload begins with the request of its mode, and goes on with the requests of its mode alone:
      in DFU mode packets, status requests and the reset, otherwise bulk transfers. */
  lemma {:induction false} RequestsOfMode(c: Client, packets: seq<seq<byte>>, notify: bool, n: nat)
    ensures var r := c.Sending(packets, notify, n).1;
      && r != [] && r[0] == (if c.dfu then ControlOut(0x21, 4, []) else ControlOut(0x41, 0, []))
      && AllFollowUp(r[1..], c.dfu)
  {
    BehindFirst(c.Initiation(), c.Initiated(packets, notify, n + 1).1);
    BehindFirst(c.Initiation(), []);
    InitiatedFollows(c, packets, notify, n + 1);
  }

  /** The requests that carry packets: packet i with request i, or in DFU mode with request 2 i and a status
      request behind it. */
  lemma {:induction false} CarriageIs(c: Client, packets: seq<seq<byte>>)
    ensures var r := c.Carriage(packets);
      && |r| == (if c.dfu then 2 * |packets| else |packets|)
      && (c.dfu ==> InPairs(packets, r)) && (!c.dfu ==> InBulk(packets, r))
    decreases |packets|
  {
    if packets != [] {
      CarriageIs(c, packets[1..]);
      if c.dfu {
        OnePairMore(packets, c.Carriage(packets[1..]));
      } else {
        OneBulkMore(packets, c.Carriage(packets[1..]));
      }
    }
  }

  predicate InPairs(packets: seq<seq<byte>>, r: seq<Request>) {
    && |r| == 2 * |packets|
    && forall i :: 0 <= i < |packets| ==>
         r[2 * i] == ControlOut(0x21, 1, packets[i]) && r[2 * i + 1] == ControlIn(0xA1, 3, 6)
  }

  predicate InBulk(packets: seq<seq<byte>>, r: seq<Request>) {
    |r| == |packets| && forall i :: 0 <= i < |packets| ==> r[i] == Bulk(packets[i])
  }

  lemma {:induction false} OnePairMore(packets: seq<seq<byte>>, rest: seq<Request>)
    requires packets != [] && InPairs(packets[1..], rest)
    ensures InPairs(packets, [ControlOut(0x21, 1, packets[0]), ControlIn(0xA1, 3, 6)] + rest)
  {
    var r := [ControlOut(0x21, 1, packets[0]), ControlIn(0xA1, 3, 6)] + rest;
    forall i | 0 <= i < |packets|
      ensures r[2 * i] == ControlOut(0x21, 1, packets[i]) && r[2 * i + 1] == ControlIn(0xA1, 3, 6)
    {
      if i > 0 {
        assert packets[i] == packets[1..][i - 1];
        assert r[2 * i] == rest[2 * (i - 1)] && r[2 * i + 1] == rest[2 * (i - 1) + 1];
      }
    }
  }

  lemma {:induction false} OneBulkMore(packets: seq<seq<byte>>, rest: seq<Request>)
    requires packets != [] && InBulk(packets[1..], rest)
    ensures InBulk(packets, [Bulk(packets[0])] + rest)
  {
    assert forall i :: 0 < i < |packets| ==> packets[i] == packets[1..][i - 1];
  }

  lemma {:induction false} AllPolls(c: Client, n: nat)
    requires c.AllPolled(n, 3)
    ensures c.Polls(n, 3) == [ControlIn(0xA1, 3, 6), ControlIn(0xA1, 3, 6), ControlIn(0xA1, 3, 6)]
  {
    var p := ControlIn(0xA1, 3, 6);
    assert HasStatus(c.answers(n)) && HasStatus(c.answers(n + 1)) && HasStatus(c.answers(n + 2));
    assert c.Polls(n + 2, 1) == [p] + c.Polls(n + 3, 0) == [p];
    assert c.Polls(n + 1, 2) == [p] + c.Polls(n + 2, 1) == [p, p];
  }

  /** A successful upload: the first request, the packets, and in DFU mode, where it is asked for, the
      zero-length packet, three status requests and the reset. */
  lemma {:induction false} SuccessfulRequests(c: Client, packets: seq<seq<byte>>, notify: bool, n: nat)
    requires c.Sending(packets, notify, n).0 == 0
    ensures var p := ControlIn(0xA1, 3, 6);
      c.Sending(packets, notify, n).1
        == [if c.dfu then ControlOut(0x21, 4, []) else ControlOut(0x41, 0, [])] + (c.Carriage(packets)
             + (if notify && c.dfu then [ControlOut(0x21, 1, []), p, p, p, Reset] else []))
  {
    c.SendingExactly(packets, notify, n);
    c.UploadExactly(packets, n + 1);
    var m := n + 1 + |c.Upload(packets, n + 1).1|;
    NotificationIs(c, notify, m);
  }

  lemma {:induction false} NotificationIs(c: Client, notify: bool, n: nat)
    ensures var p, end := ControlIn(0xA1, 3, 6), c.Ending(0, notify, n);
      end.0 == 0 ==> end.1 == if notify && c.dfu then [ControlOut(0x21, 1, []), p, p, p, Reset] else []
  {
    if notify && c.dfu && c.AllPolled(n + 1, 3) {
      AllPolls(c, n + 1);
    }
  }

  /** A packet is taken exactly if all of it moves and, in DFU mode, the device then answers with a status
      of 5; what else can happen are the errors -6 and -7, and outside DFU mode that of libusb. */
  lemma {:induction false} TakenExactly(c: Client, packet: seq<byte>, n: nat)
    ensures var a, status, error := c.answers(n), c.answers(n + 1), c.PacketError(packet, n);
      && (!c.dfu ==> (error == 0 <==> a.moved == |packet| && a.code == 0))
      && (c.dfu ==>
           (error == 0 <==> a.code == |packet| && status.code >= 0 && |status.data| >= 6 && status.data[4] == 5))
      && (!c.dfu ==> error == if a.moved == |packet| then a.code else -6)
      && (c.dfu ==> error == 0 || error == -6 || error == -7)
      && (c.dfu ==> (error == -7 <==> a.code == |packet| && (status.code < 0 || |status.data| < 6)))
  {
  }

  /** Packet i is the first that is not taken, the first packet being carried by request n. */
  predicate FirstLost(c: Client, packets: seq<seq<byte>>, n: nat, i: nat) {
    && i < |packets| && c.PacketError(packets[i], n + c.Stride() * i) != 0
    && forall j :: 0 <= j < i ==> c.PacketError(packets[j], n + c.Stride() * j) == 0
  }

  lemma {:induction false} ErrorOfUpload(c: Client, packets: seq<seq<byte>>, n: nat, i: nat)
    requires FirstLost(c, packets, n, i)
    ensures c.Upload(packets, n).0 == c.PacketError(packets[i], n + c.Stride() * i)
    decreases i
  {
    assert n + c.Stride() * 0 == n;
    if i > 0 {
      LostLater(c, packets, n, i);
      assert c.PacketError(packets[0], n + c.Stride() * 0) == 0;
      ErrorOfUpload(c, packets[1..], n + c.Stride(), i - 1);
    }
  }

  lemma {:induction false} LostLater(c: Client, packets: seq<seq<byte>>, n: nat, i: nat)
    requires FirstLost(c, packets, n, i) && i > 0
    ensures FirstLost(c, packets[1..], n + c.Stride(), i - 1)
    ensures packets[1..][i - 1] == packets[i] && n + c.Stride() + c.Stride() * (i - 1) == n + c.Stride() * i
  {
    forall j | 0 <= j < i
      ensures n + c.Stride() + c.Stride() * j == n + c.Stride() * (j + 1) && packets[1..][j] == packets[j + 1]
    {
    }
    forall j | 0 <= j < i - 1
      ensures c.PacketError(packets[1..][j], n + c.Stride() + c.Stride() * j) == 0
    {
      assert c.PacketError(packets[j + 1], n + c.Stride() * (j + 1)) == 0;
    }
  }

  /** The error of an upload: that of its first request if there is one, else that of the first packet that is
      not taken, else -7 if the notification fails. */
  lemma {:induction false} ErrorOfSending(c: Client, packets: seq<seq<byte>>, notify: bool, n: nat)
    ensures var error := c.Sending(packets, notify, n).0;
      && (c.answers(n).code != 0 ==> error == c.answers(n).code)
      && (c.answers(n).code == 0 ==>
        && (forall i: nat :: FirstLost(c, packets, n + 1, i) ==>
              error == c.PacketError(packets[i], n + 1 + c.Stride() * i))
        && (c.AllTaken(packets, n + 1) && error != 0 ==> error == -7 && notify && c.dfu))
  {
    c.UploadExactly(packets, n + 1);
    forall i: nat | FirstLost(c, packets, n + 1, i)
      ensures c.Upload(packets, n + 1).0 == c.PacketError(packets[i], n + 1 + c.Stride() * i)
    {
      ErrorOfUpload(c, packets, n + 1, i);
    }
  }

  // ---------------------------------------------------------------- downloads

  lemma {:induction false} AskingAt(c: Client, sizes: seq<nat>)
    ensures var a := c.Asking(sizes);
      |a| == |sizes| && forall i :: 0 <= i < |a| ==> a[i] == ControlIn(0xA1, 2, sizes[i])
    decreases |sizes|
  {
    if sizes != [] {
      AskingAt(c, sizes[1..]);
      assert forall i :: 0 < i < |sizes| ==> sizes[i] == sizes[1..][i - 1];
    }
  }

  lemma {:induction false} DownloadError(c: Client, sizes: seq<nat>, n: nat)
    ensures c.Download(sizes, n).0 == 0 || c.Download(sizes, n).0 == -6
    decreases |sizes|
  {
    if sizes != [] {
      DownloadError(c, sizes[1..], n + 1);
    }
  }

  /** A download into a buffer asks, request by request, for as many bytes as the packets of the buffer hold,
      2048 in DFU mode and 8192 otherwise, all of them when it succeeds; otherwise the error is -6. */
  lemma {:induction false} DownloadAsks(c: Client, buffer: seq<byte>, n: nat)
    ensures var d := c.Download(Sizes(|buffer|, 0, c.DownloadPacket()), n);
      var p := Packets(buffer, 0, if c.dfu then 0x800 else 0x2000);
      && |d.1| <= |p| && (forall i :: 0 <= i < |d.1| ==> d.1[i] == ControlIn(0xA1, 2, |p[i]|))
      && (d.0 == 0 || d.0 == -6) && (d.0 == 0 ==> |d.1| == |p|)
  {
    var size := c.DownloadPacket();
    var z := Sizes(|buffer|, 0, size);
    SizesOf(buffer, 0, size);
    AskingAt(c, z);
    DownloadError(c, z, n);
    c.DownloadExactly(z, n);
  }
}
