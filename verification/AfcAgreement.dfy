/** The same open, write and close requests through both AFC encoders, and the same replies through both
    decoders. */
module AfcAgreement {
  import opened Bytes
  import opened Chunks
  import opened Options
  import opened Transport
  import opened AfcFrame
  import opened AfcClient
  import opened AfcRuby
  import opened AfcStrings

  /** A request as both clients offer it; paths carry no NUL. */
  datatype Call = Open(path: seq<byte>, mode: nat) | Write(handle: nat, data: seq<byte>) | Close(handle: nat)

  function OpenBody(c: Call): seq<byte>
    requires c.Open?
  {
    Le64(c.mode) + c.path + [0]
  }

  /** The frames afc_file_write sends, the last packet having had number num. */
  function WriteFrames(handle: nat, data: seq<byte>, num: nat): (s: seq<byte>)
    decreases |data|
  {
    if data == [] then []
    else
      var n := Min(MAXIMUM_WRITE_SIZE, |data|);
      Frame(Packet(HEADER_SIZE + 8 + n, HEADER_SIZE + 8, num + 1, OP_WRITE), Le64(handle) + data[..n])
        + WriteFrames(handle, data[n..], num + 1)
  }

  function Segments(n: nat): nat {
    (n + MAXIMUM_WRITE_SIZE - 1) / MAXIMUM_WRITE_SIZE
  }

  /** Packet numbers a request uses up. */
  function Used(c: Call): (n: nat) {
    match c
    case Open(_, _) => 1
    case Write(h, data) => if h == 0 then 0 else Segments(|data|)
    case Close(h) => if h == 0 then 0 else 1
  }

  /** The bytes the C client puts on the wire for a request. */
  function CBytes(c: Call, num: nat): (s: seq<byte>) {
    match c
    case Open(path, mode) =>
      var n := HEADER_SIZE + |OpenBody(c)|;
      Frame(Packet(n, n, num + 1, OP_FILE_OPEN), OpenBody(c))
    case Write(h, data) => if h == 0 then [] else WriteFrames(h, data, num)
    case Close(h) =>
      if h == 0 then [] else Frame(Packet(HEADER_SIZE + 8, HEADER_SIZE + 8, num + 1, OP_FILE_CLOSE), Le64(h))
  }

  /** And the Ruby client. */
  function RubyBytes(c: Call, num: nat): (s: seq<byte>) {
    match c
    case Open(path, mode) => FrameString(num + 1, 0x0D, Packed(mode) + path + [0], |path| + 49)
    case Write(h, data) => FrameString(num + 1, 0x10, Packed(h) + data, 48)
    case Close(h) => FrameString(num + 1, 0x14, Packed(h), 48)
  }

  function CStream(calls: seq<Call>, num: nat): (s: seq<byte>)
    decreases |calls|
  {
    if calls == [] then [] else CBytes(calls[0], num) + CStream(calls[1..], num + Used(calls[0]))
  }

  function RubyStream(calls: seq<Call>, num: nat): (s: seq<byte>)
    decreases |calls|
  {
    if calls == [] then [] else RubyBytes(calls[0], num) + RubyStream(calls[1..], num + 1)
  }

  /** Values that fit the 32-bit halves Ruby packs. */
  predicate Packable(c: Call) {
    match c
    case Open(path, mode) => mode < TWO_32 && |path| + 49 < TWO_32
    case Write(h, data) => h < TWO_32 && |data| + 48 < TWO_32
    case Close(h) => h < TWO_32
  }

  /** The C client sends exactly one frame: it refuses handle 0, sends nothing for an empty write
      and cuts a write longer than 2^15 bytes. */
  predicate SingleFrame(c: Call) {
    match c
    case Open(_, _) => true
    case Write(h, data) => h != 0 && 0 < |data| <= MAXIMUM_WRITE_SIZE
    case Close(h) => h != 0
  }

  predicate AllPackable(calls: seq<Call>) {
    calls == [] || (Packable(calls[0]) && AllPackable(calls[1..]))
  }

  predicate AllSingleFrame(calls: seq<Call>) {
    calls == [] || (SingleFrame(calls[0]) && AllSingleFrame(calls[1..]))
  }

  lemma {:induction false} RubyOpen(path: seq<byte>, mode: nat, num: nat)
    requires Packable(Open(path, mode)) && num + 1 < TWO_32
    ensures RubyBytes(Open(path, mode), num) == CBytes(Open(path, mode), num)
  {
    PackedIsLong(mode);
    FrameStringIsFrame(num + 1, 0x0D, Le64(mode) + path + [0], |path| + 49);
  }

  lemma {:induction false} RubyWrite(h: nat, data: seq<byte>, num: nat)
    requires Packable(Write(h, data)) && num + 1 < TWO_32
    ensures RubyBytes(Write(h, data), num)
         == Frame(Packet(HEADER_SIZE + 8 + |data|, HEADER_SIZE + 8, num + 1, OP_WRITE), Le64(h) + data)
  {
    PackedIsLong(h);
    FrameStringIsFrame(num + 1, 0x10, Le64(h) + data, 48);
  }

  lemma {:induction false} RubyClose(h: nat, num: nat)
    requires Packable(Close(h)) && num + 1 < TWO_32
    ensures RubyBytes(Close(h), num) == Frame(Packet(HEADER_SIZE + 8, HEADER_SIZE + 8, num + 1, OP_FILE_CLOSE), Le64(h))
  {
    PackedIsLong(h);
    FrameStringIsFrame(num + 1, 0x14, Le64(h), 48);
  }

  lemma {:induction false} OneSegment(h: nat, data: seq<byte>, num: nat)
    requires 0 < |data| <= MAXIMUM_WRITE_SIZE
    ensures WriteFrames(h, data, num)
        == Frame(Packet(HEADER_SIZE + 8 + |data|, HEADER_SIZE + 8, num + 1, OP_WRITE), Le64(h) + data)
  {
    assert data[..|data|] == data && data[|data|..] == [];
    assert WriteFrames(h, [], num + 1) == [];
  }

  /** On single-frame requests the encoders agree and use the same number. */
  lemma {:induction false} SameBytes(c: Call, num: nat)
    requires Packable(c) && SingleFrame(c) && num + 1 < TWO_32
    ensures CBytes(c, num) == RubyBytes(c, num) && Used(c) == 1
  {
    match c
    case Open(path, mode) => RubyOpen(path, mode, num);
    case Write(h, data) =>
      RubyWrite(h, data, num);
      OneSegment(h, data, num);
    case Close(h) => RubyClose(h, num);
  }

  // ---------------------------------------------------------------- the first frame of a stream

  /** Operation, total length and the eight bytes behind the header of the frame in front. */
  datatype Front = Front(operation: seq<byte>, entire: seq<byte>, first: seq<byte>)

  function FrontOf(s: seq<byte>): Front
    requires |s| >= 48
  {
    Front(s[32..40], s[8..16], s[40..48])
  }

  lemma {:induction false} FrameFront(p: Packet, body: seq<byte>, rest: seq<byte>)
    requires |body| >= 8
    ensures FrontOf(Frame(p, body) + rest) == Front(Le64(p.operation), Le64(p.entireLength), body[..8])
  {
    HeaderWords(p);
    FrontSlices(PacketBytes(p), body, rest);
  }

  lemma {:induction false} FrontSlices(h: seq<byte>, body: seq<byte>, rest: seq<byte>)
    requires |h| == HEADER_SIZE && |body| >= 8
    ensures FrontOf((h + body) + rest) == Front(h[32..40], h[8..16], body[..8])
  {
  }

  /** Whatever the C client sends first after a request it was silent on does not look like that request. */
  ghost predicate CFront(f: Front) {
    || f.operation == Le64(OP_FILE_OPEN)
    || (f.operation == Le64(OP_FILE_CLOSE) && f.first != Le64(0))
    || (f.operation == Le64(OP_WRITE) && f.entire != Le64(48) && f.first != Le64(0))
  }

  lemma {:induction false} Distinct64(a: nat, b: nat)
    requires a < TWO_64 && b < TWO_64 && a != b
    ensures Le64(a) != Le64(b)
  {
    Le64RoundTrip(a);
    Le64RoundTrip(b);
  }

  lemma {:induction false} OpenFront(path: seq<byte>, mode: nat, num: nat, rest: seq<byte>)
    ensures |CBytes(Open(path, mode), num)| >= 48 && CFront(FrontOf(CBytes(Open(path, mode), num) + rest))
  {
    var body := OpenBody(Open(path, mode));
    FrameFront(Packet(HEADER_SIZE + |body|, HEADER_SIZE + |body|, num + 1, OP_FILE_OPEN), body, rest);
  }

  lemma {:induction false} CloseFront(h: nat, num: nat, rest: seq<byte>)
    requires 0 < h < TWO_32
    ensures |CBytes(Close(h), num)| >= 48 && CFront(FrontOf(CBytes(Close(h), num) + rest))
  {
    FrameFront(Packet(HEADER_SIZE + 8, HEADER_SIZE + 8, num + 1, OP_FILE_CLOSE), Le64(h), rest);
    assert Le64(h)[..8] == Le64(h);
    Distinct64(h, 0);
  }

  lemma {:induction false} WriteFront(h: nat, data: seq<byte>, num: nat, rest: seq<byte>)
    requires 0 < h < TWO_32 && data != []
    ensures |WriteFrames(h, data, num)| >= 48 && CFront(FrontOf(WriteFrames(h, data, num) + rest))
    ensures FrontOf(WriteFrames(h, data, num) + rest).entire == Le64(HEADER_SIZE + 8 + Min(MAXIMUM_WRITE_SIZE, |data|))
  {
    var n := Min(MAXIMUM_WRITE_SIZE, |data|);
    var p := Packet(HEADER_SIZE + 8 + n, HEADER_SIZE + 8, num + 1, OP_WRITE);
    var f, more := Frame(p, Le64(h) + data[..n]), WriteFrames(h, data[n..], num + 1);
    FrameFront(p, Le64(h) + data[..n], more + rest);
    assert (f + more) + rest == f + (more + rest);
    assert (Le64(h) + data[..n])[..8] == Le64(h);
    Distinct64(h, 0);
    Distinct64(HEADER_SIZE + 8 + n, 48);
  }

  lemma {:induction false} CallFront(c: Call, num: nat, rest: seq<byte>)
    requires Packable(c)
    ensures CBytes(c, num) != [] ==> |CBytes(c, num)| >= 48 && CFront(FrontOf(CBytes(c, num) + rest))
  {
    match c
    case Open(path, mode) => OpenFront(path, mode, num, rest);
    case Write(h, data) =>
      if h != 0 && data != [] {
        WriteFront(h, data, num, rest);
      }
    case Close(h) =>
      if h != 0 {
        CloseFront(h, num, rest);
      }
  }

  lemma {:induction false} StreamFront(calls: seq<Call>, num: nat)
    requires AllPackable(calls)
    ensures var s := CStream(calls, num); s == [] || (|s| >= 48 && CFront(FrontOf(s)))
    decreases |calls|
  {
    if calls != [] {
      var rest := CStream(calls[1..], num + Used(calls[0]));
      CallFront(calls[0], num, rest);
      StreamFront(calls[1..], num + Used(calls[0]));
      assert CBytes(calls[0], num) == [] ==> CStream(calls, num) == rest;
    }
  }

  lemma {:induction false} RubyWriteFront(h: nat, data: seq<byte>, num: nat, rest: seq<byte>)
    requires Packable(Write(h, data)) && num + 1 < TWO_32
    ensures |RubyBytes(Write(h, data), num)| >= 48
    ensures FrontOf(RubyBytes(Write(h, data), num) + rest)
        == Front(Le64(OP_WRITE), Le64(HEADER_SIZE + 8 + |data|), Le64(h))
  {
    RubyWrite(h, data, num);
    FrameFront(Packet(HEADER_SIZE + 8 + |data|, HEADER_SIZE + 8, num + 1, OP_WRITE), Le64(h) + data, rest);
    assert (Le64(h) + data)[..8] == Le64(h);
  }

  lemma {:induction false} RubyCloseFront(h: nat, num: nat, rest: seq<byte>)
    requires Packable(Close(h)) && num + 1 < TWO_32
    ensures |RubyBytes(Close(h), num)| >= 48
    ensures FrontOf(RubyBytes(Close(h), num) + rest) == Front(Le64(OP_FILE_CLOSE), Le64(48), Le64(h))
  {
    RubyClose(h, num);
    FrameFront(Packet(HEADER_SIZE + 8, HEADER_SIZE + 8, num + 1, OP_FILE_CLOSE), Le64(h), rest);
    assert Le64(h)[..8] == Le64(h);
  }

  lemma {:induction false} PartedClose(calls: seq<Call>, num: nat)
    requires calls != [] && AllPackable(calls) && num + 1 < TWO_32 && calls[0] == Close(0)
    ensures CStream(calls, num) != RubyStream(calls, num)
  {
    StreamFront(calls, num);
    RubyCloseFront(0, num, RubyStream(calls[1..], num + 1));
    Distinct64(OP_FILE_CLOSE, OP_FILE_OPEN);
    Distinct64(OP_FILE_CLOSE, OP_WRITE);
  }

  lemma {:induction false} PartedWrite(calls: seq<Call>, num: nat)
    requires calls != [] && AllPackable(calls) && num + 1 < TWO_32
    requires calls[0].Write? && !SingleFrame(calls[0])
    ensures CStream(calls, num) != RubyStream(calls, num)
  {
    var h, data := calls[0].handle, calls[0].data;
    RubyWriteFront(h, data, num, RubyStream(calls[1..], num + 1));
    if h == 0 || data == [] {
      StreamFront(calls, num);
      Distinct64(OP_WRITE, OP_FILE_OPEN);
      Distinct64(OP_WRITE, OP_FILE_CLOSE);
    } else {
      WriteFront(h, data, num, CStream(calls[1..], num + Used(calls[0])));
      Distinct64(HEADER_SIZE + 8 + MAXIMUM_WRITE_SIZE, HEADER_SIZE + 8 + |data|);
    }
  }

  lemma {:induction false} SameSoFar(calls: seq<Call>, num: nat)
    requires calls != [] && AllPackable(calls) && SingleFrame(calls[0]) && num + 1 < TWO_32
    ensures CStream(calls, num) == RubyStream(calls, num)
        <==> CStream(calls[1..], num + 1) == RubyStream(calls[1..], num + 1)
  {
    SameBytes(calls[0], num);
    SamePrefix(CBytes(calls[0], num), CStream(calls[1..], num + 1), RubyStream(calls[1..], num + 1));
  }

  lemma {:induction false} Parted(calls: seq<Call>, num: nat)
    requires calls != [] && AllPackable(calls) && !SingleFrame(calls[0]) && num + 1 < TWO_32
    ensures CStream(calls, num) != RubyStream(calls, num)
  {
    if calls[0].Write? {
      PartedWrite(calls, num);
    } else {
      PartedClose(calls, num);
    }
  }

  /** A run of requests puts the same bytes on the wire through C and through Ruby, sequence numbers
      included, if and only if each of them is a single frame. */
  lemma {:induction false} StreamsAgree(calls: seq<Call>, num: nat)
    requires AllPackable(calls) && num + |calls| < TWO_32
    ensures CStream(calls, num) == RubyStream(calls, num) <==> AllSingleFrame(calls)
    decreases |calls|
  {
    if calls != [] {
      if SingleFrame(calls[0]) {
        StreamsAgree(calls[1..], num + 1);
        SameSoFar(calls, num);
      } else {
        Parted(calls, num);
      }
    }
  }

  // ---------------------------------------------------------------- the same listings

  /** What ls makes of a reply: recv_frame drops the parameters, the payload is split. */
  function RubyListing(p: Packet, body: seq<byte>): Option<seq<seq<byte>>> {
    var r := AfcRuby.Received(Frame(p, body));
    if r.None? then None else Some(RubySplit(r.value.1))
  }

  /** The C client makes its list of parameters and payload.  On any reply the two lists are the same
      exactly if both are empty, or there are no parameters, nothing is unterminated and the last string
      is not empty, or the reply repeats itself. */
  lemma {:induction false} ListingsAgree(p: Packet, body: seq<byte>, list: seq<seq<byte>>)
    requires Describes(p, body) && Holds(body, list)
    ensures RubyListing(p, body) == Some(list)
      <==> Alike(list, body[|Terminated(list)|..], p.thisLength - HEADER_SIZE)
  {
    var rest, k := body[|Terminated(list)|..], p.thisLength - HEADER_SIZE;
    assert Terminated(list) + rest == body;
    assert Frame(p, body) + [] == Frame(p, body);
    RubyReadsC(p, body, []);
    SplitsAgree(list, rest, k);
  }

  /** So of names that are all terminated, as a device lists them, Ruby holds what C holds exactly if the
      reply has no parameters and the last name is not empty. */
  lemma {:induction false} NamesAgree(p: Packet, names: seq<seq<byte>>)
    requires Describes(p, Terminated(names)) && AllNulFree(names) && names != []
    ensures RubyListing(p, Terminated(names)) == Some(names)
      <==> p.thisLength == HEADER_SIZE && names[|names| - 1] != []
  {
    var body := Terminated(names);
    assert body[|body|..] == [];
    ListingsAgree(p, body, names);
  }

  /** A reply that repeats itself: with "x" and its NUL as parameters and "x" as payload both clients
      list one "x". */
  lemma {:induction false} RepeatingReply(x: byte)
    requires x != 0
    ensures var body, p := [x, 0, x], Packet(HEADER_SIZE + 3, HEADER_SIZE + 2, 1, OP_DATA);
      Describes(p, body) && Holds(body, [[x]]) && RubyListing(p, body) == Some([[x]])
  {
    var body, p := [x, 0, x], Packet(HEADER_SIZE + 3, HEADER_SIZE + 2, 1, OP_DATA);
    assert Terminated([[x]]) == [x, 0] && body[..2] == [x, 0] && body[2..] == [x];
    ListingsAgree(p, body, [[x]]);
  }
}
