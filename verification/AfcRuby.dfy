/** AFCService of iafctools.rb: the second encoder, and a decoder that looks at the low halves of
    the length fields only. */
module AfcRuby {
  import opened Bytes
  import opened Options
  import opened AfcFrame

  /** pack("V*") of two words, the second zero. */
  function Packed(n: nat): (s: seq<byte>)
    ensures |s| == 8
  {
    Le32(n) + Le32(0)
  }

  /** The string send_frame writes. */
  function FrameString(sequenceNumber: nat, kind: nat, data: seq<byte>, headerSize: nat): (s: seq<byte>) {
    Head(Packet(|data| + 40, headerSize, sequenceNumber, kind), FIELDS, Packed) + data
  }

  /** What recv_frame returns and what it leaves unread; None where it raises or waits for more. */
  function Received(s: seq<byte>): (r: Option<(seq<byte>, seq<byte>, seq<byte>)>) {
    if |s| < 32 || s[..8] != MAGIC then None
    else
      var size, headerSize := FromLe(s[8..12]), FromLe(s[16..20]);
      if headerSize < 32 || size < headerSize || |s| < size then None
      else Some((s[32..headerSize], s[headerSize..size], s[size..]))
  }

  class AfcService {
    var sequenceNumber: nat
    var written: seq<byte>   // everything written to the socket
    var unread: seq<byte>    // what the socket will deliver

    constructor (unread: seq<byte>)
      ensures sequenceNumber == 0 && written == [] && this.unread == unread
    {
      sequenceNumber, written, this.unread := 0, [], unread;
    }

    /** send_frame */
    method SendFrame(kind: nat, data: seq<byte>, headerSize: nat)
      modifies this
      ensures sequenceNumber == old(sequenceNumber) + 1 && unread == old(unread)
      ensures written == old(written) + FrameString(sequenceNumber, kind, data, headerSize)
    {
      sequenceNumber := sequenceNumber + 1;
      var frame := MAGIC + Packed(|data| + 40) + Packed(headerSize) + Packed(sequenceNumber) + Packed(kind) + data;
      FourFields(Packet(|data| + 40, headerSize, sequenceNumber, kind), Packed);
      written := written + frame;
    }

    /** socket.read(n), which waits for all n bytes; None when they never come. */
    method Read(n: nat) returns (r: Option<seq<byte>>)
      modifies this`unread
      ensures r == (if n <= |old(unread)| then Some(old(unread)[..n]) else None)
      ensures unread == if n <= |old(unread)| then old(unread)[n..] else old(unread)
    {
      if |unread| < n {
        return None;
      }
      r := Some(unread[..n]);
      unread := unread[n..];
    }

    /** recv_frame */
    method RecvFrame() returns (r: Option<(seq<byte>, seq<byte>)>)
      modifies this`unread
      ensures var expected := Received(old(unread));
        && (r.Some? <==> expected.Some?)
        && (r.Some? ==> (r.value.0, r.value.1, unread) == expected.value)
    {
      ghost var s := unread;
      var lengths := RecvLengths();
      if lengths == None {
        return None;
      }
      var (size, headerSize) := lengths.value;
      if headerSize < 32 {
        return None;
      }
      var headerRest := Read(headerSize - 32);
      if headerRest == None || size < headerSize {
        return None;
      }
      assert unread == s[headerSize..];
      var frame := Read(size - headerSize);
      if frame == None {
        return None;
      }
      assert headerRest.value == s[32..headerSize] && frame.value == s[headerSize..size];
      assert s[headerSize..][size - headerSize..] == s[size..];
      return Some((headerRest.value, frame.value));
    }

    /** The fixed fields recv_frame looks at: magic, size, header size; the number is skipped. */
    method RecvLengths() returns (r: Option<(nat, nat)>)
      modifies this`unread
      ensures r.Some? <==> |old(unread)| >= 32 && old(unread)[..8] == MAGIC
      ensures r.Some? ==> r.value == (FromLe(old(unread)[8..12]), FromLe(old(unread)[16..20]))
      ensures r.Some? ==> unread == old(unread)[32..]
    {
      ghost var s := unread;
      var first := Read(16);
      if first == None {
        return None;
      }
      var second := Read(8);
      if second == None {
        return None;
      }
      var third := Read(8);
      if third == None {
        return None;
      }
      Slices(s, first.value, second.value);
      if first.value[..8] != MAGIC {
        return None;
      }
      return Some((FromLe(first.value[8..12]), FromLe(second.value[..4])));
    }
  }

  lemma {:induction false} Slices(s: seq<byte>, first: seq<byte>, second: seq<byte>)
    requires |s| >= 32 && first == s[..16] && second == s[16..][..8]
    ensures first[..8] == s[..8] && first[8..12] == s[8..12] && second[..4] == s[16..20]
    ensures s[16..][8..][8..] == s[32..]
  {
  }

  // ---------------------------------------------------------------- the same bytes as C

  /** What is left of n when its k low bytes are shifted out. */
  function Shift(n: nat, k: nat): nat {
    if k == 0 then n else Shift(n / 256, k - 1)
  }

  lemma {:induction false} LeSplit(n: nat, a: nat, b: nat)
    ensures Le(n, a + b) == Le(n, a) + Le(Shift(n, a), b)
  {
    if a > 0 {
      LeSplit(n / 256, a - 1, b);
    }
  }

  lemma {:induction false} PackedIsLong(n: nat)
    requires n < TWO_32
    ensures Packed(n) == Le64(n)
  {
    LeSplit(n, 4, 4);
    var a := n / 256;
    var b := a / 256;
    var c := b / 256;
    assert Shift(c, 1) == Shift(c / 256, 0) == 0;
    assert Shift(a, 3) == Shift(b, 2) == Shift(c, 1);
  }

  /** Below 2^32 a Ruby frame string is the C frame with the same fields. */
  lemma {:induction false} FrameStringIsFrame(num: nat, kind: nat, data: seq<byte>, headerSize: nat)
    requires num < TWO_32 && kind < TWO_32 && |data| + 40 < TWO_32 && headerSize < TWO_32
    ensures FrameString(num, kind, data, headerSize) == Frame(Packet(HEADER_SIZE + |data|, headerSize, num, kind), data)
  {
    SameHead(Packet(HEADER_SIZE + |data|, headerSize, num, kind), FIELDS);
  }

  lemma {:induction false} SameHead(p: Packet, k: nat)
    requires p.entireLength < TWO_32 && p.thisLength < TWO_32 && p.packetNum < TWO_32 && p.operation < TWO_32
    ensures Head(p, k, Packed) == Head(p, k, Le64)
  {
    if k > 0 {
      SameHead(p, k - 1);
      PackedIsLong(Field(p, k));
    }
  }

  /** Ruby decodes a C frame to operation and parameters, and payload, with nothing left over or
      missing, exactly when the whole frame is shorter than 2^32 bytes. */
  lemma {:induction false} RubyReadsC(p: Packet, body: seq<byte>, rest: seq<byte>)
    requires p.Fits() && HEADER_SIZE <= p.thisLength <= p.entireLength == HEADER_SIZE + |body|
    requires |body| < TWO_32
    ensures Received(Frame(p, body) + rest)
         == Some((Le64(p.operation) + body[..p.thisLength - HEADER_SIZE], body[p.thisLength - HEADER_SIZE..], rest))
       <==> p.entireLength < TWO_32
  {
    LowHalf(p.entireLength);
    LowHalf(p.thisLength);
    FrameWords(p, body, rest);
    var s, n := Frame(p, body) + rest, p.thisLength - HEADER_SIZE;
    if p.entireLength < TWO_32 {
      ModUnique(p.entireLength, TWO_32, 0, p.entireLength);
      ModUnique(p.thisLength, TWO_32, 0, p.thisLength);
      Parts(p, body, rest);
    } else {
      ModUnique(p.entireLength, TWO_32, 1, p.entireLength - TWO_32);
      LengthsTell(s, Le64(p.operation) + body[..n], body[n..], rest);
    }
  }

  /** What Ruby writes it reads back, if the size it gives for the header is at least that of the fields it
      reads by themselves and no more than the whole frame. */
  lemma {:induction false} RubyReadsRuby(num: nat, kind: nat, data: seq<byte>, headerSize: nat, rest: seq<byte>)
    requires |data| + 40 < TWO_32 && headerSize < TWO_32
    ensures var r := Received(FrameString(num, kind, data, headerSize) + rest);
      && (r.Some? <==> 32 <= headerSize <= |data| + 40)
      && (r.Some? ==> r.value.0 + r.value.1 == Packed(kind) + data && |r.value.0| == headerSize - 32
                      && r.value.2 == rest)
  {
    var p := Packet(|data| + 40, headerSize, num, kind);
    FourFields(p, Packed);
    var s, body := FrameString(num, kind, data, headerSize) + rest, Packed(kind) + data;
    RubyWords(s, MAGIC, Packed(|data| + 40), Packed(headerSize), Packed(num), body, rest);
    Le32RoundTrip(|data| + 40);
    Le32RoundTrip(headerSize);
    ReadByLengths(s, body, rest, headerSize);
  }

  lemma {:induction false} ReadByLengths(s: seq<byte>, body: seq<byte>, rest: seq<byte>, headerSize: nat)
    requires |s| == 32 + |body| + |rest| && s[..8] == MAGIC
    requires FromLe(s[8..12]) == 32 + |body| && FromLe(s[16..20]) == headerSize
    requires s[32..32 + |body|] == body && s[32 + |body|..] == rest
    ensures var r := Received(s);
      && (r.Some? <==> 32 <= headerSize <= 32 + |body|)
      && (r.Some? ==> r.value.0 + r.value.1 == body && |r.value.0| == headerSize - 32 && r.value.2 == rest)
  {
    var n := 32 + |body|;
    if 32 <= headerSize <= n {
      TwoSlices(s, headerSize, n);
    }
  }

  lemma {:induction false} TwoSlices(s: seq<byte>, m: nat, n: nat)
    requires 32 <= m <= n <= |s|
    ensures s[32..m] + s[m..n] == s[32..n]
  {
  }

  lemma {:induction false} RubyWords(s: seq<byte>, magic: seq<byte>, size: seq<byte>, head: seq<byte>, num: seq<byte>,
                                     body: seq<byte>, rest: seq<byte>)
    requires |magic| == |size| == |head| == |num| == 8 && s == magic + size + head + num + body + rest
    ensures s[..8] == magic && s[8..12] == size[..4] && s[16..20] == head[..4] && s[32..32 + |body|] == body
    ensures s[32 + |body|..] == rest
  {
  }

  /** The bytes of a header whose fields are below 2^32. */
  lemma {:induction false} HeaderLayout(p: Packet)
    requires p.entireLength < TWO_32 && p.thisLength < TWO_32 && p.packetNum < TWO_32 && p.operation < TWO_32
    ensures var s := PacketBytes(p);
      && s[..8] == [0x43, 0x46, 0x41, 0x36, 0x4C, 0x50, 0x41, 0x41]
      && Number(s[8], s[9], s[10], s[11]) == p.entireLength && Number(s[16], s[17], s[18], s[19]) == p.thisLength
      && Number(s[24], s[25], s[26], s[27]) == p.packetNum && Number(s[32], s[33], s[34], s[35]) == p.operation
      && s[12..16] == s[20..24] == s[28..32] == s[36..40] == [0, 0, 0, 0]
  {
    HeaderWords(p);
    FieldLayout(PacketBytes(p), 8, p.entireLength);
    FieldLayout(PacketBytes(p), 16, p.thisLength);
    FieldLayout(PacketBytes(p), 24, p.packetNum);
    FieldLayout(PacketBytes(p), 32, p.operation);
  }

  lemma {:induction false} FieldLayout(s: seq<byte>, at: nat, n: nat)
    requires at + 8 <= |s| && n < TWO_32 && s[at..at + 8] == Le64(n)
    ensures Number(s[at], s[at + 1], s[at + 2], s[at + 3]) == n && s[at + 4..at + 8] == [0, 0, 0, 0]
  {
    PackedIsLong(n);
    Le32RoundTrip(n);
    assert s[at..at + 4] == s[at..at + 8][..4] == Le32(n);
    LittleEndian(s, at);
    assert s[at + 4..at + 8] == s[at..at + 8][4..] == Le32(0);
    assert Le32(0) == [0, 0, 0, 0];
  }

  /** What is decoded makes up a frame of the size its header gives. */
  lemma {:induction false} LengthsTell(s: seq<byte>, a: seq<byte>, b: seq<byte>, rest: seq<byte>)
    requires |s| >= 12
    ensures Received(s) == Some((a, b, rest)) ==> |a| + |b| + 32 == FromLe(s[8..12])
  {
  }

  lemma {:induction false} Parts(p: Packet, body: seq<byte>, rest: seq<byte>)
    requires HEADER_SIZE <= p.thisLength <= p.entireLength == HEADER_SIZE + |body|
    ensures var s, n := Frame(p, body) + rest, p.thisLength - HEADER_SIZE;
      && s[32..p.thisLength] == Le64(p.operation) + body[..n]
      && s[p.thisLength..p.entireLength] == body[n..] && s[p.entireLength..] == rest
  {
    var n := p.thisLength - HEADER_SIZE;
    HeaderWords(p);
    var h := PacketBytes(p);
    assert h == h[..32] + h[32..40];
    Cut(h[..32], h[32..40], body, rest, n);
  }

  lemma {:induction false} Cut(head: seq<byte>, op: seq<byte>, body: seq<byte>, rest: seq<byte>, n: nat)
    requires |head| == 32 && |op| == 8 && n <= |body|
    ensures var s := head + op + body + rest;
      s[32..40 + n] == op + body[..n] && s[40 + n..40 + |body|] == body[n..] && s[40 + |body|..] == rest
  {
  }

  lemma {:induction false} FrameWords(p: Packet, body: seq<byte>, rest: seq<byte>)
    ensures var s := Frame(p, body) + rest;
      && s[..8] == MAGIC && s[8..12] == Le64(p.entireLength)[..4] && s[16..20] == Le64(p.thisLength)[..4]
      && s[32..40] == Le64(p.operation) && s[40..] == body + rest
  {
    HeaderWords(p);
    InHeader(PacketBytes(p), body, rest);
  }

  lemma {:induction false} InHeader(h: seq<byte>, body: seq<byte>, rest: seq<byte>)
    requires |h| == HEADER_SIZE
    ensures var s := h + body + rest;
      && s[..8] == h[..8] && s[8..12] == h[8..16][..4] && s[16..20] == h[16..24][..4]
      && s[32..40] == h[32..40] && s[40..] == body + rest
  {
  }

  /** The low half of a 64-bit field is the field modulo 2^32. */
  lemma {:induction false} LowHalf(n: nat)
    ensures FromLe(Le64(n)[..4]) == n % TWO_32
  {
    LeSplit(n, 4, 4);
    assert Le64(n)[..4] == Le32(n);
    FromLeOfLe(n, 4);
    assert Pow256(4) == TWO_32;
  }
}
