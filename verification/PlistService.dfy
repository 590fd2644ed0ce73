/** Length-prefixed property lists: sending, and receiving with the repair of XML that contains NULs. */
module PlistService {
  import opened Bytes
  import opened Memory
  import opened Options
  import opened Transport

  datatype Error = Success | PlistError | MuxError | UnknownError

  const MAX_RECEIVED: nat := 0x100_0000
  const BINARY_MAGIC: seq<byte> := [98, 112, 108, 105, 115, 116, 48, 48]  // bplist00

  predicate IsBinary(content: seq<byte>) {
    BINARY_MAGIC <= content
  }

  /** NULs before the last byte turned into spaces. */
  function Scrubbed(content: seq<byte>): (s: seq<byte>)
    ensures |s| == |content|
  {
    seq(|content|, i requires 0 <= i < |content| => if i < |content| - 1 && content[i] == 0 then 0x20 else content[i])
  }

  /** The bytes handed to the parser. */
  function Repaired(content: seq<byte>): (s: seq<byte>) {
    if IsBinary(content) then content else Scrubbed(content)
  }

  /** No NUL before the last byte. */
  predicate Clean(content: seq<byte>) {
    forall i :: 0 <= i < |content| - 1 ==> content[i] != 0
  }

  lemma {:induction false} ScrubbingExactly(content: seq<byte>)
    ensures Scrubbed(content) == content <==> Clean(content)
  {
    var s := Scrubbed(content);
    if s == content {
      forall i | 0 <= i < |content| - 1
        ensures content[i] != 0
      {
        assert s[i] == content[i];
      }
    }
  }

  lemma {:induction false} ScrubbedIsClean(content: seq<byte>)
    ensures Clean(Scrubbed(content)) && Scrubbed(Scrubbed(content)) == Scrubbed(content)
    ensures forall i :: 0 <= i < |content| && (content[i] != 0 || i == |content| - 1) ==>
      Scrubbed(content)[i] == content[i]
    ensures forall i :: 0 <= i < |content| - 1 && content[i] == 0 ==> Scrubbed(content)[i] == 0x20
  {
    assert Clean(Scrubbed(content));
    ScrubbingExactly(Scrubbed(content));
  }

  /** What is received is what was sent, except that NULs in XML are repaired; it is exactly what was
      sent if and only if it is binary or has no NUL to repair. */
  lemma {:induction false} RepairedExactly(content: seq<byte>)
    ensures Repaired(content) == content <==> IsBinary(content) || Clean(content)
    ensures Repaired(Repaired(content)) == Repaired(content)
  {
    ScrubbingExactly(content);
    ScrubbedIsClean(content);
  }

  // ---------------------------------------------------------------- frames

  /** The codec of the plist library, for plists of some kind. */
  datatype Codec<!P> = Codec(toXml: P -> seq<byte>, toBin: P -> seq<byte>,
                             fromXml: seq<byte> -> Option<P>, fromBin: seq<byte> -> Option<P>)

  function Encoded<P>(codec: Codec<P>, plist: P, binary: bool): seq<byte> {
    if binary then codec.toBin(plist) else codec.toXml(plist)
  }

  function Parsed<P>(codec: Codec<P>, content: seq<byte>): Option<P> {
    if IsBinary(content) then codec.fromBin(content) else codec.fromXml(Scrubbed(content))
  }

  function Framed(content: seq<byte>): (s: seq<byte>)
    ensures |s| == 4 + |content|
  {
    Be32(|content|) + content
  }

  /** What the library promises of one plist: its encodings decode to it, the binary one starts with
      the magic, the XML one does not and has no NUL. */
  predicate Faithful<P(==)>(codec: Codec<P>, plist: P) {
    && IsBinary(codec.toBin(plist)) && codec.fromBin(codec.toBin(plist)) == Some(plist)
    && !IsBinary(codec.toXml(plist)) && Clean(codec.toXml(plist)) && codec.fromXml(codec.toXml(plist)) == Some(plist)
  }

  datatype Reception<P> = Reception(error: Error, plist: Option<P>, left: seq<byte>)

  /** What the peer sends: a length the receiver accepts is at least 8. */
  predicate WellFormed(stream: seq<byte>) {
    |stream| >= 4 && FromBe(stream[..4]) < MAX_RECEIVED ==> FromBe(stream[..4]) >= 8
  }

  /** How many of the announced bytes the stream does not have. */
  function Missing(stream: seq<byte>): nat {
    if |stream| < 4 || FromBe(stream[..4]) >= MAX_RECEIVED || FromBe(stream[..4]) <= |stream| - 4 then 0
    else FromBe(stream[..4]) - (|stream| - 4)
  }

  /** Receiving from a stream when the first call would like to hand over wish bytes.  Content that
      never comes is whatever the buffer held. */
  function Received<P>(codec: Codec<P>, stream: seq<byte>, wish: nat, junk: seq<byte>): (r: Reception<P>)
    requires WellFormed(stream) && |junk| == Missing(stream)
  {
    var got := Fragment(wish, 4, |stream|);
    if got < 4 then Reception(MuxError, None, stream[got..])
    else
      var n := FromBe(stream[..4]);
      if n >= MAX_RECEIVED then Reception(UnknownError, None, stream[4..])
      else
        var content := (stream[4..] + junk)[..n];
        var plist := Parsed(codec, content);
        Reception(if plist.Some? then Success else PlistError, plist, (stream[4..] + junk)[n..])
  }

  /** The error for a stream that ends within the content is overwritten: once a length in range has
      arrived, a communication error is never reported, and a plist is whenever the parser makes one of
      the buffer. */
  lemma {:induction false} TruncationUnnoticed<P>(codec: Codec<P>, stream: seq<byte>, wish: nat, junk: seq<byte>)
    requires WellFormed(stream) && |junk| == Missing(stream) > 0 && Whole(wish, 4)
    ensures Received(codec, stream, wish, junk).error != MuxError
    ensures Received(codec, stream, wish, junk).error == Success <==> Parsed(codec, stream[4..] + junk).Some?
  {
    assert (stream[4..] + junk)[..FromBe(stream[..4])] == stream[4..] + junk;
  }

  /** The outcome of a receive, told by the bytes of the stream: the error of the connection when the length
      does not come in one piece, an unknown error when it is 2^24 or more; otherwise the parser decides on
      the announced bytes, which are decoded as binary exactly if they start with "bplist00". */
  lemma {:induction false} ReceivedExactly<P>(codec: Codec<P>, stream: seq<byte>, wish: nat, junk: seq<byte>)
    requires WellFormed(stream) && |junk| == Missing(stream)
    ensures var r := Received(codec, stream, wish, junk);
      && (r.error == MuxError <==> |stream| < 4 || wish < 4)
      && (|stream| >= 4 && wish >= 4 ==>
        var n := Number(stream[3], stream[2], stream[1], stream[0]);
        && (r.error == UnknownError <==> n >= 0x100_0000)
        && (n < 0x100_0000 ==>
          var content := if n <= |stream| - 4 then stream[4..4 + n] else stream[4..] + junk;
          && |content| == n >= 8
          && r.plist == (if content[..8] == [0x62, 0x70, 0x6C, 0x69, 0x73, 0x74, 0x30, 0x30] then codec.fromBin(content)
                         else codec.fromXml(Scrubbed(content)))
          && r.error == (if r.plist.Some? then Success else PlistError)
          && r.left == if n <= |stream| - 4 then stream[4 + n..] else []))
  {
    if |stream| >= 4 && wish >= 4 {
      BigEndian(stream, 0);
      assert stream[..4] == stream[0..4];
      var n := FromBe(stream[..4]);
      if n < MAX_RECEIVED {
        Announced(stream, junk, n);
        IsBinaryByFront((stream[4..] + junk)[..n]);
      }
    }
  }

  lemma {:induction false} Announced(stream: seq<byte>, junk: seq<byte>, n: nat)
    requires |stream| >= 4 && |junk| == if n <= |stream| - 4 then 0 else n - (|stream| - 4)
    ensures var content := if n <= |stream| - 4 then stream[4..4 + n] else stream[4..] + junk;
      && (stream[4..] + junk)[..n] == content && |content| == n
      && (stream[4..] + junk)[n..] == if n <= |stream| - 4 then stream[4 + n..] else []
  {
  }

  lemma {:induction false} FrameRead(content: seq<byte>, rest: seq<byte>)
    requires |content| < TWO_32
    ensures var s := Framed(content) + rest;
      FromBe(s[..4]) == |content| && s[4..4 + |content|] == content && s[4 + |content|..] == rest
  {
    var s := Framed(content) + rest;
    assert s[..4] == Be32(|content|);
    Be32RoundTrip(|content|);
  }

  /** Receiving what was sent gives the plist back and leaves what was behind it, if and only if its
      length is not cut short and is within the receiver's limit. */
  lemma {:induction false} ReceiveAfterSend<P>(codec: Codec<P>, plist: P, binary: bool, rest: seq<byte>, wish: nat)
    requires 8 <= |Encoded(codec, plist, binary)| < TWO_32 && Faithful(codec, plist)
    ensures var stream := Framed(Encoded(codec, plist, binary)) + rest;
      && WellFormed(stream) && Missing(stream) == 0
      && (Received(codec, stream, wish, []) == Reception(Success, Some(plist), rest)
          <==> Whole(wish, 4) && |Encoded(codec, plist, binary)| < MAX_RECEIVED)
  {
    var content := Encoded(codec, plist, binary);
    RepairedExactly(content);
    ReceivedFrame(codec, content, rest, wish);
  }

  lemma {:induction false} ReceivedFrame<P>(codec: Codec<P>, content: seq<byte>, rest: seq<byte>, wish: nat)
    requires 8 <= |content| < TWO_32
    ensures var stream, p := Framed(content) + rest, Parsed(codec, content);
      && WellFormed(stream) && Missing(stream) == 0
      && Received(codec, stream, wish, []) ==
        if !Whole(wish, 4) then Reception(MuxError, None, stream[Fragment(wish, 4, |stream|)..])
        else if |content| >= MAX_RECEIVED then Reception(UnknownError, None, stream[4..])
        else Reception(if p.Some? then Success else PlistError, p, rest)
  {
    FrameRead(content, rest);
    NothingMissing(Framed(content) + rest, content, rest);
  }

  lemma {:induction false} NothingMissing(stream: seq<byte>, content: seq<byte>, rest: seq<byte>)
    requires stream == Be32(|content|) + content + rest
    ensures (stream[4..] + [])[..|content|] == content && (stream[4..] + [])[|content|..] == rest
  {
    assert stream[4..] + [] == content + rest;
  }

  // ---------------------------------------------------------------- the service

  /** internal_plist_send of an encoded plist. */
  method Send(conn: Connection, content: seq<byte>) returns (r: Error)
    requires |content| < TWO_32
    modifies conn`outgoing, conn`sends
    ensures content == [] ==> r == PlistError && conn.outgoing == old(conn.outgoing)
    ensures content != [] ==> (r == Success || r == UnknownError) && old(conn.outgoing) <= conn.outgoing
    ensures content != [] ==> (r == Success
        <==> Whole(conn.sendSchedule(old(conn.sends)), 4) && Whole(conn.sendSchedule(old(conn.sends) + 1), |content|))
    ensures r == Success ==> conn.outgoing == old(conn.outgoing) + Framed(content)
    ensures conn.outgoing <= old(conn.outgoing) + Framed(content)
  {
    if content == [] {
      return PlistError;
    }
    r := UnknownError;
    var nlen := Be32(|content|);
    var bytes := conn.Send(nlen);
    if bytes == |nlen| {
      bytes := conn.Send(content);
      if bytes > 0 && bytes == |content| {
        r := Success;
      }
    }
  }

  /** Spaces for NULs, in place, before the last byte. */
  method Scrub(content: array<byte>)
    requires content.Length > 0
    modifies content
    ensures content[..] == Scrubbed(old(content[..]))
  {
    ghost var was := content[..];
    for bytes := 0 to content.Length - 1
      invariant forall i :: bytes <= i < content.Length ==> content[i] == was[i]
      invariant forall i :: 0 <= i < bytes ==> content[i] == Scrubbed(was)[i]
    {
      if content[bytes] == 0 {
        content[bytes] := 0x20;
      }
    }
  }

  /** internal_plist_receive_timeout; junk is what an unfilled rest of the buffer held. */
  method Receive<P>(conn: Connection, codec: Codec<P>) returns (r: Error, plist: Option<P>, ghost junk: seq<byte>)
    requires WellFormed(conn.incoming)
    modifies conn`incoming, conn`calls
    ensures |junk| == Missing(old(conn.incoming))
    ensures Reception(r, plist, conn.incoming)
         == Received(codec, old(conn.incoming), conn.schedule(old(conn.calls)), junk)
  {
    ghost var stream := conn.incoming;
    plist := None;
    junk := seq(Missing(stream), _ => 0);
    var head := new byte[4];
    var bytes := conn.Receive(head, 0, 4);
    if bytes < 4 {
      r := MuxError;
      return;
    }
    var pktlen := FromBe(head[..]);
    assert head[..] == stream[..4];
    if pktlen >= MAX_RECEIVED {
      r := UnknownError;
      return;
    }
    var content := new byte[pktlen];
    r, junk := ReadAll(conn, content);
    IsBinaryByFront(content[..]);
    if content[..8] == BINARY_MAGIC {
      plist := codec.fromBin(content[..]);
    } else {
      Scrub(content);
      plist := codec.fromXml(content[..]);
    }
    r := if plist.Some? then Success else PlistError;
  }

  lemma {:induction false} IsBinaryByFront(content: seq<byte>)
    requires |content| >= 8
    ensures content[..8] == BINARY_MAGIC <==> IsBinary(content)
  {
    assert BINARY_MAGIC <= content <==> content[..8] == BINARY_MAGIC;
  }

  /** The loop that receives the content; it ends early when nothing comes. */
  method ReadAll(conn: Connection, content: array<byte>) returns (res: Error, ghost junk: seq<byte>)
    modifies conn`incoming, conn`calls, content
    ensures var stream := old(conn.incoming);
      && |junk| == (if content.Length <= |stream| then 0 else content.Length - |stream|)
      && content[..] == (stream + junk)[..content.Length] && conn.incoming == (stream + junk)[content.Length..]
    ensures res == if content.Length <= |old(conn.incoming)| then UnknownError else MuxError
  {
    ghost var stream := conn.incoming;
    var curlen := 0;
    res := UnknownError;
    while curlen < content.Length
      invariant curlen <= content.Length && curlen <= |stream| && res == UnknownError
      invariant content[..curlen] == stream[..curlen] && conn.incoming == stream[curlen..]
      decreases content.Length - curlen
    {
      ghost var before := content[..];
      var bytes := conn.Receive(content, curlen, content.Length - curlen);
      if bytes == 0 {
        res := MuxError;
        break;
      }
      Extended(stream, before, content[..], 0, curlen, bytes);
      curlen := curlen + bytes;
    }
    junk := content[curlen..];
    assert content[..] == content[..curlen] + content[curlen..];
  }
}
