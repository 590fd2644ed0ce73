/** AFC packets on the wire: a forty-byte header, parameters, payload. */
module AfcFrame {
  import opened Bytes

  const HEADER_SIZE: nat := 40
  const MAGIC: seq<byte> := [0x43, 0x46, 0x41, 0x36, 0x4C, 0x50, 0x41, 0x41]

  const OP_STATUS: nat := 0x01
  const OP_DATA: nat := 0x02
  const OP_READ_DIR: nat := 0x03
  const OP_FILE_OPEN: nat := 0x0D
  const OP_FILE_OPEN_RES: nat := 0x0E
  const OP_READ: nat := 0x0F
  const OP_WRITE: nat := 0x10
  const OP_FILE_SEEK: nat := 0x11
  const OP_FILE_TELL_RES: nat := 0x13
  const OP_FILE_CLOSE: nat := 0x14

  datatype Packet = Packet(entireLength: nat, thisLength: nat, packetNum: nat, operation: nat) {
    predicate Fits() {
      entireLength < TWO_64 && thisLength < TWO_64 && packetNum < TWO_64 && operation < TWO_64
    }
  }

  const FIELDS: nat := 4

  /** The fields of a packet in their order, counted from 1. */
  function Field(p: Packet, k: nat): nat {
    if k == 1 then p.entireLength else if k == 2 then p.thisLength else if k == 3 then p.packetNum else p.operation
  }

  /** The magic, then the first k fields, each written as a word. */
  function Head(p: Packet, k: nat, word: nat -> seq<byte>): seq<byte> {
    if k == 0 then MAGIC else Head(p, k - 1, word) + word(Field(p, k))
  }

  lemma {:induction false} FourFields(p: Packet, word: nat -> seq<byte>)
    ensures Head(p, FIELDS, word)
      == MAGIC + word(p.entireLength) + word(p.thisLength) + word(p.packetNum) + word(p.operation)
  {
    assert Head(p, 1, word) == MAGIC + word(p.entireLength);
    assert Head(p, 2, word) == Head(p, 1, word) + word(p.thisLength);
    assert Head(p, 3, word) == Head(p, 2, word) + word(p.packetNum);
  }

  function PacketBytes(p: Packet): (s: seq<byte>)
    ensures |s| == HEADER_SIZE
  {
    FourFields(p, Le64);
    Head(p, FIELDS, Le64)
  }

  lemma {:induction false} HeaderWords(p: Packet)
    ensures var s := PacketBytes(p);
      && s[..8] == [0x43, 0x46, 0x41, 0x36, 0x4C, 0x50, 0x41, 0x41]
      && s[8..16] == Le64(p.entireLength) && s[16..24] == Le64(p.thisLength)
      && s[24..32] == Le64(p.packetNum) && s[32..40] == Le64(p.operation)
  {
    FourFields(p, Le64);
  }

  function LongAt(s: seq<byte>, off: nat): (n: nat)
    requires off + 8 <= |s|
    ensures n < TWO_64
  {
    FromLeBound(s[off..off + 8]);
    assert Pow256(8) == TWO_64;
    FromLe(s[off..off + 8])
  }

  function PacketOf(s: seq<byte>): Packet
    requires |s| >= HEADER_SIZE
  {
    Packet(LongAt(s, 8), LongAt(s, 16), LongAt(s, 24), LongAt(s, 32))
  }

  lemma {:induction false} PacketRoundTrip(p: Packet, rest: seq<byte>)
    requires p.Fits()
    ensures PacketOf(PacketBytes(p) + rest) == p
  {
    var s := PacketBytes(p) + rest;
    HeaderWords(p);
    assert s[8..16] == Le64(p.entireLength) && s[16..24] == Le64(p.thisLength);
    assert s[24..32] == Le64(p.packetNum) && s[32..40] == Le64(p.operation);
    Le64RoundTrip(p.entireLength); Le64RoundTrip(p.thisLength);
    Le64RoundTrip(p.packetNum); Le64RoundTrip(p.operation);
  }

  /** A packet with everything that follows its header. */
  function Frame(p: Packet, body: seq<byte>): (s: seq<byte>)
    ensures |s| == HEADER_SIZE + |body|
  {
    PacketBytes(p) + body
  }

  /** A well-formed packet for a body: the lengths describe it and every field fits its word. */
  predicate Describes(p: Packet, body: seq<byte>) {
    p.Fits() && HEADER_SIZE <= p.thisLength <= p.entireLength == HEADER_SIZE + |body| && p.entireLength < TWO_32
  }

  /** What afc_receive_data reports; Device carries a status code other than success. */
  datatype Error = Success | MuxError | OpHeaderInvalid | IoError | NotEnoughData | NotSupported
    | InvalidArg | InternalError | Device(code: nat)

  const STATUS_SUCCESS: nat := 0

  /** What the client makes of the bytes it has received for a packet that is not empty. */
  function Verdict(operation: nat, got: seq<byte>): Error {
    if operation == OP_STATUS then
      var code := if |got| >= 8 then LongAt(got, 0) else TWO_64 - 1;
      if code == STATUS_SUCCESS then Success else Device(code)
    else if operation in {OP_DATA, OP_FILE_OPEN_RES, OP_FILE_TELL_RES} then Success
    else NotSupported
  }

  /** The meaning of a complete reply. */
  function Meaning(operation: nat, body: seq<byte>): Error {
    if body != [] then Verdict(operation, body) else if operation == OP_DATA then Success else IoError
  }

  function StatusBody(code: nat): (s: seq<byte>)
    ensures |s| == 8
  {
    Le64(code)
  }

  lemma {:induction false} StatusMeaning(code: nat)
    requires code < TWO_64
    ensures Meaning(OP_STATUS, StatusBody(code)) == if code == STATUS_SUCCESS then Success else Device(code)
  {
    Le64RoundTrip(code);
    assert StatusBody(code)[0..8] == StatusBody(code);
  }

  /** Which replies with content are successes, and which are not supported. */
  lemma {:induction false} VerdictExactly(operation: nat, got: seq<byte>)
    ensures Verdict(operation, got) == Success
      <==> operation in {0x02, 0x0E, 0x13} || (operation == 0x01 && |got| >= 8 && LongAt(got, 0) == 0)
    ensures Verdict(operation, got) == NotSupported <==> operation !in {0x01, 0x02, 0x0E, 0x13}
    ensures operation == 0x01 && |got| >= 8 && LongAt(got, 0) != 0 ==> Verdict(operation, got) == Device(LongAt(got, 0))
  {
  }
}
