/** The byte transport to the device, with an adversary deciding how much each call moves. */
module Transport {
  import opened Bytes
  import opened Chunks
  import opened Memory
  import opened Options

  /** Bytes handed over by a call that asks for len with avail at hand: a nonempty fragment of the
      adversary's choosing, or nothing when nothing can move. */
  function Fragment(wish: nat, len: nat, avail: nat): (n: nat)
    ensures n <= len && n <= avail
    ensures len > 0 && avail > 0 ==> n > 0
    ensures avail >= len ==> (n == len <==> Whole(wish, len))
  {
    var m := Min(len, avail);
    if m == 0 then 0 else if wish == 0 then 1 else Min(wish, m)
  }

  /** A fragment of len bytes is not cut short; a single byte cannot be. */
  predicate Whole(wish: nat, len: nat) {
    len <= 1 || wish >= len
  }

  /** The bytes of data that one send puts on the wire. */
  function Taken(data: seq<byte>, wish: nat): (s: seq<byte>)
    ensures s <= data && (s == data <==> Whole(wish, |data|))
  {
    data[..Fragment(wish, |data|, |data|)]
  }

  /** What sends of pieces, the first of them number k, put on the wire when nobody looks at what they
      report. */
  function Sent(pieces: seq<seq<byte>>, schedule: nat -> nat, k: nat): (s: seq<byte>) {
    if pieces == [] then [] else Taken(pieces[0], schedule(k)) + Sent(pieces[1..], schedule, k + 1)
  }

  /** No send of the pieces comes short. */
  predicate AllWhole(pieces: seq<seq<byte>>, schedule: nat -> nat, k: nat) {
    pieces == [] || (Whole(schedule(k), |pieces[0]|) && AllWhole(pieces[1..], schedule, k + 1))
  }

  /** The pieces put together are on the wire if and only if no send comes short; otherwise less is. */
  lemma {:induction false} SentExactly(pieces: seq<seq<byte>>, schedule: nat -> nat, k: nat)
    ensures |Sent(pieces, schedule, k)| <= |Flatten(pieces)|
    ensures Sent(pieces, schedule, k) == Flatten(pieces) <==> AllWhole(pieces, schedule, k)
    ensures |Sent(pieces, schedule, k)| == |Flatten(pieces)| <==> AllWhole(pieces, schedule, k)
  {
    if pieces != [] {
      SentExactly(pieces[1..], schedule, k + 1);
      SameParts(Taken(pieces[0], schedule(k)), Sent(pieces[1..], schedule, k + 1), pieces[0], Flatten(pieces[1..]));
    }
  }

  /** Parts no longer than others make up the same whole only if they are the same. */
  lemma {:induction false} SameParts(a: seq<byte>, b: seq<byte>, c: seq<byte>, d: seq<byte>)
    requires |a| <= |c| && |b| <= |d|
    ensures a + b == c + d <==> a == c && b == d
  {
    if a + b == c + d {
      assert |a + b| == |a| + |b| && |c + d| == |c| + |d|;
      assert (a + b)[..|a|] == a && (c + d)[..|c|] == c && (a + b)[|a|..] == b && (c + d)[|c|..] == d;
    }
  }

  lemma {:induction false} SentSum(a: seq<seq<byte>>, b: seq<seq<byte>>, schedule: nat -> nat, k: nat)
    ensures Sent(a + b, schedule, k) == Sent(a, schedule, k) + Sent(b, schedule, k + |a|)
    ensures AllWhole(a + b, schedule, k) <==> AllWhole(a, schedule, k) && AllWhole(b, schedule, k + |a|)
    decreases |a|
  {
    if a == [] {
      assert a + b == b;
    } else {
      SentSum(a[1..], b, schedule, k + 1);
      FirstSent(a, b, schedule, k);
      Regroup(Taken(a[0], schedule(k)), Sent(a[1..], schedule, k + 1), Sent(b, schedule, k + |a|));
    }
  }

  lemma {:induction false} FirstSent(a: seq<seq<byte>>, b: seq<seq<byte>>, schedule: nat -> nat, k: nat)
    requires a != []
    ensures Sent(a + b, schedule, k) == Taken(a[0], schedule(k)) + Sent(a[1..] + b, schedule, k + 1)
    ensures AllWhole(a + b, schedule, k) <==> Whole(schedule(k), |a[0]|) && AllWhole(a[1..] + b, schedule, k + 1)
  {
    assert (a + b)[1..] == a[1..] + b;
  }

  /** A connection to the device; bytes sent accumulate in outgoing, bytes still to be received
      wait in incoming. */
  class Connection {
    const schedule: nat -> nat      // how much the i-th receive would like to hand over
    const sendSchedule: nat -> nat  // how much the i-th send would like to take
    var calls: nat
    var sends: nat
    var incoming: seq<byte>
    var outgoing: seq<byte>

    constructor (schedule: nat -> nat, sendSchedule: nat -> nat, stream: seq<byte>)
      ensures this.schedule == schedule && this.sendSchedule == sendSchedule
      ensures calls == 0 && sends == 0 && incoming == stream && outgoing == []
    {
      this.schedule, this.sendSchedule := schedule, sendSchedule;
      calls, sends, incoming, outgoing := 0, 0, stream, [];
    }

    /** idevice_connection_receive: one call, at most len bytes into buf at off. */
    method Receive(buf: array<byte>, off: nat, len: nat) returns (got: nat)
      requires off + len <= buf.Length
      modifies this`incoming, this`calls, buf
      ensures got == Fragment(schedule(old(calls)), len, |old(incoming)|)
      ensures calls == old(calls) + 1
      ensures incoming == old(incoming)[got..]
      ensures buf[off..off + got] == old(incoming)[..got]
      ensures buf[..off] == old(buf[..off]) && buf[off + got..] == old(buf[off + got..])
    {
      got := Fragment(schedule(calls), len, |incoming|);
      forall i | 0 <= i < got {
        buf[off + i] := incoming[i];
      }
      incoming := incoming[got..];
      calls := calls + 1;
    }

    /** idevice_connection_send: one call, takes a prefix of data. */
    method Send(data: seq<byte>) returns (sent: nat)
      modifies this`outgoing, this`sends
      ensures sends == old(sends) + 1
      ensures outgoing == old(outgoing) + Taken(data, sendSchedule(old(sends)))
          && sent == |Taken(data, sendSchedule(old(sends)))|
    {
      sent := Fragment(sendSchedule(sends), |data|, |data|);
      outgoing := outgoing + data[..sent];
      sends := sends + 1;
    }
  }

  /** internal_ssl_read: repeats short reads until the TLS layer has all it asked for.  None stands for
      the error of a receive that brings nothing: from a stream that has ended, or of no bytes. */
  method SslRead(conn: Connection, buffer: array<byte>, length: nat) returns (tbytes: Option<nat>)
    requires length <= buffer.Length
    modifies conn`incoming, conn`calls, buffer
    ensures tbytes == if 0 < length <= |old(conn.incoming)| then Some(length) else None
    ensures var n := Min(length, |old(conn.incoming)|);
      && buffer[..n] == old(conn.incoming)[..n] && buffer[n..] == old(buffer[..])[n..]
      && conn.incoming == old(conn.incoming)[n..]
  {
    var total := 0;
    var posStartFill := 0;
    var thisLen := length;
    ghost var stream, was := conn.incoming, buffer[..];
    var recvBuffer := new byte[thisLen];
    while true
      invariant total == posStartFill <= length && thisLen == length - total && total <= |stream|
      invariant length > 0 ==> total < length
      invariant buffer[..total] == stream[..total] && buffer[total..] == was[total..]
      invariant conn.incoming == stream[total..]
      decreases length - total
    {
      ghost var before := buffer[..];
      var bytes := conn.Receive(recvBuffer, 0, thisLen);
      assert buffer[..] == before;
      if bytes == 0 {
        return None;
      }
      Copy(buffer, posStartFill, recvBuffer[..bytes]);
      Extended(stream, before, buffer[..], 0, total, bytes);
      Untouched(was, before, buffer[..], total, bytes);
      total := total + bytes;
      posStartFill := posStartFill + bytes;
      if total >= length {
        break;
      }
      thisLen := length - total;
    }
    tbytes := Some(total);
  }

  lemma {:induction false} Untouched(was: seq<byte>, before: seq<byte>, after: seq<byte>, at: nat, n: nat)
    requires |was| == |before| == |after| && at + n <= |was| && before[at..] == was[at..]
    requires forall i | 0 <= i < |after| && !(at <= i < at + n) :: after[i] == before[i]
    ensures after[at + n..] == was[at + n..]
  {
    assert was[at..][n..] == was[at + n..] && before[at..][n..] == before[at + n..];
  }
}
