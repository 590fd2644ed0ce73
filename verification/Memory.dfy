/** Copying between buffers, and the bookkeeping of buffers filled piece by piece. */
module Memory {
  import opened Bytes

  /** memcpy of bytes to data[offset..]. */
  method Copy(data: array<byte>, offset: nat, bytes: seq<byte>)
    requires offset + |bytes| <= data.Length
    modifies data
    ensures data[offset..offset + |bytes|] == bytes
    ensures data[..offset] == old(data[..offset])
    ensures forall i | 0 <= i < data.Length && !(offset <= i < offset + |bytes|) :: data[i] == old(data[i])
  {
    forall i | 0 <= i < |bytes| {
      data[offset + i] := bytes[i];
    }
  }

  /** A buffer that holds the stream from index from up to count holds it n bytes further once the
      next n bytes of the stream are put behind. */
  lemma {:induction false} Extended(stream: seq<byte>, before: seq<byte>, after: seq<byte>, from: nat, count: nat,
                                    n: nat)
    requires from <= count && count + n <= |before| == |after| && count - from + n <= |stream|
    requires before[from..count] == stream[..count - from]
    requires after[count..count + n] == stream[count - from..][..n] && after[..count] == before[..count]
    ensures after[from..count + n] == stream[..count + n - from] && after[..from] == before[..from]
    ensures stream[count - from..][n..] == stream[count + n - from..]
  {
    assert after[from..count] == after[..count][from..] && before[from..count] == before[..count][from..];
    assert after[from..count + n] == after[from..count] + after[count..count + n];
    assert after[..from] == after[..count][..from] && before[..from] == before[..count][..from];
  }
}
