/** End to end: bytes written through the AFC client come back unchanged, however the caller cuts
    the writes and the reads, and however the device and the transport cut the replies. */
module AfcTransfer {
  import opened Bytes
  import opened Chunks
  import opened Options
  import opened Transport
  import opened AfcFrame
  import opened AfcDevice
  import opened AfcClient

  /** The file holds a part of the data, from its front, written at its position. */
  ghost predicate PrefixWritten(start: map<nat, OpenFile>, now: map<nat, OpenFile>, handle: nat, data: seq<byte>) {
    exists n :: Progress(start, now, handle, data, n)
  }

  /** Write chunks through afc_file_write until a call fails.  When none does, every call has reported
      the length of its chunk and the file holds all of the data; otherwise it holds a front part. */
  method WriteAll(client: AfcClient, device: Device, handle: nat, chunks: seq<seq<byte>>)
    returns (ret: Error, reports: seq<nat>)
    requires SendsWhole(client.conn) && client.Quiet() && device.Valid()
    requires 0 < handle < TWO_64 && handle in device.files
    requires forall i :: 0 <= i < |chunks| ==> |chunks[i]| < TWO_32
    modifies client, client.conn, device
    ensures !client.locked && device.Valid()
    ensures PrefixWritten(old(device.files), device.files, handle, Flatten(chunks))
    ensures ret == Success ==>
      && client.Quiet()
      && device.files == old(device.files)[handle := Written(old(device.files)[handle], Flatten(chunks))]
      && |reports| == |chunks| && forall i :: 0 <= i < |chunks| ==> reports[i] == |chunks[i]|
    ensures KeepsHeads(client.conn, device) ==> ret == Success
  {
    reports := [];
    var i := 0;
    ghost var start := device.files;
    WrittenNothing(start[handle]);
    while i < |chunks|
      invariant i <= |chunks| && client.Quiet() && device.Valid()
      invariant device.files == start[handle := Written(start[handle], Flatten(chunks[..i]))]
      invariant |reports| == i && forall j :: 0 <= j < i ==> reports[j] == |chunks[j]|
    {
      ghost var between := device.files;
      var n;
      ret, n := client.FileWrite(device, handle, chunks[i]);
      if ret != Success {
        PartsWritten(start, between, device.files, handle, chunks, i);
        return;
      }
      FlattenSnoc(chunks, i);
      WrittenTwice(start[handle], Flatten(chunks[..i]), chunks[i]);
      reports := reports + [n];
      i := i + 1;
    }
    assert chunks[..i] == chunks;
    ret := Success;
    WholeIsPrefix(start, handle, Flatten(chunks));
  }

  lemma {:induction false} WholeIsPrefix(start: map<nat, OpenFile>, handle: nat, data: seq<byte>)
    requires handle in start && forall h :: h in start ==> start[h].Valid()
    ensures PrefixWritten(start, start[handle := Written(start[handle], data)], handle, data)
  {
    assert data[..|data|] == data;
    assert Progress(start, start[handle := Written(start[handle], data)], handle, data, |data|);
  }

  /** What the i-th write, whole or cut off, adds to what the earlier ones have written. */
  lemma {:induction false} PartWritten(start: map<nat, OpenFile>, now: map<nat, OpenFile>, handle: nat,
                                       chunks: seq<seq<byte>>, i: nat, n: nat)
    requires handle in start && i < |chunks| && forall h :: h in start ==> start[h].Valid()
    requires Progress(start[handle := Written(start[handle], Flatten(chunks[..i]))], now, handle, chunks[i], n)
    ensures Progress(start, now, handle, Flatten(chunks), |Flatten(chunks[..i])| + n)
  {
    FlattenUpTo(chunks, i, n);
    WrittenTwice(start[handle], Flatten(chunks[..i]), chunks[i][..n]);
  }

  lemma {:induction false} PartsWritten(start: map<nat, OpenFile>, between: map<nat, OpenFile>,
                                        now: map<nat, OpenFile>, handle: nat, chunks: seq<seq<byte>>, i: nat)
    requires handle in start && i < |chunks| && forall h :: h in start ==> start[h].Valid()
    requires between == start[handle := Written(start[handle], Flatten(chunks[..i]))]
    requires PrefixWritten(between, now, handle, chunks[i])
    ensures PrefixWritten(start, now, handle, Flatten(chunks))
  {
    var n :| Progress(between, now, handle, chunks[i], n);
    PartWritten(start, now, handle, chunks, i, n);
  }

  /** Read pieces of the given sizes through afc_file_read until a call fails; when none does, the data
      are the next bytes of the file. */
  method ReadAll(client: AfcClient, device: Device, handle: nat, sizes: seq<nat>) returns (ret: Error, data: seq<byte>)
    requires SendsWhole(client.conn) && client.Quiet() && device.Valid()
    requires 0 < handle < TWO_64 && handle in device.files
    requires forall i :: 0 <= i < |sizes| ==> sizes[i] < TWO_32
    modifies client, client.conn, device
    ensures !client.locked && device.Valid()
    ensures data <= Next(old(device.files)[handle], Sum(sizes))
    ensures ret == Success ==> client.Quiet() && data == Next(old(device.files)[handle], Sum(sizes))
    ensures KeepsHeads(client.conn, device) ==> ret == Success
  {
    data := [];
    var i := 0;
    ghost var start := device.files;
    assert start[handle := Advanced(start[handle], 0)] == start;
    while i < |sizes|
      invariant i <= |sizes| && client.Quiet() && device.Valid()
      invariant device.files == start[handle := Advanced(start[handle], Sum(sizes[..i]))]
      invariant data == Next(start[handle], Sum(sizes[..i]))
    {
      var buffer := new byte[sizes[i]];
      var n;
      ret, n := client.FileRead(device, handle, buffer, sizes[i]);
      SumSplit(sizes, i);
      if ret != Success {
        return;
      }
      NextTwice(start[handle], Sum(sizes[..i]), sizes[i]);
      data := data + buffer[..n];
      i := i + 1;
    }
    assert sizes[..i] == sizes;
    ret := Success;
  }

  /** Write, go back, read: if no call fails, the file's bytes from where the writing started, which are
      the bytes written followed by what was behind them. */
  method WriteThenRead(client: AfcClient, device: Device, handle: nat, chunks: seq<seq<byte>>, sizes: seq<nat>)
    returns (ret: Error, data: seq<byte>)
    requires SendsWhole(client.conn) && client.Quiet() && device.Valid()
    requires 0 < handle < TWO_64 && handle in device.files && device.files[handle].pos < TWO_64 / 2
    requires forall i :: 0 <= i < |chunks| ==> |chunks[i]| < TWO_32
    requires forall i :: 0 <= i < |sizes| ==> sizes[i] < TWO_32
    modifies client, client.conn, device
    ensures ret == Success ==>
      var f, written := old(device.files)[handle], Flatten(chunks);
      var all := written + f.content[Min(f.pos + |written|, |f.content|)..];
      data == all[..Min(Sum(sizes), |all|)]
    ensures ret == Success && Sum(sizes) == |Flatten(chunks)| ==> data == Flatten(chunks)
    ensures KeepsHeads(client.conn, device) ==> ret == Success
  {
    var reports;
    var pos := device.files[handle].pos;
    data := [];
    ghost var back := ReadBack(device.files[handle], Flatten(chunks), Sum(sizes));
    ret, reports := WriteAll(client, device, handle, chunks);
    if ret != Success {
      return;
    }
    ret := client.FileSeek(device, handle, pos, SEEK_SET);
    if ret != Success {
      return;
    }
    ret, data := ReadAll(client, device, handle, sizes);
  }

  /** The file after writing and going back. */
  lemma {:induction false} ReadBack(f: OpenFile, written: seq<byte>, n: nat) returns (g: OpenFile)
    requires f.Valid()
    ensures g.Valid() && Sought(Written(f, written), SEEK_SET, f.pos) == Some(g)
    ensures var all := written + f.content[Min(f.pos + |written|, |f.content|)..];
      && Next(g, n) == all[..Min(n, |all|)]
      && (n == |written| ==> all[..Min(n, |all|)] == written)
  {
    var all := written + f.content[Min(f.pos + |written|, |f.content|)..];
    g := OpenFile(Written(f, written).content, f.pos);
    assert Written(f, written).content == f.content[..f.pos] + all;
    assert g.content[f.pos..] == all;
  }

  /** Open and read: if no call fails, the first bytes of what the device holds under the name, through a
      handle that no other file had. */
  method OpenThenRead(client: AfcClient, device: Device, filename: seq<byte>, mode: nat, sizes: seq<nat>)
    returns (ret: Error, handle: nat, data: seq<byte>)
    requires SendsWhole(client.conn) && client.Quiet() && device.Valid()
    requires mode < TWO_64 && HEADER_SIZE + 9 + |filename| < TWO_32
    requires forall i :: 0 <= i < |sizes| ==> sizes[i] < TWO_32
    modifies client, client.conn, device
    ensures ret == Success ==>
      && handle != 0 && handle !in old(device.files) && device.contents(filename, mode).Some?
      && var all := device.contents(filename, mode).value; data == all[..Min(Sum(sizes), |all|)]
    ensures KeepsHeads(client.conn, device) ==> (ret == Success <==> old(device.Granted(filename, mode)).Some?)
  {
    data := [];
    ret, handle := client.FileOpen(device, filename, mode);
    if ret != Success {
      return;
    }
    ret, data := ReadAll(client, device, handle, sizes);
  }

  /** Seek and read: if no call fails, the bytes from the place on that origin 0, 1 or 2 and offset name:
      counted from the front of the file, from the position, or from the end. */
  method SeekThenRead(client: AfcClient, device: Device, handle: nat, offset: int, whence: int, sizes: seq<nat>)
    returns (ret: Error, data: seq<byte>)
    requires SendsWhole(client.conn) && client.Quiet() && device.Valid() && IsLong(offset) && IsLong(whence)
    requires 0 < handle < TWO_64 && handle in device.files
    requires forall i :: 0 <= i < |sizes| ==> sizes[i] < TWO_32
    modifies client, client.conn, device
    ensures var f := old(device.files)[handle];
      var at := offset + if whence == 0 then 0 else if whence == 1 then f.pos else |f.content|;
      && (ret == Success ==>
        0 <= whence <= 2 && 0 <= at <= |f.content| && data == f.content[at..][..Min(Sum(sizes), |f.content| - at)])
      && (KeepsHeads(client.conn, device) ==> (ret == Success <==> 0 <= whence <= 2 && 0 <= at <= |f.content|))
  {
    data := [];
    ghost var g := SoughtPlace(device.files[handle], whence, offset, Sum(sizes));
    ret := client.FileSeek(device, handle, offset, whence);
    if ret != Success {
      return;
    }
    ret, data := ReadAll(client, device, handle, sizes);
  }

  /** Where a seek leads, and the bytes there. */
  lemma {:induction false} SoughtPlace(f: OpenFile, whence: int, offset: int, n: nat) returns (g: OpenFile)
    requires f.Valid()
    ensures var at := offset + if whence == 0 then 0 else if whence == 1 then f.pos else |f.content|;
      && (Sought(f, whence, offset).Some? <==> 0 <= whence <= 2 && 0 <= at <= |f.content|)
      && (Sought(f, whence, offset).Some? ==>
        Sought(f, whence, offset) == Some(g) && Next(g, n) == f.content[at..][..Min(n, |f.content| - at)])
    ensures g.Valid()
  {
    g := f;
    if Sought(f, whence, offset).Some? {
      g := Sought(f, whence, offset).value;
    }
  }
}
