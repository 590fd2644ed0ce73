/** Directory listings through the AFC client: a request, its reply, the list of strings made of it. */
module AfcDirectory {
  import opened Bytes
  import opened Options
  import opened AfcFrame
  import opened AfcDevice
  import opened AfcClient
  import opened AfcStrings

  /** The names a device lists, each with its terminator, are the names in the list made of them. */
  lemma {:induction false} ListedNames(listing: seq<byte>, list: Option<seq<seq<byte>>>, names: seq<seq<byte>>)
    requires list.None? <==> listing == []
    requires list.Some? ==> Holds(listing, list.value)
    requires AllNulFree(names) && Terminated(names) == listing
    ensures list == if names == [] then None else Some(names)
  {
    if names != [] {
      assert Terminated(names) + [] == Terminated(names);
      ListRoundTrip(names, [], list.value);
    }
  }

  /** afc_read_directory.  Every exit leaves the mutex free; a list is what the listing holds, and there
      is none for an empty listing. */
  method ReadDirectory(client: AfcClient, device: Device, dir: seq<byte>)
    returns (ret: Error, list: Option<seq<seq<byte>>>)
    requires SendsWhole(client.conn) && client.Quiet() && HEADER_SIZE + |dir| + 1 < TWO_32
    requires forall d :: d in device.directories ==> HEADER_SIZE + |device.directories[d]| < TWO_32
    modifies client, client.conn, device
    ensures !client.locked && device.files == old(device.files)
    ensures ret == Success ==> client.Quiet() && dir in device.directories
    ensures ret == Success && dir in device.directories ==>
      && (list.None? <==> device.directories[dir] == [])
      && (list.Some? ==> Holds(device.directories[dir], list.value))
      && forall names :: AllNulFree(names) && Terminated(names) == device.directories[dir] ==>
        list == if names == [] then None else Some(names)
    ensures KeepsHeads(client.conn, device) ==>
      client.Quiet() && ret == if dir in device.directories then Success else Error.Device(NO_SUCH_HANDLE)
  {
    list := None;
    client.Lock();
    ghost var body;
    var data;
    ret, data, body := RequestListing(client, device, dir);
    if ret != Success {
      client.Unlock();
      return;
    }
    if data != null {
      list := MakeStringsList(data[..]);
    }
    client.Unlock();
    forall names | AllNulFree(names) && Terminated(names) == device.directories[dir]
      ensures list == if names == [] then None else Some(names)
    {
      ListedNames(device.directories[dir], list, names);
    }
  }

  /** Between the lock and its release: the request and the reply. */
  method RequestListing(client: AfcClient, device: Device, dir: seq<byte>)
    returns (ret: Error, data: array?<byte>, ghost body: seq<byte>)
    requires SendsWhole(client.conn) && HEADER_SIZE + |dir| + 1 < TWO_32
    requires client.locked && client.conn.outgoing == [] && client.conn.incoming == [] && client.packetNum < TWO_64
    requires forall d :: d in device.directories ==> HEADER_SIZE + |device.directories[d]| < TWO_32
    modifies client, client.conn, device
    ensures client.locked && client.conn.outgoing == [] && client.packetNum < TWO_64
        && device.files == old(device.files)
    ensures ret == Success ==>
      client.conn.incoming == [] && dir in device.directories && body == device.directories[dir]
    ensures ret == Success ==> if body == [] then data == null else data != null && data[..] == body
    ensures KeepsHeads(client.conn, device) ==>
      client.conn.incoming == [] && ret == if dir in device.directories then Success else Error.Device(NO_SUCH_HANDLE)
  {
    client.operation := OP_READ_DIR;
    client.entireLength, client.thisLength := 0, 0;
    var sent, n := client.DispatchWhole(dir + [0]);
    if sent != Success {
      assert false;  // the lengths are not set
    }
    ghost var p;
    p, body := device.ServeDirectory(client.conn, client.Header(), dir);
    var bytes;
    ret, data, bytes := client.ReceiveAnswer(device, p, body, dir in device.directories);
  }
}
