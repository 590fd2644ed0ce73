/** The mobilebackup2 receiver on names of forbidden length and on files that start with a code other than
    that of data. */
module Backup2Malformed {
  import opened Bytes
  import opened Chunks
  import opened Options
  import opened Backup2Format
  import opened Backup2Stream

  /** A name of n bytes that is there is taken exactly if n is from 1 to 4096; any other length ends the loop
      behind the length. */
  lemma {:induction false} NameLimit(s: State, n: nat, tail: seq<byte>)
    requires n < TWO_32 && s.stream == Be32(n) + tail && |tail| >= n
    ensures Names(s) ==
      if 1 <= n <= 4096 then StoredName(s.(stream := tail[n..])) else Stop(s.(stream := tail, nlen := n))
    ensures StoredName(s) ==
      if 1 <= n <= 4096 then Go(s.(stream := tail[n..], nlen := n, bname := Some(CString(tail[..n]))))
      else Stop(s.(stream := tail, nlen := n))
  {
    LengthRead(n, tail, s.nlen);
    LengthRead(n, tail, 0);
  }

  /** A device's name of more than 4096 bytes behind complete files: it is skipped but for its last byte, and
      the file before it is removed, unless the length is negative as a signed number. */
  lemma {:induction false} OverlongName(tree: Tree, files: seq<Entry>, n: nat, tail: seq<byte>)
    requires AllComplete(files) && files != [] && 4096 < n < TWO_32
    ensures var r, all := Received(Entries(files) + (Be32(n) + tail), tree), Applied(tree, files);
      && (r.None? <==> n == 0x8000_0000)
      && (r.Some? ==> r.value.count == |files|)
      && (n < 0x8000_0000 ==>
        && r.value.tree == all - {CString(files[|files| - 1].name)}
        && r.value.stream == tail[if n - 1 <= |tail| then n - 1 else |tail|..])
      && (n > 0x8000_0000 ==> r.value.tree == all && r.value.stream == tail)
  {
    var more := Be32(n) + tail;
    var s := State(Entries(files) + more, tree, 0, 0, None, 0);
    RoundsOfEntries(s, files, more);
    EnteredAllIs(s, files, more);
    StopsAtLength(EnteredAll(s, files, more), n, tail);
  }

  lemma {:induction false} StopsAtLength(r: State, n: nat, tail: seq<byte>)
    requires 4096 < n < TWO_32 && r.stream == Be32(n) + tail
    ensures Rounds(r) == Some(r.(stream := tail, nlen := n))
  {
    LengthRead(n, tail, r.nlen);
    assert Names(r) == Stop(r.(stream := tail, nlen := n));
  }

  /** A file whose first code is not that of data is created empty and counted.  Behind the code of an error
      of the device, 0x0B, its message is skipped; behind any other code nothing is. */
  lemma {:induction false} OtherCode(s: State, device: seq<byte>, name: seq<byte>, n: nat, code: byte, tail: seq<byte>)
    requires 0 < |device| <= 4096 && 0 < |name| <= 4096 && 1 < n < TWO_32 && code != 0x0C
    requires s.stream == Named(device) + (Named(name) + (Be32(n) + ([code] + tail)))
    ensures var file, skipped := CString(name), if code != 0x0B then 0 else if n - 1 <= |tail| then n - 1 else |tail|;
      Round(s) == Some(Go(State(tail[skipped..], s.tree[file := []], n, code, Some(file), s.count + 1)))
  {
    var more := Be32(n) + ([code] + tail);
    NamesOf(s, device, name, more);
    NamedFile(s, s.(stream := more, nlen := |name|, bname := Some(CString(name))), CString(name), n, code, tail);
  }

  lemma {:induction false} NamedFile(s: State, named: State, file: Path, n: nat, code: byte, tail: seq<byte>)
    requires 1 < n < TWO_32 && code != 0x0C && Names(s) == Go(named) && named.stream == Be32(n) + ([code] + tail)
    requires named.bname == Some(file) && named.tree == s.tree && named.count == s.count
    ensures var skipped := if code != 0x0B then 0 else if n - 1 <= |tail| then n - 1 else |tail|;
      Round(s) == Some(Go(State(tail[skipped..], s.tree[file := []], n, code, Some(file), s.count + 1)))
  {
    var h := named.(stream := tail, nlen := n, code := code);
    FirstCode(named, n, code, tail);
    RoundIsBody(s, named, h);
    EmptyBody(h, file);
  }

  lemma {:induction false} RoundIsBody(s: State, named: State, h: State)
    requires Names(s) == Go(named) && Head(named) == Go(h) && h.bname.Some?
    ensures Round(s) == Body(h)
  {
  }

  lemma {:induction false} EmptyBody(h: State, file: Path)
    requires h.bname == Some(file) && h.nlen > 1 && h.code != 0x0C
    ensures var skipped := if h.code != 0x0B then 0 else if h.nlen - 1 <= |h.stream| then h.nlen - 1 else |h.stream|;
      Body(h) == Some(Go(State(h.stream[skipped..], h.tree[file := []], h.nlen, h.code, Some(file), h.count + 1)))
  {
    var emptied := h.(tree := h.tree[file := []]);
    assert Blocks(emptied) == emptied && h.stream[0..] == h.stream;
  }

  lemma {:induction false} FirstCode(s: State, n: nat, code: byte, tail: seq<byte>)
    requires n < TWO_32 && s.stream == Be32(n) + ([code] + tail)
    ensures Head(s) == Go(s.(stream := tail, nlen := n, code := code))
  {
    LengthRead(n, [code] + tail, 0);
    assert s.stream[..4] == Be32(n) && s.stream[4] == code && s.stream[5..] == tail;
    Be32RoundTrip(n);
  }
}
