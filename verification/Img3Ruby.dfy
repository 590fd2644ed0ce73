/** Img3File of img3file.rb: the second implementation of IMG3 signing, which keeps a plain list of
    elements and knows nothing about element types except SHSH. */
module Img3Ruby {
  import opened Bytes
  import opened Options
  import opened Img3Format

  /** The part of Ruby's StringIO the parser uses. */
  class StringIO {
    var rest: seq<byte>  // what has not been read yet

    constructor (data: seq<byte>)
      ensures rest == data
    {
      rest := data;
    }

    /** read(n): nil at the end of the data unless n is zero. */
    method Read(n: nat) returns (r: Option<seq<byte>>)
      modifies this
      ensures r == if n > 0 && old(rest) == [] then None else Some(old(rest)[..Min(n, |old(rest)|)])
      ensures rest == old(rest)[Min(n, |old(rest)|)..]
    {
      if n > 0 && rest == [] {
        return None;
      }
      r := Some(rest[..Min(n, |rest|)]);
      rest := rest[Min(n, |rest|)..];
    }
  }

  /** The elements parse_elements takes off a list: it stops once pos, which starts at the size of
      a container header even when there is none, has reached the total. */
  function Taken(es: seq<Element>, pos: nat, total: nat): (r: seq<Element>)
    decreases |es|
  {
    if es == [] || pos >= total then [] else [es[0]] + Taken(es[1..], pos + |es[0].bytes|, total)
  }

  function Keys(es: seq<Element>): (s: seq<nat>)
  {
    if es == [] then [] else [es[0].Type()] + Keys(es[1..])
  }

  /** The elements whose type is not among the keys, in order. */
  lemma {:induction false} KeptNext(tmp: seq<Element>, elements: seq<Element>, i: nat, keys: seq<nat>)
    requires i < |elements|
    ensures (if elements[i].Type() in keys then tmp else tmp + [elements[i]]) + Kept(elements[i + 1..], keys)
      == tmp + Kept(elements[i..], keys)
  {
    assert elements[i..][1..] == elements[i + 1..];
  }

  function Kept(es: seq<Element>, keys: seq<nat>): (r: seq<Element>)
  {
    if es == [] then []
    else (if es[0].Type() !in keys then [es[0]] else []) + Kept(es[1..], keys)
  }

  /** An element at the end is kept exactly if its type is none of the keys, behind what is kept of the others. */
  lemma {:induction false} KeptLast(es: seq<Element>, e: Element, keys: seq<nat>)
    ensures Kept(es + [e], keys) == Kept(es, keys) + if e.Type() in keys then [] else [e]
  {
    if es == [] {
      assert [] + [e] == [e] && [e][1..] == [];
    } else {
      KeptLast(es[1..], e, keys);
      assert (es + [e])[1..] == es[1..] + [e];
    }
  }

  /** The offset to_s records: that of the last SHSH element, counted from the first element. */
  function LastShsh(es: seq<Element>): (pos: nat)
  {
    if es == [] then 0
    else
      var e, front := es[|es| - 1], es[..|es| - 1];
      if e.Type() == SHSH then |Concat(front)| else LastShsh(front)
  }

  function ToBytes(h: Header, es: seq<Element>): (s: seq<byte>)
  {
    var size := |Concat(es)|;
    HeaderBytes(Header(h.signature, HEADER_SIZE + size, size, LastShsh(es), h.imageType)) + Concat(es)
  }

  class Img3File {
    var header: Header
    var elements: seq<Element>
    var elementkeys: seq<nat>

    constructor ()
      ensures elements == []
    {
      header := Header(0, 0, 0, 0, 0);
      elements, elementkeys := [], [];
    }

    /** parse */
    method Parse(input: StringIO, ghost es: seq<Element>)
      requires AllValid(es) && |input.rest| >= HEADER_SIZE && input.rest[HEADER_SIZE..] == Concat(es)
      modifies this, input
      ensures header == HeaderOf(old(input.rest))
      ensures elements == Taken(es, HEADER_SIZE, header.fullSize) && elementkeys == Keys(elements)
    {
      ghost var all := input.rest;
      var data := input.Read(HEADER_SIZE);
      HeaderPrefix(all);
      header := HeaderOf(data.value);
      elements, elementkeys := ParseElements(input, header.fullSize, es);
    }

    /** parse_elements, on a stream that holds whole elements. */
    static method ParseElements(input: StringIO, totalLen: nat, ghost es: seq<Element>)
      returns (elements: seq<Element>, elementkeys: seq<nat>)
      requires AllValid(es) && input.rest == Concat(es)
      modifies input
      ensures elements == Taken(es, HEADER_SIZE, totalLen) && AllValid(elements) && elementkeys == Keys(elements)
    {
      elements, elementkeys := [], [];
      var pos: nat := HEADER_SIZE;
      ghost var left := es;
      while pos < totalLen
        invariant AllValid(left) && input.rest == Concat(left)
        invariant AllValid(elements) && elementkeys == Keys(elements)
        invariant Taken(es, HEADER_SIZE, totalLen) == elements + Taken(left, pos, totalLen)
        decreases |left|, if left == [] then 0 else 1
      {
        var next := ReadElement(input, left);
        if next == None {
          break;
        }
        var element := next.value;
        KeysAppend(elements, element);
        TakenStep(elements, left, pos, totalLen);
        elementkeys := elementkeys + [element.Type()];
        elements := elements + [element];
        pos := pos + WordAt(element.bytes, 4);
        left := left[1..];
      }
    }

    /** One round of parse_elements: an element header, then the bytes it announces. */
    static method ReadElement(input: StringIO, ghost es: seq<Element>) returns (r: Option<Element>)
      requires AllValid(es) && input.rest == Concat(es)
      modifies input
      ensures r == (if es == [] then None else Some(es[0])) && (r.Some? ==> r.value.Valid())
      ensures es != [] ==> input.rest == Concat(es[1..])
    {
      ghost var s := input.rest;
      ConcatNonempty(es);
      var data := input.Read(ELEMENT_HEADER_SIZE);
      if data == None {
        return None;
      }
      FrontElement(es);
      var n := WordAt(data.value, 4);
      var payload := input.Read(n - ELEMENT_HEADER_SIZE);
      assert s[ELEMENT_HEADER_SIZE..][..n - ELEMENT_HEADER_SIZE] == s[ELEMENT_HEADER_SIZE..n];
      return Some(Element(data.value + payload.value));
    }

    /** The elements whose type the blob does not replace. */
    static method Reject(elements: seq<Element>, keys: seq<nat>) returns (tmp: seq<Element>)
      ensures tmp == Kept(elements, keys)
    {
      tmp := [];
      var i := 0;
      while i < |elements|
        invariant i <= |elements|
        invariant tmp + Kept(elements[i..], keys) == Kept(elements, keys)
      {
        KeptNext(tmp, elements, i, keys);
        if elements[i].Type() !in keys {
          tmp := tmp + [elements[i]];
        }
        i := i + 1;
      }
    }

    /** update_elements: the blob's elements replace those of the same type and go to the end. */
    method UpdateElements(input: StringIO, totalLen: nat, ghost es: seq<Element>)
      requires AllValid(es) && input.rest == Concat(es)
      modifies this, input
      ensures header == old(header)
      ensures elements == Kept(old(elements), Keys(Taken(es, HEADER_SIZE, totalLen))) + Taken(es, HEADER_SIZE, totalLen)
    {
      var parsed, keys := ParseElements(input, totalLen, es);
      var tmp := Reject(elements, keys);
      elements := tmp + parsed;
      elementkeys := keys;
    }

    /** to_s */
    method ToS() returns (s: seq<byte>)
      requires AllValid(elements) && HEADER_SIZE + |Concat(elements)| < TWO_32
      ensures s == ToBytes(header, elements)
    {
      var tmp: seq<byte> := [];
      var out := Header(0, 0, 0, 0, 0);
      var pos := 0;
      var i := 0;
      while i < |elements|
        invariant i <= |elements|
        invariant tmp == Concat(elements[..i]) && pos == |tmp|
        invariant out == Header(0, 0, 0, LastShsh(elements[..i]), 0)
      {
        var e := elements[i];
        assert e.Valid();
        assert elements[..i + 1] == elements[..i] + [e];
        assert [e][1..] == [];
        ConcatAppend(elements[..i], [e]);
        if e.Type() == SHSH {
          out := out.(shshOffset := pos);
        }
        tmp := tmp + e.bytes;
        pos := pos + WordAt(e.bytes, 4);
        i := i + 1;
      }
      assert elements[..i] == elements;
      out := out.(signature := header.signature, imageType := header.imageType);
      out := out.(fullSize := pos + HEADER_SIZE, dataSize := pos);
      s := HeaderBytes(out) + tmp;
    }
  }

  lemma {:induction false} TakenStep(done: seq<Element>, left: seq<Element>, pos: nat, total: nat)
    requires left != [] && pos < total
    ensures done + Taken(left, pos, total) == (done + [left[0]]) + Taken(left[1..], pos + |left[0].bytes|, total)
  {
  }

  lemma {:induction false} HeaderPrefix(s: seq<byte>)
    requires |s| >= HEADER_SIZE
    ensures HeaderOf(s[..HEADER_SIZE]) == HeaderOf(s)
  {
    var t := s[..HEADER_SIZE];
    assert t[0..4] == s[0..4] && t[4..8] == s[4..8] && t[8..12] == s[8..12];
    assert t[12..16] == s[12..16] && t[16..20] == s[16..20];
  }

  lemma {:induction false} KeysAppend(es: seq<Element>, e: Element)
    ensures Keys(es + [e]) == Keys(es) + [e.Type()]
  {
    if es == [] {
      assert es + [e] == [e];
    } else {
      KeysAppend(es[1..], e);
      assert (es + [e])[1..] == es[1..] + [e];
    }
  }

  /** Reading an element header and then the rest of its bytes yields the first element. */
  lemma {:induction false} FrontElement(es: seq<Element>)
    requires es != [] && AllValid(es)
    ensures var s, e := Concat(es), es[0];
      var n := |e.bytes|;
      && |s| >= n >= ELEMENT_HEADER_SIZE
      && WordAt(s[..ELEMENT_HEADER_SIZE], 0) == e.Type() && WordAt(s[..ELEMENT_HEADER_SIZE], 4) == n
      && s[..ELEMENT_HEADER_SIZE] + s[ELEMENT_HEADER_SIZE..n] == e.bytes
      && s[n..] == Concat(es[1..])
  {
    var s, e := Concat(es), es[0];
    assert e.Valid();
    var h := s[..ELEMENT_HEADER_SIZE];
    assert h[0..4] == e.bytes[0..4] && h[4..8] == e.bytes[4..8];
  }
}
