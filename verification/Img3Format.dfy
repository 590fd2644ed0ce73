/** The IMG3 container: tagged elements, the eleven slots they are filed under, and the byte
    layout, as values.  The parser, the signer and the serialiser are specified here. */
module Img3Format {
  import opened Bytes
  import Chunks
  import opened Options

  const HEADER_SIZE: nat := 20
  const ELEMENT_HEADER_SIZE: nat := 12

  const IMG3: nat := 0x496D6733
  const DATA: nat := 0x44415441
  const TYPE: nat := 0x54595045
  const KBAG: nat := 0x4B424147
  const SHSH: nat := 0x53485348
  const CERT: nat := 0x43455254
  const VERS: nat := 0x56455253
  const BORD: nat := 0x424F5244
  const SEPO: nat := 0x5345504F
  const ECID: nat := 0x45434944
  const SALT: nat := 0x53414C54

  datatype Header = Header(signature: nat, fullSize: nat, dataSize: nat, shshOffset: nat, imageType: nat)

  function HeaderBytes(h: Header): (s: seq<byte>)
    ensures |s| == HEADER_SIZE
  {
    Le32(h.signature) + Le32(h.fullSize) + Le32(h.dataSize) + Le32(h.shshOffset) + Le32(h.imageType)
  }

  function WordAt(s: seq<byte>, off: nat): (n: nat)
    requires off + 4 <= |s|
    ensures n < TWO_32
  {
    FromLeBound(s[off..off + 4]);
    assert Pow256(4) == TWO_32;
    FromLe(s[off..off + 4])
  }

  function HeaderOf(s: seq<byte>): Header
    requires |s| >= HEADER_SIZE
  {
    Header(WordAt(s, 0), WordAt(s, 4), WordAt(s, 8), WordAt(s, 12), WordAt(s, 16))
  }

  predicate HeaderFits(h: Header) {
    h.signature < TWO_32 && h.fullSize < TWO_32 && h.dataSize < TWO_32 && h.shshOffset < TWO_32 && h.imageType < TWO_32
  }

  lemma {:induction false} HeaderRoundTrip(h: Header, rest: seq<byte>)
    requires HeaderFits(h)
    ensures HeaderOf(HeaderBytes(h) + rest) == h
  {
    var s := HeaderBytes(h) + rest;
    assert s[0..4] == Le32(h.signature) && s[4..8] == Le32(h.fullSize) && s[8..12] == Le32(h.dataSize);
    assert s[12..16] == Le32(h.shshOffset) && s[16..20] == Le32(h.imageType);
    Le32RoundTrip(h.signature); Le32RoundTrip(h.fullSize); Le32RoundTrip(h.dataSize);
    Le32RoundTrip(h.shshOffset); Le32RoundTrip(h.imageType);
  }

  /** An element with its own twelve-byte header (type, full size, data size) in front. */
  datatype Element = Element(bytes: seq<byte>) {
    predicate Valid() {
      |bytes| >= ELEMENT_HEADER_SIZE && WordAt(bytes, 4) == |bytes|
    }

    function Type(): nat {
      if |bytes| < 4 then 0 else WordAt(bytes, 0)
    }
  }

  predicate Known(tag: nat) {
    tag in {TYPE, DATA, VERS, SEPO, BORD, KBAG, ECID, SHSH, CERT, SALT}
  }

  predicate AllKnown(es: seq<Element>) {
    forall i {:trigger es[i].Valid()} {:trigger es[i].Type()} ::
      0 <= i < |es| ==> es[i].Valid() && Known(es[i].Type())
  }

  predicate AllValid(es: seq<Element>) {
    forall i {:trigger es[i].Valid()} :: 0 <= i < |es| ==> es[i].Valid()
  }

  function Concat(es: seq<Element>): (s: seq<byte>) {
    if es == [] then [] else es[0].bytes + Concat(es[1..])
  }

  lemma {:induction false} ConcatAppend(a: seq<Element>, b: seq<Element>)
    ensures Concat(a + b) == Concat(a) + Concat(b)
  {
    if a == [] {
      assert a + b == b;
    } else {
      ConcatAppend(a[1..], b);
      assert (a + b)[1..] == a[1..] + b;
      Chunks.Regroup(a[0].bytes, Concat(a[1..]), Concat(b));
    }
  }

  lemma {:induction false} ConcatNonempty(es: seq<Element>)
    requires AllValid(es)
    ensures es == [] <==> Concat(es) == []
  {
    if es != [] {
      assert es[0].Valid();
    }
  }

  /** Element boundaries can be recovered: equal bytes come from equal element lists. */
  lemma {:induction false} ConcatInjective(a: seq<Element>, b: seq<Element>)
    requires AllValid(a) && AllValid(b)
    requires Concat(a) == Concat(b)
    ensures a == b
  {
    ConcatNonempty(a);
    ConcatNonempty(b);
    if a != [] {
      assert b != [] && a[0].Valid() && b[0].Valid();
      var s := Concat(a);
      assert s[4..8] == a[0].bytes[4..8] && s[4..8] == b[0].bytes[4..8];
      assert s[..|a[0].bytes|] == a[0].bytes && s[..|b[0].bytes|] == b[0].bytes;
      assert s[|a[0].bytes|..] == Concat(a[1..]) && s[|b[0].bytes|..] == Concat(b[1..]);
      ConcatInjective(a[1..], b[1..]);
      assert a == [a[0]] + a[1..] && b == [b[0]] + b[1..];
    }
  }

  // ---------------------------------------------------------------- slots

  const SLOTS: nat := 11
  const KBAG1_SLOT: nat := 5
  const KBAG2_SLOT: nat := 6
  const ECID_SLOT: nat := 7
  const SHSH_SLOT: nat := 8
  const CERT_SLOT: nat := 9
  const SALT_SLOT: nat := 10

  /** The eleven element pointers of an image, in the order the serialiser copies them. */
  type Slots = s: seq<Option<Element>> | |s| == 11
    witness [None, None, None, None, None, None, None, None, None, None, None]

  const EMPTY: Slots := [None, None, None, None, None, None, None, None, None, None, None]

  /** The slot an element type belongs to; both KBAG slots have rank 5. */
  function Rank(tag: nat): (k: nat)
    requires Known(tag)
    ensures k < SLOTS && k != KBAG2_SLOT
  {
    if tag == TYPE then 0 else if tag == DATA then 1 else if tag == VERS then 2
    else if tag == SEPO then 3 else if tag == BORD then 4 else if tag == KBAG then 5
    else if tag == ECID then 7 else if tag == SHSH then 8 else if tag == CERT then 9
    else 10
  }

  /** The types in the order the serialiser copies the slots. */
  const ORDER: seq<nat> := [TYPE, DATA, VERS, SEPO, BORD, KBAG, KBAG, ECID, SHSH, CERT, SALT]

  function SlotRank(k: nat): nat {
    if k == KBAG2_SLOT then KBAG1_SLOT else k
  }

  /** Where the parser files e: its type's slot, the second KBAG slot once the first is taken. */
  function Target(slots: Slots, tag: nat): (k: nat)
    requires Known(tag)
    ensures k < SLOTS && SlotRank(k) == Rank(tag)
  {
    if tag == KBAG && slots[KBAG1_SLOT].Some? then KBAG2_SLOT else Rank(tag)
  }

  function Place(slots: Slots, e: Element): Slots
    requires e.Valid() && Known(e.Type())
  {
    slots[Target(slots, e.Type()) := Some(e)]
  }

  function PlaceAll(slots: Slots, es: seq<Element>): Slots
    requires AllKnown(es)
    decreases |es|
  {
    if es == [] then slots else PlaceAll(Place(slots, es[0]), es[1..])
  }

  lemma {:induction false} PlaceAllAppend(slots: Slots, a: seq<Element>, b: seq<Element>)
    requires AllKnown(a) && AllKnown(b)
    ensures AllKnown(a + b)
    ensures PlaceAll(slots, a + b) == PlaceAll(PlaceAll(slots, a), b)
    decreases |a|
  {
    if a == [] {
      assert a + b == b;
    } else {
      PlaceAllAppend(Place(slots, a[0]), a[1..], b);
      assert (a + b)[1..] == a[1..] + b;
    }
  }

  /** Each slot holds an element of its own type, and the second KBAG never comes without the first. */
  ghost predicate Typed(slots: Slots) {
    && (forall k :: 0 <= k < SLOTS && slots[k].Some? ==>
          slots[k].value.Valid() && Known(slots[k].value.Type()) && Rank(slots[k].value.Type()) == SlotRank(k))
    && (slots[KBAG2_SLOT].Some? ==> slots[KBAG1_SLOT].Some?)
  }

  lemma {:induction false} PlaceAllTyped(slots: Slots, es: seq<Element>)
    requires Typed(slots) && AllKnown(es)
    ensures Typed(PlaceAll(slots, es))
    decreases |es|
  {
    if es != [] {
      PlaceAllTyped(Place(slots, es[0]), es[1..]);
    }
  }

  /** The types an image may have, and the slots their elements are in. */
  lemma {:induction false} KnownTypes(tag: nat)
    ensures Known(tag) <==> tag in [0x54595045, 0x44415441, 0x56455253, 0x5345504F, 0x424F5244, 0x4B424147, 0x45434944,
                                    0x53485348, 0x43455254, 0x53414C54]
  {
  }

  lemma {:induction false} SlotTypes(slots: Slots, k: nat)
    requires Typed(slots) && k < SLOTS && slots[k].Some?
    ensures slots[k].value.Type() ==
      [0x54595045, 0x44415441, 0x56455253, 0x5345504F, 0x424F5244, 0x4B424147, 0x4B424147, 0x45434944, 0x53485348,
       0x43455254, 0x53414C54][k]
  {
  }

  /** The elements of a type, in their order. */
  function OfType(es: seq<Element>, tag: nat): (r: seq<Element>) {
    if es == [] then []
    else OfType(es[..|es| - 1], tag) + (if es[|es| - 1].Type() == tag then [es[|es| - 1]] else [])
  }

  lemma {:induction false} PlacedLast(slots: Slots, e: Element, k: nat)
    requires e.Valid() && Known(e.Type()) && k < SLOTS
    ensures Place(slots, e)[k] ==
      if e.Type() == ORDER[k] && (k == 5 ==> slots[5].None?) && (k == 6 ==> slots[5].Some?) then Some(e) else slots[k]
  {
  }

  lemma {:induction false} PlaceAllSnoc(slots: Slots, es: seq<Element>)
    requires AllKnown(es) && es != []
    ensures var n := |es| - 1;
      && AllKnown(es[..n]) && es[n].Valid() && Known(es[n].Type())
      && PlaceAll(slots, es) == Place(PlaceAll(slots, es[..n]), es[n])
  {
    var n := |es| - 1;
    assert es == es[..n] + [es[n]] && es[n].Valid();
    PlaceAllAppend(slots, es[..n], [es[n]]);
    assert PlaceAll(PlaceAll(slots, es[..n]), [es[n]]) == Place(PlaceAll(slots, es[..n]), es[n]);
  }

  /** The slots of an image after parsing: slot k has the last element of its type, the first KBAG slot
      the first KBAG, the second the last of the further ones. */
  lemma {:induction false} FiledExactly(es: seq<Element>, k: nat)
    requires AllKnown(es) && k < SLOTS
    ensures var slot := PlaceAll(EMPTY, es)[k];
      var of := OfType(es, [0x54595045, 0x44415441, 0x56455253, 0x5345504F, 0x424F5244, 0x4B424147, 0x4B424147,
                            0x45434944, 0x53485348, 0x43455254, 0x53414C54][k]);
      slot == if |of| == 0 || (k == 6 && |of| == 1) then None else if k == 5 then Some(of[0]) else Some(of[|of| - 1])
  {
    FiledByOrder(es, k);
  }

  /** What slot k holds of the elements of its type. */
  function Held(of: seq<Element>, k: nat): Option<Element> {
    if |of| == 0 || (k == 6 && |of| == 1) then None else if k == 5 then Some(of[0]) else Some(of[|of| - 1])
  }

  lemma {:induction false} HeldMore(of: seq<Element>, e: Element, k: nat)
    ensures Held(of + [e], k) ==
      if k == 5 && of != [] then Held(of, 5) else if k == 6 && of == [] then None else Some(e)
    ensures of + [] == of && (Held(of, 5) == None <==> of == [])
  {
  }

  lemma {:induction false} HeldStep(slots: Slots, e: Element, of: seq<Element>, k: nat)
    requires e.Valid() && Known(e.Type()) && k < SLOTS
    requires slots[k] == Held(of, k) && (k == 6 ==> slots[5] == Held(of, 5))
    ensures Place(slots, e)[k] == Held(of + (if e.Type() == ORDER[k] then [e] else []), k)
  {
    PlacedLast(slots, e, k);
    HeldMore(of, e, k);
  }

  lemma {:induction false} FiledByOrder(es: seq<Element>, k: nat)
    requires AllKnown(es) && k < SLOTS
    ensures PlaceAll(EMPTY, es)[k] == Held(OfType(es, ORDER[k]), k)
    decreases |es|, if k == 6 then 1 else 0
  {
    if es != [] {
      var n := |es| - 1;
      PlaceAllSnoc(EMPTY, es);
      FiledByOrder(es[..n], k);
      if k == 6 {
        FiledByOrder(es[..n], 5);
      }
      HeldStep(PlaceAll(EMPTY, es[..n]), es[n], OfType(es[..n], ORDER[k]), k);
    }
  }

  // ---------------------------------------------------------------- bytes of the slots

  function SlotBytes(o: Option<Element>): (s: seq<byte>) {
    if o.Some? then o.value.bytes else []
  }

  /** The bytes of the first k slots, in serialisation order. */
  function Body(slots: Slots, k: nat): (s: seq<byte>)
    requires k <= SLOTS
  {
    if k == 0 then [] else Body(slots, k - 1) + SlotBytes(slots[k - 1])
  }

  lemma {:induction false} BodyUnrolled(slots: Slots)
    ensures Body(slots, SHSH_SLOT) ==
      SlotBytes(slots[0]) + SlotBytes(slots[1]) + SlotBytes(slots[2]) + SlotBytes(slots[3]) +
      SlotBytes(slots[4]) + SlotBytes(slots[5]) + SlotBytes(slots[6]) + SlotBytes(slots[7])
    ensures Body(slots, SLOTS) ==
      Body(slots, SHSH_SLOT) + SlotBytes(slots[8]) + SlotBytes(slots[9]) + SlotBytes(slots[10])
  {
    assert Body(slots, 1) == SlotBytes(slots[0]);
    assert Body(slots, 2) == Body(slots, 1) + SlotBytes(slots[1]);
    assert Body(slots, 3) == Body(slots, 2) + SlotBytes(slots[2]);
    assert Body(slots, 4) == Body(slots, 3) + SlotBytes(slots[3]);
    assert Body(slots, 5) == Body(slots, 4) + SlotBytes(slots[4]);
    assert Body(slots, 6) == Body(slots, 5) + SlotBytes(slots[5]);
    assert Body(slots, 7) == Body(slots, 6) + SlotBytes(slots[6]);
    assert Body(slots, 9) == Body(slots, 8) + SlotBytes(slots[8]);
    assert Body(slots, 10) == Body(slots, 9) + SlotBytes(slots[9]);
  }

  /** A buffer with the five header words and the body in place is the serialised image. */
  lemma {:induction false} Assembled(s: seq<byte>, h: Header, slots: Slots)
    requires |s| >= HEADER_SIZE && s[HEADER_SIZE..] == Body(slots, SLOTS)
    requires s[0..4] == Le32(h.signature) && s[4..8] == Le32(|s|) && s[8..12] == Le32(|s| - HEADER_SIZE)
    requires slots[SHSH_SLOT].Some? ==> s[12..16] == Le32(|Body(slots, SHSH_SLOT)|)
    requires s[16..20] == Le32(h.imageType)
    ensures s == Serialize(h, slots, WordAt(s, 12))
  {
    LeOfFromLe(s[12..16]);
    HeaderFront(s, NewHeader(h, slots, WordAt(s, 12)));
    FrontAndBack(s, HeaderBytes(NewHeader(h, slots, WordAt(s, 12))), Body(slots, SLOTS));
  }

  lemma {:induction false} HeaderFront(s: seq<byte>, h: Header)
    requires |s| >= HEADER_SIZE && s[0..4] == Le32(h.signature) && s[4..8] == Le32(h.fullSize)
    requires s[8..12] == Le32(h.dataSize) && s[12..16] == Le32(h.shshOffset) && s[16..20] == Le32(h.imageType)
    ensures s[..HEADER_SIZE] == HeaderBytes(h)
  {
    FiveWords(s);
  }

  lemma {:induction false} FiveWords(s: seq<byte>)
    requires |s| >= HEADER_SIZE
    ensures s[..HEADER_SIZE] == s[0..4] + s[4..8] + s[8..12] + s[12..16] + s[16..20]
  {
  }

  lemma {:induction false} FrontAndBack(s: seq<byte>, front: seq<byte>, back: seq<byte>)
    requires |s| >= |front| == HEADER_SIZE && s[..HEADER_SIZE] == front && s[HEADER_SIZE..] == back
    ensures s == front + back
  {
    assert s == s[..HEADER_SIZE] + s[HEADER_SIZE..];
  }

  /** The elements in the first k slots, in serialisation order. */
  function Present(slots: Slots, k: nat): (es: seq<Element>)
    requires k <= SLOTS
  {
    if k == 0 then [] else Present(slots, k - 1) + Listed(slots[k - 1])
  }

  function Listed(o: Option<Element>): seq<Element> {
    if o.Some? then [o.value] else []
  }

  lemma {:induction false} BodyIsConcat(slots: Slots, k: nat)
    requires k <= SLOTS
    ensures Concat(Present(slots, k)) == Body(slots, k)
  {
    if k > 0 {
      BodyIsConcat(slots, k - 1);
      OneMoreSlot(Present(slots, k - 1), slots[k - 1]);
    }
  }

  lemma {:induction false} OneMoreSlot(es: seq<Element>, o: Option<Element>)
    ensures Concat(es + Listed(o)) == Concat(es) + SlotBytes(o)
  {
    if o.Some? {
      ConcatAppend(es, [o.value]);
      assert Concat([o.value]) == o.value.bytes + Concat([]) == o.value.bytes;
    } else {
      assert es + [] == es && Concat(es) + [] == Concat(es);
    }
  }

  lemma {:induction false} PresentKnown(slots: Slots, k: nat)
    requires Typed(slots) && k <= SLOTS
    ensures AllKnown(Present(slots, k))
  {
    if k > 0 {
      PresentKnown(slots, k - 1);
    }
  }

  /** The image img3_get_data lays out.  The word at 12 is the SHSH offset, or whatever the fresh
      buffer held when there is no SHSH. */
  function Serialize(h: Header, slots: Slots, junk: nat): (s: seq<byte>)
    ensures |s| == HEADER_SIZE + |Body(slots, SLOTS)|
  {
    HeaderBytes(NewHeader(h, slots, junk)) + Body(slots, SLOTS)
  }

  function NewHeader(h: Header, slots: Slots, junk: nat): Header {
    var size := |Body(slots, SLOTS)|;
    Header(h.signature, HEADER_SIZE + size, size,
           if slots[SHSH_SLOT].Some? then |Body(slots, SHSH_SLOT)| else junk, h.imageType)
  }

  // ---------------------------------------------------------------- the parser

  /** The memory the parse loop touches from off on is inside the buffer: an element header, and
      for a known type the whole element, at least as long as its header. */
  predicate Walkable(data: seq<byte>, off: nat)
    decreases |data| - off
  {
    off >= |data| ||
    (off + ELEMENT_HEADER_SIZE <= |data| &&
     (Known(WordAt(data, off)) ==>
        var n := WordAt(data, off + 4);
        ELEMENT_HEADER_SIZE <= n && off + n <= |data| && Walkable(data, off + n)))
  }

  /** The parse loop: the slots at the end of the data, or None at an unknown element. */
  function ParseFrom(data: seq<byte>, off: nat, slots: Slots): (r: Option<Slots>)
    requires Walkable(data, off)
    decreases |data| - off
  {
    if off >= |data| then Some(slots)
    else if !Known(WordAt(data, off)) then None
    else
      var n := WordAt(data, off + 4);
      ElementAt(data, off, n);
      ParseFrom(data, off + n, Place(slots, Element(data[off..off + n])))
  }

  lemma {:induction false} Subslice(s: seq<byte>, lo: nat, hi: nat, i: nat, j: nat)
    requires lo <= hi <= |s| && i <= j <= hi - lo
    ensures s[lo..hi][i..j] == s[lo + i..lo + j]
  {
    var a, b := s[lo..hi][i..j], s[lo + i..lo + j];
    assert forall t :: 0 <= t < j - i ==> a[t] == s[lo + i + t] && b[t] == s[lo + i + t];
  }

  lemma {:induction false} ElementAt(data: seq<byte>, off: nat, n: nat)
    requires off + 8 <= |data| && n == WordAt(data, off + 4)
    requires ELEMENT_HEADER_SIZE <= n && off + n <= |data|
    ensures Element(data[off..off + n]).Valid() && Element(data[off..off + n]).Type() == WordAt(data, off)
  {
    var e := data[off..off + n];
    Subslice(data, off, off + n, 0, 4);
    Subslice(data, off, off + n, 4, 8);
  }

  /** img3_parse_file on a whole buffer. */
  function ParseImage(data: seq<byte>): (r: Option<(Header, Slots)>)
    requires |data| >= HEADER_SIZE && Walkable(data, HEADER_SIZE)
  {
    if WordAt(data, 0) != IMG3 then None
    else
      var r := ParseFrom(data, HEADER_SIZE, EMPTY);
      if r.None? then None else Some((HeaderOf(data), r.value))
  }

  lemma {:induction false} ElementInFront(pre: seq<byte>, e: Element, rest: seq<byte>)
    requires e.Valid()
    ensures var data := pre + (e.bytes + rest);
      && WordAt(data, |pre|) == e.Type() && WordAt(data, |pre| + 4) == |e.bytes|
      && data[|pre|..|pre| + |e.bytes|] == e.bytes && data == (pre + e.bytes) + rest
  {
    var data, n := pre + (e.bytes + rest), |pre|;
    assert data[n..n + |e.bytes|] == e.bytes;
    Subslice(data, n, n + |e.bytes|, 0, 4);
    Subslice(data, n, n + |e.bytes|, 4, 8);
  }

  lemma {:induction false} ParseFront(pre: seq<byte>, e: Element, rest: seq<byte>, slots: Slots)
    requires e.Valid() && Known(e.Type())
    requires Walkable((pre + e.bytes) + rest, |pre + e.bytes|)
    ensures Walkable(pre + (e.bytes + rest), |pre|)
    ensures ParseFrom(pre + (e.bytes + rest), |pre|, slots)
         == ParseFrom((pre + e.bytes) + rest, |pre + e.bytes|, Place(slots, e))
  {
    ElementInFront(pre, e, rest);
  }

  /** A buffer that holds known elements back to back parses to those elements, filed in order. */
  lemma {:induction false} ParseElements(pre: seq<byte>, es: seq<Element>, slots: Slots)
    requires AllKnown(es)
    ensures Walkable(pre + Concat(es), |pre|)
    ensures ParseFrom(pre + Concat(es), |pre|, slots) == Some(PlaceAll(slots, es))
    decreases |es|
  {
    if es != [] {
      ParseElements(pre + es[0].bytes, es[1..], Place(slots, es[0]));
      ParseFront(pre, es[0], Concat(es[1..]), slots);
    }
  }

  /** Conversely every buffer the parser accepts is such a list of elements. */
  lemma {:induction false} ParsedElements(data: seq<byte>, off: nat, slots: Slots) returns (es: seq<Element>)
    requires off <= |data| && Walkable(data, off) && ParseFrom(data, off, slots).Some?
    ensures AllKnown(es) && Concat(es) == data[off..]
    ensures ParseFrom(data, off, slots).value == PlaceAll(slots, es)
    decreases |data| - off
  {
    if off >= |data| {
      es := [];
    } else {
      var n := WordAt(data, off + 4);
      ElementAt(data, off, n);
      var e := Element(data[off..off + n]);
      var tail := ParsedElements(data, off + n, Place(slots, e));
      es := [e] + tail;
      assert es[1..] == tail;
      assert data[off..] == data[off..off + n] + data[off + n..];
    }
  }

  // ---------------------------------------------------------------- the signature

  /** An element starts at off and lies inside the buffer. */
  predicate ElementReadable(data: seq<byte>, off: nat) {
    off + ELEMENT_HEADER_SIZE <= |data| &&
    ELEMENT_HEADER_SIZE <= WordAt(data, off + 4) && off + WordAt(data, off + 4) <= |data|
  }

  /** img3_parse_element: a private copy of the element that starts at off. */
  function ElementFrom(data: seq<byte>, off: nat): (e: Element)
    requires ElementReadable(data, off)
    ensures e.Valid() && e.Type() == WordAt(data, off) && |e.bytes| == WordAt(data, off + 4)
  {
    ElementAt(data, off, WordAt(data, off + 4));
    Element(data[off..off + WordAt(data, off + 4)])
  }

  /** The elements img3_replace_signature copies out of the blob lie inside it. */
  predicate SignatureReadable(sig: seq<byte>) {
    ElementReadable(sig, 0) &&
    (WordAt(sig, 0) == ECID ==>
       var o1 := WordAt(sig, 4);
       ElementReadable(sig, o1) &&
       (WordAt(sig, o1) == SHSH ==> ElementReadable(sig, o1 + WordAt(sig, o1 + 4))))
  }

  /** A personalisation ticket: the three elements that replace the factory signature. */
  datatype Ticket = Ticket(ecid: Element, shsh: Element, cert: Element) {
    predicate Valid() {
      && ecid.Valid() && ecid.Type() == ECID
      && shsh.Valid() && shsh.Type() == SHSH
      && cert.Valid() && cert.Type() == CERT
    }

    function Elements(): seq<Element> { [ecid, shsh, cert] }
  }

  function TicketOf(sig: seq<byte>): (t: Option<Ticket>)
    requires SignatureReadable(sig)
    ensures t.Some? ==> t.value.Valid()
  {
    var e := ElementFrom(sig, 0);
    if e.Type() != ECID then None
    else
      var s := ElementFrom(sig, |e.bytes|);
      if s.Type() != SHSH then None
      else
        var c := ElementFrom(sig, |e.bytes| + |s.bytes|);
        if c.Type() != CERT then None else Some(Ticket(e, s, c))
  }

  function Signed(slots: Slots, t: Ticket): Slots {
    slots[ECID_SLOT := Some(t.ecid)][SHSH_SLOT := Some(t.shsh)][CERT_SLOT := Some(t.cert)]
  }
}
