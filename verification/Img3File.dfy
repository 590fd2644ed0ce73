/** The img3_file object of img3.c: parse, replace the signature, lay the image out again. */
module Img3File {
  import opened Bytes
  import opened Memory
  import opened Options
  import opened Img3Format

  predicate Sound(slot: Option<Element>) {
    slot.Some? ==> slot.value.Valid()
  }

  /** One step of the sizing pass. */
  method AddSize(size: nat, slot: Option<Element>) returns (next: nat)
    requires Sound(slot)
    ensures next == size + |SlotBytes(slot)|
  {
    next := size;
    if slot.Some? {
      next := next + WordAt(slot.value.bytes, 4);
    }
  }

  /** One step of the copying pass; body is what the earlier steps have laid out. */
  method CopySlot(data: array<byte>, offset: nat, slot: Option<Element>, ghost body: seq<byte>)
    returns (next: nat, ghost longer: seq<byte>)
    requires Sound(slot)
    requires HEADER_SIZE <= offset && offset + |SlotBytes(slot)| <= data.Length
    requires data[HEADER_SIZE..offset] == body
    modifies data
    ensures longer == body + SlotBytes(slot)
    ensures next == offset + |SlotBytes(slot)| && data[HEADER_SIZE..next] == longer
    ensures data[..HEADER_SIZE] == old(data[..HEADER_SIZE])
  {
    next, longer := offset, body + SlotBytes(slot);
    ghost var before := data[..offset];
    if slot.Some? {
      Copy(data, offset, slot.value.bytes);
      next := offset + WordAt(slot.value.bytes, 4);
      CopiedBehind(data[..], before, slot.value.bytes);
    }
  }

  lemma {:induction false} CopiedBehind(s: seq<byte>, before: seq<byte>, bytes: seq<byte>)
    requires HEADER_SIZE <= |before| && |before| + |bytes| <= |s|
    requires s[..|before|] == before && s[|before|..|before| + |bytes|] == bytes
    ensures s[HEADER_SIZE..|before| + |bytes|] == before[HEADER_SIZE..] + bytes
    ensures s[..HEADER_SIZE] == before[..HEADER_SIZE]
  {
  }

  /** The header words that a later step leaves alone, read as words. */
  lemma {:induction false} KeptWords(s: seq<byte>, t: seq<byte>)
    requires HEADER_SIZE <= |s| && HEADER_SIZE <= |t|
    requires s[..12] == t[..12] && s[16..20] == t[16..20]
    ensures s[0..4] == t[0..4] && s[4..8] == t[4..8] && s[8..12] == t[8..12]
  {
    assert s[0..4] == s[..12][0..4] && s[4..8] == s[..12][4..8] && s[8..12] == s[..12][8..12];
    assert t[0..4] == t[..12][0..4] && t[4..8] == t[..12][4..8] && t[8..12] == t[..12][8..12];
  }

  lemma {:induction false} SameWords(s: seq<byte>, t: seq<byte>)
    requires HEADER_SIZE <= |s| && HEADER_SIZE <= |t|
    requires s[..HEADER_SIZE] == t[..HEADER_SIZE]
    ensures s[0..4] == t[0..4] && s[4..8] == t[4..8] && s[8..12] == t[8..12] && s[16..20] == t[16..20]
  {
    assert s[..12] == s[..HEADER_SIZE][..12] && t[..12] == t[..HEADER_SIZE][..12];
    assert s[16..20] == s[..HEADER_SIZE][16..20] && t[16..20] == t[..HEADER_SIZE][16..20];
    KeptWords(s, t);
  }

  lemma {:induction false} Kept(s: seq<byte>, t: seq<byte>, offset: nat)
    requires s == t && HEADER_SIZE <= offset && offset - 16 <= |s|
    ensures s[4..offset - 16] == t[4..offset - 16]
  {
  }

  lemma {:induction false} HeadWords(s: seq<byte>, head: seq<byte>)
    requires HEADER_SIZE <= |s| && s[..HEADER_SIZE] == head
    ensures s[..12] == head[..12] && s[12..16] == head[12..16] && s[16..20] == head[16..20]
  {
  }

  lemma {:induction false} Filed(was: Slots, now: Slots, t: nat, e: Element)
    requires t < SLOTS && now[t] == Some(e) && forall k :: 0 <= k < SLOTS && k != t ==> now[k] == was[k]
    ensures now == was[t := Some(e)]
  {
  }

  class Img3File {
    var header: Header
    var typeElement: Option<Element>
    var dataElement: Option<Element>
    var versElement: Option<Element>
    var sepoElement: Option<Element>
    var bordElement: Option<Element>
    var kbag1Element: Option<Element>
    var kbag2Element: Option<Element>
    var ecidElement: Option<Element>
    var shshElement: Option<Element>
    var certElement: Option<Element>
    var unknElement: Option<Element>

    /** The eleven element pointers as one value. */
    function Slots(): (s: Slots)
      reads this
    {
      var s := [typeElement, dataElement, versElement, sepoElement, bordElement, kbag1Element,
                kbag2Element, ecidElement, shshElement, certElement, unknElement];
      assert |s| == SLOTS;
      s
    }

    constructor (header: Header)
      ensures this.header == header && Slots() == EMPTY
    {
      this.header := header;
      typeElement, dataElement, versElement, sepoElement, bordElement := None, None, None, None, None;
      kbag1Element, kbag2Element, ecidElement, shshElement, certElement := None, None, None, None, None;
      unknElement := None;
    }

    /** The switch of img3_parse_file: file one element under its type. */
    method File(e: Element)
      requires e.Valid() && Known(e.Type())
      modifies this
      ensures header == old(header) && Slots() == Place(old(Slots()), e)
    {
      var tag := e.Type();
      ghost var was, slot := Slots(), Target(Slots(), e.Type());
      if tag == TYPE {
        typeElement := Some(e);
      } else if tag == DATA {
        dataElement := Some(e);
      } else if tag == VERS {
        versElement := Some(e);
      } else if tag == SEPO {
        sepoElement := Some(e);
      } else if tag == BORD {
        bordElement := Some(e);
      } else if tag == KBAG {
        if kbag1Element == None {
          kbag1Element := Some(e);
        } else {
          kbag2Element := Some(e);
        }
      } else if tag == ECID {
        ecidElement := Some(e);
      } else if tag == SHSH {
        shshElement := Some(e);
      } else if tag == CERT {
        certElement := Some(e);
      } else {
        unknElement := Some(e);
      }
      Filed(was, Slots(), slot, e);
    }

    /** img3_replace_signature: ECID, SHSH and CERT out of the blob, or no change at all. */
    method ReplaceSignature(signature: seq<byte>) returns (r: int)
      requires SignatureReadable(signature)
      modifies this
      ensures r == (if TicketOf(signature).Some? then 0 else -1)
      ensures header == old(header)
      ensures Slots() == if r == 0 then Signed(old(Slots()), TicketOf(signature).value) else old(Slots())
    {
      var ticket := ReadTicket(signature);
      if ticket == None {
        return -1;
      }
      ecidElement := Some(ticket.value.ecid);
      shshElement := Some(ticket.value.shsh);
      certElement := Some(ticket.value.cert);
      return 0;
    }

    /** The reading half of img3_replace_signature: three elements in the one order it accepts. */
    static method ReadTicket(signature: seq<byte>) returns (ticket: Option<Ticket>)
      requires SignatureReadable(signature)
      ensures ticket == TicketOf(signature)
    {
      var offset := 0;
      var ecid := ElementFrom(signature, offset);
      if ecid.Type() != ECID {
        return None;
      }
      offset := offset + |ecid.bytes|;
      var shsh := ElementFrom(signature, offset);
      if shsh.Type() != SHSH {
        return None;
      }
      offset := offset + |shsh.bytes|;
      var cert := ElementFrom(signature, offset);
      if cert.Type() != CERT {
        return None;
      }
      ticket := Some(Ticket(ecid, shsh, cert));
    }

    predicate AllSound()
      reads this
    {
      && Sound(typeElement) && Sound(dataElement) && Sound(versElement) && Sound(sepoElement)
      && Sound(bordElement) && Sound(kbag1Element) && Sound(kbag2Element) && Sound(ecidElement)
      && Sound(shshElement) && Sound(certElement) && Sound(unknElement)
    }

    /** What the serialiser puts before the key bags, and everything before SHSH. */
    function Head(): (s: seq<byte>)
      reads this
    {
      SlotBytes(typeElement) + SlotBytes(dataElement) + SlotBytes(versElement) + SlotBytes(sepoElement)
    }

    function Front(): (s: seq<byte>)
      reads this
    {
      Head() + SlotBytes(bordElement) + SlotBytes(kbag1Element) + SlotBytes(kbag2Element) + SlotBytes(ecidElement)
    }

    lemma {:induction false} TypedSound()
      requires Typed(Slots())
      ensures AllSound()
    {
      var s := Slots();
      assert Sound(s[0]) && Sound(s[1]) && Sound(s[2]) && Sound(s[3]) && Sound(s[4]) && Sound(s[5]);
      assert Sound(s[6]) && Sound(s[7]) && Sound(s[8]) && Sound(s[9]) && Sound(s[10]);
    }

    lemma {:induction false} Layout()
      ensures Body(Slots(), SHSH_SLOT) == Front()
      ensures Body(Slots(), SLOTS) == Front() + SlotBytes(shshElement) + SlotBytes(certElement) + SlotBytes(unknElement)
    {
      BodyUnrolled(Slots());
    }

    /** The sizing pass of img3_get_data. */
    method TotalSize() returns (size: nat)
      requires AllSound()
      ensures size == HEADER_SIZE + |Front()| + |SlotBytes(shshElement)| + |SlotBytes(certElement)|
          + |SlotBytes(unknElement)|
    {
      size := HEADER_SIZE;
      size := AddSize(size, typeElement);
      size := AddSize(size, dataElement);
      size := AddSize(size, versElement);
      size := AddSize(size, sepoElement);
      size := AddSize(size, bordElement);
      size := AddSize(size, kbag1Element);
      size := AddSize(size, kbag2Element);
      size := AddSize(size, ecidElement);
      size := AddSize(size, shshElement);
      size := AddSize(size, certElement);
      size := AddSize(size, unknElement);
    }

    /** The copying pass of img3_get_data, first part. */
    method CopyHead(data: array<byte>) returns (offset: nat, ghost body: seq<byte>)
      requires AllSound() && HEADER_SIZE + |Head()| <= data.Length
      modifies data
      ensures offset == HEADER_SIZE + |Head()| && body == Head() && data[HEADER_SIZE..offset] == body
      ensures data[..HEADER_SIZE] == old(data[..HEADER_SIZE])
    {
      offset, body := HEADER_SIZE, [];
      assert body + SlotBytes(typeElement) == SlotBytes(typeElement);
      offset, body := CopySlot(data, offset, typeElement, body);
      offset, body := CopySlot(data, offset, dataElement, body);
      offset, body := CopySlot(data, offset, versElement, body);
      offset, body := CopySlot(data, offset, sepoElement, body);
    }

    /** The copying pass of img3_get_data up to ECID. */
    method CopyFront(data: array<byte>) returns (offset: nat, ghost body: seq<byte>)
      requires AllSound() && HEADER_SIZE + |Front()| <= data.Length
      modifies data
      ensures offset == HEADER_SIZE + |Front()| && body == Front() && data[HEADER_SIZE..offset] == body
      ensures data[..HEADER_SIZE] == old(data[..HEADER_SIZE])
    {
      offset, body := CopyHead(data);
      offset, body := CopySlot(data, offset, bordElement, body);
      offset, body := CopySlot(data, offset, kbag1Element, body);
      offset, body := CopySlot(data, offset, kbag2Element, body);
      offset, body := CopySlot(data, offset, ecidElement, body);
    }

    /** The fresh buffer of img3_get_data, with every header word but the SHSH offset. */
    method NewBuffer(size: nat) returns (data: array<byte>)
      requires size >= HEADER_SIZE
      ensures fresh(data) && data.Length == size
      ensures data[0..4] == Le32(header.signature) && data[4..8] == Le32(size)
      ensures data[8..12] == Le32(size - HEADER_SIZE) && data[16..20] == Le32(header.imageType)
    {
      data := new byte[size];
      Copy(data, 4, Le32(size));
      Copy(data, 0, Le32(header.signature));
      Copy(data, 8, Le32(size - HEADER_SIZE));
      Copy(data, 16, Le32(header.imageType));
    }

    /** The copying pass from SHSH on; SHSH also sets its offset in the header. */
    method CopyBack(data: array<byte>, at: nat, ghost front: seq<byte>) returns (offset: nat, ghost body: seq<byte>)
      requires AllSound() && HEADER_SIZE <= at <= data.Length && data[HEADER_SIZE..at] == front
      requires at + |SlotBytes(shshElement)| + |SlotBytes(certElement)| + |SlotBytes(unknElement)| <= data.Length
      modifies data
      ensures body == front + SlotBytes(shshElement) + SlotBytes(certElement) + SlotBytes(unknElement)
      ensures offset == HEADER_SIZE + |body| && data[HEADER_SIZE..offset] == body
      ensures data[..12] == old(data[..12]) && data[16..20] == old(data[16..20])
      ensures shshElement.Some? ==> data[12..16] == Le32(at - HEADER_SIZE)
    {
      offset, body := CopySlot(data, at, shshElement, front);
      if shshElement.Some? {
        ghost var laid := data[16..];
        Copy(data, 12, Le32(at - HEADER_SIZE));
        Kept(data[16..], laid, offset);
      }
      ghost var head := data[..HEADER_SIZE];
      offset, body := CopySlot(data, offset, certElement, body);
      offset, body := CopySlot(data, offset, unknElement, body);
      HeadWords(data[..], head);
    }

    /** The copying pass of img3_get_data. */
    method Fill(data: array<byte>) returns (offset: nat)
      requires AllSound()
      requires HEADER_SIZE + |Front()| + |SlotBytes(shshElement)| + |SlotBytes(certElement)|
          + |SlotBytes(unknElement)| == data.Length
      modifies data
      ensures offset == data.Length
      ensures data[HEADER_SIZE..] == Front() + SlotBytes(shshElement) + SlotBytes(certElement) + SlotBytes(unknElement)
      ensures shshElement.Some? ==> data[12..16] == Le32(|Front()|)
      ensures data[0..4] == old(data[0..4]) && data[4..8] == old(data[4..8]) && data[8..12] == old(data[8..12])
      ensures data[16..20] == old(data[16..20])
    {
      ghost var words := data[..];
      var at, front := CopyFront(data);
      SameWords(words, data[..]);
      ghost var laid := data[..];
      ghost var body;
      offset, body := CopyBack(data, at, front);
      KeptWords(laid, data[..]);
    }

    /** img3_get_data: one pass to size the buffer, one to fill it.  The buffer is not cleared. */
    method GetData() returns (r: int, data: array?<byte>)
      requires Typed(Slots()) && HeaderFits(header) && HEADER_SIZE + |Body(Slots(), SLOTS)| < TWO_31
      ensures r == 0 && data != null && fresh(data)
      ensures data.Length == HEADER_SIZE + |Body(Slots(), SLOTS)|
      ensures data[..] == Serialize(header, Slots(), WordAt(data[..], 12))
    {
      Layout();
      TypedSound();
      var size := TotalSize();
      var offset;
      data, offset := LayOut(size);
      if offset != size {
        return -1, null;
      }
      r := 0;
    }

    /** The allocation of the buffer and the pass that fills it. */
    method LayOut(size: nat) returns (data: array<byte>, offset: nat)
      requires AllSound() && HeaderFits(header) && size == HEADER_SIZE + |Body(Slots(), SLOTS)| < TWO_31
      ensures fresh(data) && data.Length == offset == size
      ensures data[..] == Serialize(header, Slots(), WordAt(data[..], 12))
    {
      Layout();
      data := NewBuffer(size);
      offset := Fill(data);
      Assembled(data[..], header, Slots());
    }
  }

  /** img3_parse_file: null for a wrong container magic or an unknown element. */
  method Parse(data: seq<byte>) returns (image: Img3File?)
    requires HEADER_SIZE <= |data| < TWO_31 && Walkable(data, HEADER_SIZE)
    ensures image != null <==> ParseImage(data).Some?
    ensures image != null ==> fresh(image) && (image.header, image.Slots()) == ParseImage(data).value
  {
    if WordAt(data, 0) != IMG3 {
      return null;
    }
    image := new Img3File(HeaderOf(data));
    var dataOffset := HEADER_SIZE;
    while dataOffset < |data|
      invariant Walkable(data, dataOffset) && image.header == HeaderOf(data)
      invariant ParseFrom(data, HEADER_SIZE, EMPTY) == ParseFrom(data, dataOffset, image.Slots())
      decreases |data| - dataOffset
    {
      if !Known(WordAt(data, dataOffset)) {
        return null;
      }
      var current := ElementFrom(data, dataOffset);
      image.File(current);
      dataOffset := dataOffset + WordAt(data, dataOffset + 4);
    }
  }
}
