/** The signing pipeline: a component out of the firmware archive, its ticket out of the TSS
    response, the signed image; and the same steps as the Ruby script takes them. */
module Signing {
  import opened Bytes
  import opened Options
  import opened Img3Format
  import opened Img3Theorems
  import opened Img3Agreement
  import C = Img3File
  import Ruby = Img3Ruby

  /** An entry of the TSS response, in the order the dictionary iterator delivers it.  A path that
      is missing or not a string is None, as is a blob that is missing or not data. */
  datatype TssEntry = NotDict | Dict(path: Option<string>, blob: Option<seq<byte>>)

  /** The loop goes on past this entry. */
  predicate PassedOver(e: TssEntry, path: string) {
    e.NotDict? || (e.path.Some? && e.path.value != path)
  }

  ghost predicate Reached(tss: seq<TssEntry>, path: string, i: int) {
    0 <= i < |tss| && forall j :: 0 <= j < i ==> PassedOver(tss[j], path)
  }

  predicate Delivers(e: TssEntry, path: string) {
    e.Dict? && e.path == Some(path) && e.blob.Some? && e.blob.value != []
  }

  /** The blob that the entries give for a path. */
  function BlobFor(tss: seq<TssEntry>, path: string): Option<seq<byte>> {
    if tss == [] then None
    else if PassedOver(tss[0], path) then BlobFor(tss[1..], path)
    else if Delivers(tss[0], path) then tss[0].blob
    else None
  }

  /** tss_get_blob_by_path: the blob of the first entry with this path, provided every entry before
      it is no dictionary or has a usable path. */
  method GetBlobByPath(tss: seq<TssEntry>, path: string) returns (blob: Option<seq<byte>>)
    ensures blob == BlobFor(tss, path)
    ensures blob.Some? <==> exists i :: Reached(tss, path, i) && Delivers(tss[i], path)
    ensures forall i :: Reached(tss, path, i) && Delivers(tss[i], path) ==> blob == tss[i].blob
  {
    var i := 0;
    assert tss[0..] == tss;
    while i < |tss|
      invariant i <= |tss| && BlobFor(tss[i..], path) == BlobFor(tss, path)
      invariant forall j :: 0 <= j < i ==> PassedOver(tss[j], path)
    {
      var e := tss[i];
      assert tss[i..][0] == e && tss[i..][1..] == tss[i + 1..];
      if e.Dict? {
        if e.path == None {
          return None;
        }
        if e.path.value == path {
          if e.blob == None || e.blob.value == [] {
            return None;
          }
          return e.blob;
        }
      }
      i := i + 1;
    }
    return None;
  }

  /** The blob that decides: entries that are no dictionaries or have other paths are passed over; the
      first dictionary without a usable path, or with the path asked for, ends the search. */
  lemma {:induction false} BlobDecided(front: seq<TssEntry>, e: TssEntry, rest: seq<TssEntry>, path: string)
    requires forall i {:trigger front[i]} :: 0 <= i < |front| ==>
      front[i] == NotDict || exists p, b {:trigger Dict(Some(p), b)} :: p != path && front[i] == Dict(Some(p), b)
    ensures BlobFor(front, path) == None
    ensures forall b :: e == Dict(None, b) ==> BlobFor(front + [e] + rest, path) == None
    ensures e == Dict(Some(path), None) || e == Dict(Some(path), Some([])) ==> BlobFor(front + [e] + rest, path) == None
    ensures forall b :: b != [] && e == Dict(Some(path), Some(b)) ==> BlobFor(front + [e] + rest, path) == Some(b)
    decreases |front|
  {
    var all := front + [e] + rest;
    if front == [] {
      assert all[0] == e && all[1..] == rest;
    } else {
      var later := front[1..];
      assert all[0] == front[0] && all[1..] == later + [e] + rest;
      assert forall i :: 0 <= i < |later| ==> later[i] == front[i + 1];
      BlobDecided(later, e, rest, path);
    }
  }

  datatype Result = Ok(image: seq<byte>) | Failed

  /** The component is an image, and there is a blob that is a ticket. */
  predicate Signable(component: seq<byte>, blob: Option<seq<byte>>)
    requires HEADER_SIZE <= |component| && Walkable(component, HEADER_SIZE)
    requires blob.Some? ==> SignatureReadable(blob.value)
  {
    ParseImage(component).Some? && blob.Some? && TicketOf(blob.value).Some?
  }

  /** ipsw_get_component_by_path once the component is extracted: without a TSS response the component,
      with one the image signed with the blob the response has for the path. */
  method GetComponent(component: seq<byte>, tss: Option<seq<TssEntry>>, path: string) returns (r: Result)
    requires HEADER_SIZE <= |component| < TWO_31 && Walkable(component, HEADER_SIZE)
    requires tss.Some? && BlobFor(tss.value, path).Some? ==>
      var blob := BlobFor(tss.value, path).value; SignatureReadable(blob) && |component| + |blob| < TWO_31
    ensures tss.None? ==> r == Ok(component)
    ensures tss.Some? ==> (r.Ok? <==> Signable(component, BlobFor(tss.value, path)))
    ensures tss.Some? && r.Ok? ==>
      var (h, slots) := ParseImage(component).value;
      r.image == Serialize(h, Signed(slots, TicketOf(BlobFor(tss.value, path).value).value), 0)
  {
    if tss.None? {
      return Ok(component);
    }
    var img3 := C.Parse(component);
    if img3 == null {
      return Failed;
    }
    var blob := GetBlobByPath(tss.value, path);
    if blob == None {
      return Failed;
    }
    var code := img3.ReplaceSignature(blob.value);
    if code < 0 {
      return Failed;
    }
    SignedImageFits(component, blob.value);
    ghost var header, slots := img3.header, img3.Slots();
    var status, data := img3.GetData();
    if status < 0 {
      return Failed;
    }
    NoJunk(header, slots, WordAt(data[..], 12));
    return Ok(data[..]);
  }

  /** Over a SHSH the serialiser leaves no word of the fresh buffer. */
  lemma {:induction false} NoJunk(h: Header, slots: Slots, junk: nat)
    requires slots[SHSH_SLOT].Some?
    ensures Serialize(h, slots, junk) == Serialize(h, slots, 0)
  {
  }

  lemma {:induction false} SignedImageFits(component: seq<byte>, blob: seq<byte>)
    requires |component| >= HEADER_SIZE && Walkable(component, HEADER_SIZE) && ParseImage(component).Some?
    requires SignatureReadable(blob) && TicketOf(blob).Some? && |component| + |blob| < TWO_31
    ensures var (h, slots) := ParseImage(component).value;
      var s := Signed(slots, TicketOf(blob).value);
      && HeaderFits(h) && Typed(s) && s[SHSH_SLOT].Some? && HEADER_SIZE + |Body(s, SLOTS)| < TWO_31
  {
    var (h, slots) := ParseImage(component).value;
    ParsedIsTyped(component);
    SignedTyped(slots, TicketOf(blob).value);
    SignedSize(component, slots, blob);
  }

  lemma {:induction false} PlacedSize(slots: Slots, es: seq<Element>)
    requires AllKnown(es)
    ensures |Body(PlaceAll(slots, es), SLOTS)| <= |Body(slots, SLOTS)| + |Concat(es)|
    decreases |es|
  {
    if es != [] {
      UpdateSize(slots, Target(slots, es[0].Type()), es[0], SLOTS);
      PlacedSize(Place(slots, es[0]), es[1..]);
    }
  }

  lemma {:induction false} UpdateSize(slots: Slots, t: nat, e: Element, k: nat)
    requires t < SLOTS && k <= SLOTS
    ensures |Body(slots[t := Some(e)], k)| <= |Body(slots, k)| + (if t < k then |e.bytes| else 0)
  {
    if k > 0 {
      UpdateSize(slots, t, e, k - 1);
    }
  }

  /** A signed image is no longer than component and blob together. */
  lemma {:induction false} SignedSize(component: seq<byte>, slots: Slots, blob: seq<byte>)
    requires |component| >= HEADER_SIZE && Walkable(component, HEADER_SIZE)
    requires ParseImage(component).Some? && ParseImage(component).value.1 == slots
    requires SignatureReadable(blob) && TicketOf(blob).Some?
    ensures HEADER_SIZE + |Body(Signed(slots, TicketOf(blob).value), SLOTS)| <= |component| + |blob|
  {
    var t := TicketOf(blob).value;
    ParsedSize(component);
    TicketGrows(slots, t);
    TicketIsBlob(blob);
  }

  lemma {:induction false} ParsedSize(component: seq<byte>)
    requires |component| >= HEADER_SIZE && Walkable(component, HEADER_SIZE) && ParseImage(component).Some?
    ensures HEADER_SIZE + |Body(ParseImage(component).value.1, SLOTS)| <= |component|
  {
    var es := ParsedElements(component, HEADER_SIZE, EMPTY);
    NothingInBody(SLOTS);
    PlacedSize(EMPTY, es);
  }

  lemma {:induction false} TicketGrows(slots: Slots, t: Ticket)
    ensures |Body(Signed(slots, t), SLOTS)| <= |Body(slots, SLOTS)| + |Concat(t.Elements())|
  {
    var s1 := slots[ECID_SLOT := Some(t.ecid)];
    var s2 := s1[SHSH_SLOT := Some(t.shsh)];
    UpdateSize(slots, ECID_SLOT, t.ecid, SLOTS);
    UpdateSize(s1, SHSH_SLOT, t.shsh, SLOTS);
    UpdateSize(s2, CERT_SLOT, t.cert, SLOTS);
    TicketConcat(t);
  }

  lemma {:induction false} NothingInBody(k: nat)
    requires k <= SLOTS
    ensures Body(EMPTY, k) == []
  {
    if k > 0 {
      NothingInBody(k - 1);
    }
  }

  /** The elements Ruby reads of a component: as far as the size in its header reaches. */
  function Seen(component: seq<byte>, es: seq<Element>): (r: seq<Element>)
    requires |component| >= HEADER_SIZE
  {
    Ruby.Taken(es, HEADER_SIZE, HeaderOf(component).fullSize)
  }

  /** The patch step of tss_blob.rb: parse, update_elements, to_s. */
  method RubySign(component: seq<byte>, blob: seq<byte>, ghost es: seq<Element>, ghost t: Ticket) returns (s: seq<byte>)
    requires AllValid(es) && |component| >= HEADER_SIZE && component[HEADER_SIZE..] == Concat(es)
    requires t.Valid() && blob == Concat(t.Elements()) && |component| + |blob| < TWO_32
    ensures s == RubySigned(HeaderOf(component), Seen(component, es), t)
  {
    var img3 := new Ruby.Img3File();
    var input := new Ruby.StringIO(component);
    img3.Parse(input, es);
    ghost var seen := Seen(component, es);
    TakenFront(es, HEADER_SIZE, HeaderOf(component).fullSize);
    FrontSize(seen, es);
    var ticket := new Ruby.StringIO(blob);
    var keys := Ruby.Keys(Ruby.Taken(t.Elements(), HEADER_SIZE, |blob|));
    assert AllValid(t.Elements());
    img3.UpdateElements(ticket, |blob|, t.Elements());
    RubyParts(seen, t);
    s := img3.ToS();
  }

  /** The loop reads from the front, and everything when the size is that of the file. */
  lemma {:induction false} TakenFront(es: seq<Element>, pos: nat, total: nat)
    requires AllValid(es)
    ensures Ruby.Taken(es, pos, total) <= es
    ensures total == pos + |Concat(es)| ==> Ruby.Taken(es, pos, total) == es
    decreases |es|
  {
    if es != [] && pos < total {
      assert es[0].Valid();
      TakenFront(es[1..], pos + |es[0].bytes|, total);
      assert es == [es[0]] + es[1..];
    } else if es != [] {
      assert es[0].Valid();
    }
  }

  lemma {:induction false} FrontSize(seen: seq<Element>, es: seq<Element>)
    requires AllValid(es) && seen <= es
    ensures AllValid(seen) && |Concat(seen)| <= |Concat(es)|
  {
    assert es == seen + es[|seen|..];
    ConcatAppend(seen, es[|seen|..]);
    assert forall i :: 0 <= i < |seen| ==> seen[i] == es[i];
  }

  lemma {:induction false} RubyParts(es: seq<Element>, t: Ticket)
    requires AllValid(es) && t.Valid()
    ensures AllValid(RubyList(es, t))
    ensures |Concat(RubyList(es, t))| <= |Concat(es)| + |Concat(t.Elements())|
  {
    BlobRead(t);
    TicketConcat(t);
    var blob := Ruby.Taken(t.Elements(), HEADER_SIZE, |Concat(t.Elements())|);
    KeptParts(es, Ruby.Keys(blob));
    ConcatAppend(Ruby.Kept(es, Ruby.Keys(blob)), blob);
    assert |Concat(blob)| <= |Concat(t.Elements())| by {
      assert [t.ecid, t.shsh][1..] == [t.shsh] && [t.shsh][1..] == [];
      assert Concat([t.shsh]) == t.shsh.bytes;
    }
  }

  lemma {:induction false} KeptParts(es: seq<Element>, keys: seq<nat>)
    requires AllValid(es)
    ensures AllValid(Ruby.Kept(es, keys)) && |Concat(Ruby.Kept(es, keys))| <= |Concat(es)|
    decreases |es|
  {
    if es != [] {
      assert es[0].Valid();
      KeptParts(es[1..], keys);
      var r := Ruby.Kept(es[1..], keys);
      if es[0].Type() in keys {
        assert Ruby.Kept(es, keys) == r;
      } else {
        assert ([es[0]] + r)[1..] == r;
      }
    }
  }

  lemma {:induction false} SeenKnown(component: seq<byte>, es: seq<Element>)
    requires AllKnown(es) && |component| >= HEADER_SIZE
    ensures AllKnown(Seen(component, es))
    ensures HeaderOf(component).fullSize == HEADER_SIZE + |Concat(es)| ==> Seen(component, es) == es
  {
    var seen := Seen(component, es);
    KnownValid(es);
    TakenFront(es, HEADER_SIZE, HeaderOf(component).fullSize);
    forall i | 0 <= i < |seen|
      ensures seen[i].Valid() && Known(seen[i].Type())
    {
      assert seen[i] == es[i] && es[i].Valid();
    }
  }

  /** For one component and one ticket, whatever size the component's header records: the image
      GetComponent returns is the string RubySign returns exactly when the unsigned elements Ruby reads
      are canonical without SALT, those it does not read file to nothing new, and CERT is long. */
  lemma {:induction false} PipelinesAgree(component: seq<byte>, es: seq<Element>, t: Ticket)
    requires AllKnown(es) && t.Valid()
    requires |component| >= HEADER_SIZE && WordAt(component, 0) == IMG3 && component[HEADER_SIZE..] == Concat(es)
    ensures Walkable(component, HEADER_SIZE) && ParseImage(component).Some?
    ensures AllKnown(Unsigned(es)) && AllKnown(Unsigned(Seen(component, es)))
    ensures var (h, slots) := ParseImage(component).value;
      var seen := Seen(component, es);
      Serialize(h, Signed(slots, t), 0) == RubySigned(HeaderOf(component), seen, t)
      <==> |t.cert.bytes| > HEADER_SIZE && Canonical(Unsigned(seen)) && NoSalt(Unsigned(seen)) && SameFiling(es, seen)
  {
    assert component == component[..HEADER_SIZE] + Concat(es);
    ParseElements(component[..HEADER_SIZE], es, EMPTY);
    SeenKnown(component, es);
    SignersAgreeOn(HeaderOf(component), es, Seen(component, es), t);
  }
}
