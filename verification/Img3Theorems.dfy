/** What parsing, signing and serialising an IMG3 image preserve. */
module Img3Theorems {
  import opened Bytes
  import opened Options
  import opened Img3Format

  /** The first k slots, the others empty. */
  function Prefix(slots: Slots, k: nat): Slots
    requires k <= SLOTS
  {
    slots[..k] + EMPTY[k..]
  }

  /** Filing the elements of the first k slots again fills exactly those slots. */
  lemma {:induction false} Refile(slots: Slots, k: nat)
    requires Typed(slots) && k <= SLOTS
    ensures AllKnown(Present(slots, k))
    ensures PlaceAll(EMPTY, Present(slots, k)) == Prefix(slots, k)
  {
    var es := Refiled(slots, k);
  }

  lemma {:induction false} Refiled(slots: Slots, k: nat) returns (es: seq<Element>)
    requires Typed(slots) && k <= SLOTS
    ensures es == Present(slots, k) && AllKnown(es) && PlaceAll(EMPTY, es) == Prefix(slots, k)
  {
    if k == 0 {
      es := [];
      assert Prefix(slots, 0) == EMPTY;
    } else {
      es := Refiled(slots, k - 1);
      RefileOne(slots, k - 1, es);
      es := es + Listed(slots[k - 1]);
    }
  }

  lemma {:induction false} RefileOne(slots: Slots, k: nat, es: seq<Element>)
    requires Typed(slots) && k < SLOTS && AllKnown(es) && PlaceAll(EMPTY, es) == Prefix(slots, k)
    ensures AllKnown(es + Listed(slots[k])) && PlaceAll(EMPTY, es + Listed(slots[k])) == Prefix(slots, k + 1)
  {
    RefileSlot(slots, k);
    PlacedMore(EMPTY, es, slots[k], Prefix(slots, k), Prefix(slots, k + 1));
  }

  lemma {:induction false} PlacedMore(slots: Slots, es: seq<Element>, o: Option<Element>, p: Slots, q: Slots)
    requires AllKnown(es) && PlaceAll(slots, es) == p && (o.None? ==> q == p)
    requires o.Some? ==> o.value.Valid() && Known(o.value.Type()) && Place(p, o.value) == q
    ensures AllKnown(es + Listed(o)) && PlaceAll(slots, es + Listed(o)) == q
  {
    if o.Some? {
      PlaceAllAppend(slots, es, [o.value]);
      assert PlaceAll(p, [o.value]) == Place(p, o.value);
    } else {
      assert es + [] == es;
    }
  }

  lemma {:induction false} RefileSlot(slots: Slots, k: nat)
    requires Typed(slots) && k < SLOTS
    ensures slots[k].None? ==> Prefix(slots, k + 1) == Prefix(slots, k)
    ensures slots[k].Some? ==>
      && slots[k].value.Valid() && Known(slots[k].value.Type())
      && Place(Prefix(slots, k), slots[k].value) == Prefix(slots, k + 1)
  {
    PrefixStep(slots, k);
    if slots[k].Some? {
      RefileTarget(slots, k);
      var p, e := Prefix(slots, k), slots[k].value;
      assert Place(p, e) == p[k := Some(e)];
    }
  }

  lemma {:induction false} PrefixStep(slots: Slots, k: nat)
    requires k < SLOTS
    ensures slots[k].None? ==> Prefix(slots, k + 1) == Prefix(slots, k)
    ensures Prefix(slots, k)[k := slots[k]] == Prefix(slots, k + 1)
  {
    FrontGrows(slots, EMPTY, k);
  }

  lemma {:induction false} FrontGrows<T>(a: seq<T>, b: seq<T>, k: nat)
    requires k < |a| == |b|
    ensures (a[..k] + b[k..])[k := a[k]] == a[..k + 1] + b[k + 1..]
    ensures a[k] == b[k] ==> a[..k] + b[k..] == a[..k + 1] + b[k + 1..]
  {
  }

  lemma {:induction false} RankOfKbag(tag: nat)
    requires Known(tag)
    ensures Rank(tag) == KBAG1_SLOT <==> tag == KBAG
  {
  }

  lemma {:induction false} RefileTarget(slots: Slots, k: nat)
    requires Typed(slots) && k < SLOTS && slots[k].Some?
    ensures slots[k].value.Valid() && Known(slots[k].value.Type())
    ensures Target(Prefix(slots, k), slots[k].value.Type()) == k
  {
    RankOfKbag(slots[k].value.Type());
    if k == KBAG2_SLOT {
      assert Prefix(slots, k)[KBAG1_SLOT] == slots[KBAG1_SLOT];
    } else if k == KBAG1_SLOT {
      assert Prefix(slots, k)[KBAG1_SLOT] == None;
    }
  }

  predicate Encodable(h: Header, slots: Slots, junk: nat) {
    HeaderFits(h) && junk < TWO_32 && HEADER_SIZE + |Body(slots, SLOTS)| < TWO_32
  }

  lemma {:induction false} NewHeaderFits(h: Header, slots: Slots, junk: nat)
    requires Encodable(h, slots, junk)
    ensures HeaderFits(NewHeader(h, slots, junk))
  {
    BodyGrows(slots, SHSH_SLOT, SLOTS);
  }

  lemma {:induction false} BodyGrows(slots: Slots, k: nat, n: nat)
    requires k <= n <= SLOTS
    ensures |Body(slots, k)| <= |Body(slots, n)|
  {
    if k < n {
      BodyGrows(slots, k, n - 1);
    }
  }

  /** Parsing a serialised image gives back every slot, and the header as it was written. */
  lemma {:induction false} RoundTrip(h: Header, slots: Slots, junk: nat)
    requires Typed(slots) && Encodable(h, slots, junk) && h.signature == IMG3
    ensures Walkable(Serialize(h, slots, junk), HEADER_SIZE)
    ensures ParseImage(Serialize(h, slots, junk)) == Some((NewHeader(h, slots, junk), slots))
  {
    var pre := HeaderBytes(NewHeader(h, slots, junk));
    NewHeaderFits(h, slots, junk);
    HeaderRoundTrip(NewHeader(h, slots, junk), Body(slots, SLOTS));
    Refile(slots, SLOTS);
    assert Prefix(slots, SLOTS) == slots;
    BodyIsConcat(slots, SLOTS);
    ParseElements(pre, Present(slots, SLOTS), EMPTY);
  }

  /** The five words of a serialised image, in the places and with the bytes they have on disk. */
  lemma {:induction false} HeaderLayout(h: Header, slots: Slots, junk: nat)
    requires Encodable(h, slots, junk)
    ensures var out := Serialize(h, slots, junk);
      && Number(out[0], out[1], out[2], out[3]) == h.signature
      && Number(out[4], out[5], out[6], out[7]) == |out|
      && Number(out[8], out[9], out[10], out[11]) == |out| - 20
      && Number(out[12], out[13], out[14], out[15]) == (if slots[8].Some? then |Body(slots, 8)| else junk)
      && Number(out[16], out[17], out[18], out[19]) == h.imageType
  {
    var out, n := Serialize(h, slots, junk), NewHeader(h, slots, junk);
    NewHeaderFits(h, slots, junk);
    HeaderRoundTrip(n, Body(slots, SLOTS));
    LittleEndian(out, 0);
    LittleEndian(out, 4);
    LittleEndian(out, 8);
    LittleEndian(out, 12);
    LittleEndian(out, 16);
  }

  /** An element starts with its type and its own length. */
  lemma {:induction false} ElementLayout(e: Element)
    requires |e.bytes| >= 12
    ensures var s := e.bytes;
      e.Type() == Number(s[0], s[1], s[2], s[3]) && (e.Valid() <==> Number(s[4], s[5], s[6], s[7]) == |s|)
  {
    LittleEndian(e.bytes, 0);
    LittleEndian(e.bytes, 4);
  }

  /** Whatever the parser accepts gives a typed image with the container's magic. */
  lemma {:induction false} ParsedIsTyped(data: seq<byte>)
    requires |data| >= HEADER_SIZE && Walkable(data, HEADER_SIZE) && ParseImage(data).Some?
    ensures var (h, slots) := ParseImage(data).value;
      Typed(slots) && HeaderFits(h) && h.signature == 0x496D6733
  {
    var es := ParsedElements(data, HEADER_SIZE, EMPTY);
    EmptyTyped();
    PlaceAllTyped(EMPTY, es);
  }

  /** Serialising again what a serialised image parses to changes nothing, except that without a
      SHSH element the offset word is whatever the fresh buffer held. */
  lemma {:induction false} Reserialize(h: Header, slots: Slots, junk: nat, junk': nat)
    requires Typed(slots) && h.signature == IMG3
    requires Encodable(h, slots, junk) && Encodable(h, slots, junk')
    ensures var out := Serialize(h, slots, junk);
      && Walkable(out, HEADER_SIZE) && ParseImage(out).Some?
      && var (h', slots') := ParseImage(out).value;
      && slots' == slots
      && (Serialize(h', slots', junk') == out <==> slots[SHSH_SLOT].Some? || junk == junk')
  {
    RoundTrip(h, slots, junk);
    SameUpToJunk(h, slots, junk, junk');
  }

  lemma {:induction false} SameUpToJunk(h: Header, slots: Slots, junk: nat, junk': nat)
    requires Encodable(h, slots, junk) && Encodable(h, slots, junk')
    ensures Serialize(NewHeader(h, slots, junk), slots, junk') == Serialize(h, slots, junk)
       <==> slots[SHSH_SLOT].Some? || junk == junk'
  {
    NewHeaderFits(h, slots, junk);
    NewHeaderFits(h, slots, junk');
    HeaderRoundTrip(NewHeader(h, slots, junk), Body(slots, SLOTS));
    HeaderRoundTrip(NewHeader(h, slots, junk'), Body(slots, SLOTS));
  }

  // ---------------------------------------------------------------- conservation

  function Count(es: seq<Element>, tag: nat): (n: nat)
    requires AllKnown(es)
    decreases |es|
  {
    if es == [] then 0 else (if es[0].Type() == tag then 1 else 0) + Count(es[1..], tag)
  }

  function Capacity(tag: nat): nat {
    if tag == KBAG then 2 else 1
  }

  /** No type occurs more often than there are slots for it. */
  ghost predicate NoRepeats(es: seq<Element>)
    requires AllKnown(es)
  {
    forall tag :: Known(tag) ==> Count(es, tag) <= Capacity(tag)
  }

  /** How many slots of a type are taken. */
  function Taken(slots: Slots, tag: nat): nat
    requires Known(tag)
  {
    (if slots[Rank(tag)].Some? then 1 else 0) +
    (if tag == KBAG && slots[KBAG2_SLOT].Some? then 1 else 0)
  }

  ghost predicate Fits(slots: Slots, es: seq<Element>)
    requires AllKnown(es)
  {
    forall tag :: Known(tag) ==> Taken(slots, tag) + Count(es, tag) <= Capacity(tag)
  }

  lemma {:induction false} PresentBeforePlace(slots: Slots, t: nat, o: Option<Element>, k: nat)
    requires k <= t < SLOTS
    ensures Present(slots[t := o], k) == Present(slots, k)
  {
    if k > 0 {
      PresentBeforePlace(slots, t, o, k - 1);
    }
  }

  lemma {:induction false} SplitLast(slots: Slots, k: nat)
    requires 0 < k <= SLOTS
    ensures multiset(Present(slots, k)) == multiset(Present(slots, k - 1)) + multiset(Listed(slots[k - 1]))
  {
  }

  lemma {:induction false} PresentAtPlace(slots: Slots, t: nat, e: Element)
    requires t < SLOTS
    ensures multiset(Present(slots[t := Some(e)], t + 1)) + multiset(Listed(slots[t]))
         == multiset(Present(slots, t + 1)) + multiset{e}
  {
    PresentBeforePlace(slots, t, Some(e), t);
    SplitLast(slots, t + 1);
    SplitLast(slots[t := Some(e)], t + 1);
    assert Listed(Some(e)) == [e];
  }

  lemma {:induction false} CarryOver(a: multiset<Element>, a': multiset<Element>, l: multiset<Element>,
                                     d: multiset<Element>, e: multiset<Element>)
    requires a' + d == a + e
    ensures (a' + l) + d == (a + l) + e
  {
    assert (a' + l) + d == (a' + d) + l;
  }

  /** Filing e adds e to the image's elements and drops whatever held its slot. */
  lemma {:induction false} PresentAfterPlace(slots: Slots, t: nat, e: Element, k: nat)
    requires t < k <= SLOTS
    ensures multiset(Present(slots[t := Some(e)], k)) + multiset(Listed(slots[t]))
        == multiset(Present(slots, k)) + multiset{e}
  {
    if k == t + 1 {
      PresentAtPlace(slots, t, e);
    } else {
      PresentAfterPlace(slots, t, e, k - 1);
      var slots' := slots[t := Some(e)];
      SplitLast(slots, k);
      SplitLast(slots', k);
      CarryOver(multiset(Present(slots, k - 1)), multiset(Present(slots', k - 1)), multiset(Listed(slots[k - 1])),
        multiset(Listed(slots[t])), multiset{e});
    }
  }

  lemma {:induction false} TargetFree(slots: Slots, tag: nat)
    requires Known(tag) && (slots[KBAG2_SLOT].Some? ==> slots[KBAG1_SLOT].Some?)
    ensures slots[Target(slots, tag)].None? <==> Taken(slots, tag) < Capacity(tag)
  {
  }

  lemma {:induction false} PlaceTaken(slots: Slots, e: Element, tag: nat)
    requires e.Valid() && Known(e.Type()) && Known(tag)
    requires slots[KBAG2_SLOT].Some? ==> slots[KBAG1_SLOT].Some?
    requires slots[Target(slots, e.Type())].None?
    ensures Taken(Place(slots, e), tag) == Taken(slots, tag) + (if tag == e.Type() then 1 else 0)
  {
  }

  lemma {:induction false} PlaceConserves(slots: Slots, e: Element)
    requires Typed(slots) && e.Valid() && Known(e.Type())
    ensures var old_, new_ := Present(slots, SLOTS), Present(Place(slots, e), SLOTS);
      if slots[Target(slots, e.Type())].None? then multiset(new_) == multiset(old_) + multiset{e}
      else |new_| == |old_|
  {
    var t := Target(slots, e.Type());
    PresentAfterPlace(slots, t, e, SLOTS);
    var m, m' := multiset(Present(slots, SLOTS)), multiset(Present(Place(slots, e), SLOTS));
    assert |m| == |Present(slots, SLOTS)| && |m'| == |Present(Place(slots, e), SLOTS)|;
    if slots[t].Some? {
      assert multiset(Listed(slots[t])) == multiset{slots[t].value};
      assert |m' + multiset{slots[t].value}| == |m'| + 1 && |m + multiset{e}| == |m| + 1;
    } else {
      assert m' + multiset{} == m';
    }
  }

  /** The parser keeps every element of a list it has room for; otherwise it loses some. */
  lemma {:induction false} PlaceAllConserves(slots: Slots, es: seq<Element>)
    requires Typed(slots) && AllKnown(es)
    ensures var out := Present(PlaceAll(slots, es), SLOTS);
      && |out| <= |Present(slots, SLOTS)| + |es|
      && (Fits(slots, es) ==> multiset(out) == multiset(Present(slots, SLOTS)) + multiset(es))
      && (!Fits(slots, es) ==> |out| < |Present(slots, SLOTS)| + |es|)
    decreases |es|
  {
    if es == [] {
      NothingToFile(slots);
    } else {
      var e, rest := es[0], es[1..];
      PlaceConserves(slots, e);
      PlaceTyped(slots, e);
      PlaceAllConserves(Place(slots, e), rest);
      FitsStep(slots, es);
      var free := slots[Target(slots, e.Type())].None?;
      Balance(Present(slots, SLOTS), Present(Place(slots, e), SLOTS), Present(PlaceAll(slots, es), SLOTS), es, free,
        Fits(slots, es), free && Fits(Place(slots, e), rest));
    }
  }

  /** a before filing es, b after its first element, c after all; free: the first has an empty slot. */
  lemma {:induction false} Balance(a: seq<Element>, b: seq<Element>, c: seq<Element>, es: seq<Element>, free: bool,
                                   fits: bool, restFits: bool)
    requires es != [] && |c| <= |b| + |es| - 1 && fits == restFits && (fits ==> free)
    requires if free then multiset(b) == multiset(a) + multiset{es[0]} else |b| == |a|
    requires restFits ==> multiset(c) == multiset(b) + multiset(es[1..])
    requires free && !restFits ==> |c| < |b| + |es| - 1
    ensures |c| <= |a| + |es| && (!fits ==> |c| < |a| + |es|)
    ensures fits ==> multiset(c) == multiset(a) + multiset(es)
  {
    assert es == [es[0]] + es[1..];
    assert |multiset(a)| == |a| && |multiset(b)| == |b|;
  }

  lemma {:induction false} PlaceTyped(slots: Slots, e: Element)
    requires Typed(slots) && e.Valid() && Known(e.Type())
    ensures Typed(Place(slots, e))
  {
  }

  lemma {:induction false} NothingToFile(slots: Slots)
    ensures Fits(slots, [])
  {
  }

  lemma {:induction false} FitsStep(slots: Slots, es: seq<Element>)
    requires Typed(slots) && es != [] && AllKnown(es)
    ensures slots[Target(slots, es[0].Type())].None? ==> (Fits(slots, es) <==> Fits(Place(slots, es[0]), es[1..]))
    ensures slots[Target(slots, es[0].Type())].Some? ==> !Fits(slots, es)
  {
    if slots[Target(slots, es[0].Type())].None? {
      forall tag | Known(tag)
        ensures Taken(slots, tag) + Count(es, tag) == Taken(Place(slots, es[0]), tag) + Count(es[1..], tag)
      {
        PlaceTaken(slots, es[0], tag);
      }
    } else {
      TargetFree(slots, es[0].Type());
      assert Count(es, es[0].Type()) >= 1;
    }
  }

  /** Parsing and serialising a container permutes its elements if and only if no type is repeated
      (two KBAGs allowed). */
  lemma {:induction false} Conservation(es: seq<Element>)
    requires AllKnown(es)
    ensures NoRepeats(es) <==> multiset(Present(PlaceAll(EMPTY, es), SLOTS)) == multiset(es)
  {
    EmptyTyped();
    NothingPresent(SLOTS);
    NothingTaken(es);
    FiledInto(EMPTY, es);
  }

  lemma {:induction false} EmptyTyped()
    ensures Typed(EMPTY)
  {
  }

  lemma {:induction false} FiledInto(slots: Slots, es: seq<Element>)
    requires Typed(slots) && AllKnown(es) && Present(slots, SLOTS) == []
    ensures Fits(slots, es) <==> multiset(Present(PlaceAll(slots, es), SLOTS)) == multiset(es)
  {
    PlaceAllConserves(slots, es);
    SameCount(Present(PlaceAll(slots, es), SLOTS), es);
  }

  lemma {:induction false} SameCount(a: seq<Element>, b: seq<Element>)
    ensures multiset(a) == multiset(b) ==> |a| == |b|
  {
    assert |multiset(a)| == |a| && |multiset(b)| == |b|;
  }

  /** Then the serialised image is exactly as long as the parsed one. */
  lemma {:induction false} ConservationOfSize(es: seq<Element>)
    requires AllKnown(es) && NoRepeats(es)
    ensures |Body(PlaceAll(EMPTY, es), SLOTS)| == |Concat(es)|
  {
    Conservation(es);
    BodyIsConcat(PlaceAll(EMPTY, es), SLOTS);
    SameSize(Present(PlaceAll(EMPTY, es), SLOTS), es);
  }

  lemma {:induction false} NothingPresent(k: nat)
    requires k <= SLOTS
    ensures Present(EMPTY, k) == []
  {
    if k > 0 {
      NothingPresent(k - 1);
    }
  }

  lemma {:induction false} NothingTaken(es: seq<Element>)
    requires AllKnown(es)
    ensures Fits(EMPTY, es) <==> NoRepeats(es)
  {
    assert forall tag :: Known(tag) ==> Taken(EMPTY, tag) == 0;
  }

  lemma {:induction false} SameSize(a: seq<Element>, b: seq<Element>)
    requires multiset(a) == multiset(b)
    ensures |Concat(a)| == |Concat(b)|
    decreases |a|
  {
    if a == [] {
      assert |multiset(b)| == 0;
    } else {
      var e := a[0];
      assert e in multiset(b);
      var i :| 0 <= i < |b| && b[i] == e;
      assert multiset(a) == multiset{e} + multiset(a[1..]) by { assert a == [e] + a[1..]; }
      DropOne(b, i);
      assert multiset(a[1..]) == multiset(a) - multiset{e};
      SameSize(a[1..], b[..i] + b[i + 1..]);
    }
  }

  lemma {:induction false} DropOne(b: seq<Element>, i: nat)
    requires i < |b|
    ensures multiset(b) == multiset{b[i]} + multiset(b[..i] + b[i + 1..])
    ensures |Concat(b)| == |b[i].bytes| + |Concat(b[..i] + b[i + 1..])|
  {
    var e := b[i];
    assert b == b[..i] + ([e] + b[i + 1..]);
    ConcatAppend(b[..i], [e] + b[i + 1..]);
    ConcatAppend(b[..i], b[i + 1..]);
    assert ([e] + b[i + 1..])[1..] == b[i + 1..];
  }

  // ---------------------------------------------------------------- signing

  /** A signed image: a header with the new sizes, everything before the signature as it was, the
      ticket's three elements verbatim, the SALT last. */
  lemma {:induction false} SignedImage(h: Header, slots: Slots, t: Ticket, junk: nat)
    requires Typed(slots) && t.Valid() && Encodable(h, Signed(slots, t), junk)
    ensures Typed(Signed(slots, t))
    ensures var out := Serialize(h, Signed(slots, t), junk);
      && out[HEADER_SIZE..] == Body(slots, ECID_SLOT) + Concat(t.Elements()) + SlotBytes(slots[SALT_SLOT])
      && HeaderOf(out)
           == Header(h.signature, |out|, |out| - HEADER_SIZE, |Body(slots, ECID_SLOT)| + |t.ecid.bytes|, h.imageType)
  {
    var s := Signed(slots, t);
    SignedTyped(slots, t);
    SignedBody(slots, t);
    NewHeaderFits(h, s, junk);
    HeaderRoundTrip(NewHeader(h, s, junk), Body(s, SLOTS));
    InBody(HeaderBytes(NewHeader(h, s, junk)), Body(s, SLOTS), 0, 0);
  }

  /** The offset word of a signed image, counted from the end of the header, is where SHSH starts. */
  lemma {:induction false} ShshOffset(h: Header, slots: Slots, t: Ticket, junk: nat)
    requires Typed(slots) && t.Valid() && Encodable(h, Signed(slots, t), junk)
    ensures var out := Serialize(h, Signed(slots, t), junk);
      var at := HEADER_SIZE + HeaderOf(out).shshOffset;
      at + |t.shsh.bytes| <= |out| && out[at..at + |t.shsh.bytes|] == t.shsh.bytes
  {
    var out, at := ShshAt(h, slots, t, junk);
    SignedOffset(h, slots, t, junk);
  }

  lemma {:induction false} ShshAt(h: Header, slots: Slots, t: Ticket, junk: nat) returns (out: seq<byte>, at: nat)
    ensures out == Serialize(h, Signed(slots, t), junk) && at == |Body(slots, ECID_SLOT)| + |t.ecid.bytes|
    ensures HEADER_SIZE + at + |t.shsh.bytes| <= |out|
    ensures out[HEADER_SIZE + at..HEADER_SIZE + at + |t.shsh.bytes|] == t.shsh.bytes
  {
    var head, body;
    head, body, at := SignedParts(h, slots, t, junk);
    out := head + body;
    InBody(head, body, at, |t.shsh.bytes|);
  }

  lemma {:induction false} SignedParts(h: Header, slots: Slots, t: Ticket, junk: nat)
    returns (head: seq<byte>, body: seq<byte>, at: nat)
    ensures |head| == HEADER_SIZE && Serialize(h, Signed(slots, t), junk) == head + body
    ensures at == |Body(slots, ECID_SLOT)| + |t.ecid.bytes|
    ensures at + |t.shsh.bytes| <= |body| && body[at..at + |t.shsh.bytes|] == t.shsh.bytes
  {
    var s := Signed(slots, t);
    SignedBody(slots, t);
    head, body := HeaderBytes(NewHeader(h, s, junk)), Body(s, SLOTS);
    at := |Body(slots, ECID_SLOT)| + |t.ecid.bytes|;
  }

  lemma {:induction false} SignedOffset(h: Header, slots: Slots, t: Ticket, junk: nat)
    requires Typed(slots) && t.Valid() && Encodable(h, Signed(slots, t), junk)
    ensures HeaderOf(Serialize(h, Signed(slots, t), junk)).shshOffset == |Body(slots, ECID_SLOT)| + |t.ecid.bytes|
  {
    SignedImage(h, slots, t, junk);
  }

  lemma {:induction false} InBody(head: seq<byte>, body: seq<byte>, at: nat, n: nat)
    requires |head| == HEADER_SIZE && at + n <= |body|
    ensures (head + body)[HEADER_SIZE..] == body
    ensures (head + body)[HEADER_SIZE + at..HEADER_SIZE + at + n] == body[at..at + n]
  {
  }

  lemma {:induction false} SignedBody(slots: Slots, t: Ticket)
    ensures var s, f := Signed(slots, t), Body(slots, ECID_SLOT);
      var at := |f| + |t.ecid.bytes|;
      && Body(s, SHSH_SLOT) == f + t.ecid.bytes
      && Body(s, SLOTS) == f + Concat(t.Elements()) + SlotBytes(slots[SALT_SLOT])
      && at + |t.shsh.bytes| <= |Body(s, SLOTS)|
      && Body(s, SLOTS)[at..at + |t.shsh.bytes|] == t.shsh.bytes
  {
    SignedLayout(slots, t);
    TicketConcat(t);
    TicketInBody(Body(slots, ECID_SLOT), t.ecid.bytes, t.shsh.bytes, t.cert.bytes, SlotBytes(slots[SALT_SLOT]));
  }

  lemma {:induction false} SignedLayout(slots: Slots, t: Ticket)
    ensures var s, f := Signed(slots, t), Body(slots, ECID_SLOT);
      && Body(s, SHSH_SLOT) == f + t.ecid.bytes
      && Body(s, SLOTS) == f + t.ecid.bytes + t.shsh.bytes + t.cert.bytes + SlotBytes(slots[SALT_SLOT])
  {
    var s := Signed(slots, t);
    FrontUnchanged(slots, t, ECID_SLOT);
    BackUnrolled(s);
    assert SlotBytes(s[7]) == t.ecid.bytes && SlotBytes(s[8]) == t.shsh.bytes && SlotBytes(s[9]) == t.cert.bytes;
  }

  lemma {:induction false} SignedTyped(slots: Slots, t: Ticket)
    requires Typed(slots) && t.Valid()
    ensures Typed(Signed(slots, t))
  {
  }

  lemma {:induction false} BackUnrolled(s: Slots)
    ensures Body(s, SHSH_SLOT) == Body(s, ECID_SLOT) + SlotBytes(s[7])
    ensures Body(s, SLOTS)
        == Body(s, ECID_SLOT) + SlotBytes(s[7]) + SlotBytes(s[8]) + SlotBytes(s[9]) + SlotBytes(s[10])
  {
    assert Body(s, 9) == Body(s, 8) + SlotBytes(s[8]);
    assert Body(s, 10) == Body(s, 9) + SlotBytes(s[9]);
  }

  lemma {:induction false} TicketInBody(f: seq<byte>, a: seq<byte>, b: seq<byte>, c: seq<byte>, z: seq<byte>)
    ensures f + a + b + c + z == f + (a + b + c) + z
    ensures (f + a + b + c + z)[|f| + |a|..|f| + |a| + |b|] == b
  {
  }

  lemma {:induction false} TicketConcat(t: Ticket)
    ensures Concat(t.Elements()) == t.ecid.bytes + t.shsh.bytes + t.cert.bytes
  {
    var es := t.Elements();
    assert es[1..] == [t.shsh, t.cert] && es[1..][1..] == [t.cert] && [t.cert][1..] == [];
    assert Concat([t.cert]) == t.cert.bytes;
    assert Concat([t.shsh, t.cert]) == t.shsh.bytes + t.cert.bytes;
  }

  lemma {:induction false} FrontUnchanged(slots: Slots, t: Ticket, k: nat)
    requires k <= ECID_SLOT
    ensures Body(Signed(slots, t), k) == Body(slots, k)
    ensures Present(Signed(slots, t), k) == Present(slots, k)
  {
    if k > 0 {
      FrontUnchanged(slots, t, k - 1);
    }
  }

  /** The ticket the signer accepts is the front of the blob, byte for byte. */
  lemma {:induction false} TicketIsBlob(sig: seq<byte>)
    requires SignatureReadable(sig) && TicketOf(sig).Some?
    ensures Concat(TicketOf(sig).value.Elements()) <= sig
  {
    var t := TicketOf(sig).value;
    TicketConcat(t);
    var a, b := |t.ecid.bytes|, |t.ecid.bytes| + |t.shsh.bytes|;
    ThreeSlices(sig, a, b, b + |t.cert.bytes|);
  }

  /** Conversely a blob that starts with three whole elements of these types, in this order, is read as
      the ticket of the three. */
  lemma {:induction false} TicketRead(t: Ticket, rest: seq<byte>)
    requires t.ecid.Valid() && t.shsh.Valid() && t.cert.Valid()
    requires t.ecid.Type() == 0x45434944 && t.shsh.Type() == 0x53485348 && t.cert.Type() == 0x43455254
    ensures var sig := t.ecid.bytes + t.shsh.bytes + t.cert.bytes + rest;
      SignatureReadable(sig) && TicketOf(sig) == Some(t)
  {
    var sig := t.ecid.bytes + t.shsh.bytes + t.cert.bytes + rest;
    ThreeInFront(t.ecid.bytes, t.shsh.bytes, t.cert.bytes, rest);
    ElementRead(sig, [], t.ecid, t.shsh.bytes + t.cert.bytes + rest);
    ElementRead(sig, t.ecid.bytes, t.shsh, t.cert.bytes + rest);
    ElementRead(sig, t.ecid.bytes + t.shsh.bytes, t.cert, rest);
    TicketAt(sig, t, |t.ecid.bytes|, |t.ecid.bytes| + |t.shsh.bytes|);
  }

  lemma {:induction false} TicketAt(sig: seq<byte>, t: Ticket, a: nat, b: nat)
    requires t.ecid.Type() == ECID && t.shsh.Type() == SHSH && t.cert.Type() == CERT
    requires a == |t.ecid.bytes| && b == a + |t.shsh.bytes|
    requires ElementReadable(sig, 0) && ElementFrom(sig, 0) == t.ecid
    requires ElementReadable(sig, a) && ElementFrom(sig, a) == t.shsh
    requires ElementReadable(sig, b) && ElementFrom(sig, b) == t.cert
    ensures SignatureReadable(sig) && TicketOf(sig) == Some(t)
  {
  }

  lemma {:induction false} ThreeInFront(a: seq<byte>, b: seq<byte>, c: seq<byte>, rest: seq<byte>)
    ensures a + b + c + rest == [] + (a + (b + c + rest)) == a + (b + (c + rest)) == a + b + (c + rest)
  {
  }

  lemma {:induction false} ElementRead(data: seq<byte>, pre: seq<byte>, e: Element, rest: seq<byte>)
    requires e.Valid() && data == pre + (e.bytes + rest)
    ensures ElementReadable(data, |pre|) && ElementFrom(data, |pre|) == e
  {
    ElementInFront(pre, e, rest);
  }

  lemma {:induction false} ThreeSlices(s: seq<byte>, a: nat, b: nat, c: nat)
    requires a <= b <= c <= |s|
    ensures s[0..a] + s[a..b] + s[b..c] <= s
  {
  }

  /** Signing twice leaves the second ticket; signing again with the same one changes nothing. */
  lemma {:induction false} SignLastWins(slots: Slots, t: Ticket, t': Ticket)
    ensures Signed(Signed(slots, t), t') == Signed(slots, t')
    ensures Signed(Signed(slots, t), t) == Signed(slots, t)
  {
  }
}
