/** When the C and the Ruby signer produce the same bytes. */
module Img3Agreement {
  import opened Bytes
  import opened Options
  import opened Img3Format
  import opened Img3Theorems
  import Ruby = Img3Ruby

  predicate IsSignature(tag: nat) {
    tag == ECID || tag == SHSH || tag == CERT
  }

  /** The elements of a container that signing does not replace. */
  function Unsigned(es: seq<Element>): (r: seq<Element>) {
    Ruby.Kept(es, [ECID, SHSH, CERT])
  }

  /** In the order the C serialiser uses: types as in its list, only KBAG twice and then adjacent. */
  ghost predicate Canonical(es: seq<Element>)
    requires AllKnown(es)
  {
    forall i, j :: 0 <= i < j < |es| ==> Before(es[i].Type(), es[j].Type(), j - i)
  }

  predicate Before(a: nat, b: nat, distance: int) {
    (exists i, j :: 0 <= i < j < |ORDER| && ORDER[i] == a && ORDER[j] == b) && (a == b ==> distance == 1)
  }

  /** The place of a type in the list is its slot. */
  lemma {:induction false} BeforeByRank(a: nat, b: nat, distance: int)
    requires Known(a) && Known(b)
    ensures Before(a, b, distance) <==> Rank(a) < Rank(b) || (a == KBAG && b == KBAG && distance == 1)
  {
    InOrderAt(a);
    InOrderAt(b);
    if a == KBAG && b == KBAG {
      assert ORDER[KBAG1_SLOT] == a && ORDER[KBAG2_SLOT] == b;
    }
    if i, j :| 0 <= i < j < |ORDER| && ORDER[i] == a && ORDER[j] == b {
      OrderAt(i);
      OrderAt(j);
    }
  }

  lemma {:induction false} InOrderAt(tag: nat)
    requires Known(tag)
    ensures Rank(tag) < |ORDER| && ORDER[Rank(tag)] == tag
  {
  }

  lemma {:induction false} OrderAt(k: nat)
    requires k < |ORDER|
    ensures Known(ORDER[k]) && Rank(ORDER[k]) == SlotRank(k) && (SlotRank(k) == KBAG1_SLOT <==> ORDER[k] == KBAG)
  {
  }

  /** What ipsw_get_component_by_path makes of a container and a ticket. */
  function CSigned(h: Header, es: seq<Element>, t: Ticket): (s: seq<byte>)
    requires AllKnown(es)
  {
    Serialize(h, Signed(PlaceAll(EMPTY, es), t), 0)
  }

  /** What parse, update_elements and to_s make of the same container and ticket. */
  function RubySigned(h: Header, es: seq<Element>, t: Ticket): (s: seq<byte>) {
    var blob := Ruby.Taken(t.Elements(), HEADER_SIZE, |Concat(t.Elements())|);
    Ruby.ToBytes(h, Ruby.Kept(es, Ruby.Keys(blob)) + blob)
  }

  // ---------------------------------------------------------------- what Ruby reads of a blob

  /** On a stream without a container header the loop reads every element exactly when the last one
      is longer than the header it assumes. */
  lemma {:induction false} ReadsAll(es: seq<Element>, pos: nat, total: nat)
    requires AllValid(es) && es != [] && total + HEADER_SIZE == pos + |Concat(es)|
    ensures Ruby.Taken(es, pos, total) == es <==> |es[|es| - 1].bytes| > HEADER_SIZE
  {
    HaveHeaders(es);
    var taken := TakesAll(es, pos, total);
  }

  /** Elements are at least as long as their headers. */
  predicate AllHeaded(es: seq<Element>) {
    es == [] || (|es[0].bytes| >= ELEMENT_HEADER_SIZE && AllHeaded(es[1..]))
  }

  lemma {:induction false} HaveHeaders(es: seq<Element>)
    requires AllValid(es)
    ensures AllHeaded(es)
  {
    if es != [] {
      assert es[0].Valid();
      HaveHeaders(es[1..]);
    }
  }

  lemma {:induction false} TakesAll(es: seq<Element>, pos: nat, total: nat) returns (taken: seq<Element>)
    requires AllHeaded(es) && es != [] && total + HEADER_SIZE == pos + |Concat(es)|
    ensures taken == Ruby.Taken(es, pos, total)
    ensures taken == es <==> |es[|es| - 1].bytes| > HEADER_SIZE
    decreases |es|
  {
    if |es| == 1 {
      OnlyElement(es, pos, total);
      taken := Ruby.Taken(es, pos, total);
    } else {
      AtLeastTwo(es);
      var rest := TakesAll(es[1..], pos + |es[0].bytes|, total);
      SameRest(es, rest);
      taken := OneTaken(es, pos, total, rest);
    }
  }

  lemma {:induction false} OnlyElement(es: seq<Element>, pos: nat, total: nat)
    requires |es| == 1 && total + HEADER_SIZE == pos + |Concat(es)|
    ensures Ruby.Taken(es, pos, total) == es <==> |es[0].bytes| > HEADER_SIZE
  {
    assert es[1..] == [] && Concat(es) == es[0].bytes + Concat([]) == es[0].bytes;
    if pos < total {
      assert Ruby.Taken(es, pos, total) == [es[0]] + Ruby.Taken([], pos + |es[0].bytes|, total) == [es[0]];
    }
  }

  lemma {:induction false} AtLeastTwo(es: seq<Element>)
    requires AllHeaded(es) && |es| >= 2
    ensures |Concat(es)| == |es[0].bytes| + |Concat(es[1..])| > HEADER_SIZE + |es[0].bytes| - ELEMENT_HEADER_SIZE
    ensures es[1..][|es[1..]| - 1] == es[|es| - 1]
  {
    var rest := es[1..];
    assert AllHeaded(rest) && Concat(rest) == rest[0].bytes + Concat(rest[1..]);
  }

  lemma {:induction false} OneTaken(es: seq<Element>, pos: nat, total: nat, rest: seq<Element>)
    returns (taken: seq<Element>)
    requires es != [] && pos < total && rest == Ruby.Taken(es[1..], pos + |es[0].bytes|, total)
    ensures taken == [es[0]] + rest && taken == Ruby.Taken(es, pos, total)
  {
    taken := [es[0]] + rest;
  }

  lemma {:induction false} SameRest(es: seq<Element>, rest: seq<Element>)
    requires es != []
    ensures [es[0]] + rest == es <==> rest == es[1..]
  {
    assert es == [es[0]] + es[1..] && ([es[0]] + rest)[1..] == rest;
  }

  /** What Ruby reads of a ticket: all three elements, or the first two when CERT is short. */
  lemma {:induction false} BlobRead(t: Ticket)
    requires t.Valid()
    ensures Ruby.Taken(t.Elements(), HEADER_SIZE, |Concat(t.Elements())|)
         == if |t.cert.bytes| > HEADER_SIZE then t.Elements() else [t.ecid, t.shsh]
  {
    TicketConcat(t);
    var es, total := t.Elements(), |Concat(t.Elements())|;
    assert es[1..] == [t.shsh, t.cert] && [t.shsh, t.cert][1..] == [t.cert];
    var p1, p2 := HEADER_SIZE + |t.ecid.bytes|, HEADER_SIZE + |t.ecid.bytes| + |t.shsh.bytes|;
    assert Ruby.Taken([t.cert], p2, total) == if |t.cert.bytes| > HEADER_SIZE then [t.cert] else [];
    assert Ruby.Taken([t.shsh, t.cert], p1, total) == [t.shsh] + Ruby.Taken([t.cert], p2, total);
  }

  // ---------------------------------------------------------------- lists of elements

  lemma {:induction false} PresentSigned(slots: Slots, t: Ticket)
    ensures Present(Signed(slots, t), SLOTS) == Present(slots, ECID_SLOT) + t.Elements() + Listed(slots[SALT_SLOT])
  {
    var s := Signed(slots, t);
    FrontUnchanged(slots, t, ECID_SLOT);
    PresentStep(s, ECID_SLOT);
    PresentStep(s, SHSH_SLOT);
    PresentStep(s, CERT_SLOT);
    PresentStep(s, SALT_SLOT);
    ThreeMore(Present(slots, ECID_SLOT), t.ecid, t.shsh, t.cert);
  }

  lemma {:induction false} PresentStep(slots: Slots, k: nat)
    requires k < SLOTS
    ensures Present(slots, k + 1) == Present(slots, k) + Listed(slots[k])
  {
  }

  lemma {:induction false} ThreeMore(es: seq<Element>, a: Element, b: Element, c: Element)
    ensures es + [a] + [b] + [c] == es + [a, b, c]
  {
  }

  /** Equal but for the signature slots, which are empty on the right. */
  ghost predicate AlikeUnsigned(a: Slots, b: Slots) {
    forall k :: 0 <= k < SLOTS ==> b[k] == if ECID_SLOT <= k <= CERT_SLOT then None else a[k]
  }

  /** Signature elements of the container do not reach the other slots. */
  lemma {:induction false} SameWithoutSignature(a: Slots, b: Slots, es: seq<Element>)
    requires AllKnown(es) && AlikeUnsigned(a, b)
    ensures AllKnown(Unsigned(es))
    ensures AlikeUnsigned(PlaceAll(a, es), PlaceAll(b, Unsigned(es)))
    decreases |es|
  {
    if es != [] {
      var e, rest := es[0], es[1..];
      assert e.Valid() && Known(e.Type());
      PlaceAlike(a, b, e);
      if IsSignature(e.Type()) {
        SameWithoutSignature(Place(a, e), b, rest);
        assert Unsigned(es) == Unsigned(rest);
      } else {
        SameWithoutSignature(Place(a, e), Place(b, e), rest);
        var u := Unsigned(rest);
        assert Unsigned(es) == [e] + u && ([e] + u)[1..] == u;
        assert AllKnown([e] + u);
        assert PlaceAll(b, [e] + u) == PlaceAll(Place(b, e), u);
      }
    }
  }

  lemma {:induction false} PlaceAlike(a: Slots, b: Slots, e: Element)
    requires AlikeUnsigned(a, b) && e.Valid() && Known(e.Type())
    ensures AlikeUnsigned(Place(a, e), if IsSignature(e.Type()) then b else Place(b, e))
  {
    assert a[KBAG1_SLOT] == b[KBAG1_SLOT];
    assert Target(a, e.Type()) == Target(b, e.Type());
  }

  lemma {:induction false} PresentSame(a: Slots, b: Slots, k: nat)
    requires k <= SLOTS && forall j :: 0 <= j < k ==> a[j] == b[j]
    ensures Present(a, k) == Present(b, k)
  {
    if k > 0 {
      PresentSame(a, b, k - 1);
    }
  }

  lemma {:induction false} CanonicalSnoc(es: seq<Element>, e: Element)
    requires AllKnown(es) && Canonical(es) && e.Valid() && Known(e.Type())
    requires forall i :: 0 <= i < |es| ==> Before(es[i].Type(), e.Type(), |es| - i)
    ensures AllKnown(es + [e]) && Canonical(es + [e])
  {
    var s := es + [e];
    forall i, j | 0 <= i < j < |s|
      ensures Before(s[i].Type(), s[j].Type(), j - i)
    {
      if j < |es| {
        assert s[i] == es[i] && s[j] == es[j];
      } else {
        assert s[i] == es[i] && s[j] == e;
      }
    }
  }

  /** All ranks up to r; a KBAG only in last position if at all. */
  ghost predicate Ranked(es: seq<Element>, r: nat, lone: bool)
    requires AllKnown(es)
  {
    forall i {:trigger es[i].Type()} :: 0 <= i < |es| ==>
      Rank(es[i].Type()) <= r && (lone && es[i].Type() == KBAG ==> i == |es| - 1)
  }

  lemma {:induction false} NextBefore(es: seq<Element>, e: Element, k: nat)
    requires AllKnown(es) && e.Valid() && Known(e.Type()) && k < SLOTS && Rank(e.Type()) == SlotRank(k)
    requires k > 0 ==> Ranked(es, SlotRank(k - 1), k <= KBAG2_SLOT)
    requires k == 0 ==> es == []
    ensures forall i :: 0 <= i < |es| ==> Before(es[i].Type(), e.Type(), |es| - i)
  {
    RankOfKbag(e.Type());
    forall i | 0 <= i < |es|
      ensures Before(es[i].Type(), e.Type(), |es| - i)
    {
      RankOfKbag(es[i].Type());
      BeforeByRank(es[i].Type(), e.Type(), |es| - i);
    }
  }

  lemma {:induction false} RankedSnoc(es: seq<Element>, e: Element, k: nat)
    requires AllKnown(es) && e.Valid() && Known(e.Type()) && k < SLOTS && Rank(e.Type()) == SlotRank(k)
    requires k > 0 ==> Ranked(es, SlotRank(k - 1), k <= KBAG2_SLOT)
    requires k == 0 ==> es == []
    ensures AllKnown(es + [e]) && Ranked(es + [e], SlotRank(k), k < KBAG2_SLOT)
  {
    var s := es + [e];
    RankOfKbag(e.Type());
    forall i | 0 <= i < |s|
      ensures Rank(s[i].Type()) <= SlotRank(k) && (k < KBAG2_SLOT && s[i].Type() == KBAG ==> i == |s| - 1)
    {
      if i < |es| {
        assert s[i] == es[i];
        RankOfKbag(es[i].Type());
      }
    }
  }

  lemma {:induction false} TypedSlot(slots: Slots, k: nat)
    requires Typed(slots) && k < SLOTS && slots[k].Some?
    ensures var e := slots[k].value; e.Valid() && Known(e.Type()) && Rank(e.Type()) == SlotRank(k)
  {
  }

  lemma {:induction false} CanonicalNext(es: seq<Element>, e: Element, k: nat)
    requires AllKnown(es) && Canonical(es) && e.Valid() && Known(e.Type()) && k < SLOTS && Rank(e.Type()) == SlotRank(k)
    requires if k == 0 then es == [] else Ranked(es, SlotRank(k - 1), k <= KBAG2_SLOT)
    ensures AllKnown(es + [e]) && Canonical(es + [e]) && Ranked(es + [e], SlotRank(k), k < KBAG2_SLOT)
  {
    NextBefore(es, e, k);
    CanonicalSnoc(es, e);
    RankedSnoc(es, e, k);
  }

  /** The serialiser's order is canonical. */
  lemma {:induction false} PresentCanonical(slots: Slots, k: nat)
    requires Typed(slots) && k <= SLOTS
    ensures AllKnown(Present(slots, k)) && Canonical(Present(slots, k))
    ensures if k == 0 then Present(slots, k) == [] else Ranked(Present(slots, k), SlotRank(k - 1), k <= KBAG2_SLOT)
  {
    var es := CanonicalPresent(slots, k);
  }

  lemma {:induction false} CanonicalPresent(slots: Slots, k: nat) returns (es: seq<Element>)
    requires Typed(slots) && k <= SLOTS
    ensures es == Present(slots, k) && AllKnown(es) && Canonical(es)
    ensures if k == 0 then es == [] else Ranked(es, SlotRank(k - 1), k <= KBAG2_SLOT)
  {
    es := [];
    if k > 0 {
      es := CanonicalPresent(slots, k - 1);
      CanonicalStep(es, slots[k - 1], k - 1, slots);
      es := es + Listed(slots[k - 1]);
    }
  }

  lemma {:induction false} CanonicalStep(es: seq<Element>, o: Option<Element>, k: nat, slots: Slots)
    requires Typed(slots) && k < SLOTS && o == slots[k] && AllKnown(es) && Canonical(es)
    requires if k == 0 then es == [] else Ranked(es, SlotRank(k - 1), k <= KBAG2_SLOT)
    ensures AllKnown(es + Listed(o)) && Canonical(es + Listed(o)) && Ranked(es + Listed(o), SlotRank(k), k < KBAG2_SLOT)
  {
    if o.Some? {
      TypedSlot(slots, k);
      CanonicalNext(es, o.value, k);
    } else {
      assert es + [] == es;
    }
  }

  // ---------------------------------------------------------------- canonical lists are kept in order

  /** Nothing above slot m. */
  ghost predicate EmptyAbove(slots: Slots, m: nat) {
    forall k :: m < k < SLOTS ==> slots[k] == None
  }

  lemma {:induction false} PresentAbove(slots: Slots, m: nat, k: nat)
    requires EmptyAbove(slots, m) && m < k <= SLOTS
    ensures Present(slots, k) == Present(slots, m + 1)
  {
    if k > m + 1 {
      PresentAbove(slots, m, k - 1);
      assert slots[k - 1] == None;
    }
  }

  /** Filing above everything present appends. */
  lemma {:induction false} PlaceAbove(slots: Slots, m: nat, t: nat, e: Element)
    requires m < t < SLOTS && EmptyAbove(slots, m)
    ensures Present(slots[t := Some(e)], SLOTS) == Present(slots, SLOTS) + [e]
    ensures EmptyAbove(slots[t := Some(e)], t)
  {
    var s := slots[t := Some(e)];
    PresentAbove(s, t, SLOTS);
    PresentBeforePlace(slots, t, Some(e), t);
    PresentAbove(slots, m, SLOTS);
    if m < t {
      PresentAbove(slots, m, t);
    }
  }

  /** m is the slot the last of the first n elements went to. */
  ghost predicate LastAt(es: seq<Element>, n: nat, slots: Slots, m: nat)
    requires AllKnown(es) && 0 < n <= |es|
  {
    && m < SLOTS && EmptyAbove(slots, m) && slots[m].Some? && SlotRank(m) == Rank(es[n - 1].Type())
    && (m == KBAG2_SLOT ==> n >= 2 && es[n - 2].Type() == KBAG)
  }

  lemma {:induction false} NextSlot(es: seq<Element>, n: nat, slots: Slots, m: nat)
    requires AllKnown(es) && Canonical(es) && 0 < n < |es| && LastAt(es, n, slots, m)
    ensures Target(slots, es[n].Type()) > m
    ensures Target(slots, es[n].Type()) == KBAG2_SLOT ==> es[n - 1].Type() == KBAG
  {
    var last, e := es[n - 1].Type(), es[n].Type();
    RankOfKbag(last);
    RankOfKbag(e);
    assert Before(last, e, 1);
    BeforeByRank(last, e, 1);
    if m == KBAG2_SLOT {
      assert Before(es[n - 2].Type(), e, 2);
      BeforeByRank(es[n - 2].Type(), e, 2);
    } else if e == KBAG && m < KBAG1_SLOT {
      assert slots[KBAG1_SLOT] == None;
    }
  }

  /** A canonical list comes back from the slots in its own order. */
  lemma {:induction false} CanonicalKept(es: seq<Element>, n: nat) returns (m: nat)
    requires AllKnown(es) && Canonical(es) && n <= |es|
    ensures AllKnown(es[..n]) && Present(PlaceAll(EMPTY, es[..n]), SLOTS) == es[..n]
    ensures n > 0 ==> LastAt(es, n, PlaceAll(EMPTY, es[..n]), m)
  {
    if n == 0 {
      NothingPresent(SLOTS);
      m := 0;
    } else {
      var m' := CanonicalKept(es, n - 1);
      var slots, e := PlaceAll(EMPTY, es[..n - 1]), es[n - 1];
      PlaceSnoc(es, n - 1);
      m := Target(slots, e.Type());
      if n == 1 {
        RankOfKbag(e.Type());
        FirstPlaced(m, e);
      } else {
        NextSlot(es, n - 1, slots, m');
        PlaceAbove(slots, m', m, e);
      }
    }
  }

  lemma {:induction false} PlaceSnoc(es: seq<Element>, n: nat)
    requires AllKnown(es) && n < |es|
    ensures AllKnown(es[..n]) && AllKnown(es[..n + 1]) && es[..n + 1] == es[..n] + [es[n]]
    ensures es[n].Valid() && Known(es[n].Type())
    ensures PlaceAll(EMPTY, es[..n + 1]) == Place(PlaceAll(EMPTY, es[..n]), es[n])
  {
    assert es[n].Valid();
    assert es[..n + 1] == es[..n] + [es[n]];
    PlaceAllAppend(EMPTY, es[..n], [es[n]]);
    assert PlaceAll(PlaceAll(EMPTY, es[..n]), [es[n]]) == Place(PlaceAll(EMPTY, es[..n]), es[n]);
  }

  lemma {:induction false} FirstPlaced(t: nat, e: Element)
    requires t < SLOTS
    ensures Present(EMPTY[t := Some(e)], SLOTS) == [e]
    ensures EmptyAbove(EMPTY[t := Some(e)], t)
  {
    var s := EMPTY[t := Some(e)];
    PresentAbove(s, t, SLOTS);
    PresentBeforePlace(EMPTY, t, Some(e), t);
    NothingPresent(t);
  }

  // ---------------------------------------------------------------- the agreement

  predicate NoSalt(es: seq<Element>) {
    forall i :: 0 <= i < |es| ==> es[i].Type() != SALT
  }

  /** Filed from scratch, the unsigned elements of both lists fill the same slots with the same elements. */
  ghost predicate SameFiling(es: seq<Element>, seen: seq<Element>)
    requires AllKnown(Unsigned(es)) && AllKnown(Unsigned(seen))
  {
    PlaceAll(EMPTY, Unsigned(es)) == PlaceAll(EMPTY, Unsigned(seen))
  }

  /** What leaves the C signer ahead of the ticket is the unsigned elements of the list seen, in their
      own order, with no SALT behind the ticket, exactly when those are canonical without SALT and the
      rest of the container files to the same. */
  lemma {:induction false} UnsignedInOrder(es: seq<Element>, seen: seq<Element>)
    requires AllKnown(es) && AllKnown(seen)
    ensures AllKnown(Unsigned(es)) && AllKnown(Unsigned(seen))
    ensures var slots := PlaceAll(EMPTY, es);
      Present(slots, ECID_SLOT) == Unsigned(seen) && slots[SALT_SLOT] == None
      <==> Canonical(Unsigned(seen)) && NoSalt(Unsigned(seen)) && SameFiling(es, seen)
  {
    SameWithoutSignature(EMPTY, EMPTY, es);
    SameWithoutSignature(EMPTY, EMPTY, seen);
    EmptyTyped();
    PlaceAllTyped(EMPTY, es);
    EmptyTyped();
    PlaceAllTyped(EMPTY, Unsigned(es));
    InOrderExactly(Unsigned(seen), PlaceAll(EMPTY, es), PlaceAll(EMPTY, Unsigned(es)));
  }

  lemma {:induction false} InOrderExactly(f: seq<Element>, slots: Slots, g: Slots)
    requires AllKnown(f) && AlikeUnsigned(slots, g) && Typed(slots) && Typed(g)
    ensures Present(slots, ECID_SLOT) == f && slots[SALT_SLOT] == None
      <==> Canonical(f) && NoSalt(f) && g == PlaceAll(EMPTY, f)
  {
    PresentSame(slots, g, ECID_SLOT);
    assert g[SALT_SLOT] == slots[SALT_SLOT];
    if Present(slots, ECID_SLOT) == f && slots[SALT_SLOT] == None {
      PresentCanonical(slots, ECID_SLOT);
      NoSaltIn(slots);
      RefiledFront(g);
    }
    if Canonical(f) && NoSalt(f) && g == PlaceAll(EMPTY, f) {
      InOrder(f, g);
    }
  }

  lemma {:induction false} RefiledFront(g: Slots)
    requires Typed(g) && g[ECID_SLOT] == None && g[SHSH_SLOT] == None && g[CERT_SLOT] == None && g[SALT_SLOT] == None
    ensures AllKnown(Present(g, ECID_SLOT)) && PlaceAll(EMPTY, Present(g, ECID_SLOT)) == g
  {
    PresentKnown(g, ECID_SLOT);
    PresentTail(g);
    SaltIsLast(g, Present(g, ECID_SLOT));
    Refile(g, SLOTS);
    assert Prefix(g, SLOTS) == g;
  }

  lemma {:induction false} NoSaltIn(slots: Slots)
    requires Typed(slots)
    ensures NoSalt(Present(slots, ECID_SLOT))
  {
    PresentTyped(slots, ECID_SLOT);
  }

  lemma {:induction false} PresentTyped(slots: Slots, k: nat)
    requires Typed(slots) && k <= SALT_SLOT
    ensures NoSalt(Present(slots, k))
  {
    if k > 0 {
      PresentTyped(slots, k - 1);
      if slots[k - 1].Some? {
        NotSalt(slots, k - 1);
        NoSaltSnoc(Present(slots, k - 1), slots[k - 1].value);
      } else {
        assert Present(slots, k) == Present(slots, k - 1);
      }
    }
  }

  lemma {:induction false} NotSalt(slots: Slots, k: nat)
    requires Typed(slots) && k < SALT_SLOT && slots[k].Some?
    ensures slots[k].value.Type() != SALT
  {
  }

  lemma {:induction false} NoSaltSnoc(es: seq<Element>, e: Element)
    requires NoSalt(es) && e.Type() != SALT
    ensures NoSalt(es + [e])
  {
    forall i | 0 <= i < |es + [e]|
      ensures (es + [e])[i].Type() != SALT
    {
      assert i < |es| ==> (es + [e])[i] == es[i];
    }
  }

  lemma {:induction false} InOrder(f: seq<Element>, g: Slots)
    requires AllKnown(f) && Canonical(f) && NoSalt(f)
    requires g == PlaceAll(EMPTY, f) && g[ECID_SLOT] == None && g[SHSH_SLOT] == None && g[CERT_SLOT] == None
    ensures Present(g, ECID_SLOT) == f && g[SALT_SLOT] == None
  {
    AllKept(f);
    EmptyTyped();
    PlaceAllTyped(EMPTY, f);
    NoSaltSlot(g, f);
  }

  /** The serialiser gives back a canonical list. */
  lemma {:induction false} AllKept(es: seq<Element>)
    requires AllKnown(es) && Canonical(es)
    ensures Present(PlaceAll(EMPTY, es), SLOTS) == es
  {
    assert es[..|es|] == es;
    var m := CanonicalKept(es, |es|);
  }

  lemma {:induction false} NoSaltSlot(g: Slots, f: seq<Element>)
    requires Typed(g) && g[ECID_SLOT] == None && g[SHSH_SLOT] == None && g[CERT_SLOT] == None
    requires NoSalt(f) && Present(g, SLOTS) == f
    ensures Present(g, ECID_SLOT) == f && g[SALT_SLOT] == None
  {
    PresentTail(g);
    SaltIsLast(g, Present(g, ECID_SLOT));
  }

  lemma {:induction false} SaltIsLast(g: Slots, front: seq<Element>)
    requires Typed(g)
    ensures g[SALT_SLOT].Some? ==>
      var es := front + Listed(g[SALT_SLOT]);
      |es| > 0 && es[|es| - 1] == g[SALT_SLOT].value && es[|es| - 1].Type() == SALT
    ensures g[SALT_SLOT] == None ==> front + Listed(g[SALT_SLOT]) == front
  {
  }

  lemma {:induction false} PresentTail(g: Slots)
    requires g[ECID_SLOT] == None && g[SHSH_SLOT] == None && g[CERT_SLOT] == None
    ensures Present(g, SLOTS) == Present(g, ECID_SLOT) + Listed(g[SALT_SLOT])
  {
    PresentStep(g, ECID_SLOT);
    PresentStep(g, SHSH_SLOT);
    PresentStep(g, CERT_SLOT);
    PresentStep(g, SALT_SLOT);
  }

  /** The element list of the C image, and that of the Ruby image. */
  function CList(es: seq<Element>, t: Ticket): seq<Element>
    requires AllKnown(es)
  {
    Present(Signed(PlaceAll(EMPTY, es), t), SLOTS)
  }

  function RubyList(es: seq<Element>, t: Ticket): seq<Element> {
    var blob := Ruby.Taken(t.Elements(), HEADER_SIZE, |Concat(t.Elements())|);
    Ruby.Kept(es, Ruby.Keys(blob)) + blob
  }

  lemma {:induction false} ListsAgree(es: seq<Element>, seen: seq<Element>, t: Ticket)
    requires AllKnown(es) && AllKnown(seen) && t.Valid()
    ensures AllKnown(Unsigned(es)) && AllKnown(Unsigned(seen))
    ensures CList(es, t) == RubyList(seen, t)
       <==> |t.cert.bytes| > HEADER_SIZE && Canonical(Unsigned(seen)) && NoSalt(Unsigned(seen)) && SameFiling(es, seen)
  {
    var slots := PlaceAll(EMPTY, es);
    EmptyTyped();
    PlaceAllTyped(EMPTY, es);
    PresentSigned(slots, t);
    BlobRead(t);
    UnsignedInOrder(es, seen);
    SaltIsLast(slots, Present(slots, ECID_SLOT) + t.Elements());
    if |t.cert.bytes| > HEADER_SIZE {
      TicketKeys(t);
      TailsAgree(Present(slots, ECID_SLOT), t, Listed(slots[SALT_SLOT]), Unsigned(seen));
    } else {
      var r := RubyList(seen, t);
      assert r[|r| - 1] == t.shsh;
    }
  }

  lemma {:induction false} TicketKeys(t: Ticket)
    requires t.Valid()
    ensures Ruby.Keys(t.Elements()) == [ECID, SHSH, CERT]
  {
    var es := t.Elements();
    assert es[1..] == [t.shsh, t.cert] && [t.shsh, t.cert][1..] == [t.cert];
    assert Ruby.Keys([t.cert]) == [CERT];
    assert Ruby.Keys([t.shsh, t.cert]) == [SHSH] + [CERT];
  }

  lemma {:induction false} TailsAgree(p: seq<Element>, t: Ticket, salt: seq<Element>, f: seq<Element>)
    requires salt == [] || (|salt| == 1 && salt[0].Type() == SALT)
    requires t.Valid()
    ensures p + t.Elements() + salt == f + t.Elements() <==> p == f && salt == []
  {
    var x, y := p + t.Elements() + salt, f + t.Elements();
    assert y[|y| - 1] == t.cert;
    if salt != [] {
      assert x[|x| - 1] == salt[0];
    } else if x == y {
      assert |p| == |f|;
      assert p == x[..|p|] && f == y[..|f|];
    }
  }

  lemma {:induction false} RubyListValid(es: seq<Element>, t: Ticket)
    requires AllKnown(es) && t.Valid()
    ensures AllValid(RubyList(es, t))
  {
    BlobRead(t);
    KeptValid(es, Ruby.Keys(Ruby.Taken(t.Elements(), HEADER_SIZE, |Concat(t.Elements())|)));
  }

  lemma {:induction false} KeptValid(es: seq<Element>, keys: seq<nat>)
    requires AllKnown(es)
    ensures AllValid(Ruby.Kept(es, keys))
    decreases |es|
  {
    if es != [] {
      assert es[0].Valid();
      KeptValid(es[1..], keys);
    }
  }

  /** The offset Ruby records for a list that ends with a ticket is where its SHSH starts. */
  lemma {:induction false} RubyOffset(f: seq<Element>, t: Ticket)
    requires t.Valid()
    ensures Ruby.LastShsh(f + t.Elements()) == |Concat(f)| + |t.ecid.bytes|
  {
    var es := f + t.Elements();
    assert es[..|es| - 1] == f + [t.ecid, t.shsh];
    assert (f + [t.ecid, t.shsh])[..|f| + 1] == f + [t.ecid];
    ConcatAppend(f, [t.ecid]);
    assert Concat([t.ecid]) == t.ecid.bytes + Concat([]) by { assert [t.ecid][1..] == []; }
  }

  /** An image over a list of elements, with a given SHSH offset. */
  function Image(h: Header, es: seq<Element>, shshOffset: nat): seq<byte> {
    var size := |Concat(es)|;
    HeaderBytes(Header(h.signature, HEADER_SIZE + size, size, shshOffset, h.imageType)) + Concat(es)
  }

  lemma {:induction false} SlotsShape(h: Header, slots: Slots, t: Ticket)
    ensures Serialize(h, Signed(slots, t), 0)
         == Image(h, Present(Signed(slots, t), SLOTS), |Concat(Present(slots, ECID_SLOT))| + |t.ecid.bytes|)
  {
    BodyIsConcat(slots, ECID_SLOT);
    SignedOffset(slots, t);
    SerializedImage(h, Signed(slots, t), |Body(slots, ECID_SLOT)| + |t.ecid.bytes|);
  }

  lemma {:induction false} SerializedImage(h: Header, s: Slots, shshOffset: nat)
    requires s[SHSH_SLOT].Some? && shshOffset == |Body(s, SHSH_SLOT)|
    ensures Serialize(h, s, 0) == Image(h, Present(s, SLOTS), shshOffset)
  {
    BodyIsConcat(s, SLOTS);
  }

  lemma {:induction false} SignedOffset(slots: Slots, t: Ticket)
    ensures |Body(Signed(slots, t), SHSH_SLOT)| == |Body(slots, ECID_SLOT)| + |t.ecid.bytes|
  {
    SignedLayout(slots, t);
  }

  lemma {:induction false} SignedListValid(slots: Slots, t: Ticket)
    requires Typed(slots) && t.Valid()
    ensures AllValid(Present(Signed(slots, t), SLOTS))
  {
    SignedTyped(slots, t);
    PresentKnown(Signed(slots, t), SLOTS);
    KnownValid(Present(Signed(slots, t), SLOTS));
  }

  lemma {:induction false} SameBytesSameLists(h: Header, a: seq<Element>, i: nat, b: seq<Element>, j: nat)
    requires AllValid(a) && AllValid(b) && Image(h, a, i) == Image(h, b, j)
    ensures a == b
  {
    BodiesEqual(Image(h, a, i), Image(h, b, j), Concat(a), Concat(b));
    ConcatInjective(a, b);
  }

  lemma {:induction false} RubyShape(h: Header, es: seq<Element>, t: Ticket)
    ensures RubySigned(h, es, t) == Image(h, RubyList(es, t), Ruby.LastShsh(RubyList(es, t)))
  {
  }

  lemma {:induction false} SameOffset(es: seq<Element>, t: Ticket)
    requires AllKnown(es) && t.Valid() && |t.cert.bytes| > HEADER_SIZE
    ensures Ruby.LastShsh(RubyList(es, t)) == |Concat(Unsigned(es))| + |t.ecid.bytes|
  {
    BlobRead(t);
    TicketKeys(t);
    RubyOffset(Unsigned(es), t);
  }

  /** The two signers, the Ruby one having seen a list of elements that need not be the container's,
      produce the same bytes if and only if the unsigned elements seen are in the C serialiser's order
      without a SALT, those of the container file to the same, and the ticket's CERT is longer than a
      container header. */
  lemma {:induction false} SignersAgreeOn(h: Header, es: seq<Element>, seen: seq<Element>, t: Ticket)
    requires AllKnown(es) && AllKnown(seen) && t.Valid()
    ensures AllKnown(Unsigned(es)) && AllKnown(Unsigned(seen))
    ensures CSigned(h, es, t) == RubySigned(h, seen, t)
       <==> |t.cert.bytes| > HEADER_SIZE && Canonical(Unsigned(seen)) && NoSalt(Unsigned(seen)) && SameFiling(es, seen)
  {
    ListsAgree(es, seen, t);
    if CSigned(h, es, t) == RubySigned(h, seen, t) {
      EmptyTyped();
      PlaceAllTyped(EMPTY, es);
      SameImageSameLists(h, PlaceAll(EMPTY, es), seen, t);
    }
    if |t.cert.bytes| > HEADER_SIZE && Canonical(Unsigned(seen)) && NoSalt(Unsigned(seen)) && SameFiling(es, seen) {
      AgreeIf(h, es, seen, t);
    }
  }

  lemma {:induction false} AgreeIf(h: Header, es: seq<Element>, seen: seq<Element>, t: Ticket)
    requires AllKnown(es) && AllKnown(seen) && t.Valid() && |t.cert.bytes| > HEADER_SIZE
    requires AllKnown(Unsigned(es)) && AllKnown(Unsigned(seen)) && SameFiling(es, seen)
    requires Canonical(Unsigned(seen)) && NoSalt(Unsigned(seen))
    ensures CSigned(h, es, t) == RubySigned(h, seen, t)
  {
    ListsAgree(es, seen, t);
    UnsignedInOrder(es, seen);
    SameListsSameImage(h, PlaceAll(EMPTY, es), seen, t);
  }

  /** The two signers produce the same bytes, header fields included, if and only if the container's
      unsigned elements are in the C serialiser's order without a SALT, and the ticket's CERT is
      longer than a container header. */
  lemma {:induction false} SignersAgree(h: Header, es: seq<Element>, t: Ticket)
    requires AllKnown(es) && t.Valid()
    ensures AllKnown(Unsigned(es))
    ensures CSigned(h, es, t) == RubySigned(h, es, t)
       <==> |t.cert.bytes| > HEADER_SIZE && Canonical(Unsigned(es)) && NoSalt(Unsigned(es))
  {
    SignersAgreeOn(h, es, es, t);
  }

  lemma {:induction false} SameImageSameLists(h: Header, slots: Slots, seen: seq<Element>, t: Ticket)
    requires Typed(slots) && AllKnown(seen) && t.Valid()
    requires Serialize(h, Signed(slots, t), 0) == RubySigned(h, seen, t)
    ensures Present(Signed(slots, t), SLOTS) == RubyList(seen, t)
  {
    var a, i := ListOfC(h, slots, t);
    var b, j := ListOfRuby(h, seen, t);
    SameBytesSameLists(h, a, i, b, j);
  }

  lemma {:induction false} ListOfC(h: Header, slots: Slots, t: Ticket) returns (list: seq<Element>, offset: nat)
    requires Typed(slots) && t.Valid()
    ensures list == Present(Signed(slots, t), SLOTS) && AllValid(list)
    ensures Serialize(h, Signed(slots, t), 0) == Image(h, list, offset)
  {
    SlotsShape(h, slots, t);
    SignedListValid(slots, t);
    list, offset := Present(Signed(slots, t), SLOTS), |Concat(Present(slots, ECID_SLOT))| + |t.ecid.bytes|;
  }

  lemma {:induction false} ListOfRuby(h: Header, seen: seq<Element>, t: Ticket)
    returns (list: seq<Element>, offset: nat)
    requires AllKnown(seen) && t.Valid()
    ensures list == RubyList(seen, t) && AllValid(list) && RubySigned(h, seen, t) == Image(h, list, offset)
  {
    RubyShape(h, seen, t);
    RubyListValid(seen, t);
    list, offset := RubyList(seen, t), Ruby.LastShsh(RubyList(seen, t));
  }

  lemma {:induction false} SameListsSameImage(h: Header, slots: Slots, seen: seq<Element>, t: Ticket)
    requires AllKnown(seen) && t.Valid() && |t.cert.bytes| > HEADER_SIZE
    requires Present(Signed(slots, t), SLOTS) == RubyList(seen, t) && Present(slots, ECID_SLOT) == Unsigned(seen)
    ensures Serialize(h, Signed(slots, t), 0) == RubySigned(h, seen, t)
  {
    SlotsShape(h, slots, t);
    RubyImage(h, seen, t);
  }

  lemma {:induction false} RubyImage(h: Header, es: seq<Element>, t: Ticket)
    requires AllKnown(es) && t.Valid() && |t.cert.bytes| > HEADER_SIZE
    ensures RubySigned(h, es, t) == Image(h, RubyList(es, t), |Concat(Unsigned(es))| + |t.ecid.bytes|)
  {
    RubyShape(h, es, t);
    SameOffset(es, t);
  }

  lemma {:induction false} KnownValid(es: seq<Element>)
    requires AllKnown(es)
    ensures AllValid(es)
  {
  }

  lemma {:induction false} BodiesEqual(c: seq<byte>, r: seq<byte>, cb: seq<byte>, rb: seq<byte>)
    requires c == r && |c| >= HEADER_SIZE && c[HEADER_SIZE..] == cb && r[HEADER_SIZE..] == rb
    ensures cb == rb
  {
  }
}
