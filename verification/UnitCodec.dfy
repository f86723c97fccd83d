/** One attribute in a values message: how the service prints it and what the client makes of it. Main result:
    ValuesArrive - after a client handled a message, it has for every attribute in it the service's raw value,
    bounds and unit including the ">" marker, with one exception: a unit of 0 is not sent, so the client keeps
    the unit it had. */
module UnitCodec {
  import opened MachineWords
  import opened Decimal
  import opened Options

  // ---- Unit and bounds ----

  /** BeforeWait: a unit of 0 is omitted, a marked one is printed as ">" and its unmasked value. */
  function EncodeUnit(h: TopBit, unit: int): Option<string> {
    if unit == 0 then None
    else if HasGreaterBit(unit) then Some(">" + PrintInt(Unmasked(h, unit)))
    else Some(PrintInt(unit))
  }

  /** HandleSingleSMARTentry: without the attribute the unit stays as it was. */
  function DecodeUnit(h: TopBit, before: int, attribute: Option<string>): int {
    match attribute
    case None => before
    case Some(s) =>
      if s == "" then before
      else if s[0] == '>' then SetGreaterBit(h, ToLong(h, ParseInt(s[1..])))
      else ToLong(h, ParseInt(s))
  }

  function EncodeBound(bound: int): Option<string> {
    if bound == 0 then None else Some(PrintInt(bound))
  }

  function DecodeBound(h: TopBit, attribute: Option<string>): int {
    match attribute
    case None => 0
    case Some(s) => ToLong(h, ParseInt(s))
  }

  /** Unit round trip, for every long: the client gets the unit back, its top bit included, unless it is 0. */
  lemma UnitRoundTrip(h: TopBit, unit: int, before: int)
    requires IsLong(h, unit)
    ensures DecodeUnit(h, before, EncodeUnit(h, unit)) == if unit == 0 then before else unit
  {
    var unmasked := Unmasked(h, unit);
    ParsePrinted(unmasked);
    ToLongNear(h, unmasked);
    assert (">" + PrintInt(unmasked))[1..] == PrintInt(unmasked);
  }

  /** Bound round trip, for every long: 0 is omitted and defaulted. */
  lemma BoundRoundTrip(h: TopBit, bound: int)
    requires IsLong(h, bound)
    ensures DecodeBound(h, EncodeBound(bound)) == bound
  {
    ParsePrinted(bound);
    ToLongNear(h, bound);
  }

  /** The texts on the way: nothing for 0, ">" and the unmasked number for a marked unit, else the number. */
  lemma UnitTexts(h: TopBit, unit: int)
    requires IsLong(h, unit)
    ensures unit == 0 ==> EncodeUnit(h, unit) == None && EncodeBound(unit) == None
    ensures unit > 0 ==> EncodeUnit(h, unit) == EncodeBound(unit) == Some(Print(unit))
    ensures unit < 0 ==> EncodeUnit(h, unit) == Some(">" + Print(unit + h))
    ensures unit < 0 ==> EncodeBound(unit) == Some("-" + Print(-unit))
  {
  }

  /** An empty unit leaves the unit as it was, like a missing one. */
  lemma EmptyUnitKept(h: TopBit, before: int)
    ensures DecodeUnit(h, before, Some("")) == DecodeUnit(h, before, None) == before
  {
  }

  // ---- Whole messages ----

  /** What either side holds for one attribute. */
  datatype Attribute = Attribute(ok: bool, raw: Word64, unit: int, lower: int, upper: int)

  /** Raw values have 48 bits; the client parses them as signed 64-bit numbers. */
  predicate IsAttribute(h: TopBit, a: Attribute) {
    IsLong(h, a.unit) && IsLong(h, a.lower) && IsLong(h, a.upper) && a.raw < TWO_TO_64 / 2
  }

  /** One <SMART> element; the raw value is parsed as a signed 64-bit number. */
  datatype Element = Element(id: int, raw: int, unit: Option<string>, lower: Option<string>, upper: Option<string>)

  function Encode(h: TopBit, id: nat, a: Attribute): Element {
    Element(id, a.raw, EncodeUnit(h, a.unit), EncodeBound(a.lower), EncodeBound(a.upper))
  }

  /** BeforeWait: the attributes to read that were read, with the raw value found consistent. */
  function MessageFor(h: TopBit, list: seq<nat>, attributes: seq<Attribute>, consistent: set<nat>): (es: seq<Element>)
    requires forall k :: 0 <= k < |list| ==> list[k] < |attributes|
    ensures forall k :: 0 <= k < |es| ==> 0 <= es[k].id < |attributes|
  {
    if list == [] then []
    else
      var before, id := list[..|list| - 1], list[|list| - 1];
      MessageFor(h, before, attributes, consistent)
      + if attributes[id].ok && id in consistent then [Encode(h, id, attributes[id])] else []
  }

  /** HandleSingleSMARTentry for an ID in range: a negative raw value only clears the flag. */
  function Handle(h: TopBit, before: Attribute, e: Element): Attribute {
    if e.raw < 0 then before.(ok := false)
    else
      Attribute(true, e.raw % TWO_TO_64,
                DecodeUnit(h, before.unit, e.unit), DecodeBound(h, e.lower), DecodeBound(h, e.upper))
  }

  /** CheckSMARTidRange: elements with IDs out of range are ignored. The check lets the ID one beyond the last
      attribute pass, which no array has; no element may have it. */
  predicate Processable(es: seq<Element>, count: nat) {
    forall k :: 0 <= k < |es| ==> es[k].id != count
  }

  function HandleAll(h: TopBit, before: seq<Attribute>, es: seq<Element>): (after: seq<Attribute>)
    requires Processable(es, |before|)
    ensures |after| == |before|
  {
    if es == [] then before
    else
      var e := es[|es| - 1];
      var r := HandleAll(h, before, es[..|es| - 1]);
      if 0 <= e.id < |r| then r[e.id := Handle(h, r[e.id], e)] else r
  }

  /** What the client holds after hearing about an attribute. */
  function Heard(before: Attribute, a: Attribute): Attribute {
    Attribute(true, a.raw, if a.unit == 0 then before.unit else a.unit, a.lower, a.upper)
  }

  lemma {:induction false} HandleEncoded(h: TopBit, before: Attribute, id: nat, a: Attribute)
    requires IsAttribute(h, a)
    ensures Handle(h, before, Encode(h, id, a)) == Heard(before, a)
  {
    hide EncodeUnit, DecodeUnit, EncodeBound, DecodeBound, ToLong;
    UnitRoundTrip(h, a.unit, before.unit);
    BoundRoundTrip(h, a.lower);
    BoundRoundTrip(h, a.upper);
  }

  lemma HandleLast(h: TopBit, before: seq<Attribute>, es: seq<Element>, e: Element)
    requires Processable(es, |before|) && e.id != |before|
    ensures Processable(es + [e], |before|)
    ensures
      var r := HandleAll(h, before, es);
      HandleAll(h, before, es + [e]) == if 0 <= e.id < |r| then r[e.id := Handle(h, r[e.id], e)] else r
  {
    assert (es + [e])[..|es|] == es;
  }

  /** A negative raw value, as the last of a message for its attribute, leaves it as not read and otherwise as it
      was. */
  lemma NegativeRawClears(h: TopBit, before: seq<Attribute>, es: seq<Element>, e: Element)
    requires Processable(es, |before|) && 0 <= e.id < |before| && e.raw < 0
    ensures Processable(es + [e], |before|)
    ensures
      var was, now := HandleAll(h, before, es)[e.id], HandleAll(h, before, es + [e])[e.id];
      !now.ok && now.raw == was.raw && now.unit == was.unit && now.lower == was.lower && now.upper == was.upper
  {
    HandleLast(h, before, es, e);
  }

  /** Elements with other IDs out of range change nothing. */
  lemma OutOfRangeIgnored(h: TopBit, before: seq<Attribute>, es: seq<Element>, e: Element)
    requires Processable(es, |before|) && (e.id < 0 || e.id > |before|)
    ensures Processable(es + [e], |before|) && HandleAll(h, before, es + [e]) == HandleAll(h, before, es)
  {
    HandleLast(h, before, es, e);
  }

  lemma MessageGrows(h: TopBit, list: seq<nat>, attributes: seq<Attribute>, consistent: set<nat>)
    requires list != [] && forall k :: 0 <= k < |list| ==> list[k] < |attributes|
    ensures
      var id := list[|list| - 1];
      MessageFor(h, list, attributes, consistent) ==
      MessageFor(h, list[..|list| - 1], attributes, consistent)
      + if attributes[id].ok && id in consistent then [Encode(h, id, attributes[id])] else []
  {
    hide Encode;
  }

  /** A message has its elements in the order of the list: what is sent for its first IDs comes first. */
  lemma {:induction false} MessageInOrder(h: TopBit, list: seq<nat>, n: nat, attributes: seq<Attribute>,
                                          consistent: set<nat>)
    requires n <= |list| && forall k :: 0 <= k < |list| ==> list[k] < |attributes|
    ensures MessageFor(h, list[..n], attributes, consistent) <= MessageFor(h, list, attributes, consistent)
  {
    hide MessageFor;
    if n == |list| {
      assert list[..n] == list;
    } else {
      var shorter := list[..|list| - 1];
      assert shorter[..n] == list[..n];
      MessageInOrder(h, shorter, n, attributes, consistent);
      MessageGrows(h, list, attributes, consistent);
    }
  }

  ghost predicate NoRepeats(list: seq<nat>) {
    forall i, j :: 0 <= i < j < |list| ==> list[i] != list[j]
  }

  lemma LastOf(list: seq<nat>, id: nat)
    requires list != [] && NoRepeats(list)
    ensures
      var shorter, last := list[..|list| - 1], list[|list| - 1];
      NoRepeats(shorter) && last !in shorter && (id in list <==> id in shorter || id == last)
  {
    assert list == list[..|list| - 1] + [list[|list| - 1]];
  }

  /** Over every list without repetition: the attributes that were read consistently arrive, all others stay. */
  lemma {:induction false} ValuesArrive(h: TopBit, list: seq<nat>, attributes: seq<Attribute>, consistent: set<nat>,
                                        before: seq<Attribute>, id: nat)
    requires (forall k :: 0 <= k < |list| ==> list[k] < |attributes|) && |attributes| == |before| && id < |before|
    requires NoRepeats(list) && forall k :: 0 <= k < |attributes| ==> IsAttribute(h, attributes[k])
    ensures
      HandleAll(h, before, MessageFor(h, list, attributes, consistent))[id] ==
      if id in list && attributes[id].ok && id in consistent then Heard(before[id], attributes[id]) else before[id]
  {
    if list != [] {
      hide IsAttribute, Handle, Encode, Heard, HandleAll, NoRepeats;
      var shorter, last := list[..|list| - 1], list[|list| - 1];
      var es, e := MessageFor(h, shorter, attributes, consistent), Encode(h, last, attributes[last]);
      LastOf(list, id);
      ValuesArrive(h, shorter, attributes, consistent, before, id);
      if attributes[last].ok && last in consistent {
        ValuesArrive(h, shorter, attributes, consistent, before, last);
        EncodeKeepsID(h, last, attributes[last]);
        HandleEncoded(h, before[last], last, attributes[last]);
        HandleLast(h, before, es, e);
        assert MessageFor(h, list, attributes, consistent) == es + [e];
      } else {
        assert MessageFor(h, list, attributes, consistent) == es;
      }
    }
  }

  lemma EncodeKeepsID(h: TopBit, id: nat, a: Attribute)
    ensures Encode(h, id, a).id == id
  {
  }
}
