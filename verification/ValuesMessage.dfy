/** A drive's identity together with its attributes' values, on either side of the connection. */
module ValuesMessage {
  import opened MachineWords
  import opened IdLists
  import opened SmartUniqueID
  import opened UnitCodec

  class SMARTuniqueIDandValues {
    const drive: SMARTuniqueID         // m_SMARTuniqueID
    const readOk: array<bool>          // m_successfullyReadSMARTrawValue, by attribute ID
    const rawValues: array<Word64>     // by attribute ID

    ghost predicate Valid() {
      && drive.Valid()
      && readOk.Length == rawValues.Length == drive.numIDs + 1
      && rawValues != drive.prevRaw && rawValues != drive.otherMetric && rawValues != drive.rawDiff
    }

    /** The part of an attribute that is exchanged. */
    function AttributeAt(id: nat): Attribute
      requires Valid() && id <= drive.numIDs
      reads readOk, rawValues, drive.units, drive.lower, drive.upper
    {
      Attribute(readOk[id], rawValues[id], drive.units[id], drive.lower[id], drive.upper[id])
    }

    constructor (drive: SMARTuniqueID)
      requires drive.Valid()
      ensures Valid() && this.drive == drive && fresh(readOk) && fresh(rawValues)
      ensures forall id :: 0 <= id <= drive.numIDs ==> !readOk[id]
    {
      this.drive := drive;
      readOk := new bool[drive.numIDs + 1](_ => false);
      rawValues := new Word64[drive.numIDs + 1](_ => 0);
    }

    /** BeforeWait, up to the writing of XML: one element per attribute that was read; consistent are the
        attributes whose raw value IsConsistent accepts. */
    method BeforeWait(consistent: set<nat>, ghost attributes: seq<Attribute>) returns (es: seq<Element>)
      requires Valid() && |UpToZero(drive.idsToRead[..])| < drive.numIDs
      requires forall id :: id in UpToZero(drive.idsToRead[..]) ==> id <= drive.numIDs
      requires |attributes| == drive.numIDs + 1
      requires forall id :: 0 <= id <= drive.numIDs ==> attributes[id] == AttributeAt(id)
      ensures forall k :: 0 <= k < |UpToZero(drive.idsToRead[..])| ==> UpToZero(drive.idsToRead[..])[k] < |attributes|
      ensures es == MessageFor(drive.h, UpToZero(drive.idsToRead[..]), attributes, consistent)
    {
      ghost var list := UpToZero(drive.idsToRead[..]);
      forall k | 0 <= k < |list| ensures list[k] < |attributes| && list[k] != 0 {
        assert list[k] in list;
      }
      es := [];
      var idx := 0;
      while drive.idsToRead[idx] != 0
        invariant 0 <= idx <= |list|
        invariant es == MessageFor(drive.h, list[..idx], attributes, consistent)
        decreases |list| - idx
      {
        var id := drive.idsToRead[idx];
        assert list[..idx + 1][..idx] == list[..idx];
        if readOk[id] && id in consistent {
          es := es + [Encode(drive.h, id, AttributeAt(id))];
        }
        idx := idx + 1;
      }
      assert idx == |list| && list[..idx] == list;
    }

    /** HandleSingleSMARTentry */
    method HandleSingleEntry(e: Element)
      requires Valid() && e.id != drive.numIDs + 1
      modifies readOk, rawValues, drive.units, drive.lower, drive.upper
      ensures 0 <= e.id <= drive.numIDs ==> AttributeAt(e.id) == Handle(drive.h, old(AttributeAt(e.id)), e)
      ensures forall id :: 0 <= id <= drive.numIDs && id != e.id ==> AttributeAt(id) == old(AttributeAt(id))
      ensures 0 <= e.id <= drive.numIDs ==> readOk[e.id] == (e.raw >= 0)
      ensures 0 <= e.id <= drive.numIDs ==>
                rawValues[e.id] == if e.raw >= 0 then e.raw % TWO_TO_64 else old(rawValues[e.id])
    {
      if e.id > drive.numIDs + 1 || e.id < 0 {
        return;
      }
      if e.raw < 0 {
        readOk[e.id] := false;
        return;
      }
      readOk[e.id] := true;
      drive.lower[e.id] := DecodeBound(drive.h, e.lower);
      drive.upper[e.id] := DecodeBound(drive.h, e.upper);
      drive.units[e.id] := DecodeUnit(drive.h, drive.units[e.id], e.unit);
      rawValues[e.id] := e.raw % TWO_TO_64;
    }

    /** GetSMARTrawValues: all elements in order. */
    method HandleMessage(es: seq<Element>, ghost before: seq<Attribute>)
      requires Valid() && Processable(es, |before|) && |before| == drive.numIDs + 1
      requires forall id :: 0 <= id <= drive.numIDs ==> before[id] == AttributeAt(id)
      modifies readOk, rawValues, drive.units, drive.lower, drive.upper
      ensures forall id :: 0 <= id <= drive.numIDs ==> AttributeAt(id) == HandleAll(drive.h, before, es)[id]
    {
      hide Handle;
      for i := 0 to |es|
        invariant Processable(es[..i], |before|)
        invariant forall id :: 0 <= id <= drive.numIDs ==> AttributeAt(id) == HandleAll(drive.h, before, es[..i])[id]
      {
        HandleLast(drive.h, before, es[..i], es[i]);
        assert es[..i + 1] == es[..i] + [es[i]];
        HandleSingleEntry(es[i]);
      }
      assert es[..|es|] == es;
    }
  }

  /** The flags of a sequence of attributes. */
  function Flags(attributes: seq<Attribute>): (ok: seq<bool>)
    ensures |ok| == |attributes| && forall k :: 0 <= k < |ok| ==> ok[k] == attributes[k].ok
  {
    seq(|attributes|, k requires 0 <= k < |attributes| => attributes[k].ok)
  }

  /** Across the connection: after a client that had no values yet handled a message, it has exactly those
      attributes of the list flagged that were read and found consistent. */
  lemma ClientFlagsList(h: TopBit, list: seq<nat>, service: seq<Attribute>, consistent: set<nat>,
                        client: seq<Attribute>, id: nat)
    requires (forall k :: 0 <= k < |list| ==> list[k] < |service|) && NoRepeats(list)
    requires |service| == |client| && id < |client| && forall k :: 0 <= k < |service| ==> IsAttribute(h, service[k])
    requires forall k :: 0 <= k < |client| ==> !client[k].ok
    ensures Flags(HandleAll(h, client, MessageFor(h, list, service, consistent)))[id] <==>
            id in list && service[id].ok && id in consistent
  {
    ValuesArrive(h, list, service, consistent, client, id);
  }

  /** What a client that had no values yet collects from one values message for an ascending list of attribute
      IDs 1 to n: it works with the service's list of attributes exactly when the last ID n is not in it and the
      raw value of every attribute in it was read and found consistent. */
  lemma ClientCollectsExactly(h: TopBit, list: seq<nat>, service: seq<Attribute>, consistent: set<nat>,
                              client: seq<Attribute>, n: nat)
    requires Ascending(list) && (forall id :: id in list ==> 1 <= id <= n)
    requires |service| == |client| == n + 1 && forall k :: 0 <= k <= n ==> IsAttribute(h, service[k])
    requires forall k :: 0 <= k <= n ==> !client[k].ok
    ensures forall k :: 0 <= k < |list| ==> list[k] <= n
    ensures
      var found := Flagged(Flags(HandleAll(h, client, MessageFor(h, list, service, consistent))), n);
      && (forall id :: id in found <==> id in list && id < n && service[id].ok && id in consistent)
      && (found == list <==> n !in list && forall id :: id in list ==> service[id].ok && id in consistent)
  {
    hide IsAttribute, HandleAll, MessageFor, Flagged;
    forall k | 0 <= k < |list| ensures 1 <= list[k] <= n {
      assert list[k] in list;
    }
    var ok := Flags(HandleAll(h, client, MessageFor(h, list, service, consistent)));
    var found := Flagged(ok, n);
    FlaggedIsExact(ok, n);
    forall id: nat | id <= n ensures ok[id] <==> id in list && service[id].ok && id in consistent {
      ClientFlagsList(h, list, service, consistent, client, id);
    }
    if n !in list && forall id :: id in list ==> service[id].ok && id in consistent {
      AscendingUnique(found, list);
    }
  }

  /** From request to discovery, across the connection, with attribute IDs 1 to n: the service asks a drive for
      the supported ones of the requested attributes, the drive reports its attributes in ascending order, and
      the service sends a values message. A client that had no values yet and collects what it received then
      works with the same list of attributes as the service exactly when the last ID n is not in it and every
      raw value in it was found consistent. */
  lemma ClientDiscoversReadList(h: TopBit, supported: seq<nat>, requested: seq<nat>, reported: seq<Entry>,
                                st: ReadState, service: seq<Attribute>, consistent: set<nat>,
                                client: seq<Attribute>, n: nat)
    requires Ascending(supported) && (forall id :: id in supported ==> 1 <= id <= n)
    requires |st.ok| == |st.raws| == |service| == |client| == n + 1
    requires st.cursor == 0 && forall k :: 0 <= k <= n ==> !st.ok[k]
    requires |reported| == |supported| && forall i :: 0 <= i < |reported| ==> reported[i].id == supported[i]
    requires forall e :: e in reported ==> e.id < |st.ok|
    requires forall k :: 0 <= k <= n ==> IsAttribute(h, service[k])
    requires Flags(service) == Callbacks(Intersection(supported, requested), st, reported).ok
    requires forall k :: 0 <= k <= n ==> !client[k].ok
    ensures
      var list := Intersection(supported, requested);
      && (forall k :: 0 <= k < |list| ==> list[k] <= n)
      && var found := Flagged(Flags(HandleAll(h, client, MessageFor(h, list, service, consistent))), n);
         && (forall id :: id in found <==> id in list && id < n && id in consistent)
         && (found == list <==> n !in list && forall id :: id in list ==> id in consistent)
  {
    hide IsAttribute, HandleAll, MessageFor, Callbacks, Flagged;
    var list := Intersection(supported, requested);
    IntersectionIsExact(supported, requested);
    forall id | id in list ensures 1 <= id <= n && service[id].ok {
      assert id in supported;
      ListedAreMarked(supported, list, st, reported, id);
      assert Flags(service)[id];
    }
    ClientCollectsExactly(h, list, service, consistent, client, n);
  }

  /** Attribute 254, the last of 254: the client has its values and does not list it. */
  lemma LastAttributeIsNotListed(h: TopBit, service: seq<Attribute>, client: seq<Attribute>)
    requires |service| == |client| == 255 && service[254] == Attribute(true, 7, 0, 0, 0)
    requires forall k :: 0 <= k < 254 ==> service[k] == Attribute(false, 0, 0, 0, 0)
    requires forall k :: 0 <= k < 255 ==> !client[k].ok
    ensures
      var after := HandleAll(h, client, MessageFor(h, [254], service, {254}));
      && after[254].ok && after[254].raw == 7
      && Flagged(Flags(after), 254) == []
  {
    hide HandleAll, MessageFor, Flagged;
    var after := HandleAll(h, client, MessageFor(h, [254], service, {254}));
    ValuesArrive(h, [254], service, {254}, client, 254);
    forall id | 1 <= id < 254 ensures Flags(after)[id] <==> id in [254] {
      ClientFlagsList(h, [254], service, {254}, client, id);
    }
    CollectedList(Flags(after), [254], 254);
  }
}
