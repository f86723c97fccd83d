/** Reading a drive's attributes through callbacks, and collecting the IDs that were read. */
module SmartAccess {
  import opened MachineWords
  import opened IdLists

  /** struct attr_helper with the values it fills in. */
  class AttrHelper {
    const idsToRead: array<nat>        // IDsOfSMARTattrsToRd, ended by a 0
    const readOk: array<bool>          // m_successfullyReadSMARTrawValue, by attribute ID
    const rawValues: array<Word64>     // the attributes' raw values, by attribute ID
    var cursor: nat                    // currSMART_IDtoReadIdx

    ghost predicate Valid()
      reads this, idsToRead
    {
      readOk.Length == rawValues.Length && |List()| < idsToRead.Length && cursor <= |List()|
    }

    ghost function List(): (list: seq<nat>)
      reads idsToRead
    {
      UpToZero(idsToRead[..])
    }

    ghost function State(): ReadState
      reads this, readOk, rawValues
    {
      ReadState(cursor, readOk[..], rawValues[..])
    }

    constructor (idsToRead: array<nat>, readOk: array<bool>, rawValues: array<Word64>)
      requires readOk.Length == rawValues.Length && |UpToZero(idsToRead[..])| < idsToRead.Length
      ensures Valid() && cursor == 0
      ensures this.idsToRead == idsToRead && this.readOk == readOk && this.rawValues == rawValues
    {
      this.idsToRead, this.readOk, this.rawValues := idsToRead, readOk, rawValues;
      cursor := 0;
    }

    /** getSMARTrawValueCallback for one reported attribute. */
    method Callback(e: Entry)
      requires Valid() && e.id < readOk.Length
      modifies this`cursor, readOk, rawValues
      ensures Valid()
      ensures State() == CallbackStep(List(), old(State()), e)
    {
      ghost var list := List();
      ghost var start := cursor;
      while idsToRead[cursor] < e.id
        invariant Valid() && cursor <= |list|
        invariant Advance(list, cursor, e.id) == Advance(list, start, e.id)
        decreases |list| - cursor
        modifies `cursor
      {
        assert cursor < |list| ==> list[cursor] in list;
        if idsToRead[cursor] == 0 {
          break;
        }
        cursor := cursor + 1;
      }
      assert cursor < |list| ==> list[cursor] in list && list[cursor] == idsToRead[cursor];
      assert cursor == Advance(list, start, e.id);
      if idsToRead[cursor] == e.id {
        rawValues[e.id] := e.raw;
        readOk[e.id] := true;
        assert readOk[..] == old(readOk[..])[e.id := true];
        assert rawValues[..] == old(rawValues[..])[e.id := e.raw];
      } else {
        readOk[e.id] := false;
        assert readOk[..] == old(readOk[..])[e.id := false];
      }
      assert List() == list;
    }

    /** sk_disk_smart_parse_attributes calls back once per attribute of the drive. */
    method ReadAttributes(es: seq<Entry>)
      requires Valid() && forall e :: e in es ==> e.id < readOk.Length
      modifies this`cursor, readOk, rawValues
      ensures Valid()
      ensures State() == Callbacks(List(), old(State()), es)
    {
      ghost var list, st := List(), State();
      for i := 0 to |es|
        invariant Valid() && List() == list
        invariant State() == Callbacks(list, st, es[..i])
      {
        assert es[..i + 1][..i] == es[..i];
        Callback(es[i]);
      }
      assert es[..|es|] == es;
    }

    /** setSMART_IDsToReadFromSuccSMARTrawValUpd8: collects the IDs 1..numIDs-1 that were read. */
    method CollectRead(target: array<nat>, numIDs: nat)
      requires target.Length == numIDs >= 1 && numIDs <= readOk.Length
      modifies target
      ensures target[..] == Placed(old(target[..]), Flagged(readOk[..], numIDs))
    {
      ghost var before, ok := target[..], readOk[..];
      var targetIdx := 0;
      for id := 1 to numIDs
        invariant targetIdx == |Flagged(ok, id)|
        invariant forall k :: 0 <= k < targetIdx ==> target[k] == Flagged(ok, id)[k]
        invariant forall k :: targetIdx <= k < numIDs ==> target[k] == before[k]
      {
        assert readOk[id] == ok[id];
        if readOk[id] {
          target[targetIdx] := id;
          targetIdx := targetIdx + 1;
        }
      }
      target[targetIdx] := 0;
      PlacedBy(before, Flagged(ok, numIDs), target[..]);
    }
  }
}
