/** The per-drive object: the unit estimator's per-ID arrays and the two ID lists, updated in place. */
module SmartUniqueID {
  import opened MachineWords
  import opened UnitEstimator
  import opened IdLists

  class SMARTuniqueID {
    /** Top bit of the build's "long int". */
    const h: TopBit
    /** TU_Bln361095dataCarrierNumSATA_SMARTattrIDs */
    const numIDs: nat

    const supportedIDs: array<nat>   // supportedSMART_IDs
    const idsToRead: array<nat>      // m_SMART_IDsToRd

    const phase: array<Phase>        // state
    const prevRaw: array<Word64>
    const otherMetric: array<Word64>
    const rawDiff: array<Word64>
    const units: array<int>
    const lower: array<int>
    const upper: array<int>
    const lastEstimate: array<int>

    ghost predicate Valid() {
      && numIDs >= 1
      && supportedIDs.Length == idsToRead.Length == numIDs
      && phase.Length == prevRaw.Length == otherMetric.Length == rawDiff.Length == numIDs + 1
      && units.Length == lower.Length == upper.Length == lastEstimate.Length == numIDs + 1
      && supportedIDs != idsToRead
      && prevRaw != otherMetric && otherMetric != rawDiff && prevRaw != rawDiff
      && units != lower && units != upper && units != lastEstimate
      && lower != upper && lower != lastEstimate && upper != lastEstimate
    }

    ghost function EstimatorArrays(): set<object> {
      {phase as object} + {prevRaw as object, otherMetric, rawDiff} + {units as object, lower, upper, lastEstimate}
    }

    function SlotAt(id: nat): Slot
      requires Valid() && id <= numIDs
      reads EstimatorArrays()
    {
      Slot(phase[id], prevRaw[id], otherMetric[id], rawDiff[id], units[id], lower[id], upper[id], lastEstimate[id])
    }

    /** initAttrVals */
    constructor (h: TopBit, numIDs: nat)
      requires numIDs >= 1
      ensures Valid() && this.h == h && this.numIDs == numIDs
      ensures fresh(EstimatorArrays()) && fresh(supportedIDs) && fresh(idsToRead)
      ensures UpToZero(supportedIDs[..]) == UpToZero(idsToRead[..]) == []
      ensures forall id :: 0 <= id <= numIDs ==> SlotAt(id) == INITIAL_SLOT
    {
      this.h, this.numIDs := h, numIDs;
      supportedIDs := new nat[numIDs](_ => 0);
      idsToRead := new nat[numIDs](_ => 0);
      phase := new Phase[numIDs + 1](_ => GetMinUnit);
      prevRaw := new Word64[numIDs + 1](_ => TWO_TO_64 - 1);
      otherMetric := new Word64[numIDs + 1](_ => TWO_TO_64 - 1);
      rawDiff := new Word64[numIDs + 1](_ => 0);
      units := new int[numIDs + 1](_ => 0);
      lower := new int[numIDs + 1](_ => 0);
      upper := new int[numIDs + 1](_ => 0);
      lastEstimate := new int[numIDs + 1](_ => 0);
    }

    /** guessUnit: one reading of one attribute. */
    method GuessUnit(id: nat, raw: Word64, other: Word64)
      requires Valid() && id <= numIDs
      modifies EstimatorArrays()
      ensures SlotAt(id) == Step(h, old(SlotAt(id)), Reading(raw, other))
      ensures forall k :: 0 <= k <= numIDs && k != id ==> SlotAt(k) == old(SlotAt(k))
    {
      match phase[id] {
        case GetMinUnit =>
          if other < otherMetric[id] {
            otherMetric[id] := other;
            prevRaw[id] := raw;
          } else if raw > prevRaw[id] {
            phase[id] := GetUnitTillValInc;
            var unit := ToLong(h, Sub64(other, otherMetric[id]));
            lower[id] := unit;
            units[id] := unit;
            otherMetric[id] := other;
            prevRaw[id] := raw;
          } else {
            var unit := ToLong(h, Sub64(other, otherMetric[id]));
            units[id] := SetGreaterBit(h, unit);
          }
        case GetUnitTillValInc =>
          if raw > prevRaw[id] {
            phase[id] := GetUnit;
            var diff := Sub64(raw, prevRaw[id]);
            rawDiff[id] := diff;
            var unit := ToLong(h, Sub64(other, otherMetric[id]) / diff);
            lower[id] := unit;
            upper[id] := unit;
            units[id] := unit;
          } else {
            var unit := ToLong(h, Sub64(other, otherMetric[id]));
            if unit > lower[id] {
              lower[id] := unit;
            }
            units[id] := SetGreaterBit(h, unit);
          }
        case GetUnit =>
          if raw > prevRaw[id] {
            var diff := Sub64(raw, prevRaw[id]);
            if diff > rawDiff[id] {
              rawDiff[id] := diff;
              var unit := ToLong(h, Sub64(other, otherMetric[id]) / diff);
              if unit < lower[id] {
                lower[id] := unit;
              } else if unit > upper[id] {
                upper[id] := unit;
              }
              lastEstimate[id] := unit;
              units[id] := Midpoint(h, lower[id], upper[id]);
            }
          }
      }
    }

    /** setSupportedSMART_IDs: all IDs and a 0, or as many as the array holds. */
    method SetSupportedIDs(supported: seq<nat>)
      requires Valid()
      modifies supportedIDs
      ensures |supported| <= numIDs ==> supportedIDs[..] == Placed(old(supportedIDs[..]), supported)
      ensures |supported| > numIDs ==> supportedIDs[..] == supported[..numIDs]
      ensures 0 !in supported && |supported| <= numIDs ==> UpToZero(supportedIDs[..]) == supported
    {
      ghost var before := supportedIDs[..];
      var idx := 0;
      while idx < |supported| && idx < numIDs
        invariant 0 <= idx <= |supported| && idx <= numIDs
        invariant forall k :: 0 <= k < idx ==> supportedIDs[k] == supported[k]
        invariant forall k :: idx <= k < numIDs ==> supportedIDs[k] == before[k]
      {
        supportedIDs[idx] := supported[idx];
        idx := idx + 1;
      }
      if idx < numIDs {
        supportedIDs[idx] := 0;
      }
      if |supported| <= numIDs {
        PlacedBy(before, supported, supportedIDs[..]);
        if 0 !in supported {
          PlacedReadsBack(before, supported);
        }
      }
    }

    /** What SetSMART_IDsToRead demands of the requested IDs: ascending, ended by a 0 within the array size. */
    ghost predicate IsRequest(request: array<nat>)
      reads request
    {
      var ids := UpToZero(request[..]);
      Nondecreasing(ids) && |ids| < request.Length && |ids| < numIDs
    }

    /** SetSMART_IDsToRead. */
    method SetIDsToRead(supported: seq<nat>, request: array<nat>)
      requires Valid() && Ascending(supported) && IsRequest(request) && request != idsToRead
      modifies idsToRead
      ensures request[0] != 0 ==> |Intersection(supported, UpToZero(request[..]))| < numIDs
      ensures idsToRead[..] ==
              if request[0] != 0 then Placed(old(idsToRead[..]), Intersection(supported, UpToZero(request[..])))
              else if |supported| <= numIDs then Placed(old(idsToRead[..]), supported)
              else old(idsToRead[..])
      ensures 0 !in supported && request[0] != 0 ==>
                UpToZero(idsToRead[..]) == Intersection(supported, UpToZero(request[..]))
      ensures 0 !in supported && request[0] == 0 && |supported| <= numIDs ==> UpToZero(idsToRead[..]) == supported
    {
      ghost var before, ids := idsToRead[..], UpToZero(request[..]);
      if request[0] == 0 {
        if |supported| <= numIDs {
          CopyAllSupported(supported);
          if 0 !in supported {
            PlacedReadsBack(before, supported);
          }
        }
      } else {
        Intersect(supported, request);
        if 0 !in supported {
          IntersectionIsExact(supported, ids);
          PlacedReadsBack(before, Intersection(supported, ids));
        }
      }
    }

    method CopyAllSupported(supported: seq<nat>)
      requires Valid() && |supported| <= numIDs
      modifies idsToRead
      ensures idsToRead[..] == Placed(old(idsToRead[..]), supported)
    {
      ghost var before := idsToRead[..];
      var idx := 0;
      while idx < |supported|
        invariant 0 <= idx <= |supported|
        invariant forall k :: 0 <= k < idx ==> idsToRead[k] == supported[k]
        invariant forall k :: idx <= k < numIDs ==> idsToRead[k] == before[k]
      {
        idsToRead[idx] := supported[idx];
        idx := idx + 1;
      }
      if |supported| < numIDs {
        idsToRead[idx] := 0;
      }
      PlacedBy(before, supported, idsToRead[..]);
    }

    /** The request array starts with ids and a 0. */
    ghost predicate Lists(request: array<nat>, ids: seq<nat>)
      reads request
    {
      && Nondecreasing(ids) && |ids| < request.Length && |ids| < numIDs
      && (forall j :: 0 <= j < |ids| ==> request[j] == ids[j] && ids[j] != 0)
      && request[|ids|] == 0
    }

    /** The inner loop of SetSMART_IDsToRead: skips requested IDs below supportedID. */
    method SkipBelow(request: array<nat>, ghost ids: seq<nat>, requestIdx: nat, supportedID: nat)
      returns (idx: nat, found: bool, ended: bool)
      requires Lists(request, ids)
      requires requestIdx <= |ids| && AllBelow(ids, requestIdx, supportedID)
      ensures requestIdx <= idx <= |ids| && AllBelow(ids, idx, supportedID)
      ensures found <==> supportedID in ids
      ensures found ==> idx < |ids| && ids[idx] == supportedID
      ensures ended <==> idx == |ids|
    {
      idx := requestIdx;
      found, ended := false, false;
      var again := true;
      while again
        invariant requestIdx <= idx <= |ids| && !found && !ended
        invariant forall j :: 0 <= j < idx ==> ids[j] < supportedID
        invariant !again ==> idx < |ids| && supportedID < ids[idx]
        decreases again, |ids| - idx
      {
        var requestedID := request[idx];
        if requestedID == 0 {
          ended := true;
          return;
        }
        if requestedID == supportedID {
          found := true;
          return;
        } else if requestedID < supportedID {
          idx := idx + 1;
        }
        again := idx < numIDs && requestedID < supportedID;
      }
    }

    /** The outer loop of SetSMART_IDsToRead: writes the common IDs to the front of the array. */
    method WriteCommon(supported: seq<nat>, request: array<nat>, ghost ids: seq<nat>)
      returns (requestIdx: nat, resultIdx: nat)
      requires Valid() && Ascending(supported) && Lists(request, ids) && request != idsToRead
      modifies idsToRead
      ensures resultIdx == |Intersection(supported, ids)| <= requestIdx < numIDs
      ensures forall k :: 0 <= k < resultIdx ==> idsToRead[k] == Intersection(supported, ids)[k]
      ensures forall k :: resultIdx <= k < numIDs ==> idsToRead[k] == old(idsToRead[k])
    {
      hide Ascending, Nondecreasing, Intersection, FirstCommon, AllBelow;
      requestIdx, resultIdx := 0, 0;
      var it := 0;
      NothingYet(supported, ids);
      while it < |supported|
        invariant 0 <= it <= |supported| && 0 <= resultIdx <= requestIdx <= |ids|
        invariant |FirstCommon(supported, ids, it)| == resultIdx
        invariant forall k :: 0 <= k < resultIdx ==> idsToRead[k] == FirstCommon(supported, ids, it)[k]
        invariant forall k :: resultIdx <= k < numIDs ==> idsToRead[k] == old(idsToRead[k])
        invariant it < |supported| ==> AllBelow(ids, requestIdx, supported[it])
      {
        var found, ended;
        requestIdx, found, ended := SkipBelow(request, ids, requestIdx, supported[it]);
        if ended {
          // Last entry reached: the source moves its iterator on to the end.
          Exhausted(supported, ids, it);
          return;
        }
        TakeNext(supported, ids, it);
        if found {
          requestIdx := requestIdx + 1;
          idsToRead[resultIdx] := supported[it];
          resultIdx := resultIdx + 1;
        }
        NextIsHigher(supported, ids, requestIdx, it);
        it := it + 1;
      }
      AllTaken(supported, ids);
    }

    /** What the first supported IDs have in common with the requested ones. */
    static function FirstCommon(supported: seq<nat>, ids: seq<nat>, it: nat): seq<nat>
      requires it <= |supported|
    {
      Intersection(supported[..it], ids)
    }

    static predicate AllBelow(ids: seq<nat>, n: nat, x: nat)
      requires n <= |ids|
    {
      forall j :: 0 <= j < n ==> ids[j] < x
    }

    /** The part of SetSMART_IDsToRead for a non-empty request. */
    method Intersect(supported: seq<nat>, request: array<nat>)
      requires Valid() && Ascending(supported) && IsRequest(request) && request != idsToRead
      modifies idsToRead
      ensures |Intersection(supported, UpToZero(request[..]))| < numIDs
      ensures idsToRead[..] == Placed(old(idsToRead[..]), Intersection(supported, UpToZero(request[..])))
    {
      ghost var ids, before := UpToZero(request[..]), idsToRead[..];
      assert forall j :: 0 <= j < |ids| ==> ids[j] in ids;
      var requestIdx, resultIdx := WriteCommon(supported, request, ids);
      if requestIdx < numIDs {
        idsToRead[resultIdx] := 0;
      }
      PlacedBy(before, Intersection(supported, ids), idsToRead[..]);
    }

    static lemma NothingYet(supported: seq<nat>, ids: seq<nat>)
      ensures FirstCommon(supported, ids, 0) == []
      ensures supported != [] ==> AllBelow(ids, 0, supported[0])
    {
    }

    static lemma AllTaken(supported: seq<nat>, ids: seq<nat>)
      ensures FirstCommon(supported, ids, |supported|) == Intersection(supported, ids)
    {
      assert supported[..|supported|] == supported;
    }

    /** Requested IDs that all lie below supported[it] have nothing in common with the rest. */
    static lemma Exhausted(supported: seq<nat>, ids: seq<nat>, it: nat)
      requires Ascending(supported) && it < |supported| && AllBelow(ids, |ids|, supported[it])
      ensures Intersection(supported, ids) == FirstCommon(supported, ids, it)
    {
      forall k | it <= k < |supported| ensures supported[k] !in ids {
        assert supported[it] <= supported[k];
      }
      IntersectionStops(supported, ids, it);
    }

    /** The next supported ID is higher than all requested ones up to and including the current one. */
    static lemma NextIsHigher(supported: seq<nat>, ids: seq<nat>, n: nat, it: nat)
      requires Ascending(supported) && it < |supported| && n <= |ids|
      requires || AllBelow(ids, n, supported[it])
               || (n > 0 && AllBelow(ids, n - 1, supported[it]) && ids[n - 1] == supported[it])
      ensures it + 1 < |supported| ==> AllBelow(ids, n, supported[it + 1])
    {
      assert it + 1 < |supported| ==> supported[it] < supported[it + 1];
    }

    static lemma TakeNext(supported: seq<nat>, ids: seq<nat>, it: nat)
      requires it < |supported|
      ensures FirstCommon(supported, ids, it + 1) ==
              FirstCommon(supported, ids, it) + if supported[it] in ids then [supported[it]] else []
    {
      assert supported[..it + 1][..it] == supported[..it];
    }

    /** copyArr: copies up to and including the first 0. */
    method CopyArr(orig: array<nat>, cpy: array<nat>)
      requires orig.Length == cpy.Length == numIDs && orig != cpy
      modifies cpy
      ensures UpToZero(cpy[..]) == UpToZero(orig[..])
      ensures cpy[..] == Placed(old(cpy[..]), UpToZero(orig[..]))
    {
      ghost var ids := UpToZero(orig[..]);
      ghost var before := cpy[..];
      var idx := 0;
      while idx < numIDs
        invariant 0 <= idx <= |ids|
        invariant forall k :: 0 <= k < idx ==> cpy[k] == ids[k]
        invariant forall k :: idx <= k < numIDs ==> cpy[k] == before[k]
      {
        assert idx < |ids| ==> ids[idx] in ids && orig[idx] == ids[idx];
        cpy[idx] := orig[idx];
        if orig[idx] == 0 {
          break;
        }
        idx := idx + 1;
      }
      PlacedBy(before, ids, cpy[..]);
      PlacedReadsBack(before, ids);
    }
  }
}
