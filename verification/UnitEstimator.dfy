/** One attribute's slot of the unit estimator, and what one reading does to it.
    Main results: over every run of readings whatsoever the state never goes back, the anchor is frozen from
    the first increase on, and the two bounds are the minimum and the maximum of all accepted estimates. */
module UnitEstimator {
  import opened MachineWords

  datatype Phase = GetMinUnit | GetUnitTillValInc | GetUnit {
    function Rank(): nat {
      match this case GetMinUnit => 0 case GetUnitTillValInc => 1 case GetUnit => 2
    }
  }

  /** The elements at one attribute ID of the per-ID arrays. */
  datatype Slot = Slot(
    phase: Phase,
    prevRaw: Word64,       // m_prevSMARTrawVals
    otherMetric: Word64,   // m_otherMetricVal
    rawDiff: Word64,       // m_SMARTrawValDiffs
    units: int,
    lower: int,            // lowerUnitBound
    upper: int,            // upperUnitBound
    lastEstimate: int)     // otherMtrcValAtLastSMARTrawValInc

  /** What initAttrVals leaves in every slot. */
  const INITIAL_SLOT: Slot := Slot(GetMinUnit, TWO_TO_64 - 1, TWO_TO_64 - 1, 0, 0, 0, 0, 0)

  datatype Reading = Reading(raw: Word64, other: Word64)

  function Step(h: TopBit, s: Slot, x: Reading): Slot {
    match s.phase
    case GetMinUnit => StepMinUnit(h, s, x)
    case GetUnitTillValInc => StepTillValInc(h, s, x)
    case GetUnit => StepUnit(h, s, x)
  }

  function StepMinUnit(h: TopBit, s: Slot, x: Reading): Slot {
    var unit := ToLong(h, Sub64(x.other, s.otherMetric));
    if x.other < s.otherMetric then
      s.(otherMetric := x.other, prevRaw := x.raw)
    else if x.raw > s.prevRaw then
      s.(phase := GetUnitTillValInc, lower := unit, units := unit, otherMetric := x.other, prevRaw := x.raw)
    else
      s.(units := SetGreaterBit(h, unit))
  }

  function StepTillValInc(h: TopBit, s: Slot, x: Reading): Slot {
    if x.raw > s.prevRaw then
      var diff := Sub64(x.raw, s.prevRaw);
      var unit := ToLong(h, Sub64(x.other, s.otherMetric) / diff);
      s.(phase := GetUnit, rawDiff := diff, lower := unit, upper := unit, units := unit)
    else
      var unit := ToLong(h, Sub64(x.other, s.otherMetric));
      s.(lower := if unit > s.lower then unit else s.lower, units := SetGreaterBit(h, unit))
  }

  function StepUnit(h: TopBit, s: Slot, x: Reading): Slot {
    if x.raw > s.prevRaw && Sub64(x.raw, s.prevRaw) > s.rawDiff then
      var diff := Sub64(x.raw, s.prevRaw);
      var unit := ToLong(h, Sub64(x.other, s.otherMetric) / diff);
      var lower := if unit < s.lower then unit else s.lower;
      var upper := if unit >= s.lower && unit > s.upper then unit else s.upper;
      s.(rawDiff := diff, lower := lower, upper := upper, lastEstimate := unit, units := Midpoint(h, lower, upper))
    else
      s
  }

  /** lower + (upper - lower) / 2 in long arithmetic. */
  function Midpoint(h: TopBit, lower: int, upper: int): int {
    ToLong(h, lower + HalfTowardZero(ToLong(h, upper - lower)))
  }

  function Run(h: TopBit, s: Slot, xs: seq<Reading>): Slot {
    if xs == [] then s else Step(h, Run(h, s, xs[..|xs| - 1]), xs[|xs| - 1])
  }

  // ---- Every run: phases and anchor ----

  /** One reading never moves the state back, and once a raw value increased it leaves the anchor alone. */
  lemma StepKeepsAnchor(h: TopBit, s: Slot, x: Reading)
    ensures s.phase.Rank() <= Step(h, s, x).phase.Rank() <= s.phase.Rank() + 1
    ensures s.phase != GetMinUnit ==> Step(h, s, x).prevRaw == s.prevRaw && Step(h, s, x).otherMetric == s.otherMetric
    ensures s.phase == GetUnit ==> Step(h, s, x).lower <= s.lower
    ensures s.phase == GetUnit && s.lower <= s.upper ==> s.upper <= Step(h, s, x).upper
  {
  }

  /** The same over any number of further readings: the state never goes back, the anchor pair is frozen
      from the first increase on, and in getUnit the interval only widens. */
  lemma {:induction false} RunNeverGoesBack(h: TopBit, s: Slot, xs: seq<Reading>, i: nat, j: nat)
    requires i <= j <= |xs|
    ensures Run(h, s, xs[..i]).phase.Rank() <= Run(h, s, xs[..j]).phase.Rank()
    ensures Run(h, s, xs[..i]).phase != GetMinUnit ==>
              && Run(h, s, xs[..j]).prevRaw == Run(h, s, xs[..i]).prevRaw
              && Run(h, s, xs[..j]).otherMetric == Run(h, s, xs[..i]).otherMetric
    ensures Run(h, s, xs[..i]).phase == GetUnit && Run(h, s, xs[..i]).lower <= Run(h, s, xs[..i]).upper ==>
              && Run(h, s, xs[..j]).lower <= Run(h, s, xs[..i]).lower
              && Run(h, s, xs[..i]).upper <= Run(h, s, xs[..j]).upper
    decreases j
  {
    if i < j {
      RunNeverGoesBack(h, s, xs, i, j - 1);
      assert xs[..j][..j - 1] == xs[..j - 1];
      StepKeepsAnchor(h, Run(h, s, xs[..j - 1]), xs[j - 1]);
    }
  }

  // ---- Every run: the bounds are the extremes of the accepted estimates ----

  /** An accepted estimate: the raw value's distance from the anchor and the unit calculated from it. */
  datatype Estimate = Estimate(diff: int, unit: int)

  /** A reading is accepted when the raw value lies farther above the anchor than any accepted before. */
  predicate Accepts(s: Slot, x: Reading) {
    && s.phase != GetMinUnit
    && x.raw > s.prevRaw
    && (s.phase == GetUnit ==> x.raw - s.prevRaw > s.rawDiff)
  }

  function EstimateOf(h: TopBit, s: Slot, x: Reading): Estimate
    requires Accepts(s, x)
  {
    Estimate(x.raw - s.prevRaw, ToLong(h, Sub64(x.other, s.otherMetric) / (x.raw - s.prevRaw)))
  }

  function AcceptedEstimates(h: TopBit, s: Slot, xs: seq<Reading>): seq<Estimate> {
    if xs == [] then []
    else
      var before, x := xs[..|xs| - 1], xs[|xs| - 1];
      AcceptedEstimates(h, s, before)
      + if Accepts(Run(h, s, before), x) then [EstimateOf(h, Run(h, s, before), x)] else []
  }

  ghost predicate IsLeastUnit(es: seq<Estimate>, v: int) {
    (exists i :: 0 <= i < |es| && es[i].unit == v) && forall i :: 0 <= i < |es| ==> v <= es[i].unit
  }

  ghost predicate IsGreatestUnit(es: seq<Estimate>, v: int) {
    (exists i :: 0 <= i < |es| && es[i].unit == v) && forall i :: 0 <= i < |es| ==> es[i].unit <= v
  }

  ghost predicate BoundsAreExtremes(h: TopBit, s: Slot, es: seq<Estimate>) {
    && (s.phase == GetUnit <==> es != [])
    && (forall i, j :: 0 <= i < j < |es| ==> es[i].diff < es[j].diff)
    && (es != [] ==>
          && s.rawDiff == es[|es| - 1].diff
          && IsLeastUnit(es, s.lower)
          && IsGreatestUnit(es, s.upper)
          && IsLong(h, s.lower) && IsLong(h, s.upper)
          && s.units == Midpoint(h, s.lower, s.upper))
    // The first accepted estimate is not recorded as the last one.
    && s.lastEstimate == if |es| >= 2 then es[|es| - 1].unit else 0
  }

  lemma ExtremesOfAppended(es: seq<Estimate>, e: Estimate, lower: int, upper: int)
    requires es != [] ==> IsLeastUnit(es, lower) && IsGreatestUnit(es, upper)
    ensures IsLeastUnit(es + [e], if es == [] || e.unit < lower then e.unit else lower)
    ensures IsGreatestUnit(es + [e], if es == [] || e.unit > upper then e.unit else upper)
    ensures es != [] ==> lower <= upper
  {
    var es' := es + [e];
    assert es'[|es|] == e;
    if es != [] {
      var k :| 0 <= k < |es| && es[k].unit == lower;
      var l :| 0 <= l < |es| && es[l].unit == upper;
      assert es'[k].unit == lower && es'[l].unit == upper;
    }
  }

  /** s' is the slot after accepting estimate e in slot s. */
  ghost predicate AcceptedInto(h: TopBit, s: Slot, e: Estimate, s': Slot) {
    && s'.phase == GetUnit && s'.rawDiff == e.diff && IsLong(h, e.unit)
    && s'.lower == (if s.phase != GetUnit || e.unit < s.lower then e.unit else s.lower)
    && s'.upper == (if s.phase != GetUnit || e.unit > s.upper then e.unit else s.upper)
    && s'.units == Midpoint(h, s'.lower, s'.upper)
    && s'.lastEstimate == (if s.phase == GetUnit then e.unit else s.lastEstimate)
  }

  lemma ExtremesExtend(h: TopBit, s: Slot, es: seq<Estimate>, e: Estimate, s': Slot)
    requires BoundsAreExtremes(h, s, es) && AcceptedInto(h, s, e, s')
    requires s.phase == GetUnit ==> e.diff > s.rawDiff
    ensures BoundsAreExtremes(h, s', es + [e])
  {
    hide Midpoint, IsLeastUnit, IsGreatestUnit;
    ExtremesOfAppended(es, e, s.lower, s.upper);
    forall i, j | 0 <= i < j < |es + [e]| ensures (es + [e])[i].diff < (es + [e])[j].diff {
      if j == |es| && i < |es| - 1 {
        assert es[i].diff < es[|es| - 1].diff;
      }
    }
  }

  lemma StepKeepsExtremes(h: TopBit, s: Slot, es: seq<Estimate>, x: Reading)
    requires BoundsAreExtremes(h, s, es)
    ensures BoundsAreExtremes(h, Step(h, s, x), es + if Accepts(s, x) then [EstimateOf(h, s, x)] else [])
  {
    if Accepts(s, x) {
      if es != [] {
        ExtremesOfAppended(es, es[0], s.lower, s.upper);
      }
      AcceptedStep(h, s, x);
      ExtremesExtend(h, s, es, EstimateOf(h, s, x), Step(h, s, x));
    } else {
      RejectedStep(h, s, x);
      assert es + [] == es;
    }
  }

  /** A reading that is not accepted changes nothing in state getUnit and does not enter it. */
  lemma RejectedStep(h: TopBit, s: Slot, x: Reading)
    requires !Accepts(s, x)
    ensures s.phase == GetUnit ==> Step(h, s, x) == s
    ensures s.phase != GetUnit ==> Step(h, s, x).phase != GetUnit && Step(h, s, x).lastEstimate == s.lastEstimate
  {
    if s.phase == GetUnit && x.raw > s.prevRaw {
      assert Sub64(x.raw, s.prevRaw) == x.raw - s.prevRaw;
    }
  }

  lemma MidpointOfOne(h: TopBit, v: int)
    requires IsLong(h, v)
    ensures Midpoint(h, v, v) == v
  {
    ToLongNear(h, 0);
    ToLongNear(h, v);
  }

  /** What an accepted reading leaves in the slot. */
  lemma AcceptedStep(h: TopBit, s: Slot, x: Reading)
    requires Accepts(s, x)
    requires s.phase == GetUnit ==> s.lower <= s.upper && IsLong(h, s.lower) && IsLong(h, s.upper)
    ensures AcceptedInto(h, s, EstimateOf(h, s, x), Step(h, s, x))
  {
    var e := EstimateOf(h, s, x);
    ToLongIsLong(h, Sub64(x.other, s.otherMetric) / e.diff);
    MidpointOfOne(h, e.unit);
  }

  /** Refinement to the simple specification: after any run, an estimate has been accepted exactly in state
      getUnit, the raw differences of the accepted estimates strictly rise, the bounds are their exact minimum
      and maximum, the reported unit is the long-arithmetic midpoint of these, and from the second one on the
      last estimate is kept. */
  lemma {:induction false} RunKeepsExtremes(h: TopBit, xs: seq<Reading>)
    ensures BoundsAreExtremes(h, Run(h, INITIAL_SLOT, xs), AcceptedEstimates(h, INITIAL_SLOT, xs))
  {
    if xs != [] {
      var before := xs[..|xs| - 1];
      RunKeepsExtremes(h, before);
      StepKeepsExtremes(h, Run(h, INITIAL_SLOT, before), AcceptedEstimates(h, INITIAL_SLOT, before), xs[|xs| - 1]);
    }
  }

  /** Bounds whose distance fits a long: the midpoint is exact and lies between them. */
  lemma MidpointInRange(h: TopBit, lower: int, upper: int)
    requires IsLong(h, lower) && IsLong(h, upper) && 0 <= upper - lower < h
    ensures Midpoint(h, lower, upper) == (lower + upper) / 2
    ensures lower <= Midpoint(h, lower, upper) <= upper
  {
    hide ToLong;
    var d := upper - lower;
    ToLongNear(h, d);
    assert lower + d / 2 == (lower + upper) / 2;
    ToLongNear(h, lower + d / 2);
  }

  /** Bounds further apart: the distance wraps around, and the midpoint comes out half the range away, on the
      other side. */
  lemma MidpointWraps(h: TopBit, lower: int, upper: int)
    requires IsLong(h, lower) && IsLong(h, upper) && upper - lower >= h
    ensures
      var m := lower - (2 * h - (upper - lower)) / 2;
      && (lower + upper) / 2 - h <= m <= (lower + upper) / 2 - h + 1
      && Midpoint(h, lower, upper) == if m + h < 0 then m + 2 * h else m
  {
    hide ToLong;
    var d := upper - lower;
    ToLongNear(h, d);
    ToLongNear(h, lower - (2 * h - d) / 2);
  }

  /** The overflow-avoiding midpoint is the mathematical one exactly when the distance of the bounds fits a
      long; then it lies between them. For nonnegative bounds it always fits. */
  lemma MidpointIsExact(h: TopBit, lower: int, upper: int)
    requires IsLong(h, lower) && IsLong(h, upper) && lower <= upper
    ensures Midpoint(h, lower, upper) == (lower + upper) / 2 <==> upper - lower < h
    ensures upper - lower < h ==> lower <= Midpoint(h, lower, upper) <= upper
    ensures lower >= 0 ==> upper - lower < h
  {
    hide Midpoint;
    if upper - lower < h {
      MidpointInRange(h, lower, upper);
    } else {
      MidpointWraps(h, lower, upper);
    }
  }
}
