/** The unit estimator's slot by what was read, for any readings at all: also when the metric or the raw value
    goes back. Main results, which together give the slot after every run up to the first estimate:
    BeforeFirstIncrease, FirstIncrease, BetweenIncreases and SecondIncrease; RunKeepsExtremes of UnitEstimator
    goes on from there. */
module EstimatorHistory {
  import opened MachineWords
  import opened Options
  import opened UnitEstimator

  const NOT_SET: Word64 := TWO_TO_64 - 1

  /** The first of the readings with the lowest metric, if that is below the value that means "not set". */
  function Lowest(xs: seq<Reading>): (m: Option<nat>)
    ensures m == None ==> forall i :: 0 <= i < |xs| ==> xs[i].other == NOT_SET
    ensures m.Some? ==> m.value < |xs| && xs[m.value].other < NOT_SET
    ensures m.Some? ==> forall i :: 0 <= i < m.value ==> xs[i].other > xs[m.value].other
    ensures m.Some? ==> forall i :: m.value <= i < |xs| ==> xs[i].other >= xs[m.value].other
  {
    if xs == [] then None
    else
      var last := |xs| - 1;
      match Lowest(xs[..last])
      case None => if xs[last].other < NOT_SET then Some(last) else None
      case Some(m) => if xs[last].other < xs[m].other then Some(last) else Some(m)
  }

  /** The metric and the raw value counted from. */
  function LowestMetric(xs: seq<Reading>): Word64 {
    match Lowest(xs) case None => NOT_SET case Some(m) => xs[m].other
  }

  function RawAtLowest(xs: seq<Reading>): Word64 {
    match Lowest(xs) case None => NOT_SET case Some(m) => xs[m].raw
  }

  /** The raw value of reading i has increased since the reading counted from. */
  predicate Increased(xs: seq<Reading>, i: nat)
    requires i < |xs|
  {
    xs[i].other >= LowestMetric(xs[..i]) && xs[i].raw > RawAtLowest(xs[..i])
  }

  predicate Quiet(xs: seq<Reading>) {
    forall i :: 0 <= i < |xs| ==> !Increased(xs, i)
  }

  /** How far the last reading that set no new lowest metric lies above the lowest before it. */
  function Elapsed(xs: seq<Reading>): Option<Word64> {
    if xs == [] then None
    else
      var before, x := xs[..|xs| - 1], xs[|xs| - 1];
      if x.other < LowestMetric(before) then Elapsed(before) else Some(x.other - LowestMetric(before))
  }

  lemma QuietBefore(xs: seq<Reading>)
    requires xs != []
    ensures Quiet(xs) <==> Quiet(xs[..|xs| - 1]) && !Increased(xs, |xs| - 1)
  {
    var before := xs[..|xs| - 1];
    forall i | 0 <= i < |before| ensures Increased(before, i) <==> Increased(xs, i) {
      assert before[..i] == xs[..i];
    }
  }

  lemma LowestOfMore(xs: seq<Reading>)
    requires xs != []
    ensures
      var before, x := xs[..|xs| - 1], xs[|xs| - 1];
      && LowestMetric(xs) == (if x.other < LowestMetric(before) then x.other else LowestMetric(before))
      && RawAtLowest(xs) == (if x.other < LowestMetric(before) then x.raw else RawAtLowest(before))
  {
  }

  /** While no raw value has increased: the anchor is the first reading with the lowest metric, and the unit is
      marked and at least what elapsed since; there are no bounds. */
  lemma {:induction false} BeforeFirstIncrease(h: TopBit, xs: seq<Reading>)
    requires Quiet(xs)
    ensures Run(h, INITIAL_SLOT, xs) ==
            Slot(GetMinUnit, RawAtLowest(xs), LowestMetric(xs), 0,
                 match Elapsed(xs) case None => 0 case Some(d) => SetGreaterBit(h, ToLong(h, d)), 0, 0, 0)
  {
    if xs != [] {
      hide ToLong, SetGreaterBit, LowestMetric, RawAtLowest;
      QuietBefore(xs);
      LowestOfMore(xs);
      BeforeFirstIncrease(h, xs[..|xs| - 1]);
    } else {
      assert Lowest(xs) == None;
    }
  }

  /** The first increase: what elapsed since the anchor is taken for unit and lower bound, unmarked, and the
      reading is the new anchor. */
  lemma FirstIncrease(h: TopBit, xs: seq<Reading>, x: Reading)
    requires Quiet(xs) && Increased(xs + [x], |xs|)
    ensures x.other >= LowestMetric(xs)
    ensures
      var unit := ToLong(h, x.other - LowestMetric(xs));
      Run(h, INITIAL_SLOT, xs + [x]) == Slot(GetUnitTillValInc, x.raw, x.other, 0, unit, unit, 0, 0)
  {
    hide ToLong, SetGreaterBit, LowestMetric, RawAtLowest;
    assert (xs + [x])[..|xs|] == xs;
    BeforeFirstIncrease(h, xs);
  }

  ghost predicate IsGreatest(v: int, vs: seq<int>) {
    v in vs && forall w :: w in vs ==> w <= v
  }

  /** What elapsed up to the first increase, and from there to each of the readings. */
  function Stretches(h: TopBit, first: int, anchor: Reading, ys: seq<Reading>): (r: seq<int>)
    ensures |r| == |ys| + 1 && r[0] == first
    ensures forall i :: 0 <= i < |ys| ==> r[i + 1] == ToLong(h, Sub64(ys[i].other, anchor.other))
  {
    if ys == [] then [first]
    else
      Stretches(h, first, anchor, ys[..|ys| - 1]) + [ToLong(h, Sub64(ys[|ys| - 1].other, anchor.other))]
  }

  lemma GreatestOfMore(v: int, vs: seq<int>, w: int)
    requires IsGreatest(v, vs)
    ensures IsGreatest(if w > v then w else v, vs + [w])
  {
  }

  lemma OneMoreReading(h: TopBit, xs: seq<Reading>, ys: seq<Reading>)
    requires ys != []
    ensures Run(h, INITIAL_SLOT, xs + ys) == Step(h, Run(h, INITIAL_SLOT, xs + ys[..|ys| - 1]), ys[|ys| - 1])
  {
    hide UnitEstimator.Step;
    assert (xs + ys)[..|xs + ys| - 1] == xs + ys[..|ys| - 1];
  }

  /** From the first increase, at reading x, to the second: x stays the anchor, the unit is marked and what
      elapsed last, the lower bound is the most that ever elapsed, and there is no upper bound. */
  lemma {:induction false} BetweenIncreases(h: TopBit, xs: seq<Reading>, x: Reading, ys: seq<Reading>)
    requires Quiet(xs) && Increased(xs + [x], |xs|) && ys != []
    requires forall i :: 0 <= i < |ys| ==> ys[i].raw <= x.raw
    ensures x.other >= LowestMetric(xs)
    ensures
      var sl := Run(h, INITIAL_SLOT, xs + [x] + ys);
      && sl == Slot(GetUnitTillValInc, x.raw, x.other, 0,
                    SetGreaterBit(h, ToLong(h, Sub64(ys[|ys| - 1].other, x.other))), sl.lower, 0, 0)
      && IsGreatest(sl.lower, Stretches(h, ToLong(h, x.other - LowestMetric(xs)), x, ys))
  {
    hide ToLong, SetGreaterBit, LowestMetric, RawAtLowest, Increased, Quiet, Run, IsGreatest;
    var before, y := ys[..|ys| - 1], ys[|ys| - 1];
    OneMoreReading(h, xs + [x], ys);
    FirstIncrease(h, xs, x);
    var u := ToLong(h, x.other - LowestMetric(xs));
    if before == [] {
      assert xs + [x] + before == xs + [x];
      GreatestOfOne(u);
      GreatestOfMore(u, [u], ToLong(h, Sub64(y.other, x.other)));
    } else {
      BetweenIncreases(h, xs, x, before);
      GreatestOfMore(Run(h, INITIAL_SLOT, xs + [x] + before).lower, Stretches(h, u, x, before),
                     ToLong(h, Sub64(y.other, x.other)));
    }
  }

  lemma GreatestOfOne(v: int)
    ensures IsGreatest(v, [v])
  {
  }

  /** The second increase: the metric since the first one, divided by the raw difference, is unit and bounds. */
  lemma SecondIncrease(h: TopBit, xs: seq<Reading>, x: Reading, ys: seq<Reading>, z: Reading)
    requires Quiet(xs) && Increased(xs + [x], |xs|)
    requires (forall i :: 0 <= i < |ys| ==> ys[i].raw <= x.raw) && z.raw > x.raw
    ensures
      var unit := ToLong(h, Sub64(z.other, x.other) / (z.raw - x.raw));
      Run(h, INITIAL_SLOT, xs + [x] + ys + [z]) ==
      Slot(GetUnit, x.raw, x.other, z.raw - x.raw, unit, unit, unit, 0)
  {
    hide ToLong, SetGreaterBit, LowestMetric, RawAtLowest;
    var before := xs + [x] + ys;
    assert (before + [z])[..|before|] == before;
    if ys == [] {
      assert before == xs + [x];
      FirstIncrease(h, xs, x);
    } else {
      BetweenIncreases(h, xs, x, ys);
    }
  }
}
