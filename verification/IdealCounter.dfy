/** The unit estimator fed by a hidden ideal counter: raw = (c + metric) / U, metric nondecreasing with gaps of
    at most s between readings. Main results, over every such run from the initial slot:
    AccuracyExactly - when the reported unit and both bounds are guaranteed to lie strictly within
                      min(s, U) of U, and EstimateError - how the error shrinks with the raw difference;
    MarkerExactly   - when a unit marked "greater than" is guaranteed to be below U. */
module IdealCounter {
  import opened MachineWords
  import opened UnitEstimator

  /** The readings come from a hidden ideal counter: the attribute ticks once per U of the metric, from an
      unknown offset c on, and between two readings the metric grows by at most s. */
  ghost predicate FromCounter(U: int, c: int, s: int, xs: seq<Reading>)
    requires U >= 1
  {
    && c >= 0
    && (forall i :: 0 <= i < |xs| ==> xs[i].raw == (c + xs[i].other) / U)
    && (forall i :: 0 <= i < |xs| - 1 ==> xs[i].other <= xs[i + 1].other <= xs[i].other + s)
  }

  /** The same without division. */
  ghost predicate OnCounter(U: int, c: int, s: int, xs: seq<Reading>) {
    && c >= 0
    && (forall i :: 0 <= i < |xs| ==> Shows(U, c + xs[i].other, xs[i].raw))
    && (forall i :: 0 <= i < |xs| - 1 ==> xs[i].other <= xs[i + 1].other <= xs[i].other + s)
  }

  lemma OnCounterIsFromCounter(U: int, c: int, s: int, xs: seq<Reading>)
    requires U >= 1
    ensures FromCounter(U, c, s, xs) <==> OnCounter(U, c, s, xs)
  {
    if c >= 0 {
      forall i | 0 <= i < |xs|
        ensures xs[i].raw == (c + xs[i].other) / U <==> Shows(U, c + xs[i].other, xs[i].raw)
      {
        QuotientShows(U, c + xs[i].other, xs[i].raw);
      }
    }
  }

  /** The position of the hidden counter from which on it shows r; see StartIsProduct. */
  ghost function Start(U: int, r: nat): int {
    if r == 0 then 0 else Start(U, r - 1) + U
  }

  /** The counter shows r at position p: p lies in the r-th stretch of length U. */
  ghost predicate Shows(U: int, p: int, r: nat) {
    Start(U, r) <= p < Start(U, r) + U
  }

  lemma {:induction false} StartIsProduct(U: int, r: nat)
    ensures Start(U, r) == r * U
  {
    if r > 0 {
      StartIsProduct(U, r - 1);
      assert (r - 1) * U + U == r * U;
    }
  }

  /** Counting starts anew from any r. */
  lemma {:induction false} StartAdds(U: int, r: nat, k: nat)
    requires U >= 1
    ensures Start(U, r + k) == Start(U, r) + Start(U, k)
    ensures k >= 1 ==> Start(U, k) >= U
  {
    if k > 0 {
      StartAdds(U, r, k - 1);
    }
  }

  lemma QuotientShows(U: int, p: int, r: nat)
    requires U >= 1 && p >= 0
    ensures r == p / U <==> Shows(U, p, r)
  {
    var q := p / U;
    StartIsProduct(U, q);
    if Shows(U, p, r) {
      StretchOrder(U, p, r, p, q);
      StretchOrder(U, p, q, p, r);
    }
  }

  lemma StretchOrder(U: int, p: int, r: nat, p': int, r': nat)
    requires U >= 1 && p <= p' && Shows(U, p, r) && Shows(U, p', r')
    ensures r <= r'
    ensures r < r' ==> Start(U, r) + U <= Start(U, r')
  {
    if r > r' {
      StartAdds(U, r', r - r');
    } else {
      StartAdds(U, r, r' - r);
    }
  }

  lemma MulOrder(a: int, b: int, m: int)
    requires a <= b && m >= 0
    ensures a * m <= b * m
  {
  }

  // ---- What holds after every ideal run ----

  ghost predicate Tracks(h: TopBit, U: int, c: int, s: int, xs: seq<Reading>, sl: Slot)
    requires U >= 1 && xs != []
  {
    var first, last := xs[0], xs[|xs| - 1];
    && c >= 0
    && Shows(U, c + last.other, last.raw)
    && first.other <= last.other
    && match sl.phase
       case GetMinUnit =>
         sl.upper == 0 &&
         if first.other == TWO_TO_64 - 1 then
           sl.otherMetric == TWO_TO_64 - 1 && sl.prevRaw == TWO_TO_64 - 1 && sl.units == SetGreaterBit(h, ToLong(h, 0))
         else
           && sl.otherMetric == first.other && sl.prevRaw == first.raw == last.raw
           && Shows(U, c + first.other, first.raw)
           && sl.units == (if |xs| == 1 then 0 else SetGreaterBit(h, ToLong(h, last.other - first.other)))
       case GetUnitTillValInc =>
         && AnchorAtIncrease(U, c, s, first, last, sl)
         && last.raw == sl.prevRaw && sl.upper == 0
         && (U - 1 + s < h ==> sl.lower == Max(sl.otherMetric - first.other, last.other - sl.otherMetric))
         && (|| (sl.units == ToLong(h, last.other - first.other) && last.other == sl.otherMetric)
             || sl.units == SetGreaterBit(h, ToLong(h, last.other - sl.otherMetric)))
       case GetUnit =>
         && AnchorAtIncrease(U, c, s, first, last, sl)
         && last.raw - sl.prevRaw == sl.rawDiff >= 1
  }

  /** The anchor was taken right after an increase of the raw value, less than min(s, U) past it. */
  ghost predicate AnchorAtIncrease(U: int, c: int, s: int, first: Reading, last: Reading, sl: Slot) {
    && 0 <= c + sl.otherMetric - Start(U, sl.prevRaw) < Min(s, U)
    && c + first.other < Start(U, sl.prevRaw)
    && first.other <= sl.otherMetric <= last.other
    && sl.otherMetric - first.other <= U - 1 + s
  }

  lemma FirstReading(h: TopBit, U: int, c: int, s: int, x: Reading)
    requires U >= 1 && c >= 0 && s >= 0 && Shows(U, c + x.other, x.raw)
    ensures Tracks(h, U, c, s, [x], Step(h, INITIAL_SLOT, x))
  {
  }

  /** What the next reading shows: a higher raw value overshoots the increase by less than the gap and U. */
  lemma NextPosition(U: int, c: int, s: int, last: Reading, x: Reading)
    requires U >= 1 && s >= 0 && Shows(U, c + last.other, last.raw) && Shows(U, c + x.other, x.raw)
    requires last.other <= x.other <= last.other + s
    ensures last.raw <= x.raw
    ensures last.raw < x.raw ==>
              0 <= c + x.other - Start(U, x.raw) < Min(s, U) && c + last.other < Start(U, x.raw)
  {
    StretchOrder(U, c + last.other, last.raw, c + x.other, x.raw);
  }

  lemma NextInMinUnit(h: TopBit, U: int, c: int, s: int, xs: seq<Reading>, sl: Slot, x: Reading)
    requires U >= 1 && s >= 0 && xs != [] && Tracks(h, U, c, s, xs, sl) && sl.phase == GetMinUnit
    requires Shows(U, c + x.other, x.raw) && xs[|xs| - 1].other <= x.other <= xs[|xs| - 1].other + s
    ensures Tracks(h, U, c, s, xs + [x], StepMinUnit(h, sl, x))
  {
    hide ToLong, SetGreaterBit, Start;
    var first, last := xs[0], xs[|xs| - 1];
    NextPosition(U, c, s, last, x);
    var xs', sl' := xs + [x], StepMinUnit(h, sl, x);
    assert xs'[0] == first && xs'[|xs'| - 1] == x;
    assert Sub64(x.other, sl.otherMetric) == x.other - first.other;
    ToLongNear(h, x.other - first.other);
    if first.other < TWO_TO_64 - 1 && last.raw < x.raw {
      assert c + first.other < Start(U, x.raw);
      assert x.other - first.other <= U - 1 + s;
    }
  }

  lemma NextTillValInc(h: TopBit, U: int, c: int, s: int, xs: seq<Reading>, sl: Slot, x: Reading)
    requires U >= 1 && s >= 0 && xs != [] && Tracks(h, U, c, s, xs, sl) && sl.phase == GetUnitTillValInc
    requires Shows(U, c + x.other, x.raw) && xs[|xs| - 1].other <= x.other <= xs[|xs| - 1].other + s
    ensures Tracks(h, U, c, s, xs + [x], StepTillValInc(h, sl, x))
  {
    hide ToLong, SetGreaterBit, Start;
    var last := xs[|xs| - 1];
    NextPosition(U, c, s, last, x);
    var xs', sl' := xs + [x], StepTillValInc(h, sl, x);
    assert xs'[0] == xs[0] && xs'[|xs'| - 1] == x;
    assert Sub64(x.other, sl.otherMetric) == x.other - sl.otherMetric;
    assert Sub64(x.raw, sl.prevRaw) == x.raw - sl.prevRaw;
    assert AnchorAtIncrease(U, c, s, xs[0], x, sl');
    ToLongNear(h, x.other - sl.otherMetric);
  }

  lemma NextInUnit(h: TopBit, U: int, c: int, s: int, xs: seq<Reading>, sl: Slot, x: Reading)
    requires U >= 1 && s >= 0 && xs != [] && Tracks(h, U, c, s, xs, sl) && sl.phase == GetUnit
    requires Shows(U, c + x.other, x.raw) && xs[|xs| - 1].other <= x.other <= xs[|xs| - 1].other + s
    ensures Tracks(h, U, c, s, xs + [x], StepUnit(h, sl, x))
  {
    var last := xs[|xs| - 1];
    NextPosition(U, c, s, last, x);
    var xs', sl' := xs + [x], StepUnit(h, sl, x);
    assert xs'[0] == xs[0] && xs'[|xs'| - 1] == x;
    assert Sub64(x.raw, sl.prevRaw) == x.raw - sl.prevRaw;
    assert AnchorAtIncrease(U, c, s, xs[0], x, sl');
  }

  lemma NextReading(h: TopBit, U: int, c: int, s: int, xs: seq<Reading>, sl: Slot, x: Reading)
    requires U >= 1 && s >= 0 && xs != [] && Tracks(h, U, c, s, xs, sl)
    requires Shows(U, c + x.other, x.raw) && xs[|xs| - 1].other <= x.other <= xs[|xs| - 1].other + s
    ensures Tracks(h, U, c, s, xs + [x], Step(h, sl, x))
  {
    match sl.phase
    case GetMinUnit => NextInMinUnit(h, U, c, s, xs, sl, x);
    case GetUnitTillValInc => NextTillValInc(h, U, c, s, xs, sl, x);
    case GetUnit => NextInUnit(h, U, c, s, xs, sl, x);
  }

  lemma {:induction false} EveryRunTracks(h: TopBit, U: int, c: int, s: int, xs: seq<Reading>)
    requires U >= 1 && s >= 0 && xs != [] && OnCounter(U, c, s, xs)
    ensures Tracks(h, U, c, s, xs, Run(h, INITIAL_SLOT, xs))
  {
    var before, x := xs[..|xs| - 1], xs[|xs| - 1];
    if before == [] {
      assert xs == [x];
      FirstReading(h, U, c, s, x);
    } else {
      hide UnitEstimator.Step, Tracks, Start;
      EveryRunTracks(h, U, c, s, before);
      assert xs == before + [x];
      assert xs[|before| - 1].other <= xs[|before| - 1 + 1].other;
      NextReading(h, U, c, s, before, Run(h, INITIAL_SLOT, before), x);
    }
  }

  /** The unit before there is an estimate, and no upper bound: as long as the raw value has not increased, from
      the second reading on, the marked distance from the first reading; at the first increase the same distance
      unmarked; from then on the marked distance from the increase. */
  lemma UnitWhileWaiting(h: TopBit, U: int, c: int, s: int, before: seq<Reading>, x: Reading)
    requires U >= 1 && s >= 0 && before != [] && FromCounter(U, c, s, before + [x])
    ensures before[0].other <= x.other
    ensures
      var was, sl, first := Run(h, INITIAL_SLOT, before), Run(h, INITIAL_SLOT, before + [x]), before[0];
      && (sl.phase != GetUnit ==> sl.upper == 0)
      && (sl.phase == GetMinUnit ==> sl.units == SetGreaterBit(h, ToLong(h, x.other - first.other)))
      && (sl.phase == GetUnitTillValInc && was.phase == GetMinUnit ==> sl.units == ToLong(h, x.other - first.other))
      && (sl.phase == GetUnitTillValInc && was.phase == GetUnitTillValInc ==>
            sl.otherMetric <= x.other && sl.units == SetGreaterBit(h, ToLong(h, x.other - sl.otherMetric)))
  {
    var xs := before + [x];
    hide ToLong, SetGreaterBit, Start, FromCounter, OnCounter, UnitEstimator.Step, Tracks;
    OnCounterIsFromCounter(U, c, s, xs);
    assert xs[..|xs| - 1] == before;
    BeforeIsOnCounter(U, c, s, before, x);
    EveryRunTracks(h, U, c, s, before);
    EveryRunTracks(h, U, c, s, xs);
    TrackedWhileWaiting(h, U, c, s, before, Run(h, INITIAL_SLOT, before));
    TrackedWhileWaiting(h, U, c, s, xs, Run(h, INITIAL_SLOT, xs));
    if Run(h, INITIAL_SLOT, xs).phase == GetUnitTillValInc {
      UnitOfStep(h, Run(h, INITIAL_SLOT, before), x);
    }
  }

  lemma TrackedWhileWaiting(h: TopBit, U: int, c: int, s: int, xs: seq<Reading>, sl: Slot)
    requires U >= 1 && s >= 0 && xs != [] && Tracks(h, U, c, s, xs, sl)
    ensures xs[0].other <= xs[|xs| - 1].other
    ensures sl.phase != GetUnit ==> sl.upper == 0
    ensures sl.phase == GetMinUnit ==> sl.otherMetric == xs[0].other
    ensures sl.phase == GetMinUnit && |xs| >= 2 ==>
              sl.units == SetGreaterBit(h, ToLong(h, xs[|xs| - 1].other - xs[0].other))
    ensures sl.phase == GetUnitTillValInc ==> sl.otherMetric <= xs[|xs| - 1].other
  {
    hide ToLong, SetGreaterBit;
    if xs[0].other == TWO_TO_64 - 1 {
      assert xs[|xs| - 1].other - xs[0].other == 0;
    }
  }

  lemma UnitOfStep(h: TopBit, sl: Slot, x: Reading)
    requires Step(h, sl, x).phase == GetUnitTillValInc
    ensures sl.phase == GetMinUnit ==>
              x.other >= sl.otherMetric && Step(h, sl, x).units == ToLong(h, x.other - sl.otherMetric)
    ensures sl.phase == GetUnitTillValInc ==>
              && Step(h, sl, x).otherMetric == sl.otherMetric
              && (x.other >= sl.otherMetric ==>
                    Step(h, sl, x).units == SetGreaterBit(h, ToLong(h, x.other - sl.otherMetric)))
  {
    hide ToLong, SetGreaterBit;
  }

  lemma BeforeIsOnCounter(U: int, c: int, s: int, before: seq<Reading>, x: Reading)
    requires OnCounter(U, c, s, before + [x])
    ensures OnCounter(U, c, s, before)
    ensures before != [] ==> before[|before| - 1].other <= x.other
  {
    var xs := before + [x];
    assert forall i :: 0 <= i < |before| ==> xs[i] == before[i];
    assert before != [] ==> xs[|before| - 1].other <= xs[|before| - 1 + 1].other;
  }

  function Max(a: int, b: int): int {
    if a > b then a else b
  }

  /** Between the first and the second increase the lower bound is the longest stretch of the metric without an
      increase, as far as it was seen: the one before the first increase, which began at the first reading, or
      the one since. While no such stretch overflows a long, it is less than s above U - 1. */
  lemma {:induction false} LowerBoundWhileWaiting(h: TopBit, U: int, c: int, s: int, xs: seq<Reading>)
    requires U >= 1 && s >= 0 && FromCounter(U, c, s, xs) && U - 1 + s < h
    requires Run(h, INITIAL_SLOT, xs).phase == GetUnitTillValInc
    ensures xs != []
    ensures
      var sl, first, last := Run(h, INITIAL_SLOT, xs), xs[0], xs[|xs| - 1];
      && sl.lower == Max(sl.otherMetric - first.other, last.other - sl.otherMetric)
      && sl.lower <= U - 1 + s
  {
    OnCounterIsFromCounter(U, c, s, xs);
    if xs != [] {
      hide Run, FromCounter, OnCounter, ToLong, SetGreaterBit;
      EveryRunTracks(h, U, c, s, xs);
    }
  }

  // ---- The ">" marker ----

  ghost predicate MarkerIsSound(h: TopBit, U: int, s: int)
    requires U >= 1
  {
    forall c, xs :: FromCounter(U, c, s, xs) ==> MarkedBelow(h, U, Run(h, INITIAL_SLOT, xs))
  }

  /** A marked unit is really below U. */
  predicate MarkedBelow(h: TopBit, U: int, sl: Slot) {
    HasGreaterBit(sl.units) ==> Unmasked(h, sl.units) < U
  }

  lemma {:induction false} TrackedMarker(h: TopBit, U: int, c: int, s: int, xs: seq<Reading>, sl: Slot)
    requires U >= 1 && s >= 0 && xs != [] && Tracks(h, U, c, s, xs, sl)
    requires U >= h || s <= h
    ensures sl.phase != GetUnit ==> MarkedBelow(h, U, sl)
  {
    var first, last := xs[0], xs[|xs| - 1];
    UnmaskedIsAtMost(h, 0);
    UnmaskedIsAtMost(h, last.other - first.other);
    if sl.phase == GetUnitTillValInc {
      UnmaskedIsAtMost(h, last.other - sl.otherMetric);
    }
  }

  /** A long that holds one of the w values from a on, possibly wrapped around. */
  predicate InWindow(h: TopBit, a: int, w: int, v: int) {
    IsLong(h, v) && a <= (if v < 0 then v + 2 * h else v) < a + w
  }

  /** How far past the increase the anchor was taken. */
  ghost function Overshoot(U: int, c: int, sl: Slot): int {
    c + sl.otherMetric - Start(U, sl.prevRaw)
  }

  lemma QuotientBounds(a: int, b: int, k: int, diff: int)
    requires k >= 1 && a * k <= diff < b * k
    ensures a <= diff / k < b
  {
    var q := diff / k;
    if q < a {
      MulOrder(q + 1, a, k);
    }
    if q >= b {
      MulOrder(b, q, k);
    }
  }

  lemma QuotientInWindow(U: int, w: int, early: int, k: int, diff: int)
    requires U >= 1 && k >= 1 && 0 <= early < w && Start(U, k) - early <= diff < Start(U, k) - early + w
    ensures U - early <= diff / k < U - early + w
  {
    StartIsProduct(U, k);
    MulOrder(1, k, early);
    MulOrder(1, k, w - early);
    assert (U - early) * k == k * U - k * early && (U - early + w) * k == k * U + k * (w - early);
    QuotientBounds(U - early, U - early + w, k, diff);
  }

  lemma QuotientFits(h: TopBit, a: int, w: int, q: int)
    requires 0 <= a <= q < a + w <= 2 * h
    ensures InWindow(h, a, w, ToLong(h, q))
  {
    hide ToLong;
    ToLongNear(h, q);
  }

  lemma EstimateIsQuotient(h: TopBit, sl: Slot, x: Reading, k: int, diff: int)
    requires Accepts(sl, x) && k == x.raw - sl.prevRaw && diff == x.other - sl.otherMetric >= 0
    ensures EstimateOf(h, sl, x).diff == k && EstimateOf(h, sl, x).unit == ToLong(h, diff / k)
  {
    hide ToLong;
  }

  lemma TrackedAnchor(h: TopBit, U: int, c: int, s: int, xs: seq<Reading>, sl: Slot)
    requires U >= 1 && s >= 0 && xs != [] && Tracks(h, U, c, s, xs, sl) && sl.phase != GetMinUnit
    ensures AnchorAtIncrease(U, c, s, xs[0], xs[|xs| - 1], sl)
    ensures c >= 0 && Shows(U, c + xs[|xs| - 1].other, xs[|xs| - 1].raw) && sl.prevRaw <= xs[|xs| - 1].raw
  {
  }

  /** Estimates differ by less than min(s, U) from each other, for they share one anchor: where in this window
      they lie is decided by the anchor. */
  lemma AcceptedInWindow(h: TopBit, U: int, c: int, s: int, xs: seq<Reading>, sl: Slot, x: Reading)
    requires U >= 1 && s >= 0 && xs != [] && Tracks(h, U, c, s, xs, sl) && Accepts(sl, x)
    requires Shows(U, c + x.other, x.raw) && xs[|xs| - 1].other <= x.other <= xs[|xs| - 1].other + s
    requires U < h && s <= h
    ensures InWindow(h, U - Overshoot(U, c, sl), Min(s, U), EstimateOf(h, sl, x).unit)
  {
    var last := xs[|xs| - 1];
    TrackedAnchor(h, U, c, s, xs, sl);
    NextPosition(U, c, s, last, x);
    hide ToLong, Start, Tracks, InWindow, EstimateOf;
    var k, diff := x.raw - sl.prevRaw, x.other - sl.otherMetric;
    EstimateIsQuotient(h, sl, x, k, diff);
    StartAdds(U, sl.prevRaw, k);
    QuotientInWindow(U, Min(s, U), Overshoot(U, c, sl), k, diff);
    QuotientFits(h, U - Overshoot(U, c, sl), Min(s, U), diff / k);
  }

  /** All accepted estimates of a run lie in the window of its anchor. */
  ghost predicate EstimatesInside(h: TopBit, U: int, c: int, s: int, sl: Slot, es: seq<Estimate>) {
    forall e :: e in es ==> InWindow(h, U - Overshoot(U, c, sl), Min(s, U), e.unit)
  }

  /** A reading keeps them there: no estimate is accepted before the anchor is frozen. */
  lemma StepStaysInside(h: TopBit, U: int, c: int, s: int, xs: seq<Reading>, sl: Slot, es: seq<Estimate>, x: Reading)
    requires 1 <= U < h && 0 <= s <= h && xs != [] && Tracks(h, U, c, s, xs, sl)
    requires Shows(U, c + x.other, x.raw) && xs[|xs| - 1].other <= x.other <= xs[|xs| - 1].other + s
    requires EstimatesInside(h, U, c, s, sl, es) && (es != [] ==> sl.phase == GetUnit)
    ensures EstimatesInside(h, U, c, s, Step(h, sl, x), es + if Accepts(sl, x) then [EstimateOf(h, sl, x)] else [])
  {
    hide InWindow, EstimateOf, UnitEstimator.Step, Tracks;
    StepKeepsAnchor(h, sl, x);
    if Accepts(sl, x) {
      AcceptedInWindow(h, U, c, s, xs, sl, x);
    }
  }

  lemma {:induction false} EstimatesInWindow(h: TopBit, U: int, c: int, s: int, xs: seq<Reading>)
    requires 1 <= U < h && 0 <= s <= h && OnCounter(U, c, s, xs)
    ensures EstimatesInside(h, U, c, s, Run(h, INITIAL_SLOT, xs), AcceptedEstimates(h, INITIAL_SLOT, xs))
  {
    if xs != [] {
      hide EstimatesInside, UnitEstimator.Step, Tracks, Start, IsLeastUnit, IsGreatestUnit, Midpoint;
      var before, x := xs[..|xs| - 1], xs[|xs| - 1];
      var sl, es := Run(h, INITIAL_SLOT, before), AcceptedEstimates(h, INITIAL_SLOT, before);
      EstimatesInWindow(h, U, c, s, before);
      RunKeepsExtremes(h, before);
      if before == [] {
        NothingAccepted(h, U, c, s, Run(h, INITIAL_SLOT, xs));
      } else {
        EveryRunTracks(h, U, c, s, before);
        assert xs[|before| - 1].other <= xs[|before| - 1 + 1].other;
        StepStaysInside(h, U, c, s, before, sl, es, x);
      }
    }
  }

  lemma NothingAccepted(h: TopBit, U: int, c: int, s: int, sl: Slot)
    ensures EstimatesInside(h, U, c, s, sl, [])
  {
  }

  lemma MidpointIsLong(h: TopBit, lower: int, upper: int)
    ensures IsLong(h, Midpoint(h, lower, upper))
  {
    ToLongIsLong(h, lower + HalfTowardZero(ToLong(h, upper - lower)));
  }

  /** The midpoint of two such longs is marked only if it is below U. */
  lemma MidpointMarkedBelow(h: TopBit, U: int, a: int, w: int, lower: int, upper: int)
    requires InWindow(h, a, w, lower) && InWindow(h, a, w, upper) && lower <= upper && a <= U && w <= h
    ensures IsLong(h, Midpoint(h, lower, upper))
    ensures Midpoint(h, lower, upper) < 0 ==> Midpoint(h, lower, upper) + h < U
  {
    hide Midpoint;
    if upper - lower < h {
      MidpointInRange(h, lower, upper);
    } else {
      MidpointWraps(h, lower, upper);
    }
  }

  lemma AnchorPastIncrease(h: TopBit, U: int, c: int, s: int, xs: seq<Reading>)
    requires U >= 1 && s >= 0 && OnCounter(U, c, s, xs) && xs != []
    requires Run(h, INITIAL_SLOT, xs).phase != GetMinUnit
    ensures 0 <= Overshoot(U, c, Run(h, INITIAL_SLOT, xs)) < Min(s, U)
  {
    EveryRunTracks(h, U, c, s, xs);
  }

  lemma DeterminedMarker(h: TopBit, U: int, c: int, s: int, xs: seq<Reading>)
    requires U >= 1 && s >= 0 && OnCounter(U, c, s, xs) && xs != []
    requires U >= h || s <= h
    requires Run(h, INITIAL_SLOT, xs).phase == GetUnit
    ensures MarkedBelow(h, U, Run(h, INITIAL_SLOT, xs))
  {
    hide Run, OnCounter, Midpoint, InWindow, Overshoot, ToLong, HalfTowardZero, AcceptedEstimates;
    var sl, es := Run(h, INITIAL_SLOT, xs), AcceptedEstimates(h, INITIAL_SLOT, xs);
    RunKeepsExtremes(h, xs);
    if U >= h {
      MidpointIsLong(h, sl.lower, sl.upper);
    } else {
      EstimatesInWindow(h, U, c, s, xs);
      AnchorPastIncrease(h, U, c, s, xs);
      var i :| 0 <= i < |es| && es[i].unit == sl.lower;
      var j :| 0 <= j < |es| && es[j].unit == sl.upper;
      assert es[i] in es && es[j] in es;
      MidpointMarkedBelow(h, U, U - Overshoot(U, c, sl), Min(s, U), sl.lower, sl.upper);
    }
  }

  /** The marker is sound on every run from an ideal counter, in every state, exactly when the gaps between
      readings are at most 2^31 (2^63), or the unit itself is that large: on the first increase the unit is
      stored as a plain number whose own top bit reads as the marker. */
  lemma MarkerExactly(h: TopBit, U: int, s: nat)
    requires U >= 1
    ensures MarkerIsSound(h, U, s) <==> U >= h || s <= h
  {
    if U >= h || s <= h {
      forall c, xs | FromCounter(U, c, s, xs) ensures MarkedBelow(h, U, Run(h, INITIAL_SLOT, xs)) {
        OnCounterIsFromCounter(U, c, s, xs);
        if xs != [] {
          EveryRunTracks(h, U, c, s, xs);
          TrackedMarker(h, U, c, s, xs, Run(h, INITIAL_SLOT, xs));
          if Run(h, INITIAL_SLOT, xs).phase == GetUnit {
            DeterminedMarker(h, U, c, s, xs);
          }
        }
      }
    } else {
      var xs := FalselyMarkedRun(h, U, s);
      OnCounterIsFromCounter(U, 0, s, xs);
      assert !MarkedBelow(h, U, Run(h, INITIAL_SLOT, xs));
    }
  }

  lemma Append(h: TopBit, U: int, c: int, s: int, xs: seq<Reading>, x: Reading)
    requires U >= 1 && OnCounter(U, c, s, xs) && Shows(U, c + x.other, x.raw)
    requires xs != [] ==> xs[|xs| - 1].other <= x.other <= xs[|xs| - 1].other + s
    ensures OnCounter(U, c, s, xs + [x])
    ensures Run(h, INITIAL_SLOT, xs + [x]) == Step(h, Run(h, INITIAL_SLOT, xs), x)
  {
    assert (xs + [x])[..|xs|] == xs;
  }

  /** While no estimate is possible, a reading with the anchor's raw value keeps phase and anchor. */
  predicate Waiting(sl: Slot, last: Reading) {
    sl.phase != GetUnit && sl.prevRaw == last.raw && sl.otherMetric <= last.other
  }

  predicate SameAnchor(a: Slot, b: Slot) {
    a.phase == b.phase && a.prevRaw == b.prevRaw && a.otherMetric == b.otherMetric
  }

  lemma QuietStep(h: TopBit, sl: Slot, last: Reading, x: Reading)
    requires Waiting(sl, last) && x.raw == last.raw && last.other <= x.other
    ensures SameAnchor(Step(h, sl, x), sl)
  {
  }

  /** Reading on in steps of one while the raw value stands still. */
  lemma {:induction false} Creep(h: TopBit, U: int, c: int, s: int, xs: seq<Reading>, target: Word64)
    returns (ys: seq<Reading>)
    requires U >= 1 && s >= 1 && xs != [] && OnCounter(U, c, s, xs)
    requires Waiting(Run(h, INITIAL_SLOT, xs), xs[|xs| - 1])
    requires xs[|xs| - 1].other <= target && Shows(U, c + target, xs[|xs| - 1].raw)
    ensures ys != [] && OnCounter(U, c, s, ys) && ys[0] == xs[0] && ys[|ys| - 1] == Reading(xs[|xs| - 1].raw, target)
    ensures SameAnchor(Run(h, INITIAL_SLOT, ys), Run(h, INITIAL_SLOT, xs))
    decreases target - xs[|xs| - 1].other
  {
    var last := xs[|xs| - 1];
    if last.other == target {
      ys := xs;
    } else {
      var x := Reading(last.raw, last.other + 1);
      Append(h, U, c, s, xs, x);
      QuietStep(h, Run(h, INITIAL_SLOT, xs), last, x);
      assert (xs + [x])[|xs + [x]| - 1] == x;
      ys := Creep(h, U, c, s, xs + [x], target);
    }
  }

  lemma ShownRaw(U: int, p: Word64) returns (r: Word64)
    requires U >= 1
    ensures Shows(U, p, r)
  {
    r := p / U;
    QuotientShows(U, p, r);
  }

  lemma FalselyMarkedRun(h: TopBit, U: int, s: int) returns (xs: seq<Reading>)
    requires 1 <= U < h < s
    ensures OnCounter(U, 0, s, xs) && !MarkedBelow(h, U, Run(h, INITIAL_SLOT, xs))
  {
    OneReading(h, U, 0, s, Reading(0, 0));
    xs := Creep(h, U, 0, s, [Reading(0, 0)], U - 1);
    var r := ShownRaw(U, h + U);
    StretchOrder(U, U - 1, 0, h + U, r);
    Append(h, U, 0, s, xs, Reading(r, h + U));
    ToLongNear(h, h + U);
    xs := xs + [Reading(r, h + U)];
  }

  // ---- The lower bound between the first two increases ----

  /** The lower bound is the longest stretch of the metric without an increase, as far as it was seen: the one
      before the first increase, which began at the first reading, or the one since. */
  ghost predicate BoundIsStretch(h: TopBit, xs: seq<Reading>) {
    var sl := Run(h, INITIAL_SLOT, xs);
    sl.phase == GetUnitTillValInc && xs != [] ==>
      sl.lower == Max(sl.otherMetric - xs[0].other, xs[|xs| - 1].other - sl.otherMetric)
  }

  ghost predicate BoundIsAlwaysStretch(h: TopBit, U: int, s: int)
    requires U >= 1
  {
    forall c, xs :: FromCounter(U, c, s, xs) ==> BoundIsStretch(h, xs)
  }

  /** A first increase seen after a stretch of exactly h, which does not fit a long. */
  lemma WrappedStretchRun(h: TopBit, U: int, s: int) returns (c: int, xs: seq<Reading>)
    requires U >= 1 && s >= 1 && U - 1 + s >= h
    ensures OnCounter(U, c, s, xs) && !BoundIsStretch(h, xs)
  {
    c := if U > h then U - h else 0;
    OneReading(h, U, c, s, Reading(0, 0));
    xs := Creep(h, U, c, s, [Reading(0, 0)], U - c - 1);
    var r: Word64 := 1;
    assert Start(U, 1) == U;
    if U < h {
      r := ShownRaw(U, h);
      StretchOrder(U, U - 1, 0, h, r);
    }
    Append(h, U, c, s, xs, Reading(r, h));
    ToLongNear(h, h);
    xs := xs + [Reading(r, h)];
  }

  /** For every build, unit and gap: so it is on every run exactly when no such stretch overflows a long, or no
      run ever sees an increase. */
  lemma LowerBoundExactly(h: TopBit, U: int, s: nat)
    requires U >= 1
    ensures BoundIsAlwaysStretch(h, U, s) <==> U - 1 + s < h || s == 0
  {
    if U - 1 + s < h || s == 0 {
      hide Run, FromCounter, OnCounter;
      forall c, xs | FromCounter(U, c, s, xs) ensures BoundIsStretch(h, xs) {
        if Run(h, INITIAL_SLOT, xs).phase == GetUnitTillValInc {
          if U - 1 + s < h {
            LowerBoundWhileWaiting(h, U, c, s, xs);
          } else {
            OnCounterIsFromCounter(U, c, s, xs);
            NoGapNoIncrease(h, U, c, xs);
          }
        }
      }
    } else {
      var c, xs := WrappedStretchRun(h, U, s);
      OnCounterIsFromCounter(U, c, s, xs);
    }
  }

  // ---- Accuracy ----

  ghost predicate IsAccurate(h: TopBit, U: int, s: int)
    requires U >= 1
  {
    forall c, xs :: FromCounter(U, c, s, xs) ==> Near(U, Min(s, U), Run(h, INITIAL_SLOT, xs))
  }

  /** Once determined, the reported unit lies between the bounds, and these less than w away from U. */
  predicate Near(U: int, w: int, sl: Slot) {
    sl.phase == GetUnit ==> U - w < sl.lower <= sl.units <= sl.upper < U + w
  }

  /** The quotient calculated from an anchor and a reading that both lie less than w past an increase. */
  lemma QuotientNear(U: int, w: int, k: int, diff: int)
    requires U >= 1 && k >= 1 && w >= 1 && 0 <= diff && Start(U, k) - w < diff < Start(U, k) + w
    ensures EstimateIsNear(U, w, Estimate(k, diff / k))
  {
    StartIsProduct(U, k);
    var q := diff / k;
    QuotientBelow(U, w, k, diff, q);
    QuotientAbove(U, w, k, diff, q);
  }

  lemma QuotientBelow(U: int, w: int, k: int, diff: int, q: int)
    requires k >= 1 && w >= 1 && diff < k * U + w && k * q <= diff
    ensures q < U + w && k * q - k * U < w
  {
    assert (U + w) * k == k * U + k * w;
    if q >= U + w {
      MulOrder(U + w, q, k);
      MulOrder(1, k, w);
    }
  }

  lemma QuotientAbove(U: int, w: int, k: int, diff: int, q: int)
    requires k >= 1 && w >= 1 && k * U - w < diff && diff < k * q + k
    ensures U - w < q && k * U - k * q < w + k - 1
  {
    assert (U - w) * k == k * U - k * (w - 1) - k;
    if q <= U - w {
      MulOrder(q, U - w, k);
      MulOrder(1, k, w - 1);
    }
  }

  /** Every accepted estimate is off by less than w / diff + 1. */
  ghost predicate EstimateIsNear(U: int, w: int, e: Estimate) {
    && e.diff >= 1
    && U - w < e.unit < U + w
    && e.diff * e.unit - e.diff * U < w
    && e.diff * U - e.diff * e.unit < w + e.diff - 1
  }

  lemma AcceptedIsNear(h: TopBit, U: int, c: int, s: int, xs: seq<Reading>, sl: Slot, x: Reading)
    requires U >= 1 && s >= 0 && xs != [] && Tracks(h, U, c, s, xs, sl) && Accepts(sl, x)
    requires Shows(U, c + x.other, x.raw) && xs[|xs| - 1].other <= x.other <= xs[|xs| - 1].other + s
    requires U + Min(s, U) <= h
    ensures EstimateIsNear(U, Min(s, U), EstimateOf(h, sl, x))
  {
    var last := xs[|xs| - 1];
    TrackedAnchor(h, U, c, s, xs, sl);
    NextPosition(U, c, s, last, x);
    hide ToLong, Start, Tracks, EstimateOf;
    var k, diff := x.raw - sl.prevRaw, x.other - sl.otherMetric;
    EstimateIsQuotient(h, sl, x, k, diff);
    StartAdds(U, sl.prevRaw, k);
    QuotientNear(U, Min(s, U), k, diff);
    assert 0 <= diff / k;
    ToLongNear(h, diff / k);
  }

  lemma {:induction false} EstimatesAreNear(h: TopBit, U: int, c: int, s: int, xs: seq<Reading>)
    requires U >= 1 && s >= 0 && OnCounter(U, c, s, xs) && U + Min(s, U) <= h
    ensures forall e :: e in AcceptedEstimates(h, INITIAL_SLOT, xs) ==> EstimateIsNear(U, Min(s, U), e)
  {
    if xs != [] {
      var before, x := xs[..|xs| - 1], xs[|xs| - 1];
      var sl := Run(h, INITIAL_SLOT, before);
      EstimatesAreNear(h, U, c, s, before);
      if before != [] && Accepts(sl, x) {
        EveryRunTracks(h, U, c, s, before);
        assert xs[|before| - 1].other <= xs[|before| - 1 + 1].other;
        AcceptedIsNear(h, U, c, s, before, sl, x);
      }
    }
  }

  /** Near estimates make near bounds and a near unit. */
  lemma NearEstimatesNearBounds(h: TopBit, U: int, s: nat, xs: seq<Reading>)
    requires U >= 1
    requires forall e :: e in AcceptedEstimates(h, INITIAL_SLOT, xs) ==> EstimateIsNear(U, Min(s, U), e)
    ensures Near(U, Min(s, U), Run(h, INITIAL_SLOT, xs))
  {
    var sl, es := Run(h, INITIAL_SLOT, xs), AcceptedEstimates(h, INITIAL_SLOT, xs);
    RunKeepsExtremes(h, xs);
    if sl.phase == GetUnit {
      var i :| 0 <= i < |es| && es[i].unit == sl.lower;
      var j :| 0 <= j < |es| && es[j].unit == sl.upper;
      assert es[i] in es && es[j] in es;
      assert 0 <= U - Min(s, U);
      MidpointIsExact(h, sl.lower, sl.upper);
    }
  }

  lemma {:induction false} AccurateRun(h: TopBit, U: int, c: int, s: int, xs: seq<Reading>)
    requires U >= 1 && s >= 0 && OnCounter(U, c, s, xs) && U + Min(s, U) <= h
    ensures Near(U, Min(s, U), Run(h, INITIAL_SLOT, xs))
  {
    EstimatesAreNear(h, U, c, s, xs);
    NearEstimatesNearBounds(h, U, s, xs);
  }

  /** Two increases of the raw value need more than U of metric. */
  lemma UnitTooLargeToSee(h: TopBit, U: int, c: int, s: int, xs: seq<Reading>)
    requires U >= TWO_TO_64 - 1 && s >= 0 && OnCounter(U, c, s, xs)
    ensures Run(h, INITIAL_SLOT, xs).phase != GetUnit
  {
    if xs != [] {
      EveryRunTracks(h, U, c, s, xs);
      var sl, last := Run(h, INITIAL_SLOT, xs), xs[|xs| - 1];
      if sl.phase == GetUnit {
        StartAdds(U, sl.prevRaw, last.raw - sl.prevRaw);
      }
    }
  }

  /** Without gaps the metric stands still, and no raw value ever increases. */
  lemma NoGapNoIncrease(h: TopBit, U: int, c: int, xs: seq<Reading>)
    requires U >= 1 && OnCounter(U, c, 0, xs)
    ensures Run(h, INITIAL_SLOT, xs).phase == GetMinUnit
  {
    if xs != [] {
      EveryRunTracks(h, U, c, 0, xs);
    }
  }

  /** For every build, unit and gap: the reported unit and both bounds lie strictly within min(s, U) of U
      on every run exactly when U + min(s, U) fits below the top bit of a long (or no run can ever see two
      increases). */
  lemma AccuracyExactly(h: TopBit, U: int, s: nat)
    requires U >= 1
    ensures IsAccurate(h, U, s) <==> U + Min(s, U) <= h || s == 0 || U >= TWO_TO_64 - 1
  {
    if U + Min(s, U) <= h || s == 0 || U >= TWO_TO_64 - 1 {
      forall c, xs | FromCounter(U, c, s, xs) ensures Near(U, Min(s, U), Run(h, INITIAL_SLOT, xs)) {
        OnCounterIsFromCounter(U, c, s, xs);
        if s == 0 {
          NoGapNoIncrease(h, U, c, xs);
        } else if U + Min(s, U) <= h {
          AccurateRun(h, U, c, s, xs);
        } else {
          UnitTooLargeToSee(h, U, c, s, xs);
        }
      }
    } else {
      var xs := InaccurateRun(h, U, s);
      OnCounterIsFromCounter(U, U - 1, s, xs);
      assert !Near(U, Min(s, U), Run(h, INITIAL_SLOT, xs));
    }
  }

  /** The second increase yields the estimate U + late - early, for any two overshoots. */
  lemma TwoIncreases(h: TopBit, U: int, s: int, early: int, late: int) returns (xs: seq<Reading>)
    requires 1 <= U && 0 <= early < Min(s, U) && 0 <= late < Min(s, U) && U + 1 + late < TWO_TO_64
    ensures OnCounter(U, U - 1, s, xs)
    ensures Run(h, INITIAL_SLOT, xs).phase == GetUnit
    ensures Run(h, INITIAL_SLOT, xs).lower == ToLong(h, U + late - early)
  {
    hide UnitEstimator.Step, ToLong, Run;
    var c := U - 1;
    xs := FirstIncrease(h, U, s, early);
    assert Start(U, 1) == U && Start(U, 2) == U + U;
    xs := Creep(h, U, c, s, xs, U);
    var sl, x := Run(h, INITIAL_SLOT, xs), Reading(2, U + 1 + late);
    Append(h, U, c, s, xs, x);
    SecondIncrease(h, sl, x);
    xs := xs + [x];
  }

  lemma SecondIncrease(h: TopBit, sl: Slot, x: Reading)
    requires sl.phase == GetUnitTillValInc && x.raw == sl.prevRaw + 1 && x.other >= sl.otherMetric
    ensures Step(h, sl, x).phase == GetUnit
    ensures Step(h, sl, x).lower == ToLong(h, x.other - sl.otherMetric)
  {
    assert (x.other - sl.otherMetric) / 1 == x.other - sl.otherMetric;
  }

  /** A first increase seen early past it. */
  lemma FirstIncrease(h: TopBit, U: int, s: int, early: int) returns (xs: seq<Reading>)
    requires 1 <= U < TWO_TO_64 - 1 && 0 <= early < Min(s, U)
    ensures OnCounter(U, U - 1, s, xs) && xs != [] && xs[|xs| - 1] == Reading(1, 1 + early)
    ensures
      var sl := Run(h, INITIAL_SLOT, xs);
      sl.phase == GetUnitTillValInc && sl.prevRaw == 1 && sl.otherMetric == 1 + early
  {
    var a, b := Reading(0, 0), Reading(1, 1 + early);
    assert Start(U, 1) == U;
    OneReading(h, U, U - 1, s, a);
    hide UnitEstimator.Step, Run;
    Append(h, U, U - 1, s, [a], b);
    AnchorStep(h, Run(h, INITIAL_SLOT, [a]), b);
    xs := [a] + [b];
  }

  lemma OneReading(h: TopBit, U: int, c: int, s: int, x: Reading)
    requires U >= 1 && c >= 0 && Shows(U, c + x.other, x.raw) && x.other < TWO_TO_64 - 1
    ensures OnCounter(U, c, s, [x])
    ensures
      var sl := Run(h, INITIAL_SLOT, [x]);
      sl.phase == GetMinUnit && sl.prevRaw == x.raw && sl.otherMetric == x.other
  {
    assert [x][..0] == [];
    AnchorStep(h, INITIAL_SLOT, x);
  }

  lemma AnchorStep(h: TopBit, sl: Slot, x: Reading)
    requires sl.phase == GetMinUnit && (x.other < sl.otherMetric || x.raw > sl.prevRaw)
    ensures Step(h, sl, x).prevRaw == x.raw && Step(h, sl, x).otherMetric == x.other
    ensures Step(h, sl, x).phase == if x.other < sl.otherMetric then GetMinUnit else GetUnitTillValInc
  {
  }

  lemma InaccurateRun(h: TopBit, U: int, s: int) returns (xs: seq<Reading>)
    requires s >= 1 && 1 <= U < TWO_TO_64 - 1 && U + Min(s, U) > h
    ensures OnCounter(U, U - 1, s, xs) && !Near(U, Min(s, U), Run(h, INITIAL_SLOT, xs))
  {
    var w := Min(s, U);
    if U - w >= h {
      xs := TwoIncreases(h, U, s, 0, 0);
      ToLongFits(h, U);
    } else {
      xs := TwoIncreases(h, U, s, if U > h then U - h else 0, if U > h then 0 else h - U);
      ToLongNear(h, h);
    }
  }

  // ---- Accuracy of the single estimates ----

  ghost predicate EstimatesAreAccurate(h: TopBit, U: int, s: int)
    requires U >= 1
  {
    forall c, xs :: FromCounter(U, c, s, xs) ==> AllNear(U, Min(s, U), AcceptedEstimates(h, INITIAL_SLOT, xs))
  }

  ghost predicate AllNear(U: int, w: int, es: seq<Estimate>) {
    forall e :: e in es ==> EstimateIsNear(U, w, e)
  }

  /** On every run an estimate accepted at raw difference k is off by less than min(s, U) / k + 1, on either
      side, exactly when U + min(s, U) fits below the top bit of a long (or no run can ever see two increases). */
  lemma {:induction false} EstimateError(h: TopBit, U: int, s: nat)
    requires U >= 1
    ensures EstimatesAreAccurate(h, U, s) <==> U + Min(s, U) <= h || s == 0 || U >= TWO_TO_64 - 1
  {
    hide EstimateIsNear, BoundsAreExtremes;
    if U + Min(s, U) <= h || s == 0 || U >= TWO_TO_64 - 1 {
      forall c, xs | FromCounter(U, c, s, xs) ensures AllNear(U, Min(s, U), AcceptedEstimates(h, INITIAL_SLOT, xs)) {
        OnCounterIsFromCounter(U, c, s, xs);
        if U + Min(s, U) <= h {
          EstimatesAreNear(h, U, c, s, xs);
        } else {
          if s == 0 {
            NoGapNoIncrease(h, U, c, xs);
          } else {
            UnitTooLargeToSee(h, U, c, s, xs);
          }
          NoEstimates(h, xs);
        }
      }
    } else {
      var xs := InaccurateRun(h, U, s);
      OnCounterIsFromCounter(U, U - 1, s, xs);
      if AllNear(U, Min(s, U), AcceptedEstimates(h, INITIAL_SLOT, xs)) {
        NearEstimatesNearBounds(h, U, s, xs);
        assert false;
      }
    }
  }

  lemma NoEstimates(h: TopBit, xs: seq<Reading>)
    requires Run(h, INITIAL_SLOT, xs).phase != GetUnit
    ensures AcceptedEstimates(h, INITIAL_SLOT, xs) == []
  {
    RunKeepsExtremes(h, xs);
  }
}
