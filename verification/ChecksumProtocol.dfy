/** The check-sum protocols of a raw value and of its retrieval time on the two-thread machine of LockFreeWords.
    Main results, for either protocol: ManyWritesExactly and ManyTimesExactly - over all schedules of any number
    of writes, the exact condition on the written values under which a reader never accepts a mix of them;
    RawExactly and TimeExactly - this condition for a single write, in closed form; RawReadIsWhole and
    TimeReadIsWhole - what an accepted reading is that at most one write overlaps. */
module ChecksumProtocol {
  import opened LockFreeWords

  // ---- Raw value: setRawVal and IsConsistent ----

  /** setRawVal: clears the sum, then stores low before high, folding each long into the sum. */
  const RAW_OPS: seq<WriteOp> := [ClearSum, StoreLo, XorLo, StoreHi, XorHi]

  /** IsConsistent: loads high before low, then the sum. */
  const RAW_LOADS: seq<ReadOp> := [LoadHi, LoadLo, LoadSum]

  /** All stores of writing the values vs one after the other. */
  function RawWrites(vs: seq<Longs>): (stores: seq<Store>)
    ensures |stores| == 5 * |vs|
  {
    seq(5 * |vs|, t requires 0 <= t < 5 * |vs| => Store(RAW_OPS[t % 5], vs[t / 5]))
  }

  function RawPrograms(first: Longs, vs: seq<Longs>): Programs {
    Programs(first, RawWrites(vs), RAW_LOADS)
  }

  /** The value of the k-th completed write. */
  function Written(first: Longs, vs: seq<Longs>, k: nat): Longs
    requires k <= |vs|
  {
    if k == 0 then first else vs[k - 1]
  }

  /** Memory at a step of overwriting cur by next, in closed form. */
  function RawMem(cur: Longs, next: Longs, step: nat): Memory {
    Memory(if step >= 2 then next.lo else cur.lo,
           if step >= 4 then next.hi else cur.hi,
           if step == 0 then Xor(cur.lo, cur.hi) else if step <= 2 then ZERO else next.lo)
  }

  lemma RawStore(first: Longs, vs: seq<Longs>, k: nat, step: nat)
    requires k < |vs| && step < 5
    ensures 5 * k + step + 1 <= |RawWrites(vs)|
    ensures MemAt(RawPrograms(first, vs), 5 * k + step + 1) ==
            Exec(Store(RAW_OPS[step], vs[k]), MemAt(RawPrograms(first, vs), 5 * k + step))
  {
    hide Xor;
    var t := 5 * k + step;
    assert t % 5 == step && t / 5 == k;
    assert RawWrites(vs)[t] == Store(RAW_OPS[step], vs[k]);
  }

  /** Exec follows the closed form through one write. */
  lemma RawExec(cur: Longs, next: Longs, step: nat)
    requires step < 5
    ensures Exec(Store(RAW_OPS[step], next), RawMem(cur, next, step)) ==
            if step == 4 then Complete(next) else RawMem(cur, next, step + 1)
  {
    hide Xor;
    XorLaws(ZERO, next.lo, ZERO);
  }

  lemma RawMemStart(v: Longs)
    ensures RawMem(v, v, 0) == Complete(v)
    ensures forall vs :: MemAt(RawPrograms(v, vs), 0) == Complete(v)
    ensures forall next :: RawMem(v, next, 0) == RawMem(v, v, 0)
  {
  }

  /** Memory after any number of stores: k writes are complete and the next one is at the given step. */
  lemma {:induction false} RawMemory(first: Longs, vs: seq<Longs>, k: nat, step: nat)
    requires k <= |vs| && step <= 4 && (step > 0 ==> k < |vs|)
    ensures MemAt(RawPrograms(first, vs), 5 * k + step) ==
            RawMem(Written(first, vs, k), Written(first, vs, if step > 0 then k + 1 else k), step)
    decreases k, step
  {
    hide Xor, Exec, RawMem, RawWrites, Complete;
    RawMemStart(Written(first, vs, k));
    if step > 0 {
      RawMemory(first, vs, k, step - 1);
      RawStore(first, vs, k, step - 1);
      RawExec(Written(first, vs, k), vs[k], step - 1);
    } else if k > 0 {
      RawMemory(first, vs, k - 1, 4);
      RawStore(first, vs, k - 1, 4);
      RawExec(Written(first, vs, k - 1), vs[k - 1], 4);
    }
  }

  /** What a load at time t sees, by the writes the two longs come from. */
  lemma RawLoads(first: Longs, vs: seq<Longs>, t: nat)
    requires t <= 5 * |vs|
    ensures (t + 1) / 5 <= (t + 3) / 5 <= |vs|
    ensures MemAt(RawPrograms(first, vs), t).lo == Written(first, vs, (t + 3) / 5).lo
    ensures MemAt(RawPrograms(first, vs), t).hi == Written(first, vs, (t + 1) / 5).hi
    ensures t % 5 == 0 ==> MemAt(RawPrograms(first, vs), t) == Complete(Written(first, vs, t / 5))
  {
    hide Xor;
    var k, step := t / 5, t % 5;
    assert t == 5 * k + step;
    assert (t + 1) / 5 == if step == 4 then k + 1 else k;
    assert (t + 3) / 5 == if step >= 2 then k + 1 else k;
    RawMemory(first, vs, k, step);
  }

  /** IsConsistent's verdict, and the value it builds, from its three loads. */
  predicate RawAccepts(loaded: seq<Long>) {
    |loaded| == 3 && Xor(loaded[0], loaded[1]) == loaded[2]
  }

  function RawValue(loaded: seq<Long>): Longs
    requires |loaded| == 3
  {
    Longs(loaded[1], loaded[0])
  }

  /** After any number of writes, an accepted reading whose sum was loaded between two writes joins the high
      long of write i and the low long of a not earlier write j, and their XOR is that of the last write. */
  lemma RawReadJoins(first: Longs, vs: seq<Longs>, schedule: seq<Thread>) returns (i: nat, j: nat)
    requires
      var s := Outcome(RawPrograms(first, vs), schedule);
      RawAccepts(s.loaded) && s.times[2] % 5 == 0
    ensures
      var s := Outcome(RawPrograms(first, vs), schedule);
      var k := s.times[2] / 5;
      && s.times[0] / 5 <= i <= j <= k <= |vs|
      && RawValue(s.loaded) == Longs(Written(first, vs, j).lo, Written(first, vs, i).hi)
      && Xor(Written(first, vs, i).hi, Written(first, vs, j).lo) ==
         Xor(Written(first, vs, k).lo, Written(first, vs, k).hi)
  {
    hide Xor;
    Interleaving(RawPrograms(first, vs), schedule);
    var s := Outcome(RawPrograms(first, vs), schedule);
    var t0, t1, t2 := s.times[0], s.times[1], s.times[2];
    assert t0 <= t1 <= t2 <= 5 * |vs|;
    RawLoads(first, vs, t0);
    RawLoads(first, vs, t1);
    RawLoads(first, vs, t2);
    i, j := (t0 + 1) / 5, (t1 + 3) / 5;
  }

  /** Torn-read safety: over all schedules, if the sum is loaded while no write is midway and at most one
      write overlaps the reading, an accepted value is the whole value from before or from after that write. */
  lemma RawReadIsWhole(first: Longs, vs: seq<Longs>, schedule: seq<Thread>)
    requires
      var s := Outcome(RawPrograms(first, vs), schedule);
      RawAccepts(s.loaded) && s.times[2] % 5 == 0 && s.times[2] / 5 <= s.times[0] / 5 + 1
    ensures
      var s := Outcome(RawPrograms(first, vs), schedule);
      && s.times[0] / 5 <= s.times[2] / 5 <= |vs|
      && (|| RawValue(s.loaded) == Written(first, vs, s.times[0] / 5)
          || RawValue(s.loaded) == Written(first, vs, s.times[2] / 5))
  {
    hide Xor;
    var i, j := RawReadJoins(first, vs, schedule);
    var k := Outcome(RawPrograms(first, vs), schedule).times[2] / 5;
    XorLaws(Written(first, vs, i).hi, Written(first, vs, j).lo, Written(first, vs, k).hi);
    XorLaws(Written(first, vs, k).lo, Written(first, vs, k).hi, ZERO);
  }

  /** With two overlapping writes the same reading may be none of the three values. */
  lemma TwoWritesTear() returns (first: Longs, vs: seq<Longs>, schedule: seq<Thread>)
    ensures
      var s := Outcome(RawPrograms(first, vs), schedule);
      && RawAccepts(s.loaded) && s.times[2] % 5 == 0 && s.times[2] / 5 == s.times[0] / 5 + 2
      && RawValue(s.loaded) != first && RawValue(s.loaded) !in vs
  {
    first, vs := Longs(ZERO, Long(1)), [Longs(Long(2), ZERO), Longs(ZERO, Long(3))];
    schedule := Realizable(RawPrograms(first, vs), [0, 5, 10]);
    RawLoads(first, vs, 0);
    RawLoads(first, vs, 5);
    RawLoads(first, vs, 10);
    assert Xor(Long(1), Long(2)) == Long(3) == Xor(ZERO, Long(3));
    assert Outcome(RawPrograms(first, vs), schedule).loaded == [Long(1), Long(2), Long(3)];
  }

  // ---- Raw value: any number of writes ----

  /** What may be asked of an accepted value: that it was written at all, or that it is the value of a write
      from the last one complete when the reading began up to the last one begun when it ended. */
  datatype Promise = WrittenSometime | HeldMeanwhile

  ghost predicate Keeps(promise: Promise, first: Longs, vs: seq<Longs>, v: Longs, from: nat, to: nat) {
    if promise == WrittenSometime then exists n: nat :: n <= |vs| && Written(first, vs, n) == v
    else exists n: nat :: from <= n <= to && n <= |vs| && Written(first, vs, n) == v
  }

  lemma KeepsWritten(promise: Promise, first: Longs, vs: seq<Longs>, n: nat, from: nat, to: nat)
    requires from <= n <= to && n <= |vs|
    ensures Keeps(promise, first, vs, Written(first, vs, n), from, to)
  {
  }

  lemma KeepsWider(promise: Promise, first: Longs, vs: seq<Longs>, v: Longs, from: nat, to: nat, from': nat, to': nat)
    requires from' <= from && to <= to' && Keeps(promise, first, vs, v, from, to)
    ensures Keeps(promise, first, vs, v, from', to')
  {
  }

  /** On this schedule, with the sum loaded while no write is midway if idle, an accepted value keeps the promise. */
  ghost predicate RawKeepsOn(promise: Promise, idle: bool, first: Longs, vs: seq<Longs>, schedule: seq<Thread>) {
    var s := Outcome(RawPrograms(first, vs), schedule);
    RawAccepts(s.loaded) && (idle ==> s.times[2] % 5 == 0) ==>
      Keeps(promise, first, vs, RawValue(s.loaded), s.times[0] / 5, (s.times[2] + 4) / 5)
  }

  ghost predicate RawAlwaysKeeps(promise: Promise, idle: bool, first: Longs, vs: seq<Longs>) {
    forall schedule :: RawKeepsOn(promise, idle, first, vs, schedule)
  }

  /** The check sum cannot tell the high long of write i joined with the low long of write j from what it is
      while write k is the last one begun. */
  predicate RawMixes(idle: bool, first: Longs, vs: seq<Longs>, i: nat, j: nat, k: nat)
    requires i <= j <= k <= |vs|
  {
    var x := Xor(Written(first, vs, i).hi, Written(first, vs, j).lo);
    || x == Xor(Written(first, vs, k).lo, Written(first, vs, k).hi)
    || (!idle && i < k && (x == ZERO || x == Written(first, vs, k).lo))
  }

  function RawMix(first: Longs, vs: seq<Longs>, i: nat, j: nat): Longs
    requires i <= |vs| && j <= |vs|
  {
    Longs(Written(first, vs, j).lo, Written(first, vs, i).hi)
  }

  /** A condition on the written values alone. */
  ghost predicate RawMixesKeep(promise: Promise, idle: bool, first: Longs, vs: seq<Longs>) {
    forall i: nat, j: nat, k: nat :: i <= j <= k <= |vs| && RawMixes(idle, first, vs, i, j, k) ==>
      Keeps(promise, first, vs, RawMix(first, vs, i, j), i, k)
  }

  /** The sum at any time, by the last write begun. */
  lemma RawSums(first: Longs, vs: seq<Longs>, t: nat)
    requires t <= 5 * |vs|
    ensures
      var k, sum := (t + 4) / 5, MemAt(RawPrograms(first, vs), t).sum;
      && k <= |vs|
      && sum == if t % 5 == 0 then Xor(Written(first, vs, k).lo, Written(first, vs, k).hi)
                else if t % 5 <= 2 then ZERO else Written(first, vs, k).lo
  {
    hide Xor;
    var k, step := t / 5, t % 5;
    assert t == 5 * k + step;
    assert (t + 4) / 5 == if step == 0 then k else k + 1;
    RawMemory(first, vs, k, step);
  }

  /** Three loads at nondecreasing times, by the writes they see. */
  lemma RawLoadsMix(idle: bool, first: Longs, vs: seq<Longs>, t0: nat, t1: nat, t2: nat)
    requires t0 <= t1 <= t2 <= 5 * |vs| && (idle ==> t2 % 5 == 0)
    ensures
      var p, i, j, k := RawPrograms(first, vs), (t0 + 1) / 5, (t1 + 3) / 5, (t2 + 4) / 5;
      && t0 / 5 <= i <= j <= k <= |vs|
      && Longs(MemAt(p, t1).lo, MemAt(p, t0).hi) == RawMix(first, vs, i, j)
      && (Xor(MemAt(p, t0).hi, MemAt(p, t1).lo) == MemAt(p, t2).sum ==>
            RawMixes(idle, first, vs, i, j, k) || i == j == k)
  {
    hide Xor;
    RawLoads(first, vs, t0);
    RawLoads(first, vs, t1);
    RawSums(first, vs, t2);
  }

  lemma RawKeepsOnSchedule(promise: Promise, idle: bool, first: Longs, vs: seq<Longs>, schedule: seq<Thread>)
    requires RawMixesKeep(promise, idle, first, vs)
    ensures RawKeepsOn(promise, idle, first, vs, schedule)
  {
    hide Xor, Keeps, RawMixes, MemAt;
    Interleaving(RawPrograms(first, vs), schedule);
    var s := Outcome(RawPrograms(first, vs), schedule);
    if RawAccepts(s.loaded) && (idle ==> s.times[2] % 5 == 0) {
      var t0, t1, t2 := s.times[0], s.times[1], s.times[2];
      assert t0 <= t1 <= t2 <= 5 * |vs|;
      RawLoadsMix(idle, first, vs, t0, t1, t2);
      var i, j, k := (t0 + 1) / 5, (t1 + 3) / 5, (t2 + 4) / 5;
      if i == j == k {
        KeepsWritten(promise, first, vs, k, i, k);
      }
      KeepsWider(promise, first, vs, RawValue(s.loaded), i, k, t0 / 5, k);
    }
  }

  /** Load times for a mix that does not keep the promise. */
  function RawMixTimes(first: Longs, vs: seq<Longs>, i: nat, j: nat, k: nat): (ts: seq<nat>)
    requires i <= j <= k <= |vs|
    ensures |ts| == 3
  {
    var x := Xor(Written(first, vs, i).hi, Written(first, vs, j).lo);
    if x == Xor(Written(first, vs, k).lo, Written(first, vs, k).hi) || i == k then [5 * i, 5 * j, 5 * k]
    else
      var t := if x == ZERO then 5 * k - 3 else 5 * k - 2;
      [5 * i, if j < k then 5 * j else t, t]
  }

  lemma RawMixTimesSee(idle: bool, first: Longs, vs: seq<Longs>, i: nat, j: nat, k: nat)
    requires i <= j <= k <= |vs| && RawMixes(idle, first, vs, i, j, k)
    ensures
      var ts := RawMixTimes(first, vs, i, j, k);
      && ts[0] <= ts[1] <= ts[2] <= 5 * |vs| && (idle ==> ts[2] % 5 == 0)
      && ts[0] / 5 == (ts[0] + 1) / 5 == i && (ts[1] + 3) / 5 == j && (ts[2] + 4) / 5 == k
  {
    hide Xor;
  }

  /** The sum at the last of these times is that of the mix. */
  lemma RawMixSum(idle: bool, first: Longs, vs: seq<Longs>, i: nat, j: nat, k: nat)
    requires i <= j <= k <= |vs| && RawMixes(idle, first, vs, i, j, k)
    ensures
      var t := RawMixTimes(first, vs, i, j, k)[2];
      && t <= 5 * |vs|
      && MemAt(RawPrograms(first, vs), t).sum == Xor(Written(first, vs, i).hi, Written(first, vs, j).lo)
  {
    hide Xor, MemAt;
    RawSums(first, vs, RawMixTimes(first, vs, i, j, k)[2]);
  }

  lemma RawMixHappens(promise: Promise, idle: bool, first: Longs, vs: seq<Longs>, i: nat, j: nat, k: nat)
    returns (schedule: seq<Thread>)
    requires i <= j <= k <= |vs| && RawMixes(idle, first, vs, i, j, k)
    requires !Keeps(promise, first, vs, RawMix(first, vs, i, j), i, k)
    ensures !RawKeepsOn(promise, idle, first, vs, schedule)
  {
    hide Xor, Keeps, MemAt, RawMixes, RawMixTimes;
    var p, ts := RawPrograms(first, vs), RawMixTimes(first, vs, i, j, k);
    RawMixTimesSee(idle, first, vs, i, j, k);
    schedule := Realizable(p, ts);
    RawLoads(first, vs, ts[0]);
    RawLoads(first, vs, ts[1]);
    RawMixSum(idle, first, vs, i, j, k);
    var loaded := Outcome(p, schedule).loaded;
    assert loaded == [MemAt(p, ts[0]).hi, MemAt(p, ts[1]).lo, MemAt(p, ts[2]).sum];
  }

  /** Exactly when, over every schedule of any number of writes, an accepted value keeps the promise, whether
      the sum is compared between two writes or at any time. */
  lemma ManyWritesExactly(promise: Promise, idle: bool, first: Longs, vs: seq<Longs>)
    ensures RawAlwaysKeeps(promise, idle, first, vs) <==> RawMixesKeep(promise, idle, first, vs)
  {
    hide Xor, Keeps, RawMixes;
    if RawMixesKeep(promise, idle, first, vs) {
      forall schedule ensures RawKeepsOn(promise, idle, first, vs, schedule) {
        RawKeepsOnSchedule(promise, idle, first, vs, schedule);
      }
    } else {
      var i: nat, j: nat, k: nat :| i <= j <= k <= |vs| && RawMixes(idle, first, vs, i, j, k) &&
        !Keeps(promise, first, vs, RawMix(first, vs, i, j), i, k);
      var schedule := RawMixHappens(promise, idle, first, vs, i, j, k);
    }
  }

  /** Values that agree in their high long, such as counters below 2^32, are never mixed up. */
  lemma SameHighNeverTears(promise: Promise, idle: bool, first: Longs, vs: seq<Longs>)
    requires forall v :: v in vs ==> v.hi == first.hi
    ensures RawAlwaysKeeps(promise, idle, first, vs)
  {
    hide Xor, Keeps, RawMixes, RawAlwaysKeeps;
    forall i: nat, j: nat, k: nat | i <= j <= k <= |vs| && RawMixes(idle, first, vs, i, j, k)
      ensures Keeps(promise, first, vs, RawMix(first, vs, i, j), i, k)
    {
      KeepsWritten(promise, first, vs, j, i, k);
      assert RawMix(first, vs, i, j) == Written(first, vs, j);
    }
    ManyWritesExactly(promise, idle, first, vs);
  }

  // ---- Raw value: one write, compared at any time ----

  /** The values that may be replaced safely without any assumption on when the sum is loaded. In particular
      a value below 2^32, whose high long is zero, may be only if one of its longs stays the same. */
  predicate RawSafe(a: Longs, b: Longs) {
    a.lo == b.lo || a.hi == b.hi || (a.hi != ZERO && a.hi != b.lo)
  }

  lemma RawSafeMixesKeep(promise: Promise, a: Longs, b: Longs)
    requires RawSafe(a, b)
    ensures RawMixesKeep(promise, false, a, [b])
  {
    hide Xor;
    XorLaws(a.hi, b.lo, b.hi);
    XorLaws(b.lo, b.hi, ZERO);
    forall i: nat, j: nat, k: nat | i <= j <= k <= |[b]| && RawMixes(false, a, [b], i, j, k)
      ensures Keeps(promise, a, [b], RawMix(a, [b], i, j), i, k)
    {
      assert Written(a, [b], 0) == a && Written(a, [b], 1) == b;
    }
  }

  lemma RawTornOnSchedule(promise: Promise, a: Longs, b: Longs) returns (schedule: seq<Thread>)
    requires !RawSafe(a, b)
    ensures !RawKeepsOn(promise, false, a, [b], schedule)
    ensures RawValue(Outcome(RawPrograms(a, [b]), schedule).loaded) == Longs(b.lo, a.hi)
  {
    hide Xor, MemAt, Outcome;
    var t := if a.hi == b.lo then 2 else 3;
    schedule := Realizable(RawPrograms(a, [b]), [0, 2, t]);
    RawLoads(a, [b], 0);
    RawLoads(a, [b], 2);
    RawSums(a, [b], t);
    XorLaws(a.hi, b.lo, ZERO);
    assert Outcome(RawPrograms(a, [b]), schedule).loaded == [a.hi, b.lo, if a.hi == b.lo then ZERO else b.lo];
  }

  /** Exactly when overwriting a by b is safe under every schedule. */
  lemma RawExactly(promise: Promise, a: Longs, b: Longs)
    ensures RawAlwaysKeeps(promise, false, a, [b]) <==> RawSafe(a, b)
  {
    hide Xor, RawKeepsOn, RawMixesKeep;
    if RawSafe(a, b) {
      RawSafeMixesKeep(promise, a, b);
      ManyWritesExactly(promise, false, a, [b]);
    } else {
      var schedule := RawTornOnSchedule(promise, a, b);
    }
  }

  /** The example in the source's own comment, 0xFFFFFFFF overwritten by 0x100000000, is one of the unsafe
      pairs: a reader can accept 0. */
  lemma CommentedExampleTears() returns (schedule: seq<Thread>)
    ensures
      var loaded := Outcome(RawPrograms(Split(0xFFFF_FFFF), [Split(0x1_0000_0000)]), schedule).loaded;
      RawAccepts(loaded) && Join(RawValue(loaded)) == 0
  {
    var a, b := Split(0xFFFF_FFFF), Split(0x1_0000_0000);
    assert a == Longs(Long(0xFFFF_FFFF), ZERO) && b == Longs(ZERO, Long(1));
    schedule := RawTornOnSchedule(WrittenSometime, a, b);
    assert Join(Longs(ZERO, ZERO)) == 0;
  }

  // ---- Retrieval time: SetRetrievalTime and GetRetrievalTime ----

  /** SetRetrievalTime: stores the low long, makes it the sum, then stores and folds in the high long. */
  const TIME_OPS: seq<WriteOp> := [StoreLo, SumIsLo, StoreHi, XorHi]

  /** All stores of writing the times vs one after the other. */
  function TimeWrites(vs: seq<Longs>): (stores: seq<Store>)
    ensures |stores| == 4 * |vs|
  {
    seq(4 * |vs|, t requires 0 <= t < 4 * |vs| => Store(TIME_OPS[t % 4], vs[t / 4]))
  }

  /** GetRetrievalTime names the low long twice, to seed its sum and to copy the value. Either the compiled
      code loads it once for both, or once for each. */
  datatype SeedLoad = Shared | Separate

  function TimeLoads(seed: SeedLoad): seq<ReadOp> {
    match seed
    case Shared => [LoadLo, LoadHi, LoadSum]
    case Separate => [LoadLo, LoadLo, LoadHi, LoadSum]
  }

  function TimePrograms(seed: SeedLoad, first: Longs, vs: seq<Longs>): Programs {
    Programs(first, TimeWrites(vs), TimeLoads(seed))
  }

  /** Memory at a step of overwriting the time cur by next. */
  function TimeMem(cur: Longs, next: Longs, step: nat): Memory {
    Memory(if step >= 1 then next.lo else cur.lo,
           if step >= 3 then next.hi else cur.hi,
           if step <= 1 then Xor(cur.lo, cur.hi) else next.lo)
  }

  lemma TimeStore(seed: SeedLoad, first: Longs, vs: seq<Longs>, k: nat, step: nat)
    requires k < |vs| && step < 4
    ensures 4 * k + step + 1 <= |TimeWrites(vs)|
    ensures MemAt(TimePrograms(seed, first, vs), 4 * k + step + 1) ==
            Exec(Store(TIME_OPS[step], vs[k]), MemAt(TimePrograms(seed, first, vs), 4 * k + step))
  {
    hide Xor;
    var t := 4 * k + step;
    assert t % 4 == step && t / 4 == k;
    assert TimeWrites(vs)[t] == Store(TIME_OPS[step], vs[k]);
  }

  lemma TimeExec(cur: Longs, next: Longs, step: nat)
    requires step < 4
    ensures Exec(Store(TIME_OPS[step], next), TimeMem(cur, next, step)) ==
            if step == 3 then Complete(next) else TimeMem(cur, next, step + 1)
  {
    hide Xor;
  }

  lemma TimeMemStart(seed: SeedLoad, v: Longs)
    ensures forall vs :: MemAt(TimePrograms(seed, v, vs), 0) == Complete(v)
    ensures forall next :: TimeMem(v, next, 0) == Complete(v)
  {
  }

  /** Memory after any number of stores: k writes are complete and the next one is at the given step. */
  lemma {:induction false} TimeMemory(seed: SeedLoad, first: Longs, vs: seq<Longs>, k: nat, step: nat)
    requires k <= |vs| && step <= 3 && (step > 0 ==> k < |vs|)
    ensures MemAt(TimePrograms(seed, first, vs), 4 * k + step) ==
            TimeMem(Written(first, vs, k), Written(first, vs, if step > 0 then k + 1 else k), step)
    decreases k, step
  {
    hide Xor, Exec, TimeMem, TimeWrites, TimeLoads, Complete;
    TimeMemStart(seed, Written(first, vs, k));
    if step > 0 {
      TimeMemory(seed, first, vs, k, step - 1);
      TimeStore(seed, first, vs, k, step - 1);
      TimeExec(Written(first, vs, k), vs[k], step - 1);
    } else if k > 0 {
      TimeMemory(seed, first, vs, k - 1, 3);
      TimeStore(seed, first, vs, k - 1, 3);
      TimeExec(Written(first, vs, k - 1), vs[k - 1], 3);
    }
  }

  /** What a load at time t sees, by the writes it comes from. */
  lemma TimeLongs(seed: SeedLoad, first: Longs, vs: seq<Longs>, t: nat)
    requires t <= 4 * |vs|
    ensures (t + 1) / 4 <= (t + 3) / 4 <= |vs|
    ensures MemAt(TimePrograms(seed, first, vs), t).lo == Written(first, vs, (t + 3) / 4).lo
    ensures MemAt(TimePrograms(seed, first, vs), t).hi == Written(first, vs, (t + 1) / 4).hi
  {
    hide Xor;
    var k, step := t / 4, t % 4;
    assert t == 4 * k + step;
    assert (t + 1) / 4 == if step == 3 then k + 1 else k;
    assert (t + 3) / 4 == if step >= 1 then k + 1 else k;
    TimeMemory(seed, first, vs, k, step);
  }

  /** The sum at a step of write k. */
  function TimeSum(first: Longs, vs: seq<Longs>, k: nat, step: nat): Long
    requires k <= |vs| && (step == 1 ==> k >= 1)
  {
    if step == 0 then Xor(Written(first, vs, k).lo, Written(first, vs, k).hi)
    else if step == 1 then Xor(Written(first, vs, k - 1).lo, Written(first, vs, k - 1).hi)
    else Written(first, vs, k).lo
  }

  /** The sum at any time, by the last write begun. */
  lemma TimeSums(seed: SeedLoad, first: Longs, vs: seq<Longs>, t: nat)
    requires t <= 4 * |vs|
    ensures (t + 3) / 4 <= |vs|
    ensures MemAt(TimePrograms(seed, first, vs), t).sum == TimeSum(first, vs, (t + 3) / 4, t % 4)
  {
    hide Xor;
    var k, step := t / 4, t % 4;
    assert t == 4 * k + step;
    assert (t + 3) / 4 == if step >= 1 then k + 1 else k;
    TimeMemory(seed, first, vs, k, step);
  }

  /** GetRetrievalTime's verdict, and the time it copies, from its loads. */
  predicate TimeAccepts(seed: SeedLoad, loaded: seq<Long>) {
    var n := |TimeLoads(seed)|;
    |loaded| == n && Xor(loaded[0], loaded[n - 2]) == loaded[n - 1]
  }

  function TimeValue(seed: SeedLoad, loaded: seq<Long>): Longs
    requires |loaded| == |TimeLoads(seed)|
  {
    Longs(loaded[|loaded| - 3], loaded[|loaded| - 2])
  }

  /** On this schedule, with the sum loaded while no write is midway if idle, an accepted time keeps the promise. */
  ghost predicate TimeKeepsOn(promise: Promise, seed: SeedLoad, idle: bool, first: Longs, vs: seq<Longs>,
                              schedule: seq<Thread>)
  {
    var s := Outcome(TimePrograms(seed, first, vs), schedule);
    TimeAccepts(seed, s.loaded) && (idle ==> LastOr0(s.times) % 4 == 0) ==>
      Keeps(promise, first, vs, TimeValue(seed, s.loaded), s.times[0] / 4, (LastOr0(s.times) + 3) / 4)
  }

  ghost predicate TimeAlwaysKeeps(promise: Promise, seed: SeedLoad, idle: bool, first: Longs, vs: seq<Longs>) {
    forall schedule :: TimeKeepsOn(promise, seed, idle, first, vs, schedule)
  }

  /** The writes that the seed of the sum, the copied low long and the high long can come from, while write k
      is the last one begun: a write stores low before high. */
  predicate TimeSources(seed: SeedLoad, vs: seq<Longs>, i0: nat, i1: nat, j: nat, k: nat) {
    i0 <= i1 <= k <= |vs| && i1 <= j + 1 && j <= k && (seed == Shared ==> i0 == i1)
  }

  /** The check sum cannot tell these longs from a value. */
  predicate TimeMixes(idle: bool, first: Longs, vs: seq<Longs>, i0: nat, j: nat, k: nat)
    requires i0 <= k <= |vs| && j <= k
  {
    var x := Xor(Written(first, vs, i0).lo, Written(first, vs, j).hi);
    || x == Xor(Written(first, vs, k).lo, Written(first, vs, k).hi)
    || (!idle && x == Written(first, vs, k).lo && k >= 1)
    || (!idle && j < k && x == Xor(Written(first, vs, k - 1).lo, Written(first, vs, k - 1).hi))
  }

  function TimeMix(first: Longs, vs: seq<Longs>, i1: nat, j: nat): Longs
    requires i1 <= |vs| && j <= |vs|
  {
    Longs(Written(first, vs, i1).lo, Written(first, vs, j).hi)
  }

  function Earlier(i: nat, j: nat): nat {
    if i < j then i else j
  }

  /** A condition on the written times alone. */
  ghost predicate TimeMixesKeep(promise: Promise, seed: SeedLoad, idle: bool, first: Longs, vs: seq<Longs>) {
    forall i0: nat, i1: nat, j: nat, k: nat ::
      TimeSources(seed, vs, i0, i1, j, k) && TimeMixes(idle, first, vs, i0, j, k) ==>
        Keeps(promise, first, vs, TimeMix(first, vs, i1, j), Earlier(i0, j), k)
  }

  /** Loads at nondecreasing times come from such writes. */
  lemma TimesToSources(seed: SeedLoad, vs: seq<Longs>, t0: nat, t1: nat, t2: nat, t3: nat)
    requires t0 <= t1 <= t2 <= t3 <= 4 * |vs| && (seed == Shared ==> t0 == t1)
    ensures TimeSources(seed, vs, (t0 + 3) / 4, (t1 + 3) / 4, (t2 + 1) / 4, (t3 + 3) / 4)
    ensures t0 / 4 <= Earlier((t0 + 3) / 4, (t2 + 1) / 4)
    ensures t3 % 4 == 1 ==> (t2 + 1) / 4 < (t3 + 3) / 4
  {
  }

  /** If the sum then fits, the check sum cannot tell. */
  lemma TimeLoadsMix(seed: SeedLoad, idle: bool, first: Longs, vs: seq<Longs>, t0: nat, t1: nat, t2: nat, t3: nat)
    requires t0 <= t1 <= t2 <= t3 <= 4 * |vs| && (idle ==> t3 % 4 == 0) && (seed == Shared ==> t0 == t1)
    ensures
      var p, i0, i1, j, k := TimePrograms(seed, first, vs), (t0 + 3) / 4, (t1 + 3) / 4, (t2 + 1) / 4, (t3 + 3) / 4;
      && TimeSources(seed, vs, i0, i1, j, k) && t0 / 4 <= Earlier(i0, j)
      && Longs(MemAt(p, t1).lo, MemAt(p, t2).hi) == TimeMix(first, vs, i1, j)
      && (Xor(MemAt(p, t0).lo, MemAt(p, t2).hi) == MemAt(p, t3).sum ==> TimeMixes(idle, first, vs, i0, j, k))
  {
    hide Xor, MemAt;
    TimesToSources(seed, vs, t0, t1, t2, t3);
    TimeLongs(seed, first, vs, t0);
    TimeLongs(seed, first, vs, t1);
    TimeLongs(seed, first, vs, t2);
    TimeSums(seed, first, vs, t3);
  }

  /** What a finished reader loaded, by the times of its loads. */
  lemma TimeLoaded(seed: SeedLoad, first: Longs, vs: seq<Longs>, schedule: seq<Thread>)
    requires |Outcome(TimePrograms(seed, first, vs), schedule).times| == |TimeLoads(seed)|
    ensures
      var p, n := TimePrograms(seed, first, vs), |TimeLoads(seed)|;
      var s := Outcome(p, schedule);
      var t0, t1, t2, t3 := s.times[0], s.times[n - 3], s.times[n - 2], s.times[n - 1];
      && t0 <= t1 <= t2 <= t3 <= 4 * |vs|
      && s.loaded[0] == MemAt(p, t0).lo && s.loaded[n - 3] == MemAt(p, t1).lo
      && s.loaded[n - 2] == MemAt(p, t2).hi && s.loaded[n - 1] == MemAt(p, t3).sum
  {
    hide Xor, MemAt, Outcome;
    Interleaving(TimePrograms(seed, first, vs), schedule);
  }

  lemma TimeKeepsOnSchedule(promise: Promise, seed: SeedLoad, idle: bool, first: Longs, vs: seq<Longs>,
                            schedule: seq<Thread>)
    requires TimeMixesKeep(promise, seed, idle, first, vs)
    ensures TimeKeepsOn(promise, seed, idle, first, vs, schedule)
  {
    hide Xor, Keeps, TimeMixes, TimeSources, MemAt, Outcome, Earlier;
    var s := Outcome(TimePrograms(seed, first, vs), schedule);
    var n := |s.times|;
    if TimeAccepts(seed, s.loaded) && (idle ==> LastOr0(s.times) % 4 == 0) {
      TimeLoaded(seed, first, vs, schedule);
      var t0, t1, t2, t3 := s.times[0], s.times[n - 3], s.times[n - 2], s.times[n - 1];
      TimeLoadsMix(seed, idle, first, vs, t0, t1, t2, t3);
      var i0, j, k := (t0 + 3) / 4, (t2 + 1) / 4, (t3 + 3) / 4;
      KeepsWider(promise, first, vs, TimeValue(seed, s.loaded), Earlier(i0, j), k, t0 / 4, k);
    }
  }

  /** Times for the seed, the copy, the high long and the sum of a mix that does not keep the promise. */
  function TimeMixTimes(first: Longs, vs: seq<Longs>, i0: nat, i1: nat, j: nat, k: nat): (ts: seq<nat>)
    requires i0 <= i1 <= k <= |vs| && i1 <= j + 1 && j <= k && k >= 1
    ensures |ts| == 4
  {
    var x := Xor(Written(first, vs, i0).lo, Written(first, vs, j).hi);
    var t0, t1 := if i0 <= j then 4 * i0 else 4 * j + 1, if i1 <= j then 4 * i1 else 4 * j + 1;
    var t2 := if i1 <= j then 4 * j else 4 * j + 1;
    if x == Xor(Written(first, vs, k).lo, Written(first, vs, k).hi) then [t0, t1, t2, 4 * k]
    else if j < k then [t0, t1, t2, if x == Written(first, vs, k).lo then 4 * k - 2 else 4 * k - 3]
    else [t0, t1, 4 * k - 1, 4 * k - 1]
  }

  lemma TimeMixTimesSee(seed: SeedLoad, idle: bool, first: Longs, vs: seq<Longs>, i0: nat, i1: nat, j: nat, k: nat)
    requires TimeSources(seed, vs, i0, i1, j, k) && TimeMixes(idle, first, vs, i0, j, k) && !(i1 == j == k)
    ensures
      var ts := TimeMixTimes(first, vs, i0, i1, j, k);
      && ts[0] <= ts[1] <= ts[2] <= ts[3] <= 4 * |vs|
      && (idle ==> ts[3] % 4 == 0) && (seed == Shared ==> ts[0] == ts[1])
      && (ts[0] + 3) / 4 == i0 && (ts[1] + 3) / 4 == i1 && (ts[2] + 1) / 4 == j && (ts[3] + 3) / 4 == k
      && ts[0] / 4 == Earlier(i0, j)
  {
    hide Xor;
  }

  /** The sum at the last of these times is that of the mix. */
  lemma TimeMixSum(seed: SeedLoad, idle: bool, first: Longs, vs: seq<Longs>, i0: nat, i1: nat, j: nat, k: nat)
    requires TimeSources(seed, vs, i0, i1, j, k) && TimeMixes(idle, first, vs, i0, j, k) && k >= 1
    ensures
      var t := TimeMixTimes(first, vs, i0, i1, j, k)[3];
      && t <= 4 * |vs|
      && MemAt(TimePrograms(seed, first, vs), t).sum == Xor(Written(first, vs, i0).lo, Written(first, vs, j).hi)
  {
    hide Xor, MemAt;
    TimeSums(seed, first, vs, TimeMixTimes(first, vs, i0, i1, j, k)[3]);
  }

  /** The memory at these times is that of the mix, and its check sum fits. */
  lemma TimeMixSeen(seed: SeedLoad, idle: bool, first: Longs, vs: seq<Longs>, ts: seq<nat>,
                    i0: nat, i1: nat, j: nat, k: nat)
    requires TimeSources(seed, vs, i0, i1, j, k) && TimeMixes(idle, first, vs, i0, j, k) && !(i1 == j == k)
    requires ts == TimeMixTimes(first, vs, i0, i1, j, k)
    ensures ts[0] <= ts[1] <= ts[2] <= ts[3] <= 4 * |vs|
    ensures
      var p := TimePrograms(seed, first, vs);
      && MemAt(p, ts[0]).lo == Written(first, vs, i0).lo && MemAt(p, ts[1]).lo == Written(first, vs, i1).lo
      && MemAt(p, ts[2]).hi == Written(first, vs, j).hi
      && MemAt(p, ts[3]).sum == Xor(MemAt(p, ts[0]).lo, MemAt(p, ts[2]).hi)
  {
    hide Xor, MemAt, TimeMixes, TimeMixTimes;
    TimeMixTimesSee(seed, idle, first, vs, i0, i1, j, k);
    TimeLongs(seed, first, vs, ts[0]);
    TimeLongs(seed, first, vs, ts[1]);
    TimeLongs(seed, first, vs, ts[2]);
    TimeMixSum(seed, idle, first, vs, i0, i1, j, k);
  }

  /** Longs of the last write begun are no mix. */
  lemma WrittenKeeps(promise: Promise, first: Longs, vs: seq<Longs>, i0: nat, j: nat, k: nat)
    requires j <= k <= |vs|
    ensures Keeps(promise, first, vs, TimeMix(first, vs, k, k), Earlier(i0, j), k)
  {
    KeepsWritten(promise, first, vs, k, Earlier(i0, j), k);
  }

  lemma TimeRealized(seed: SeedLoad, first: Longs, vs: seq<Longs>, ts: seq<nat>) returns (schedule: seq<Thread>)
    requires |ts| == 4 && ts[0] <= ts[1] <= ts[2] <= ts[3] <= 4 * |vs| && (seed == Shared ==> ts[0] == ts[1])
    ensures
      var p, n := TimePrograms(seed, first, vs), |TimeLoads(seed)|;
      var s := Outcome(p, schedule);
      && |s.loaded| == n && s.times[0] == ts[0] && LastOr0(s.times) == ts[3]
      && s.loaded[0] == MemAt(p, ts[0]).lo && s.loaded[n - 3] == MemAt(p, ts[1]).lo
      && s.loaded[n - 2] == MemAt(p, ts[2]).hi && s.loaded[n - 1] == MemAt(p, ts[3]).sum
  {
    hide Xor, MemAt, Outcome, TimeWrites;
    schedule := Realizable(TimePrograms(seed, first, vs), if seed == Shared then ts[1..] else ts);
    TimeLoaded(seed, first, vs, schedule);
  }

  lemma TimeMixHappens(promise: Promise, seed: SeedLoad, idle: bool, first: Longs, vs: seq<Longs>,
                       i0: nat, i1: nat, j: nat, k: nat) returns (schedule: seq<Thread>)
    requires TimeSources(seed, vs, i0, i1, j, k) && TimeMixes(idle, first, vs, i0, j, k)
    requires !Keeps(promise, first, vs, TimeMix(first, vs, i1, j), Earlier(i0, j), k)
    ensures !TimeKeepsOn(promise, seed, idle, first, vs, schedule)
  {
    hide Xor, Keeps, MemAt, TimeMixes, TimeMixTimes, Outcome, TimePrograms, Earlier;
    WrittenKeeps(promise, first, vs, i0, j, k);
    assert !(i1 == j == k);
    var ts := TimeMixTimes(first, vs, i0, i1, j, k);
    TimeMixTimesSee(seed, idle, first, vs, i0, i1, j, k);
    TimeMixSeen(seed, idle, first, vs, ts, i0, i1, j, k);
    schedule := TimeRealized(seed, first, vs, ts);
  }

  /** Exactly when, over every schedule of any number of writes, an accepted time keeps the promise. */
  lemma ManyTimesExactly(promise: Promise, seed: SeedLoad, idle: bool, first: Longs, vs: seq<Longs>)
    ensures TimeAlwaysKeeps(promise, seed, idle, first, vs) <==> TimeMixesKeep(promise, seed, idle, first, vs)
  {
    hide Xor, Keeps, TimeMixes, TimeKeepsOn;
    if TimeMixesKeep(promise, seed, idle, first, vs) {
      forall schedule ensures TimeKeepsOn(promise, seed, idle, first, vs, schedule) {
        TimeKeepsOnSchedule(promise, seed, idle, first, vs, schedule);
      }
    } else {
      var i0: nat, i1: nat, j: nat, k: nat :|
        TimeSources(seed, vs, i0, i1, j, k) && TimeMixes(idle, first, vs, i0, j, k) &&
        !Keeps(promise, first, vs, TimeMix(first, vs, i1, j), Earlier(i0, j), k);
      var schedule := TimeMixHappens(promise, seed, idle, first, vs, i0, i1, j, k);
    }
  }

  /** Times that agree in their high long, such as those of the first 49 days, are never mixed up, not even
      with two loads of the low long. */
  lemma SameHighTimesNeverTear(promise: Promise, seed: SeedLoad, idle: bool, first: Longs, vs: seq<Longs>)
    requires forall v :: v in vs ==> v.hi == first.hi
    ensures TimeAlwaysKeeps(promise, seed, idle, first, vs)
  {
    hide Xor, Keeps, TimeMixes, TimeAlwaysKeeps;
    forall i0: nat, i1: nat, j: nat, k: nat
      | TimeSources(seed, vs, i0, i1, j, k) && TimeMixes(idle, first, vs, i0, j, k)
      ensures Keeps(promise, first, vs, TimeMix(first, vs, i1, j), Earlier(i0, j), k)
    {
      KeepsWritten(promise, first, vs, i1, Earlier(i0, j), k);
      assert TimeMix(first, vs, i1, j) == Written(first, vs, i1);
    }
    ManyTimesExactly(promise, seed, idle, first, vs);
  }

  // ---- Retrieval time: one write ----

  /** Which time b may follow a time a. */
  predicate TimeSafe(seed: SeedLoad, idle: bool, a: Longs, b: Longs) {
    || a.lo == b.lo || a.hi == b.hi
    || (match (seed, idle)
        case (Shared, true) => true
        case (Shared, false) => a.hi != ZERO && Xor(a.lo, b.hi) != b.lo
        case (Separate, true) => Xor(a.lo, a.hi) != Xor(b.lo, b.hi)
        case (Separate, false) => false)
  }

  lemma TimeSafeMixesKeep(promise: Promise, seed: SeedLoad, idle: bool, a: Longs, b: Longs)
    requires TimeSafe(seed, idle, a, b)
    ensures TimeMixesKeep(promise, seed, idle, a, [b])
  {
    hide Xor;
    XorLaws(a.lo, b.hi, b.lo);
    XorLaws(a.lo, a.hi, b.lo);
    XorLaws(a.hi, b.lo, b.hi);
    XorLaws(b.hi, b.lo, a.hi);
    assert Written(a, [b], 0) == a && Written(a, [b], 1) == b;
    forall i0: nat, i1: nat, j: nat, k: nat | TimeSources(seed, [b], i0, i1, j, k) && TimeMixes(idle, a, [b], i0, j, k)
      ensures Keeps(promise, a, [b], TimeMix(a, [b], i1, j), Earlier(i0, j), k)
    {
    }
  }

  lemma TimeUnsafeMix(promise: Promise, seed: SeedLoad, idle: bool, a: Longs, b: Longs)
    requires !TimeSafe(seed, idle, a, b)
    ensures !TimeMixesKeep(promise, seed, idle, a, [b])
  {
    hide Xor;
    XorLaws(ZERO, b.lo, ZERO);
    assert Written(a, [b], 0) == a && Written(a, [b], 1) == b;
    var i0, i1, j :=
      if seed == Separate then 0 else if a.hi == ZERO then 1 else 0,
      if seed == Separate || a.hi == ZERO then 1 else 0,
      if seed == Separate || a.hi == ZERO then 0 else 1;
    assert TimeSources(seed, [b], i0, i1, j, 1) && TimeMixes(idle, a, [b], i0, j, 1);
    assert !Keeps(promise, a, [b], TimeMix(a, [b], i1, j), Earlier(i0, j), 1);
  }

  /** Exactly when a retrieval time a may be overwritten by b, with no other write. With one load of the low long
      an accepted time is then whole if the sum is compared while the write is not midway; with two loads not
      even then. */
  lemma TimeExactly(promise: Promise, seed: SeedLoad, idle: bool, a: Longs, b: Longs)
    ensures TimeAlwaysKeeps(promise, seed, idle, a, [b]) <==> TimeSafe(seed, idle, a, b)
  {
    hide Xor, TimeSafe, TimeAlwaysKeeps, TimeMixesKeep;
    ManyTimesExactly(promise, seed, idle, a, [b]);
    if TimeSafe(seed, idle, a, b) {
      TimeSafeMixesKeep(promise, seed, idle, a, b);
    } else {
      TimeUnsafeMix(promise, seed, idle, a, b);
    }
  }

  /** Sum, low and high long taken from a or b, with a check sum that fits b. */
  lemma SafeMix(seed: SeedLoad, a: Longs, b: Longs, x: Longs, y: Longs, z: Longs)
    requires TimeSafe(seed, true, a, b) && (x == a || x == b) && (y == a || y == b) && (z == a || z == b)
    requires x == y || (seed == Separate && x == a && y == b)
    requires Xor(x.lo, z.hi) == Xor(b.lo, b.hi)
    ensures Longs(y.lo, z.hi) == a || Longs(y.lo, z.hi) == b
  {
    hide Xor;
    XorLaws(a.lo, b.hi, b.lo);
    XorLaws(a.hi, b.lo, b.hi);
    XorLaws(b.hi, b.lo, a.hi);
  }

  /** Torn-read safety of the time: over all schedules of any number of writes, if the sum is loaded while no
      write is midway and at most one write overlaps the reading, an accepted time is the whole time from before
      or from after that write; with two loads of the low long only if the check sums of these two differ, or
      one of their longs does not. */
  lemma TimeReadIsWhole(seed: SeedLoad, first: Longs, vs: seq<Longs>, schedule: seq<Thread>)
    requires
      var s := Outcome(TimePrograms(seed, first, vs), schedule);
      TimeAccepts(seed, s.loaded) && LastOr0(s.times) % 4 == 0 && LastOr0(s.times) / 4 <= s.times[0] / 4 + 1
    ensures
      var s := Outcome(TimePrograms(seed, first, vs), schedule);
      var before, after := s.times[0] / 4, LastOr0(s.times) / 4;
      && before <= after <= |vs|
      && var a, b, v := Written(first, vs, before), Written(first, vs, after), TimeValue(seed, s.loaded);
         TimeSafe(seed, true, a, b) ==> v == a || v == b
  {
    hide Xor, MemAt, Outcome, TimeSafe;
    var s := Outcome(TimePrograms(seed, first, vs), schedule);
    var n := |s.times|;
    TimeLoaded(seed, first, vs, schedule);
    var t0, t1, t2, t3 := s.times[0], s.times[n - 3], s.times[n - 2], s.times[n - 1];
    TimeLoadsMix(seed, true, first, vs, t0, t1, t2, t3);
    assert seed == Shared ==> t0 == t1;
    var i0, i1, j := (t0 + 3) / 4, (t1 + 3) / 4, (t2 + 1) / 4;
    var a, b := Written(first, vs, t0 / 4), Written(first, vs, t3 / 4);
    if TimeSafe(seed, true, a, b) {
      SafeMix(seed, a, b, Written(first, vs, i0), Written(first, vs, i1), Written(first, vs, j));
    }
  }

  /** With two overlapping writes the time may be none of the three, even if the low long is loaded once. */
  lemma TwoTimesTear(seed: SeedLoad) returns (first: Longs, vs: seq<Longs>, schedule: seq<Thread>)
    ensures
      var s := Outcome(TimePrograms(seed, first, vs), schedule);
      && TimeAccepts(seed, s.loaded) && LastOr0(s.times) == 8 && s.times[0] == 0 && |vs| == 2
      && TimeValue(seed, s.loaded) != first && TimeValue(seed, s.loaded) !in vs
  {
    hide Outcome, MemAt;
    first, vs := Longs(Long(1), ZERO), [Longs(ZERO, Long(2)), Longs(ZERO, Long(3))];
    assert Xor(Long(1), Long(2)) == Long(3) == Xor(ZERO, Long(3));
    schedule := Realizable(TimePrograms(seed, first, vs), if seed == Shared then [0, 4, 8] else [0, 0, 4, 8]);
    TimeLoaded(seed, first, vs, schedule);
    TimeLongs(seed, first, vs, 0);
    TimeLongs(seed, first, vs, 4);
    TimeSums(seed, first, vs, 8);
  }
}
