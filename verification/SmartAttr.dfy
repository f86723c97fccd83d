/** One attribute's raw value and retrieval time, stored long by long with their check sums, in a build whose
    "long int" has 4 bytes. Each method also yields the record of its stores or loads: they are those of the
    programs of ChecksumProtocol, in the same order, here performed by one thread alone. */
module SmartAttr {
  import opened LockFreeWords
  import opened ChecksumProtocol

  /** s_numTimesLongIntFitsInto8Bytes */
  const LONGS_PER_VALUE := 2

  /** The i-th long of a 64-bit value. */
  function Part(v: bv64, i: nat): Long
    requires i < LONGS_PER_VALUE
  {
    if i == 0 then Split(v).lo else Split(v).hi
  }

  /** Memory after some stores by one thread. */
  function ExecAll(m: Memory, stores: seq<Store>): Memory {
    if stores == [] then m else Exec(stores[|stores| - 1], ExecAll(m, stores[..|stores| - 1]))
  }

  /** The record of stores after one more, which left the memory now. */
  function Recorded(start: Memory, stores: seq<Store>, s: Store, now: Memory): (r: seq<Store>)
    requires now == Exec(s, ExecAll(start, stores))
    ensures r == stores + [s] && ExecAll(start, r) == now
  {
    assert (stores + [s])[..|stores|] == stores;
    stores + [s]
  }

  class SMARTattr {
    const rawValue: array<Long>      // m_rawValue
    var rawValueCheckSum: Long
    const timeStamp: array<Long>     // m_timeStampOfRetrieval, as its longs
    var timeCheckSum: Long

    ghost predicate Valid() {
      rawValue.Length >= LONGS_PER_VALUE && timeStamp.Length == LONGS_PER_VALUE && rawValue != timeStamp
    }

    /** The words setRawVal writes. */
    ghost function RawCells(): Memory
      requires Valid()
      reads this, rawValue
    {
      Memory(rawValue[0], rawValue[1], rawValueCheckSum)
    }

    /** The words SetRetrievalTime writes. */
    ghost function TimeCells(): Memory
      requires Valid()
      reads this, timeStamp
    {
      Memory(timeStamp[0], timeStamp[1], timeCheckSum)
    }

    /** setRawVal; stores are the stores it makes, in order. */
    method SetRawVal(v: bv64) returns (ghost stores: seq<Store>)
      requires Valid()
      modifies this`rawValueCheckSum, rawValue
      ensures RawCells() == Complete(Split(v))
      ensures stores == RawWrites([Split(v)]) && RawCells() == ExecAll(old(RawCells()), stores)
    {
      rawValueCheckSum := ZERO;
      stores := [Store(ClearSum, Split(v))];
      for i := 0 to LONGS_PER_VALUE
        invariant i >= 1 ==> rawValue[0] == Split(v).lo
        invariant i >= 2 ==> rawValue[1] == Split(v).hi
        invariant rawValueCheckSum ==
                  if i == 0 then ZERO else if i == 1 then Split(v).lo else Xor(Split(v).lo, Split(v).hi)
        invariant |stores| == 1 + 2 * i && forall k :: 0 <= k < |stores| ==> stores[k] == Store(RAW_OPS[k], Split(v))
        invariant RawCells() == ExecAll(old(RawCells()), stores)
      {
        hide Xor, Split;
        var part := Part(v, i);
        XorLaws(ZERO, part, ZERO);
        rawValue[i] := part;
        stores := Recorded(old(RawCells()), stores, Store(if i == 0 then StoreLo else StoreHi, Split(v)), RawCells());
        rawValueCheckSum := Xor(rawValueCheckSum, part);
        stores := Recorded(old(RawCells()), stores, Store(if i == 0 then XorLo else XorHi, Split(v)), RawCells());
      }
      assert stores == RawWrites([Split(v)]);
    }

    /** IsConsistent: the verdict, and the value joined from its longs, high before low; loads are the loads it
        makes, in order. */
    method IsConsistent() returns (ok: bool, v: bv64, ghost loads: seq<ReadOp>)
      requires Valid()
      ensures loads == RAW_LOADS
      ensures ok <==> Xor(RawCells().hi, RawCells().lo) == RawCells().sum
      ensures v == Join(Longs(RawCells().lo, RawCells().hi))
    {
      hide Xor, Wide, Join;
      var sum := ZERO;
      v, loads := 0, [];
      var i := LONGS_PER_VALUE - 1;
      while i > -1
        invariant -1 <= i <= 1
        invariant sum == if i == 1 then ZERO else if i == 0 then rawValue[1] else Xor(rawValue[1], rawValue[0])
        invariant v == if i == 1 then 0
                       else if i == 0 then Join(Longs(ZERO, rawValue[1]))
                       else Join(Longs(rawValue[0], rawValue[1]))
        invariant loads == RAW_LOADS[..1 - i]
      {
        var part := rawValue[i];
        loads := loads + [if i == 1 then LoadHi else LoadLo];
        XorLaws(ZERO, part, ZERO);
        JoinHigh(part);
        JoinLow(part, rawValue[1]);
        sum := Xor(sum, part);
        v := v | Wide(part);
        v := if i == 1 then v << 32 else v << 0;
        i := i - 1;
      }
      ok, loads := sum == rawValueCheckSum, loads + [LoadSum];
    }

    static lemma JoinHigh(part: Long)
      ensures (0 | Wide(part)) << 32 == Join(Longs(ZERO, part))
    {
      WideZero();
      hide Wide;
      ShiftHigh(Wide(part));
    }

    static lemma JoinLow(part: Long, hi: Long)
      ensures (Join(Longs(ZERO, hi)) | Wide(part)) << 0 == Join(Longs(part, hi))
    {
      WideZero();
      hide Wide;
      OrLow(Wide(hi), Wide(part));
    }

    static lemma WideZero()
      ensures Wide(ZERO) == 0
    {
    }

    static lemma ShiftHigh(p: bv64)
      ensures (0 | p) << 32 == (p << 32) | 0
    {
    }

    static lemma OrLow(hi: bv64, p: bv64)
      ensures (((hi << 32) | 0) | p) << 0 == (hi << 32) | p
    {
    }

    /** SetRetrievalTime, from the uptime in milliseconds on; stores are the stores it makes, in order. */
    method SetRetrievalTime(uptimeInMs: bv64) returns (ghost stores: seq<Store>)
      requires Valid()
      modifies this`timeCheckSum, timeStamp
      ensures TimeCells() == Complete(Split(uptimeInMs))
      ensures stores == TimeWrites([Split(uptimeInMs)]) && TimeCells() == ExecAll(old(TimeCells()), stores)
    {
      hide Xor, Split;
      ghost var before, v := TimeCells(), Split(uptimeInMs);
      timeStamp[0] := Part(uptimeInMs, 0);
      stores := Recorded(before, [], Store(StoreLo, v), TimeCells());
      timeCheckSum := Part(uptimeInMs, 0);
      stores := Recorded(before, stores, Store(SumIsLo, v), TimeCells());
      for i := 1 to LONGS_PER_VALUE
        invariant timeStamp[0] == Split(uptimeInMs).lo
        invariant i == 2 ==> timeStamp[1] == Split(uptimeInMs).hi
        invariant timeCheckSum ==
                  if i == 1 then Split(uptimeInMs).lo else Xor(Split(uptimeInMs).lo, Split(uptimeInMs).hi)
        invariant |stores| == 2 * i && forall k :: 0 <= k < |stores| ==> stores[k] == Store(TIME_OPS[k], v)
        invariant TimeCells() == ExecAll(before, stores)
      {
        var part := Part(uptimeInMs, i);
        timeStamp[i] := part;
        stores := Recorded(before, stores, Store(StoreHi, v), TimeCells());
        timeCheckSum := Xor(timeCheckSum, part);
        stores := Recorded(before, stores, Store(XorHi, v), TimeCells());
      }
      assert stores == TimeWrites([v]);
    }

    /** GetRetrievalTime: the verdict, and the time copied long by long; loads are the loads it makes, in order,
        if the low long is loaded once for each use. */
    method GetRetrievalTime() returns (ok: bool, uptimeInMs: bv64, ghost loads: seq<ReadOp>)
      requires Valid()
      ensures ok <==> Xor(TimeCells().lo, TimeCells().hi) == TimeCells().sum
      ensures uptimeInMs == Join(Longs(TimeCells().lo, TimeCells().hi))
      ensures loads == TimeLoads(Separate)
    {
      var sum := timeStamp[0];
      var parts := Longs(timeStamp[0], ZERO);
      loads := [LoadLo, LoadLo];
      for i := 1 to LONGS_PER_VALUE
        invariant i == 1 ==> sum == timeStamp[0] && parts == Longs(timeStamp[0], ZERO)
        invariant i == 2 ==> sum == Xor(timeStamp[0], timeStamp[1]) && parts == Longs(timeStamp[0], timeStamp[1])
        invariant loads == if i == 1 then [LoadLo, LoadLo] else [LoadLo, LoadLo, LoadHi]
      {
        hide Xor;
        parts := parts.(hi := timeStamp[i]);
        loads := loads + [LoadHi];
        sum := Xor(sum, timeStamp[i]);
      }
      uptimeInMs := Join(parts);
      ok, loads := sum == timeCheckSum, loads + [LoadSum];
    }
  }

  /** Sequential round trip: over every 64-bit value, what a completed write leaves is accepted, in either
      order of loading, and read back as that value. */
  lemma CompleteReadsBack(v: bv64)
    ensures
      var m := Complete(Split(v));
      && Xor(m.hi, m.lo) == m.sum && Xor(m.lo, m.hi) == m.sum
      && Join(Longs(m.lo, m.hi)) == v
  {
    hide Xor, Split, Join;
    XorLaws(Split(v).lo, Split(v).hi, ZERO);
    JoinSplit(v);
  }

  /** The steps of the two writers, taken without a reader in between, leave what the methods leave. */
  lemma WriterAlone(first: Longs, v: Longs, seed: SeedLoad)
    ensures MemAt(RawPrograms(first, [v]), 5) == Complete(v)
    ensures MemAt(TimePrograms(seed, first, [v]), 4) == Complete(v)
  {
    hide Xor, MemAt;
    RawMemory(first, [v], 1, 0);
    TimeMemory(seed, first, [v], 1, 0);
  }
}
