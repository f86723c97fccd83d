/** Two threads on shared machine words in a build whose "long int" has 4 bytes: a writer that stores 64-bit
    values long by long while keeping an XOR check sum, and a reader that loads the longs and the check sum.
    Every single load and store is one atomic step; a schedule says which thread takes each step.
    A load at "time" t sees the memory after t stores. Interleaving and Realizable reduce everything that can
    happen over all schedules to loads at nondecreasing times. */
module LockFreeWords {

  /** A "long int" of 4 bytes. */
  datatype Long = Long(bits: bv32)

  const ZERO: Long := Long(0)

  function Xor(x: Long, y: Long): Long {
    Long(x.bits ^ y.bits)
  }

  lemma XorBits(x: bv32, y: bv32)
    ensures x ^ y == y ^ x && 0 ^ y == y && y ^ y == 0
  {
  }

  lemma XorBitsCancel(x: bv32, y: bv32, z: bv32)
    requires x ^ y == z ^ y
    ensures x == z
  {
  }

  lemma XorBasics(x: Long, y: Long)
    ensures Xor(x, y) == Xor(y, x) && Xor(ZERO, y) == y && Xor(y, y) == ZERO
  {
    XorBits(x.bits, y.bits);
  }

  lemma XorCancels(x: Long, y: Long, z: Long)
    requires Xor(x, y) == Xor(z, y)
    ensures x == z
  {
    XorBitsCancel(x.bits, y.bits, z.bits);
  }

  /** All that the protocols need to know about exclusive or. */
  lemma XorLaws(x: Long, y: Long, z: Long)
    ensures Xor(x, y) == Xor(y, x)
    ensures Xor(ZERO, y) == y && Xor(y, y) == ZERO
    ensures Xor(x, y) == Xor(z, y) ==> x == z
    ensures Xor(x, y) == y ==> x == ZERO
    ensures Xor(x, y) == ZERO ==> x == y
  {
    hide Xor;
    XorBasics(x, y);
    if Xor(x, y) == Xor(z, y) { XorCancels(x, y, z); }
    if Xor(x, y) == y { XorCancels(x, y, ZERO); }
    if Xor(x, y) == ZERO { XorCancels(x, y, y); }
  }

  /** A 64-bit value as its low and its high long. */
  datatype Longs = Longs(lo: Long, hi: Long)

  function LowLong(v: bv64): Long {
    Long((v & 0xFFFF_FFFF) as bv32)
  }

  function Split(v: bv64): Longs {
    Longs(LowLong(v), LowLong(v >> 32))
  }

  /** A long widened to 64 bits. */
  function Wide(x: Long): bv64 {
    x.bits as bv64
  }

  function Join(p: Longs): bv64 {
    (Wide(p.hi) << 32) | Wide(p.lo)
  }

  lemma LowLongIsMask(v: bv64)
    ensures Wide(LowLong(v)) == v & 0xFFFF_FFFF
  {
  }

  lemma HalvesMakeWhole(v: bv64)
    ensures (((v >> 32) & 0xFFFF_FFFF) << 32) | (v & 0xFFFF_FFFF) == v
  {
  }

  /** Nothing is lost by storing a value long by long. */
  lemma JoinSplit(v: bv64)
    ensures Join(Split(v)) == v
  {
    hide Wide, LowLong;
    LowLongIsMask(v);
    LowLongIsMask(v >> 32);
    HalvesMakeWhole(v);
  }

  datatype Memory = Memory(lo: Long, hi: Long, sum: Long)

  /** The memory after a completed write. */
  function Complete(v: Longs): Memory {
    Memory(v.lo, v.hi, Xor(v.lo, v.hi))
  }

  datatype WriteOp = ClearSum | StoreLo | StoreHi | SumIsLo | XorLo | XorHi

  /** One step of a write of the value v. */
  datatype Store = Store(op: WriteOp, v: Longs)

  function Exec(s: Store, m: Memory): Memory {
    match s.op
    case ClearSum => m.(sum := ZERO)
    case StoreLo => m.(lo := s.v.lo)
    case StoreHi => m.(hi := s.v.hi)
    case SumIsLo => m.(sum := s.v.lo)
    case XorLo => m.(sum := Xor(m.sum, s.v.lo))
    case XorHi => m.(sum := Xor(m.sum, s.v.hi))
  }

  datatype ReadOp = LoadLo | LoadHi | LoadSum

  function Load(op: ReadOp, m: Memory): Long {
    match op case LoadLo => m.lo case LoadHi => m.hi case LoadSum => m.sum
  }

  /** The value in memory at the start, the writer's stores and the reader's loads. */
  datatype Programs = Programs(first: Longs, stores: seq<Store>, loads: seq<ReadOp>)

  datatype Thread = Writer | Reader

  /** times records, for each load, how many stores came before it. */
  datatype System = System(mem: Memory, stored: nat, loaded: seq<Long>, times: seq<nat>)

  function Start(p: Programs): System {
    System(Complete(p.first), 0, [], [])
  }

  function Step(p: Programs, s: System, thread: Thread): System {
    match thread
    case Writer =>
      if s.stored < |p.stores| then s.(mem := Exec(p.stores[s.stored], s.mem), stored := s.stored + 1) else s
    case Reader =>
      if |s.loaded| < |p.loads| then
        s.(loaded := s.loaded + [Load(p.loads[|s.loaded|], s.mem)], times := s.times + [s.stored])
      else s
  }

  function Run(p: Programs, s: System, schedule: seq<Thread>): System {
    if schedule == [] then s
    else Step(p, Run(p, s, schedule[..|schedule| - 1]), schedule[|schedule| - 1])
  }

  /** The system after a schedule; every load has its time. */
  function Outcome(p: Programs, schedule: seq<Thread>): (s: System)
    ensures |s.times| == |s.loaded|
  {
    LoadsHaveTimes(p, schedule);
    Run(p, Start(p), schedule)
  }

  lemma {:induction false} LoadsHaveTimes(p: Programs, schedule: seq<Thread>)
    ensures |Run(p, Start(p), schedule).times| == |Run(p, Start(p), schedule).loaded|
  {
    hide Xor;
    if schedule != [] {
      LoadsHaveTimes(p, schedule[..|schedule| - 1]);
    }
  }

  /** The memory after t stores by the writer alone. */
  function MemAt(p: Programs, t: nat): Memory
    requires t <= |p.stores|
  {
    if t == 0 then Complete(p.first) else Exec(p.stores[t - 1], MemAt(p, t - 1))
  }

  ghost predicate Nondecreasing(ts: seq<nat>) {
    forall i, j :: 0 <= i < j < |ts| ==> ts[i] <= ts[j]
  }

  /** Loading at nondecreasing times ts gives the values loaded. */
  ghost predicate LoadsAt(p: Programs, ts: seq<nat>, loaded: seq<Long>) {
    && |ts| == |loaded| <= |p.loads|
    && Nondecreasing(ts)
    && (forall i :: 0 <= i < |ts| ==> ts[i] <= |p.stores| && loaded[i] == Load(p.loads[i], MemAt(p, ts[i])))
  }

  /** What every schedule keeps. */
  ghost predicate Consistent(p: Programs, s: System) {
    && s.stored <= |p.stores| && s.mem == MemAt(p, s.stored)
    && LoadsAt(p, s.times, s.loaded)
    && forall i :: 0 <= i < |s.times| ==> s.times[i] <= s.stored
  }

  lemma StoreKeeps(p: Programs, s: System)
    requires Consistent(p, s) && s.stored < |p.stores|
    ensures Consistent(p, Step(p, s, Writer))
  {
    hide Xor;
  }

  lemma LoadKeeps(p: Programs, s: System)
    requires Consistent(p, s) && |s.loaded| < |p.loads|
    ensures Consistent(p, Step(p, s, Reader))
  {
    hide Xor;
    var s' := Step(p, s, Reader);
    forall i | 0 <= i < |s'.times| ensures s'.loaded[i] == Load(p.loads[i], MemAt(p, s'.times[i])) {
    }
  }

  /** Over every schedule the reader's loads are loads at nondecreasing times. */
  lemma {:induction false} Interleaving(p: Programs, schedule: seq<Thread>)
    ensures Consistent(p, Outcome(p, schedule))
  {
    hide Xor;
    if schedule != [] {
      var s := Run(p, Start(p), schedule[..|schedule| - 1]);
      Interleaving(p, schedule[..|schedule| - 1]);
      match schedule[|schedule| - 1]
      case Writer => if s.stored < |p.stores| { StoreKeeps(p, s); }
      case Reader => if |s.loaded| < |p.loads| { LoadKeeps(p, s); }
    }
  }

  lemma {:induction false} RunAppend(p: Programs, s: System, a: seq<Thread>, b: seq<Thread>)
    ensures Run(p, s, a + b) == Run(p, Run(p, s, a), b)
  {
    hide Xor;
    if b == [] {
      assert a + b == a;
    } else {
      assert (a + b)[..|a + b| - 1] == a + b[..|b| - 1];
      RunAppend(p, s, a, b[..|b| - 1]);
    }
  }

  function Writes(n: nat): seq<Thread> {
    seq(n, _ => Writer)
  }

  lemma {:induction false} WriterRuns(p: Programs, s: System, n: nat)
    requires s.stored + n <= |p.stores| && s.mem == MemAt(p, s.stored)
    ensures Run(p, s, Writes(n)) == s.(mem := MemAt(p, s.stored + n), stored := s.stored + n)
  {
    hide Xor;
    if n > 0 {
      assert Writes(n)[..n - 1] == Writes(n - 1);
      WriterRuns(p, s, n - 1);
    }
  }

  function LastOr0(ts: seq<nat>): nat {
    if ts == [] then 0 else ts[|ts| - 1]
  }

  /** Conversely, loads at any nondecreasing times do happen on some schedule. */
  lemma {:induction false} Realizable(p: Programs, ts: seq<nat>) returns (schedule: seq<Thread>)
    requires Nondecreasing(ts) && |ts| <= |p.loads| && forall i :: 0 <= i < |ts| ==> ts[i] <= |p.stores|
    ensures Outcome(p, schedule).times == ts && Outcome(p, schedule).stored == LastOr0(ts)
    ensures LoadsAt(p, ts, Outcome(p, schedule).loaded)
  {
    hide Xor;
    if ts == [] {
      schedule := [];
    } else {
      var before, t := ts[..|ts| - 1], ts[|ts| - 1];
      schedule := Realizable(p, before);
      schedule := OneMoreLoad(p, schedule, t);
      assert ts == before + [t];
    }
    Interleaving(p, schedule);
  }

  lemma OneMoreLoad(p: Programs, schedule: seq<Thread>, t: nat) returns (longer: seq<Thread>)
    requires Outcome(p, schedule).stored <= t <= |p.stores|
    requires |Outcome(p, schedule).times| < |p.loads|
    ensures Outcome(p, longer).times == Outcome(p, schedule).times + [t]
    ensures Outcome(p, longer).stored == t
  {
    hide Xor;
    Interleaving(p, schedule);
    var s, n := Outcome(p, schedule), t - Outcome(p, schedule).stored;
    RunAppend(p, Start(p), schedule, Writes(n));
    WriterRuns(p, s, n);
    longer := schedule + Writes(n) + [Reader];
    assert longer[..|longer| - 1] == schedule + Writes(n);
    var s' := Run(p, Start(p), schedule + Writes(n));
    assert Run(p, Start(p), longer) == Step(p, s', Reader);
  }
}
