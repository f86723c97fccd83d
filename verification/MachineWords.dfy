/** Machine integers of the modelled program: uint64_t, and a signed "long int" of 4 or of 8 bytes.
    A long is kept as the mathematical integer it stands for. */
module MachineWords {

  const TWO_TO_64: int := 0x1_0000_0000_0000_0000

  /** uint64_t */
  type Word64 = w: int | 0 <= w < TWO_TO_64 witness 0

  /** Weight of the most significant bit of "long int": 2^31 (4-byte long) or 2^63 (8-byte long). */
  type TopBit = h: int | h == 0x8000_0000 || h == 0x8000_0000_0000_0000 witness 0x8000_0000

  /** uint64_t subtraction wraps around. */
  function Sub64(a: Word64, b: Word64): Word64 {
    if a >= b then a - b else a - b + TWO_TO_64
  }

  /** Conversion to a long whose top bit weighs h, two's complement. */
  function ToLong(h: TopBit, x: int): int {
    var r := if h == 0x8000_0000 then x % 0x1_0000_0000 else x % TWO_TO_64;
    if r < h then r else r - 2 * h
  }

  predicate IsLong(h: TopBit, v: int) {
    0 <= v + h && v < h
  }

  /** C division truncates toward zero; the divisor here is always 2. */
  function HalfTowardZero(x: int): int {
    if x >= 0 then x / 2 else -((-x) / 2)
  }

  /** setGreaterBit: the top bit marks "the real value is greater than this". */
  function SetGreaterBit(h: TopBit, v: int): int {
    if v >= 0 then v - h else v
  }

  predicate HasGreaterBit(v: int) {
    v < 0
  }

  /** GetUnMaskedValue: the value without its top bit. */
  function Unmasked(h: TopBit, v: int): int {
    if v < 0 then v + h else v
  }

  function Min(a: int, b: int): int {
    if a < b then a else b
  }

  lemma ToLongIsLong(h: TopBit, x: int)
    ensures IsLong(h, ToLong(h, x))
  {
  }

  /** Differences and longs agree with what they stand for up to wrap-around. */
  lemma WrapsAround(a: Word64, b: Word64, x: int)
    ensures Sub64(a, b) == (a - b) % TWO_TO_64
    ensures ToLong(0x8000_0000, x) % 0x1_0000_0000 == x % 0x1_0000_0000
    ensures ToLong(0x8000_0000_0000_0000, x) % TWO_TO_64 == x % TWO_TO_64
  {
  }

  /** A long holds x itself, or x one wrap-around away, when these fit. */
  lemma ToLongNear(h: TopBit, x: int)
    ensures IsLong(h, x) ==> ToLong(h, x) == x
    ensures IsLong(h, x - 2 * h) ==> ToLong(h, x) == x - 2 * h
    ensures IsLong(h, x + 2 * h) ==> ToLong(h, x) == x + 2 * h
  {
    if h == 0x8000_0000 {
    } else {
    }
  }

  /** A long keeps a value that fits and changes one that does not. */
  lemma ToLongFits(h: TopBit, x: int)
    requires 0 <= x < TWO_TO_64
    ensures IsLong(h, ToLong(h, x))
    ensures x < h ==> ToLong(h, x) == x
    ensures x >= h ==> ToLong(h, x) <= x - 2 * h || ToLong(h, x) < h <= x
  {
  }

  /** The marker is set, and the value under it kept; a nonnegative long is not marked by itself. */
  lemma MarkedLong(h: TopBit, v: int)
    requires IsLong(h, v)
    ensures HasGreaterBit(SetGreaterBit(h, v)) && IsLong(h, SetGreaterBit(h, v))
    ensures Unmasked(h, SetGreaterBit(h, v)) == Unmasked(h, v)
    ensures v >= 0 ==> Unmasked(h, v) == v && !HasGreaterBit(v)
    ensures v < 0 ==> SetGreaterBit(h, v) == v
  {
  }

  /** Whatever a truncation to long did, the unmasked value never exceeds the true value. */
  lemma UnmaskedIsAtMost(h: TopBit, x: int)
    requires 0 <= x < TWO_TO_64
    ensures 0 <= Unmasked(h, SetGreaterBit(h, ToLong(h, x))) <= x
    ensures HasGreaterBit(SetGreaterBit(h, ToLong(h, x)))
    ensures HasGreaterBit(ToLong(h, x)) ==> h <= x && 0 <= Unmasked(h, ToLong(h, x)) <= x - h
  {
    if h == 0x8000_0000 {
    } else {
    }
  }
}
