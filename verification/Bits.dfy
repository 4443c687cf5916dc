/** Bitwise operations on unbounded integers in two's complement, as SmallInteger
    bitAnd:, bitOr: and bitXor: define them, and the facts about powers of two that
    the digit code relies on.
 */
module Bits {

  datatype Op = BitAnd | BitOr | BitXor

  function OnBools(op: Op, p: bool, q: bool): bool {
    match op
    case BitAnd => p && q
    case BitOr => p || q
    case BitXor => p != q
  }

  function Pow2(n: nat): (p: int)
    ensures p >= 1
  {
    if n == 0 then 1 else 2 * Pow2(n - 1)
  }

  /** The number of steps after which repeated halving of x reaches 0 or -1 is bounded by this. */
  function Magnitude(x: int): nat {
    if x >= 0 then x else -1 - x
  }

  /** Bit k of the infinite two's-complement expansion of x. */
  predicate Bit(x: int, k: nat)
    decreases k
  {
    if k == 0 then x % 2 == 1 else Bit(x / 2, k - 1)
  }

  /** op applied to every pair of bits of the two infinite expansions. */
  function Perform(op: Op, x: int, y: int): int
    decreases Magnitude(x) + Magnitude(y)
  {
    if Magnitude(x) == 0 && Magnitude(y) == 0 then
      if OnBools(op, x < 0, y < 0) then -1 else 0
    else
      2 * Perform(op, x / 2, y / 2) + (if OnBools(op, x % 2 == 1, y % 2 == 1) then 1 else 0)
  }

  /** One step of Perform, also valid for the two fixed points 0 and -1. */
  lemma PerformStep(op: Op, x: int, y: int)
    ensures Perform(op, x, y) / 2 == Perform(op, x / 2, y / 2)
    ensures Perform(op, x, y) % 2 == if OnBools(op, x % 2 == 1, y % 2 == 1) then 1 else 0
  {
  }

  /** Perform acts bit by bit. */
  lemma {:induction false} PerformActsOnBits(op: Op, x: int, y: int, k: nat)
    ensures Bit(Perform(op, x, y), k) == OnBools(op, Bit(x, k), Bit(y, k))
    decreases k
  {
    PerformStep(op, x, y);
    if k > 0 {
      PerformActsOnBits(op, x / 2, y / 2, k - 1);
    }
  }

  /** An integer is determined by its bits, so PerformActsOnBits leaves Perform no freedom. */
  lemma {:induction false} BitsDetermineInteger(x: int, y: int)
    requires forall k: nat :: Bit(x, k) == Bit(y, k)
    ensures x == y
    decreases Magnitude(x) + Magnitude(y)
  {
    assert Bit(x, 0) == Bit(y, 0);
    if Magnitude(x) == 0 && Magnitude(y) == 0 {
    } else {
      forall k: nat
        ensures Bit(x / 2, k) == Bit(y / 2, k)
      {
        assert Bit(x, k + 1) == Bit(y, k + 1);
      }
      BitsDetermineInteger(x / 2, y / 2);
    }
  }

  lemma {:induction false} Pow2Add(m: nat, n: nat)
    ensures Pow2(m + n) == Pow2(m) * Pow2(n)
  {
    if m == 0 {
    } else {
      Pow2Add(m - 1, n);
      assert Pow2(m + n) == 2 * Pow2((m - 1) + n);
      assert 2 * (Pow2(m - 1) * Pow2(n)) == (2 * Pow2(m - 1)) * Pow2(n);
    }
  }

  /** Division by p is determined by a decomposition with a remainder below p. */
  lemma DivModUnique(x: int, q: int, r: int, p: int)
    requires p > 0 && x == q * p + r && 0 <= r < p
    ensures x / p == q && x % p == r
  {
    var q' := x / p;
    var r' := x % p;
    assert (q - q') * p == r' - r by {
      assert x == q' * p + r';
      assert (q - q') * p == q * p - q' * p;
    }
    if q > q' {
      MulMono(1, q - q', p);
    } else if q < q' {
      MulMono(q - q', -1, p);
    }
  }

  lemma DivModIdentity(x: int, p: int)
    requires p > 0
    ensures x / p * p + x % p == x && 0 <= x % p < p
  {
  }

  lemma MulMono(a: int, b: int, p: int)
    requires a <= b && 0 <= p
    ensures a * p <= b * p
  {
    assert (b - a) * p >= 0;
    assert (b - a) * p == b * p - a * p;
  }

  /** bitShift: by k bits to the left: x doubled k times. */
  function ShiftUp(x: int, k: nat): int
    decreases k
  {
    if k == 0 then x else 2 * ShiftUp(x, k - 1)
  }

  /** bitShift: by k bits to the right: x halved k times, rounding down. */
  function ShiftDown(x: int, k: nat): int
    decreases k
  {
    if k == 0 then x else ShiftDown(x / 2, k - 1)
  }

  /** The bits that ShiftDown drops. */
  function LowBits(x: int, k: nat): int
    decreases k
  {
    if k == 0 then 0 else x % 2 + 2 * LowBits(x / 2, k - 1)
  }

  lemma {:induction false} ShiftUpIsTimesPow2(x: int, k: nat)
    ensures ShiftUp(x, k) == x * Pow2(k)
    decreases k
  {
    if k > 0 {
      ShiftUpIsTimesPow2(x, k - 1);
      assert x * (2 * Pow2(k - 1)) == 2 * (x * Pow2(k - 1));
    }
  }

  lemma {:induction false} ShiftDownSplits(x: int, k: nat)
    ensures ShiftUp(ShiftDown(x, k), k) + LowBits(x, k) == x
    ensures 0 <= LowBits(x, k) < Pow2(k)
    decreases k
  {
    if k > 0 { ShiftDownSplits(x / 2, k - 1); }
  }

  lemma ShiftDownIsDivision(x: int, k: nat)
    ensures ShiftDown(x, k) == x / Pow2(k) && LowBits(x, k) == x % Pow2(k)
  {
    ShiftDownSplits(x, k);
    ShiftUpIsTimesPow2(ShiftDown(x, k), k);
    DivModUnique(x, ShiftDown(x, k), LowBits(x, k), Pow2(k));
  }

  lemma {:induction false} ShiftUpAdd(x: int, y: int, sum: int, k: nat)
    requires sum == x + y
    ensures ShiftUp(sum, k) == ShiftUp(x, k) + ShiftUp(y, k)
    decreases k
  {
    if k > 0 { ShiftUpAdd(x, y, sum, k - 1); }
  }

  lemma {:induction false} ShiftUpMono(x: int, y: int, k: nat)
    requires x <= y
    ensures ShiftUp(x, k) <= ShiftUp(y, k)
    decreases k
  {
    if k > 0 { ShiftUpMono(x, y, k - 1); }
  }

  lemma {:induction false} ShiftUpZero(k: nat)
    ensures ShiftUp(0, k) == 0
  {
    if k > 0 { ShiftUpZero(k - 1); }
  }

  lemma {:induction false} ShiftUpTwice(x: int, j: nat, k: nat, both: nat)
    requires both == j + k
    ensures ShiftUp(ShiftUp(x, j), k) == ShiftUp(x, both)
    decreases k
  {
    if k > 0 { ShiftUpTwice(x, j, k - 1, both - 1); }
  }

  lemma {:induction false} ShiftUpOne(k: nat)
    ensures ShiftUp(1, k) == Pow2(k)
  {
    if k > 0 { ShiftUpOne(k - 1); }
  }

  lemma {:induction false} OnesShiftedDown(m: nat, k: nat)
    requires k <= m
    ensures ShiftDown(Pow2(m) - 1, k) == Pow2(m - k) - 1
    decreases k
  {
    if k > 0 {
      assert (Pow2(m) - 1) / 2 == Pow2(m - 1) - 1;
      OnesShiftedDown(m - 1, k - 1);
    }
  }

  /** The high and low parts of x and y are combined separately. */
  lemma {:induction false} PerformOnParts(op: Op, k: nat, x: int, xh: int, xl: int, y: int, yh: int, yl: int)
    requires 0 <= xl < Pow2(k) && 0 <= yl < Pow2(k)
    requires x == ShiftUp(xh, k) + xl && y == ShiftUp(yh, k) + yl
    ensures 0 <= Perform(op, xl, yl) < Pow2(k)
    ensures Perform(op, x, y) == ShiftUp(Perform(op, xh, yh), k) + Perform(op, xl, yl)
    decreases k
  {
    if k > 0 {
      assert x / 2 == ShiftUp(xh, k - 1) + xl / 2 && x % 2 == xl % 2;
      assert y / 2 == ShiftUp(yh, k - 1) + yl / 2 && y % 2 == yl % 2;
      PerformOnParts(op, k - 1, x / 2, xh, xl / 2, y / 2, yh, yl / 2);
      PerformStep(op, x, y);
      PerformStep(op, xl, yl);
    }
  }

  /** All the bits above those of a magnitude. */
  function SignBits(negative: bool): int {
    if negative then -1 else 0
  }

  lemma {:induction false} PerformSigns(op: Op, p: bool, q: bool)
    ensures Perform(op, SignBits(p), SignBits(q)) == SignBits(OnBools(op, p, q))
  {
  }

  /** bitAnd: with a mask of k ones keeps the k lowest bits. */
  lemma {:induction false} MaskIsLowBits(x: int, k: nat)
    ensures Perform(BitAnd, x, Pow2(k) - 1) == LowBits(x, k)
    decreases k
  {
    if k == 0 {
      AndZero(x);
    } else {
      var mask, half := Pow2(k) - 1, Pow2(k - 1) - 1;
      MaskIsLowBits(x / 2, k - 1);
      assert mask / 2 == half && mask % 2 == 1;
      PerformStep(BitAnd, x, mask);
    }
  }

  lemma {:induction false} AndZero(x: int)
    ensures Perform(BitAnd, x, 0) == 0
    decreases Magnitude(x)
  {
    if Magnitude(x) != 0 { AndZero(x / 2); }
  }

  lemma {:induction false} OrZero(x: int)
    ensures Perform(BitOr, x, 0) == x && Perform(BitOr, 0, x) == x
    decreases Magnitude(x)
  {
    if Magnitude(x) != 0 { OrZero(x / 2); }
  }

  /** bitOr: of two integers that share no bit position is their sum. */
  lemma DisjointOrIsSum(high: int, low: int, k: nat)
    requires 0 <= low < Pow2(k)
    ensures Perform(BitOr, ShiftUp(high, k), low) == ShiftUp(high, k) + low
    ensures Perform(BitOr, low, ShiftUp(high, k)) == ShiftUp(high, k) + low
  {
    var x := ShiftUp(high, k);
    ShiftUpZero(k);
    PerformOnParts(BitOr, k, x, high, 0, low, 0, low);
    PerformOnParts(BitOr, k, low, 0, low, x, high, 0);
    OrZero(high);
    OrZero(low);
  }

  /** The number of bits needed to represent n. */
  function BitLength(n: nat): nat {
    if n == 0 then 0 else 1 + BitLength(n / 2)
  }

  lemma {:induction false} BitLengthBounds(n: nat)
    ensures n < Pow2(BitLength(n))
    ensures n > 0 ==> Pow2(BitLength(n) - 1) <= n
  {
    if n > 1 { BitLengthBounds(n / 2); }
  }

  lemma {:induction false} BitLengthMono(m: nat, n: nat)
    requires m <= n
    ensures BitLength(m) <= BitLength(n)
  {
    if m > 0 { BitLengthMono(m / 2, n / 2); }
  }

  lemma {:induction false} BitLengthOfSplit(b: nat, l: nat, k: nat)
    requires b > 0 && l < Pow2(k)
    ensures ShiftUp(b, k) > 0 && BitLength(ShiftUp(b, k) + l) == BitLength(b) + k
    decreases k
  {
    if k > 0 {
      BitLengthOfSplit(b, l / 2, k - 1);
      assert (ShiftUp(b, k) + l) / 2 == ShiftUp(b, k - 1) + l / 2;
    }
  }

  lemma {:induction false} Pow2Mono(m: nat, n: nat)
    requires m <= n
    ensures Pow2(m) <= Pow2(n)
  {
    if m < n { Pow2Mono(m, n - 1); }
  }
}
