/** Magnitudes as little-endian base-256 digit strings. */
module Digits {
  import opened Bits

  type byte = b: int | 0 <= b < 256

  /** a times 256 to the n, by repeated multiplication: proofs about it stay linear. */
  function Place(a: int, n: nat): int
    decreases n
  {
    if n == 0 then a else 256 * Place(a, n - 1)
  }

  /** 256 to the n. */
  function Weight(n: nat): int {
    Place(1, n)
  }

  /** byteAt: answers zero beyond the last digit. */
  function ByteAt(s: seq<byte>, i: nat): byte {
    if i < |s| then s[i] else 0
  }

  /** The value of the n lowest digits of s. */
  function Low(s: seq<byte>, n: nat): int {
    if n == 0 then 0 else Low(s, n - 1) + Place(ByteAt(s, n - 1), n - 1)
  }

  function Value(s: seq<byte>): int {
    Low(s, |s|)
  }

  /** No leading zero digit; zero is the empty string. */
  predicate Trimmed(s: seq<byte>) {
    |s| > 0 ==> s[|s| - 1] != 0
  }

  lemma {:induction false} PlaceAdd(a: int, b: int, n: nat)
    ensures Place(a + b, n) == Place(a, n) + Place(b, n)
    decreases n
  {
    if n > 0 { PlaceAdd(a, b, n - 1); }
  }

  lemma PlaceSum(a: int, b: int, sum: int, n: nat)
    requires sum == a + b
    ensures Place(sum, n) == Place(a, n) + Place(b, n)
  {
    PlaceAdd(a, b, n);
  }

  lemma {:induction false} PlaceMono(a: int, b: int, n: nat)
    requires a <= b
    ensures Place(a, n) <= Place(b, n)
    decreases n
  {
    if n > 0 { PlaceMono(a, b, n - 1); }
  }

  lemma {:induction false} PlaceZero(n: nat)
    ensures Place(0, n) == 0
  {
    if n > 0 { PlaceZero(n - 1); }
  }

  lemma {:induction false} PlaceTimes256(a: int, n: nat)
    ensures Place(256 * a, n) == Place(a, n + 1)
    decreases n
  {
    if n > 0 { PlaceTimes256(a, n - 1); }
  }

  lemma {:induction false} PlacePlace(a: int, m: nat, n: nat)
    ensures Place(Place(a, n), m) == Place(a, m + n)
    decreases m
  {
    if m > 0 { PlacePlace(a, m - 1, n); }
  }

  lemma {:induction false} PlaceMul(a: int, c: int, n: nat)
    ensures Place(a, n) * c == Place(a * c, n)
    decreases n
  {
    if n > 0 {
      PlaceMul(a, c, n - 1);
      assert (256 * Place(a, n - 1)) * c == 256 * (Place(a, n - 1) * c);
    }
  }

  lemma {:induction false} PlaceIsTimesPow2(a: int, n: nat)
    ensures Place(a, n) == a * Pow2(8 * n)
    decreases n
  {
    if n > 0 {
      PlaceIsTimesPow2(a, n - 1);
      Pow2Of8(8 * (n - 1));
      assert a * (256 * Pow2(8 * (n - 1))) == 256 * (a * Pow2(8 * (n - 1)));
    }
  }

  lemma {:induction false} PlaceShiftUp(a: int, k: nat, n: nat)
    ensures Place(ShiftUp(a, k), n) == ShiftUp(a, k + 8 * n)
    decreases n
  {
    if n > 0 {
      PlaceShiftUp(a, k, n - 1);
      ShiftUpBy8(a, k + 8 * (n - 1));
    }
  }

  lemma PlaceIsShift(a: int, n: nat, k: nat)
    requires k == 8 * n
    ensures Place(a, n) == ShiftUp(a, k)
  {
    PlaceShiftUp(a, 0, n);
  }

  lemma ShiftUpBy8(a: int, k: nat)
    ensures ShiftUp(a, k + 8) == 256 * ShiftUp(a, k)
  {
    assert ShiftUp(a, k + 8) == 2 * ShiftUp(a, k + 7) == 4 * ShiftUp(a, k + 6)
           == 8 * ShiftUp(a, k + 5) == 16 * ShiftUp(a, k + 4);
    assert ShiftUp(a, k + 4) == 2 * ShiftUp(a, k + 3) == 4 * ShiftUp(a, k + 2)
           == 8 * ShiftUp(a, k + 1) == 16 * ShiftUp(a, k);
  }

  lemma Pow2Of8(k: nat)
    ensures Pow2(k + 8) == 256 * Pow2(k)
  {
    assert Pow2(k + 8) == 2 * Pow2(k + 7) == 4 * Pow2(k + 6) == 8 * Pow2(k + 5) == 16 * Pow2(k + 4);
    assert Pow2(k + 4) == 2 * Pow2(k + 3) == 4 * Pow2(k + 2) == 8 * Pow2(k + 1) == 16 * Pow2(k);
  }

  lemma WeightPositive(n: nat)
    ensures Weight(n) >= 1
  {
    if n > 0 { WeightPositive(n - 1); }
  }

  lemma {:induction false} WeightMono(m: nat, n: nat)
    requires m <= n
    ensures 1 <= Weight(m) <= Weight(n)
  {
    WeightPositive(m);
    if m < n {
      WeightMono(m, n - 1);
    }
  }

  /** A digit and its carry weigh as much as the accumulator they come from. */
  lemma CarryStep(carryOut: int, digit: int, accum: int, n: nat)
    requires carryOut * 256 + digit == accum
    ensures Place(digit, n) + Place(carryOut, n + 1) == Place(accum, n)
  {
    PlaceAdd(256 * carryOut, digit, n);
    PlaceTimes256(carryOut, n);
  }

  lemma {:induction false} LowBounds(s: seq<byte>, n: nat)
    ensures 0 <= Low(s, n) < Weight(n)
  {
    if n > 0 {
      LowBounds(s, n - 1);
      PlaceMono(0, ByteAt(s, n - 1), n - 1);
      PlaceZero(n - 1);
      PlaceMono(ByteAt(s, n - 1) + 1, 256, n - 1);
      PlaceAdd(ByteAt(s, n - 1), 1, n - 1);
      PlaceTimes256(1, n - 1);
    }
  }

  lemma {:induction false} LowFrame(s: seq<byte>, t: seq<byte>, n: nat)
    requires forall i: nat :: i < n ==> ByteAt(s, i) == ByteAt(t, i)
    ensures Low(s, n) == Low(t, n)
  {
    if n > 0 { LowFrame(s, t, n - 1); }
  }

  lemma {:induction false} LowUpdate(s: seq<byte>, k: nat, b: byte, n: nat)
    requires k < |s|
    ensures Low(s[k := b], n) == Low(s, n) + (if k < n then Place(b, k) - Place(s[k], k) else 0)
  {
    if n > 0 { LowUpdate(s, k, b, n - 1); }
  }

  /** Zero digits above m do not contribute. */
  lemma {:induction false} LowAboveZeros(s: seq<byte>, m: nat, n: nat)
    requires m <= n
    requires forall i :: m <= i < n ==> ByteAt(s, i) == 0
    ensures Low(s, n) == Low(s, m)
  {
    if m < n {
      LowAboveZeros(s, m, n - 1);
      PlaceZero(n - 1);
    }
  }

  /** Digits beyond the string do not contribute. */
  lemma LowBeyond(s: seq<byte>, n: nat)
    requires n >= |s|
    ensures Low(s, n) == Value(s)
  {
    LowAboveZeros(s, |s|, n);
  }

  lemma LowZeros(s: seq<byte>, n: nat)
    requires forall i: nat :: i < n ==> ByteAt(s, i) == 0
    ensures Low(s, n) == 0
  {
    LowAboveZeros(s, 0, n);
  }

  lemma LowOne(s: seq<byte>)
    ensures Low(s, 1) == ByteAt(s, 0)
  {
    assert Low(s, 0) == 0;
  }

  /** A digit string splits at any position. */
  lemma {:induction false} LowSplits(s: seq<byte>, m: nat, n: nat)
    requires m <= |s|
    ensures Low(s, m + n) == Low(s, m) + Place(Low(s[m..], n), m)
  {
    if n == 0 {
      PlaceZero(m);
    } else {
      LowSplits(s, m, n - 1);
      assert ByteAt(s[m..], n - 1) == ByteAt(s, m + (n - 1));
      PlaceAdd(Low(s[m..], n - 1), Place(ByteAt(s[m..], n - 1), n - 1), m);
      PlacePlace(ByteAt(s[m..], n - 1), m, n - 1);
      assert m + n - 1 == m + (n - 1);
    }
  }

  lemma TrimmedBounds(s: seq<byte>)
    requires Trimmed(s)
    ensures |s| > 0 ==> Weight(|s| - 1) <= Value(s)
    ensures 0 <= Value(s) < Weight(|s|)
    ensures Value(s) == 0 <==> s == []
  {
    LowBounds(s, |s|);
    if |s| > 0 {
      PlaceMono(1, s[|s| - 1], |s| - 1);
      LowBounds(s, |s| - 1);
      WeightPositive(|s| - 1);
    }
  }

  /** Without leading zeros, fewer digits mean a smaller value. */
  lemma ShorterIsSmaller(s: seq<byte>, t: seq<byte>)
    requires Trimmed(t) && |s| < |t|
    ensures Value(s) < Value(t)
  {
    TrimmedBounds(t);
    LowBounds(s, |s|);
    WeightMono(|s|, |t| - 1);
  }

  /** Equal digits from m up do not change the difference. */
  lemma {:induction false} EqualAbove(s: seq<byte>, t: seq<byte>, m: nat, n: nat)
    requires m <= n
    requires forall i :: m <= i < n ==> ByteAt(s, i) == ByteAt(t, i)
    ensures Low(s, n) - Low(t, n) == Low(s, m) - Low(t, m)
  {
    if m < n { EqualAbove(s, t, m, n - 1); }
  }

  lemma TopDigitDecides(s: seq<byte>, t: seq<byte>, n: nat)
    requires n > 0 && ByteAt(s, n - 1) < ByteAt(t, n - 1)
    ensures Low(s, n) < Low(t, n)
  {
    LowBounds(s, n - 1);
    LowBounds(t, n - 1);
    PlaceMono(ByteAt(s, n - 1) + 1, ByteAt(t, n - 1), n - 1);
    PlaceAdd(ByteAt(s, n - 1), 1, n - 1);
  }
}
