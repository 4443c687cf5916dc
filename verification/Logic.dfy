/** bitAnd:, bitOr: and bitXor: of sign-magnitude integers, byte by byte in two's complement. */
module Logic {
  import opened Bits
  import opened Digits
  import opened Arithmetic
  import opened Operands

  /** Byte i of the two's-complement expansion of a sign-magnitude integer. */
  function TwosByte(negative: bool, s: seq<byte>, i: nat): byte {
    var b := ByteAt(s, i);
    if !negative then b
    else if Low(s, i) == 0 then (if b == 0 then 0 else 256 - b)
    else 255 - b
  }

  /** The value of the n lowest two's-complement bytes. */
  function TwosLow(negative: bool, s: seq<byte>, n: nat): int {
    if n == 0 then 0 else TwosLow(negative, s, n - 1) + Place(TwosByte(negative, s, n - 1), n - 1)
  }

  lemma {:induction false} TwosLowComplements(s: seq<byte>, n: nat)
    ensures TwosLow(true, s, n) == if Low(s, n) == 0 then 0 else Weight(n) - Low(s, n)
  {
    if n > 0 {
      TwosLowComplements(s, n - 1);
      var b: int, t: int := ByteAt(s, n - 1), TwosByte(true, s, n - 1);
      LowBounds(s, n - 1);
      PlaceAdd(b, t, n - 1);
      PlaceZero(n - 1);
      PlaceMono(0, b, n - 1);
      if b > 0 { PlaceMono(1, b, n - 1); WeightPositive(n - 1); }
      PlaceAdd(255, 1, n - 1);
      PlaceTimes256(1, n - 1);
    }
  }

  lemma {:induction false} TwosLowPlain(s: seq<byte>, n: nat)
    ensures TwosLow(false, s, n) == Low(s, n)
  {
    if n > 0 { TwosLowPlain(s, n - 1); }
  }

  lemma TwosLowBounds(negative: bool, s: seq<byte>, n: nat)
    ensures 0 <= TwosLow(negative, s, n) < Pow2(8 * n)
  {
    if negative { TwosLowComplements(s, n); } else { TwosLowPlain(s, n); }
    LowBounds(s, n);
    WeightPositive(n);
    PlaceShiftUp(1, 0, n);
    ShiftUpOne(8 * n);
  }

  /** The bytes that op produces from the two's-complement bytes of the operands. */
  function OpByte(op: Op, neg1: bool, s: seq<byte>, neg2: bool, t: seq<byte>, i: nat): (b: byte) {
    ByteOfOp(op, TwosByte(neg1, s, i), TwosByte(neg2, t, i));
    Perform(op, TwosByte(neg1, s, i), TwosByte(neg2, t, i))
  }

  lemma ByteOfOp(op: Op, a: byte, b: byte)
    ensures 0 <= Perform(op, a, b) < 256
  {
    assert Pow2(8) == 256 by { assert Pow2(4) == 16; }
    ShiftUpZero(8);
    PerformOnParts(op, 8, a, 0, a, b, 0, b);
  }

  function OpBytes(op: Op, neg1: bool, s: seq<byte>, neg2: bool, t: seq<byte>, n: nat): (r: seq<byte>)
    ensures |r| == n && forall i :: 0 <= i < n ==> r[i] == OpByte(op, neg1, s, neg2, t, i)
  {
    seq(n, i requires i >= 0 => OpByte(op, neg1, s, neg2, t, i))
  }

  lemma {:induction false} OpBytesPerform(op: Op, neg1: bool, s: seq<byte>, neg2: bool, t: seq<byte>, len: nat, n: nat)
    requires n <= len
    ensures Low(OpBytes(op, neg1, s, neg2, t, len), n) == Perform(op, TwosLow(neg1, s, n), TwosLow(neg2, t, n))
  {
    if n == 0 {
      PerformSigns(op, false, false);
    } else {
      var p, k := n - 1, 8 * (n - 1);
      var a, b := TwosByte(neg1, s, p), TwosByte(neg2, t, p);
      OpBytesPerform(op, neg1, s, neg2, t, len, p);
      TwosLowBounds(neg1, s, p);
      TwosLowBounds(neg2, t, p);
      PlaceIsShift(a, p, k);
      PlaceIsShift(b, p, k);
      PlaceIsShift(Perform(op, a, b), p, k);
      PerformOnParts(op, k, TwosLow(neg1, s, n), a, TwosLow(neg1, s, p), TwosLow(neg2, t, n), b, TwosLow(neg2, t, p));
    }
  }

  predicate ResultNegative(op: Op, neg1: bool, neg2: bool) {
    Perform(op, SignBits(neg1), SignBits(neg2)) < 0
  }

  /** A signed operand: its value, at most len bytes, and zero is not negative. */
  predicate Operand(negative: bool, s: seq<byte>, len: nat) {
    |s| <= len && (negative ==> Value(s) != 0)
  }

  /** The low len bytes with the sign bytes above them make up the operand. */
  lemma OperandSplits(negative: bool, s: seq<byte>, len: nat)
    requires Operand(negative, s, len)
    ensures Signed(negative, Value(s)) == ShiftUp(SignBits(negative), 8 * len) + TwosLow(negative, s, len)
  {
    LowBeyond(s, len);
    if negative {
      TwosLowComplements(s, len);
      PlaceShiftUp(-1, 0, len);
      PlaceAdd(1, -1, len);
      PlaceZero(len);
    } else {
      TwosLowPlain(s, len);
      ShiftUpZero(8 * len);
    }
  }

  /** The exact result in terms of the combined bytes and the sign of the result. */
  lemma ExactResult(op: Op, neg1: bool, s: seq<byte>, neg2: bool, t: seq<byte>, len: nat)
    requires Operand(neg1, s, len) && Operand(neg2, t, len)
    ensures Perform(op, Signed(neg1, Value(s)), Signed(neg2, Value(t)))
         == Value(OpBytes(op, neg1, s, neg2, t, len)) - if ResultNegative(op, neg1, neg2) then Weight(len) else 0
  {
    var high, low1, low2 := Perform(op, SignBits(neg1), SignBits(neg2)), TwosLow(neg1, s, len), TwosLow(neg2, t, len);
    var x, y := Signed(neg1, Value(s)), Signed(neg2, Value(t));
    OperandSplits(neg1, s, len);
    OperandSplits(neg2, t, len);
    OpBytesPerform(op, neg1, s, neg2, t, len, len);
    TwosLowBounds(neg1, s, len);
    TwosLowBounds(neg2, t, len);
    PerformOnParts(op, 8 * len, x, SignBits(neg1), low1, y, SignBits(neg2), low2);
    PerformSigns(op, neg1, neg2);
    ShiftedSign(high, len);
  }

  lemma ShiftedSign(high: int, len: nat)
    requires high == 0 || high == -1
    ensures ShiftUp(high, 8 * len) == if high < 0 then -Weight(len) else 0
  {
    PlaceShiftUp(-1, 0, len);
    PlaceAdd(1, -1, len);
    PlaceZero(len);
    ShiftUpZero(8 * len);
  }

  /** The bytes digitLogic: stores: complemented for a negative result, but never for a zero byte. */
  function StoredByte(rneg: bool, b: seq<byte>, i: nat): byte {
    if ByteAt(b, i) == 0 then 0 else TwosByte(rneg, b, i)
  }

  function StoredBytes(rneg: bool, b: seq<byte>): (r: seq<byte>)
    ensures |r| == |b| && forall i :: 0 <= i < |b| ==> r[i] == StoredByte(rneg, b, i)
  {
    seq(|b|, i requires i >= 0 => StoredByte(rneg, b, i))
  }

  /** Every zero byte lies below the first non-zero byte, and there is a non-zero byte. */
  predicate Complementable(b: seq<byte>) {
    Value(b) != 0 && forall i :: 0 <= i < |b| && b[i] == 0 ==> Low(b, i) == 0
  }

  lemma {:induction false} StoredBelowComplement(b: seq<byte>, n: nat)
    requires n <= |b|
    ensures Low(StoredBytes(true, b), n) <= TwosLow(true, b, n)
    ensures Low(StoredBytes(true, b), n) == TwosLow(true, b, n)
       <==> forall i :: 0 <= i < n && b[i] == 0 ==> Low(b, i) == 0
  {
    if n > 0 {
      var p := n - 1;
      StoredBelowComplement(b, p);
      StoredByteBelow(b, p);
    }
  }

  lemma StoredByteBelow(b: seq<byte>, p: nat)
    requires p < |b|
    ensures Place(StoredByte(true, b, p), p) <= Place(TwosByte(true, b, p), p)
    ensures Place(StoredByte(true, b, p), p) == Place(TwosByte(true, b, p), p) <==> (b[p] == 0 ==> Low(b, p) == 0)
  {
    PlaceZero(p);
    PlaceMono(0, TwosByte(true, b, p), p);
    WeightPositive(p);
    PlaceMono(1, 255, p);
  }

  /** The complement of b, all of whose bytes are complemented. */
  function TwosBytes(negative: bool, b: seq<byte>): (r: seq<byte>)
    ensures |r| == |b| && forall i :: 0 <= i < |b| ==> r[i] == TwosByte(negative, b, i)
  {
    seq(|b|, i requires i >= 0 => TwosByte(negative, b, i))
  }

  lemma {:induction false} TwosBytesLow(negative: bool, b: seq<byte>, n: nat)
    requires n <= |b|
    ensures Low(TwosBytes(negative, b), n) == TwosLow(negative, b, n)
  {
    if n > 0 { TwosBytesLow(negative, b, n - 1); }
  }

  /** What digitLogic: answers, before its last normalize. */
  function LogicAnswer(op: Op, neg1: bool, s: seq<byte>, neg2: bool, t: seq<byte>, len: nat): int {
    var rneg := ResultNegative(op, neg1, neg2);
    Signed(rneg, Value(StoredBytes(rneg, OpBytes(op, neg1, s, neg2, t, len))))
  }

  lemma BytesDetermined(s: seq<byte>, t: seq<byte>)
    requires |s| == |t|
    ensures Value(s) == Value(t) <==> s == t
  {
    if Value(s) == Value(t) {
      LowDetermines(s, t, |s|);
      assert forall i :: 0 <= i < |s| ==> ByteAt(s, i) == s[i] && ByteAt(t, i) == t[i];
    }
  }

  /** Whether the stored complement of p is the complement of q, byte by byte: up to the first byte of p that is not
      zero they agree; above it a zero byte is not complemented, and stands for 255. */
  predicate Complements(p: seq<byte>, q: seq<byte>)
    requires |p| == |q|
  {
    forall i :: 0 <= i < |p| ==> ComplementsAt(p, q, i)
  }

  predicate ComplementsAt(p: seq<byte>, q: seq<byte>, i: nat)
    requires i < |p| == |q|
  {
    if Low(p, i) == 0 then p[i] == q[i] else (p[i] == q[i] && p[i] != 0) || (p[i] == 0 && q[i] == 255)
  }

  /** The stored complement of p is 2^30. */
  predicate StoredAsGap(p: seq<byte>) {
    |p| >= 4 && forall i :: 0 <= i < |p| ==>
      if i < 3 then p[i] == 0 else if i == 3 then p[i] == 192 else p[i] == 0 || p[i] == 255
  }

  /** The complement of q is 2^50. */
  predicate ComplementsMinVal(q: seq<byte>) {
    |q| >= 7 && forall i :: 0 <= i < |q| ==> q[i] == if i < 6 then 0 else if i == 6 then 252 else 255
  }

  /** When a negative result is right, in terms of the bytes p combined from what the argument shows and the bytes q
      that should have been combined. Of -2^30 normalize makes -2^50, which may be meant. */
  predicate Fits(p: seq<byte>, q: seq<byte>)
    requires |p| == |q|
  {
    if StoredAsGap(p) then ComplementsMinVal(q) else Value(q) != 0 && Complements(p, q)
  }

  lemma ComplementsByte(p: seq<byte>, q: seq<byte>, i: nat)
    requires i < |p| == |q| && (Low(p, i) == 0 <==> Low(q, i) == 0)
    ensures StoredByte(true, p, i) == TwosByte(true, q, i) <==> ComplementsAt(p, q, i)
    ensures ComplementsAt(p, q, i) ==> (Low(p, i + 1) == 0 <==> Low(q, i + 1) == 0)
  {
    ZeroBelow(p, i);
    ZeroBelow(q, i);
  }

  lemma {:induction false} ComplementsIff(p: seq<byte>, q: seq<byte>, n: nat)
    requires n <= |p| == |q|
    ensures (forall i :: 0 <= i < n ==> StoredByte(true, p, i) == TwosByte(true, q, i))
       <==> forall i :: 0 <= i < n ==> ComplementsAt(p, q, i)
    ensures (forall i :: 0 <= i < n ==> ComplementsAt(p, q, i)) ==> (Low(p, n) == 0 <==> Low(q, n) == 0)
  {
    if n > 0 {
      ComplementsIff(p, q, n - 1);
      if forall i :: 0 <= i < n - 1 ==> ComplementsAt(p, q, i) { ComplementsByte(p, q, n - 1); }
    }
  }

  lemma ZeroBelow(s: seq<byte>, n: nat)
    requires n < |s|
    ensures Low(s, n + 1) == 0 <==> Low(s, n) == 0 && s[n] == 0
  {
    LowBounds(s, n);
    PlaceZero(n);
    if s[n] > 0 { PlaceMono(1, s[n], n); WeightPositive(n); }
  }

  /** A digit string with byte k only. */
  function OneByte(n: nat, k: nat, b: byte): (s: seq<byte>)
    ensures |s| == n && forall i :: 0 <= i < n ==> s[i] == if i == k then b else 0
  {
    seq(n, i requires i >= 0 => if i == k then b else 0)
  }

  lemma {:induction false} OneByteValue(n: nat, k: nat, b: byte)
    requires k < n
    ensures Value(OneByte(n, k, b)) == Place(b, k)
  {
    var s := OneByte(n, k, b);
    LowZeros(s, k);
    LowAboveZeros(s, k + 1, n);
  }

  /** Up to byte k nothing but zeros, and byte k is not zero: from there on the lower bytes are not all zero. */
  lemma {:induction false} NonZeroFrom(s: seq<byte>, k: nat, i: nat)
    requires k < i <= |s| && Low(s, k) == 0 && s[k] != 0
    ensures Low(s, i) != 0
  {
    ZeroBelow(s, i - 1);
    if i - 1 > k { NonZeroFrom(s, k, i - 1); }
  }

  lemma StoredAsOneByte(p: seq<byte>, k: nat, b: byte)
    requires k < |p| && b > 0
    ensures StoredBytes(true, p) == OneByte(|p|, k, b)
       <==> forall i :: 0 <= i < |p| ==>
              if i < k then p[i] == 0 else if i == k then p[i] == 256 - b else p[i] == 0 || p[i] == 255
  {
    var s := OneByte(|p|, k, b);
    if StoredBytes(true, p) == s {
      ZerosStored(p, k);
      forall i | k < i < |p|
        ensures p[i] == 0 || p[i] == 255
      {
        assert StoredBytes(true, p)[i] == 0;
      }
      assert StoredBytes(true, p)[k] == b;
    }
    if forall i :: 0 <= i < |p| ==>
         if i < k then p[i] == 0 else if i == k then p[i] == 256 - b else p[i] == 0 || p[i] == 255 {
      LowZeros(p, k);
      forall i | 0 <= i < |p|
        ensures StoredByte(true, p, i) == s[i]
      {
        if i > k { NonZeroFrom(p, k, i); }
      }
      assert StoredBytes(true, p) == s;
    }
  }

  /** Stored zeros below which there are only zeros come from zeros. */
  lemma {:induction false} ZerosStored(p: seq<byte>, k: nat)
    requires k <= |p| && forall i :: 0 <= i < k ==> StoredByte(true, p, i) == 0
    ensures Low(p, k) == 0 && forall i :: 0 <= i < k ==> p[i] == 0
  {
    if k > 0 {
      ZerosStored(p, k - 1);
      assert StoredByte(true, p, k - 1) == 0;
      ZeroBelow(p, k - 1);
    }
  }

  lemma ComplementsOneByte(q: seq<byte>, k: nat, b: byte)
    requires k < |q| && b > 0
    ensures TwosBytes(true, q) == OneByte(|q|, k, b)
       <==> forall i :: 0 <= i < |q| ==> q[i] == if i < k then 0 else if i == k then 256 - b else 255
  {
    var s := OneByte(|q|, k, b);
    if TwosBytes(true, q) == s {
      ZerosComplemented(q, k);
      assert TwosBytes(true, q)[k] == b;
      forall i | k < i < |q|
        ensures q[i] == 255
      {
        assert TwosBytes(true, q)[i] == 0;
        NonZeroFrom(q, k, i);
      }
    }
    if forall i :: 0 <= i < |q| ==> q[i] == if i < k then 0 else if i == k then 256 - b else 255 {
      LowZeros(q, k);
      forall i | 0 <= i < |q|
        ensures TwosByte(true, q, i) == s[i]
      {
        if i > k { NonZeroFrom(q, k, i); } else if i < k { LowZeros(q, i); }
      }
      assert TwosBytes(true, q) == s;
    }
  }

  lemma {:induction false} ZerosComplemented(q: seq<byte>, k: nat)
    requires k <= |q| && forall i :: 0 <= i < k ==> TwosByte(true, q, i) == 0
    ensures Low(q, k) == 0 && forall i :: 0 <= i < k ==> q[i] == 0
  {
    if k > 0 {
      ZerosComplemented(q, k - 1);
      assert TwosByte(true, q, k - 1) == 0;
      ZeroBelow(q, k - 1);
    }
  }

  lemma StoredAsGapIff(p: seq<byte>)
    ensures Value(StoredBytes(true, p)) == GAP <==> StoredAsGap(p)
  {
    LowBounds(StoredBytes(true, p), |p|);
    FewBytes();
    if |p| < 4 {
      WeightMono(|p|, 3);
    } else {
      OneByteValue(|p|, 3, 64);
      assert Place(64, 3) == GAP;
      BytesDetermined(StoredBytes(true, p), OneByte(|p|, 3, 64));
      StoredAsOneByte(p, 3, 64);
    }
  }

  lemma ComplementsMinValIff(q: seq<byte>)
    ensures Value(q) - Weight(|q|) == MIN_VAL <==> ComplementsMinVal(q)
  {
    LowBounds(q, |q|);
    FewBytes();
    if |q| < 7 {
      WeightMono(|q|, 6);
    } else {
      WeightMono(7, |q|);
      OneByteValue(|q|, 6, 4);
      PlaceSix(4);
      TwosBytesLow(true, q, |q|);
      TwosLowComplements(q, |q|);
      BytesDetermined(TwosBytes(true, q), OneByte(|q|, 6, 4));
      ComplementsOneByte(q, 6, 4);
    }
  }

  /** A negative result from the bytes p is the one from the bytes q exactly if these fit. */
  lemma NegativeExactIff(p: seq<byte>, q: seq<byte>)
    requires |p| == |q|
    ensures Normalized(-Value(StoredBytes(true, p))) == Value(q) - Weight(|q|) <==> Fits(p, q)
  {
    var n := |p|;
    StoredAsGapIff(p);
    ComplementsMinValIff(q);
    ComplementsIff(p, q, n);
    LowBounds(StoredBytes(true, p), n);
    TwosBytesLow(true, q, n);
    TwosLowComplements(q, n);
    BytesDetermined(StoredBytes(true, p), TwosBytes(true, q));
    assert StoredBytes(true, p) == TwosBytes(true, q)
      <==> forall i :: 0 <= i < n ==> StoredByte(true, p, i) == TwosByte(true, q, i);
  }

  /** The complement of b as digitLogic: and normalize make it is right. */
  predicate Survives(b: seq<byte>) {
    Complementable(b) && Weight(|b|) - Value(b) != GAP
  }

  lemma StoredIsComplementIff(b: seq<byte>)
    ensures Value(b) != 0 ==> (Value(StoredBytes(true, b)) == Weight(|b|) - Value(b) <==> Complementable(b))
    ensures 0 <= Value(StoredBytes(true, b)) < Weight(|b|)
  {
    StoredBelowComplement(b, |b|);
    TwosLowComplements(b, |b|);
    LowBounds(StoredBytes(true, b), |b|);
  }

  lemma SixLow(s: seq<byte>) returns (h: int)
    requires |s| >= 6
    ensures Value(s) == Low(s, 6) + WORD6 * h
  {
    LowSplits(s, 6, |s| - 6);
    h := Low(s[6..], |s| - 6);
    PlaceSix(h);
  }

  lemma PlaceSix(a: int)
    ensures Place(a, 6) == WORD6 * a
  {
    assert Place(a, 3) == 0x100_0000 * a;
    PlacePlace(a, 3, 3);
    assert Place(Place(a, 3), 3) == 0x100_0000 * Place(a, 3);
  }

  /** Bytes stored as -2^30 never stand for -2^50, so the two mistakes do not cancel. */
  lemma GapIsNoCoincidence(b: seq<byte>)
    requires Value(StoredBytes(true, b)) == GAP
    ensures Weight(|b|) - Value(b) != -MIN_VAL
  {
    LowBounds(b, |b|);
    PlaceSix(1);
    if |b| <= 6 {
      WeightMono(|b|, 6);
    } else if Weight(|b|) - Value(b) == -MIN_VAL {
      var h := SixLow(b);
      PlacePlace(1, 6, |b| - 6);
      PlaceSix(Weight(|b| - 6));
      LowBounds(b, 6);
      assert Low(b, 6) == 0;
      LowZeros([], 6);
      LowDetermines(b, [], 6);
      LowZeros(StoredBytes(true, b), 6);
      var k := SixLow(StoredBytes(true, b));
    }
  }

  /** Of operands that it sees whole, digitLogic: with its last normalize answers the exact result if and
      only if that is not negative, or it is not -2^30 and no byte that should be complemented is zero. */
  lemma LogicExactIff(op: Op, neg1: bool, s: seq<byte>, neg2: bool, t: seq<byte>, len: nat)
    requires Operand(neg1, s, len) && Operand(neg2, t, len)
    ensures (Normalized(LogicAnswer(op, neg1, s, neg2, t, len))
             == Perform(op, Signed(neg1, Value(s)), Signed(neg2, Value(t))))
            <==> (!ResultNegative(op, neg1, neg2) || Survives(OpBytes(op, neg1, s, neg2, t, len)))
  {
    var b, rneg := OpBytes(op, neg1, s, neg2, t, len), ResultNegative(op, neg1, neg2);
    ExactResult(op, neg1, s, neg2, t, len);
    if rneg {
      StoredIsComplementIff(b);
      if Value(StoredBytes(true, b)) == GAP { GapIsNoCoincidence(b); }
    } else {
      LowFrame(StoredBytes(false, b), b, len);
      LowBounds(b, len);
    }
  }

  /** What is missing because zero bytes above the first non-zero one are not complemented to 255. */
  function MissedLow(b: seq<byte>, n: nat): int {
    if n == 0 then 0
    else MissedLow(b, n - 1) + if ByteAt(b, n - 1) == 0 && Low(b, n - 1) != 0 then Place(255, n - 1) else 0
  }

  lemma {:induction false} StoredMisses(b: seq<byte>, n: nat)
    requires n <= |b|
    ensures Low(StoredBytes(true, b), n) == TwosLow(true, b, n) - MissedLow(b, n)
  {
    if n > 0 {
      StoredMisses(b, n - 1);
      PlaceZero(n - 1);
    }
  }

  /** By how much a negative result is off before normalize: by the bytes missed, and by all of it if all bytes are
      zero. */
  lemma LogicAnswerOff(op: Op, neg1: bool, s: seq<byte>, neg2: bool, t: seq<byte>, len: nat)
    requires Operand(neg1, s, len) && Operand(neg2, t, len) && ResultNegative(op, neg1, neg2)
    ensures var b := OpBytes(op, neg1, s, neg2, t, len);
            LogicAnswer(op, neg1, s, neg2, t, len)
            == Perform(op, Signed(neg1, Value(s)), Signed(neg2, Value(t))) + MissedLow(b, len)
               + if Value(b) == 0 then Weight(len) else 0
  {
    var b := OpBytes(op, neg1, s, neg2, t, len);
    ExactResult(op, neg1, s, neg2, t, len);
    StoredMisses(b, len);
    TwosLowComplements(b, len);
  }

  lemma {:induction false} AndSelf(x: int)
    ensures Perform(BitAnd, x, x) == x
    decreases Bits.Magnitude(x)
  {
    if Bits.Magnitude(x) != 0 { AndSelf(x / 2); }
  }

  lemma FourTwosBytes(s: seq<byte>)
    requires |s| == 4 && s[0] != 0
    ensures TwosByte(true, s, 0) == 256 - s[0]
    ensures forall i :: 1 <= i < 4 ==> TwosByte(true, s, i) == 255 - s[i]
  {
    LowOne(s);
    forall i: nat | 1 <= i < 4
      ensures TwosByte(true, s, i) == 255 - s[i]
    {
      EqualAboveFirst(s, i);
    }
  }

  lemma {:induction false} EqualAboveFirst(s: seq<byte>, i: nat)
    requires 1 <= i && s != [] && s[0] != 0
    ensures Low(s, i) > 0
  {
    if i == 1 {
      LowOne(s);
    } else {
      EqualAboveFirst(s, i - 1);
      PlaceMono(0, ByteAt(s, i - 1), i - 1);
      PlaceZero(i - 1);
    }
  }

  /** Zero bytes: -(2^32 - 1) bitAnd: itself comes out as -255. */
  lemma LogicFailsOnZeroBytes()
    ensures var s: seq<byte> := [255, 255, 255, 255];
            && Signed(true, Value(s)) == -0xFFFF_FFFF == Perform(BitAnd, -0xFFFF_FFFF, -0xFFFF_FFFF)
            && Normalized(LogicAnswer(BitAnd, true, s, true, s, 4)) == -255
  {
    var s: seq<byte> := [255, 255, 255, 255];
    var b := OpBytes(BitAnd, true, s, true, s, 4);
    FourDigits(s);
    FourTwosBytes(s);
    AndSelf(1);
    AndSelf(0);
    AndSelf(-0xFFFF_FFFF);
    assert b == [1, 0, 0, 0];
    LowOne(b);
    FourDigits(StoredBytes(true, b));
    PerformSigns(BitAnd, true, true);
  }

  lemma GapOperands(s: seq<byte>, t: seq<byte>)
    requires s == [255, 255, 255, 63] && t == [254, 255, 255, 63]
    ensures Value(s) == GAP - 1 && Value(t) == GAP - 2
    ensures OpBytes(BitAnd, true, s, true, t, 4) == [0, 0, 0, 192]
  {
    FourDigits(s);
    FourDigits(t);
    FourTwosBytes(s);
    FourTwosBytes(t);
    AndSelf(0);
    AndSelf(192);
    PerformStep(BitAnd, 1, 2);
    AndZero(1);
    PerformStep(BitAnd, 0, 1);
  }

  lemma GapBytes(b: seq<byte>)
    requires b == [0, 0, 0, 192]
    ensures Complementable(b) && Value(StoredBytes(true, b)) == GAP && Weight(4) - Value(b) == GAP
  {
    FourDigits(b);
    LowZeros(b, 3);
    LowZeros(b, 2);
    LowZeros(b, 1);
    FourDigits(StoredBytes(true, b));
    assert Weight(4) == 4 * GAP;
  }

  /** The gap of normalize: -(2^30 - 1) bitAnd: -(2^30 - 2) is -2^30 and comes out as -2^50. */
  lemma LogicFailsAtGap()
    ensures var s: seq<byte>, t: seq<byte> := [255, 255, 255, 63], [254, 255, 255, 63];
            && Value(s) == GAP - 1 && Value(t) == GAP - 2 && Perform(BitAnd, 1 - GAP, 2 - GAP) == -GAP
            && Complementable(OpBytes(BitAnd, true, s, true, t, 4))
            && Normalized(LogicAnswer(BitAnd, true, s, true, t, 4)) == MIN_VAL
  {
    var s: seq<byte>, t: seq<byte> := [255, 255, 255, 63], [254, 255, 255, 63];
    GapOperands(s, t);
    GapBytes(OpBytes(BitAnd, true, s, true, t, 4));
    ExactResult(BitAnd, true, s, true, t, 4);
    PerformSigns(BitAnd, true, true);
  }

  // The methods

  /** One operand byte, complemented if the operand is negative; z tells whether only zeros came before. */
  method OperandByte(negative: bool, z: bool, s: seq<byte>, i: nat) returns (b: byte, z': bool)
    requires negative ==> (z <==> Low(s, i) == 0)
    ensures b == TwosByte(negative, s, i)
    ensures negative ==> (z' <==> Low(s, i + 1) == 0)
  {
    LowBounds(s, i);
    PlaceZero(i);
    if ByteAt(s, i) > 0 { PlaceMono(1, ByteAt(s, i), i); WeightPositive(i); }
    b, z' := ByteAt(s, i), z;
    if negative {
      if z {
        if b == 0 {
          b := 0;
        } else {
          z' := false;
          b := 256 - b;
        }
      } else {
        b := 255 - b;
      }
    }
  }

  /** The complementing of a result byte, which leaves zero bytes alone. */
  method StoreByte(rneg: bool, rz: bool, b: byte, ghost bytes: seq<byte>, ghost i: nat)
    returns (stored: byte, rz': bool)
    requires i < |bytes| && b == bytes[i] && (rneg ==> (rz <==> Low(bytes, i) == 0))
    ensures stored == StoredByte(rneg, bytes, i)
    ensures rneg ==> (rz' <==> Low(bytes, i + 1) == 0)
  {
    LowBounds(bytes, i);
    PlaceZero(i);
    if b > 0 { PlaceMono(1, b, i); WeightPositive(i); }
    rz' := rz;
    if b == 0 {
      stored := 0;
    } else if rneg {
      if rz {
        rz' := false;
        stored := 256 - b;
      } else {
        stored := 255 - b;
      }
    } else {
      stored := b;
    }
  }

  /** The flags of the loop: whether only zero bytes came before byte i. */
  ghost predicate Flags(neg1: bool, z1: bool, s: seq<byte>, neg2: bool, z2: bool, t: seq<byte>,
                        rneg: bool, rz: bool, bytes: seq<byte>, i: nat) {
    && (neg1 ==> (z1 <==> Low(s, i) == 0))
    && (neg2 ==> (z2 <==> Low(t, i) == 0))
    && (rneg ==> (rz <==> Low(bytes, i) == 0))
  }

  /** One round of the loop of digitLogic:op:length: */
  method LogicByte(op: Op, neg1: bool, z1: bool, s: seq<byte>, neg2: bool, z2: bool, t: seq<byte>,
                   rneg: bool, rz: bool, ghost bytes: seq<byte>, i: nat)
    returns (stored: byte, z1': bool, z2': bool, rz': bool)
    requires i < |bytes| && bytes[i] == OpByte(op, neg1, s, neg2, t, i)
    requires Flags(neg1, z1, s, neg2, z2, t, rneg, rz, bytes, i)
    ensures stored == StoredByte(rneg, bytes, i)
    ensures Flags(neg1, z1', s, neg2, z2', t, rneg, rz', bytes, i + 1)
  {
    var b1, b2;
    b1, z1' := OperandByte(neg1, z1, s, i);
    b2, z2' := OperandByte(neg2, z2, t, i);
    ByteOfOp(op, b1, b2);
    stored, rz' := StoreByte(rneg, rz, Perform(op, b1, b2), bytes, i);
  }

  /** The loop of digitLogic:op:length:, and its result before normalize. */
  method LogicBytes(self: array<byte>, neg1: bool, arg: Integer, op: Op, len: nat)
    returns (result: array<byte>, rneg: bool)
    ensures rneg == ResultNegative(op, neg1, Negative(arg)) && result.Length == len && fresh(result)
    ensures result[..] == StoredBytes(rneg, OpBytes(op, neg1, self[..], Negative(arg), Shown(arg), len))
  {
    var neg2 := Negative(arg);
    rneg := Perform(op, SignBits(neg1), SignBits(neg2)) < 0;
    result := new byte[len](_ => 0);
    var rz, z1, z2 := true, true, true;
    var s, t := self[..], Shown(arg);
    ghost var bytes := OpBytes(op, neg1, s, neg2, t, len);
    for i := 0 to len
      invariant Flags(neg1, z1, s, neg2, z2, t, rneg, rz, bytes, i)
      invariant forall j :: 0 <= j < i ==> result[j] == StoredByte(rneg, bytes, j)
    {
      result[i], z1, z2, rz := LogicByte(op, neg1, z1, s, neg2, z2, t, rneg, rz, bytes, i);
    }
  }

  method DigitLogic(self: array<byte>, neg1: bool, arg: Integer, op: Op, len: nat) returns (r: Integer)
    ensures Answers(r, LogicAnswer(op, neg1, self[..], Negative(arg), Shown(arg), len))
  {
    var result, rneg := LogicBytes(self, neg1, arg, op, len);
    r := Normalize(result, rneg);
  }

  // Arguments that are not seen whole

  /** The n lowest bytes of m. */
  function DigitsOf(m: nat, n: nat): (s: seq<byte>)
    ensures |s| == n
  {
    if n == 0 then [] else [m % 256] + DigitsOf(m / 256, n - 1)
  }

  lemma {:induction false} DigitsOfValue(m: nat, n: nat)
    requires m < Weight(n)
    ensures Value(DigitsOf(m, n)) == m
  {
    if n > 0 {
      var s := DigitsOf(m, n);
      DigitsOfValue(m / 256, n - 1);
      LowSplits(s, 1, n - 1);
      LowOne(s);
      assert s[1..] == DigitsOf(m / 256, n - 1);
    }
  }

  /** The bytes that a normalised argument shows: all, if it is a large integer. */
  lemma ArgumentBytes(n: Integer, norm: Integer)
    requires if n.Large? then Answers(norm, ValueOf(n)) else norm == n && MIN_VAL <= n.value < -MIN_VAL
    ensures Negative(norm) <==> ValueOf(n) < 0
    ensures if norm.Small? then MIN_VAL <= ValueOf(n) < -MIN_VAL && Value(Shown(norm)) == SmallMagnitude(ValueOf(n))
            else Value(Shown(norm)) == Abs(ValueOf(n))
    ensures Abs(ValueOf(n)) < Weight(|Shown(norm)|)
  {
    LowBounds(Shown(norm), |Shown(norm)|);
    FewBytes();
    match norm
    case Large(_, bytes) =>
    case Small(v) => SmallDigitsValue(v);
  }

  lemma Pow2Of32()
    ensures Pow2(32) == WORD4 && Pow2(30) == GAP && Pow2(24) == 0x100_0000 && Pow2(8) == 0x100
  {
    assert Pow2(8) == 0x100;
    assert Pow2(6) == 0x40;
    Pow2Add(8, 8);
    Pow2Add(8, 16);
    Pow2Add(24, 6);
    WordBits(32);
  }

  /** The lowest bit of m, k places up, is all that m and 1 have in common there. */
  lemma HighBitAlone(x: int, y: int, m: int, k: nat)
    requires x == ShiftUp(m, k) && y == ShiftUp(1, k) && m % 2 == 1
    ensures Perform(BitAnd, x, y) == y
  {
    PerformOnParts(BitAnd, k, x, m, 0, y, 1, 0);
    PerformStep(BitAnd, m, 1);
    AndZero(m / 2);
    AndZero(0);
  }

  lemma FortyUp(m: int)
    ensures ShiftUp(m, 40) == 0x100_0000_0000 * m
  {
    Pow2Of32();
    assert Pow2(8) == 0x100;
    Pow2Add(8, 32);
    ShiftUpIsTimesPow2(m, 40);
  }

  lemma HighBytes(s: seq<byte>)
    requires s == [0, 0, 0, 0, 0, 1, 1]
    ensures Value(s) == 0x1_0100_0000_0000
  {
    LowZeros(s, 5);
    FewBytes();
    assert Low(s, 6) == Low(s, 5) + Place(1, 5);
    assert Low(s, 7) == Low(s, 6) + Place(1, 6);
  }

  /** 2^48 + 2^40 bitAnd: 2^40 is 2^40; the argument is normalised to a SmallInteger, shows only zero bytes,
      and the result is zero. */
  lemma LogicFailsOnUnseenBytes()
    ensures var s: seq<byte> := [0, 0, 0, 0, 0, 1, 1];
            && Value(s) == 0x1_0100_0000_0000 && Perform(BitAnd, 0x1_0100_0000_0000, 0x100_0000_0000) == 0x100_0000_0000
            && Normalized(LogicAnswer(BitAnd, false, s, false, SmallDigits(0x100_0000_0000), 7)) == 0
  {
    var s: seq<byte> := [0, 0, 0, 0, 0, 1, 1];
    FortyUp(0x101);
    FortyUp(1);
    HighBitAlone(0x1_0100_0000_0000, 0x100_0000_0000, 0x101, 40);
    HighBytes(s);
    SmallDigitsValue(0x100_0000_0000);
    LogicExactIff(BitAnd, false, s, false, SmallDigits(0x100_0000_0000), 7);
    AndZero(0x1_0100_0000_0000);
    PerformSigns(BitAnd, false, false);
  }

  lemma {:induction false} XorKeepsOnly(x: int, y: int)
    requires Perform(BitXor, x, y) == Perform(BitXor, x, 0)
    ensures y == 0
    decreases Bits.Magnitude(x) + Bits.Magnitude(y)
  {
    PerformStep(BitXor, x, y);
    PerformStep(BitXor, x, 0);
    if Bits.Magnitude(x) + Bits.Magnitude(y) != 0 { XorKeepsOnly(x / 2, y / 2); }
  }

  lemma {:induction false} ShiftUpInjective(x: int, y: int, k: nat)
    ensures ShiftUp(x, k) == ShiftUp(y, k) <==> x == y
    decreases k
  {
    if k > 0 { ShiftUpInjective(x, y, k - 1); }
  }

  /** How many low bits byteAt: shows of the SmallInteger y. */
  function SeenBits(y: int): nat {
    if y == MIN_VAL then 30 else 32
  }

  /** A negative integer that shows only zero bytes. */
  predicate ShowsNothing(y: int) {
    y < 0 && SmallMagnitude(y) == 0
  }

  /** Whether a result that is not negative is right for the SmallInteger argument y: above the bits that it shows,
      either nothing but its sign matters, or it shows nothing and nothing of it matters. */
  predicate HighPartsAgree(op: Op, x: int, y: int) {
    var xh, yh := ShiftDown(x, SeenBits(y)), ShiftDown(y, SeenBits(y));
    if ShowsNothing(y) then op == BitAnd && Perform(BitAnd, xh, yh) == 0
    else Perform(op, xh, yh) == Perform(op, xh, SignBits(y < 0))
  }

  lemma SeenPow2(y: int, k: nat)
    requires k == SeenBits(y)
    ensures Pow2(k) == if y == MIN_VAL then GAP else WORD4
  {
    Pow2Of32();
  }

  lemma SeenRemainder32(y: int, z: int)
    requires MIN_VAL < y < -MIN_VAL && z == Signed(y < 0, Abs(y) % WORD4)
    ensures y % WORD4 == z % WORD4
    ensures z / WORD4 == if y < 0 && Abs(y) % WORD4 == 0 then 0 else SignBits(y < 0)
    ensures y < 0 && Abs(y) % WORD4 == 0 ==> y % WORD4 == 0
  {
  }

  lemma SeenRemainder(y: int, z: int, p: int)
    requires MIN_VAL <= y < -MIN_VAL && z == Signed(y < 0, SmallMagnitude(y))
    requires p == if y == MIN_VAL then GAP else WORD4
    ensures p > 0 && y % p == z % p && z / p == if ShowsNothing(y) then 0 else SignBits(y < 0)
    ensures ShowsNothing(y) ==> y % p == 0
  {
    if y == MIN_VAL {
      DivModUnique(y, -0x10_0000, 0, p);
      DivModUnique(z, -1, 0, p);
    } else {
      SeenRemainder32(y, z);
    }
  }

  /** The bits that y shows, and those above them. */
  lemma SeenParts(y: int, z: int, k: nat)
    requires MIN_VAL <= y < -MIN_VAL && z == Signed(y < 0, SmallMagnitude(y)) && k == SeenBits(y)
    ensures LowBits(z, k) == LowBits(y, k)
    ensures ShiftDown(z, k) == if ShowsNothing(y) then 0 else SignBits(y < 0)
    ensures ShowsNothing(y) ==> LowBits(y, k) == 0
  {
    SeenPow2(y, k);
    SeenRemainder(y, z, Pow2(k));
    ShiftDownIsDivision(y, k);
    ShiftDownIsDivision(z, k);
  }

  /** The operation on y and on what y shows, on the two parts. */
  lemma PerformSeen(op: Op, x: int, y: int, z: int)
    requires MIN_VAL <= y < -MIN_VAL && z == Signed(y < 0, SmallMagnitude(y)) && !ShowsNothing(y)
    ensures Perform(op, x, z) == Perform(op, x, y) <==> HighPartsAgree(op, x, y)
  {
    var k := SeenBits(y);
    var xh, xl, yh, yl := ShiftDown(x, k), LowBits(x, k), ShiftDown(y, k), LowBits(y, k);
    SeenParts(y, z, k);
    ShiftDownSplits(x, k);
    ShiftDownSplits(y, k);
    ShiftDownSplits(z, k);
    PerformOnParts(op, k, x, xh, xl, y, yh, yl);
    PerformOnParts(op, k, x, xh, xl, z, SignBits(y < 0), yl);
    ShiftUpInjective(Perform(op, xh, yh), Perform(op, xh, SignBits(y < 0)), k);
  }

  /** If y shows nothing, x bitAnd: y vanishes with its high part. */
  lemma AndWithHidden(x: int, y: int)
    requires MIN_VAL <= y && ShowsNothing(y)
    ensures Perform(BitAnd, x, y) == 0 <==> HighPartsAgree(BitAnd, x, y)
  {
    var k := SeenBits(y);
    var xh, xl, yh := ShiftDown(x, k), LowBits(x, k), ShiftDown(y, k);
    SeenParts(y, 0, k);
    ShiftDownSplits(x, k);
    ShiftDownSplits(y, k);
    PerformOnParts(BitAnd, k, x, xh, xl, y, yh, 0);
    AndZero(xl);
    ShiftUpZero(k);
    ShiftUpInjective(Perform(BitAnd, xh, yh), 0, k);
  }

  /** The bytes of an argument that shows nothing do not contribute: bitAnd: gives zeros, bitXor: the bytes of x. */
  lemma HiddenBytes(op: Op, neg1: bool, s: seq<byte>, t: seq<byte>, len: nat)
    requires |t| <= len && Value(t) == 0
    ensures Value(OpBytes(op, neg1, s, true, t, len)) == Perform(op, TwosLow(neg1, s, len), 0)
  {
    OpBytesPerform(op, neg1, s, true, t, len, len);
    LowBeyond(t, len);
    TwosLowComplements(t, len);
  }

  /** A result that is not negative comes out with the bytes that were combined. */
  lemma PlainAnswer(op: Op, neg1: bool, s: seq<byte>, neg2: bool, t: seq<byte>, len: nat)
    requires !ResultNegative(op, neg1, neg2)
    ensures Normalized(LogicAnswer(op, neg1, s, neg2, t, len)) == Value(OpBytes(op, neg1, s, neg2, t, len))
  {
    var b := OpBytes(op, neg1, s, neg2, t, len);
    LowFrame(StoredBytes(false, b), b, len);
    LowBounds(b, len);
  }

  lemma HiddenExactIff(op: Op, neg1: bool, s: seq<byte>, t: seq<byte>, y: int, len: nat)
    requires Operand(neg1, s, len) && |t| <= len && Value(t) == 0
    requires MIN_VAL <= y && ShowsNothing(y) && Abs(y) < Weight(len) && !ResultNegative(op, neg1, true)
    ensures Normalized(LogicAnswer(op, neg1, s, true, t, len)) == Perform(op, Signed(neg1, Value(s)), y)
       <==> HighPartsAgree(op, Signed(neg1, Value(s)), y)
  {
    var x, u := Signed(neg1, Value(s)), DigitsOf(Abs(y), len);
    PlainAnswer(op, neg1, s, true, t, len);
    HiddenBytes(op, neg1, s, t, len);
    PerformSigns(op, neg1, true);
    if op == BitAnd {
      AndZero(TwosLow(neg1, s, len));
      AndWithHidden(x, y);
    } else {
      assert op == BitXor;
      DigitsOfValue(Abs(y), len);
      ExactResult(op, neg1, s, true, u, len);
      OpBytesPerform(op, neg1, s, true, u, len, len);
      TwosLowComplements(u, len);
      if Perform(op, x, y) == Perform(op, TwosLow(neg1, s, len), 0) {
        XorKeepsOnly(TwosLow(neg1, s, len), TwosLow(true, u, len));
      }
    }
  }

  /** A result that is not negative, for the SmallInteger y. */
  lemma PlainExactIff(op: Op, neg1: bool, s: seq<byte>, t: seq<byte>, y: int, len: nat)
    requires Operand(neg1, s, len) && |t| <= len && Value(t) == SmallMagnitude(y)
    requires MIN_VAL <= y < -MIN_VAL && Abs(y) < Weight(len) && !ResultNegative(op, neg1, y < 0)
    ensures Normalized(LogicAnswer(op, neg1, s, y < 0, t, len)) == Perform(op, Signed(neg1, Value(s)), y)
       <==> HighPartsAgree(op, Signed(neg1, Value(s)), y)
  {
    if ShowsNothing(y) {
      HiddenExactIff(op, neg1, s, t, y, len);
    } else {
      PlainAnswer(op, neg1, s, y < 0, t, len);
      ExactResult(op, neg1, s, y < 0, t, len);
      PerformSeen(op, Signed(neg1, Value(s)), y, Signed(y < 0, SmallMagnitude(y)));
    }
  }

  /** The condition for a right result with the bytes s and the argument y, which is small if normalize takes it for a
      SmallInteger, and shows the bytes t. */
  predicate Rightly(op: Op, neg1: bool, s: seq<byte>, small: bool, y: int, t: seq<byte>, len: nat) {
    if ResultNegative(op, neg1, y < 0) then
      Fits(OpBytes(op, neg1, s, y < 0, t, len), OpBytes(op, neg1, s, y < 0, DigitsOf(Abs(y), len), len))
    else
      small ==> HighPartsAgree(op, Signed(neg1, Value(s)), y)
  }

  lemma RightlyIff(op: Op, neg1: bool, s: seq<byte>, small: bool, y: int, t: seq<byte>, len: nat)
    requires Operand(neg1, s, len) && |t| <= len && Abs(y) < Weight(len)
    requires if small then MIN_VAL <= y < -MIN_VAL && Value(t) == SmallMagnitude(y) else Value(t) == Abs(y)
    ensures Normalized(LogicAnswer(op, neg1, s, y < 0, t, len)) == Perform(op, Signed(neg1, Value(s)), y)
       <==> Rightly(op, neg1, s, small, y, t, len)
  {
    if ResultNegative(op, neg1, y < 0) {
      var u := DigitsOf(Abs(y), len);
      DigitsOfValue(Abs(y), len);
      ExactResult(op, neg1, s, y < 0, u, len);
      NegativeExactIff(OpBytes(op, neg1, s, y < 0, t, len), OpBytes(op, neg1, s, y < 0, u, len));
    } else if small {
      PlainExactIff(op, neg1, s, t, y, len);
    } else {
      LogicExactIff(op, neg1, s, y < 0, t, len);
    }
  }

  /** When all of the argument is seen, the condition is the one of LogicExactIff. */
  lemma RightlyWhenSeen(op: Op, neg1: bool, s: seq<byte>, small: bool, y: int, t: seq<byte>, len: nat)
    requires Operand(neg1, s, len) && |t| <= len && Value(t) == Abs(y) < Weight(len)
    requires small ==> MIN_VAL <= y < -MIN_VAL && Abs(y) == SmallMagnitude(y)
    ensures Rightly(op, neg1, s, small, y, t, len)
       <==> !ResultNegative(op, neg1, y < 0) || Survives(OpBytes(op, neg1, s, y < 0, t, len))
  {
    RightlyIff(op, neg1, s, small, y, t, len);
    LogicExactIff(op, neg1, s, y < 0, t, len);
  }

  lemma {:induction false} AndOnes(x: int)
    ensures Perform(BitAnd, x, -1) == x && Perform(BitAnd, -1, x) == x
    decreases Bits.Magnitude(x)
  {
    if Bits.Magnitude(x) != 0 { AndOnes(x / 2); }
  }

  lemma AndAbove(x: int, y: int, xh: int, k: nat)
    requires x == ShiftUp(xh, k) && y == ShiftUp(-1, k)
    ensures Perform(BitAnd, x, y) == x
  {
    PerformOnParts(BitAnd, k, x, xh, 0, y, -1, 0);
    AndOnes(xh);
    AndZero(0);
  }

  /** 2^56 bitAnd: -2^32 is 2^56; the argument shows only zero bytes, and the result is zero. */
  lemma LogicFailsOnHiddenNegative()
    ensures var s := OneByte(8, 7, 1);
            && Value(s) == 0x100_0000_0000_0000 && Perform(BitAnd, 0x100_0000_0000_0000, -WORD4) == 0x100_0000_0000_0000
            && Normalized(LogicAnswer(BitAnd, false, s, true, SmallDigits(-WORD4), 8)) == 0
  {
    var s, t := OneByte(8, 7, 1), SmallDigits(-WORD4);
    OneByteValue(8, 7, 1);
    FewBytes();
    Pow2Of32();
    ShiftUpIsTimesPow2(0x100_0000, 32);
    ShiftUpIsTimesPow2(-1, 32);
    AndAbove(0x100_0000_0000_0000, -WORD4, 0x100_0000, 32);
    SmallDigitsValue(-WORD4);
    PerformSigns(BitAnd, false, true);
    PlainAnswer(BitAnd, false, s, true, t, 8);
    HiddenBytes(BitAnd, false, s, t, 8);
    AndZero(TwosLow(false, s, 8));
  }

  /** The complement of a digit string with byte k only. */
  lemma OneByteComplement(n: nat, k: nat, b: byte, i: nat)
    requires k < n && b > 0
    ensures TwosByte(true, OneByte(n, k, b), i) == if i < k then 0 else if i == k then 256 - b else 255
  {
    var s := OneByte(n, k, b);
    if i <= k {
      LowZeros(s, i);
    } else {
      LowZeros(s, k);
      LowAboveZeros(s, k + 1, i);
      PlaceMono(1, b, k);
      WeightPositive(k);
    }
  }

  /** A byte bitAnd: 255. */
  lemma ByteAndOnes(b: byte)
    ensures Perform(BitAnd, 255, b) == b
  {
    Pow2Of32();
    ShiftUpZero(8);
    ShiftUpIsTimesPow2(-1, 8);
    PerformOnParts(BitAnd, 8, -1, -1, 255, b, 0, b);
    AndOnes(b);
    AndOnes(0);
  }

  lemma AndMultiples()
    ensures Perform(BitAnd, -0x100_0000, MIN_VAL) == MIN_VAL
  {
    Pow2Of32();
    ShiftUpIsTimesPow2(-1, 24);
    ShiftUpIsTimesPow2(-0x400_0000, 24);
    PerformOnParts(BitAnd, 24, -0x100_0000, -1, 0, MIN_VAL, -0x400_0000, 0);
    AndOnes(-0x400_0000);
    AndZero(0);
  }

  /** -2^24 bitAnd: minVal is right only because of two mistakes: the bytes shown give -2^30, of which normalize makes
      minVal. */
  lemma TwoMistakesCancel()
    ensures var s, t := OneByte(4, 3, 1), SmallDigits(MIN_VAL);
            && Value(s) == 0x100_0000 && Value(t) == GAP
            && Normalized(LogicAnswer(BitAnd, true, s, true, t, 7)) == MIN_VAL == Perform(BitAnd, -0x100_0000, MIN_VAL)
  {
    var s, t := OneByte(4, 3, 1), SmallDigits(MIN_VAL);
    OneByteValue(4, 3, 1);
    SmallDigitsValue(MIN_VAL);
    PerformSigns(BitAnd, true, true);
    var p := OpBytes(BitAnd, true, s, true, t, 7);
    assert t == OneByte(7, 3, 64);
    forall i: nat | i < 7
      ensures p[i] == if i < 3 then 0 else if i == 3 then 192 else 255
    {
      OneByteComplement(7, 3, 64, i);
      OneByteComplement(4, 3, 1, i);
      AndZero(0);
      ByteAndOnes(192);
      ByteAndOnes(255);
    }
    StoredAsGapIff(p);
    AndMultiples();
  }

  function Max(m: nat, n: nat): nat {
    if m < n then n else m
  }

  /** bitAnd:, bitOr: and bitXor: with an integer n, which is normalised first; norm is what that gives. */
  method BitOperation(self: array<byte>, neg1: bool, n: Integer, op: Op) returns (r: Integer, norm: Integer)
    requires neg1 ==> Value(self[..]) != 0
    requires if n.Large? then n.negative ==> Value(n.bytes[..]) != 0 else MIN_VAL <= n.value < -MIN_VAL
    ensures if n.Large? then Answers(norm, ValueOf(n)) else norm == n
    ensures var x, y, len := Signed(neg1, Value(self[..])), ValueOf(n), Max(self.Length, |Shown(norm)|);
            && Answers(r, LogicAnswer(op, neg1, self[..], y < 0, Shown(norm), len))
            && (ValueOf(r) == Perform(op, x, y) <==> Rightly(op, neg1, self[..], norm.Small?, y, Shown(norm), len))
  {
    var arg := n;
    if n.Large? { arg := Normalize(n.bytes, n.negative); }
    var len := Max(self.Length, |Shown(arg)|);
    r := DigitLogic(self, neg1, arg, op, len);
    norm := arg;
    ghost var s, t, y := self[..], Shown(arg), ValueOf(n);
    ArgumentBytes(n, arg);
    WeightMono(|t|, len);
    RightlyIff(op, neg1, s, arg.Small?, y, t, len);
  }
}
