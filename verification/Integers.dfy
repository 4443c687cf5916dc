/** +, - and * of any two integers. The primitives of SmallInteger succeed exactly for SmallIntegers with a
    SmallInteger as result; everything else is computed from the bytes that the operands show.
 */
module Integers {
  import opened Bits
  import opened Digits
  import opened Arithmetic
  import opened Operands

  const WORD3: int := 0x100_0000
  const MAX_VAL: int := 0x3_FFFF_FFFF_FFFF

  predicate IsSmall(v: int) {
    MIN_VAL <= v <= MAX_VAL
  }

  /** A SmallInteger in its range, or a byte object as normalize, digitLshift: and negated leave it: without
      leading zeros, and at least 2^24. */
  ghost predicate Proper(n: Integer)
    reads if n.Large? then {n.bytes} else {}
  {
    match n
    case Small(v) => IsSmall(v)
    case Large(_, bytes) => Trimmed(bytes[..]) && Value(bytes[..]) >= WORD3
  }

  /** An integer without its bytes: whether it is a byte object, and its value. */
  datatype Whole = Whole(large: bool, value: int)

  function Int(v: int): Whole {
    Whole(false, v)
  }

  ghost function WholeOf(n: Integer): Whole
    reads if n.Large? then {n.bytes} else {}
  {
    Whole(n.Large?, ValueOf(n))
  }

  predicate Possible(w: Whole) {
    if w.large then Abs(w.value) >= WORD3 else IsSmall(w.value)
  }

  /** A SmallInteger whose bytes do not amount to its magnitude. */
  predicate Unseen(w: Whole) {
    !w.large && Abs(w.value) >= WORD4
  }

  /** What the bytes of an integer amount to. */
  function Seen(w: Whole): int {
    if w.large then Abs(w.value) else SmallMagnitude(w.value)
  }

  /** How many bytes an integer shows. */
  function SeenLength(w: Whole): nat {
    if w.large then ByteLength(Abs(w.value)) else SmallBytesCount(w.value)
  }

  function ByteLength(m: nat): nat {
    (BitLength(m) + 7) / 8
  }

  /** What normalize makes of the value v. */
  function Settled(v: int): Whole {
    if (if v >= 0 then v < WORD6 else v > -WORD3 || v == -GAP) then Whole(false, Normalized(v)) else Whole(true, v)
  }

  lemma SettledAnswers(n: Integer, v: int)
    requires Answers(n, v)
    ensures Proper(n) && WholeOf(n) == Settled(v) && Possible(Settled(v))
  {
    if n.Large? { LowBounds(n.bytes[..], n.bytes.Length); }
  }

  lemma SeenBounds(w: Whole)
    requires Possible(w)
    ensures 0 <= Seen(w) <= Abs(w.value)
    ensures if Unseen(w) then Seen(w) < WORD4 && Abs(w.value) - Seen(w) >= WORD4 else Seen(w) == Abs(w.value)
    ensures Unseen(w) && w.value != MIN_VAL ==> (Abs(w.value) - Seen(w)) % WORD4 == 0
  {
  }

  lemma {:induction false} TrimmedLength(s: seq<byte>)
    requires Trimmed(s) && s != []
    ensures Value(s) > 0 && |s| == ByteLength(Value(s))
    ensures Weight(|s| - 1) <= Value(s) < Weight(|s|)
  {
    TrimmedBounds(s);
    TopByte(s, |s|, Value(s), Weight(|s|), Weight(|s| - 1));
  }

  lemma TopByte(s: seq<byte>, n: nat, v: nat, above: int, below: int)
    requires n > 0 && above == Weight(n) && below == Weight(n - 1) && below <= v < above
    ensures n == ByteLength(v)
  {
    BitLengthBounds(v);
    PlaceIsShift(1, n, 8 * n);
    ShiftUpOne(8 * n);
    PlaceIsShift(1, n - 1, 8 * (n - 1));
    ShiftUpOne(8 * (n - 1));
    if BitLength(v) > 8 * n { Pow2Mono(8 * n, BitLength(v) - 1); }
    if BitLength(v) <= 8 * (n - 1) { Pow2Mono(BitLength(v), 8 * (n - 1)); }
  }

  lemma ByteLengthBounds(v: nat)
    requires v > 0
    ensures ByteLength(v) > 0 && Weight(ByteLength(v) - 1) <= v < Weight(ByteLength(v))
  {
    var n, h := ByteLength(v), BitLength(v);
    BitLengthBounds(v);
    PlaceIsShift(1, n, 8 * n);
    ShiftUpOne(8 * n);
    Pow2Mono(h, 8 * n);
    PlaceIsShift(1, n - 1, 8 * (n - 1));
    ShiftUpOne(8 * (n - 1));
    Pow2Mono(8 * (n - 1), h - 1);
  }

  lemma LargeLength(w: Whole)
    requires Possible(w) && w.large
    ensures SeenLength(w) > 3 && Weight(SeenLength(w) - 1) <= Abs(w.value) < Weight(SeenLength(w))
  {
    ByteLengthBounds(Abs(w.value));
    FewBytes();
    if SeenLength(w) <= 3 { WeightMono(SeenLength(w), 3); }
  }

  lemma SmallLength(w: Whole)
    requires Possible(w) && !w.large
    ensures 0 < SeenLength(w) <= 7 && Abs(w.value) < Weight(SeenLength(w))
    ensures Unseen(w) ==> SeenLength(w) > 4 && (w.value != MIN_VAL ==> Weight(SeenLength(w) - 1) <= Abs(w.value))
    ensures !Unseen(w) ==> SeenLength(w) <= 4 && (w.value != 0 ==> Weight(SeenLength(w) - 1) <= Abs(w.value))
  {
    FewBytes();
    assert Weight(0) == 1;
  }

  /** Of two integers the one with fewer bytes is smaller, if it is a large one or all its bytes are seen. */
  lemma LengthDecides(a: Whole, b: Whole)
    requires Possible(a) && Possible(b) && SeenLength(a) < SeenLength(b)
             && (b.large || (b.value != 0 && b.value != MIN_VAL))
    ensures Abs(a.value) < Abs(b.value)
  {
    if a.large { LargeLength(a); } else { SmallLength(a); }
    if b.large { LargeLength(b); } else { SmallLength(b); }
    WeightMono(SeenLength(a), SeenLength(b) - 1);
  }

  /** What Integer and bytes have to do with each other. */
  lemma ShownIsSeen(n: Integer)
    requires Proper(n)
    ensures Possible(WholeOf(n)) && (Negative(n) <==> ValueOf(n) < 0)
    ensures Value(Shown(n)) == Seen(WholeOf(n)) && |Shown(n)| == SeenLength(WholeOf(n)) > 0
    ensures Trimmed(Shown(n)) <==> !Unseen(WholeOf(n)) && ValueOf(n) != 0
  {
    match n
    case Large(negative, bytes) =>
      LowBounds(bytes[..], bytes.Length);
      TrimmedLength(bytes[..]);
    case Small(v) =>
      SmallDigitsValue(v);
      if 0 < Abs(v) < WORD4 {
        SmallDigitsTrimmed(v);
      } else if v != 0 {
        SmallDigitsPadded(v);
      }
  }

  // The operations on values

  /** What * answers. */
  function ProductOf(a: Whole, b: Whole): Whole {
    var product := a.value * b.value;
    if !a.large && !b.large && IsSmall(product) then Whole(false, product)
    else Settled(Signed((a.value < 0) != (b.value < 0), Seen(a) * Seen(b)))
  }

  /** The difference of what the bytes show, by digitSubtract: */
  function SeenDifference(a: Whole, b: Whole): int {
    var d := Seen(a) - Seen(b);
    if SeenLength(a) < SeenLength(b) && d > 0 then d - Weight(SeenLength(b))
    else if SeenLength(a) > SeenLength(b) && d < 0 then d + Weight(SeenLength(a))
    else d
  }

  /** The sum of the magnitudes of a and b with the sign of a, or the difference, for the operands of a primitive
      that has failed. */
  function Combined(a: Whole, b: Whole, add: bool): Whole {
    Settled(Signed(a.value < 0, if add then Seen(a) + Seen(b) else SeenDifference(a, b)))
  }

  /** What + answers. */
  function SumOf(a: Whole, b: Whole): Whole {
    if !a.large && !b.large && IsSmall(a.value + b.value) then Whole(false, a.value + b.value)
    else Combined(a, b, (a.value < 0) == (b.value < 0))
  }

  /** What - answers. */
  function DifferenceOf(a: Whole, b: Whole): Whole {
    if !a.large && !b.large && IsSmall(a.value - b.value) then Whole(false, a.value - b.value)
    else Combined(a, b, (a.value < 0) != (b.value < 0))
  }

  /** The condition for all three: a primitive succeeds, or all bytes are seen and the result is not -2^30. */
  predicate Exactly(a: Whole, b: Whole, result: int) {
    (!a.large && !b.large && IsSmall(result)) || (!Unseen(a) && !Unseen(b) && result != -GAP)
  }

  lemma SettledValue(v: int)
    ensures Possible(Settled(v))
    ensures Settled(v).value == if v == -GAP then MIN_VAL else v
  {
  }

  /** An unseen part is lost for good in a product. */
  lemma ProductLoses(s: int, m: int, n: int)
    requires 0 <= s && s + WORD4 <= m && n >= 0
    ensures s * n + WORD4 * n <= m * n
  {
    MulMono(s + WORD4, m, n);
    assert (s + WORD4) * n == s * n + WORD4 * n;
  }

  lemma SignsOfProduct(x: int, y: int)
    ensures x * y == Signed((x < 0) != (y < 0), Abs(x) * Abs(y))
  {
    var m: int, n: int := Abs(x), Abs(y);
    assert (-m) * n == -(m * n);
    assert m * (-n) == -(m * n);
    assert (-m) * (-n) == -(m * (-n));
  }

  /** * is exact in no other case. */
  lemma ProductExactIff(a: Whole, b: Whole)
    requires Possible(a) && Possible(b)
    ensures ProductOf(a, b).value == a.value * b.value <==> Exactly(a, b, a.value * b.value)
    ensures Possible(ProductOf(a, b))
  {
    var m, n := Abs(a.value), Abs(b.value);
    var product := a.value * b.value;
    SeenBounds(a);
    SeenBounds(b);
    SignsOfProduct(a.value, b.value);
    SettledValue(Signed((a.value < 0) != (b.value < 0), Seen(a) * Seen(b)));
    if !(!a.large && !b.large && IsSmall(product)) {
      if Unseen(a) || Unseen(b) { UnseenFactor(a, b, m, n); }
    }
  }

  lemma UnseenFactor(a: Whole, b: Whole, m: nat, n: nat)
    requires Possible(a) && Possible(b) && m == Abs(a.value) && n == Abs(b.value) && (Unseen(a) || Unseen(b))
    requires a.large || b.large || m * n > MAX_VAL
    ensures 0 <= Seen(a) * Seen(b) < m * n
    ensures a.large || b.large ==> m * n - Seen(a) * Seen(b) >= -MIN_VAL
  {
    SeenBounds(a);
    SeenBounds(b);
    var s: int, t: int := Seen(a), Seen(b);
    MulMono(0, s, t);
    MulMono(t, n, s);
    assert t * s == s * t && n * s == s * n;
    if Unseen(a) {
      ProductLoses(s, m, n);
      if b.large { MulMono(WORD3, n, WORD4); }
      assert n == 0 ==> m * n == 0;
    } else {
      ProductLoses(t, n, m);
      MulMono(s, m, t);
      if a.large { MulMono(WORD3, m, WORD4); }
      assert m == 0 ==> m * n == 0;
    }
  }

  /** digitSubtract: gives the difference of the magnitudes if and only if all bytes are seen. */
  lemma SeenDifferenceIff(a: Whole, b: Whole)
    requires Possible(a) && Possible(b) && (a.large || b.large)
    ensures SeenDifference(a, b) == Abs(a.value) - Abs(b.value) <==> !Unseen(a) && !Unseen(b)
    ensures SeenDifference(a, b) == GAP ==> Abs(a.value) - Abs(b.value) != -MIN_VAL
    ensures SeenDifference(a, b) == -GAP ==> Abs(a.value) - Abs(b.value) != MIN_VAL
  {
    SeenBounds(a);
    SeenBounds(b);
    if a.large { LargeLength(a); } else { SmallLength(a); }
    if b.large { LargeLength(b); } else { SmallLength(b); }
    if SeenLength(a) < SeenLength(b) {
      if b.large { LengthDecides(a, b); }
      WeightMono(SeenLength(a), SeenLength(b) - 1);
    } else if SeenLength(a) > SeenLength(b) {
      if a.large { LengthDecides(b, a); }
      WeightMono(SeenLength(b), SeenLength(a) - 1);
    }
  }

  lemma SeenSumIff(a: Whole, b: Whole)
    requires Possible(a) && Possible(b)
    requires a.large || b.large || Abs(a.value) + Abs(b.value) > MAX_VAL
    ensures Seen(a) + Seen(b) == Abs(a.value) + Abs(b.value) <==> !Unseen(a) && !Unseen(b)
    ensures a.large || b.large ==> Seen(a) + Seen(b) == GAP ==> Abs(a.value) + Abs(b.value) != -MIN_VAL
  {
    SeenBounds(a);
    SeenBounds(b);
  }

  lemma CombinedIff(a: Whole, b: Whole, add: bool, result: int)
    requires Possible(a) && Possible(b)
             && result == Signed(a.value < 0, if add then Abs(a.value) + Abs(b.value) else Abs(a.value) - Abs(b.value))
    requires a.large || b.large || (add && !IsSmall(result))
    ensures Combined(a, b, add).value == result <==> !Unseen(a) && !Unseen(b) && result != -GAP
    ensures Possible(Combined(a, b, add))
  {
    SettledValue(Signed(a.value < 0, if add then Seen(a) + Seen(b) else SeenDifference(a, b)));
    if add { SeenSumIff(a, b); } else { SeenDifferenceIff(a, b); }
  }

  /** + is exact in no other case. */
  lemma SumExactIff(a: Whole, b: Whole)
    requires Possible(a) && Possible(b)
    ensures SumOf(a, b).value == a.value + b.value <==> Exactly(a, b, a.value + b.value)
    ensures Possible(SumOf(a, b))
  {
    if !(!a.large && !b.large && IsSmall(a.value + b.value)) {
      CombinedIff(a, b, (a.value < 0) == (b.value < 0), a.value + b.value);
    }
  }

  /** - is exact in no other case. */
  lemma DifferenceExactIff(a: Whole, b: Whole)
    requires Possible(a) && Possible(b)
    ensures DifferenceOf(a, b).value == a.value - b.value <==> Exactly(a, b, a.value - b.value)
    ensures Possible(DifferenceOf(a, b))
  {
    if !(!a.large && !b.large && IsSmall(a.value - b.value)) {
      CombinedIff(a, b, (a.value < 0) != (b.value < 0), a.value - b.value);
    }
  }

  /** The integer that the sign and the bytes of w stand for. */
  function SeenValue(w: Whole): int {
    Signed(w.value < 0, Seen(w))
  }

  /** Whatever is lost, a product that no primitive gives is normalised from the product of what the bytes show. */
  lemma ProductOfSeen(a: Whole, b: Whole)
    requires Possible(a) && Possible(b) && (a.large || b.large || !IsSmall(a.value * b.value))
    ensures ProductOf(a, b).value == Normalized(SeenValue(a) * SeenValue(b))
  {
    var x, y := SeenValue(a), SeenValue(b);
    SeenBounds(a);
    SeenBounds(b);
    SignsOfProduct(x, y);
    if Seen(a) == 0 || Seen(b) == 0 { assert x * y == 0; }
  }

  /** What is borrowed too much when the integer with more bytes shows less, which digitSubtract: takes for the larger
      one: 256^length, with the sign of that integer. */
  function Borrowed(a: Whole, b: Whole, negative: bool): int {
    if SeenLength(a) < SeenLength(b) && Seen(a) > Seen(b) then Signed(negative, Weight(SeenLength(b)))
    else if SeenLength(a) > SeenLength(b) && Seen(a) < Seen(b) then Signed(a.value < 0, Weight(SeenLength(a)))
    else 0
  }

  lemma CombinedOfSeen(a: Whole, b: Whole, add: bool)
    ensures var negative := (a.value < 0) == add;
            Combined(a, b, add).value == Normalized(SeenValue(a) + Signed(negative, Seen(b))
                                                    + if add then 0 else Borrowed(a, b, negative))
  {
    SettledValue(Signed(a.value < 0, if add then Seen(a) + Seen(b) else SeenDifference(a, b)));
  }

  /** A sum that no primitive gives is normalised from the sum of what the bytes show. */
  lemma SumOfSeen(a: Whole, b: Whole)
    requires a.large || b.large || !IsSmall(a.value + b.value)
    ensures SumOf(a, b).value == Normalized(SeenValue(a) + SeenValue(b)
                                            + if (a.value < 0) == (b.value < 0) then 0 else Borrowed(a, b, b.value < 0))
  {
    CombinedOfSeen(a, b, (a.value < 0) == (b.value < 0));
  }

  /** So is a difference. */
  lemma DifferenceOfSeen(a: Whole, b: Whole)
    requires a.large || b.large || !IsSmall(a.value - b.value)
    ensures DifferenceOf(a, b).value == Normalized(SeenValue(a) - SeenValue(b)
                                                   + if (a.value < 0) != (b.value < 0) then 0
                                                     else Borrowed(a, b, b.value >= 0))
  {
    CombinedOfSeen(a, b, (a.value < 0) != (b.value < 0));
  }

  /** 2^60 + 2^40 loses the SmallInteger, 2^49 * 10 comes out as zero. */
  lemma BytesAreLost()
    ensures SumOf(Whole(true, 0x1000_0000_0000_0000), Whole(false, 0x100_0000_0000)).value == 0x1000_0000_0000_0000
    ensures ProductOf(Whole(false, 0x2_0000_0000_0000), Whole(false, 10)) == Whole(false, 0)
  {
  }

  // The operations

  /** The magnitudes of a and b added or subtracted, with the sign of a. */
  method Combine(a: Integer, b: Integer, add: bool) returns (r: Integer)
    requires Proper(a) && Proper(b)
    ensures Proper(r) && WholeOf(r) == Combined(WholeOf(a), WholeOf(b), add)
  {
    var self := BytesOf(a);
    var arg := BytesOf(b);
    ghost var x, y, s, t := WholeOf(a), WholeOf(b), Shown(a), Shown(b);
    ShownIsSeen(a);
    ShownIsSeen(b);
    if add {
      var sum := DigitAdd(self, arg);
      r := Normalize(sum, Negative(a));
      SettledAnswers(r, Signed(x.value < 0, Seen(x) + Seen(y)));
    } else {
      r := DigitSubtract(self, Negative(a), arg);
      DifferenceIsSeen(x, y, s, t);
      SettledAnswers(r, Signed(x.value < 0, SeenDifference(x, y)));
    }
  }

  lemma DifferenceIsSeen(a: Whole, b: Whole, s: seq<byte>, t: seq<byte>)
    requires Value(s) == Seen(a) && |s| == SeenLength(a) && Value(t) == Seen(b) && |t| == SeenLength(b)
    ensures Difference(s, t) == SeenDifference(a, b)
  {
  }

  method Add(a: Integer, b: Integer) returns (r: Integer)
    requires Proper(a) && Proper(b)
    ensures Proper(r) && WholeOf(r) == SumOf(WholeOf(a), WholeOf(b))
    ensures ValueOf(r) == ValueOf(a) + ValueOf(b) <==> Exactly(WholeOf(a), WholeOf(b), ValueOf(a) + ValueOf(b))
  {
    ShownIsSeen(a);
    ShownIsSeen(b);
    SumExactIff(WholeOf(a), WholeOf(b));
    if a.Small? && b.Small? && IsSmall(a.value + b.value) { return Small(a.value + b.value); }
    r := Combine(a, b, Negative(a) == Negative(b));
  }

  method Subtract(a: Integer, b: Integer) returns (r: Integer)
    requires Proper(a) && Proper(b)
    ensures Proper(r) && WholeOf(r) == DifferenceOf(WholeOf(a), WholeOf(b))
    ensures ValueOf(r) == ValueOf(a) - ValueOf(b) <==> Exactly(WholeOf(a), WholeOf(b), ValueOf(a) - ValueOf(b))
  {
    ShownIsSeen(a);
    ShownIsSeen(b);
    DifferenceExactIff(WholeOf(a), WholeOf(b));
    if a.Small? && b.Small? && IsSmall(a.value - b.value) { return Small(a.value - b.value); }
    r := Combine(a, b, Negative(a) != Negative(b));
  }

  method Multiply(a: Integer, b: Integer) returns (r: Integer)
    requires Proper(a) && Proper(b)
    ensures Proper(r) && WholeOf(r) == ProductOf(WholeOf(a), WholeOf(b))
    ensures ValueOf(r) == ValueOf(a) * ValueOf(b) <==> Exactly(WholeOf(a), WholeOf(b), ValueOf(a) * ValueOf(b))
  {
    ShownIsSeen(a);
    ShownIsSeen(b);
    ProductExactIff(WholeOf(a), WholeOf(b));
    if a.Small? && b.Small? && IsSmall(a.value * b.value) { return Small(a.value * b.value); }
    var self := BytesOf(a);
    var arg := BytesOf(b);
    r := DigitMultiply(self, arg, Negative(a) != Negative(b));
    SettledAnswers(r, Signed(Negative(a) != Negative(b), Value(Shown(a)) * Value(Shown(b))));
  }

  /** What negated answers: a large negative integer keeps its bytes, a large positive one is normalised. */
  function NegatedOf(w: Whole): Whole {
    if !w.large then DifferenceOf(Whole(false, 0), w)
    else if w.value < 0 then Whole(true, -w.value)
    else Settled(-w.value)
  }

  /** The negative of every integer but minVal, and 2^30 as a byte object. */
  lemma NegatedExactIff(w: Whole)
    requires Possible(w)
    ensures NegatedOf(w).value == -w.value <==> w != Whole(false, MIN_VAL) && w != Whole(true, GAP)
    ensures w == Whole(false, MIN_VAL) ==> NegatedOf(w) == Whole(false, GAP)
    ensures w == Whole(true, GAP) ==> NegatedOf(w) == Whole(false, MIN_VAL)
    ensures Possible(NegatedOf(w))
  {
    if !w.large { DifferenceExactIff(Whole(false, 0), w); }
  }

  method Negated(n: Integer) returns (r: Integer)
    requires Proper(n)
    ensures Proper(r) && WholeOf(r) == NegatedOf(WholeOf(n))
    ensures ValueOf(r) == -ValueOf(n) <==> n != Small(MIN_VAL) && !(n.Large? && ValueOf(n) == GAP)
  {
    ShownIsSeen(n);
    NegatedExactIff(WholeOf(n));
    match n
    case Small(_) => r := Subtract(Small(0), n);
    case Large(negative, bytes) =>
      LowBounds(bytes[..], bytes.Length);
      var copy := GrowTo(bytes, bytes.Length);
      assert copy[..] == bytes[..];
      if negative {
        r := Large(false, copy);
      } else {
        r := Normalize(copy, true);
        SettledAnswers(r, -Value(bytes[..]));
      }
  }

  /** = compares SmallIntegers, or signs, lengths and bytes. */
  predicate EqualOf(a: Whole, b: Whole) {
    a.value == b.value && ((!a.large && !b.large) || (!Unseen(a) && !Unseen(b)))
  }

  method Equal(a: Integer, b: Integer) returns (equal: bool)
    requires Proper(a) && Proper(b) && (a.Large? || b.Large?)
    ensures equal <==> EqualOf(WholeOf(a), WholeOf(b))
  {
    ShownIsSeen(a);
    ShownIsSeen(b);
    equal := Negative(a) == Negative(b) && Shown(a) == Shown(b);
    ghost var s, t := Shown(a), Shown(b);
    SeenBounds(WholeOf(a));
    SeenBounds(WholeOf(b));
    if Trimmed(s) && Trimmed(t) && Value(s) == Value(t) { TrimmedDetermined(s, t); }
  }
}
