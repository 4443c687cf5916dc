/** quo:, // and rem: of large integers, each computed from what the one before answers. */
module Quotients {
  import opened Bits
  import opened Digits
  import opened Arithmetic
  import opened Division
  import opened Integers
  import opened Operands
  import opened Options

  // The integers that are meant

  /** The quotient rounded towards zero. */
  function Truncated(x: int, y: int): int
    requires y != 0
  {
    Signed((x < 0) != (y < 0), Abs(x) / Abs(y))
  }

  /** The quotient rounded towards minus infinity. */
  function Floored(x: int, y: int): int
    requires y != 0
  {
    if y > 0 then x / y else (-x) / (-y)
  }

  /** The remainder of the truncated quotient is smaller than the divisor and has the dividend's sign. */
  lemma TruncatedDivision(x: int, y: int)
    requires y != 0
    ensures var p := Truncated(x, y) * y; Abs(x - p) < Abs(y) && (if x >= 0 then 0 <= p <= x else x <= p <= 0)
    ensures Truncated(x, y) < 0 ==> (x < 0) != (y < 0)
    ensures Truncated(x, y) > 0 ==> (x < 0) == (y < 0)
  {
    var w: int := Abs(y);
    var q := Abs(x) / w;
    DivModIdentity(Abs(x), w);
    SignOfQuotient(q, Abs(x), w);
    Negations(q, w);
    MulMono(0, q, w);
  }

  lemma MinusTimes(a: int, b: int)
    ensures (-a) * b == -(a * b)
  {
  }

  lemma TimesMinus(a: int, b: int)
    ensures a * (-b) == -(a * b)
  {
  }

  lemma Negations(a: int, b: int)
    ensures (-a) * b == -(a * b) && a * (-b) == -(a * b) && (-a) * (-b) == a * b
  {
    MinusTimes(a, b);
    TimesMinus(a, b);
    MinusTimes(a, -b);
  }

  lemma SignOfQuotient(q: int, x: int, y: int)
    requires y > 0 && 0 <= x && q == x / y
    ensures q >= 0
  {
    DivModIdentity(x, y);
    if q < 0 { MulMono(q, -1, y); }
  }

  lemma OneLess(q: int, y: int)
    ensures (q - 1) * y == q * y - y
  {
  }

  /** The floor is one less than the truncated quotient for operands of opposite signs that do not divide. */
  lemma FlooredFromTruncated(x: int, y: int)
    requires y != 0
    ensures Floored(x, y)
         == if (x < 0) != (y < 0) && Truncated(x, y) * y != x then Truncated(x, y) - 1 else Truncated(x, y)
  {
    var q := Truncated(x, y);
    TruncatedDivision(x, y);
    OneLess(q, y);
    TimesMinus(q, y);
    TimesMinus(q - 1, y);
    MinusTimes(q, y);
    if y > 0 {
      if x < 0 && q * y != x { DivModUnique(x, q - 1, x - (q * y - y), y); } else { DivModUnique(x, q, x - q * y, y); }
    } else {
      if x > 0 && q * y != x {
        DivModUnique(-x, q - 1, -x + q * y - y, -y);
      } else {
        DivModUnique(-x, q, -x + q * y, -y);
      }
    }
  }

  // quo:

  /** The divisors that digitDiv: fails for: zero, and a SmallInteger from 2^32 on without more bytes than x. */
  predicate Fails(x: Whole, y: Whole) {
    y.value == 0 || (Unseen(y) && y.value != MIN_VAL && SeenLength(x) >= SeenLength(y))
  }

  /** What quo: answers; None for an error. */
  function QuoOf(x: Whole, y: Whole): Option<Whole> {
    if Fails(x, y) then None
    else Some(Settled(Signed((x.value < 0) != (y.value < 0), Abs(x.value) / Divisor(y))))
  }

  method QuoInteger(a: Integer, b: Integer) returns (r: Option<Integer>)
    requires a.Large? && Proper(a) && Proper(b)
    ensures r.None? <==> QuoOf(WholeOf(a), WholeOf(b)).None?
    ensures r.Some? ==> Proper(r.value) && Some(WholeOf(r.value)) == QuoOf(WholeOf(a), WholeOf(b))
  {
    ShownIsSeen(a);
    ShownIsSeen(b);
    r := Quo(a.bytes, a.negative, b);
    if r.Some? {
      SettledAnswers(r.value, Signed(a.negative != Negative(b), Value(a.bytes[..]) / Divisor(WholeOf(b))));
    }
  }

  /** quo: with a divisor all of whose bytes are seen is the truncated quotient but for -2^30. */
  lemma QuoOfSeen(x: Whole, y: Whole)
    requires x.large && Possible(x) && Possible(y) && y.value != 0 && !Unseen(y)
    ensures QuoOf(x, y) == Some(Settled(Truncated(x.value, y.value)))
  {
  }

  /** A dividend with fewer bytes than a SmallInteger has the quotient zero, which is right. */
  lemma QuoOfShorter(x: Whole, y: Whole)
    requires x.large && Possible(x) && Possible(y) && Unseen(y) && y.value != MIN_VAL && SeenLength(x) < SeenLength(y)
    ensures QuoOf(x, y) == Some(Whole(false, 0)) && Truncated(x.value, y.value) == 0
  {
    LengthDecides(x, y);
    DivModUnique(Abs(x.value), 0, Abs(x.value), Abs(y.value));
  }

  /** The product of that quotient and the divisor. */
  lemma QuoTimes(q: int, y: Whole, p: int)
    requires Possible(y) && !Unseen(y) && y.value != 0 && p == q * y.value && !(WORD4 <= q < WORD6)
    ensures ProductOf(Settled(q), y)
         == if -WORD3 < q < WORD6 && !y.large && IsSmall(p) then Whole(false, p) else Settled(p)
  {
    SignsOfProduct(q, y.value);
    if q == -GAP && !y.large {
      if y.value > 1 { MulMono(2, y.value, GAP); }
      if y.value < 0 { MulMono(y.value, -1, GAP); }
    }
  }

  // //

  /** q * aNumber ~= self for a negative quotient; for zero, whether the signs differ. */
  predicate Corrects(q: Whole, x: Whole, y: Whole) {
    if q.value < 0 then !EqualOf(ProductOf(q, y), x) else q.value == 0 && (x.value < 0) != (y.value < 0)
  }

  /** What // answers; None for an error. */
  function FloorOf(x: Whole, y: Whole): Option<Whole> {
    match QuoOf(x, y)
    case None => None
    case Some(q) => if Corrects(q, x, y) then Some(DifferenceOf(q, Whole(false, 1))) else Some(q)
  }

  method FloorQuo(a: Integer, b: Integer) returns (r: Option<Integer>)
    requires a.Large? && Proper(a) && Proper(b)
    ensures r.None? <==> FloorOf(WholeOf(a), WholeOf(b)).None?
    ensures r.Some? ==> Proper(r.value) && Some(WholeOf(r.value)) == FloorOf(WholeOf(a), WholeOf(b))
  {
    var quo := QuoInteger(a, b);
    if quo.None? { return None; }
    var q := quo.value;
    ShownIsSeen(a);
    ShownIsSeen(b);
    ShownIsSeen(q);
    var correct;
    if Negative(q) {
      var product := Multiply(q, b);
      var equal := Equal(product, a);
      correct := !equal;
    } else {
      correct := q == Small(0) && Negative(a) != Negative(b);
    }
    if correct {
      var less := Subtract(q, Small(1));
      r := Some(less);
    } else {
      r := Some(q);
    }
  }

  /** The product of quotient q and divisor y, if that is the dividend, is not recognized as such. */
  predicate Missed(q: int, p: int, y: Whole) {
    if -WORD3 < q < WORD6 && !y.large && IsSmall(p) then Abs(p) >= WORD4 else p == -GAP || WORD4 <= p < WORD6
  }

  /** When // rounds down: minVal as a divisor, a SmallInteger from 2^32 on, and any other divisor. */
  predicate FloorFits(x: Whole, y: Whole)
    requires y.value != 0
  {
    if y == Whole(false, MIN_VAL) then -GAP < x.value <= GAP
    else if Unseen(y) then SeenLength(x) < SeenLength(y)
    else
      var q := Truncated(x.value, y.value);
      Floored(x.value, y.value) != -GAP && !(q < 0 && q * y.value == x.value && Missed(q, x.value, y))
  }

  /** // rounds down exactly then. */
  lemma FloorExactIff(x: Whole, y: Whole)
    requires x.large && Possible(x) && Possible(y) && y.value != 0
    ensures (FloorOf(x, y).Some? && FloorOf(x, y).value.value == Floored(x.value, y.value)) <==> FloorFits(x, y)
  {
    FlooredFromTruncated(x.value, y.value);
    if y == Whole(false, MIN_VAL) {
      FloorByMinVal(x, y);
    } else if Unseen(y) {
      if SeenLength(x) < SeenLength(y) { QuoOfShorter(x, y); }
    } else {
      FloorOfSeen(x, y, Truncated(x.value, y.value));
    }
  }

  lemma LessOne(q: int)
    requires q <= 0
    ensures DifferenceOf(Settled(q), Whole(false, 1)).value == Normalized(q - 1)
  {
  }

  lemma FloorOfSeen(x: Whole, y: Whole, q: int)
    requires x.large && Possible(x) && Possible(y) && y.value != 0 && !Unseen(y) && q == Truncated(x.value, y.value)
    requires Floored(x.value, y.value) == if (x.value < 0) != (y.value < 0) && q * y.value != x.value then q - 1 else q
    ensures (FloorOf(x, y).Some? && FloorOf(x, y).value.value == Floored(x.value, y.value)) <==> FloorFits(x, y)
  {
    QuoOfSeen(x, y);
    TruncatedDivision(x.value, y.value);
    if q < 0 {
      QuoTimes(q, y, q * y.value);
      LessOne(q);
    } else if q == 0 {
      LessOne(q);
    }
  }

  /** What // answers for a divisor that is seen whole: the quotient rounded down, less one for an even division that is
      not recognized, and -2^50 for -2^30. */
  lemma FloorAnswer(x: Whole, y: Whole, q: int)
    requires x.large && Possible(x) && Possible(y) && y.value != 0 && !Unseen(y) && q == Truncated(x.value, y.value)
    ensures FloorOf(x, y).Some?
    ensures FloorOf(x, y).value.value
         == Normalized(Floored(x.value, y.value)
                       - if q < 0 && q * y.value == x.value && Missed(q, x.value, y) then 1 else 0)
  {
    FlooredFromTruncated(x.value, y.value);
    QuoOfSeen(x, y);
    TruncatedDivision(x.value, y.value);
    if q < 0 {
      QuoTimes(q, y, q * y.value);
      LessOne(q);
    } else if q == 0 {
      LessOne(q);
    }
  }

  lemma FloorByMinVal(x: Whole, y: Whole)
    requires x.large && Possible(x) && y == Whole(false, MIN_VAL)
    requires Floored(x.value, MIN_VAL)
          == if x.value > 0 && Truncated(x.value, MIN_VAL) * MIN_VAL != x.value then Truncated(x.value, MIN_VAL) - 1
             else Truncated(x.value, MIN_VAL)
    ensures (FloorOf(x, y).Some? && FloorOf(x, y).value.value == Floored(x.value, y.value)) <==> FloorFits(x, y)
  {
    var k: int := Abs(x.value) / GAP;
    var q := Signed(x.value > 0, k);
    assert QuoOf(x, y) == Some(Settled(q));
    if q <= 0 { LessOne(q); }
    if x.value == GAP { assert ProductOf(Settled(q), y) == Whole(false, GAP); }
    if GAP < x.value < 2 * GAP { assert ProductOf(Settled(q), y) == Whole(false, GAP); }
  }

  /** -2^31 // 2 should be -2^30 and comes out as -2^50. */
  lemma FloorFailsAtGap()
    ensures FloorOf(Whole(true, -0x8000_0000), Whole(false, 2)) == Some(Whole(false, MIN_VAL))
    ensures Floored(-0x8000_0000, 2) == -GAP
  {
    assert QuoOf(Whole(true, -0x8000_0000), Whole(false, 2)) == Some(Whole(false, MIN_VAL));
    assert ProductOf(Whole(false, MIN_VAL), Whole(false, 2)) == Whole(true, -0x8000_0000);
  }

  /** -(2^31 - 1) // 2 should be -2^30 as well: the quotient is right, and taking one off it is not. */
  lemma FloorFailsBelowGap()
    ensures FloorOf(Whole(true, -0x7FFF_FFFF), Whole(false, 2)) == Some(Whole(false, MIN_VAL))
    ensures Floored(-0x7FFF_FFFF, 2) == -GAP
  {
    var x, y, q := Whole(true, -0x7FFF_FFFF), Whole(false, 2), 1 - GAP;
    assert QuoOf(x, y) == Some(Settled(q));
    QuoTimes(q, y, q * 2);
    LessOne(q);
  }

  /** 2^60 // 2^40 is an error. */
  lemma FloorFailsForSmallDivisor()
    ensures FloorOf(Whole(true, 0x1000_0000_0000_0000), Whole(false, 0x100_0000_0000)).None?
  {
    ByteLengthBounds(0x1000_0000_0000_0000);
    FewBytes();
    if ByteLength(0x1000_0000_0000_0000) <= 5 { WeightMono(ByteLength(0x1000_0000_0000_0000), 5); }
  }

  /** -2^40 // 2^20 comes out even, but the product is a SmallInteger from 2^32 on, and one is subtracted. */
  lemma FloorFailsForEvenDivision()
    ensures FloorOf(Whole(true, -0x100_0000_0000), Whole(false, 0x10_0000)) == Some(Whole(false, -0x10_0001))
    ensures Floored(-0x100_0000_0000, 0x10_0000) == -0x10_0000
  {
    var x, y, q := Whole(true, -0x100_0000_0000), Whole(false, 0x10_0000), -0x10_0000;
    assert QuoOf(x, y) == Some(Settled(q));
    QuoTimes(q, y, q * y.value);
    LessOne(q);
  }

  // rem:

  /** What rem: answers; None for an error. */
  function RemainderOf(x: Whole, y: Whole): Option<Whole> {
    match QuoOf(x, y)
    case None => None
    case Some(q) => Some(DifferenceOf(x, ProductOf(q, y)))
  }

  method Remainder(a: Integer, b: Integer) returns (r: Option<Integer>)
    requires a.Large? && Proper(a) && Proper(b)
    ensures r.None? <==> RemainderOf(WholeOf(a), WholeOf(b)).None?
    ensures r.Some? ==> Proper(r.value) && Some(WholeOf(r.value)) == RemainderOf(WholeOf(a), WholeOf(b))
  {
    var quo := QuoInteger(a, b);
    if quo.None? { return None; }
    var product := Multiply(quo.value, b);
    var rem := Subtract(a, product);
    r := Some(rem);
  }

  /** When rem: is exact: for minVal as a divisor, whose bytes are those of 2^30, for a SmallInteger from 2^32 on,
      and for any other divisor. */
  predicate RemainderFits(x: Whole, y: Whole)
    requires y.value != 0
  {
    if y == Whole(false, MIN_VAL) then
      if 0 < x.value < WORD6 then x.value % WORD4 < GAP
      else Abs(x.value) % -MIN_VAL < GAP && !(x.value < 0 && WORD4 <= Abs(x.value) / GAP < WORD6)
    else if Unseen(y) then SeenLength(x) < SeenLength(y) && x.value != -GAP
    else
      var q := Truncated(x.value, y.value);
      var p := q * y.value;
      !(WORD4 <= q < WORD6) && (Missed(q, p, y) ==> x.value == p == -GAP) && x.value - p != -GAP
  }

  /** The remainder of the truncated quotient. */
  function Rem(x: int, y: int): int
    requires y != 0
  {
    x - Truncated(x, y) * y
  }

  predicate RemainderIs(x: Whole, y: Whole, r: int) {
    RemainderOf(x, y).Some? && RemainderOf(x, y).value.value == r
  }

  /** rem: is exact exactly then. */
  lemma RemainderExactIff(x: Whole, y: Whole)
    requires x.large && Possible(x) && Possible(y) && y.value != 0
    ensures RemainderIs(x, y, Rem(x.value, y.value)) <==> RemainderFits(x, y)
  {
    if y == Whole(false, MIN_VAL) {
      RemainderByMinVal(x, y);
    } else if Unseen(y) {
      RemainderByUnseen(x, y);
    } else {
      var q := Truncated(x.value, y.value);
      RemainderOfSeen(x, y, q, q * y.value);
    }
  }

  lemma RemainderByUnseen(x: Whole, y: Whole)
    requires x.large && Possible(x) && Possible(y) && Unseen(y) && y.value != MIN_VAL
    ensures RemainderIs(x, y, Rem(x.value, y.value)) <==> RemainderFits(x, y)
  {
    if SeenLength(x) < SeenLength(y) {
      QuoOfShorter(x, y);
      assert ProductOf(Whole(false, 0), y) == Whole(false, 0);
      assert Rem(x.value, y.value) == x.value;
      DifferenceExactIff(x, Whole(false, 0));
    }
  }

  /** Subtracting a product that does not exceed the dividend. */
  lemma SubtractsProduct(x: Whole, product: Whole, p: int)
    requires x.large && Possible(x) && Possible(product)
             && (product.value < 0 ==> x.value < 0) && (product.value > 0 ==> x.value > 0)
    requires Seen(product) <= Abs(p) <= Abs(x.value) && (if x.value < 0 then p <= 0 else p >= 0)
    requires !Unseen(product) ==> Abs(product.value) <= Abs(x.value)
    ensures DifferenceOf(x, product).value == x.value - p
       <==> Seen(product) == Abs(p) && x.value - p != -GAP
            && (Unseen(product) && Abs(p) < Abs(x.value) ==> SeenLength(product) <= SeenLength(x))
  {
    SeenBounds(x);
    SeenBounds(product);
    LargeLength(x);
    if product.large { LargeLength(product); } else { SmallLength(product); }
    if SeenLength(x) < SeenLength(product) && !Unseen(product) && product.value != 0 { LengthDecides(x, product); }
    WeightPositive(SeenLength(product));
    SettledValue(Signed(x.value < 0, SeenDifference(x, product)));
    if SeenLength(x) < SeenLength(product) { WeightMono(SeenLength(x), SeenLength(product)); }
  }

  /** A quotient whose bytes are not seen makes the product too small. */
  lemma UnseenQuotient(q: int, y: Whole, p: int)
    requires Possible(y) && !Unseen(y) && y.value != 0 && p == q * y.value && WORD4 <= q < WORD6
    ensures var product := ProductOf(Settled(q), y);
            && Possible(product) && Seen(product) < Abs(p)
              && (product.value < 0 ==> p < 0) && (product.value > 0 ==> p > 0)
            && (!Unseen(product) ==> Abs(product.value) <= Abs(p))
  {
    var m: int, s: int := Abs(y.value), q % WORD4;
    SignsOfProduct(q, y.value);
    MulMono(1, m, q);
    if !y.large && IsSmall(p) {
      SeenBounds(Whole(false, p));
    } else {
      SeenPart(q, s, m);
      SettledIsSeen(s * m, y.value < 0);
    }
  }

  lemma SeenPart(q: int, s: int, m: int)
    requires WORD4 <= q && s == q % WORD4 && m > 0
    ensures 0 <= s * m < q * m
  {
    DivModIdentity(q, WORD4);
    ProductLoses(s, q, m);
    MulMono(0, s, m);
  }

  /** What normalize makes of a magnitude shows no more than that. */
  lemma SettledIsSeen(m: int, negative: bool)
    requires m >= 0
    ensures var w := Settled(Signed(negative, m));
            && Possible(w) && Seen(w) <= m
              && (w.value < 0 ==> negative && m > 0) && (w.value > 0 ==> !negative && m > 0)
            && (!Unseen(w) ==> Abs(w.value) <= m)
  {
    SettledValue(Signed(negative, m));
    SeenBounds(Settled(Signed(negative, m)));
  }

  lemma RemainderOfSeen(x: Whole, y: Whole, q: int, p: int)
    requires x.large && Possible(x) && Possible(y) && y.value != 0 && !Unseen(y)
    requires q == Truncated(x.value, y.value) && p == q * y.value
    ensures RemainderIs(x, y, x.value - p) <==> RemainderFits(x, y)
  {
    QuoOfSeen(x, y);
    TruncatedDivision(x.value, y.value);
    var product := ProductOf(Settled(q), y);
    if WORD4 <= q < WORD6 {
      UnseenQuotient(q, y, p);
      SubtractsProduct(x, product, p);
    } else {
      QuoTimes(q, y, p);
      SettledValue(p);
      SeenBounds(product);
      SubtractsProduct(x, product, p);
      if p == -GAP { ShortDividend(x, q, y.value); }
    }
  }

  /** A dividend near 2^30 has four bytes. */
  lemma ShortDividend(x: Whole, q: int, y: int)
    requires x.large && Possible(x) && q * y == -GAP && Abs(x.value + GAP) < Abs(y)
    ensures SeenLength(x) <= 4
  {
    Negations(Abs(q), Abs(y));
    SignsOfProduct(q, y);
    if q != 0 { MulMono(1, Abs(q), Abs(y)); }
    LargeLength(x);
    FewBytes();
    if SeenLength(x) > 4 { WeightMono(4, SeenLength(x) - 1); }
  }

  lemma RemainderByMinVal(x: Whole, y: Whole)
    requires x.large && Possible(x) && y == Whole(false, MIN_VAL)
    ensures RemainderIs(x, y, Rem(x.value, y.value)) <==> RemainderFits(x, y)
  {
    var q := Signed(x.value > 0, Abs(x.value) / GAP);
    assert QuoOf(x, y) == Some(Settled(q));
    if q == 0 {
      DividendBelowGap(x);
    } else if q == 1 {
      MinValSubtracted(x);
    } else {
      SettledByMinVal(x, q, ProductOf(Settled(q), y));
    }
  }

  lemma DividendBelowGap(x: Whole)
    requires x.large && Possible(x) && -GAP < x.value < GAP
    ensures ProductOf(Whole(false, 0), Whole(false, MIN_VAL)) == Whole(false, 0)
    ensures DifferenceOf(x, Whole(false, 0)).value == x.value == Rem(x.value, MIN_VAL)
    ensures RemainderFits(x, Whole(false, MIN_VAL))
  {
    MinValRemainder(x.value);
    DivModUnique(Abs(x.value), 0, Abs(x.value), -MIN_VAL);
    DivModUnique(Abs(x.value), 0, Abs(x.value), GAP);
    DivModUnique(Abs(x.value), 0, Abs(x.value), WORD4);
    DifferenceExactIff(x, Whole(false, 0));
  }

  /** minVal shows more bytes than x and is taken for the larger operand. */
  lemma MinValSubtracted(x: Whole)
    requires x.large && -2 * GAP < x.value <= -GAP
    ensures ProductOf(Whole(false, 1), Whole(false, MIN_VAL)) == Whole(false, MIN_VAL)
    ensures DifferenceOf(x, Whole(false, MIN_VAL)).value >= 0 > x.value == Rem(x.value, MIN_VAL)
    ensures !RemainderFits(x, Whole(false, MIN_VAL))
  {
    MinValRemainder(x.value);
    LargeLength(x);
    FewBytes();
    if SeenLength(x) > 4 { WeightMono(4, SeenLength(x) - 1); }
  }

  /** The value of the difference when the product is not taken for the larger operand. */
  lemma SubtractedValue(x: Whole, product: Whole, s: int)
    requires x.large && Possible(x) && Possible(product) && s == Seen(product) <= Abs(x.value)
    requires if x.value < 0 then product.value < 0 || product == Whole(false, 0) else product.value >= 0
    requires SeenLength(product) <= SeenLength(x)
    ensures DifferenceOf(x, product).value == Normalized(Signed(x.value < 0, Abs(x.value) - s))
  {
    SettledValue(Signed(x.value < 0, Abs(x.value) - s));
  }

  lemma NotLonger(x: Whole, product: Whole)
    requires x.large && Possible(x) && Possible(product) && Abs(product.value) <= Abs(x.value)
    ensures SeenLength(product) <= SeenLength(x)
  {
    LargeLength(x);
    if product == Whole(false, MIN_VAL) {
      FewBytes();
      if SeenLength(x) < 7 { WeightMono(SeenLength(x), 6); }
    } else if SeenLength(x) < SeenLength(product) {
      if product.value == 0 { SmallLength(product); } else { LengthDecides(x, product); }
    }
  }

  lemma SettledByMinVal(x: Whole, q: int, product: Whole)
    requires x.large && Possible(x) && q == Signed(x.value > 0, Abs(x.value) / GAP) && q != 0 && q != 1
    requires product == ProductOf(Settled(q), Whole(false, MIN_VAL))
    ensures DifferenceOf(x, product).value == Rem(x.value, MIN_VAL) <==> RemainderFits(x, Whole(false, MIN_VAL))
  {
    var s: int := Seen(Settled(q));
    assert product == Settled(Signed(x.value < 0, s * GAP));
    if x.value > 0 {
      PositiveByMinVal(x, product);
    } else {
      NegativeByMinVal(x, s, product);
    }
  }

  lemma MinValRemainder(x: int)
    ensures Rem(x, MIN_VAL) == Signed(x < 0, Abs(x) % -MIN_VAL)
    ensures Abs(x) % -MIN_VAL == Abs(x) % GAP <==> Abs(x) % -MIN_VAL < GAP
  {
    var m: int := Abs(x);
    var k := m / -MIN_VAL;
    DivModIdentity(m, -MIN_VAL);
    DivModUnique(m, k * 0x10_0000 + m % -MIN_VAL / GAP, m % -MIN_VAL % GAP, GAP);
  }

  lemma PositiveByMinVal(x: Whole, product: Whole)
    requires x.large && x.value >= GAP && product == Settled(x.value / GAP * GAP)
    ensures DifferenceOf(x, product).value == Rem(x.value, MIN_VAL) <==> RemainderFits(x, Whole(false, MIN_VAL))
  {
    var s := Seen(product);
    NotLonger(x, product);
    SeenBounds(product);
    SubtractedValue(x, product, s);
    MinValRemainder(x.value);
    PositiveParts(x.value, x.value / GAP * GAP, s);
  }

  lemma PositiveParts(x: int, p: int, s: int)
    requires x >= GAP && p == x / GAP * GAP && s == if WORD4 <= p < WORD6 then p % WORD4 else p
    ensures Normalized(x - s) == x % -MIN_VAL <==> if x < WORD6 then x % WORD4 < GAP else x % -MIN_VAL < GAP
  {
    MinValRemainder(x);
    SeenQuarter(x);
  }

  /** The part of a multiple of 2^30 that is seen is zero for multiples of 2^32. */
  lemma SeenQuarter(x: int)
    requires x >= 0
    ensures x / GAP * GAP % WORD4 == 0 <==> x % WORD4 < GAP
  {
    var k, j := x / GAP, x % WORD4 / GAP;
    DivModIdentity(x, WORD4);
    DivModUnique(x, x / WORD4 * 4 + j, x % WORD4 % GAP, GAP);
    DivModUnique(k * GAP, x / WORD4, j * GAP, WORD4);
  }

  lemma NegativeByMinVal(x: Whole, s: int, product: Whole)
    requires x.large && x.value <= -2 * GAP && product == Settled(-(s * GAP))
    requires var k := -x.value / GAP; s == if WORD4 <= k < WORD6 then k % WORD4 else k
    ensures DifferenceOf(x, product).value == Rem(x.value, MIN_VAL) <==> RemainderFits(x, Whole(false, MIN_VAL))
  {
    MinValRemainder(x.value);
    if s == 1 {
      assert -x.value >= WORD4 * GAP;
      assert Abs(product.value) <= Abs(x.value);
    }
    NotLonger(x, product);
    SubtractedValue(x, product, s * GAP);
    NegativeParts(-x.value, s);
  }

  lemma NegativeParts(m: int, s: int)
    requires m >= 2 * GAP && s == if WORD4 <= m / GAP < WORD6 then m / GAP % WORD4 else m / GAP
    ensures Normalized(-(m - s * GAP)) == -(m % -MIN_VAL) <==> m % -MIN_VAL < GAP && !(WORD4 <= m / GAP < WORD6)
  {
    MinValRemainder(m);
  }

  /** 2^60 rem: 2^20 is zero, but the quotient 2^40 is not seen, and 2^60 comes out. */
  lemma RemainderFailsForUnseenQuotient(x: Whole, y: Whole)
    requires x == Whole(true, 0x1000_0000_0000_0000) && y == Whole(false, 0x10_0000)
    ensures RemainderIs(x, y, 0x1000_0000_0000_0000) && Rem(x.value, y.value) == 0
  {
    var q := Whole(false, 0x100_0000_0000);
    assert QuoOf(x, y) == Some(q);
    assert Seen(q) == 0;
    assert ProductOf(q, y) == Whole(false, 0);
    DifferenceExactIff(x, Whole(false, 0));
  }
}
