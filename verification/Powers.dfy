/** raisedToInteger: by repeated squaring, with products that may lose bytes. */
module Powers {
  import opened Bits
  import opened Arithmetic
  import opened Operands
  import opened Integers
  import opened Radix

  /** raisedToInteger: for an exponent that is not negative. */
  function PowerOf(base: Whole, e: nat): Whole
    decreases e
  {
    if e == 0 then Int(1)
    else if e == 1 then base
    else ProductOf(PowerOf(ProductOf(base, base), e / 2), PowerOf(base, e % 2))
  }

  /** A SmallInteger that does not show all its bytes. */
  predicate Hidden(v: int) {
    WORD4 <= v <= MAX_VAL
  }

  /** The product of x and y comes out: a primitive succeeds, or both are seen whole. */
  predicate Together(x: int, y: int) {
    x * y <= MAX_VAL || (!Hidden(x) && !Hidden(y))
  }

  /** Never more than the exact value, and if that, then a SmallInteger exactly up to 2^50 - 1. */
  predicate Follows(w: Whole, exact: int) {
    && Possible(w) && 0 <= w.value <= exact && (w.large ==> w.value >= WORD6)
    && (w.value == exact ==> (w.large <==> exact > MAX_VAL))
  }

  lemma LessProduct(a: int, b: int, x: int, y: int)
    requires 0 <= a <= x && 0 <= b <= y && x >= 1 && y >= 1
    ensures 0 <= a * b <= x * y && x * y >= x && x * y >= y && (a * b == x * y <==> a == x && b == y)
  {
    MulMono(0, a, b);
    MulMono(b, y, a);
    MulMono(a, x, y);
    MulMono(1, y, x);
    MulMono(1, x, y);
    if b < y {
      MulMono(b + 1, y, a);
      assert (b + 1) * a == a * b + a;
    }
    if a < x {
      MulMono(a + 1, x, y);
      assert (a + 1) * y == a * y + y;
    }
  }

  lemma ProductFollows(a: Whole, b: Whole, x: int, y: int)
    requires Follows(a, x) && Follows(b, y) && x >= 1 && y >= 1
    ensures Follows(ProductOf(a, b), x * y)
    ensures ProductOf(a, b).value == x * y <==> a.value == x && b.value == y && Together(x, y)
  {
    SeenBounds(a);
    SeenBounds(b);
    LessProduct(a.value, b.value, x, y);
    if a.value > 0 && b.value > 0 {
      LessProduct(Seen(a), Seen(b), a.value, b.value);
    } else {
      assert a.value == 0 || b.value == 0;
      assert Seen(a) * Seen(b) == 0;
    }
    ProductExactIff(a, b);
  }

  /** raisedToInteger: keeps every product of its: all squares, and what is accumulated from the top. */
  predicate Kept(b: int, e: nat)
    decreases e
  {
    e <= 1 || (Together(b, b) && Kept(b * b, e / 2) && Together(Power(b * b, e / 2), Power(b, e % 2)))
  }

  lemma {:induction false} PowerSquare(b: int, e: nat)
    ensures Power(b, 2 * e) == Power(b * b, e)
  {
    if e > 0 {
      PowerSquare(b, e - 1);
      assert Power(b, 2 * e) == b * (b * Power(b, 2 * (e - 1)));
      assert b * (b * Power(b, 2 * (e - 1))) == (b * b) * Power(b, 2 * (e - 1));
    }
  }

  lemma PowerHalves(b: int, e: nat)
    ensures Power(b, e) == Power(b * b, e / 2) * Power(b, e % 2)
  {
    PowerSquare(b, e / 2);
    assert Power(b, 0) == 1 && Power(b, 1) == b;
  }

  /** raisedToInteger: is exact if and only if no product is lost. */
  lemma {:induction false} PowerFollows(w: Whole, b: int, e: nat)
    requires Follows(w, b) && b >= 2
    ensures Follows(PowerOf(w, e), Power(b, e))
    ensures PowerOf(w, e).value == Power(b, e) <==> e == 0 || (w.value == b && Kept(b, e))
    decreases e
  {
    if e == 1 {
      assert Power(b, 1) == b;
    } else if e > 1 {
      var square, half, odd := b * b, e / 2, e % 2;
      ProductFollows(w, w, b, b);
      LessProduct(b, b, b, b);
      PowerFollows(ProductOf(w, w), square, half);
      PowerFollows(w, b, odd);
      PowerPositive(square, half);
      PowerPositive(b, odd);
      ProductFollows(PowerOf(ProductOf(w, w), half), PowerOf(w, odd), Power(square, half), Power(b, odd));
      PowerHalves(b, e);
    }
  }

  lemma {:induction false} PowerGrows(b: int, m: nat, n: nat)
    requires b >= 2 && m <= n
    ensures 1 <= Power(b, m) <= Power(b, n) && (m < n ==> Power(b, m) < Power(b, n))
  {
    PowerPositive(b, m);
    if m < n {
      PowerGrows(b, m, n - 1);
      MulMono(2, b, Power(b, n - 1));
    }
  }

  /** None of the powers that raisedToInteger: forms is a SmallInteger that does not show all its bytes: the squares
      b^(2^k), and b to the exponent without its k lowest bits. */
  ghost predicate NoneHidden(b: int, e: nat) {
    forall k: nat :: Pow2(k) <= e ==> !Hidden(Power(b, Pow2(k))) && !Hidden(Power(b, ClearedBits(e, k)))
  }

  /** The exponent without its k lowest bits. */
  function ClearedBits(e: nat, k: nat): nat {
    ShiftDownSplits(e, k);
    ShiftDownPositive(e, k);
    ShiftUpMono(0, ShiftDown(e, k), k);
    ShiftUpZero(k);
    e - LowBits(e, k)
  }

  lemma {:induction false} ShiftDownPositive(e: nat, k: nat)
    ensures ShiftDown(e, k) >= 0
    decreases k
  {
    if k > 0 { ShiftDownPositive(e / 2, k - 1); }
  }

  lemma PowersOfSquare(b: int, e: nat, k: nat, below: nat)
    requires k == below + 1
    ensures Power(b, Pow2(k)) == Power(b * b, Pow2(below))
    ensures Power(b, ClearedBits(e, k)) == Power(b * b, ClearedBits(e / 2, below))
    ensures Pow2(k) <= e <==> Pow2(below) <= e / 2
  {
    PowerSquare(b, Pow2(below));
    PowerSquare(b, ClearedBits(e / 2, below));
    assert LowBits(e, k) == e % 2 + 2 * LowBits(e / 2, below);
    assert ClearedBits(e, k) == 2 * ClearedBits(e / 2, below);
  }

  lemma NoneHiddenHalves(b: int, e: nat)
    requires b >= 2 && e >= 2 && Power(b, e) > MAX_VAL
    ensures NoneHidden(b, e) <==> !Hidden(b) && NoneHidden(b * b, e / 2)
  {
    assert Pow2(0) == 1 && Power(b, 1) == b && ClearedBits(e, 0) == e;
    if NoneHidden(b, e) {
      forall k: nat | Pow2(k) <= e / 2
        ensures !Hidden(Power(b * b, Pow2(k))) && !Hidden(Power(b * b, ClearedBits(e / 2, k)))
      {
        PowersOfSquare(b, e, k + 1, k);
      }
    }
    if !Hidden(b) && NoneHidden(b * b, e / 2) {
      forall k: nat | Pow2(k) <= e
        ensures !Hidden(Power(b, Pow2(k))) && !Hidden(Power(b, ClearedBits(e, k)))
      {
        if k > 0 { PowersOfSquare(b, e, k, k - 1); }
      }
    }
  }

  /** Powers below 2^32 are seen whole. */
  lemma SmallPowersSeen(b: int, e: nat)
    requires b >= 2 && Power(b, e) < WORD4
    ensures NoneHidden(b, e)
  {
    forall k: nat | Pow2(k) <= e
      ensures !Hidden(Power(b, Pow2(k))) && !Hidden(Power(b, ClearedBits(e, k)))
    {
      ShiftDownSplits(e, k);
      PowerGrows(b, Pow2(k), e);
      PowerGrows(b, ClearedBits(e, k), e);
    }
  }

  /** Products are kept if and only if the power is a SmallInteger or none of the powers formed is hidden. */
  lemma {:induction false} KeptIff(b: int, e: nat)
    requires b >= 2
    ensures Kept(b, e) <==> Power(b, e) <= MAX_VAL || NoneHidden(b, e)
    decreases e
  {
    if e <= 1 {
      KeptAtOnce(b, e);
    } else {
      var square, half, odd := b * b, e / 2, e % 2;
      var high, low := Power(square, half), Power(b, odd);
      LessProduct(b, b, b, b);
      PowerHalves(b, e);
      PowerGrows(square, 1, half);
      PowerGrows(b, 0, odd);
      LessProduct(high, low, high, low);
      KeptIff(square, half);
      assert Power(square, 1) == square && (low == 1 || low == b) by { assert Power(b, 1) == b; }
      if Power(b, e) > MAX_VAL {
        NoneHiddenHalves(b, e);
        HiddenSquare(b);
        if high < WORD4 { SmallPowersSeen(square, half); }
        HighPower(b, e);
      }
    }
  }

  /** Without its lowest bit the exponent gives the power of the square. */
  lemma HighPower(b: int, e: nat)
    requires b >= 2 && e >= 2
    ensures NoneHidden(b, e) ==> !Hidden(Power(b * b, e / 2))
  {
    assert Pow2(1) == 2 && Pow2(0) == 1;
    PowersOfSquare(b, e, 1, 0);
    assert ClearedBits(e / 2, 0) == e / 2;
  }

  lemma HiddenSquare(b: int)
    ensures Hidden(b) ==> b * b > MAX_VAL
  {
    if Hidden(b) { LessProduct(WORD4, WORD4, b, b); }
  }

  lemma KeptAtOnce(b: int, e: nat)
    requires b >= 2 && e <= 1
    ensures Power(b, e) <= MAX_VAL || NoneHidden(b, e)
  {
    if Power(b, e) > MAX_VAL {
      assert e == 1 && Power(b, 1) == b;
      forall k: nat | Pow2(k) <= e
        ensures !Hidden(Power(b, Pow2(k))) && !Hidden(Power(b, ClearedBits(e, k)))
      {
        assert k == 0 && ClearedBits(e, 0) == e;
      }
    }
  }

  lemma {:induction false} KeptBeyond(b: int, e: nat)
    requires b > MAX_VAL
    ensures Kept(b, e)
    decreases e
  {
    if e > 1 {
      LessProduct(b, b, b, b);
      PowerGrows(b * b, 1, e / 2);
      assert Power(b * b, 1) == b * b && Power(b, 1) == b;
      KeptBeyond(b * b, e / 2);
    }
  }

  /** One step down to the square of a base that is seen whole, when the power is beyond the SmallIntegers. */
  lemma KeptStep(b: int, e: nat, square: int, half: nat)
    requires 2 <= b < WORD4 && e >= 2 && square == b * b && half == e / 2 && Power(square, half) > MAX_VAL
    ensures Kept(b, e) <==> Kept(square, half)
  {
    assert Power(b, 0) == 1 && Power(b, 1) == b;
  }

  lemma PowersOfTen(e: nat)
    ensures Power(100, 8) == 1_0000_0000_0000_0000 && Power(1_0000, 4) == 1_0000_0000_0000_0000
    ensures Power(1_0000_0000, 2) == 1_0000_0000_0000_0000
    ensures e < 16 ==> Power(10, e) <= 1000_0000_0000_0000
  {
    PowerSquare(100, 4);
    PowerSquare(1_0000, 2);
    PowerSquare(1_0000_0000, 1);
    if e < 16 {
      PowerGrows(10, e, 15);
      PowerSquare(10, 7);
      PowerSquare(100, 3);
    }
  }

  /** 10 raisedToInteger: is exact for every exponent that is not negative. */
  lemma KeptByTen(e: nat)
    ensures Kept(10, e)
  {
    PowersOfTen(e);
    if e < 16 {
      KeptIff(10, e);
    } else {
      var p, n := 1_0000_0000_0000_0000, e / 16;
      PowerGrows(100, 8, e / 2);
      PowerGrows(1_0000, 4, e / 4);
      PowerGrows(1_0000_0000, 2, e / 8);
      PowerGrows(p, 1, n);
      assert Power(p, 1) == p;
      KeptBeyond(p, n);
      KeptStep(1_0000_0000, e / 8, p, n);
      KeptStep(1_0000, e / 4, 1_0000_0000, e / 8);
      KeptStep(100, e / 2, 1_0000, e / 4);
      KeptStep(10, e, 100, e / 2);
    }
  }

  /** raisedToInteger: of a SmallInteger from 2 up is exact if and only if the power is a SmallInteger, or none of the
      powers formed on the way is one that does not show all its bytes; otherwise the answer is less. */
  lemma RaisedToExactIff(b: int, e: nat)
    requires 2 <= b <= MAX_VAL
    ensures 0 <= PowerOf(Int(b), e).value <= Power(b, e)
    ensures PowerOf(Int(b), e).value == Power(b, e) <==> Power(b, e) <= MAX_VAL || NoneHidden(b, e)
  {
    PowerFollows(Int(b), b, e);
    KeptIff(b, e);
    assert Power(b, 0) == 1;
  }

  /** 2 raisedToInteger: 50 forms 2^48 and 2^32 and comes out as zero. */
  lemma PowerIsLost(e: nat)
    requires e == 50
    ensures PowerOf(Int(2), e) == Int(0)
  {
    assert PowerOf(Int(0x1_0000_0000), 1) == Int(0x1_0000_0000);
    assert PowerOf(Int(0x1_0000), 3) == Int(0x1_0000_0000_0000);
    assert PowerOf(Int(0x100), 6) == Int(0x1_0000_0000_0000);
    assert PowerOf(Int(0x10), 12) == Int(0x1_0000_0000_0000);
    assert PowerOf(Int(4), 25) == Int(0);
  }

  method RaisedTo(base: Integer, e: nat) returns (r: Integer)
    requires Proper(base)
    ensures Proper(r) && WholeOf(r) == PowerOf(WholeOf(base), e)
    ensures base.Small? && base.value >= 2 ==>
              (ValueOf(r) == Power(base.value, e) <==> Power(base.value, e) <= MAX_VAL || NoneHidden(base.value, e))
    decreases e
  {
    if base.Small? && base.value >= 2 { RaisedToExactIff(base.value, e); }
    if e == 0 { return Small(1); }
    if e == 1 { return base; }
    var square := Multiply(base, base);
    var high := RaisedTo(square, e / 2);
    var low := RaisedTo(base, e % 2);
    r := Multiply(high, low);
  }
}
