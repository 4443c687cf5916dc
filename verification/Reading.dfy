/** Reading integers from a stream, with an optional radix prefix. */
module Reading {
  import opened Bits
  import opened Arithmetic
  import opened Operands
  import opened Integers
  import opened Powers
  import opened Radix

  /** What is left of the text, and the value read so far. */
  datatype Parsed = Parsed(value: Whole, rest: string)

  /** Floats are outside the model: a fraction or a negative exponent only reports NotInteger. */
  datatype Number<T> = Integral(value: T) | NotInteger | InvalidRadix

  /** A number, and what is left of the text if it is an integer. */
  datatype Outcome = Outcome(number: Number<Whole>, rest: string)

  /** value * base + digit */
  function Step(value: Whole, base: int, digit: int): Whole {
    SumOf(ProductOf(value, Int(base)), Int(digit))
  }

  method Accumulate(value: Integer, base: int, digit: int) returns (next: Integer)
    requires Proper(value) && IsSmall(base) && IsSmall(digit)
    ensures Proper(next) && WholeOf(next) == Step(WholeOf(value), base, digit)
  {
    var product := Multiply(value, Small(base));
    next := Add(product, Small(digit));
  }

  class ReadStream {
    const collection: string
    var position: nat

    ghost predicate Valid()
      reads this
    {
      position <= |collection|
    }

    ghost function Rest(): string
      reads this
      requires Valid()
    {
      collection[position..]
    }

    constructor (text: string)
      ensures Valid() && Rest() == text
    {
      collection := text;
      position := 0;
    }

    predicate AtEnd()
      reads this
    {
      position >= |collection|
    }

    method PeekFor(c: char) returns (found: bool)
      requires Valid()
      modifies this
      ensures Valid()
      ensures found <==> StartsWith(old(Rest()), c)
      ensures Rest() == if found then old(Rest())[1..] else old(Rest())
    {
      found := !AtEnd() && collection[position] == c;
      if found { position := position + 1; }
    }

    /** The digit loop: stops before the first character that is no digit of the base. */
    method ReadDigits(base: int) returns (value: Integer)
      requires Valid() && IsSmall(base)
      modifies this
      ensures Valid() && Proper(value)
      ensures Parsed(WholeOf(value), Rest()) == ParseDigits(old(Rest()), base, Int(0))
    {
      value := Small(0);
      while !AtEnd()
        invariant Valid() && Proper(value)
        invariant ParseDigits(Rest(), base, WholeOf(value)) == ParseDigits(old(Rest()), base, Int(0))
        decreases |collection| - position
      {
        var digit := DigitValue(collection[position]);
        position := position + 1;
        if digit < 0 || digit >= base {
          position := position - 1;
          return;
        }
        value := Accumulate(value, base, digit);
      }
    }

    /** ASTInteger class >> readFrom:base: */
    method ReadInteger(base: int) returns (value: Integer)
      requires Valid() && IsSmall(base)
      modifies this
      ensures Valid() && Proper(value)
      ensures Parsed(WholeOf(value), Rest()) == ParseInteger(old(Rest()), base)
    {
      var neg := PeekFor('-');
      value := ReadDigits(base);
      if neg { value := Negated(value); }
    }

    /** The number read is that of the outcome, and so is what is left, after an integer. */
    ghost predicate Reads(n: Number<Integer>, o: Outcome)
      reads this, if n.Integral? && n.value.Large? then {n.value.bytes} else {}
      requires Valid()
    {
      Values(n) == o.number && (n.Integral? ==> Rest() == o.rest)
    }

    /** ASTNumber class >> readFrom: */
    method ReadNumber() returns (n: Number<Integer>)
      requires Valid()
      modifies this
      ensures Valid()
      ensures n.Integral? ==> Proper(n.value)
      ensures Reads(n, ParseNumber(old(Rest())))
    {
      var negative := PeekFor('-');
      n := ReadUnsignedNumber(if negative then -1 else 1);
    }

    /** The rest of it, after the sign. */
    method ReadUnsignedNumber(sign: int) returns (n: Number<Integer>)
      requires Valid() && -1 <= sign <= 1
      modifies this
      ensures Valid()
      ensures n.Integral? ==> Proper(n.value)
      ensures Reads(n, ParseUnsignedNumber(old(Rest()), sign))
    {
      var base := 10;
      DecimalIsSmall(Rest());
      var value := ReadInteger(base);
      var radix := PeekFor('r');
      if !radix {
        n := ReadRemainder(value, base, sign);
        return;
      }
      base := value.value;
      if base < 2 { return InvalidRadix; }
      n := ReadRadixNumber(base, sign);
    }

    /** The rest of it, after the radix. */
    method ReadRadixNumber(base: int, sign: int) returns (n: Number<Integer>)
      requires Valid() && IsSmall(base) && -1 <= sign <= 1
      modifies this
      ensures Valid()
      ensures n.Integral? ==> Proper(n.value)
      ensures Reads(n, ParseRadixNumber(old(Rest()), base, sign))
    {
      var negative := PeekFor('-');
      var value := ReadInteger(base);
      n := ReadRemainder(value, base, if negative then -sign else sign);
    }

    /** ASTNumber class >> readRemainderOf:from:base:withSign: */
    method ReadRemainder(integerPart: Integer, base: int, sign: int) returns (n: Number<Integer>)
      requires Valid() && Proper(integerPart) && IsSmall(base) && -1 <= sign <= 1
      modifies this
      ensures Valid()
      ensures n.Integral? ==> Proper(n.value)
      ensures Reads(n, ParseRemainder(old(Rest()), WholeOf(integerPart), base, sign))
    {
      var value := integerPart;
      var point := PeekFor('.');
      if point {
        if !AtEnd() && 0 <= DigitValue(collection[position]) <= base - 1 {
          return NotInteger;
        }
        position := position - 1;
        value := Multiply(value, Small(sign));
        return Integral(value);
      }
      var exponent := PeekFor('e');
      if exponent {
        ghost var rest := Rest();
        var e := ReadInteger(10);
        DecimalIsSmall(rest);
        if e.value < 0 { return NotInteger; }
        var power := RaisedTo(Small(base), e.value);
        value := Multiply(value, power);
      }
      value := Multiply(value, Small(sign));
      n := Integral(value);
    }
  }

  /** The value of what a method answers. */
  ghost function Values(n: Number<Integer>): Number<Whole>
    reads if n.Integral? && n.value.Large? then {n.value.bytes} else {}
  {
    match n
    case Integral(value) => Integral(WholeOf(value))
    case NotInteger => NotInteger
    case InvalidRadix => InvalidRadix
  }

  predicate StartsWith(s: string, c: char) {
    |s| > 0 && s[0] == c
  }

  function ParseDigits(s: string, base: int, acc: Whole): Parsed {
    if s == "" || DigitValue(s[0]) < 0 || DigitValue(s[0]) >= base then Parsed(acc, s)
    else ParseDigits(s[1..], base, Step(acc, base, DigitValue(s[0])))
  }

  function ParseInteger(s: string, base: int): Parsed {
    if StartsWith(s, '-') then
      var p := ParseDigits(s[1..], base, Int(0));
      p.(value := NegatedOf(p.value))
    else ParseDigits(s, base, Int(0))
  }

  function ParseRemainder(s: string, value: Whole, base: int, sign: int): Outcome {
    if StartsWith(s, '.') then
      if |s| > 1 && 0 <= DigitValue(s[1]) <= base - 1 then Outcome(NotInteger, "")
      else Outcome(Integral(ProductOf(value, Int(sign))), s)
    else if StartsWith(s, 'e') then
      var e := ParseInteger(s[1..], 10);
      if e.value.value < 0 then Outcome(NotInteger, "")
      else Outcome(Integral(ProductOf(ProductOf(value, PowerOf(Int(base), e.value.value)), Int(sign))), e.rest)
    else Outcome(Integral(ProductOf(value, Int(sign))), s)
  }

  function ParseNumber(s: string): Outcome {
    if StartsWith(s, '-') then ParseUnsignedNumber(s[1..], -1) else ParseUnsignedNumber(s, 1)
  }

  /** What comes after the sign. */
  function ParseUnsignedNumber(s: string, sign: int): Outcome {
    var p := ParseInteger(s, 10);
    if !StartsWith(p.rest, 'r') then ParseRemainder(p.rest, p.value, 10, sign)
    else if p.value.value < 2 then Outcome(InvalidRadix, "")
    else ParseRadixNumber(p.rest[1..], p.value.value, sign)
  }

  /** What comes after the radix. */
  function ParseRadixNumber(s: string, base: int, sign: int): Outcome {
    var minus := StartsWith(s, '-');
    var p := ParseInteger(if minus then s[1..] else s, base);
    ParseRemainder(p.rest, p.value, base, if minus then -sign else sign)
  }

  /** What the digits are meant to add up to. */
  function Exact(s: string, base: int, acc: int): int {
    if s == "" || DigitValue(s[0]) < 0 || DigitValue(s[0]) >= base then acc
    else Exact(s[1..], base, acc * base + DigitValue(s[0]))
  }

  /** A SmallInteger that is the exact value if and only if that is one, and less otherwise. */
  predicate Behind(w: Whole, exact: int) {
    !w.large && 0 <= w.value <= MAX_VAL && w.value <= exact && (w.value == exact <==> exact <= MAX_VAL)
  }

  /** One step falls behind as soon as the exact value is no SmallInteger any more, and never catches up. */
  lemma StepBehind(value: Whole, exact: int, base: int, digit: int, next: int)
    requires Behind(value, exact)
    requires 2 <= base <= 36 && 0 <= digit < base && next == exact * base + digit
    ensures Behind(Step(value, base, digit), next)
  {
    var p := value.value * base;
    var product := ProductOf(value, Int(base));
    MulMono(0, value.value, base);
    ProductBehind(value, base, p);
    SumBehind(product, digit);
    BehindAndUp(value.value, exact, base, p, exact * base);
    assert p <= exact * base;
  }

  /** Of a value and an exact value that it may be behind, the products with the base. */
  lemma BehindAndUp(v: int, exact: int, base: int, p: int, e: int)
    requires 0 <= v <= exact && base >= 2 && p == v * base && e == exact * base
    ensures v <= p <= e && exact <= e && (p == e <==> v == exact)
  {
    MulMono(v, exact, base);
    if v < exact { MulMono(v + 1, exact, base); assert (v + 1) * base == v * base + base; }
    MulMono(2, base, v);
    MulMono(2, base, exact);
  }

  lemma ProductBehind(value: Whole, base: int, p: int)
    requires !value.large && 0 <= value.value <= MAX_VAL && 2 <= base <= 36 && p == value.value * base
    ensures Behind(ProductOf(value, Int(base)), p)
  {
    if p > MAX_VAL { LostProduct(value, Seen(value), base, p); }
  }

  /** A value that a product with the base takes out of range is not seen whole. */
  lemma LostProduct(value: Whole, s: int, base: int, p: int)
    requires !value.large && 0 <= value.value <= MAX_VAL && s == Seen(value) && 2 <= base <= 36
             && p == value.value * base > MAX_VAL
    ensures 0 <= s * base < 36 * WORD4 && s * base < p
  {
    SeenBounds(value);
    if value.value < WORD4 { MulMono(value.value, WORD4, base); }
    ProductLoses(s, value.value, base);
    MulMono(0, s, base);
    MulMono(s, WORD4, base);
  }

  lemma SumBehind(value: Whole, digit: int)
    requires !value.large && 0 <= value.value <= MAX_VAL && 0 <= digit < 36
    ensures Behind(SumOf(value, Int(digit)), value.value + digit)
  {
    SeenBounds(value);
  }

  /** The digits read in a base up to 36 give a SmallInteger, and the exact value if and only if that is one. */
  lemma {:induction false} DigitsBehind(s: string, base: int, value: Whole, exact: int)
    requires 2 <= base <= 36
    requires Behind(value, exact)
    ensures Behind(ParseDigits(s, base, value).value, Exact(s, base, exact))
  {
    if !(s == "" || DigitValue(s[0]) < 0 || DigitValue(s[0]) >= base) {
      var digit := DigitValue(s[0]);
      var next := exact * base + digit;
      StepBehind(value, exact, base, digit, next);
      DigitsBehind(s[1..], base, Step(value, base, digit), next);
    }
  }

  lemma DecimalIsSmall(s: string)
    ensures var w := ParseInteger(s, 10).value; !w.large && IsSmall(w.value)
  {
    DigitsBehind(s, 10, Int(0), 0);
    if StartsWith(s, '-') { DigitsBehind(s[1..], 10, Int(0), 0); }
  }

  lemma DigitRoundTrip(x: int)
    requires 0 <= x < 36
    ensures DigitValue(DigitChar(x)) == x && DigitChar(x) != '-'
  {
  }

  /** The numeral of v stands for v, up to the first character that is no digit. */
  lemma {:induction false} NumeralIsExact(v: nat, b: int, rest: string)
    requires 2 <= b <= 36
    ensures Exact(Numeral(v, b) + rest, b, 0) == Exact(rest, b, v)
    decreases v
  {
    if v < b {
      DigitRoundTrip(v);
      assert ([DigitChar(v)] + rest)[1..] == rest;
    } else {
      Smaller(v, b);
      DivModIdentity(v, b);
      DigitRoundTrip(v % b);
      var tail := [DigitChar(v % b)] + rest;
      NumeralIsExact(v / b, b, tail);
      Associative(Numeral(v / b, b), [DigitChar(v % b)], rest);
      assert tail[1..] == rest;
    }
  }

  /** All digits of a numeral are read. */
  lemma NumeralIsRead(v: nat, b: int, rest: string, acc: Whole)
    requires 2 <= b <= 36 && (rest == "" || DigitValue(rest[0]) < 0)
    ensures ParseDigits(Numeral(v, b) + rest, b, acc).rest == rest
    ensures !StartsWith(Numeral(v, b) + rest, '-')
  {
    NumeralDigits(v, b);
    DigitsAreRead(Numeral(v, b), b, rest, acc);
  }

  predicate AllDigits(s: string, b: int) {
    forall i :: 0 <= i < |s| ==> 0 <= DigitValue(s[i]) < b && s[i] != '-'
  }

  lemma {:induction false} NumeralDigits(v: nat, b: int)
    requires 2 <= b <= 36
    ensures AllDigits(Numeral(v, b), b) && Numeral(v, b) != ""
    decreases v
  {
    if v < b {
      DigitRoundTrip(v);
    } else {
      Smaller(v, b);
      DivModIdentity(v, b);
      DigitRoundTrip(v % b);
      NumeralDigits(v / b, b);
    }
  }

  lemma {:induction false} DigitsAreRead(s: string, b: int, rest: string, acc: Whole)
    requires AllDigits(s, b) && (rest == "" || DigitValue(rest[0]) < 0)
    ensures ParseDigits(s + rest, b, acc).rest == rest
  {
    if s == "" {
      assert s + rest == rest;
    } else {
      assert (s + rest)[0] == s[0] && (s + rest)[1..] == s[1..] + rest;
      DigitsAreRead(s[1..], b, rest, Step(acc, b, DigitValue(s[0])));
    }
  }

  lemma ParseUnsigned(v: nat, b: int, rest: string)
    requires 2 <= b <= 36 && (rest == "" || DigitValue(rest[0]) < 0)
    ensures var p := ParseInteger(Numeral(v, b) + rest, b);
            p.rest == rest && Behind(p.value, v)
    ensures !StartsWith(Numeral(v, b) + rest, '-')
  {
    var s := Numeral(v, b) + rest;
    NumeralIsRead(v, b, rest, Int(0));
    NumeralIsExact(v, b, rest);
    DigitsBehind(s, b, Int(0), 0);
  }

  // Signs, radix and exponent

  function Minus(minus: bool): string {
    if minus then "-" else ""
  }

  /** The text goes on with no digit of any base. */
  predicate NoDigit(s: string) {
    s == "" || DigitValue(s[0]) < 0
  }

  /** The text goes on with nothing that belongs to a number. */
  predicate NumberEnds(s: string) {
    NoDigit(s) && !StartsWith(s, 'e') && !StartsWith(s, 'r') && (StartsWith(s, '.') ==> NoDigit(s[1..]))
  }

  lemma AfterMinus(minus: bool, s: string)
    ensures minus ==> StartsWith(Minus(minus) + s, '-') && (Minus(minus) + s)[1..] == s
    ensures !minus ==> Minus(minus) + s == s
  {
  }

  /** readFrom:base: undoes what writes a sign and a numeral, and leaves what follows, if and only if the magnitude is
      at most 2^50 - 1; otherwise it answers an integer of that sign that is closer to zero. */
  lemma IntegerIsRead(m: nat, b: int, minus: bool, rest: string)
    requires 2 <= b <= 36 && NoDigit(rest)
    ensures var p := ParseInteger(Minus(minus) + (Numeral(m, b) + rest), b);
            && p.rest == rest && !p.value.large
            && (p.value.value == Signed(minus, m) <==> m <= MAX_VAL)
            && Behind(Int(Abs(p.value.value)), m) && (if minus then p.value.value <= 0 else p.value.value >= 0)
  {
    var s := Numeral(m, b) + rest;
    ParseUnsigned(m, b, rest);
    AfterMinus(minus, s);
  }

  /** Without a digit readFrom:base: answers zero and leaves the text, but for a minus sign. */
  lemma NothingIsRead(b: int, minus: bool, rest: string)
    requires NoDigit(rest) && !StartsWith(rest, '-')
    ensures ParseInteger(Minus(minus) + rest, b) == Parsed(Int(0), rest)
  {
    AfterMinus(minus, rest);
  }

  /** The integer in the digits m of base b, as it is read, and the sign that its signs make. */
  function Taken(m: nat, b: int, rest: string): Whole
    requires 2 <= b <= 36
  {
    ParseInteger(Numeral(m, b) + rest, b).value
  }

  function SignOf(negative: bool): int {
    if negative then -1 else 1
  }

  /** readFrom: of a decimal numeral with a sign. */
  lemma DecimalIsTaken(m: nat, minus: bool, rest: string)
    requires NoDigit(rest) && !StartsWith(rest, 'r')
    ensures Behind(Taken(m, 10, rest), m)
    ensures ParseNumber(Minus(minus) + (Numeral(m, 10) + rest))
         == ParseRemainder(rest, Taken(m, 10, rest), 10, SignOf(minus))
  {
    var s := Numeral(m, 10) + rest;
    AfterMinus(minus, s);
    ParseUnsigned(m, 10, rest);
  }

  /** readFrom: of a radix and a numeral, each with a sign of its own. */
  lemma RadixIsTaken(m: nat, b: int, outer: bool, inner: bool, rest: string)
    requires 2 <= b <= 36 && NoDigit(rest)
    ensures Behind(Taken(m, b, rest), m)
    ensures ParseNumber(Minus(outer) + (Numeral(b, 10) + ("r" + (Minus(inner) + (Numeral(m, b) + rest)))))
         == ParseRemainder(rest, Taken(m, b, rest), b, SignOf(outer != inner))
  {
    var s := Numeral(m, b) + rest;
    var t := Minus(inner) + s;
    var u := Numeral(b, 10) + ("r" + t);
    AfterMinus(outer, u);
    AfterMinus(inner, s);
    ParseUnsigned(m, b, rest);
    RadixIsRead(b, t, u);
  }

  lemma RadixIsRead(b: int, t: string, s: string)
    requires 0 <= b <= 36 && s == Numeral(b, 10) + ("r" + t)
    ensures ParseInteger(s, 10) == Parsed(Int(b), "r" + t) && ("r" + t)[1..] == t && !StartsWith(s, '-')
  {
    ParseUnsigned(b, 10, "r" + t);
  }

  /** Zero and one are no radix. */
  lemma RadixIsInvalid(b: int, minus: bool, t: string)
    requires 0 <= b < 2
    ensures ParseNumber(Minus(minus) + (Numeral(b, 10) + ("r" + t))).number == InvalidRadix
  {
    var s := Numeral(b, 10) + ("r" + t);
    AfterMinus(minus, s);
    RadixIsRead(b, t, s);
  }

  /** What is left at the end of a number, and the sign. */
  lemma PlainRemainder(rest: string, w: Whole, base: int, negative: bool)
    requires NumberEnds(rest) && !w.large && 0 <= w.value <= MAX_VAL
    ensures ParseRemainder(rest, w, base, SignOf(negative)) == Outcome(Integral(Int(Signed(negative, w.value))), rest)
  {
  }

  /** The sign of the result. */
  lemma SignedProduct(w: Whole, negative: bool)
    requires Possible(w) && 0 <= w.value && (w.large ==> w.value >= WORD6)
    ensures ProductOf(w, Int(SignOf(negative))).value == Signed(negative, w.value)
  {
  }

  /** When an exponent gives the exact result: digits, exponent and power come out, and so does their product. */
  predicate ScaledExactly(m: nat, b: int, k: nat) {
    m == 0 || (m <= MAX_VAL && k <= MAX_VAL && Kept(b, k) && Together(m, Power(b, k)))
  }

  lemma ScaledRemainder(m: nat, w: Whole, b: int, k: nat, negative: bool, rest: string)
    requires Behind(w, m) && 2 <= b <= MAX_VAL && NoDigit(rest)
    ensures var o := ParseRemainder("e" + (Numeral(k, 10) + rest), w, b, SignOf(negative));
            && o.number.Integral? && o.rest == rest
            && (o.number.value.value == Signed(negative, m * Power(b, k)) <==> ScaledExactly(m, b, k))
  {
    var e := ExponentIsTaken(w, b, k, SignOf(negative), rest);
    PowerTaken(m, w, b, e, k, negative, m * Power(b, e), m * Power(b, k));
  }

  /** The exponent as it is read. */
  lemma ExponentIsTaken(w: Whole, b: int, k: nat, sign: int, rest: string) returns (e: nat)
    requires NoDigit(rest)
    ensures e <= MAX_VAL && e <= k && (e == k <==> k <= MAX_VAL)
    ensures ParseRemainder("e" + (Numeral(k, 10) + rest), w, b, sign)
         == Outcome(Integral(ProductOf(ProductOf(w, PowerOf(Int(b), e)), Int(sign))), rest)
  {
    var t := Numeral(k, 10) + rest;
    assert ("e" + t)[1..] == t;
    ParseUnsigned(k, 10, rest);
    e := ParseInteger(t, 10).value.value;
  }

  lemma PowerTaken(m: nat, w: Whole, b: int, e: nat, k: nat, negative: bool, low: int, high: int)
    requires Behind(w, m) && 2 <= b <= MAX_VAL && low == m * Power(b, e) && high == m * Power(b, k)
    requires e <= MAX_VAL && e <= k && (e == k <==> k <= MAX_VAL)
    ensures ProductOf(ProductOf(w, PowerOf(Int(b), e)), Int(SignOf(negative))).value == Signed(negative, high)
       <==> ScaledExactly(m, b, k)
  {
    PowerFollows(Int(b), b, e);
    PowerGrows(b, 0, e);
    PowerGrows(b, e, k);
    ScaledValue(m, w, PowerOf(Int(b), e), Power(b, e), negative, low);
    var v := ProductOf(ProductOf(w, PowerOf(Int(b), e)), Int(SignOf(negative))).value;
    ExponentsApart(m, Power(b, e), Power(b, k), low, high);
    StillLess(v, negative, low, high);
  }

  lemma ExponentsApart(m: nat, p: int, q: int, low: int, high: int)
    requires 1 <= p <= q && low == m * p && high == m * q
    ensures low <= high && (low == high <==> m == 0 || p == q)
  {
    if m > 0 { LessProduct(m, p, m, q); }
  }

  lemma StillLess(v: int, negative: bool, low: int, high: int)
    requires 0 <= Signed(negative, v) <= low <= high
    ensures v == Signed(negative, high) <==> v == Signed(negative, low) && low == high
  {
  }

  lemma ScaledValue(m: nat, w: Whole, p: Whole, power: int, negative: bool, product: int)
    requires Behind(w, m) && Follows(p, power) && power >= 1 && product == m * power
    ensures var v := ProductOf(ProductOf(w, p), Int(SignOf(negative))).value;
            && 0 <= Signed(negative, v) <= product
            && (v == Signed(negative, product) <==> m == 0 || (m <= MAX_VAL && p.value == power && Together(m, power)))
  {
    if m == 0 {
      SeenBounds(p);
      assert 0 * p.value == 0 && Seen(w) * Seen(p) == 0;
    } else {
      ProductFollows(w, p, m, power);
      SignedProduct(ProductOf(w, p), negative);
    }
  }

  /** readFrom: of an integer in any notation: a radix or none, and signs before both. */
  lemma NumberIsRead(m: nat, b: int, radix: bool, outer: bool, inner: bool, rest: string)
    requires 2 <= b <= 36 && NumberEnds(rest) && (radix || (b == 10 && !inner))
    ensures var o := ParseNumber(Notation(m, b, radix, outer, inner, rest));
            && o.number.Integral? && o.rest == rest
            && (o.number.value.value == Signed(outer != inner, m) <==> m <= MAX_VAL)
            && Behind(Int(Abs(o.number.value.value)), m)
  {
    if radix { RadixIsTaken(m, b, outer, inner, rest); } else { DecimalIsTaken(m, outer, rest); }
    PlainRemainder(rest, Taken(m, b, rest), b, outer != inner);
  }

  /** A number as a text. */
  function Notation(m: nat, b: int, radix: bool, outer: bool, inner: bool, rest: string): string
    requires 2 <= b <= 36
  {
    var digits := Numeral(m, b) + rest;
    Minus(outer) + if radix then Numeral(b, 10) + ("r" + (Minus(inner) + digits)) else digits
  }

  /** readFrom: of an integer with an exponent: m * b^k with its sign comes out if and only if m is zero, or digits
      and exponent are SmallIntegers and no product that is formed loses bytes. */
  lemma ScaledNumberIsRead(m: nat, b: int, radix: bool, outer: bool, inner: bool, k: nat, rest: string)
    requires 2 <= b <= 36 && NoDigit(rest) && (radix || (b == 10 && !inner))
    ensures var o := ParseNumber(Notation(m, b, radix, outer, inner, "e" + (Numeral(k, 10) + rest)));
            && o.number.Integral? && o.rest == rest
            && (o.number.value.value == Signed(outer != inner, m * Power(b, k)) <==> ScaledExactly(m, b, k))
  {
    var t := "e" + (Numeral(k, 10) + rest);
    if radix { RadixIsTaken(m, b, outer, inner, t); } else { DecimalIsTaken(m, outer, t); }
    ScaledRemainder(m, Taken(m, b, t), b, k, outer != inner, rest);
  }

  /** In base 10 the power is always right: what counts is the product, which is right up to 2^50 - 1, and beyond that
      if neither factor is a SmallInteger that does not show all its bytes. */
  lemma DecimalScaledExactly(m: nat, k: nat)
    ensures ScaledExactly(m, 10, k) <==> m == 0 || (m <= MAX_VAL && k <= MAX_VAL && Together(m, Power(10, k)))
  {
    KeptByTen(k);
  }

  /** As long as the result is a SmallInteger, it is exact in every base. */
  lemma SmallScaledExactly(m: nat, b: int, k: nat)
    requires 2 <= b <= 36 && m * Power(b, k) <= MAX_VAL
    ensures ScaledExactly(m, b, k)
  {
    PowerPositive(b, k);
    if m > 0 {
      LessProduct(m, Power(b, k), m, Power(b, k));
      KeptIff(b, k);
      ExponentBelowPower(b, k);
    }
  }

  /** 4294967296e6 is read as an integer, and as another one. */
  lemma ScaledReadingFails(m: nat, k: nat, p: int)
    requires m == WORD4 && k == 6 && p == Power(10, k)
    ensures p == 1_000_000
    ensures var o := ParseNumber(Notation(m, 10, false, false, false, "e" + (Numeral(k, 10) + "")));
            o.number.Integral? && o.number.value.value != 4294967296000000
  {
    assert Power(10, 3) == 1000;
    PowerAdd(10, 3, 3);
    assert !Together(m, p);
    ScaledNumberIsRead(m, 10, false, false, false, k, "");
  }

  lemma {:induction false} ExponentBelowPower(b: int, k: nat)
    requires b >= 2
    ensures k < Power(b, k)
  {
    if k > 0 {
      ExponentBelowPower(b, k - 1);
      MulMono(2, b, Power(b, k - 1));
    }
  }

  /** An exponent below zero is told apart. */
  lemma NegativeExponentIsRead(m: nat, b: int, radix: bool, outer: bool, inner: bool, k: nat, rest: string)
    requires 2 <= b <= 36 && NoDigit(rest) && (radix || (b == 10 && !inner)) && 0 < k <= MAX_VAL
    ensures ParseNumber(Notation(m, b, radix, outer, inner, "e" + ("-" + (Numeral(k, 10) + rest)))).number == NotInteger
  {
    var u := "-" + (Numeral(k, 10) + rest);
    var t := "e" + u;
    assert t[1..] == u;
    if radix { RadixIsTaken(m, b, outer, inner, t); } else { DecimalIsTaken(m, outer, t); }
    assert Minus(true) == "-";
    IntegerIsRead(k, 10, true, rest);
  }

  /** And so is a fraction. */
  lemma FractionIsRead(m: nat, b: int, radix: bool, outer: bool, inner: bool, x: nat, rest: string)
    requires 2 <= b <= 36 && x < b && (radix || (b == 10 && !inner))
    ensures ParseNumber(Notation(m, b, radix, outer, inner, "." + ([DigitChar(x)] + rest))).number == NotInteger
  {
    var t := "." + ([DigitChar(x)] + rest);
    DigitRoundTrip(x);
    if radix { RadixIsTaken(m, b, outer, inner, t); } else { DecimalIsTaken(m, outer, t); }
  }

  /** Reading undoes printing, in every base from 2 to 36, if and only if the integer or its negation is a SmallInteger;
      any other integer comes back closer to zero. */
  lemma ReadingUndoesPrintingIff(v: int, b: int)
    requires 2 <= b <= 36
    ensures var o := ParseNumber(Text(v, b));
            && o.number.Integral? && o.rest == ""
            && Abs(o.number.value.value) <= Abs(v) && (o.number.value.value == v <==> Abs(v) <= MAX_VAL)
  {
    TextIsNotation(v, b);
    NumberIsRead(Abs(v), b, b != 10, v < 0, false, "");
  }

  lemma TextIsNotation(v: int, b: int)
    requires 2 <= b <= 36
    ensures Text(v, b) == Notation(Abs(v), b, b != 10, v < 0, false, "")
  {
    var numeral := Numeral(Abs(v), b);
    assert numeral + "" == numeral;
    Associative(Minus(v < 0), RadixPrefix(b), numeral);
    if b != 10 {
      Associative(Numeral(b, 10), "r", numeral);
      assert Minus(false) + numeral == numeral;
    } else {
      assert RadixPrefix(b) + numeral == numeral;
    }
  }

  /** A numeral up to 2^50 - 1 is read exactly, whatever follows it. */
  lemma {:induction false} SmallNumeralIsRead(v: nat, b: int, rest: string)
    requires 2 <= b <= 36 && v <= MAX_VAL
    ensures ParseDigits(Numeral(v, b) + rest, b, Int(0)) == ParseDigits(rest, b, Int(v))
    decreases v
  {
    if v < b {
      DigitRoundTrip(v);
      assert ([DigitChar(v)] + rest)[1..] == rest;
    } else {
      Smaller(v, b);
      DivModIdentity(v, b);
      DigitRoundTrip(v % b);
      var tail := [DigitChar(v % b)] + rest;
      SmallNumeralIsRead(v / b, b, tail);
      Associative(Numeral(v / b, b), [DigitChar(v % b)], rest);
      assert tail[1..] == rest;
      assert Step(Int(v / b), b, v % b) == Int(v);
    }
  }

  /** 2^50, 1125899906842624, is read back as 2^32. */
  lemma ReadingFailsAtTwoTo50(v: nat, prefix: nat)
    requires v == MAX_VAL + 1 && prefix == 112589990684262
    ensures ParseNumber(Text(v, 10)) == Outcome(Integral(Int(0x1_0000_0000)), "")
  {
    var head := Numeral(prefix, 10);
    assert Numeral(v, 10) == head + [DigitChar(4)];
    NumeralIsRead(v, 10, "", Int(0));
    assert Text(v, 10) == Numeral(v, 10) == Numeral(v, 10) + "";
    SmallNumeralIsRead(prefix, 10, [DigitChar(4)]);
    DigitRoundTrip(4);
    assert ParseDigits([DigitChar(4)], 10, Int(prefix)) == ParseDigits("", 10, Step(Int(prefix), 10, 4));
    assert ProductOf(Int(prefix), Int(10)) == Int(1125899906842620);
  }
}
