/** Schoolbook arithmetic of ASTInteger on sign-magnitude byte strings. */
module Arithmetic {
  import opened Bits
  import opened Digits

  /** A byte object with its sign, or the SmallInteger that normalize may answer instead. */
  datatype Integer = Small(value: int) | Large(negative: bool, bytes: array<byte>)

  const MIN_VAL: int := -0x4000000000000

  /** The magnitude at which the normalize of a negative integer goes wrong. */
  const GAP: int := 0x40000000

  function Abs(x: int): nat {
    if x < 0 then -x else x
  }

  function Signed(negative: bool, magnitude: int): int {
    if negative then -magnitude else magnitude
  }

  ghost function ValueOf(n: Integer): int
    reads if n.Large? then {n.bytes} else {}
  {
    match n
    case Small(v) => v
    case Large(negative, bytes) => Signed(negative, Value(bytes[..]))
  }

  /** What the sign-magnitude code answers when the exact result is v. */
  function Normalized(v: int): int {
    if v == -GAP then MIN_VAL else v
  }

  /** n is what normalize answers for the exact value v: a SmallInteger where the code takes v for one,
      else trimmed bytes. */
  ghost predicate Answers(n: Integer, v: int)
    reads if n.Large? then {n.bytes} else {}
  {
    && ValueOf(n) == Normalized(v)
    && (n.Small? <==> if v >= 0 then v < 0x1000000000000 else v > -0x1000000 || v == -GAP)
    && (n.Large? ==> n.negative == (v < 0) && Trimmed(n.bytes[..]) && n.bytes.Length > 0)
  }

  /** 1, 0 or -1 as the magnitude of self is above, equal to or below that of arg. */
  method DigitCompare(self: array<byte>, arg: array<byte>) returns (order: int)
    requires Trimmed(self[..]) && Trimmed(arg[..])
    ensures order == 1 <==> Value(self[..]) > Value(arg[..])
    ensures order == 0 <==> Value(self[..]) == Value(arg[..])
    ensures order == -1 <==> Value(self[..]) < Value(arg[..])
  {
    var len := self.Length;
    if arg.Length != len {
      if arg.Length > len {
        ShorterIsSmaller(self[..], arg[..]);
        return -1;
      } else {
        ShorterIsSmaller(arg[..], self[..]);
        return 1;
      }
    }
    while len > 0
      invariant 0 <= len <= self.Length
      invariant forall i :: len <= i < self.Length ==> self[i] == arg[i]
    {
      var argDigit, selfDigit := arg[len - 1], self[len - 1];
      if argDigit != selfDigit {
        EqualAbove(self[..], arg[..], len, self.Length);
        if argDigit < selfDigit {
          TopDigitDecides(arg[..], self[..], len);
          return 1;
        } else {
          TopDigitDecides(self[..], arg[..], len);
          return -1;
        }
      }
      len := len - 1;
    }
    EqualAbove(self[..], arg[..], 0, self.Length);
    return 0;
  }

  /** growto: a fresh copy of n digits, truncated or extended with zeros. */
  method GrowTo(s: array<byte>, n: nat) returns (r: array<byte>)
    ensures fresh(r) && r.Length == n
    ensures forall i :: 0 <= i < n ==> r[i] == ByteAt(s[..], i)
    ensures Value(r[..]) == Low(s[..], n)
  {
    r := new byte[n](_ => 0);
    var stop := if s.Length < n then s.Length else n;
    for i := 0 to stop
      invariant forall j :: 0 <= j < n ==> r[j] == if j < i then s[j] else 0
    {
      r[i] := s[i];
    }
    LowFrame(r[..], s[..], n);
  }

  method DigitAdd(self: array<byte>, arg: array<byte>) returns (sum: array<byte>)
    ensures fresh(sum)
    ensures Value(sum[..]) == Value(self[..]) + Value(arg[..])
    ensures Trimmed(self[..]) && Trimmed(arg[..]) ==> Trimmed(sum[..])
  {
    var len := if self.Length < arg.Length then arg.Length else self.Length;
    var accum;
    sum, accum := AddDigits(self, arg, len);
    LowBeyond(self[..], len);
    LowBeyond(arg[..], len);
    if accum > 255 {
      sum := AppendCarry(sum, accum / 256);
    } else {
      PlaceZero(len);
    }
  }

  /** The carry loop of digitAdd: over the len lowest digits. */
  method AddDigits(self: array<byte>, arg: array<byte>, len: nat) returns (sum: array<byte>, accum: int)
    ensures fresh(sum) && sum.Length == len && 0 <= accum <= 511
    ensures Value(sum[..]) + Place(accum / 256, len) == Low(self[..], len) + Low(arg[..], len)
    ensures len > 0 ==> sum[len - 1] == accum % 256 && accum >= ByteAt(self[..], len - 1) + ByteAt(arg[..], len - 1)
    ensures len == 0 ==> accum == 0
  {
    accum := 0;
    sum := new byte[len](_ => 0);
    PlaceZero(0);
    for i := 0 to len
      invariant 0 <= accum <= 511
      invariant Low(sum[..], i) + Place(accum / 256, i) == Low(self[..], i) + Low(arg[..], i)
      invariant i > 0 ==> sum[i - 1] == accum % 256 && accum >= ByteAt(self[..], i - 1) + ByteAt(arg[..], i - 1)
      invariant i == 0 ==> accum == 0
    {
      ghost var before, carry := sum[..], accum / 256;
      accum := accum / 256 + ByteAt(self[..], i) + ByteAt(arg[..], i);
      var digit: byte := accum % 256;
      sum[i] := digit;
      assert sum[..] == before[i := digit];
      LowUpdate(before, i, digit, i);
      CarryStep(accum / 256, digit, accum, i);
      PlaceAdd(carry, ByteAt(self[..], i), i);
      PlaceAdd(carry + ByteAt(self[..], i), ByteAt(arg[..], i), i);
    }
  }

  /** The growby: of digitAdd: one more digit at the top. */
  method AppendCarry(s: array<byte>, carry: byte) returns (sum: array<byte>)
    ensures fresh(sum) && sum.Length == s.Length + 1 && sum[s.Length] == carry
    ensures Value(sum[..]) == Value(s[..]) + Place(carry, s.Length)
  {
    sum := GrowTo(s, s.Length + 1);
    LowBeyond(s[..], s.Length + 1);
    ghost var grown := sum[..];
    sum[s.Length] := carry;
    assert sum[..] == grown[s.Length := carry];
    LowUpdate(grown, s.Length, carry, s.Length + 1);
    PlaceZero(s.Length);
  }

  /** What digitSubtract: makes of two byte strings. It takes the longer one for the larger; where that
      is wrong, the borrow out of its top is lost. */
  function Difference(s: seq<byte>, t: seq<byte>): int {
    var d := Value(s) - Value(t);
    if |s| < |t| && d > 0 then d - Weight(|t|)
    else if |s| > |t| && d < 0 then d + Weight(|s|)
    else d
  }

  /** Of trimmed byte strings the longer one is the larger. */
  lemma DifferenceIsExact(s: seq<byte>, t: seq<byte>)
    requires |s| <= |t| || Trimmed(s)
    requires |t| <= |s| || Trimmed(t)
    ensures Difference(s, t) == Value(s) - Value(t)
  {
    LowBounds(s, |s|);
    LowBounds(t, |t|);
    if |s| < |t| {
      ShorterIsSmaller(s, t);
    } else if |t| < |s| {
      ShorterIsSmaller(t, s);
    }
  }

  /** Answers self - arg for operands of equal sign, or self + arg for operands of opposite signs. */
  method DigitSubtract(self: array<byte>, negative: bool, arg: array<byte>) returns (difference: Integer)
    requires self.Length + arg.Length > 0
    ensures Answers(difference, Signed(negative, Difference(self[..], arg[..])))
  {
    var sl, al := self.Length, arg.Length;
    var swap: bool;
    if sl == al {
      while self[sl - 1] == arg[sl - 1] && sl > 1
        invariant 1 <= sl <= al
        invariant forall i :: sl <= i < al ==> self[i] == arg[i]
      {
        sl := sl - 1;
      }
      EqualAbove(self[..], arg[..], sl, al);
      al := sl;
      swap := self[sl - 1] < arg[sl - 1];
      if swap {
        TopDigitDecides(self[..], arg[..], sl);
      } else if arg[sl - 1] < self[sl - 1] {
        TopDigitDecides(arg[..], self[..], sl);
      } else {
        LowOne(self[..]);
        LowOne(arg[..]);
      }
    } else {
      swap := sl < al;
    }
    var larger, smaller, ng;
    if swap {
      larger, smaller, ng, sl := arg, self, !negative, al;
    } else {
      larger, smaller, ng := self, arg, negative;
    }
    if self.Length != arg.Length {
      LowBeyond(smaller[..], sl);
    }
    var sum := SubtractSmaller(larger, smaller, sl);
    difference := Normalize(sum, ng);
  }

  /** The borrow loop of digitSubtract: over the sl lowest digits. */
  method SubtractSmaller(larger: array<byte>, smaller: array<byte>, sl: nat) returns (sum: array<byte>)
    ensures var d := Low(larger[..], sl) - Low(smaller[..], sl);
            Value(sum[..]) == if d >= 0 then d else d + Weight(sl)
  {
    sum := new byte[sl](_ => 0);
    var z := 0;
    for i := 0 to sl
      invariant -1 <= z <= 0
      invariant Low(sum[..], i) + Place(z, i) == Low(larger[..], i) - Low(smaller[..], i)
    {
      ghost var before, borrow := sum[..], z;
      z := z + ByteAt(larger[..], i) - ByteAt(smaller[..], i);
      var digit: byte := z - z / 256 * 256;
      sum[i] := digit;
      z := z / 256;
      assert sum[..] == before[i := digit];
      LowUpdate(before, i, digit, i);
      CarryStep(z, digit, 256 * z + digit, i);
      PlaceAdd(borrow, ByteAt(larger[..], i), i);
      PlaceAdd(256 * z + digit, ByteAt(smaller[..], i), i);
    }
    LowBounds(sum[..], sl);
    LowBounds(larger[..], sl);
    LowBounds(smaller[..], sl);
    if z == 0 { PlaceZero(sl); } else { PlaceAdd(-1, 1, sl); PlaceZero(sl); }
  }

  method DigitMultiply(self: array<byte>, arg: array<byte>, ng: bool) returns (product: Integer)
    ensures Answers(product, Signed(ng, Value(self[..]) * Value(arg[..])))
  {
    if arg.Length == 1 && arg[0] == 0 {
      LowOne(arg[..]);
      return Small(0);
    }
    var prod := new byte[self.Length + arg.Length](_ => 0);
    LowZeros(prod[..], prod.Length);
    for i := 0 to self.Length
      invariant Value(prod[..]) == Low(self[..], i) * Value(arg[..])
      invariant forall k :: i + arg.Length <= k < prod.Length ==> prod[k] == 0
    {
      var digit := self[i];
      Distribute(Low(self[..], i), digit, i, Value(arg[..]));
      if digit != 0 {
        MultiplyRow(prod, arg, digit, i);
      } else {
        PlaceZero(i);
      }
    }
    product := Normalize(prod, ng);
  }

  lemma Distribute(l: int, digit: int, i: nat, v: int)
    ensures (l + Place(digit, i)) * v == l * v + Place(digit * v, i)
  {
    PlaceMul(digit, v, i);
    assert (l + Place(digit, i)) * v == l * v + Place(digit, i) * v;
  }

  /** The inner loop of digitMultiply: adds digit * arg into prod at place i. */
  method MultiplyRow(prod: array<byte>, arg: array<byte>, digit: byte, i: nat)
    requires prod != arg && i + arg.Length < prod.Length
    requires forall k :: i + arg.Length <= k < prod.Length ==> prod[k] == 0
    modifies prod
    ensures Value(prod[..]) == Value(old(prod[..])) + Place(digit * Value(arg[..]), i)
    ensures forall k :: i + arg.Length < k < prod.Length ==> prod[k] == 0
  {
    var k, carry := i, 0;
    PlaceZero(i);
    for j := 0 to arg.Length
      invariant k == i + j && 0 <= carry <= 255
      invariant forall m :: i + arg.Length <= m < prod.Length ==> prod[m] == 0
      invariant Value(prod[..]) + Place(carry, k) == Value(old(prod[..])) + Place(digit * Low(arg[..], j), i)
    {
      ghost var before, carryIn := prod[..], carry;
      ProductBound(arg[j], digit);
      var ab := arg[j] * digit + carry + prod[k];
      carry := ab / 256;
      var low: byte := ab % 256;
      prod[k] := low;
      assert prod[..] == before[k := low];
      LowUpdate(before, k, low, prod.Length);
      ProductStep(arg[j], digit, carryIn, before[k], carry, low, i, j, Low(arg[..], j));
      k := k + 1;
    }
    ghost var before := prod[..];
    var last: byte := carry;
    prod[k] := last;
    assert prod[..] == before[k := last];
    LowUpdate(before, k, last, prod.Length);
    PlaceZero(k);
  }

  lemma ProductBound(a: byte, b: byte)
    ensures 0 <= a * b <= 255 * 255
  {
    MulMono(0, a, b);
    MulMono(a, 255, b);
  }

  /** One inner step: the accumulator is spread over the place i + j and the carry. */
  lemma ProductStep(a: int, digit: int, carryIn: int, p: int, carryOut: int, low: int, i: nat, j: nat, l: int)
    requires carryOut * 256 + low == a * digit + carryIn + p
    ensures Place(low, i + j) - Place(p, i + j) + Place(carryOut, i + j + 1)
         == Place(carryIn, i + j) + Place(digit * (l + Place(a, j)), i) - Place(digit * l, i)
  {
    CarryStep(carryOut, low, a * digit + carryIn + p, i + j);
    PlaceAdd(a * digit + carryIn, p, i + j);
    PlaceAdd(a * digit, carryIn, i + j);
    PlaceMul(a, digit, j);
    assert digit * (l + Place(a, j)) == digit * l + Place(a, j) * digit;
    PlaceAdd(digit * l, Place(a * digit, j), i);
    PlacePlace(a * digit, i, j);
  }

  /** Drops leading zeros; answers a SmallInteger when the code takes the magnitude to fit one.
      The positive version keeps the value; the negative one does so except at -GAP. */
  method Normalize(s: array<byte>, negative: bool) returns (r: Integer)
    ensures Value(s[..]) >= 0 && Answers(r, Signed(negative, Value(s[..])))
    ensures r.Large? ==> r.bytes == s || fresh(r.bytes)
  {
    var len := s.Length;
    while true
      invariant 0 <= len <= s.Length
      invariant forall i :: len <= i < s.Length ==> s[i] == 0
      decreases len
    {
      if len == 0 {
        LowAboveZeros(s[..], 0, s.Length);
        return Small(0);
      }
      if s[len - 1] != 0 { break; }
      len := len - 1;
    }
    LowAboveZeros(s[..], len, s.Length);
    SizeOfTrimmed(s[..], len);
    LowBounds(s[..], len);
    LowBounds(s[..], len - 1);
    PlaceMono(1, s[len - 1], len - 1);
    WeightPositive(len - 1);
    if negative {
      if len <= 4 {
        // minVal lastDigit is the seventh byte of a SmallInteger, which byteAt: answers as 0.
        if len < 4 || ByteAt(s[..], 3) < 0 {
          var v := HornerValue(s, len);
          return Small(-v);
        }
        var minVal: seq<byte> := [0, 0, 0, 64];
        GapDigits(s[..]);
        for i := 0 to 4
          invariant forall j :: 0 <= j < i ==> s[j] == minVal[j]
        {
          if s[i] != minVal[i] {
            r := Shortened(s, negative, len);
            return;
          }
        }
        return Small(MIN_VAL);
      }
    } else {
      // The seventh byte of maxVal is answered as 0 as well.
      if len <= 7 && ByteAt(s[..], 6) <= 0 {
        var v := HornerValue(s, len);
        return Small(v);
      }
    }
    r := Shortened(s, negative, len);
  }

  method Shortened(s: array<byte>, negative: bool, len: nat) returns (r: Integer)
    requires 0 < len <= s.Length && s[len - 1] != 0
    requires Low(s[..], len) == Value(s[..])
    ensures r.Large? && r.negative == negative && Value(r.bytes[..]) == Value(s[..])
    ensures Trimmed(r.bytes[..]) && r.bytes.Length > 0 && (r.bytes == s || fresh(r.bytes))
  {
    if len < s.Length {
      var t := GrowTo(s, len);
      r := Large(negative, t);
    } else {
      r := Large(negative, s);
    }
  }

  method HornerValue(s: array<byte>, len: nat) returns (v: int)
    requires len <= s.Length
    ensures v == Low(s[..], len)
  {
    v := 0;
    var i := len;
    PlaceZero(len);
    while i > 0
      invariant 0 <= i <= len
      invariant Place(v, i) + Low(s[..], i) == Low(s[..], len)
    {
      PlaceAdd(256 * v, s[i - 1], i - 1);
      PlaceTimes256(v, i - 1);
      v := v * 256 + s[i - 1];
      i := i - 1;
    }
  }

  lemma SizeOfTrimmed(s: seq<byte>, len: nat)
    requires 0 < len <= |s| && s[len - 1] != 0
    ensures len < 4 <==> Low(s, len) < 0x1000000
    ensures len <= 4 <==> Low(s, len) < 0x100000000
    ensures len <= 6 <==> Low(s, len) < 0x1000000000000
  {
    assert Weight(3) == 0x1000000 && Weight(4) == 0x100000000;
    assert Weight(6) == 0x1000000 * Weight(3);
    LowBounds(s, len);
    LowBounds(s, len - 1);
    PlaceMono(1, s[len - 1], len - 1);
    if len < 4 { WeightMono(len, 3); } else { WeightMono(3, len - 1); }
    if len <= 4 { WeightMono(len, 4); } else { WeightMono(4, len - 1); }
    if len <= 6 { WeightMono(len, 6); } else { WeightMono(6, len - 1); }
  }

  lemma GapDigits(s: seq<byte>)
    ensures Low(s, 4) == GAP <==> ByteAt(s, 0) == 0 && ByteAt(s, 1) == 0 && ByteAt(s, 2) == 0 && ByteAt(s, 3) == 64
  {
    LowOne(s);
    assert Low(s, 2) == Low(s, 1) + 256 * ByteAt(s, 1);
    assert Low(s, 3) == Low(s, 2) + 256 * (256 * ByteAt(s, 2));
  }
}
