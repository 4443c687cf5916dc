/** Long division of ASTInteger: Algorithm D of The Art of Computer Programming,
    volume 2, section 4.3.1, in base 256 with quotient digits kept as two nibbles.
 */
module Division {
  import opened Bits
  import opened Digits
  import opened Arithmetic
  import opened Shifts
  import opened Options
  import opened Operands
  import opened Integers

  datatype Outcome = DivisionByZero | QuoRem(quo: Integer, rem: Integer)

  function TwoDigits(a: int, b: int): int {
    a * 256 + b
  }

  function ThreeDigits(a: int, b: int, c: int): int {
    TwoDigits(a, b) * 256 + c
  }

  /** The trial digit for the leading digits r1 r2 r3 of the remainder and dh dnh of the divisor. */
  function TrialDigit(r1: byte, r2: byte, r3: byte, dh: byte, dnh: byte): int
    requires dh > 0
  {
    if r1 == dh then 255 else ThreeDigits(r1, r2, r3) / TwoDigits(dh, dnh)
  }

  lemma NibbleQuotient(r1: byte, r2: byte, dh: byte)
    requires 0 <= r1 < dh
    ensures var t1 := r1 * 16 + r2 / 16;
            var t2 := t1 % dh * 16 + r2 % 16;
            var q := t1 / dh * 16 + t2 / dh;
            && r1 * 256 + r2 == q * dh + t2 % dh && 0 <= t1 / dh < 16 && 0 <= t2 / dh < 16
  {
    var t1 := r1 * 16 + r2 / 16;
    var t2 := t1 % dh * 16 + r2 % 16;
    DivModIdentity(t1, dh);
    DivModIdentity(t2, dh);
    QuotientBelow(t1, dh, 16);
    QuotientBelow(t2, dh, 16);
    SplitNibbles(t1 / dh, t2 / dh, dh);
  }

  lemma QuotientBelow(t: nat, d: nat, k: nat)
    requires t < k * d
    ensures d > 0 && 0 <= t / d < k
  {
    if d == 0 {
    } else {
      DivModIdentity(t, d);
      if t / d >= k { MulMono(k, t / d, d); }
      if t / d < 0 { MulMono(t / d, -1, d); }
    }
  }

  lemma SplitNibbles(qhi: int, qlo: int, d: int)
    ensures (qhi * 16 + qlo) * d == 16 * (qhi * d) + qlo * d
  {
  }

  /** The source's estimate of one quotient digit: both nibbles by division by dh, then the
      correction by the next divisor digit, which lowers hi instead of raising t. */
  method EstimateDigit(r1: byte, r2: byte, r3: byte, dh: byte, dnh: byte)
    returns (qhi: int, qlo: int, ghost corrections: nat)
    requires r1 <= dh && dh >= 128
    ensures 0 <= qhi < 16 && 0 <= qlo < 16
    ensures qhi * 16 + qlo == TrialDigit(r1, r2, r3, dh, dnh)
    ensures corrections <= 2
  {
    corrections := 0;
    if r1 == dh { return 15, 15, 0; }
    var t := r1 * 16 + r2 / 16;
    NibbleQuotient(r1, r2, dh);
    qhi := t / dh;
    t := t % dh * 16 + r2 % 16;
    qlo := t / dh;
    t := t % dh;
    ghost var q, d2, r := qhi * 16 + qlo, TwoDigits(dh, dnh), ThreeDigits(r1, r2, r3);
    ghost var excess := r - q * d2;
    SplitNibbles(qhi, qlo, dnh);
    InitialExcess(q, dh, dnh, t, r1, r2, r3);
    var hi := qhi * dnh;
    var lo := qlo * dnh + hi % 16 * 16;
    hi := hi / 16 + lo / 256;
    lo := lo % 256;
    while true
      invariant q == qhi * 16 + qlo && 0 <= qhi < 16 && 0 - corrections <= qlo < 16
      invariant 0 <= t && 0 <= lo < 256 && corrections <= 2
      invariant excess == r - q * d2
      invariant excess == 256 * t + r3 - 256 * hi - lo
      invariant corrections * 32768 - 65025 <= excess < d2
      decreases 2 - corrections
    {
      if !(t < hi || (t == hi && r3 < lo)) { break; }
      OneLess(q, d2);
      corrections := corrections + 1;
      q := q - 1;
      excess := excess + d2;
      qlo := qlo - 1;
      lo := lo - dnh;
      if lo < 0 {
        hi := hi - 1;
        lo := lo + 256;
      }
      if !(hi >= dh) { break; }
      hi := hi - dh;
    }
    DivModUnique(r, q, excess, d2);
    NotNegative(q, d2, r);
    if qlo < 0 {
      qhi := qhi - 1;
      qlo := qlo + 16;
    }
  }

  lemma OneLess(q: int, d: int)
    ensures (q - 1) * d == q * d - d
  {
  }

  lemma NotNegative(q: int, d: int, r: int)
    requires d > 0 && 0 <= r && r - q * d < d
    ensures q >= 0
  {
    if q < 0 { MulMono(q, -1, d); }
  }

  lemma InitialExcess(q: int, dh: byte, dnh: byte, t: int, r1: byte, r2: byte, r3: byte)
    requires 0 <= q <= 255 && TwoDigits(r1, r2) == q * dh + t && 0 <= t < dh
    ensures var excess := ThreeDigits(r1, r2, r3) - q * TwoDigits(dh, dnh);
            excess == 256 * t + r3 - q * dnh && excess < TwoDigits(dh, dnh) && 0 <= q * dnh <= 65025
  {
    assert q * TwoDigits(dh, dnh) == 256 * (q * dh) + q * dnh;
    ProductBound(q, dnh);
  }

  /** Theorem: a normalised divisor makes the trial digit exact or one too large. */
  lemma TrialDigitIsTight(v: int, d: int, r1: byte, r2: byte, r3: byte, dh: byte, dnh: byte, x: int, vl: int, dl: int)
    requires dh >= 128 && r1 <= dh
    requires v == ThreeDigits(r1, r2, r3) * x + vl && 0 <= vl < x
    requires d == TwoDigits(dh, dnh) * x + dl && 0 <= dl < x
    requires v < 256 * d
    ensures var q := TrialDigit(r1, r2, r3, dh, dnh); (q - 1) * d <= v < (q + 1) * d
  {
    var r, d2 := ThreeDigits(r1, r2, r3), TwoDigits(dh, dnh);
    if r1 == dh {
      TightWhenLeadingDigitsAgree(v, d, r, d2, x, vl, dl);
    } else {
      QuotientBelow(r, d2, 256);
      DivModIdentity(r, d2);
      TrialNotTooSmall(v, d, r, d2, r / d2, x, vl, dl);
      TrialAtMostOneTooLarge(v, d, r, d2, r / d2, x, vl, dl);
    }
  }

  lemma TightWhenLeadingDigitsAgree(v: int, d: int, r: int, d2: int, x: int, vl: int, dl: int)
    requires v == r * x + vl && 0 <= vl < x && d == d2 * x + dl && 0 <= dl < x
    requires 254 * (d2 + 1) <= r
    ensures 254 * d <= v
  {
    MulMono(254 * (d2 + 1), r, x);
    assert (254 * (d2 + 1)) * x == 254 * (d2 * x) + 254 * x;
  }

  lemma TrialNotTooSmall(v: int, d: int, r: int, d2: int, q: int, x: int, vl: int, dl: int)
    requires v == r * x + vl && 0 <= vl < x && d == d2 * x + dl && 0 <= dl < x
    requires 0 <= q && r < q * d2 + d2
    ensures v < (q + 1) * d
  {
    OneMore(q, d2);
    MulMono(r + 1, (q + 1) * d2, x);
    assert (r + 1) * x == r * x + x;
    ScaleProduct(q + 1, d2, x, dl, d);
    MulMono(0, q + 1, dl);
  }

  lemma TrialAtMostOneTooLarge(v: int, d: int, r: int, d2: int, q: int, x: int, vl: int, dl: int)
    requires v == r * x + vl && 0 <= vl < x && d == d2 * x + dl && 0 <= dl < x
    requires 0 <= q < 256 <= d2 && q * d2 <= r && 0 <= r
    ensures (q - 1) * d <= v
  {
    ScaleProduct(q - 1, d2, x, dl, d);
    OneLess(q, d2);
    MulMono(0, r, x);
    MulMono((q - 1) * d2 + d2, r, x);
    assert ((q - 1) * d2 + d2) * x == ((q - 1) * d2) * x + d2 * x;
    MulMono(256, d2, x);
    if q == 0 {
      MulMono(q - 1, 0, dl);
      MulMono((q - 1) * d2, 0, x);
    } else {
      MulMono(q - 1, 255, dl);
    }
  }

  lemma OneMore(q: int, d: int)
    ensures (q + 1) * d == q * d + d
  {
  }

  lemma ScaleProduct(q: int, d2: int, x: int, dl: int, d: int)
    requires d == d2 * x + dl
    ensures q * d == (q * d2) * x + q * dl
  {
    assert q * (d2 * x) == (q * d2) * x;
  }

  /** Subtracts (qhi * 16 + qlo) * div from the digits of rem at place l; a is the borrow left over. */
  method SubtractMultiple(rem: array<byte>, l: nat, div: array<byte>, qhi: int, qlo: int) returns (a: int)
    requires rem != div && l + div.Length <= rem.Length
    requires 0 <= qhi < 16 && 0 <= qlo < 16
    modifies rem
    ensures Value(rem[..]) + Place(a, l + div.Length)
         == Value(old(rem[..])) - Place((qhi * 16 + qlo) * Value(div[..]), l)
    ensures forall i :: (0 <= i < l || l + div.Length <= i < rem.Length) ==> rem[i] == old(rem[i])
    ensures a <= 0
  {
    a := 0;
    var k := l;
    ghost var q := qhi * 16 + qlo;
    PlaceZero(l);
    for i := 0 to div.Length
      invariant k == l + i && -255 <= a <= 0
      invariant Value(rem[..]) + Place(a, k) == Value(old(rem[..])) - Place(q * Low(div[..], i), l)
      invariant forall i :: (0 <= i < l || k <= i < rem.Length) ==> rem[i] == old(rem[i])
    {
      ghost var before, borrow := rem[..], a;
      var hi := div[i] * qhi;
      var lo := a + rem[k] - hi % 16 * 16 - div[i] * qlo;
      var digit: byte := lo - lo / 256 * 256;
      rem[k] := digit;
      a := lo / 256 - hi / 16;
      assert rem[..] == before[k := digit];
      LowUpdate(before, k, digit, rem.Length);
      ProductBound(div[i], q);
      SplitMultiple(div[i], qhi, qlo);
      assert a * 256 + digit == borrow + before[k] - div[i] * q;
      BorrowStep(div[i], q, borrow, before[k], a, digit, l, i, Low(div[..], i));
      k := k + 1;
    }
  }

  lemma SplitMultiple(d: int, qhi: int, qlo: int)
    ensures d * (qhi * 16 + qlo) == 16 * (d * qhi) + d * qlo
  {
  }

  lemma BorrowStep(d: int, q: int, borrow: int, r: int, a: int, digit: int, l: nat, i: nat, v: int)
    requires a * 256 + digit == borrow + r - d * q
    ensures Place(digit, l + i) - Place(r, l + i) + Place(a, l + i + 1)
         == Place(borrow, l + i) - (Place(q * (v + Place(d, i)), l) - Place(q * v, l))
  {
    ProductStep(d, q, -borrow, -r, -a, -digit, l, i, v);
    PlaceNeg(digit, l + i);
    PlaceNeg(r, l + i);
    PlaceNeg(a, l + i + 1);
    PlaceNeg(borrow, l + i);
  }

  lemma PlaceNeg(a: int, n: nat)
    ensures Place(-a, n) == -Place(a, n)
  {
    PlaceAdd(a, -a, n);
    PlaceZero(n);
  }

  /** Adds div back at place l; the carry out of the top digit is dropped. */
  method AddBack(rem: array<byte>, l: nat, div: array<byte>) returns (ghost carry: int)
    requires rem != div && l + div.Length <= rem.Length
    modifies rem
    ensures Value(rem[..]) + Place(carry, l + div.Length) == Value(old(rem[..])) + Place(Value(div[..]), l)
    ensures forall i :: (0 <= i < l || l + div.Length <= i < rem.Length) ==> rem[i] == old(rem[i])
  {
    var a, k := 0, l;
    PlaceZero(l);
    for i := 0 to div.Length
      invariant k == l + i && 0 <= a <= 511
      invariant Value(rem[..]) + Place(a / 256, k) == Value(old(rem[..])) + Place(Low(div[..], i), l)
      invariant forall i :: (0 <= i < l || k <= i < rem.Length) ==> rem[i] == old(rem[i])
    {
      ghost var before, carryIn := rem[..], a / 256;
      a := a / 256 + rem[k] as int + div[i];
      var digit: byte := a % 256;
      rem[k] := digit;
      assert rem[..] == before[k := digit];
      LowUpdate(before, k, digit, rem.Length);
      CarryStep(a / 256, digit, a, k);
      PlaceAdd(carryIn, before[k], k);
      PlaceAdd(carryIn + before[k], div[i], k);
      PlaceAdd(Low(div[..], i), Place(div[i], i), l);
      PlacePlace(div[i], l, i);
      k := k + 1;
    }
    carry := a / 256;
  }

  /** div holds n digits with a leading one of at least 128, and one zero digit above. */
  ghost predicate NormalisedDivisor(div: seq<byte>, n: nat) {
    n > 0 && |div| == n + 1 && div[n] == 0 && div[n - 1] >= 128
  }

  /** The state before the step for quotient digit p: the remainder is below div * 256^(p + 1). */
  ghost predicate ReadyFor(rem: seq<byte>, div: seq<byte>, n: nat, p: nat) {
    && NormalisedDivisor(div, n)
    && p + n + 1 <= |rem|
    && (forall i :: p + n + 1 <= i < |rem| ==> rem[i] == 0)
    && Value(rem) < Place(Value(div), p + 1)
  }

  /** The leading digits that the estimate looks at. */
  lemma WindowBounds(rem: seq<byte>, div: seq<byte>, n: nat, p: nat)
    requires ReadyFor(rem, div, n, p)
    ensures var v := Low(rem[p..], n + 1);
            && Value(rem) == Low(rem, p) + Place(v, p)
            && rem[p + n] <= div[n - 1]
            && var q := TrialDigit(rem[p + n], rem[p + n - 1], if n == 1 then 0 else rem[p + n - 2],
                                   div[n - 1], if n == 1 then 0 else div[n - 2]);
               (q - 1) * Value(div) <= v < (q + 1) * Value(div)
  {
    var w := rem[p..];
    var v, d := Low(w, n + 1), Value(div);
    LowAboveZeros(rem, p + n + 1, |rem|);
    LowSplits(rem, p, n + 1);
    LowBounds(rem, p);
    PlaceTimes256(d, p);
    if v >= 256 * d { PlaceMono(256 * d, v, p); }
    assert ByteAt(w, n) == rem[p + n] && ByteAt(w, n - 1) == rem[p + n - 1];
    PlaceZero(n);
    assert Value(div) == Low(div, n);
    TopWindow(w, div, n);
  }

  lemma TopWindow(w: seq<byte>, div: seq<byte>, n: nat)
    requires n > 0 && |w| >= n + 1 && |div| == n + 1 && div[n - 1] >= 128
    requires Low(w, n + 1) < 256 * Low(div, n)
    ensures w[n] <= div[n - 1]
    ensures var v, d := Low(w, n + 1), Low(div, n);
            var q := TrialDigit(w[n], w[n - 1], if n == 1 then 0 else w[n - 2],
                                div[n - 1], if n == 1 then 0 else div[n - 2]);
            (q - 1) * d <= v < (q + 1) * d
  {
    var v, d := Low(w, n + 1), Low(div, n);
    if w[n] > div[n - 1] {
      TopDigitTooLarge(w, div, n);
    }
    if n == 1 {
      LowOne(w);
      LowOne(div);
      assert Low(w, 2) == Low(w, 1) + Place(w[1], 1);
      var q := TrialDigit(w[1], w[0], 0, div[0], 0);
      TrialDigitIsTight(256 * v, 256 * d, w[1], w[0], 0, div[0], 0, 1, 0, 0);
      assert (q - 1) * (256 * d) == 256 * ((q - 1) * d) && (q + 1) * (256 * d) == 256 * ((q + 1) * d);
    } else {
      var m := n - 2;
      var r, d2 := ThreeDigits(w[n], w[n - 1], w[n - 2]), TwoDigits(div[n - 1], div[n - 2]);
      LowBounds(w, m);
      LowBounds(div, m);
      TopThree(w, n);
      TopTwo(div, n);
      PlaceMul(1, r, m);
      PlaceMul(1, d2, m);
      TrialDigitIsTight(v, d, w[n], w[n - 1], w[n - 2], div[n - 1], div[n - 2], Weight(m), Low(w, m), Low(div, m));
    }
  }

  lemma TopTwo(s: seq<byte>, n: nat)
    requires 2 <= n <= |s|
    ensures Low(s, n) == Low(s, n - 2) + Place(TwoDigits(s[n - 1], s[n - 2]), n - 2)
  {
    var a: int, b: int := s[n - 1], s[n - 2];
    assert Low(s, n - 1) == Low(s, n - 2) + Place(b, n - 2);
    PlaceTimes256(a, n - 2);
    PlaceAdd(256 * a, b, n - 2);
  }

  lemma TopThree(s: seq<byte>, n: nat)
    requires 2 <= n < |s|
    ensures Low(s, n + 1) == Low(s, n - 2) + Place(ThreeDigits(s[n], s[n - 1], s[n - 2]), n - 2)
  {
    var a: int, b: int := s[n], TwoDigits(s[n - 1], s[n - 2]);
    TopTwo(s, n);
    PlaceTimes256(a, n - 1);
    PlaceTimes256(256 * a, n - 2);
    PlaceAdd(256 * (256 * a), b, n - 2);
  }

  lemma TopDigitTooLarge(w: seq<byte>, div: seq<byte>, n: nat)
    requires n > 0 && |w| >= n + 1 && |div| >= n && w[n] > div[n - 1]
    ensures Low(w, n + 1) >= 256 * Low(div, n)
  {
    LowBounds(w, n);
    LowBounds(div, n - 1);
    PlaceMono(div[n - 1] + 1, w[n], n);
    PlaceAdd(div[n - 1], 1, n);
    PlaceTimes256(div[n - 1], n - 1);
    PlaceTimes256(1, n - 1);
  }

  /** The first half of a step: estimate a digit and subtract that multiple of the divisor.
      The ghost results split the intended difference at place p. */
  method SubtractTrial(rem: array<byte>, div: array<byte>, n: nat, p: nat)
    returns (qhi: int, qlo: int, a: int, ghost low: int, ghost e: int)
    requires rem != div && ReadyFor(rem[..], div[..], n, p)
    modifies rem
    ensures 0 <= qhi < 16 && 0 <= qlo < 16 && a <= 0 && 0 <= low < Weight(p)
    ensures -Value(div[..]) <= e < Value(div[..]) && (a < 0 <==> e < 0)
    ensures low + Place(e, p) == Value(old(rem[..])) - Place((qhi * 16 + qlo) * Value(div[..]), p)
    ensures Value(rem[..]) + Place(a, p + n + 1) == low + Place(e, p)
    ensures forall i :: p + n + 1 <= i < rem.Length ==> rem[i] == 0
    ensures a == 0 ==> Value(rem[..]) == low + Place(e, p)
    ensures a < 0 ==> qhi * 16 + qlo > 0
  {
    ghost var was, d := rem[..], Value(div[..]);
    low := Low(was, p);
    ghost var v := Low(was[p..], n + 1);
    WindowBounds(was, div[..], n, p);
    var j := p + n;
    var dnh: byte := if n == 1 then 0 else div[n - 2];
    var r3: byte := if j < 2 then 0 else rem[j - 2];
    if n == 1 { SingleDigitDivisor(rem[j], rem[j - 1], r3, div[0]); }
    ghost var corrections;
    qhi, qlo, corrections := EstimateDigit(rem[j], rem[j - 1], r3, div[n - 1], dnh);
    ghost var q := qhi * 16 + qlo;
    a := SubtractMultiple(rem, p, div, qhi, qlo);
    e := v - q * d;
    LowBounds(was, p);
    PlaceAdd(e, q * d, p);
    TightExcess(v, d, q);
    DivisorBelow(div[..], n);
    LowBounds(was[p..], n + 1);
    BorrowTells(rem[..], low, e, a, d, n, p);
  }

  lemma TightExcess(v: int, d: int, q: int)
    requires (q - 1) * d <= v < (q + 1) * d
    ensures -d <= v - q * d < d
    ensures q == 0 ==> v - q * d == v
  {
    OneLess(q, d);
    OneMore(q, d);
  }

  /** One quotient digit: estimate, subtract, and at most one add-back. */
  method DivideStep(rem: array<byte>, div: array<byte>, n: nat, p: nat) returns (qhi: int, qlo: int)
    requires rem != div && ReadyFor(rem[..], div[..], n, p)
    modifies rem
    ensures 0 <= qhi * 16 + qlo < 256
    ensures Value(rem[..]) == Value(old(rem[..])) - Place((qhi * 16 + qlo) * Value(div[..]), p)
    ensures 0 <= Value(rem[..]) < Place(Value(div[..]), p)
    ensures forall i :: p + n <= i < rem.Length ==> rem[i] == 0
  {
    ghost var d := Value(div[..]);
    var a;
    ghost var low, e;
    qhi, qlo, a, low, e := SubtractTrial(rem, div, n, p);
    DivisorBelow(div[..], n);
    if a < 0 {
      ghost var q := qhi * 16 + qlo;
      qlo := qlo - 1;
      ghost var carry := AddBack(rem, p, div);
      OneLess(q, d);
      PlaceAdd(e, d, p);
      PlaceAdd(a, carry, p + n + 1);
      AddBackCancels(rem[..], low, e + d, a + carry, d, n, p);
      PlaceAdd((q - 1) * d, d, p);
      e := e + d;
    }
    RemainderBelow(rem[..], low, e, d, n, p);
  }

  /** The source reads a third remainder digit whenever there is one; with a one-digit divisor,
      whose second digit counts as zero, that digit makes no difference. */
  lemma SingleDigitDivisor(r1: byte, r2: byte, r3: byte, dh: byte)
    requires dh > 0
    ensures TrialDigit(r1, r2, r3, dh, 0) == TrialDigit(r1, r2, 0, dh, 0)
  {
    var x := r1 * 256 + r2;
    DivModIdentity(x, dh);
    var q, m := x / dh, x % dh;
    assert x * 256 == q * (dh * 256) + m * 256;
    DivModUnique(x * 256 + r3, q, m * 256 + r3, dh * 256);
    DivModUnique(x * 256, q, m * 256, dh * 256);
  }

  lemma DivisorBelow(div: seq<byte>, n: nat)
    requires NormalisedDivisor(div, n)
    ensures 0 < Value(div) < Weight(n)
  {
    PlaceZero(n);
    LowBounds(div, n);
    assert Value(div) == Low(div, n);
    LowBounds(div, n - 1);
    PlaceMono(1, div[n - 1], n - 1);
    WeightPositive(n - 1);
  }

  /** The borrow is negative exactly when the digit was too large. */
  lemma BorrowTells(rem: seq<byte>, low: int, e: int, a: int, d: int, n: nat, p: nat)
    requires 0 <= low < Weight(p) && -d <= e < d < Weight(n) && a <= 0
    requires p + n + 1 <= |rem| && forall i :: p + n + 1 <= i < |rem| ==> rem[i] == 0
    requires Value(rem) + Place(a, p + n + 1) == low + Place(e, p)
    ensures a < 0 <==> e < 0
    ensures a == 0 ==> Value(rem) == low + Place(e, p)
  {
    LowAboveZeros(rem, p + n + 1, |rem|);
    LowBounds(rem, p + n + 1);
    PlaceZero(p + n + 1);
    if e < 0 {
      PlaceMono(e, -1, p);
      PlaceNeg(1, p);
    } else if a < 0 {
      PlaceMono(a, -1, p + n + 1);
      PlaceNeg(1, p + n + 1);
      PlaceZero(p);
      PlaceMono(0, e, p);
    }
  }

  lemma AddBackCancels(rem: seq<byte>, low: int, e: int, c: int, d: int, n: nat, p: nat)
    requires 0 <= low < Weight(p) && 0 <= e < d < Weight(n)
    requires p + n + 1 <= |rem| && forall i :: p + n + 1 <= i < |rem| ==> rem[i] == 0
    requires Value(rem) + Place(c, p + n + 1) == low + Place(e, p)
    ensures Value(rem) == low + Place(e, p)
  {
    LowAboveZeros(rem, p + n + 1, |rem|);
    LowBounds(rem, p + n + 1);
    PlaceZero(p);
    PlaceZero(p + n + 1);
    PlaceMono(0, e, p);
    PlaceMono(e + 1, Weight(n), p);
    PlaceAdd(e, 1, p);
    PlacePlace(1, p, n);
    WeightMono(p + n, p + n + 1);
    if c > 0 { PlaceMono(1, c, p + n + 1); }
    if c < 0 { PlaceMono(c, -1, p + n + 1); PlaceNeg(1, p + n + 1); }
  }

  lemma RemainderBelow(rem: seq<byte>, low: int, e: int, d: int, n: nat, p: nat)
    requires 0 <= low < Weight(p) && 0 <= e < d < Weight(n)
    requires p + n + 1 <= |rem| && forall i :: p + n + 1 <= i < |rem| ==> rem[i] == 0
    requires Value(rem) == low + Place(e, p)
    ensures 0 <= Value(rem) < Place(d, p)
    ensures rem[p + n] == 0
  {
    PlaceZero(p);
    PlaceMono(0, e, p);
    PlaceMono(e + 1, d, p);
    PlaceAdd(e, 1, p);
    PlaceMono(d, Weight(n), p);
    PlacePlace(1, p, n);
    LowAboveZeros(rem, p + n + 1, |rem|);
    LowBounds(rem, p + n);
    if rem[p + n] != 0 { PlaceMono(1, rem[p + n], p + n); }
  }

  /** A SmallInteger from 2^32 on, whose leading byte reads as zero. */
  predicate LeadsWithZero(arg: Integer) {
    arg.Small? && Abs(arg.value) >= WORD4
  }

  /** digitDiv:neg: answers quotient and remainder of the magnitudes, with the sign ng for the
      quotient and the receiver's sign for the remainder. A divisor whose leading byte reads as zero
      makes it divide by zero, unless the receiver has fewer bytes. */
  method DigitDiv(self: array<byte>, negative: bool, arg: Integer, ng: bool) returns (r: Outcome)
    requires Trimmed(self[..])
    requires if arg.Small? then 0 <= arg.value < -MIN_VAL else Trimmed(arg.bytes[..])
    ensures r.DivisionByZero? <==> ValueOf(arg) == 0 || (LeadsWithZero(arg) && self.Length >= |Shown(arg)|)
    ensures r.QuoRem? ==> ValueOf(r.quo) == Signed(ng, Value(self[..]) / Abs(ValueOf(arg)))
    ensures r.QuoRem? ==> ValueOf(r.rem) == Signed(negative, Value(self[..]) % Abs(ValueOf(arg)))
    ensures r.QuoRem? ==> (r.quo.Small? ==> r.quo == Small(0)) && (r.quo.Large? ==> r.quo.negative == ng)
  {
    var bytes := BytesOf(arg);
    ghost var x, y := Value(self[..]), Abs(ValueOf(arg));
    DivisorBytes(arg);
    TrimmedBounds(self[..]);
    if bytes.Length == 0 || (arg.Small? && arg.value == 0) { return DivisionByZero; }
    var l := self.Length - bytes.Length + 1;
    if l <= 0 {
      WeightMono(self.Length, bytes.Length - 1);
      DivModUnique(x, 0, x, y);
      return QuoRem(Small(0), Large(negative, self));
    }
    if bytes[bytes.Length - 1] == 0 {
      var fails := FirstStepFails(self, arg.value, bytes);
      assert fails;
      return DivisionByZero;
    }
    r := DivideBytes(self, negative, bytes, ng, l);
  }

  lemma DivisorBytes(arg: Integer)
    requires if arg.Small? then 0 <= arg.value < -MIN_VAL else Trimmed(arg.bytes[..])
    ensures ValueOf(arg) == 0 <==> Shown(arg) == [] || arg == Small(0)
    ensures ValueOf(arg) != 0 ==> |Shown(arg)| > 0 && Weight(|Shown(arg)| - 1) <= Abs(ValueOf(arg))
    ensures LeadsWithZero(arg) ==> |Shown(arg)| > 4 && Shown(arg)[|Shown(arg)| - 1] == 0
    ensures !LeadsWithZero(arg) && ValueOf(arg) != 0 ==> Trimmed(Shown(arg)) && Value(Shown(arg)) == Abs(ValueOf(arg))
  {
    match arg
    case Large(_, bytes) => TrimmedBounds(bytes[..]);
    case Small(v) =>
      SmallDigitsValue(v);
      FewBytes();
      assert Weight(0) == 1;
      if 0 < v < WORD4 { SmallDigitsTrimmed(v); }
  }

  /** The first step of the loop for a SmallInteger divisor v from 2^32 on: the leading digit dh of the shifted
      divisor is zero, that of the dividend is not, so `t // dh` divides by zero. */
  method FirstStepFails(self: array<byte>, v: nat, bytes: array<byte>) returns (fails: bool)
    requires Trimmed(self[..]) && WORD4 <= v < -MIN_VAL && bytes[..] == SmallDigits(v) && self.Length >= bytes.Length
    ensures fails
  {
    var lastDigit := SmallHighBit(bytes[bytes.Length - 1]);
    var d := 8 - lastDigit;
    var highBit := SmallHighBit(v);
    UnseenBits(v, highBit, 32);
    var len := (highBit + d + 7) / 8;
    var div := ShiftBytes(bytes, d / 8, len);
    TrimmedBounds(self[..]);
    var rem := LshiftDigits(self, d);
    var dh := div[len - 1];
    assert dh == ByteAt(bytes[..], len - 2) == 0;
    TrimmedBounds(rem[..]);
    ShiftUpIsTimesPow2(Value(self[..]), d);
    MulMono(1, Value(self[..]), Pow2(d));
    fails := dh == 0 && rem[rem.Length - 1] != dh;
  }

  lemma UnseenBits(v: nat, bits: nat, k: nat)
    requires WORD4 <= v && bits == BitLength(v) && k == 32
    ensures bits > k
  {
    BitLengthBounds(v);
    WordBits(k);
    if bits <= k { Pow2Mono(bits, k); }
  }

  /** The division by bytes without leading zeros. */
  method DivideBytes(self: array<byte>, negative: bool, arg: array<byte>, ng: bool, l: nat) returns (r: Outcome)
    requires Trimmed(self[..]) && Trimmed(arg[..]) && 0 < arg.Length <= self.Length && l == self.Length - arg.Length + 1
    ensures r.QuoRem? && Value(arg[..]) > 0 && r.quo.Large? && r.quo.negative == ng
    ensures ValueOf(r.quo) == Signed(ng, Value(self[..]) / Value(arg[..]))
    ensures ValueOf(r.rem) == Signed(negative, Value(self[..]) % Value(arg[..]))
  {
    TrimmedBounds(arg[..]);
    ghost var x, y := Value(self[..]), Value(arg[..]);
    var d, div, rem := NormaliseOperands(self, arg);
    var dl := div.Length - 1;
    var quo := DivideLoop(rem, div, dl, l);
    var result := DigitRshift(rem, d, 0, dl);
    VisibleIsAll(rem[..], d, dl);
    UnscaleDivision(x, y, d, Value(quo[..]), Value(rem[..]), Value(div[..]));
    r := QuoRem(Large(ng, quo), Large(negative, result));
  }

  /** Shifting n bytes, of which the first has top significant bits, by d bits. */
  lemma LengthAfterShift(top: nat, n: nat, d: nat, len: nat)
    requires 1 <= top <= 8 && n > 0 && d < 8 && len == (top + 8 * (n - 1) + d + 7) / 8
    ensures len == n || len == n + 1
    ensures top + d == 8 ==> len == n
  {
  }

  method GrowByOne(a: array<byte>) returns (r: array<byte>)
    ensures fresh(r) && r.Length == a.Length + 1 && r[a.Length] == 0 && Value(r[..]) == Value(a[..])
  {
    LowBeyond(a[..], a.Length + 1);
    r := GrowTo(a, a.Length + 1);
  }

  /** Shifts both operands so that the leading divisor digit is at least 128. */
  method NormaliseOperands(self: array<byte>, arg: array<byte>) returns (d: nat, div: array<byte>, rem: array<byte>)
    requires Trimmed(self[..]) && Trimmed(arg[..]) && 0 < arg.Length <= self.Length
    ensures d < 8 && fresh(div) && fresh(rem) && div != rem
    ensures rem.Length == self.Length + 1 && NormalisedDivisor(div[..], arg.Length)
    ensures Value(div[..]) == ShiftUp(Value(arg[..]), d) && Value(rem[..]) == ShiftUp(Value(self[..]), d)
    ensures Value(rem[..]) < Place(Value(div[..]), self.Length - arg.Length + 1)
  {
    TrimmedBounds(self[..]);
    TrimmedBounds(arg[..]);
    var high := SmallHighBit(arg[arg.Length - 1]);
    TopByteBits(self[..]);
    TopByteBits(arg[..]);
    d := 8 - high;
    div := LshiftDigits(arg, d);
    LengthAfterShift(high, arg.Length, d, div.Length);
    div := GrowByOne(div);
    rem := LshiftDigits(self, d);
    LengthAfterShift(BitLength(self[self.Length - 1]), self.Length, d, rem.Length);
    if rem.Length == self.Length { rem := GrowByOne(rem); }
    ShiftedDivisor(div[..], Value(arg[..]), arg.Length, d);
    ShiftedDividend(Value(self[..]), Value(div[..]), d, arg.Length, self.Length);
  }

  lemma TopByteBits(s: seq<byte>)
    requires Trimmed(s) && |s| > 0
    ensures 1 <= BitLength(s[|s| - 1]) <= 8
    ensures Value(s) > 0 && BitLength(Value(s)) == BitLength(s[|s| - 1]) + 8 * (|s| - 1)
  {
    HighBitOfDigits(s, |s|);
    BitLengthBounds(s[|s| - 1]);
    Power8(8);
    if BitLength(s[|s| - 1]) > 8 { Pow2Mono(8, BitLength(s[|s| - 1]) - 1); }
  }

  lemma ShiftedDivisor(div: seq<byte>, y: int, n: nat, d: nat)
    requires n > 0 && |div| == n + 1 && div[n] == 0 && y > 0 && d < 8
    requires Value(div) == ShiftUp(y, d) && BitLength(y) + d == 8 * n
    ensures div[n - 1] >= 128 && Value(div) >= Place(128, n - 1)
  {
    BitLengthBounds(y);
    ScaledBounds(y, BitLength(y), d);
    assert Value(div) == Low(div, n) by { PlaceZero(n); }
    HalfPlace(n - 1, 8 * n - 1);
    LeadingHalf(div, n - 1);
  }

  lemma HalfPlace(p: nat, k: nat)
    requires k == 8 * p + 7
    ensures Place(128, p) == Pow2(k)
  {
    assert Pow2(7) == 128 by { Power8(8); }
    ShiftUpOne(7);
    PlaceShiftUp(1, 7, p);
    ShiftUpOne(k);
  }

  lemma LeadingHalf(s: seq<byte>, p: nat)
    requires p < |s| && Low(s, p + 1) >= Place(128, p)
    ensures s[p] >= 128
  {
    LowBounds(s, p);
    if s[p] < 128 {
      PlaceMono(s[p] + 1, 128, p);
      PlaceAdd(s[p], 1, p);
    }
  }

  lemma ShiftedDividend(x: int, v: int, d: nat, n: nat, m: nat)
    requires 0 < n <= m && d < 8 && 0 <= x < Weight(m) && v >= Place(128, n - 1)
    ensures ShiftUp(x, d) < Place(v, m - n + 1)
  {
    var above := x + 1;
    ShiftUpMono(above, Weight(m), d);
    ShiftUpAdd(x, 1, above, d);
    ShiftUpOne(d);
    PlaceCommutes(1, m, d);
    assert Pow2(7) == 128 by { Power8(8); }
    Pow2Mono(d, 7);
    PlaceMono(Pow2(d), 128, m);
    PlaceMono(Place(128, n - 1), v, m - n + 1);
    PlacePlace(128, m - n + 1, n - 1);
  }

  /** The digit loop: quotient digits l - 1 down to 0; rem becomes the remainder. */
  method DivideLoop(rem: array<byte>, div: array<byte>, dl: nat, l: nat) returns (quo: array<byte>)
    requires rem != div && NormalisedDivisor(div[..], dl) && l + dl == rem.Length
    requires Value(rem[..]) < Place(Value(div[..]), l)
    modifies rem
    ensures fresh(quo) && quo.Length == l
    ensures Value(old(rem[..])) == Value(quo[..]) * Value(div[..]) + Value(rem[..])
    ensures 0 <= Value(rem[..]) < Value(div[..])
    ensures forall i :: dl <= i < rem.Length ==> rem[i] == 0
  {
    quo := new byte[l](_ => 0);
    LowZeros(quo[..], l);
    LowBounds(rem[..], rem.Length);
    ghost var v := Value(div[..]);
    for k := 0 to l
      invariant Value(old(rem[..])) == Value(quo[..]) * v + Value(rem[..])
      invariant 0 <= Value(rem[..]) < Place(v, l - k)
      invariant forall i :: l - k + dl <= i < rem.Length ==> rem[i] == 0
      invariant forall i :: 0 <= i < l - k ==> quo[i] == 0
    {
      ghost var p := l - k - 1;
      ghost var before := quo[..];
      var qhi, qlo := DivideStep(rem, div, dl, l - k - 1);
      var q: byte := qhi * 16 + qlo;
      quo[l - 1 - k] := q;
      assert quo[..] == before[p := q];
      LowUpdate(before, p, q, l);
      PlaceZero(p);
      Distribute(Value(before), q, p, v);
    }
  }

  /** Dividing the shifted operands and shifting the remainder back divides the operands. */
  lemma UnscaleDivision(x: int, y: int, d: nat, q: int, r: int, v: int)
    requires y > 0 && v == ShiftUp(y, d) && ShiftUp(x, d) == q * v + r && 0 <= r < v
    ensures q == x / y && r / Pow2(8 * 0 + d) == x % y
  {
    var p := Pow2(d);
    ShiftUpIsTimesPow2(x, d);
    ShiftUpIsTimesPow2(y, d);
    CancelScale(x, y, p, q, r);
    DivModUnique(x, q, x - q * y, y);
    DivModUnique(r, x - q * y, 0, p);
  }

  lemma CancelScale(x: int, y: int, p: int, q: int, r: int)
    requires p > 0 && y > 0 && x * p == q * (y * p) + r && 0 <= r < y * p
    ensures r == (x - q * y) * p && 0 <= x - q * y < y
  {
    var m := x - q * y;
    assert q * (y * p) == (q * y) * p;
    assert m * p == x * p - (q * y) * p;
    if m < 0 { MulMono(m, -1, p); }
    if m >= y { MulMono(y, m, p); }
  }

  /** The magnitude that quo: divides by: abs answers 2^30 for the SmallInteger minVal. */
  function Divisor(y: Whole): nat {
    if y == Whole(false, MIN_VAL) then GAP else Abs(y.value)
  }

  /** abs, which quo: sends to a SmallInteger. */
  method AbsOf(arg: Integer) returns (r: Integer)
    requires Proper(arg)
    ensures Proper(r) && ValueOf(r) == (if arg.Small? then Divisor(WholeOf(arg)) else ValueOf(arg))
            && (r.Small? <==> arg.Small?)
    ensures arg.Large? ==> r == arg
  {
    r := arg;
    if arg.Small? && arg.value < 0 { r := Subtract(Small(0), arg); }
  }

  /** quo: answers the normalised quotient, or an error for zero and for a SmallInteger from 2^32 on that has
      no more bytes than the receiver. */
  method Quo(self: array<byte>, negative: bool, arg: Integer) returns (quo: Option<Integer>)
    requires Trimmed(self[..]) && Proper(arg)
    ensures quo.None? <==>
      ValueOf(arg) == 0 || (LeadsWithZero(arg) && arg.value != MIN_VAL && self.Length >= |Shown(arg)|)
    ensures quo.Some? ==> Answers(quo.value, Signed(negative != Negative(arg), Value(self[..]) / Divisor(WholeOf(arg))))
  {
    ShownIsSeen(arg);
    var ng := negative != Negative(arg);
    var divisor := AbsOf(arg);
    var r := DigitDiv(self, negative, divisor, ng);
    match r
    case DivisionByZero => quo := None;
    case QuoRem(Small(v), _) => quo := Some(Small(v));
    case QuoRem(Large(_, digits), _) =>
      var q := Normalize(digits, ng);
      quo := Some(q);
  }
}
