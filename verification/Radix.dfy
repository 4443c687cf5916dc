/** Printing and reading of integers in any radix. */
module Radix {
  import opened Bits
  import opened Digits
  import opened Arithmetic
  import opened Integers

  /** ASTCharacter class >> digitValue: */
  function DigitChar(x: int): char
    requires 0 <= x < 36
  {
    if x < 10 then (48 + x) as char else (55 + x) as char
  }

  /** ASTCharacter >> digitValue: negative for a character that is no digit. */
  function DigitValue(c: char): int {
    if c as int <= 57 then c as int - 48
    else if 65 <= c as int <= 90 then c as int - 65 + 10
    else -1
  }

  /** The digits of v in base b, most significant first, without leading zeros. */
  function Numeral(v: nat, b: int): string
    requires 2 <= b <= 36
    decreases v
  {
    if v < b then [DigitChar(v)] else
      Smaller(v, b);
      Numeral(v / b, b) + [DigitChar(v % b)]
  }

  lemma Smaller(v: nat, b: int)
    requires 2 <= b <= v
    ensures 0 < v / b <= v / 2 < v
  {
    DivModIdentity(v, b);
    DivModIdentity(v, 2);
    if v / b <= 0 { MulMono(v / b, 0, b); }
    if v / b > v / 2 {
      MulMono(v / 2 + 1, v / b, b);
      MulMono(2, b, v / 2 + 1);
    }
  }

  function RadixPrefix(b: int): string
    requires 2 <= b <= 36
  {
    if b == 10 then "" else Numeral(b, 10) + "r"
  }

  /** What printOn:base: writes for the integer v. */
  function Text(v: int, b: int): string
    requires 2 <= b <= 36
  {
    (if v < 0 then "-" else "") + RadixPrefix(b) + Numeral(if v < 0 then -v else v, b)
  }

  // What a text says, whoever wrote it

  const DIGITS: string := "0123456789ABCDEFGHIJKLMNOPQRSTUVWXYZ"

  /** The number that digits make, the most significant one first. */
  function Horner(digits: seq<int>, b: int): int {
    if digits == [] then 0 else Horner(digits[..|digits| - 1], b) * b + digits[|digits| - 1]
  }

  /** The digits, spelled with the characters above, make v in base b, without leading zeros. */
  predicate SpelledBy(s: string, b: int, v: nat, digits: seq<int>) {
    && |digits| == |s| > 0 && Horner(digits, b) == v && (|s| > 1 ==> digits[0] != 0)
    && forall i :: 0 <= i < |s| ==> 0 <= digits[i] < b && digits[i] < |DIGITS| && s[i] == DIGITS[digits[i]]
  }

  ghost predicate Spells(s: string, b: int, v: nat) {
    exists digits :: SpelledBy(s, b, v, digits)
  }

  /** Of the text of v in base b: a sign for a negative integer only, a radix for all bases but 10, and the digits. */
  ghost predicate Says(text: string, v: int, b: int) {
    exists radix, numeral :: SaysWith(text, v, b, radix, numeral)
  }

  ghost predicate SaysWith(text: string, v: int, b: int, radix: string, numeral: string) {
    text == (if v < 0 then "-" else "") + radix + numeral && Spells(numeral, b, Abs(v)) && IsRadix(radix, b)
  }

  ghost predicate IsRadix(radix: string, b: int) {
    if b == 10 then radix == ""
    else b >= 0 && |radix| > 0 && radix[|radix| - 1] == 'r' && Spells(radix[..|radix| - 1], 10, b)
  }

  lemma CharacterOfDigit(x: int)
    requires 0 <= x < 36
    ensures |DIGITS| == 36 && DIGITS[x] == DigitChar(x)
  {
    var low, high := "0123456789ABCDEFGH", "IJKLMNOPQRSTUVWXYZ";
    assert DIGITS == low + high;
  }

  /** A numeral spells its number. */
  lemma {:induction false} NumeralSpells(v: nat, b: int) returns (digits: seq<int>)
    requires 2 <= b <= 36
    ensures SpelledBy(Numeral(v, b), b, v, digits) && Spells(Numeral(v, b), b, v)
    ensures v > 0 ==> digits[0] != 0
    decreases v
  {
    var x := v % b;
    DivModIdentity(v, b);
    CharacterOfDigit(x);
    if v < b {
      DivModUnique(v, 0, v, b);
      digits := [v];
      assert Horner(digits[..0], b) == 0;
    } else {
      Smaller(v, b);
      var higher := NumeralSpells(v / b, b);
      digits := higher + [x];
      assert digits[..|digits| - 1] == higher;
    }
    assert SpelledBy(Numeral(v, b), b, v, digits);
  }

  lemma {:induction false} HornerBounds(digits: seq<int>, b: int)
    requires b >= 2 && forall i :: 0 <= i < |digits| ==> 0 <= digits[i] < b
    ensures Horner(digits, b) >= 0 && (digits != [] && digits[0] != 0 ==> Horner(digits, b) > 0)
  {
    if digits != [] {
      HornerBounds(digits[..|digits| - 1], b);
      MulMono(0, Horner(digits[..|digits| - 1], b), b);
    }
  }

  /** Digits without leading zeros are determined by their number. */
  lemma {:induction false} DigitsUnique(d: seq<int>, e: seq<int>, b: int)
    requires b >= 2 && Horner(d, b) == Horner(e, b)
    requires forall i :: 0 <= i < |d| ==> 0 <= d[i] < b
    requires forall i :: 0 <= i < |e| ==> 0 <= e[i] < b
    requires (d != [] ==> d[0] != 0) && (e != [] ==> e[0] != 0)
    ensures d == e
    decreases |d|
  {
    HornerBounds(d, b);
    HornerBounds(e, b);
    if d != [] && e != [] {
      var d', e' := d[..|d| - 1], e[..|e| - 1];
      DivModUnique(Horner(d, b), Horner(d', b), d[|d| - 1], b);
      DivModUnique(Horner(e, b), Horner(e', b), e[|e| - 1], b);
      DigitsUnique(d', e', b);
      assert d == d' + [d[|d| - 1]] && e == e' + [e[|e| - 1]];
    }
  }

  /** Only one string spells a number. */
  lemma SpellingUnique(s: string, t: string, b: int, v: nat)
    requires 2 <= b <= 36 && Spells(s, b, v) && Spells(t, b, v)
    ensures s == t
  {
    var d :| SpelledBy(s, b, v, d);
    var e :| SpelledBy(t, b, v, e);
    HornerBounds(d, b);
    HornerBounds(e, b);
    if v == 0 {
      assert d[..0] == [] && e[..0] == [];
      assert |d| == 1 && |e| == 1;
      assert Horner(d, b) == d[0] && Horner(e, b) == e[0];
    } else {
      LeadsWithDigit(s, b, v, d);
      LeadsWithDigit(t, b, v, e);
      DigitsUnique(d, e, b);
    }
    assert forall i :: 0 <= i < |s| ==> s[i] == t[i];
  }

  lemma LeadsWithDigit(s: string, b: int, v: nat, digits: seq<int>)
    requires SpelledBy(s, b, v, digits) && v > 0
    ensures digits[0] != 0
  {
    if |digits| == 1 { assert Horner(digits[..0], b) == 0; }
  }

  /** Text is a text of v, and the only one. */
  lemma TextSays(v: int, b: int)
    requires 2 <= b <= 36
    ensures Says(Text(v, b), v, b)
  {
    var _ := NumeralSpells(Abs(v), b);
    var radix := RadixPrefix(b);
    if b != 10 {
      var _ := NumeralSpells(b, 10);
      assert radix[..|radix| - 1] == Numeral(b, 10);
    }
    assert SaysWith(Text(v, b), v, b, radix, Numeral(Abs(v), b));
  }

  /** There is one text only. */
  lemma OneTextSays(text: string, v: int, b: int)
    requires 2 <= b <= 36 && Says(text, v, b)
    ensures text == Text(v, b)
  {
    var radix, numeral :| SaysWith(text, v, b, radix, numeral);
    var _ := NumeralSpells(Abs(v), b);
    SpellingUnique(numeral, Numeral(Abs(v), b), b, Abs(v));
    OneRadix(radix, b);
  }

  lemma OneRadix(radix: string, b: int)
    requires 2 <= b <= 36 && IsRadix(radix, b)
    ensures radix == RadixPrefix(b)
  {
    if b != 10 {
      var numeral := radix[..|radix| - 1];
      var _ := NumeralSpells(b, 10);
      SpellingUnique(numeral, Numeral(b, 10), 10, b);
      assert radix == numeral + "r";
    }
  }

  predicate IsDecimal(s: string) {
    forall i :: 0 <= i < |s| ==> '0' <= s[i] <= '9'
  }

  predicate AreDigits(s: string) {
    forall i :: 0 <= i < |s| ==> s[i] in DIGITS
  }

  /** The characters of a text: a sign for a negative integer only, and decimal digits in base 10; in any other base the
      radix in decimal digits, one r, and digits. */
  predicate HasCharacters(text: string, v: int, b: int) {
    var start := if v < 0 then 1 else 0;
    && |text| > start && (v < 0 <==> text[0] == '-')
    && if b == 10 then IsDecimal(text[start..]) else exists j :: start < j < |text| && RadixEnds(text, start, j)
  }

  predicate RadixEnds(text: string, start: int, j: int)
    requires 0 <= start < j < |text|
  {
    text[j] == 'r' && IsDecimal(text[start..j]) && text[j + 1..] != "" && AreDigits(text[j + 1..])
  }

  lemma SpelledCharacters(s: string, b: int, v: nat)
    requires 2 <= b <= 36 && Spells(s, b, v)
    ensures s != "" && s[0] != '-' && AreDigits(s)
    ensures b == 10 ==> IsDecimal(s)
  {
    var digits :| SpelledBy(s, b, v, digits);
    forall i | 0 <= i < |s|
      ensures s[i] in DIGITS && s[i] != '-' && (b == 10 ==> '0' <= s[i] <= '9')
    {
      CharacterOfDigit(digits[i]);
    }
  }

  lemma JoinedText(sign: string, radix: string, numeral: string, text: string)
    requires text == sign + radix + "r" + numeral
    ensures var start, j := |sign|, |sign| + |radix|;
            && j < |text| && text[start..j] == radix && text[j] == 'r' && text[j + 1..] == numeral
            && (radix != "" && sign == "" ==> text[0] == radix[0])
  {
  }

  lemma TextHasCharacters(v: int, b: int)
    requires 2 <= b <= 36
    ensures HasCharacters(Text(v, b), v, b)
  {
    var _ := NumeralSpells(Abs(v), b);
    SpelledCharacters(Numeral(Abs(v), b), b, Abs(v));
    if b == 10 {
      DecimalCharacters(v, Numeral(Abs(v), b), Text(v, b));
    } else {
      var _ := NumeralSpells(b, 10);
      SpelledCharacters(Numeral(b, 10), 10, b);
      RadixCharacters(v, b, Numeral(b, 10), Numeral(Abs(v), b), Text(v, b));
    }
  }

  lemma DecimalCharacters(v: int, numeral: string, text: string)
    requires numeral != "" && numeral[0] != '-' && IsDecimal(numeral)
    requires text == (if v < 0 then "-" else "") + "" + numeral
    ensures HasCharacters(text, v, 10)
  {
    assert text[if v < 0 then 1 else 0..] == numeral;
  }

  lemma RadixCharacters(v: int, b: int, radix: string, numeral: string, text: string)
    requires radix != "" && radix[0] != '-' && IsDecimal(radix) && numeral != "" && AreDigits(numeral) && b != 10
    requires text == (if v < 0 then "-" else "") + (radix + "r") + numeral
    ensures HasCharacters(text, v, b)
  {
    var sign := if v < 0 then "-" else "";
    Associative(sign, radix, "r");
    JoinedText(sign, radix, numeral, text);
    assert RadixEnds(text, |sign|, |sign| + |radix|);
  }

  /** b to the n. */
  function Power(b: int, n: nat): int {
    if n == 0 then 1 else b * Power(b, n - 1)
  }

  lemma {:induction false} NumeralFits(v: nat, b: int, n: nat)
    requires 2 <= b <= 36
    ensures v < Power(b, n + 1) <==> |Numeral(v, b)| <= n + 1
    decreases n
  {
    PowerPositive(b, n);
    QuotientAtMost(v, b, Power(b, n));
    if v < b {
    } else {
      Smaller(v, b);
      if n == 0 {
        NumeralNotEmpty(v / b, b);
      } else {
        NumeralFits(v / b, b, n - 1);
      }
    }
  }

  lemma QuotientAtMost(v: nat, b: int, p: int)
    requires b > 0 && p >= 1
    ensures v / b < p <==> v < b * p
    ensures v < b ==> v / b == 0
  {
    DivModIdentity(v, b);
    if v / b < p { MulMono(v / b + 1, p, b); } else { MulMono(p, v / b, b); }
    if v < b { DivModUnique(v, 0, v, b); }
  }

  lemma NumeralNotEmpty(v: nat, b: int)
    requires 2 <= b <= 36
    ensures |Numeral(v, b)| >= 1
  {
  }

  lemma {:induction false} PowerPositive(b: int, n: nat)
    requires b >= 2
    ensures Power(b, n) >= 1
  {
    if n > 0 {
      PowerPositive(b, n - 1);
      MulMono(1, Power(b, n - 1), b);
    }
  }

  lemma {:induction false} PowerMono(a: int, b: int, n: nat)
    requires 2 <= a <= b
    ensures Power(a, n) <= Power(b, n)
  {
    if n > 0 {
      PowerMono(a, b, n - 1);
      PowerPositive(a, n - 1);
      MulMono(a, b, Power(a, n - 1));
      MulMono(Power(a, n - 1), Power(b, n - 1), b);
      assert b * Power(a, n - 1) == Power(a, n - 1) * b;
    }
  }

  /** A digit buffer, least significant digit first, as text. */
  function BufferText(d: seq<int>): string
    requires forall i :: 0 <= i < |d| ==> 0 <= d[i] < 36
  {
    if d == [] then "" else [DigitChar(d[|d| - 1])] + BufferText(d[..|d| - 1])
  }

  lemma BufferPush(d: seq<int>, x: int)
    requires forall i :: 0 <= i < |d| ==> 0 <= d[i] < 36
    requires 0 <= x < 36
    ensures BufferText(d + [x]) == [DigitChar(x)] + BufferText(d)
  {
    assert (d + [x])[..|d|] == d;
  }

  /** The buffer holds digits, which complete the numeral of x to the whole text. */
  ghost predicate Pending(text: string, x: nat, b: int, d: seq<int>)
    requires 2 <= b <= 36
  {
    && (forall i :: 0 <= i < |d| ==> 0 <= d[i] < 36)
    && text == Numeral(x, b) + BufferText(d) && |text| == |Numeral(x, b)| + |d|
  }

  lemma PushDigit(text: string, x: nat, b: int, q: int, r: int, d: seq<int>)
    requires 2 <= b <= 36 && b <= x && q == x / b && r == x % b && Pending(text, x, b, d)
    ensures 0 <= r < b && 0 < q < x && Pending(text, q, b, d + [r])
  {
    DivModIdentity(x, b);
    Smaller(x, b);
    BufferPush(d, r);
    Associative(Numeral(q, b), [DigitChar(r)], BufferText(d));
  }

  lemma LastDigit(text: string, x: nat, b: int, d: seq<int>)
    requires 2 <= b <= 36 && x < b && Pending(text, x, b, d)
    ensures |text| == |d| + 1 && text == BufferText(d + [x])
    ensures forall i :: 0 <= i < |d| ==> 0 <= d[i] < 36
  {
    BufferPush(d, x);
  }

  /** The last loop of both printers: writes the buffer from the top down. */
  method WriteBuffer(digits: array<int>, count: nat) returns (text: string)
    requires count <= digits.Length
    requires forall i :: 0 <= i < count ==> 0 <= digits[i] < 36
    ensures text == BufferText(digits[..count])
  {
    text := "";
    var pos := count;
    while pos > 0
      invariant 0 <= pos <= count
      invariant BufferText(digits[..count]) == text + BufferText(digits[..pos])
    {
      assert digits[..pos][..pos - 1] == digits[..pos - 1];
      text := text + [DigitChar(digits[pos - 1])];
      pos := pos - 1;
    }
  }

  /** The digit loop of ASTSmallInteger >> printOn:base: with its buffer of 32 slots. Storing
      beyond the buffer is an error. */
  method PrintSmallDigits(v: nat, b: int) returns (ok: bool, text: string)
    requires 2 <= b <= 36
    ensures ok <==> v < Power(b, 32)
    ensures text == if ok then Numeral(v, b) else ""
  {
    ok, text := PrintDigits(v, b, Numeral(v, b));
    NumeralFits(v, b, 31);
  }

  method PrintDigits(v: nat, b: int, ghost numeral: string) returns (ok: bool, text: string)
    requires 2 <= b <= 36 && numeral == Numeral(v, b)
    ensures ok <==> |numeral| <= 32
    ensures text == if ok then numeral else ""
  {
    var digitsInReverse := new int[32](_ => 0);
    var x, i := v, 0;
    while x >= b
      invariant 0 <= x && 0 <= i <= 32
      invariant Pending(numeral, x, b, digitsInReverse[..i])
      decreases x
    {
      if i == 32 {
        NumeralNotEmpty(x, b);
        return false, "";
      }
      x := NextDigit(x, b, digitsInReverse, i, numeral);
      i := i + 1;
    }
    ok, text := PrintReversed(x, b, digitsInReverse, i, numeral);
  }

  /** The last digit goes into the buffer, and the buffer into the text. */
  method PrintReversed(x: nat, b: int, digits: array<int>, i: nat, ghost numeral: string)
    returns (ok: bool, text: string)
    requires 2 <= b <= 36 && x < b && i <= digits.Length && Pending(numeral, x, b, digits[..i])
    modifies digits
    ensures ok <==> |numeral| <= digits.Length
    ensures text == if ok then numeral else ""
  {
    LastDigit(numeral, x, b, digits[..i]);
    if i == digits.Length { return false, ""; }
    PutDigit(digits, i, x);
    text := WriteBuffer(digits, i + 1);
    ok := true;
  }

  /** Appends a digit to the i digits of the buffer. */
  method PutDigit(digits: array<int>, i: nat, digit: int)
    requires i < digits.Length
    modifies digits
    ensures digits[..i + 1] == old(digits[..i]) + [digit]
  {
    digits[i] := digit;
  }

  /** One round of the loop: the lowest digit of x goes into the buffer. */
  method NextDigit(x: nat, b: int, digits: array<int>, i: nat, ghost numeral: string) returns (quo: nat)
    requires 2 <= b <= 36 && b <= x && i < digits.Length && Pending(numeral, x, b, digits[..i])
    modifies digits
    ensures quo < x && Pending(numeral, quo, b, digits[..i + 1])
  {
    ghost var pushed := digits[..i];
    var rem := x % b;
    quo := x / b;
    PushDigit(numeral, x, b, quo, rem, pushed);
    PutDigit(digits, i, rem);
  }

  /** What printOn:base: writes for a SmallInteger: negated answers 2^30 for minVal. */
  function Written(v: int): int {
    if v == MIN_VAL then -GAP else v
  }

  /** ASTSmallInteger >> printOn:base: writes the sign and the radix prefix before the digits. */
  method PrintSmall(v: int, b: int) returns (ok: bool, text: string)
    requires 2 <= b <= 36 && IsSmall(v)
    ensures ok <==> Abs(Written(v)) < Power(b, 32)
    ensures ok ==> text == Text(Written(v), b)
    ensures ok ==> Says(text, Written(v), b) && HasCharacters(text, Written(v), b)
  {
    ok, text := WriteSmall(v, b);
    TextSays(Written(v), b);
    TextHasCharacters(Written(v), b);
  }

  method WriteSmall(v: int, b: int) returns (ok: bool, text: string)
    requires 2 <= b <= 36 && IsSmall(v)
    ensures ok <==> Abs(Written(v)) < Power(b, 32)
    ensures ok ==> text == Text(Written(v), b)
  {
    if v < 0 {
      var negated := Negated(Small(v));
      NegatedSmall(v);
      ok, text := PrintNatural(negated.value, b);
      TextParts(Written(v), b);
      text := "-" + text;
    } else {
      ok, text := PrintNatural(v, b);
      TextParts(v, b);
    }
  }

  lemma NegatedSmall(v: int)
    requires MIN_VAL <= v < 0
    ensures NegatedOf(Whole(false, v)) == Whole(false, -Written(v))
  {
  }

  lemma TextParts(v: int, b: int)
    requires 2 <= b <= 36
    ensures var unsigned := RadixPrefix(b) + Numeral(Abs(v), b);
            Text(v, b) == if v < 0 then "-" + unsigned else unsigned
  {
    Associative(if v < 0 then "-" else "", RadixPrefix(b), Numeral(Abs(v), b));
  }

  /** The rest of it, for a receiver that is not negative. */
  method PrintNatural(v: nat, b: int) returns (ok: bool, text: string)
    requires 2 <= b <= 36
    ensures ok <==> v < Power(b, 32)
    ensures ok ==> text == RadixPrefix(b) + Numeral(v, b)
  {
    var prefix := "";
    if b != 10 {
      RadixIsShort(b);
      var done;
      done, prefix := PrintSmallDigits(b, 10);
      prefix := prefix + "r";
    }
    var digits;
    ok, digits := PrintSmallDigits(v, b);
    text := prefix + digits;
  }

  lemma RadixIsShort(b: int)
    requires 2 <= b <= 36
    ensures b < Power(10, 32)
  {
    NumeralFits(b, 10, 31);
    assert |Numeral(b, 10)| <= 2 by {
      if b >= 10 { assert b / 10 < 10; }
    }
  }

  lemma {:induction false} PowerAdd(b: int, m: nat, n: nat)
    ensures Power(b, m + n) == Power(b, m) * Power(b, n)
  {
    if m > 0 {
      PowerAdd(b, m - 1, n);
      assert Power(b, m + n) == b * Power(b, (m - 1) + n);
      assert b * (Power(b, m - 1) * Power(b, n)) == (b * Power(b, m - 1)) * Power(b, n);
    }
  }

  /** The buffer suffices for every SmallInteger in any base from 3; in base 2 exactly
      those below 2^32 in magnitude can. */
  lemma SmallBufferSuffices(v: int, b: int)
    requires 2 <= b <= 36 && IsSmall(v)
    ensures b >= 3 ==> Abs(v) < Power(b, 32)
    ensures b == 2 ==> Power(b, 32) == 0x100000000
  {
    if b == 2 {
      PowerAdd(2, 4, 4);
      PowerAdd(2, 8, 8);
      PowerAdd(2, 16, 16);
      assert Power(2, 4) == 16;
    } else {
      PowerMono(3, b, 32);
      PowerAdd(3, 4, 4);
      PowerAdd(3, 8, 8);
      PowerAdd(3, 16, 16);
      assert Power(3, 4) == 81;
    }
  }

  /** Divides the i lowest digits of source by b into dest, which may be the same object. */
  method DivideDigits(source: array<byte>, dest: array<byte>, i: nat, b: int) returns (rem: int)
    requires 2 <= b <= 36 && i <= source.Length && i <= dest.Length
    modifies dest
    ensures Low(old(source[..]), i) == Low(dest[..], i) * b + rem && 0 <= rem < b
    ensures forall k :: i <= k < dest.Length ==> dest[k] == old(dest[k])
  {
    rem := 0;
    var j := i;
    PlaceZero(i);
    while j > 0
      invariant 0 <= j <= i && 0 <= rem < b
      invariant forall k :: 0 <= k < j ==> source[k] == old(source[k])
      invariant forall k :: i <= k < dest.Length ==> dest[k] == old(dest[k])
      invariant Low(old(source[..]), i)
             == (Low(dest[..], i) - Low(dest[..], j)) * b + Place(rem, j) + Low(old(source[..]), j)
    {
      ghost var before, r := dest[..], rem;
      var t := rem * 256 + source[j - 1];
      DivModIdentity(t, b);
      QuotientIsByte(t, rem, b);
      var q: byte := t / b;
      dest[j - 1] := q;
      rem := t % b;
      assert dest[..] == before[j - 1 := q];
      QuotientStored(before, old(source[..]), i, j - 1, j, r, t, q, rem, b, Low(old(source[..]), i));
      j := j - 1;
    }
  }

  /** One digit of the division: the digit t of the dividend, with the remainder r from above, becomes q. */
  lemma QuotientStored(before: seq<byte>, s: seq<byte>, i: nat, p: nat, j: nat, r: int, t: int, q: byte, rem: int,
                       b: int, v: int)
    requires p < i <= |before| && i <= |s| && j == p + 1 && t == r * 256 + s[p] == q * b + rem
    requires v == (Low(before, i) - Low(before, j)) * b + Place(r, j) + Low(s, j)
    ensures v == (Low(before[p := q], i) - Low(before[p := q], p)) * b + Place(rem, p) + Low(s, p)
  {
    var h, high, product := Low(before, i) - Low(before, j), r * 256, q * b;
    LowUpdate(before, p, q, i);
    LowUpdate(before, p, q, p);
    Distribute(h, q, p, b);
    PlaceSum(product, rem, t, p);
    PlaceSum(high, s[p], t, p);
    PlaceTimes256(r, p);
  }

  lemma QuotientIsByte(t: int, rem: int, b: int)
    requires 2 <= b <= 36 && 0 <= rem < b && rem * 256 <= t < rem * 256 + 256
    ensures 0 <= t / b < 256
  {
    DivModIdentity(t, b);
    if t / b < 0 { MulMono(t / b, -1, b); }
    if t / b >= 256 { MulMono(256, t / b, b); }
  }

  /** The digits of x, or nothing for zero. */
  function NumeralOrNothing(x: nat, b: int): string
    requires 2 <= b <= 36
  {
    if x == 0 then "" else Numeral(x, b)
  }

  lemma NumeralStep(x: nat, b: int)
    requires 2 <= b <= 36 && x > 0
    ensures x / b >= 0 && Numeral(x, b) == NumeralOrNothing(x / b, b) + [DigitChar(x % b)]
    ensures BitLength(x / b) < BitLength(x) && 0 <= x % b < b && x / b < x
  {
    DivModIdentity(x, b);
    if x < b {
      DivModUnique(x, 0, x, b);
    } else {
      Smaller(x, b);
      BitLengthMono(x / b, x / 2);
    }
  }

  /** The buffer holds digits, which complete the numeral of what is left to the whole text. */
  ghost predicate Buffered(text: string, x: nat, b: int, d: seq<int>)
    requires 2 <= b <= 36
  {
    (forall i :: 0 <= i < |d| ==> 0 <= d[i] < 36) && text == NumeralOrNothing(x, b) + BufferText(d)
  }

  lemma EmitDigit(text: string, x: nat, b: int, q: int, r: int, d: seq<int>)
    requires 2 <= b <= 36 && x > 0 && q == x / b && r == x % b && Buffered(text, x, b, d)
    ensures 0 <= r < b && 0 <= q < x && BitLength(q) < BitLength(x)
    ensures Buffered(text, q, b, d + [r])
  {
    NumeralStep(x, b);
    MoveToBuffer(text, NumeralOrNothing(q, b), r, d);
  }

  lemma MoveToBuffer(text: string, head: string, r: int, d: seq<int>)
    requires 0 <= r < 36 && forall i :: 0 <= i < |d| ==> 0 <= d[i] < 36
    requires text == head + [DigitChar(r)] + BufferText(d)
    ensures text == head + BufferText(d + [r])
  {
    BufferPush(d, r);
    Associative(head, [DigitChar(r)], BufferText(d));
  }

  lemma Associative(a: string, b: string, c: string)
    ensures a + b + c == a + (b + c)
  {
  }

  /** One significant byte is lost at most: dividing by less than 256 keeps the byte below the top. */
  lemma TopByteAfterDivision(s: seq<byte>, t: seq<byte>, i: nat, b: int, rem: int)
    requires 2 <= b <= 36 && 0 < i <= |s| && i <= |t| && s[i - 1] != 0
    requires Low(s, i) == Low(t, i) * b + rem && 0 <= rem < b
    ensures i > 1 && t[i - 1] == 0 ==> t[i - 2] != 0
    ensures i == 1 && t[0] == 0 ==> Low(t, i) == 0
  {
    LowOne(t);
    if i > 1 && t[i - 1] == 0 && t[i - 2] == 0 {
      PlaceZero(i - 1);
      PlaceZero(i - 2);
      LowBounds(t, i - 2);
      PlaceMono(1, s[i - 1], i - 1);
      LowBounds(s, i - 1);
      ProductBelow(Low(t, i), Weight(i - 2), b, rem);
    }
  }

  lemma ProductBelow(q: nat, w: nat, b: int, rem: int)
    requires q < w && 2 <= b <= 36 && 0 <= rem < b
    ensures q * b + rem < 256 * w
  {
    MulMono(q + 1, w, b);
    assert (q + 1) * b == q * b + b;
    MulMono(b, 256, w);
  }

  /** One round of the digit loop: divides the i significant bytes of source by b into dest. */
  method PeelDigit(source: array<byte>, dest: array<byte>, i: nat, b: int) returns (rem: int, len: nat)
    requires 2 <= b <= 36 && 0 < i <= source.Length == dest.Length && source[i - 1] != 0
    requires source == dest ==> forall k :: i <= k < dest.Length ==> dest[k] == 0
    modifies dest
    ensures len <= i && (len > 0 ==> dest[len - 1] != 0)
    ensures Low(old(source[..]), i) > 0
    ensures Low(dest[..], len) == Low(old(source[..]), i) / b && rem == Low(old(source[..]), i) % b
    ensures forall k :: len <= k < i ==> dest[k] == 0
    ensures forall k :: i <= k < dest.Length ==> dest[k] == old(dest[k])
  {
    ghost var s, x := source[..], Low(source[..], i);
    LowBounds(s, i - 1);
    PlaceMono(1, s[i - 1], i - 1);
    WeightPositive(i - 1);
    rem := DivideDigits(source, dest, i, b);
    ghost var t := dest[..];
    DivModUnique(x, Low(t, i), rem, b);
    TopByteAfterDivision(s, t, i, b, rem);
    len := i;
    if dest[i - 1] == 0 {
      PlaceZero(i - 1);
      len := i - 1;
    }
  }

  /** The same with the digit put into the buffer. */
  method NextLargeDigit(source: array<byte>, dest: array<byte>, i: nat, b: int, digits: array<int>, pos: nat,
                        ghost numeral: string, ghost x: nat)
    returns (len: nat, ghost rest: nat)
    requires 2 <= b <= 36 && 0 < i <= source.Length == dest.Length && source[i - 1] != 0
    requires source == dest ==> forall k :: i <= k < dest.Length ==> dest[k] == 0
    requires pos < digits.Length && x > 0 && x == Low(source[..], i) && Buffered(numeral, x, b, digits[..pos])
    modifies dest, digits
    ensures len <= i && (len > 0 ==> dest[len - 1] != 0)
    ensures rest == Low(dest[..], len) && rest < x && BitLength(rest) < BitLength(x) && (len == 0 <==> rest == 0)
    ensures Buffered(numeral, rest, b, digits[..pos + 1])
    ensures forall k :: len <= k < i ==> dest[k] == 0
    ensures forall k :: i <= k < dest.Length ==> dest[k] == old(dest[k])
  {
    rest := x / b;
    var rem;
    rem, len := PeelDigit(source, dest, i, b);
    EmitDigit(numeral, x, b, rest, rem, digits[..pos]);
    PutDigit(digits, pos, rem);
    NonZeroTop(dest[..], len);
  }

  /** The digit loop of ASTInteger >> printOn:base: for a non-zero magnitude. A receiver of one byte
      serves as its own work space and is left zero; a longer one is not changed. */
  method PrintLargeDigits(self: array<byte>, b: int) returns (text: string)
    requires 2 <= b <= 36 && Trimmed(self[..]) && self.Length > 0
    modifies if self.Length <= 1 then {self} else {}
    ensures Value(old(self[..])) >= 0 && text == Numeral(Value(old(self[..])), b)
    ensures self.Length <= 1 ==> self[..] == [0]
  {
    ghost var v := Value(self[..]);
    TrimmedBounds(self[..]);
    BitsOfBytes(self[..]);
    var i, pos := self.Length, 0;
    var digits := new int[i * 8](_ => 0);
    var dest := self;
    if i > 1 { dest := new byte[i](_ => 0); }
    var source := self;
    ghost var x, numeral := v, Numeral(v, b);
    while i >= 1
      invariant 0 <= i <= self.Length == dest.Length == source.Length && 0 <= pos <= digits.Length
      invariant source == self || source == dest
      invariant if self.Length <= 1 then dest == self else fresh(dest)
      invariant i > 0 ==> source[i - 1] != 0
      invariant i < self.Length ==> source == dest
      invariant source == dest ==> forall k :: i <= k < dest.Length ==> dest[k] == 0
      invariant 0 <= x == Low(source[..], i) && (i == 0 <==> x == 0)
      invariant Buffered(numeral, x, b, digits[..pos]) && pos + BitLength(x) <= 8 * self.Length
      decreases x
    {
      var len;
      len, x := NextLargeDigit(source, dest, i, b, digits, pos, numeral, x);
      pos := pos + 1;
      source := dest;
      i := len;
    }
    BufferedDigits(numeral, b, digits[..pos]);
    text := WriteBuffer(digits, pos);
  }

  lemma BufferedDigits(text: string, b: int, d: seq<int>)
    requires 2 <= b <= 36 && Buffered(text, 0, b, d)
    ensures forall i :: 0 <= i < |d| ==> 0 <= d[i] < 36
    ensures text == BufferText(d)
  {
  }

  lemma NonZeroTop(s: seq<byte>, i: nat)
    requires i <= |s| && (i > 0 ==> s[i - 1] != 0)
    ensures Low(s, i) == 0 <==> i == 0
  {
    if i > 0 {
      LowBounds(s, i - 1);
      PlaceMono(1, s[i - 1], i - 1);
      WeightPositive(i - 1);
    }
  }

  lemma BitsOfBytes(s: seq<byte>)
    ensures Value(s) >= 0 && BitLength(Value(s)) <= 8 * |s|
  {
    LowBounds(s, |s|);
    PlaceShiftUp(1, 0, |s|);
    ShiftUpOne(8 * |s|);
    BitLengthBounds(Value(s));
    if BitLength(Value(s)) > 8 * |s| { Pow2Mono(8 * |s|, BitLength(Value(s)) - 1); }
  }

  /** printOn:base: of a large integer of either sign. */
  method PrintLarge(self: array<byte>, negative: bool, b: int) returns (text: string)
    requires 2 <= b <= 36 && Trimmed(self[..]) && self.Length > 0
    modifies if self.Length <= 1 then {self} else {}
    ensures text == Text(Signed(negative, Value(old(self[..]))), b)
    ensures var v := Signed(negative, Value(old(self[..]))); Says(text, v, b) && HasCharacters(text, v, b)
  {
    ghost var v := Signed(negative, Value(self[..]));
    text := WriteLarge(self, negative, b);
    TextSays(v, b);
    TextHasCharacters(v, b);
  }

  method WriteLarge(self: array<byte>, negative: bool, b: int) returns (text: string)
    requires 2 <= b <= 36 && Trimmed(self[..]) && self.Length > 0
    modifies if self.Length <= 1 then {self} else {}
    ensures text == Text(Signed(negative, Value(old(self[..]))), b)
  {
    TrimmedBounds(self[..]);
    var sign := if negative then "-" else "";
    var prefix := "";
    if b != 10 {
      RadixIsShort(b);
      var done;
      done, prefix := PrintSmallDigits(b, 10);
      prefix := prefix + "r";
    }
    var digits := PrintLargeDigits(self, b);
    text := sign + prefix + digits;
  }
}
