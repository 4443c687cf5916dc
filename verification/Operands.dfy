/** Integers as the digit code sees them through bytesCount, byteAt: and negative, SmallIntegers included. */
module Operands {
  import opened Bits
  import opened Digits
  import opened Arithmetic

  const WORD4: int := 0x1_0000_0000
  const WORD6: int := 0x1_0000_0000_0000

  lemma WordBits(k: nat)
    requires k == 32
    ensures Pow2(k) == WORD4
  {
    assert Pow2(8) == 0x100;
    Pow2Add(8, 8);
    Pow2Add(16, 16);
  }

  /** bytesCount of a SmallInteger. */
  function SmallBytesCount(v: int): nat {
    var m := Abs(v);
    if m < 0x100 then 1
    else if m < 0x1_0000 then 2
    else if m < 0x100_0000 then 3
    else if m < WORD4 then 4
    else if m < 0x100_0000_0000 then 5
    else if m < WORD6 then 6
    else 7
  }

  /** byteAt: of a SmallInteger, from 0: nothing beyond the fourth byte, and the bytes of 2^30 for minVal. */
  function SmallByteAt(v: int, i: nat): byte {
    var m := Abs(v);
    if i >= 4 then 0
    else if v == MIN_VAL then if i == 3 then 64 else 0
    else if i == 0 then m % 0x100
    else if i == 1 then m / 0x100 % 0x100
    else if i == 2 then m / 0x100 / 0x100 % 0x100
    else m / 0x100 / 0x100 / 0x100 % 0x100
  }

  function SmallDigits(v: int): (s: seq<byte>)
    ensures |s| == SmallBytesCount(v) && forall i :: 0 <= i < |s| ==> s[i] == SmallByteAt(v, i)
  {
    seq(SmallBytesCount(v), i requires i >= 0 => SmallByteAt(v, i))
  }

  /** The magnitude that the bytes of a SmallInteger amount to. */
  function SmallMagnitude(v: int): int {
    if v == MIN_VAL then GAP else Abs(v) % WORD4
  }

  lemma FewBytes()
    ensures Weight(1) == 0x100 && Weight(2) == 0x1_0000 && Weight(3) == 0x100_0000 && Weight(4) == WORD4
    ensures Weight(5) == 0x100_0000_0000 && Weight(6) == WORD6 && Weight(7) == 0x100 * WORD6
  {
    assert Weight(3) == 0x100_0000;
    assert Weight(5) == 0x1_0000 * Weight(3);
  }

  /** The bytes of an integer. */
  function Shown(n: Integer): seq<byte>
    reads if n.Large? then {n.bytes} else {}
  {
    match n
    case Small(v) => SmallDigits(v)
    case Large(_, bytes) => bytes[..]
  }

  predicate Negative(n: Integer) {
    match n
    case Small(v) => v < 0
    case Large(negative, _) => negative
  }

  lemma FourDigits(s: seq<byte>)
    ensures Low(s, 4) == ByteAt(s, 0) + 0x100 * ByteAt(s, 1) + 0x1_0000 * ByteAt(s, 2) + 0x100_0000 * ByteAt(s, 3)
  {
    LowOne(s);
    assert Low(s, 2) == Low(s, 1) + 0x100 * ByteAt(s, 1);
    assert Low(s, 3) == Low(s, 2) + 0x100 * (0x100 * ByteAt(s, 2));
    assert Low(s, 4) == Low(s, 3) + 0x100 * (0x100 * (0x100 * ByteAt(s, 3)));
  }

  lemma FourBytes(m: nat)
    ensures m % 0x100 + 0x100 * (m / 0x100 % 0x100) + 0x1_0000 * (m / 0x100 / 0x100 % 0x100)
            + 0x100_0000 * (m / 0x100 / 0x100 / 0x100 % 0x100) == m % WORD4
  {
    var q1 := m / 0x100;
    var q2 := q1 / 0x100;
    var q3 := q2 / 0x100;
    DivModUnique(m, q3 / 0x100,
                 m % 0x100 + 0x100 * (q1 % 0x100) + 0x1_0000 * (q2 % 0x100) + 0x100_0000 * (q3 % 0x100), WORD4);
  }

  /** What byteAt: shows of a SmallInteger: its magnitude modulo 2^32, and 2^30 for minVal. */
  lemma SmallDigitsValue(v: int)
    ensures Value(SmallDigits(v)) == SmallMagnitude(v)
  {
    var s := SmallDigits(v);
    FourDigits(s);
    FourBytes(Abs(v));
    if |s| >= 4 {
      LowAboveZeros(s, 4, |s|);
    } else {
      LowBeyond(s, 4);
    }
  }

  /** A small magnitude is shown without leading zeros. */
  lemma SmallDigitsTrimmed(v: int)
    requires 0 < Abs(v) < WORD4
    ensures Trimmed(SmallDigits(v)) && Value(SmallDigits(v)) == Abs(v)
  {
    SmallDigitsValue(v);
    var m := Abs(v);
    assert m >= 0x100_0000 ==> m / 0x100 / 0x100 / 0x100 % 0x100 > 0;
    assert m >= 0x1_0000 ==> m / 0x100 / 0x100 > 0;
  }

  /** A magnitude beyond 2^32, and minVal, is shown with leading zeros. */
  lemma SmallDigitsPadded(v: int)
    requires Abs(v) >= WORD4
    ensures !Trimmed(SmallDigits(v))
  {
  }

  lemma {:induction false} LowDetermines(s: seq<byte>, t: seq<byte>, n: nat)
    requires Low(s, n) == Low(t, n)
    ensures forall i: nat :: i < n ==> ByteAt(s, i) == ByteAt(t, i)
  {
    if n > 0 {
      if ByteAt(s, n - 1) < ByteAt(t, n - 1) {
        TopDigitDecides(s, t, n);
      } else if ByteAt(t, n - 1) < ByteAt(s, n - 1) {
        TopDigitDecides(t, s, n);
      }
      LowDetermines(s, t, n - 1);
    }
  }

  /** Trimmed byte strings are determined by their value. */
  lemma TrimmedDetermined(s: seq<byte>, t: seq<byte>)
    requires Trimmed(s) && Trimmed(t) && Value(s) == Value(t)
    ensures s == t
  {
    if |s| < |t| {
      ShorterIsSmaller(s, t);
    } else if |t| < |s| {
      ShorterIsSmaller(t, s);
    }
    LowDetermines(s, t, |s|);
    assert forall i :: 0 <= i < |s| ==> ByteAt(s, i) == s[i] && ByteAt(t, i) == t[i];
  }

  /** The value that the bytes and the sign of the answer to v amount to. */
  function ShownValue(v: int): int {
    if WORD4 <= v < WORD6 then v % WORD4 else v
  }

  /** The answer to v shows v, at -2^30 because two mistakes cancel; only from 2^32 to 2^48 bytes are missing. */
  lemma AnswerShows(n: Integer, v: int)
    requires Answers(n, v)
    ensures Signed(Negative(n), Value(Shown(n))) == ShownValue(v) && |Shown(n)| > 0
    ensures Negative(n) <==> v < 0
    ensures n.Small? && v == -GAP ==> |Shown(n)| == 7
    ensures v != -GAP && !(WORD4 <= v < WORD6) && v != 0 ==> Trimmed(Shown(n))
    ensures v == -GAP || WORD4 <= v < WORD6 ==> !Trimmed(Shown(n))
  {
    match n
    case Large(negative, bytes) => TrimmedBounds(bytes[..]);
    case Small(w) =>
      SmallDigitsValue(w);
      if 0 < Abs(w) < WORD4 {
        SmallDigitsTrimmed(w);
      } else if w != 0 {
        SmallDigitsPadded(w);
      }
  }

  /** = compares signs, lengths and bytes: the answer to v equals a trimmed integer when its value is v,
      unless v is shown with leading zeros. */
  lemma AnswerEqualsIff(n: Integer, v: int, negative: bool, s: seq<byte>)
    requires Answers(n, v) && Trimmed(s) && s != []
    ensures (Negative(n) == negative && Shown(n) == s)
       <==> (v == Signed(negative, Value(s)) && v != -GAP && !(WORD4 <= v < WORD6))
  {
    AnswerShows(n, v);
    TrimmedBounds(s);
    LowBounds(Shown(n), |Shown(n)|);
    if v == Signed(negative, Value(s)) && v != -GAP && !(WORD4 <= v < WORD6) {
      TrimmedDetermined(Shown(n), s);
    }
  }

  /** The bytes of an integer, as an array that the digit methods take. */
  method BytesOf(n: Integer) returns (a: array<byte>)
    ensures a[..] == Shown(n)
    ensures if n.Large? then a == n.bytes else fresh(a)
  {
    match n
    case Small(v) => a := new byte[SmallBytesCount(v)](i requires i >= 0 => SmallByteAt(v, i));
    case Large(_, bytes) => a := bytes;
  }
}
