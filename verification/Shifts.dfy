/** Shifts of ASTInteger magnitudes by any number of bits. */
module Shifts {
  import opened Bits
  import opened Digits
  import opened Arithmetic

  /** highBit of a SmallInteger: first by nibbles, then bit by bit. */
  method SmallHighBit(n: nat) returns (bitNo: nat)
    ensures bitNo == BitLength(n)
  {
    var shifted := n;
    bitNo := 0;
    while shifted >= 16
      invariant 0 <= shifted && BitLength(n) == bitNo + BitLength(shifted)
    {
      assert BitLength(shifted) == 1 + BitLength(shifted / 2) == 2 + BitLength(shifted / 2 / 2);
      assert BitLength(shifted / 4) == 1 + BitLength(shifted / 4 / 2) == 2 + BitLength(shifted / 4 / 2 / 2);
      assert shifted / 2 / 2 == shifted / 4 && shifted / 4 / 2 / 2 == shifted / 16;
      shifted := shifted / 16;
      bitNo := bitNo + 4;
    }
    while shifted != 0
      invariant 0 <= shifted && BitLength(n) == bitNo + BitLength(shifted)
    {
      shifted := shifted / 2;
      bitNo := bitNo + 1;
    }
  }

  /** The position of the most significant set bit of a magnitude. */
  method HighBit(s: array<byte>) returns (bitNo: nat)
    requires s.Length > 0
    ensures bitNo == 0 <==> Value(s[..]) == 0
    ensures Value(s[..]) >= 0 && bitNo == BitLength(Value(s[..]))
  {
    LowBounds(s[..], s.Length);
    var realLength := s.Length;
    while s[realLength - 1] == 0
      invariant 0 < realLength <= s.Length
      invariant forall i :: realLength <= i < s.Length ==> s[i] == 0
      decreases realLength
    {
      realLength := realLength - 1;
      if realLength == 0 {
        LowZeros(s[..], s.Length);
        return 0;
      }
    }
    var top := SmallHighBit(s[realLength - 1]);
    LowAboveZeros(s[..], realLength, s.Length);
    HighBitOfDigits(s[..], realLength);
    return top + 8 * (realLength - 1);
  }

  lemma HighBitOfDigits(s: seq<byte>, n: nat)
    requires n > 0 && ByteAt(s, n - 1) != 0
    ensures Low(s, n) > 0 && BitLength(Low(s, n)) == BitLength(ByteAt(s, n - 1)) + 8 * (n - 1)
  {
    LowBounds(s, n - 1);
    PlaceShiftUp(1, 0, n - 1);
    ShiftUpOne(8 * (n - 1));
    PlaceShiftUp(ByteAt(s, n - 1), 0, n - 1);
    BitLengthOfSplit(ByteAt(s, n - 1), Low(s, n - 1), 8 * (n - 1));
  }

  lemma Power8(b: nat)
    requires b == 8
    ensures Pow2(b) == 256
  {
    assert Pow2(4) == 16;
  }

  lemma ShiftUp8(a: int, b: nat)
    requires b == 8
    ensures ShiftUp(a, b) == 256 * a
  {
    ShiftUpBy8(a, 0);
  }

  /** The byte that one step of a left shift stores, and the bits that it carries. */
  lemma LeftShiftStep(digit: byte, carry: int, n: nat)
    requires 0 < n < 8 && 0 <= carry < Pow2(n)
    ensures var out := Perform(BitOr, ShiftUp(Perform(BitAnd, digit, ShiftDown(255, n)), n), carry);
            256 * ShiftDown(digit, 8 - n) + out == ShiftUp(digit, n) + carry && 0 <= out < 256
    ensures 0 <= ShiftDown(digit, 8 - n) < Pow2(n)
  {
    Mask(digit, n, 8 - n);
    ShiftDownSplits(digit, 8 - n);
    DisjointOrIsSum(LowBits(digit, 8 - n), carry, n);
    LeftShiftParts(digit, carry, n, 8 - n, ShiftDown(digit, 8 - n), LowBits(digit, 8 - n));
  }

  /** The mask of k ones that is made from a byte. */
  lemma Mask(digit: byte, n: nat, k: nat)
    requires n + k == 8
    ensures Perform(BitAnd, digit, ShiftDown(255, n)) == LowBits(digit, k)
  {
    ByteShifted(n, k, 8);
    MaskIsLowBits(digit, k);
  }

  lemma ByteShifted(n: nat, k: nat, b: nat)
    requires n + k == b == 8
    ensures ShiftDown(255, n) == Pow2(k) - 1
  {
    Power8(b);
    OnesShiftedDown(b, n);
  }

  lemma LeftShiftParts(digit: byte, carry: int, n: nat, k: nat, high: int, low: int)
    requires n + k == 8 && 0 <= carry < Pow2(n) && digit == ShiftUp(high, k) + low && 0 <= low < Pow2(k)
    ensures 256 * high + ShiftUp(low, n) == ShiftUp(digit, n)
    ensures 0 <= ShiftUp(low, n) + carry < 256
    ensures 0 <= high < Pow2(n)
  {
    var b: nat := 8;
    HighPartBounds(digit, k, n, high, low);
    ShiftUpAdd(ShiftUp(high, k), low, digit, n);
    ShiftUpTwice(high, k, n, b);
    ShiftUp8(high, b);
    ShiftBelow(low, k, n, b);
    Power8(b);
  }

  lemma HighPartBounds(digit: byte, k: nat, j: nat, high: int, low: int)
    requires k + j == 8 && digit == ShiftUp(high, k) + low && 0 <= low < Pow2(k)
    ensures 0 <= high < Pow2(j)
  {
    var b: nat := 8;
    Power8(b);
    OneBlock(k);
    ShiftUpOne(j);
    ShiftUpTwice(1, j, k, b);
    ShiftUpOne(b);
    if high < 0 { ShiftUpMono(high, -1, k); }
    if high >= Pow2(j) { ShiftUpMono(Pow2(j), high, k); }
  }

  lemma {:induction false} OneBlock(k: nat)
    ensures ShiftUp(-1, k) == -Pow2(k)
  {
    if k > 0 { OneBlock(k - 1); }
  }

  /** A value of j bits shifted up by k leaves room for k bits below 2 to the j + k. */
  lemma ShiftBelow(x: int, j: nat, k: nat, both: nat)
    requires 0 <= x < Pow2(j) && both == j + k
    ensures 0 <= ShiftUp(x, k) <= Pow2(both) - Pow2(k)
  {
    ShiftUpZero(k);
    ShiftUpMono(0, x, k);
    var above := x + 1;
    ShiftUpMono(above, Pow2(j), k);
    ShiftUpAdd(x, 1, above, k);
    ShiftUpOne(j);
    ShiftUpTwice(1, j, k, both);
    ShiftUpOne(both);
    ShiftUpOne(k);
  }

  lemma PlaceCommutes(a: int, i: nat, n: nat)
    ensures ShiftUp(Place(a, i), n) == Place(ShiftUp(a, n), i)
  {
    PlaceShiftUp(a, n, i);
    PlaceShiftUp(a, 0, i);
    ShiftUpTwice(a, 8 * i, n, n + 8 * i);
  }

  lemma ShiftedSum(l: int, digit: int, sum: int, i: nat, n: nat, k: nat, at: nat)
    requires at == k + i && sum == l + Place(digit, i)
    ensures Place(ShiftUp(sum, n), k) == Place(ShiftUp(l, n), k) + Place(ShiftUp(digit, n), at)
  {
    var low, high := ShiftUp(l, n), ShiftUp(digit, n);
    ShiftUpAdd(l, Place(digit, i), sum, n);
    PlaceCommutes(digit, i, n);
    PlaceSum(low, Place(high, i), ShiftUp(sum, n), k);
    PlacePlace(high, k, i);
  }

  /** digitLshift: for a non-zero magnitude: exactly the bytes that the shifted value needs. */
  method LshiftDigits(self: array<byte>, shiftCount: nat) returns (result: array<byte>)
    requires self.Length > 0 && Value(self[..]) > 0
    ensures fresh(result) && Trimmed(result[..])
    ensures Value(result[..]) == ShiftUp(Value(self[..]), shiftCount)
    ensures result.Length == (BitLength(Value(self[..])) + shiftCount + 7) / 8
  {
    var highBit := HighBit(self);
    var len := (highBit + shiftCount + 7) / 8;
    var byteShift, bitShift := shiftCount / 8, shiftCount % 8;
    ghost var carry := 0;
    if bitShift == 0 {
      result := ShiftBytes(self, byteShift, len);
      PlaceZero(len);
    } else {
      result, carry := ShiftBits(self, byteShift, bitShift, len);
    }
    ShiftFits(self[..], result[..], highBit, shiftCount, len, carry);
  }

  method ShiftBytes(self: array<byte>, byteShift: nat, len: nat) returns (result: array<byte>)
    requires byteShift <= len
    ensures fresh(result) && result.Length == len
    ensures forall j :: 0 <= j < len ==> result[j] == if byteShift <= j then ByteAt(self[..], j - byteShift) else 0
    ensures Value(result[..]) == Place(Low(self[..], len - byteShift), byteShift)
  {
    result := new byte[len](_ => 0);
    for i := byteShift to len
      invariant forall j :: 0 <= j < len ==>
                  result[j] == if byteShift <= j < i then ByteAt(self[..], j - byteShift) else 0
    {
      result[i] := ByteAt(self[..], i - byteShift);
    }
    LowSplits(result[..], byteShift, len - byteShift);
    LowZeros(result[..], byteShift);
    LowFrame(result[..][byteShift..], self[..], len - byteShift);
  }

  method ShiftBits(self: array<byte>, byteShift: nat, bitShift: nat, len: nat) returns (result: array<byte>, carry: int)
    requires byteShift <= len && 0 < bitShift < 8
    ensures fresh(result) && result.Length == len && 0 <= carry
    ensures Value(result[..]) + Place(carry, len) == Place(ShiftUp(Low(self[..], len - byteShift), bitShift), byteShift)
  {
    carry := 0;
    var mask := ShiftDown(255, bitShift);
    result := new byte[len](_ => 0);
    LowZeros(result[..], byteShift);
    ShiftUpZero(bitShift);
    ghost var at := byteShift;
    for i := 0 to len - byteShift
      invariant 0 <= carry < Pow2(bitShift) && at == byteShift + i
      invariant Low(result[..], at) + Place(carry, at) == Place(ShiftUp(Low(self[..], i), bitShift), byteShift)
    {
      var digit := ByteAt(self[..], i);
      ghost var before, carryIn := result[..], carry;
      LeftShiftStep(digit, carry, bitShift);
      var out: byte := Perform(BitOr, ShiftUp(Perform(BitAnd, digit, mask), bitShift), carry);
      result[i + byteShift] := out;
      carry := ShiftDown(digit, 8 - bitShift);
      assert result[..] == before[at := out];
      ByteStored(before, result[..], Low(self[..], i), Low(self[..], i + 1), digit, carryIn, out, carry,
                 i, bitShift, byteShift, at);
      at := at + 1;
    }
  }

  /** The next byte and the new carry stand for the next digit. */
  lemma ByteStored(before: seq<byte>, after: seq<byte>, l: int, sum: int, digit: byte, carryIn: int, out: byte,
                   carryOut: int, i: nat, n: nat, k: nat, at: nat)
    requires at == k + i < |before| && after == before[at := out] && sum == l + Place(digit, i)
    requires 256 * carryOut + out == ShiftUp(digit, n) + carryIn
    requires Low(before, at) + Place(carryIn, at) == Place(ShiftUp(l, n), k)
    ensures Low(after, at + 1) + Place(carryOut, at + 1) == Place(ShiftUp(sum, n), k)
  {
    var accum := ShiftUp(digit, n) + carryIn;
    LowUpdate(before, at, out, at);
    CarryStep(carryOut, out, accum, at);
    PlaceSum(ShiftUp(digit, n), carryIn, accum, at);
    ShiftedSum(l, digit, sum, i, n, k, at);
  }

  lemma ShiftInParts(v: int, bits: nat, bytes: nat, shiftCount: nat)
    requires bits + 8 * bytes == shiftCount
    ensures Place(ShiftUp(v, bits), bytes) == ShiftUp(v, shiftCount)
  {
    PlaceShiftUp(v, bits, bytes);
  }

  /** The length computed from highBit holds the whole shifted value, and no leading zero. */
  lemma ShiftFits(s: seq<byte>, r: seq<byte>, highBit: nat, shiftCount: nat, len: nat, carry: int)
    requires Value(s) > 0 && highBit == BitLength(Value(s)) && len == (highBit + shiftCount + 7) / 8 && |r| == len
    requires 0 <= carry
    requires Value(r) + Place(carry, len)
         == Place(ShiftUp(Low(s, len - shiftCount / 8), shiftCount % 8), shiftCount / 8)
    ensures Value(r) == ShiftUp(Value(s), shiftCount) && Trimmed(r)
  {
    var k, v := shiftCount / 8, Value(s);
    BitLengthBounds(v);
    BelowWeight(v, highBit, len - k);
    LowCovers(s, len - k);
    ShiftInParts(v, shiftCount % 8, k, shiftCount);
    ScaledBounds(v, highBit, shiftCount);
    NoCarryLost(r, carry, ShiftUp(v, shiftCount), highBit + shiftCount);
  }

  /** A value of h bits, as the bytes r and a carry, leaves no carry when the bytes suffice for h bits. */
  lemma NoCarryLost(r: seq<byte>, carry: int, v: int, h: nat)
    requires 0 < h <= 8 * |r| < h + 8 && Pow2(h - 1) <= v < Pow2(h) && 0 <= carry
    requires Value(r) + Place(carry, |r|) == v
    ensures Value(r) == v && Trimmed(r)
  {
    BelowWeight(v, h, |r|);
    LowBounds(r, |r|);
    if carry > 0 { PlaceMono(1, carry, |r|); }
    PlaceZero(|r|);
    TopDigitNeeded(r, h - 1);
  }

  lemma TopDigitNeeded(r: seq<byte>, h: nat)
    requires |r| > 0 && 8 * (|r| - 1) <= h && Pow2(h) <= Value(r)
    ensures r[|r| - 1] != 0
  {
    PlaceShiftUp(1, 0, |r| - 1);
    ShiftUpOne(8 * (|r| - 1));
    Pow2Mono(8 * (|r| - 1), h);
    PlaceZero(|r| - 1);
    LowBounds(r, |r| - 1);
  }

  lemma ScaledBounds(v: int, h: nat, k: nat)
    requires h > 0 && Pow2(h - 1) <= v < Pow2(h)
    ensures Pow2(h + k - 1) <= ShiftUp(v, k) < Pow2(h + k)
  {
    ShiftUpMono(Pow2(h - 1), v, k);
    ShiftUpOne(h - 1);
    ShiftUpTwice(1, h - 1, k, h + k - 1);
    ShiftUpOne(h + k - 1);
    ShiftBelow(v, h, k, h + k);
  }

  lemma BelowWeight(v: int, h: nat, n: nat)
    requires v < Pow2(h) && h <= 8 * n
    ensures v < Weight(n)
  {
    Pow2Mono(h, 8 * n);
    PlaceShiftUp(1, 0, n);
    ShiftUpOne(8 * n);
  }

  lemma LowCovers(s: seq<byte>, n: nat)
    requires Value(s) < Weight(n)
    ensures Low(s, n) == Value(s)
  {
    if n >= |s| {
      LowBeyond(s, n);
    } else {
      LowSplits(s, n, |s| - n);
      LowBounds(s[n..], |s| - n);
      LowBounds(s, n);
      if Low(s[n..], |s| - n) > 0 {
        PlaceMono(1, Low(s[n..], |s| - n), n);
      }
      PlaceZero(n);
    }
  }

  method DigitLshift(self: array<byte>, negative: bool, shiftCount: nat) returns (result: Integer)
    requires self.Length > 0
    ensures ValueOf(result) == Signed(negative, Value(self[..])) * Pow2(shiftCount)
    ensures result.Large? ==> result.negative == negative && Trimmed(result.bytes[..])
    ensures result.Small? <==> Value(self[..]) == 0
  {
    var highBit := HighBit(self);
    if highBit == 0 { return Small(0); }
    var digits := LshiftDigits(self, shiftCount);
    SignedShift(negative, Value(self[..]), shiftCount);
    return Large(negative, digits);
  }

  lemma SignedShift(negative: bool, v: int, k: nat)
    ensures Signed(negative, ShiftUp(v, k)) == Signed(negative, v) * Pow2(k)
  {
    ShiftUpIsTimesPow2(v, k);
    NegateProduct(v, Pow2(k));
  }

  /** The byte that one step of a right shift stores. */
  lemma RightShiftStep(digit: byte, next: byte, n: nat)
    requires n < 8
    ensures Perform(BitOr, ShiftUp(Perform(BitAnd, next, ShiftDown(255, 8 - n)), 8 - n), ShiftDown(digit, n))
         == ShiftedByte(digit, next, n)
    ensures 0 <= ShiftedByte(digit, next, n) < 256
    ensures 0 <= ShiftDown(digit, n) < Pow2(8 - n)
    ensures ShiftUp(ShiftedByte(digit, next, n), n) + LowBits(digit, n) == 256 * LowBits(next, n) + digit
  {
    Mask(next, 8 - n, n);
    RightShiftParts(digit, next, n);
    ShiftDownSplits(next, n);
    DisjointOrIsSum(LowBits(next, n), ShiftDown(digit, n), 8 - n);
  }

  lemma RightShiftParts(digit: byte, next: byte, n: nat)
    requires n < 8
    ensures 0 <= ShiftedByte(digit, next, n) < 256
    ensures 0 <= ShiftDown(digit, n) < Pow2(8 - n)
    ensures ShiftUp(ShiftedByte(digit, next, n), n) + LowBits(digit, n) == 256 * LowBits(next, n) + digit
  {
    ShiftDownSplits(digit, n);
    ShiftDownSplits(next, n);
    HighPartBounds(digit, n, 8 - n, ShiftDown(digit, n), LowBits(digit, n));
    JoinedParts(n, 8 - n, ShiftDown(digit, n), LowBits(next, n), ShiftedByte(digit, next, n));
  }

  lemma JoinedParts(n: nat, k: nat, high: int, low: int, joined: int)
    requires n + k == 8 && 0 <= high < Pow2(k) && 0 <= low < Pow2(n) && joined == ShiftUp(low, k) + high
    ensures 0 <= joined < 256
    ensures ShiftUp(joined, n) == 256 * low + ShiftUp(high, n)
  {
    var b: nat := 8;
    Power8(b);
    ShiftBelow(low, n, k, b);
    ShiftUpAdd(ShiftUp(low, k), high, joined, n);
    ShiftUpTwice(low, k, n, b);
    ShiftUp8(low, b);
  }

  function ShiftedByte(digit: byte, next: byte, n: nat): int
    requires n < 8
  {
    ShiftUp(LowBits(next, n), 8 - n) + ShiftDown(digit, n)
  }

  /** What a right shift looks at: the a lowest bytes, and of the byte above them the n lowest bits too,
      unless the search skips the topmost of the a bytes. */
  function Visible(s: seq<byte>, n: nat, a: nat): int
    requires a > 0
  {
    Low(s, a) + if a == 1 || ShiftDown(ByteAt(s, a - 1), n) != 0 then Place(LowBits(ByteAt(s, a), n), a) else 0
  }

  /** With nothing but zeros from byte a up, as the callers arrange, that is the whole value. */
  lemma VisibleIsAll(s: seq<byte>, n: nat, a: nat)
    requires a > 0 && n < 8 && forall i :: a <= i < |s| ==> s[i] == 0
    ensures Visible(s, n, a) == Value(s)
  {
    if a <= |s| { LowAboveZeros(s, a, |s|); } else { LowBeyond(s, a); }
    ShiftDownSplits(0, n);
    ZeroShifted(n);
    ShiftUpZero(n);
    PlaceZero(a);
  }

  /** Whether the digits beyond a are discarded: they are shifted out as well, or they have no low bits to leave in
      byte a - 1, or the search skips that byte. */
  predicate Discards(s: seq<byte>, n: nat, b: nat, a: nat)
    requires a > 0
  {
    b >= a || LowBits(ByteAt(s, a), n) == 0 || (a > 1 && ShiftDown(ByteAt(s, a - 1), n) == 0)
  }

  lemma QuotientGrows(v: int, e: int, p: int)
    requires 0 < p <= e
    ensures (v + e) / p > v / p
  {
    var q, q' := v / p, (v + e) / p;
    DivModIdentity(v, p);
    DivModIdentity(v + e, p);
    if q' <= q { MulMono(q', q, p); }
  }

  /** The low bits of byte a and the bytes below them stay below 2^(8 * a + n). */
  lemma VisibleBounds(s: seq<byte>, n: nat, a: nat, l: int, k: nat)
    requires 0 <= l < Pow2(n) && k == 8 * a + n
    ensures 0 <= Low(s, a) + Place(l, a) < Pow2(k)
  {
    LowBounds(s, a);
    PlaceAdd(l, 1, a);
    PlaceMono(0, l, a);
    PlaceZero(a);
    PlaceMono(l + 1, Pow2(n), a);
    PlaceIsShift(Pow2(n), a, 8 * a);
    ShiftUpOne(n);
    ShiftUpTwice(1, n, 8 * a, k);
    ShiftUpOne(k);
  }

  /** The result is that of the a lowest bytes in no other case. */
  lemma DiscardsIff(s: seq<byte>, n: nat, b: nat, a: nat)
    requires n < 8 && a > 0
    ensures Visible(s, n, a) / Pow2(8 * b + n) == Low(s, a) / Pow2(8 * b + n) <==> Discards(s, n, b, a)
  {
    var l, p := LowBits(ByteAt(s, a), n), Pow2(8 * b + n);
    ShiftDownSplits(ByteAt(s, a), n);
    PlaceZero(a);
    LowBounds(s, a);
    if b >= a {
      VisibleBounds(s, n, a, l, 8 * a + n);
      VisibleBounds(s, n, a, 0, 8 * a + n);
      Pow2Mono(8 * a + n, 8 * b + n);
      DivModUnique(Visible(s, n, a), 0, Visible(s, n, a), p);
      DivModUnique(Low(s, a), 0, Low(s, a), p);
    } else if l != 0 {
      PlaceMono(1, l, a);
      PlaceIsShift(1, a, 8 * a);
      ShiftUpOne(8 * a);
      Pow2Mono(8 * b + n, 8 * a);
      QuotientGrows(Low(s, a), Place(l, a), p);
    }
  }

  /** The digit beyond a is not discarded: 257 shifted right by one bit, looking at its lowest byte only, gives 128. */
  lemma DiscardFails()
    ensures var s: seq<byte> := [1, 1];
            && Value(s) == 257 && Low(s, 1) / Pow2(1) == 0 && Visible(s, 1, 1) / Pow2(1) == 128
  {
    var s: seq<byte> := [1, 1];
    LowOne(s);
    assert Low(s, 2) == Low(s, 1) + 256 * ByteAt(s, 1);
    assert Place(1, 1) == 256;
    assert LowBits(1, 1) == 1;
  }

  /** Shifts right by 8 * b + n bits, looking for the first significant byte from byte a down. */
  method DigitRshift(self: array<byte>, n: nat, b: nat, a: nat) returns (r: array<byte>)
    requires n < 8 && a > 0
    ensures fresh(r)
    ensures Value(r[..]) == Visible(self[..], n, a) / Pow2(8 * b + n)
    ensures Value(r[..]) == Low(self[..], a) / Pow2(8 * b + n) <==> Discards(self[..], n, b, a)
    ensures Trimmed(r[..]) || (b == 0 && r[..] == [0])
  {
    DiscardsIff(self[..], n, b, a);
    var i := FirstSignificant(self, n, a);
    VisibleFrom(self[..], n, a, i);
    if i <= b {
      r := new byte[0];
      AllBitsLost(self[..], i, b, n);
      return;
    }
    r := CopyShifted(self, n, b, i);
    QuotientOfShift(self[..], r[..], n, b, i, a);
  }

  /** Where the search for the first significant byte stops. */
  ghost predicate StopsAt(s: seq<byte>, n: nat, a: nat, i: nat) {
    && 1 <= i <= a && (i == 1 || i <= |s|)
    && (i == a ==> a == 1 || ShiftDown(ByteAt(s, a - 1), n) != 0)
    && (i < a ==> ShiftDown(ByteAt(s, a - 1), n) == 0 && ShiftDown(ByteAt(s, i), n) == 0)
    && (forall j :: i < j < a ==> ByteAt(s, j) == 0)
    && (i > 1 ==> ShiftDown(ByteAt(s, i - 1), n) != 0 || (i < a && ByteAt(s, i) != 0))
  }

  lemma VisibleFrom(s: seq<byte>, n: nat, a: nat, i: nat)
    requires n < 8 && StopsAt(s, n, a, i)
    ensures Visible(s, n, a) == Low(s, i) + Place(LowBits(ByteAt(s, i), n), i)
  {
    if i < a {
      LowAboveZeros(s, i + 1, a);
      ShiftDownSplits(ByteAt(s, i), n);
      ShiftUpZero(n);
    }
  }

  method FirstSignificant(self: array<byte>, n: nat, a: nat) returns (i: nat)
    requires n < 8 && a > 0
    ensures StopsAt(self[..], n, a, i)
  {
    ZeroShifted(n);
    ghost var s := self[..];
    var x := 0;
    i := a;
    var digit := ByteAt(self[..], i - 1);
    while Perform(BitOr, ShiftDown(digit, n), x) == 0 && i != 1
      invariant 1 <= i <= a && digit == ByteAt(s, i - 1)
      invariant x == if i < a then ShiftUp(ByteAt(s, i), 8 - n) else ShiftUp(0, 8 - n)
      invariant i < a ==> ShiftDown(ByteAt(s, a - 1), n) == 0 && ShiftDown(ByteAt(s, i), n) == 0
      invariant forall j :: i < j < a ==> ByteAt(s, j) == 0
    {
      OrVanishes(if i < a then ByteAt(s, i) else 0, digit, n);
      x := ShiftUp(digit, 8 - n);
      i := i - 1;
      digit := ByteAt(self[..], i - 1);
    }
    OrVanishes(if i < a then ByteAt(s, i) else 0, digit, n);
  }

  lemma ZeroShifted(n: nat)
    requires n < 8
    ensures ShiftDown(0, n) == 0 && ShiftUp(0, 8 - n) == 0
  {
    ShiftUpZero(8 - n);
    ShiftDownSplits(0, n);
    if ShiftDown(0, n) > 0 { ShiftUpMono(1, ShiftDown(0, n), n); ShiftUpOne(n); }
    if ShiftDown(0, n) < 0 { ShiftUpMono(ShiftDown(0, n), -1, n); OneBlock(n); }
  }

  lemma OrVanishes(next: byte, digit: byte, n: nat)
    requires n < 8
    ensures Perform(BitOr, ShiftDown(digit, n), ShiftUp(next, 8 - n)) == 0 <==> next == 0 && ShiftDown(digit, n) == 0
  {
    RightShiftStep(digit, 0, n);
    DisjointOrIsSum(next, ShiftDown(digit, n), 8 - n);
    if next > 0 { ShiftUpMono(1, next, 8 - n); ShiftUpOne(8 - n); }
    ShiftUpZero(8 - n);
  }

  method CopyShifted(self: array<byte>, n: nat, b: nat, count: nat) returns (r: array<byte>)
    requires n < 8 && b < count
    ensures fresh(r) && r.Length == count - b
    ensures forall j :: 0 <= j < r.Length ==>
            r[j] == ShiftedByte(ByteAt(self[..], b + j), ByteAt(self[..], b + j + 1), n)
  {
    r := new byte[count - b](_ => 0);
    var m := ShiftDown(255, 8 - n);
    var x := ShiftDown(ByteAt(self[..], b), n);
    for j := b to count
      invariant x == ShiftDown(ByteAt(self[..], j), n)
      invariant forall k :: 0 <= k < j - b ==>
          r[k] == ShiftedByte(ByteAt(self[..], b + k), ByteAt(self[..], b + k + 1), n)
    {
      var digit := ByteAt(self[..], j + 1);
      RightShiftStep(ByteAt(self[..], j), digit, n);
      r[j - b] := Perform(BitOr, ShiftUp(Perform(BitAnd, digit, m), 8 - n), x);
      x := ShiftDown(digit, n);
    }
  }

  lemma {:induction false} ShiftedDigits(s: seq<byte>, r: seq<byte>, n: nat, b: nat, c: nat)
    requires n < 8 && b <= |s| && c <= |r|
    requires forall j :: 0 <= j < c ==> r[j] == ShiftedByte(ByteAt(s, b + j), ByteAt(s, b + j + 1), n)
    ensures ShiftUp(Low(r, c), n) + LowBits(ByteAt(s, b), n) == Low(s[b..], c) + Place(LowBits(ByteAt(s, b + c), n), c)
  {
    if c == 0 {
      ShiftUpZero(n);
    } else {
      var p := c - 1;
      var d, e := ByteAt(s, b + p), ByteAt(s, b + p + 1);
      ShiftedDigits(s, r, n, b, p);
      assert b + p + 1 == b + c;
      RightShiftParts(d, e, n);
      ShiftUpAdd(Low(r, p), Place(r[p], p), Low(r, c), n);
      ShiftedDigit(r[p], LowBits(d, n), LowBits(e, n), d, 256 * LowBits(e, n) + d, n, p, c);
      assert ByteAt(s[b..], p) == d;
    }
  }

  /** The bits that one byte takes over from the next and loses below. */
  lemma ShiftedDigit(out: int, lost: int, taken: int, digit: int, sum: int, n: nat, p: nat, c: nat)
    requires ShiftUp(out, n) + lost == sum == 256 * taken + digit && c == p + 1
    ensures ShiftUp(Place(out, p), n) + Place(lost, p) == Place(taken, c) + Place(digit, p)
  {
    var carried := 256 * taken;
    PlaceCommutes(out, p, n);
    PlaceSum(ShiftUp(out, n), lost, sum, p);
    PlaceSum(carried, digit, sum, p);
    PlaceTimes256(taken, p);
  }

  /** The source is the shifted result with the bits and bytes that were lost below it. */
  lemma ShiftLoses(s: seq<byte>, r: seq<byte>, n: nat, b: nat, i: nat)
    requires n < 8 && b < i && |r| == i - b && b <= |s|
    requires forall j :: 0 <= j < |r| ==> r[j] == ShiftedByte(ByteAt(s, b + j), ByteAt(s, b + j + 1), n)
    ensures Low(s, i) + Place(LowBits(ByteAt(s, i), n), i)
         == Low(s, b) + Place(ShiftUp(Value(r), n) + LowBits(ByteAt(s, b), n), b)
  {
    var c := |r|;
    var top := LowBits(ByteAt(s, i), n);
    ShiftedDigits(s, r, n, b, c);
    assert b + c == i;
    LowSplits(s, b, c);
    PlaceAdd(Low(s[b..], c), Place(top, c), b);
    PlacePlace(top, b, c);
  }

  lemma QuotientOfShift(s: seq<byte>, r: seq<byte>, n: nat, b: nat, i: nat, a: nat)
    requires n < 8 && b < i && |r| == i - b && StopsAt(s, n, a, i)
    requires forall j :: 0 <= j < |r| ==> r[j] == ShiftedByte(ByteAt(s, b + j), ByteAt(s, b + j + 1), n)
    ensures Value(r) == (Low(s, i) + Place(LowBits(ByteAt(s, i), n), i)) / Pow2(8 * b + n)
    ensures Trimmed(r) || (b == 0 && r == [0])
  {
    ShiftLoses(s, r, n, b, i);
    LowBounds(s, b);
    ShiftDownSplits(ByteAt(s, b), n);
    ComposeShift(Low(s, i) + Place(LowBits(ByteAt(s, i), n), i), Value(r), LowBits(ByteAt(s, b), n), Low(s, b), b, n);
    if i > 1 {
      TopByteSurvives(ByteAt(s, i - 1), ByteAt(s, i), n);
      assert b + (|r| - 1) == i - 1;
    }
  }

  lemma TopByteSurvives(digit: byte, next: byte, n: nat)
    requires n < 8 && (ShiftDown(digit, n) != 0 || (next != 0 && ShiftDown(next, n) == 0))
    ensures ShiftedByte(digit, next, n) != 0
  {
    RightShiftStep(digit, next, n);
    ShiftDownSplits(next, n);
    ShiftUpZero(n);
    ShiftUpZero(8 - n);
    ShiftUpMono(0, LowBits(next, n), 8 - n);
    if LowBits(next, n) > 0 { ShiftUpMono(1, LowBits(next, n), 8 - n); ShiftUpOne(8 - n); }
  }

  lemma ComposeShift(v: int, q: int, m: int, l: int, b: nat, n: nat)
    requires v == l + Place(ShiftUp(q, n) + m, b)
    requires 0 <= m < Pow2(n) && 0 <= l < Weight(b)
    ensures v / Pow2(8 * b + n) == q
  {
    PlaceAdd(ShiftUp(q, n), m, b);
    PlaceShiftUp(q, n, b);
    ShiftUpIsTimesPow2(q, n + 8 * b);
    PlaceZero(b);
    PlaceMono(0, m, b);
    PlaceMono(m + 1, Pow2(n), b);
    PlaceAdd(m, 1, b);
    ShiftUpOne(n);
    PlaceShiftUp(1, n, b);
    ShiftUpOne(n + 8 * b);
    assert n + 8 * b == 8 * b + n;
    DivModUnique(v, q, Place(m, b) + l, Pow2(8 * b + n));
  }

  lemma AllBitsLost(s: seq<byte>, i: nat, b: nat, n: nat)
    requires i <= b && n < 8
    ensures (Low(s, i) + Place(LowBits(ByteAt(s, i), n), i)) / Pow2(8 * b + n) == 0
  {
    var top := LowBits(ByteAt(s, i), n);
    LowBounds(s, i);
    ShiftDownSplits(ByteAt(s, i), n);
    PlaceMono(0, top, i);
    PlaceZero(i);
    PlaceMono(top + 1, Pow2(n), i);
    PlaceAdd(top, 1, i);
    ShiftUpOne(n);
    PlaceShiftUp(1, n, i);
    ShiftUpOne(n + 8 * i);
    Pow2Mono(n + 8 * i, 8 * b + n);
    DivModUnique(Low(s, i) + Place(top, i), 0, Low(s, i) + Place(top, i), Pow2(8 * b + n));
  }

  /** bitShift: of a large integer; right shifts work on the magnitude and normalise. They round down, as
      promised, exactly when the receiver is not negative, or no set bit is lost and the result is not -2^30. */
  method BitShift(self: array<byte>, negative: bool, shiftCount: int) returns (result: Integer)
    requires self.Length > 0
    ensures shiftCount >= 0 ==> ValueOf(result) == Signed(negative, Value(self[..])) * Pow2(shiftCount)
    ensures shiftCount >= 0 ==> if Value(self[..]) == 0 then result == Small(0)
                                else result.Large? && result.negative == negative && result.bytes.Length > 0
                                     && Trimmed(result.bytes[..])
    ensures shiftCount < 0 ==>
      Value(self[..]) >= 0 && Answers(result, Signed(negative, Value(self[..]) / Pow2(-shiftCount)))
    ensures shiftCount < 0 ==>
      var x, k := Signed(negative, Value(self[..])), -shiftCount;
      (ValueOf(result) == x / Pow2(k) <==> x >= 0 || (x % Pow2(k) == 0 && x / Pow2(k) != -GAP))
  {
    if shiftCount >= 0 {
      result := DigitLshift(self, negative, shiftCount);
      LowBounds(self[..], self.Length);
      if result.Large? { LowOfNonEmpty(result.bytes[..], Value(self[..]), shiftCount); }
    } else {
      result := RightShift(self, negative, -shiftCount);
    }
  }

  method RightShift(self: array<byte>, negative: bool, rShift: nat) returns (result: Integer)
    requires self.Length > 0
    ensures Value(self[..]) >= 0 && Answers(result, Signed(negative, Value(self[..]) / Pow2(rShift)))
    ensures var x := Signed(negative, Value(self[..]));
            (ValueOf(result) == x / Pow2(rShift) <==> x >= 0 || (x % Pow2(rShift) == 0 && x / Pow2(rShift) != -GAP))
  {
    var n, b := rShift % 8, rShift / 8;
    var r := DigitRshift(self, n, b, self.Length);
    VisibleIsAll(self[..], n, self.Length);
    assert 8 * b + n == rShift;
    LowBounds(self[..], self.Length);
    RightShiftRoundsDownIff(negative, Value(self[..]), rShift);
    result := Normalize(r, negative);
  }

  lemma LowOfNonEmpty(s: seq<byte>, v: int, k: nat)
    requires v != 0 && (Value(s) == v * Pow2(k) || Value(s) == -(v * Pow2(k)))
    ensures |s| > 0
  {
    if v > 0 { MulMono(1, v, Pow2(k)); } else { MulMono(v, -1, Pow2(k)); }
  }

  /** The comment of bitShift: promises a two's-complement shift, which rounds down. Shifting the magnitude
      and normalising does so exactly when the value is not negative, or no set bit is shifted out and the
      result is not -2^30, where normalize fails. */
  lemma RightShiftRoundsDownIff(negative: bool, magnitude: nat, k: nat)
    ensures var x := Signed(negative, magnitude);
            (Normalized(Signed(negative, magnitude / Pow2(k))) == x / Pow2(k)
             <==> x >= 0 || (x % Pow2(k) == 0 && x / Pow2(k) != -GAP))
  {
    var p := Pow2(k);
    var q, r := magnitude / p, magnitude % p;
    DivModIdentity(magnitude, p);
    if q < 0 { MulMono(q, -1, p); }
    NegateProduct(q, p);
    if r == 0 {
      DivModUnique(0 - magnitude, -q, 0, p);
    } else {
      DivModUnique(0 - magnitude, -q - 1, p - r, p);
    }
  }

  lemma NegateProduct(q: int, p: int)
    ensures -(q * p) == (-q) * p && (-q - 1) * p == -(q * p) - p
  {
  }

  /** -2^31 loses no bit when shifted right by one, yet -2^50 comes out instead of -2^30. */
  lemma RightShiftFailsAtGap()
    ensures var s: seq<byte> := [0, 0, 0, 128];
            && Signed(true, Value(s)) == -0x8000_0000 && -0x8000_0000 % Pow2(1) == 0 && -0x8000_0000 / Pow2(1) == -GAP
            && Normalized(Signed(true, Value(s) / Pow2(1))) == MIN_VAL
  {
    var s: seq<byte> := [0, 0, 0, 128];
    LowZeros(s, 3);
    assert Low(s, 4) == Low(s, 3) + Place(128, 3);
    assert Pow2(1) == 2;
  }

  /** Shifting right what a left shift answered gives the receiver back, unless that is -2^30. */
  method ShiftForthAndBack(self: array<byte>, negative: bool, k: nat) returns (result: Integer)
    requires self.Length > 0
    ensures ValueOf(result) == Signed(negative, Value(self[..]))
         <==> k == 0 || Signed(negative, Value(self[..])) != -GAP
  {
    ghost var x := Signed(negative, Value(self[..]));
    result := BitShift(self, negative, k);
    ShiftedBack(x, k);
    match result
    case Small(_) =>
    case Large(ng, bytes) =>
      MagnitudeShiftedBack(negative, Value(self[..]), Value(bytes[..]), k);
      var back: int := -(k as int);
      result := BitShift(bytes, ng, back);
  }

  lemma ShiftedBack(x: int, k: nat)
    ensures x * Pow2(k) / Pow2(k) == x
  {
    DivModUnique(x * Pow2(k), x, 0, Pow2(k));
  }

  lemma MagnitudeShiftedBack(negative: bool, v: int, w: int, k: nat)
    requires Signed(negative, w) == Signed(negative, v) * Pow2(k)
    ensures w / Pow2(k) == v && Pow2(0) == 1 && w / 1 == w
  {
    assert (-v) * Pow2(k) == -(v * Pow2(k));
    ShiftedBack(v, k);
  }
}
