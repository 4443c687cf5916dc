/** Heap objects with a packed header and the region that bump-allocates them. Memory is addressed by
    64-bit words.
 */
module Heap {
  import opened Bits
  import opened Options

  const WORD: nat := 0x1_0000_0000_0000_0000

  /** What a caller asks for: named fields, indexed items (negative for none), their width in bytes
      (negative for pointers) and whether the object is weak. */
  datatype Shape = Shape(nInstVars: nat, nIndexed: int, width: int, weak: bool)

  /** The format and size fields of the header, and the number of words to allocate. */
  datatype Layout = Layout(format: nat, size: nat, total: nat)

  /** The branch of formatAndSize that packs several items in a word. */
  predicate PacksItems(s: Shape) {
    !s.weak && s.nIndexed >= 0 && s.nInstVars == 0 && s.width >= 0
  }

  /** The shapes for which formatAndSize does not divide by zero. */
  predicate Divides(s: Shape) {
    PacksItems(s) ==> 1 <= s.width <= 8
  }

  function ItemsPerWord(width: int): nat
    requires 1 <= width <= 8
  {
    if width == 1 then 8 else if width == 2 then 4 else if width <= 4 then 2 else 1
  }

  /** The number of words that n items take. */
  function WordsFor(n: nat, itemsPerWord: nat): nat {
    if itemsPerWord == 8 then (n + 7) / 8
    else if itemsPerWord == 4 then (n + 3) / 4
    else if itemsPerWord == 2 then (n + 1) / 2
    else n
  }

  /** The number of items in the last word, which counts as full when there are none. */
  function LastItems(n: nat, itemsPerWord: nat): nat {
    var remainder :=
      if itemsPerWord == 8 then n % 8 else if itemsPerWord == 4 then n % 4 else if itemsPerWord == 2 then n % 2 else 0;
    if remainder == 0 then itemsPerWord else remainder
  }

  /** The case distinctions are the quotients and the remainder that the code computes. */
  lemma PackingIsDivision(n: nat, width: int)
    requires 1 <= width <= 8
    ensures var k := ItemsPerWord(width);
            && k == 8 / width && WordsFor(n, k) == (n + k - 1) / k
            && LastItems(n, k) == if n % k == 0 then k else n % k
  {
    var k := ItemsPerWord(width);
    assert 8 / width == k by { DivModUnique(8, k, 8 - k * width, width); }
    if k == 1 { DivModUnique(n, n, 0, 1); }
  }

  function FormatAndSize(s: Shape): (l: Layout)
    requires Divides(s)
    ensures 13 <= l.format < 32 && l.total > 0
  {
    if s.weak then Layout(13, s.nInstVars, s.nInstVars + (if s.nIndexed > 0 then s.nIndexed else 0) + 2)
    else if s.nIndexed < 0 then Layout(14, s.nInstVars, s.nInstVars + 1)
    else if s.nInstVars > 0 then Layout(16, s.nInstVars, s.nInstVars + s.nIndexed + 2)
    else if s.width < 0 then
      if s.nIndexed < 32767 then Layout(15, s.nIndexed, s.nIndexed + 1) else Layout(16, 0, s.nIndexed + 2)
    else
      var itemsPerWord := ItemsPerWord(s.width);
      var words := WordsFor(s.nIndexed, itemsPerWord);
      var format := 16 + itemsPerWord * 2 - LastItems(s.nIndexed, itemsPerWord);
      if words < 32767 then Layout(format, words, words + 1) else Layout(format, 32767, words + 2)
  }

  /** The sizes that the tests of the source expect. */
  lemma TestedSizes()
    ensures FormatAndSize(Shape(3, -1, -1, false)) == Layout(14, 3, 4)
    ensures FormatAndSize(Shape(0, 5, -1, false)) == Layout(15, 5, 6)
    ensures FormatAndSize(Shape(3, -1, -1, true)) == Layout(13, 3, 5)
    ensures FormatAndSize(Shape(0, 5, -1, true)) == Layout(13, 0, 7)
    ensures FormatAndSize(Shape(0, 40000, -1, false)) == Layout(16, 0, 40002)
    ensures FormatAndSize(Shape(5, 40000, -1, false)) == Layout(16, 5, 40007)
    ensures FormatAndSize(Shape(5, 20000, -1, false)) == Layout(16, 5, 20007)
    ensures FormatAndSize(Shape(0, 40000, 8, false)) == Layout(17, 32767, 40002)
    ensures FormatAndSize(Shape(0, 20000, 8, false)) == Layout(17, 20000, 20001)
    ensures FormatAndSize(Shape(0, 17, 8, false)) == Layout(17, 17, 18)
    ensures FormatAndSize(Shape(0, 17, 4, false)) == Layout(19, 9, 10)
    ensures FormatAndSize(Shape(0, 17, 2, false)) == Layout(23, 5, 6)
    ensures FormatAndSize(Shape(0, 17, 1, false)) == Layout(31, 3, 4)
    ensures FormatAndSize(Shape(0, 18, 2, false)) == Layout(22, 5, 6)
    ensures FormatAndSize(Shape(0, 20, 1, false)) == Layout(28, 3, 4)
    ensures FormatAndSize(Shape(0, 16, 4, false)) == Layout(18, 8, 9)
    ensures FormatAndSize(Shape(0, 16, 2, false)) == Layout(20, 4, 5)
    ensures FormatAndSize(Shape(0, 16, 1, false)) == Layout(24, 2, 3)
  {
  }

  // The header word: class in bits 0-15, hash in 16-35, format in 40-44, size in 48-63

  /** The header! macro: the fields shifted to their places and or-ed; what exceeds 64 bits is lost. */
  function Packed(class_: nat, hash: nat, format: nat, size: nat): (h: nat)
    requires class_ < 0x1_0000 && format < 32
    ensures h == class_ + hash % 0x10_0000 * 0x1_0000 + format * 0x100_0000_0000 + size % 0x1_0000 * 0x1_0000_0000_0000
  {
    OrFields(class_, hash, format, size);
    Perform(BitOr,
            Perform(BitOr,
                    Perform(BitOr, class_, ShiftUp(Perform(BitAnd, hash, 0xfffff), 16)),
                    ShiftUp(format, 40)),
            LowBits(ShiftUp(size, 48), 64))
  }

  function HeaderClass(h: nat): (class_: nat)
    ensures class_ == h % 0x1_0000
  {
    FieldsAreQuotients(h);
    Perform(BitAnd, h, 0xffff)
  }

  function HeaderHash(h: nat): (hash: nat)
    ensures hash == h / 0x1_0000 % 0x10_0000
  {
    FieldsAreQuotients(h);
    Perform(BitAnd, ShiftDown(h, 16), 0xfffff)
  }

  function HeaderFormat(h: nat): (format: nat)
    ensures format == h / 0x100_0000_0000 % 256 % 32
  {
    FieldsAreQuotients(h);
    Perform(BitAnd, LowBits(ShiftDown(h, 40), 8), 31)
  }

  function HeaderSize(h: nat): (size: nat)
    ensures size == h / 0x1_0000_0000_0000 % 0x1_0000
  {
    FieldsAreQuotients(h);
    LowBits(ShiftDown(h, 48), 16)
  }

  lemma SmallPowers()
    ensures Pow2(5) == 32 && Pow2(8) == 256 && Pow2(16) == 0x1_0000 && Pow2(20) == 0x10_0000
  {
    Pow2Add(8, 8);
    Pow2Add(4, 16);
  }

  lemma LargePowers()
    ensures Pow2(40) == 0x100_0000_0000 && Pow2(48) == 0x1_0000_0000_0000
  {
    SmallPowers();
    Pow2Add(20, 20);
    Pow2Add(8, 40);
  }

  lemma WordPower()
    ensures Pow2(64) == WORD
  {
    SmallPowers();
    LargePowers();
    Pow2Add(16, 48);
  }

  lemma ShiftsUsed(x: int)
    ensures ShiftUp(x, 16) == x * 0x1_0000 && ShiftUp(x, 40) == x * 0x100_0000_0000
    ensures ShiftUp(x, 48) == x * 0x1_0000_0000_0000
    ensures ShiftDown(x, 16) == x / 0x1_0000 && ShiftDown(x, 40) == x / 0x100_0000_0000
    ensures ShiftDown(x, 48) == x / 0x1_0000_0000_0000
  {
    SmallPowers();
    LargePowers();
    ShiftUpIsTimesPow2(x, 16); ShiftUpIsTimesPow2(x, 40); ShiftUpIsTimesPow2(x, 48);
    ShiftDownIsDivision(x, 16); ShiftDownIsDivision(x, 40); ShiftDownIsDivision(x, 48);
  }

  lemma MasksUsed(x: int)
    ensures Perform(BitAnd, x, 0xffff) == x % 0x1_0000 && Perform(BitAnd, x, 0xfffff) == x % 0x10_0000
    ensures Perform(BitAnd, x, 31) == x % 32 && LowBits(x, 8) == x % 256
    ensures LowBits(x, 16) == x % 0x1_0000 && LowBits(x, 64) == x % WORD
  {
    SmallPowers();
    WordPower();
    MaskIsLowBits(x, 16); MaskIsLowBits(x, 20); MaskIsLowBits(x, 5);
    ShiftDownIsDivision(x, 5); ShiftDownIsDivision(x, 8); ShiftDownIsDivision(x, 16);
    ShiftDownIsDivision(x, 20); ShiftDownIsDivision(x, 64);
  }

  lemma OrHash(low: nat, hash: nat)
    requires low < 0x1_0000
    ensures Perform(BitOr, low, ShiftUp(Perform(BitAnd, hash, 0xfffff), 16)) == low + hash % 0x10_0000 * 0x1_0000
  {
    SmallPowers();
    MasksUsed(hash);
    ShiftsUsed(hash % 0x10_0000);
    DisjointOrIsSum(hash % 0x10_0000, low, 16);
  }

  lemma OrFormat(low: nat, format: nat)
    requires low < 0x100_0000_0000
    ensures Perform(BitOr, low, ShiftUp(format, 40)) == low + format * 0x100_0000_0000
  {
    LargePowers();
    ShiftsUsed(format);
    DisjointOrIsSum(format, low, 40);
  }

  lemma OrSize(low: nat, size: nat)
    requires low < 0x1_0000_0000_0000
    ensures Perform(BitOr, low, LowBits(ShiftUp(size, 48), 64)) == low + size % 0x1_0000 * 0x1_0000_0000_0000
  {
    LargePowers();
    ShiftsUsed(size);
    MasksUsed(ShiftUp(size, 48));
    TopSixteen(size);
    ShiftsUsed(size % 0x1_0000);
    DisjointOrIsSum(size % 0x1_0000, low, 48);
  }

  lemma TopSixteen(x: nat)
    ensures x * 0x1_0000_0000_0000 % WORD == x % 0x1_0000 * 0x1_0000_0000_0000
  {
    DivModUnique(x * 0x1_0000_0000_0000, x / 0x1_0000, x % 0x1_0000 * 0x1_0000_0000_0000, WORD);
  }

  /** The fields do not overlap, so or-ing them adds them. */
  lemma OrFields(class_: nat, hash: nat, format: nat, size: nat)
    requires class_ < 0x1_0000 && format < 32
    ensures Perform(BitOr,
                    Perform(BitOr,
                            Perform(BitOr, class_, ShiftUp(Perform(BitAnd, hash, 0xfffff), 16)),
                            ShiftUp(format, 40)),
                    LowBits(ShiftUp(size, 48), 64))
         == class_ + hash % 0x10_0000 * 0x1_0000 + format * 0x100_0000_0000 + size % 0x1_0000 * 0x1_0000_0000_0000
  {
    var low := class_ + hash % 0x10_0000 * 0x1_0000;
    OrHash(class_, hash);
    OrFormat(low, format);
    OrSize(low + format * 0x100_0000_0000, size);
  }

  lemma FieldsOfSum(class_: nat, hash: nat, format: nat, size: nat, h: nat)
    requires class_ < 0x1_0000 && hash < 0x10_0000 && format < 32 && size < 0x1_0000
    requires h == class_ + hash * 0x1_0000 + format * 0x100_0000_0000 + size * 0x1_0000_0000_0000
    ensures h % 0x1_0000 == class_ && h / 0x1_0000 % 0x10_0000 == hash
    ensures h / 0x100_0000_0000 % 256 % 32 == format && h / 0x1_0000_0000_0000 % 0x1_0000 == size && h < WORD
  {
    var q1, q2 := hash + format * 0x100_0000 + size * 0x1_0000_0000, format + size * 256;
    DivModUnique(h, q1, class_, 0x1_0000);
    DivModUnique(q1, format * 16 + size * 0x1000, hash, 0x10_0000);
    DivModUnique(h, q2, class_ + hash * 0x1_0000, 0x100_0000_0000);
    DivModUnique(q2, size, format, 256);
    DivModUnique(h, size, class_ + hash * 0x1_0000 + format * 0x100_0000_0000, 0x1_0000_0000_0000);
  }

  /** Every field reads back: the hash modulo 2^20, the size modulo 2^16. */
  lemma HeaderReadsBack(class_: nat, hash: nat, format: nat, size: nat)
    requires class_ < 0x1_0000 && format < 32
    ensures var h := Packed(class_, hash, format, size);
            && HeaderClass(h) == class_ && HeaderHash(h) == hash % 0x10_0000
            && HeaderFormat(h) == format && HeaderSize(h) == size % 0x1_0000 && h < WORD
  {
    FieldsOfSum(class_, hash % 0x10_0000, format, size % 0x1_0000, Packed(class_, hash, format, size));
  }

  lemma FieldsAreQuotients(h: nat)
    ensures Perform(BitAnd, h, 0xffff) == h % 0x1_0000
    ensures Perform(BitAnd, ShiftDown(h, 16), 0xfffff) == h / 0x1_0000 % 0x10_0000
    ensures Perform(BitAnd, LowBits(ShiftDown(h, 40), 8), 31) == h / 0x100_0000_0000 % 256 % 32
    ensures LowBits(ShiftDown(h, 48), 16) == h / 0x1_0000_0000_0000 % 0x1_0000
  {
    MasksUsed(h);
    ShiftsUsed(h);
    MasksUsed(h / 0x1_0000);
    MasksUsed(h / 0x100_0000_0000);
    MasksUsed(h / 0x100_0000_0000 % 256);
    MasksUsed(h / 0x1_0000_0000_0000);
  }

  // Memory, one unsigned 64-bit word per address; what was never written may be anything

  type Memory = map<nat, nat>

  function Word(m: Memory, a: nat): nat {
    if a in m then m[a] else 0
  }

  /** raw_at: field i of the object at a. */
  function Field(m: Memory, a: nat, i: nat): nat { Word(m, a + 1 + i) }

  // The formats that are told by a mask

  predicate OnlyInstVars(format: int) { format == 10 || format == 14 }

  predicate OnlyPointers(format: int) { format == 11 || format == 15 }

  lemma AndStep(x: int, y: int, x': int, y': int, p: int, q: int)
    requires x == 2 * x' + p && y == 2 * y' + q && 0 <= p <= 1 && 0 <= q <= 1
    ensures Perform(BitAnd, x, y) == 2 * Perform(BitAnd, x', y') + if p == 1 then q else 0
  {
    PerformStep(BitAnd, x, y);
    assert x / 2 == x' && y / 2 == y';
  }

  /** bitAnd: with 26 and 27 of a format whose three highest bits amount to f2. */
  lemma MaskedFormat(f: nat, f1: nat, f2: nat, b0: nat, b1: nat)
    requires f == 2 * f1 + b0 && f1 == 2 * f2 + b1 && b0 <= 1 && b1 <= 1 && f2 < 8
    ensures Perform(BitAnd, f, 26) == 4 * Perform(BitAnd, f2, 6) + 2 * b1
    ensures Perform(BitAnd, f, 27) == 4 * Perform(BitAnd, f2, 6) + 2 * b1 + b0
  {
    AndStep(f, 26, f1, 13, b0, 0);
    AndStep(f, 27, f1, 13, b0, 1);
    AndStep(f1, 13, f2, 6, b1, 1);
  }

  lemma MaskSix(f2: nat, f3: nat, b2: nat)
    requires f2 == 2 * f3 + b2 && b2 <= 1 && f3 < 4
    ensures Perform(BitAnd, f2, 6) == 2 * f3
  {
    AndStep(f2, 6, f3, 3, b2, 0);
    MaskIsLowBits(f3, 2);
  }

  /** The masks of the code tell exactly these formats of the 5-bit ones. */
  lemma FormatMasks(f: nat)
    requires f < 32
    ensures Perform(BitAnd, f, 27) == 10 <==> OnlyInstVars(f)
    ensures Perform(BitAnd, f, 27) == 11 <==> OnlyPointers(f)
    ensures Perform(BitAnd, f, 26) == 10 <==> OnlyInstVars(f) || OnlyPointers(f)
  {
    var f1 := f / 2;
    var f2 := f1 / 2;
    MaskedBits(f, f1, f2, f2 / 2, f % 2, f1 % 2, f2 % 2);
  }

  lemma MaskedBits(f: nat, f1: nat, f2: nat, f3: nat, b0: nat, b1: nat, b2: nat)
    requires f == 2 * f1 + b0 && f1 == 2 * f2 + b1 && f2 == 2 * f3 + b2 && b0 <= 1 && b1 <= 1 && b2 <= 1 && f3 < 4
    ensures Perform(BitAnd, f, 27) == 10 <==> OnlyInstVars(f)
    ensures Perform(BitAnd, f, 27) == 11 <==> OnlyPointers(f)
    ensures Perform(BitAnd, f, 26) == 10 <==> OnlyInstVars(f) || OnlyPointers(f)
  {
    MaskedFormat(f, f1, f2, b0, b1);
    MaskSix(f2, f3, b2);
    MaskedCases(f, f3, b0, b1, b2, Perform(BitAnd, f, 27), Perform(BitAnd, f, 26));
  }

  lemma MaskedCases(f: int, f3: int, b0: int, b1: int, b2: int, m27: int, m26: int)
    requires f == 8 * f3 + 4 * b2 + 2 * b1 + b0 && m26 == 8 * f3 + 2 * b1 && m27 == m26 + b0
    requires 0 <= b0 <= 1 && 0 <= b1 <= 1 && 0 <= b2 <= 1
    ensures m27 == 10 <==> OnlyInstVars(f)
    ensures m27 == 11 <==> OnlyPointers(f)
    ensures m26 == 10 <==> OnlyInstVars(f) || OnlyPointers(f)
  {
  }

  // What format and size say, given the length word where there is one

  function NInstVarsOf(format: nat, size: nat): nat {
    if OnlyPointers(format) then 0 else if format <= 16 then size else 0
  }

  function FirstIndexOf(format: nat, size: nat): nat {
    if OnlyInstVars(format) then size
    else if OnlyPointers(format) then 0
    else if format <= 16 then size + 1
    else if size < 32767 then 0
    else 1
  }

  function WordsOf(format: nat, size: nat, length: nat): nat {
    if OnlyInstVars(format) || OnlyPointers(format) then size + 1
    else if format <= 16 then (size + 2 + length) % WORD
    else if size < 32767 then size + 1
    else (2 + length) % WORD
  }

  function SizeOf(format: nat, size: nat, length: nat): int {
    if OnlyInstVars(format) then 0
    else if OnlyPointers(format) then size
    else if format <= 16 then length
    else
      var words := if size >= 32767 then length else size;
      if format >= 24 then words * 8 - format % 8
      else if format >= 20 then words * 4 - format % 4
      else if format >= 18 then words * 2 - format % 2
      else words
  }

  function NInstVars(h: nat): nat { NInstVarsOf(HeaderFormat(h), HeaderSize(h)) }

  function FirstIndex(h: nat): nat { FirstIndexOf(HeaderFormat(h), HeaderSize(h)) }

  /** The words the object at a takes, according to its header and the field after the named ones. */
  function Words(m: Memory, a: nat): nat {
    var size := HeaderSize(Word(m, a));
    WordsOf(HeaderFormat(Word(m, a)), size, Field(m, a, size))
  }

  /** The number of indexed items of the object at a; packed items keep a long length in field 0. */
  function Size(m: Memory, a: nat): int {
    var format, size := HeaderFormat(Word(m, a)), HeaderSize(Word(m, a));
    SizeOf(format, size, Field(m, a, if format <= 16 then size else 0))
  }

  function Width(h: nat): int {
    var format := HeaderFormat(h);
    if format <= 16 then -1 else if format >= 24 then 1 else if format >= 20 then 2 else if format >= 18 then 4 else 8
  }

  /** The value that a signed integer leaves in a word. */
  function Unsigned(x: int): nat { x % WORD }

  predicate SignedWord(x: int) { -0x8000_0000_0000_0000 <= x < 0x8000_0000_0000_0000 }

  /** The header alloc writes; without a hash the object's address gives one. */
  function Header(a: nat, class_: nat, hash: nat, s: Shape): nat
    requires class_ < 0x1_0000 && Divides(s)
  {
    var l := FormatAndSize(s);
    Packed(class_, if hash == 0 then a else hash, l.format, l.size)
  }

  /** raw_at_put: field index of the object at a. */
  function Put(m: Memory, a: nat, index: nat, value: nat): Memory { m[a + 1 + index := value] }

  lemma PutWord(m: Memory, a: nat, index: nat, value: nat, x: nat)
    ensures Word(Put(m, a, index, value), x) == if x == a + 1 + index then value else Word(m, x)
  {
  }

  /** The formats with a length word after the named fields. */
  predicate HasLength(format: nat) { format == 13 || format == 16 }

  /** Where alloc writes the length word, or the address of the header if it writes none. */
  function LengthPlace(a: nat, s: Shape): nat
    requires Divides(s)
  {
    var l := FormatAndSize(s);
    if HasLength(l.format) then a + 1 + l.size % 0x1_0000
    else if l.format > 16 && l.size % 0x1_0000 >= 32767 then a + 1
    else a
  }

  /** What alloc makes of memory: the header and, where the format has one, the length word. */
  function Allocated(m: Memory, a: nat, class_: nat, hash: nat, s: Shape): Memory
    requires class_ < 0x1_0000 && Divides(s)
  {
    var m', place := m[a := Header(a, class_, hash, s)], LengthPlace(a, s);
    if place != a then m'[place := Unsigned(s.nIndexed)] else m'
  }

  /** The shapes whose allocation reads back: the named fields fit the 16-bit size, a weak object has no
      negative index count and packed items take fewer than 32767 words. */
  predicate Readable(s: Shape)
    requires Divides(s)
  {
    && s.nInstVars < 0x1_0000
    && (s.weak ==> s.nIndexed >= 0)
    && (PacksItems(s) ==> WordsFor(s.nIndexed, ItemsPerWord(s.width)) < 32767)
  }

  /** The request fits the machine's signed words. */
  predicate Representable(s: Shape) {
    SignedWord(s.nInstVars) && SignedWord(s.nIndexed)
  }

  lemma FieldsOfHeader(a: nat, class_: nat, hash: nat, s: Shape)
    requires class_ < 0x1_0000 && Divides(s)
    ensures var h, l := Header(a, class_, hash, s), FormatAndSize(s);
            && HeaderFormat(h) == l.format && HeaderSize(h) == l.size % 0x1_0000 && HeaderClass(h) == class_
            && HeaderHash(h) == (if hash == 0 then a else hash) % 0x10_0000
  {
    var l := FormatAndSize(s);
    HeaderReadsBack(class_, if hash == 0 then a else hash, l.format, l.size);
  }

  /** The object that was asked for is at a: its header and, if it has one, its length word are there. */
  ghost predicate Describes(m: Memory, a: nat, class_: nat, hash: nat, s: Shape)
    requires class_ < 0x1_0000 && Divides(s)
  {
    var l := FormatAndSize(s);
    && Word(m, a) == Header(a, class_, hash, s)
    && (HasLength(l.format) ==> Field(m, a, l.size) == s.nIndexed)
  }

  lemma LengthPlaceIs(a: nat, class_: nat, hash: nat, s: Shape, h: nat)
    requires class_ < 0x1_0000 && Divides(s) && h == Header(a, class_, hash, s)
    ensures FirstIndex(h) > NInstVars(h) <==> LengthPlace(a, s) != a
    ensures LengthPlace(a, s) != a ==> LengthPlace(a, s) == a + 1 + (FirstIndex(h) - 1)
  {
    FieldsOfHeader(a, class_, hash, s);
  }

  lemma AllocatedFields(m: Memory, a: nat, class_: nat, hash: nat, s: Shape, x: nat)
    requires class_ < 0x1_0000 && Divides(s)
    ensures var m', place := Allocated(m, a, class_, hash, s), LengthPlace(a, s);
            && Word(m', a) == Header(a, class_, hash, s)
            && (place != a ==> Word(m', place) == Unsigned(s.nIndexed))
            && (x != a && x != place ==> Word(m', x) == Word(m, x))
  {
  }

  lemma FieldAt(m: Memory, a: nat, index: nat, place: nat)
    requires place == a + 1 + index
    ensures Field(m, a, index) == Word(m, place)
  {
  }

  /** The length word reads back as a field. */
  lemma AllocatedLength(m: Memory, a: nat, class_: nat, hash: nat, s: Shape, size: nat)
    requires class_ < 0x1_0000 && Divides(s) && size == FormatAndSize(s).size % 0x1_0000
    ensures var m', format := Allocated(m, a, class_, hash, s), FormatAndSize(s).format;
            && Word(m', a) == Header(a, class_, hash, s)
            && (HasLength(format) ==> Field(m', a, size) == Unsigned(s.nIndexed))
            && (format > 16 && size >= 32767 ==> Field(m', a, 0) == Unsigned(s.nIndexed))
  {
    var m', format, place := Allocated(m, a, class_, hash, s), FormatAndSize(s).format, LengthPlace(a, s);
    AllocatedFields(m, a, class_, hash, s, a);
    if HasLength(format) {
      FieldAt(m', a, size, place);
    } else if format > 16 && size >= 32767 {
      FieldAt(m', a, 0, place);
    }
  }

  /** The layout of a readable shape says what it was made from. */
  lemma ReadableLayout(s: Shape, format: nat, size: nat, length: nat)
    requires Divides(s) && Readable(s) && Representable(s)
    requires format == FormatAndSize(s).format && size == FormatAndSize(s).size % 0x1_0000
    requires HasLength(format) ==> length == Unsigned(s.nIndexed)
    ensures size == FormatAndSize(s).size && (HasLength(format) ==> length == s.nIndexed)
    ensures WordsOf(format, size, length) == FormatAndSize(s).total
    ensures SizeOf(format, size, length) == if s.nIndexed < 0 then 0 else s.nIndexed
  {
    if PacksItems(s) { PackedLayout(s, format, size, length); } else { FieldsLayout(s, format, size, length); }
  }

  lemma FieldsLayout(s: Shape, format: nat, size: nat, length: nat)
    requires Divides(s) && !PacksItems(s) && Readable(s) && Representable(s)
    requires format == FormatAndSize(s).format && size == FormatAndSize(s).size % 0x1_0000
    requires HasLength(format) ==> length == Unsigned(s.nIndexed)
    ensures size == FormatAndSize(s).size && (HasLength(format) ==> length == s.nIndexed)
    ensures WordsOf(format, size, length) == FormatAndSize(s).total
    ensures SizeOf(format, size, length) == if s.nIndexed < 0 then 0 else s.nIndexed
  {
    assert FormatAndSize(s).size < 0x1_0000;
    if s.nIndexed >= 0 { assert Unsigned(s.nIndexed) == s.nIndexed; }
  }

  lemma PackedLayout(s: Shape, format: nat, size: nat, length: nat)
    requires Divides(s) && PacksItems(s) && Readable(s)
    requires format == FormatAndSize(s).format && size == FormatAndSize(s).size % 0x1_0000
    ensures size == FormatAndSize(s).size && !HasLength(format)
    ensures WordsOf(format, size, length) == FormatAndSize(s).total && SizeOf(format, size, length) == s.nIndexed
  {
    PackedSize(s);
    assert FormatAndSize(s).size < 32767;
  }

  /** A packed format and a word count give the number of items. */
  lemma PackedSize(s: Shape)
    requires Divides(s) && PacksItems(s)
    ensures var k, f := ItemsPerWord(s.width), FormatAndSize(s).format;
            && WordsFor(s.nIndexed, k) * k - f % k == s.nIndexed
            && (k == 8 <==> f >= 24) && (k == 4 <==> 20 <= f < 24)
              && (k == 2 <==> 18 <= f < 20) && (k == 1 <==> f == 17)
  {
    var k := ItemsPerWord(s.width);
    PackedCount(s.nIndexed, k, LastItems(s.nIndexed, k));
  }

  lemma PackedCount(n: nat, k: nat, last: nat)
    requires k in {1, 2, 4, 8} && last == LastItems(n, k)
    ensures 1 <= last <= k && (16 + k * 2 - last) % k == k - last
    ensures WordsFor(n, k) * k - (k - last) == n
  {
    if k == 8 { Octets(n, last); }
    if k == 4 { assert (24 - last) % 4 == 4 - last; }
    if k == 2 { assert (20 - last) % 2 == 2 - last; }
  }

  lemma Octets(n: nat, last: nat)
    requires last == if n % 8 == 0 then 8 else n % 8
    ensures (n + 7) / 8 * 8 - (8 - last) == n && (32 - last) % 8 == 8 - last
  {
  }

  lemma AllocatedDescribes(m: Memory, a: nat, class_: nat, hash: nat, s: Shape)
    requires class_ < 0x1_0000 && Divides(s) && Readable(s) && Representable(s)
    ensures Describes(Allocated(m, a, class_, hash, s), a, class_, hash, s)
  {
    var l := FormatAndSize(s);
    var size := l.size % 0x1_0000;
    ReadableLayout(s, l.format, size, Unsigned(s.nIndexed));
    AllocatedLength(m, a, class_, hash, s, size);
    assert size == l.size;
  }

  /** What the header and the length word say: the words allocated and the count asked for. */
  lemma DescribedReadsBack(m: Memory, a: nat, class_: nat, hash: nat, s: Shape)
    requires class_ < 0x1_0000 && Divides(s) && Readable(s) && Representable(s) && Describes(m, a, class_, hash, s)
    ensures Words(m, a) == FormatAndSize(s).total
    ensures Size(m, a) == if s.nIndexed < 0 then 0 else s.nIndexed
  {
    var h, l := Word(m, a), FormatAndSize(s);
    var format, size := HeaderFormat(h), HeaderSize(h);
    FieldsOfHeader(a, class_, hash, s);
    var length := if HasLength(format) then Unsigned(s.nIndexed) else Field(m, a, size);
    ReadableLayout(s, format, size, length);
    assert size == l.size;
    ReadableLayout(s, format, size, Field(m, a, size));
    ReadableLayout(s, format, size, Field(m, a, if format <= 16 then size else 0));
  }

  /** Whatever memory held before, words() answers the step of the allocation, exactly for readable shapes. */
  lemma WordsReadBackIff(a: nat, class_: nat, hash: nat, s: Shape)
    requires class_ < 0x1_0000 && Divides(s) && Representable(s)
    ensures (forall m: Memory :: Words(Allocated(m, a, class_, hash, s), a) == FormatAndSize(s).total) <==> Readable(s)
  {
    if Readable(s) {
      forall m: Memory
        ensures Words(Allocated(m, a, class_, hash, s), a) == FormatAndSize(s).total
      {
        AllocatedDescribes(m, a, class_, hash, s);
        DescribedReadsBack(Allocated(m, a, class_, hash, s), a, class_, hash, s);
      }
    } else {
      UnreadableWords(a, class_, hash, s);
    }
  }

  /** What words() reads after alloc in memory that was zero. */
  lemma WordsSay(a: nat, class_: nat, hash: nat, s: Shape, size: nat, length: nat)
    requires class_ < 0x1_0000 && Divides(s) && size == FormatAndSize(s).size % 0x1_0000
    requires length == if HasLength(FormatAndSize(s).format) || LengthPlace(a, s) == a + 1 + size
                       then Unsigned(s.nIndexed) else 0
    ensures Words(Allocated(map[], a, class_, hash, s), a) == WordsOf(FormatAndSize(s).format, size, length)
  {
    var m := Allocated(map[], a, class_, hash, s);
    FieldsOfHeader(a, class_, hash, s);
    AllocatedLength(map[], a, class_, hash, s, size);
    AllocatedFields(map[], a, class_, hash, s, a + 1 + size);
  }

  /** In memory that was zero an unreadable shape does not read back. */
  lemma UnreadableWords(a: nat, class_: nat, hash: nat, s: Shape)
    requires class_ < 0x1_0000 && Divides(s) && Representable(s) && !Readable(s)
    ensures Words(Allocated(map[], a, class_, hash, s), a) != FormatAndSize(s).total
  {
    var size := FormatAndSize(s).size % 0x1_0000;
    var length := if HasLength(FormatAndSize(s).format) then Unsigned(s.nIndexed) else 0;
    WordsSay(a, class_, hash, s, size, length);
    UnreadableLayout(s, size, length);
  }

  /** 262136 bytes in 32767 words. */
  const LONG_BYTES := Shape(0, 262136, 1, false)

  lemma LongBytesLayout(s: Shape)
    requires s == LONG_BYTES
    ensures FormatAndSize(s) == Layout(24, 32767, 32769)
  {
  }

  /** words() reads field 32767 of them, which alloc does not write, and answers 2 for 32769 words. */
  lemma WordsFailForLongBytes(a: nat, class_: nat, hash: nat)
    requires class_ < 0x1_0000
    ensures FormatAndSize(LONG_BYTES).total == 32769 && Words(Allocated(map[], a, class_, hash, LONG_BYTES), a) == 2
  {
    LongBytesLayout(LONG_BYTES);
    WordsSay(a, class_, hash, LONG_BYTES, 32767, 0);
  }

  lemma UnreadableLayout(s: Shape, size: nat, length: nat)
    requires Divides(s) && Representable(s) && !Readable(s) && size == FormatAndSize(s).size % 0x1_0000
    requires length == if HasLength(FormatAndSize(s).format) then Unsigned(s.nIndexed) else 0
    ensures WordsOf(FormatAndSize(s).format, size, length) != FormatAndSize(s).total
  {
  }

  /** The shapes whose item count reads back. */
  predicate Countable(s: Shape)
    requires Divides(s)
  {
    && (s.weak ==> s.nIndexed >= 0)
    && (PacksItems(s) && WordsFor(s.nIndexed, ItemsPerWord(s.width)) >= 32767 ==> ItemsPerWord(s.width) == 1)
  }

  lemma SizeFields(m: Memory, a: nat, format: nat, size: nat, index: nat, length: nat)
    requires format == HeaderFormat(Word(m, a)) && size == HeaderSize(Word(m, a))
    requires index == (if format <= 16 then size else 0) && length == Field(m, a, index)
    ensures Size(m, a) == SizeOf(format, size, length)
  {
  }

  /** What size() reads after alloc. */
  lemma SizeSays(m: Memory, a: nat, class_: nat, hash: nat, s: Shape, size: nat, index: nat)
    requires class_ < 0x1_0000 && Divides(s) && size == FormatAndSize(s).size % 0x1_0000
    requires index == if FormatAndSize(s).format <= 16 then size else 0
    ensures var m', format := Allocated(m, a, class_, hash, s), FormatAndSize(s).format;
            && Size(m', a) == SizeOf(format, size, Field(m', a, index))
            && (HasLength(format) || (format > 16 && size >= 32767) ==> Field(m', a, index) == Unsigned(s.nIndexed))
  {
    var m' := Allocated(m, a, class_, hash, s);
    FieldsOfHeader(a, class_, hash, s);
    AllocatedLength(m, a, class_, hash, s, size);
    SizeFields(m', a, FormatAndSize(s).format, size, index, Field(m', a, index));
  }

  /** size() answers the count asked for, except of weak objects with a negative count and of long
      arrays of items narrower than a word. */
  lemma SizeReadsBackIff(m: Memory, a: nat, class_: nat, hash: nat, s: Shape)
    requires class_ < 0x1_0000 && Divides(s) && Representable(s)
    ensures Size(Allocated(m, a, class_, hash, s), a) == (if s.nIndexed < 0 then 0 else s.nIndexed) <==> Countable(s)
  {
    var size := FormatAndSize(s).size % 0x1_0000;
    var index := if FormatAndSize(s).format <= 16 then size else 0;
    SizeSays(m, a, class_, hash, s, size, index);
    SizeOfLayout(s, size, Field(Allocated(m, a, class_, hash, s), a, index));
  }

  /** Of the same object size() takes the bytes in field 0 for words. */
  lemma SizeFailsForLongBytes(m: Memory, a: nat, class_: nat, hash: nat)
    requires class_ < 0x1_0000
    ensures Size(Allocated(m, a, class_, hash, LONG_BYTES), a) == 8 * LONG_BYTES.nIndexed
  {
    LongBytesSize(m, a, class_, hash, LONG_BYTES, 24, 32767, 0);
  }

  lemma LongBytesSize(m: Memory, a: nat, class_: nat, hash: nat, s: Shape, format: nat, size: nat, index: nat)
    requires class_ < 0x1_0000 && s == LONG_BYTES && format == 24 && size == 32767 && index == 0
    ensures Size(Allocated(m, a, class_, hash, s), a) == 8 * s.nIndexed
  {
    LongBytesLayout(s);
    SizeSays(m, a, class_, hash, s, size, index);
    var length := Field(Allocated(m, a, class_, hash, s), a, index);
    assert Size(Allocated(m, a, class_, hash, s), a) == SizeOf(format, size, length);
    assert SizeOf(format, size, length) == length * 8 - format % 8;
  }

  lemma SizeOfLayout(s: Shape, size: nat, length: nat)
    requires Divides(s) && Representable(s) && size == FormatAndSize(s).size % 0x1_0000
    requires HasLength(FormatAndSize(s).format) || (FormatAndSize(s).format > 16 && size >= 32767) ==>
               length == Unsigned(s.nIndexed)
    ensures SizeOf(FormatAndSize(s).format, size, length) == (if s.nIndexed < 0 then 0 else s.nIndexed)
       <==> Countable(s)
  {
    if PacksItems(s) { SizeOfPacked(s, FormatAndSize(s).format, size, length); }
  }

  lemma SizeOfPacked(s: Shape, format: nat, size: nat, length: nat)
    requires Divides(s) && PacksItems(s) && format == FormatAndSize(s).format && size == FormatAndSize(s).size
    requires size >= 32767 ==> length == s.nIndexed
    ensures SizeOf(format, size, length) == s.nIndexed <==> Countable(s)
  {
    PackedSize(s);
  }

  /** width() answers the width asked for when that divides 8. */
  lemma WidthReadsBackIff(a: nat, class_: nat, hash: nat, s: Shape)
    requires class_ < 0x1_0000 && Divides(s) && PacksItems(s)
    ensures Width(Header(a, class_, hash, s)) == s.width <==> s.width in {1, 2, 4, 8}
  {
    FieldsOfHeader(a, class_, hash, s);
    PackedSize(s);
  }

  /** What initialize leaves in word x for the object at a: the default object in the named fields, the
      default object or zero in the indexed ones. */
  function Initialized(m: Memory, a: nat, nilWord: nat, x: nat): nat {
    var h := Word(m, a);
    if a < x <= a + NInstVars(h) then nilWord
    else if a + FirstIndex(h) < x < a + Words(m, a) then (if HeaderFormat(h) <= 16 then nilWord else 0)
    else Word(m, x)
  }

  /** Setting named fields changes neither header nor length word. */
  lemma NamedFieldsKeepWords(m: Memory, m': Memory, a: nat)
    requires forall x: nat :: !(a < x <= a + NInstVars(Word(m, a))) ==> Word(m', x) == Word(m, x)
    ensures Word(m', a) == Word(m, a) && Words(m', a) == Words(m, a)
  {
    var h := Word(m, a);
    var size := HeaderSize(h);
    if !OnlyPointers(HeaderFormat(h)) && !OnlyInstVars(HeaderFormat(h)) {
      assert Field(m', a, size) == Field(m, a, size);
    }
  }

  // The objects of a region

  datatype Entry = Entry(start: nat, end: nat, class_: nat, hash: nat, shape: Shape)

  ghost predicate Acceptable(class_: nat, s: Shape) {
    class_ < 0x1_0000 && Divides(s) && Readable(s) && Representable(s)
  }

  /** The object an entry stands for was allocated where the entry says and is described there. */
  ghost predicate InPlace(m: Memory, e: Entry) {
    && Acceptable(e.class_, e.shape) && e.end == e.start + FormatAndSize(e.shape).total
    && Describes(m, e.start, e.class_, e.hash, e.shape)
  }

  /** The entries follow each other from base up to current. */
  predicate Tiled(base: nat, current: nat, entries: seq<Entry>)
    decreases |entries|
  {
    if entries == [] then base == current else
      var e := entries[|entries| - 1];
      e.start < e.end == current && Tiled(base, e.start, entries[..|entries| - 1])
  }

  ghost predicate Parsed(m: Memory, base: nat, current: nat, entries: seq<Entry>) {
    Tiled(base, current, entries) && forall i :: 0 <= i < |entries| ==> InPlace(m, entries[i])
  }

  lemma {:induction false} TiledBounds(base: nat, current: nat, entries: seq<Entry>)
    requires Tiled(base, current, entries)
    ensures base <= current
    decreases |entries|
  {
    if entries != [] { TiledBounds(base, entries[|entries| - 1].start, entries[..|entries| - 1]); }
  }

  lemma {:induction false} TiledInside(base: nat, current: nat, entries: seq<Entry>, k: nat)
    requires Tiled(base, current, entries) && k < |entries|
    ensures base <= entries[k].start < entries[k].end <= current
    decreases |entries|
  {
    var last := |entries| - 1;
    if k == last {
      TiledBounds(base, entries[last].start, entries[..last]);
    } else {
      TiledInside(base, entries[last].start, entries[..last], k);
    }
  }

  /** Objects do not overlap. */
  lemma {:induction false} TiledOrder(base: nat, current: nat, entries: seq<Entry>, j: nat, k: nat)
    requires Tiled(base, current, entries) && j < k < |entries|
    ensures entries[j].end <= entries[k].start
    decreases |entries|
  {
    var last := |entries| - 1;
    if k == last {
      TiledInside(base, entries[last].start, entries[..last], j);
    } else {
      TiledOrder(base, entries[last].start, entries[..last], j, k);
    }
  }

  lemma LengthInside(s: Shape)
    requires Divides(s)
    ensures HasLength(FormatAndSize(s).format) ==> 1 + FormatAndSize(s).size < FormatAndSize(s).total
  {
  }

  /** An object is described by words before its end. */
  lemma InPlaceFrame(m: Memory, m': Memory, e: Entry)
    requires InPlace(m, e) && forall x: nat :: x < e.end ==> Word(m', x) == Word(m, x)
    ensures InPlace(m', e)
  {
    LengthInside(e.shape);
  }

  /** Parsing looks at nothing from current on. */
  lemma ParsedFrame(m: Memory, m': Memory, base: nat, current: nat, entries: seq<Entry>)
    requires Parsed(m, base, current, entries)
    requires forall x: nat :: x < current ==> Word(m', x) == Word(m, x)
    ensures Parsed(m', base, current, entries)
  {
    forall i | 0 <= i < |entries|
      ensures InPlace(m', entries[i])
    {
      TiledInside(base, current, entries, i);
      InPlaceFrame(m, m', entries[i]);
    }
  }

  function Starts(entries: seq<Entry>): (starts: seq<nat>)
    ensures |starts| == |entries| && forall i :: 0 <= i < |entries| ==> starts[i] == entries[i].start
  {
    if entries == [] then [] else Starts(entries[..|entries| - 1]) + [entries[|entries| - 1].start]
  }

  /** Walking from one object to the next by steps that depend on the object. */
  function Walk(step: nat -> nat, from: nat, to: nat): seq<nat>
    decreases to - from
  {
    if from >= to || step(from) == 0 then [] else [from] + Walk(step, from + step(from), to)
  }

  /** Where that walk stops. */
  function WalkEnd(step: nat -> nat, from: nat, to: nat): nat
    decreases to - from
  {
    if from >= to || step(from) == 0 then from else WalkEnd(step, from + step(from), to)
  }

  lemma WalkStep(step: nat -> nat, from: nat, next: nat, to: nat)
    requires from < to && step(from) > 0 && next == from + step(from)
    ensures Walk(step, from, to) == [from] + Walk(step, next, to) && WalkEnd(step, from, to) == WalkEnd(step, next, to)
  {
  }

  /** A walk that stops exactly at middle goes on from there. */
  lemma {:induction false} WalkFurther(step: nat -> nat, from: nat, middle: nat, to: nat)
    requires middle < to && WalkEnd(step, from, middle) == middle && step(middle) > 0 && to == middle + step(middle)
    ensures Walk(step, from, to) == Walk(step, from, middle) + [middle] && WalkEnd(step, from, to) == to
    decreases middle - from
  {
    if from < middle {
      var next := from + step(from);
      WalkStep(step, from, next, middle);
      WalkStep(step, from, next, to);
      WalkFurther(step, next, middle, to);
    } else {
      WalkStep(step, middle, to, to);
    }
  }

  lemma {:induction false} WalkVisitsTiles(step: nat -> nat, base: nat, current: nat, entries: seq<Entry>)
    requires Tiled(base, current, entries)
    requires forall i :: 0 <= i < |entries| ==> entries[i].start + step(entries[i].start) == entries[i].end
    ensures Walk(step, base, current) == Starts(entries) && WalkEnd(step, base, current) == current
    decreases |entries|
  {
    if entries != [] {
      var last := |entries| - 1;
      WalkVisitsTiles(step, base, entries[last].start, entries[..last]);
      WalkFurther(step, base, entries[last].start, current);
    }
  }

  /** The step that words() reads back from memory. */
  function StepIn(m: Memory): nat -> nat { (a: nat) => Words(m, a) }

  /** The heap is parsable: the walk visits exactly the allocated objects, in order, and ends at current. */
  lemma WalkVisitsObjects(m: Memory, base: nat, current: nat, entries: seq<Entry>)
    requires Parsed(m, base, current, entries)
    ensures Walk(StepIn(m), base, current) == Starts(entries) && WalkEnd(StepIn(m), base, current) == current
  {
    var step := StepIn(m);
    forall i | 0 <= i < |entries|
      ensures entries[i].start + step(entries[i].start) == entries[i].end
    {
      var e := entries[i];
      DescribedReadsBack(m, e.start, e.class_, e.hash, e.shape);
    }
    WalkVisitsTiles(step, base, current, entries);
  }

  /** Every object of a parsed heap still says what it was allocated with. */
  lemma ObjectReadsBack(m: Memory, base: nat, current: nat, entries: seq<Entry>, k: nat)
    requires Parsed(m, base, current, entries) && k < |entries|
    ensures var e := entries[k];
            && base <= e.start && e.end <= current && e.start + Words(m, e.start) == e.end
            && Size(m, e.start) == (if e.shape.nIndexed < 0 then 0 else e.shape.nIndexed)
            && HeaderClass(Word(m, e.start)) == e.class_
  {
    var e := entries[k];
    TiledInside(base, current, entries, k);
    DescribedReadsBack(m, e.start, e.class_, e.hash, e.shape);
    FieldsOfHeader(e.start, e.class_, e.hash, e.shape);
  }

  /** The field of a shape that must not be assigned: the length word. */
  predicate IsLength(s: Shape, index: nat)
    requires Divides(s)
  {
    HasLength(FormatAndSize(s).format) && index == FormatAndSize(s).size
  }

  /** The addresses that an object's description is about. */
  predicate Describing(e: Entry, x: nat)
    requires Divides(e.shape)
  {
    x == e.start || (x > e.start && IsLength(e.shape, x - e.start - 1))
  }

  lemma InPlaceWriteIff(m: Memory, e: Entry, x: nat, value: nat)
    requires InPlace(m, e)
    ensures InPlace(m[x := value], e) <==> (Describing(e, x) ==> value == Word(m, x))
  {
    var l, m' := FormatAndSize(e.shape), m[x := value];
    var place := e.start + 1 + l.size;
    FieldAt(m, e.start, l.size, place);
    FieldAt(m', e.start, l.size, place);
  }

  /** No object is described by the word at x, or it stays the same. */
  ghost predicate LeavesDescriptions(m: Memory, entries: seq<Entry>, x: nat, value: nat) {
    value == Word(m, x) || forall k :: 0 <= k < |entries| && Divides(entries[k].shape) ==> !Describing(entries[k], x)
  }

  /** Writing a word leaves the heap parsable exactly then. */
  lemma ParsedWriteIff(m: Memory, base: nat, current: nat, entries: seq<Entry>, x: nat, value: nat, m': Memory)
    requires Parsed(m, base, current, entries) && m' == m[x := value]
    ensures Parsed(m', base, current, entries) <==> LeavesDescriptions(m, entries, x, value)
  {
    forall j | 0 <= j < |entries|
      ensures InPlace(m', entries[j]) <==> (Describing(entries[j], x) ==> value == Word(m, x))
    {
      InPlaceWriteIff(m, entries[j], x, value);
    }
  }

  lemma DescribingInside(e: Entry, x: nat)
    requires Divides(e.shape) && Describing(e, x)
    ensures e.start <= x < e.start + FormatAndSize(e.shape).total
  {
    LengthInside(e.shape);
  }

  /** A field of an object, but for its length word, describes no object. */
  lemma FieldDescribesNothing(m: Memory, base: nat, current: nat, entries: seq<Entry>, k: nat, index: nat,
                             x: nat, j: nat)
    requires Parsed(m, base, current, entries) && k < |entries| && j < |entries|
    requires x == entries[k].start + 1 + index < entries[k].end && !IsLength(entries[k].shape, index)
    ensures !Describing(entries[j], x)
  {
    if Describing(entries[j], x) {
      DescribingInside(entries[j], x);
      if j < k {
        TiledOrder(base, current, entries, j, k);
      } else if j > k {
        TiledOrder(base, current, entries, k, j);
      }
    }
  }

  /** Assigning a field of an object, but for its length word, leaves the heap parsable. */
  lemma ParsedPut(m: Memory, base: nat, current: nat, entries: seq<Entry>, k: nat, index: nat, value: nat, m': Memory)
    requires Parsed(m, base, current, entries) && k < |entries|
    requires entries[k].start + 1 + index < entries[k].end && !IsLength(entries[k].shape, index)
    requires m' == Put(m, entries[k].start, index, value)
    ensures Parsed(m', base, current, entries)
  {
    var x := entries[k].start + 1 + index;
    forall j | 0 <= j < |entries|
      ensures !Describing(entries[j], x)
    {
      FieldDescribesNothing(m, base, current, entries, k, index, x, j);
    }
    assert LeavesDescriptions(m, entries, x, value);
    ParsedWriteIff(m, base, current, entries, x, value, m');
  }

  lemma ParsedAppend(m: Memory, base: nat, entries: seq<Entry>, e: Entry)
    requires Parsed(m, base, e.start, entries) && InPlace(m, e)
    ensures Parsed(m, base, e.end, entries + [e])
  {
    var all := entries + [e];
    assert all[..|all| - 1] == entries;
  }

  // Allocating and initializing an object beyond the others

  /** alloc leaves everything before the object alone, even if the allocation is then refused. */
  lemma ParsedRefused(m: Memory, base: nat, entries: seq<Entry>, e: Entry, written: Memory)
    requires Parsed(m, base, e.start, entries) && e.class_ < 0x1_0000 && Divides(e.shape)
    requires written == Allocated(m, e.start, e.class_, e.hash, e.shape)
    ensures Parsed(written, base, e.start, entries)
    ensures forall x: nat :: x < e.start ==> Word(written, x) == Word(m, x)
  {
    forall x: nat | x < e.start
      ensures Word(written, x) == Word(m, x)
    {
      AllocatedFields(m, e.start, e.class_, e.hash, e.shape, x);
    }
    ParsedFrame(m, written, base, e.start, entries);
  }

  /** initialize does not overwrite a length word that follows the named fields. */
  lemma LengthNotInitialized(m: Memory, a: nat, nilWord: nat, size: nat, place: nat)
    requires HasLength(HeaderFormat(Word(m, a))) && size == HeaderSize(Word(m, a)) && place == a + 1 + size
    ensures Initialized(m, a, nilWord, place) == Word(m, place)
  {
    var format := HeaderFormat(Word(m, a));
    assert NInstVars(Word(m, a)) == NInstVarsOf(format, size) == size;
    assert FirstIndex(Word(m, a)) == FirstIndexOf(format, size) == size + 1;
  }

  /** Initializing an object leaves its header and length word. */
  lemma InPlaceInitialized(m: Memory, m': Memory, e: Entry, nilWord: nat)
    requires InPlace(m, e)
    requires forall x: nat :: Word(m', x) == Initialized(m, e.start, nilWord, x)
    ensures InPlace(m', e)
  {
    var l := FormatAndSize(e.shape);
    FieldsOfHeader(e.start, e.class_, e.hash, e.shape);
    assert Word(m', e.start) == Initialized(m, e.start, nilWord, e.start) == Word(m, e.start);
    if HasLength(l.format) {
      var size, place := l.size, e.start + 1 + l.size;
      ReadableLayout(e.shape, l.format, l.size % 0x1_0000, Unsigned(e.shape.nIndexed));
      LengthNotInitialized(m, e.start, nilWord, size, place);
      FieldAt(m, e.start, size, place);
      FieldAt(m', e.start, size, place);
    }
  }

  /** Every field of the object, but for its length word, holds the default object, or zero if packed. */
  ghost predicate InitializedAs(m: Memory, a: nat, s: Shape, nilWord: nat)
    requires Divides(s)
  {
    forall index: nat :: index + 1 < FormatAndSize(s).total && !IsLength(s, index) ==>
      Field(m, a, index) == if PacksItems(s) then 0 else nilWord
  }

  lemma InitializedReadable(m: Memory, m': Memory, e: Entry, nilWord: nat)
    requires InPlace(m, e)
    requires forall x: nat :: Word(m', x) == Initialized(m, e.start, nilWord, x)
    ensures InitializedAs(m', e.start, e.shape, nilWord)
  {
    var l := FormatAndSize(e.shape);
    FieldsOfHeader(e.start, e.class_, e.hash, e.shape);
    DescribedReadsBack(m, e.start, e.class_, e.hash, e.shape);
    ReadableLayout(e.shape, l.format, l.size % 0x1_0000, Unsigned(e.shape.nIndexed));
    forall index: nat | index + 1 < l.total && !IsLength(e.shape, index)
      ensures Field(m', e.start, index) == if PacksItems(e.shape) then 0 else nilWord
    {
      var place := e.start + 1 + index;
      EveryFieldSet(e.shape, l.format, l.size, index);
      FieldAt(m', e.start, index, place);
      InitialWord(m, e.start, nilWord, l.format, l.size, l.total, index, place);
    }
  }

  /** A field other than the length word is a named or an indexed one. */
  lemma EveryFieldSet(s: Shape, format: nat, size: nat, index: nat)
    requires Divides(s) && Readable(s) && format == FormatAndSize(s).format && size == FormatAndSize(s).size
    requires index + 1 < FormatAndSize(s).total && !IsLength(s, index)
    ensures index < NInstVarsOf(format, size) || FirstIndexOf(format, size) <= index
    ensures PacksItems(s) <==> format > 16
  {
    if PacksItems(s) { PackedSize(s); }
  }

  lemma InitialWord(m: Memory, a: nat, nilWord: nat, format: nat, size: nat, total: nat, index: nat, place: nat)
    requires format == HeaderFormat(Word(m, a)) && size == HeaderSize(Word(m, a)) && Words(m, a) == total
    requires index + 1 < total && place == a + 1 + index
    requires index < NInstVarsOf(format, size) || FirstIndexOf(format, size) <= index
    ensures Initialized(m, a, nilWord, place) == if format > 16 then 0 else nilWord
  {
  }

  /** initialize changes nothing at or before the object's header. */
  lemma InitializedAbove(written: Memory, m': Memory, base: nat, entries: seq<Entry>, a: nat, nilWord: nat)
    requires Parsed(written, base, a, entries)
    requires forall x: nat :: Word(m', x) == Initialized(written, a, nilWord, x)
    ensures Parsed(m', base, a, entries)
    ensures forall x: nat :: x < a ==> Word(m', x) == Word(written, x)
  {
    forall x: nat | x < a
      ensures Word(m', x) == Word(written, x)
    {
      assert Word(m', x) == Initialized(written, a, nilWord, x);
    }
    ParsedFrame(written, m', base, a, entries);
  }

  /** alloc and initialize of a readable shape stay within the words of the object. */
  lemma InitializedBelow(m: Memory, written: Memory, m': Memory, e: Entry, nilWord: nat, x: nat)
    requires Acceptable(e.class_, e.shape) && e.end == e.start + FormatAndSize(e.shape).total
    requires written == Allocated(m, e.start, e.class_, e.hash, e.shape)
    requires Word(m', x) == Initialized(written, e.start, nilWord, x) && x >= e.end
    ensures Word(m', x) == Word(m, x)
  {
    AllocatedDescribes(m, e.start, e.class_, e.hash, e.shape);
    DescribedReadsBack(written, e.start, e.class_, e.hash, e.shape);
    PlacesInside(e.start, e.class_, e.hash, e.shape);
    AllocatedFields(m, e.start, e.class_, e.hash, e.shape, x);
  }

  lemma PlacesInside(a: nat, class_: nat, hash: nat, s: Shape)
    requires class_ < 0x1_0000 && Divides(s) && Readable(s) && Representable(s)
    ensures NInstVars(Header(a, class_, hash, s)) < FormatAndSize(s).total
    ensures LengthPlace(a, s) < a + FormatAndSize(s).total
  {
    var l := FormatAndSize(s);
    FieldsOfHeader(a, class_, hash, s);
    ReadableLayout(s, l.format, l.size % 0x1_0000, Unsigned(s.nIndexed));
    LengthInside(s);
  }

  /** alloc at a, before it is known whether the object fits, writes no word beyond end exactly when header and
      length word lie before it. */
  lemma AllocInsideIff(a: nat, class_: nat, hash: nat, s: Shape, end: int)
    requires class_ < 0x1_0000 && Divides(s) && a <= end
    ensures (forall m: Memory, x: nat :: x > end ==> Word(Allocated(m, a, class_, hash, s), x) == Word(m, x))
            <==> LengthPlace(a, s) <= end
  {
    var place := LengthPlace(a, s);
    if place <= end {
      forall m: Memory, x: nat | x > end
        ensures Word(Allocated(m, a, class_, hash, s), x) == Word(m, x)
      {
        AllocatedFields(m, a, class_, hash, s, x);
      }
    } else {
      var m: Memory := map[place := Unsigned(s.nIndexed) + 1];
      AllocatedFields(m, a, class_, hash, s, place);
      assert Word(Allocated(m, a, class_, hash, s), place) != Word(m, place);
    }
  }

  /** An object allocated after the others and initialized extends the heap. */
  lemma ParsedAllocated(m: Memory, written: Memory, m': Memory, base: nat, entries: seq<Entry>, e: Entry, nilWord: nat)
    requires Parsed(m, base, e.start, entries) && Acceptable(e.class_, e.shape)
    requires e.end == e.start + FormatAndSize(e.shape).total
    requires written == Allocated(m, e.start, e.class_, e.hash, e.shape)
    requires forall x: nat :: Word(m', x) == Initialized(written, e.start, nilWord, x)
    ensures Parsed(m', base, e.end, entries + [e])
    ensures InitializedAs(m', e.start, e.shape, nilWord)
    ensures forall x: nat :: x >= e.end ==> Word(m', x) == Word(m, x)
  {
    ParsedRefused(m, base, entries, e, written);
    InitializedAbove(written, m', base, entries, e.start, nilWord);
    forall x: nat | x >= e.end
      ensures Word(m', x) == Word(m, x)
    {
      InitializedBelow(m, written, m', e, nilWord, x);
    }
    AllocatedDescribes(m, e.start, e.class_, e.hash, e.shape);
    InPlaceInitialized(written, m', e, nilWord);
    InitializedReadable(written, m', e, nilWord);
    ParsedAppend(m', base, entries, e);
  }

  // What an object of any shape has room for, and what is written

  /** How many indexed items were asked for. */
  function Items(s: Shape): nat {
    if s.nIndexed < 0 then 0 else s.nIndexed
  }

  /** The bytes that an indexed item takes. */
  function ItemBytes(s: Shape): nat
    requires Divides(s)
  {
    if PacksItems(s) then 8 / ItemsPerWord(s.width) else 8
  }

  /** A length word is kept by weak objects, by objects with named fields and items, and by long arrays. */
  predicate KeepsLength(s: Shape)
    requires Divides(s)
  {
    s.weak || (s.nIndexed >= 0 && (s.nInstVars > 0
      || if s.width < 0 then s.nIndexed >= 32767 else WordsFor(s.nIndexed, ItemsPerWord(s.width)) >= 32767))
  }

  lemma BytesOfItems(n: nat, width: int, k: nat, words: nat)
    requires 1 <= width <= 8 && k == ItemsPerWord(width) && words == WordsFor(n, k)
    ensures 8 / k * n <= 8 * words && (n > 0 ==> 8 / k * n > 8 * (words - 1)) && (n == 0 ==> words == 0)
    ensures width <= 8 / k <= 8
  {
  }

  /** Behind the header come the named fields, then a length word if there is one, then exactly the words that the
      items need. */
  lemma RoomForItems(s: Shape)
    requires Divides(s)
    ensures var l := FormatAndSize(s);
            var first, n, w := FirstIndexOf(l.format, l.size), Items(s), ItemBytes(s);
            && NInstVarsOf(l.format, l.size) == s.nInstVars
            && first == s.nInstVars + (if KeepsLength(s) then 1 else 0)
            && w * n <= 8 * (l.total - 1 - first) && (n > 0 ==> w * n > 8 * (l.total - 2 - first))
            && (n == 0 ==> l.total - 1 == first) && (if PacksItems(s) then s.width <= w else first + n == l.total - 1)
  {
    if PacksItems(s) {
      var k := ItemsPerWord(s.width);
      BytesOfItems(s.nIndexed, s.width, k, WordsFor(s.nIndexed, k));
    }
  }

  /** What the header tells of the fields, with the number of named ones cut to 16 bits. */
  lemma LayoutOfShape(a: nat, s: Shape, format: nat, size: nat, named: nat)
    requires Divides(s) && format == FormatAndSize(s).format && size == FormatAndSize(s).size % 0x1_0000
    requires named == s.nInstVars % 0x1_0000
    ensures NInstVarsOf(format, size) == named
    ensures FirstIndexOf(format, size) == named + if KeepsLength(s) then 1 else 0
    ensures LengthPlace(a, s) == if KeepsLength(s) then a + 1 + named else a
    ensures format > 16 <==> PacksItems(s)
  {
    if PacksItems(s) { PackedCount(s.nIndexed, ItemsPerWord(s.width), LastItems(s.nIndexed, ItemsPerWord(s.width))); }
  }

  /** The field in which the items begin. */
  function FirstItem(s: Shape): nat
    requires Divides(s)
  {
    s.nInstVars % 0x1_0000 + if KeepsLength(s) then 1 else 0
  }

  lemma FirstItemInHeader(a: nat, class_: nat, hash: nat, s: Shape)
    requires class_ < 0x1_0000 && Divides(s)
    ensures FirstIndex(Header(a, class_, hash, s)) == FirstItem(s)
    ensures NInstVars(Header(a, class_, hash, s)) == s.nInstVars % 0x1_0000
  {
    var l := FormatAndSize(s);
    FieldsOfHeader(a, class_, hash, s);
    LayoutOfShape(a, s, l.format, l.size % 0x1_0000, s.nInstVars % 0x1_0000);
  }

  /** How many words behind the first one item i begins. */
  function ItemOffset(w: nat, i: nat): int {
    w * i / 8
  }

  lemma ItemInWords(w: nat, i: nat, n: nat, words: int)
    requires i < n && w * n <= 8 * words && 1 <= w
    ensures 0 <= ItemOffset(w, i) < words
  {
    MulMono(i + 1, n, w);
    MulMono(0, i, w);
    assert w * (i + 1) == w * i + w && w * n == n * w && w * (i + 1) == (i + 1) * w && w * i == i * w;
  }

  /** Every item and every named field lies inside the object, whatever its shape. */
  lemma ItemInside(s: Shape, i: nat, first: nat, words: int)
    requires Divides(s) && first == FirstItem(s) && words == FormatAndSize(s).total
    ensures i < Items(s) ==> 0 <= ItemOffset(ItemBytes(s), i) && 1 + first + ItemOffset(ItemBytes(s), i) < words
    ensures i < s.nInstVars ==> 1 + i < words
  {
    RoomForItems(s);
    var l := FormatAndSize(s);
    if i < Items(s) { ItemInWords(ItemBytes(s), i, Items(s), l.total - 1 - FirstIndexOf(l.format, l.size)); }
  }

  /** What words() answers for an object of any shape just allocated: the length word decides, and for a long packed
      array what field 32767 held before, here unwritten. */
  function WordsAfter(s: Shape, unwritten: nat): nat
    requires Divides(s)
  {
    var named := s.nInstVars % 0x1_0000;
    if PacksItems(s) then
      var words := WordsFor(s.nIndexed, ItemsPerWord(s.width));
      if words < 32767 then words + 1 else (2 + unwritten) % WORD
    else if KeepsLength(s) then (named + 2 + s.nIndexed) % WORD
    else named + 1 + Items(s)
  }

  lemma WordsFields(m: Memory, a: nat, format: nat, size: nat, length: nat)
    requires format == HeaderFormat(Word(m, a)) && size == HeaderSize(Word(m, a)) && length == Field(m, a, size)
    ensures Words(m, a) == WordsOf(format, size, length)
  {
  }

  lemma WordsAfterAlloc(m: Memory, a: nat, class_: nat, hash: nat, s: Shape, format: nat, size: nat)
    requires class_ < 0x1_0000 && Divides(s) && Representable(s)
    requires format == FormatAndSize(s).format && size == FormatAndSize(s).size % 0x1_0000
    ensures Words(Allocated(m, a, class_, hash, s), a) == WordsAfter(s, Word(m, a + 1 + 32767))
  {
    var m' := Allocated(m, a, class_, hash, s);
    var place, length := a + 1 + 32767, Field(m', a, size);
    FieldsOfHeader(a, class_, hash, s);
    WordsFields(m', a, format, size, length);
    AllocatedLength(m, a, class_, hash, s, size);
    if format > 16 && size >= 32767 {
      LengthBeforeItems(a, s, format, size);
      FieldAfterAlloc(m, a, class_, hash, s, size, a + 1, place);
    }
    WordsOfShape(s, format, size, length, Word(m, place));
  }

  lemma FieldAfterAlloc(m: Memory, a: nat, class_: nat, hash: nat, s: Shape, size: nat, length: nat, place: nat)
    requires class_ < 0x1_0000 && Divides(s) && length == LengthPlace(a, s) == a + 1
    requires size > 0 && place == a + 1 + size
    ensures Field(Allocated(m, a, class_, hash, s), a, size) == Word(m, place)
  {
    AllocatedFields(m, a, class_, hash, s, place);
    FieldAt(Allocated(m, a, class_, hash, s), a, size, place);
  }

  lemma LengthBeforeItems(a: nat, s: Shape, format: nat, size: nat)
    requires Divides(s) && format == FormatAndSize(s).format > 16 && size == FormatAndSize(s).size % 0x1_0000 >= 32767
    ensures LengthPlace(a, s) == a + 1 && size == 32767
  {
    PackedSizeBound(s, format);
  }

  lemma PackedSizeBound(s: Shape, format: nat)
    requires Divides(s) && format == FormatAndSize(s).format
    ensures format > 16 ==> FormatAndSize(s).size <= 32767
  {
  }

  lemma WordsOfShape(s: Shape, format: nat, size: nat, length: nat, unwritten: nat)
    requires Divides(s) && Representable(s) && format == FormatAndSize(s).format
    requires size == FormatAndSize(s).size % 0x1_0000
    requires HasLength(format) ==> length == Unsigned(s.nIndexed)
    requires format > 16 && size >= 32767 ==> length == unwritten
    ensures WordsOf(format, size, length) == WordsAfter(s, unwritten)
  {
    if PacksItems(s) {
      WordsOfPacked(s, format, size, length, unwritten);
    } else {
      WordsOfFields(s, format, size, length);
    }
  }

  lemma WordsOfPacked(s: Shape, format: nat, size: nat, length: nat, unwritten: nat)
    requires Divides(s) && PacksItems(s) && format == FormatAndSize(s).format
    requires size == FormatAndSize(s).size % 0x1_0000 && (size >= 32767 ==> length == unwritten)
    ensures WordsOf(format, size, length) == WordsAfter(s, unwritten)
  {
    PackedCount(s.nIndexed, ItemsPerWord(s.width), LastItems(s.nIndexed, ItemsPerWord(s.width)));
    PackedSizeBound(s, format);
  }

  lemma WordsOfFields(s: Shape, format: nat, size: nat, length: nat)
    requires Divides(s) && !PacksItems(s) && Representable(s) && format == FormatAndSize(s).format
    requires size == FormatAndSize(s).size % 0x1_0000 && (HasLength(format) ==> length == s.nIndexed % WORD)
    ensures WordsOf(format, size, length) == WordsAfter(s, 0)
  {
    if KeepsLength(s) { AddModulo(size + 2, s.nIndexed, WORD); }
  }

  lemma AddModulo(x: int, y: int, p: int)
    requires p > 0
    ensures (x + y % p) % p == (x + y) % p
  {
    var q := y / p;
    DivModIdentity(y, p);
    DivModIdentity(x + y % p, p);
    var k := (x + y % p) / p;
    assert (k + q) * p == k * p + q * p;
    DivModUnique(x + y, k + q, (x + y % p) % p, p);
  }

  /** Word x after an object of any shape was allocated at a and initialized: header, named fields, length word, items,
      and nothing else. */
  function WordAfter(m: Memory, a: nat, class_: nat, hash: nat, s: Shape, nilWord: nat, x: nat): nat
    requires class_ < 0x1_0000 && Divides(s)
  {
    var named, first := s.nInstVars % 0x1_0000, a + 1 + FirstItem(s);
    if x == a then Header(a, class_, hash, s)
    else if a < x <= a + named then nilWord
    else if x == a + 1 + named && KeepsLength(s) then Unsigned(s.nIndexed)
    else if first <= x < a + WordsAfter(s, Word(m, a + 1 + 32767)) then (if PacksItems(s) then 0 else nilWord)
    else Word(m, x)
  }

  lemma InitializedWith(m: Memory, a: nat, nilWord: nat, x: nat,
                        h: nat, named: nat, first: nat, words: nat, packs: bool)
    requires h == Word(m, a) && named == NInstVars(h) && first == FirstIndex(h) && words == Words(m, a)
    requires packs <==> HeaderFormat(h) > 16
    ensures Initialized(m, a, nilWord, x)
         == if a < x <= a + named then nilWord
            else if a + first < x < a + words then (if packs then 0 else nilWord)
            else Word(m, x)
  {
  }

  lemma InitializedAllocated(m: Memory, a: nat, class_: nat, hash: nat, s: Shape, nilWord: nat, x: nat)
    requires class_ < 0x1_0000 && Divides(s) && Representable(s)
    ensures Initialized(Allocated(m, a, class_, hash, s), a, nilWord, x) == WordAfter(m, a, class_, hash, s, nilWord, x)
  {
    var m', h, l := Allocated(m, a, class_, hash, s), Header(a, class_, hash, s), FormatAndSize(s);
    var named, first := s.nInstVars % 0x1_0000, FirstItem(s);
    FieldsOfHeader(a, class_, hash, s);
    FirstItemInHeader(a, class_, hash, s);
    LayoutOfShape(a, s, l.format, l.size % 0x1_0000, named);
    WordsAfterAlloc(m, a, class_, hash, s, l.format, l.size % 0x1_0000);
    AllocatedFields(m, a, class_, hash, s, x);
    InitializedWith(m', a, nilWord, x, h, named, first, WordsAfter(s, Word(m, a + 1 + 32767)), PacksItems(s));
  }

  /** All of that for an object at a that ends at next. */
  lemma ObjectWritten(m: Memory, m': Memory, a: nat, class_: nat, hash: nat, s: Shape, nilWord: nat, next: int)
    requires class_ < 0x1_0000 && Divides(s) && Representable(s) && next == a + FormatAndSize(s).total
    requires forall x: nat :: Word(m', x) == Initialized(Allocated(m, a, class_, hash, s), a, nilWord, x)
    ensures forall x: nat :: Word(m', x) == WordAfter(m, a, class_, hash, s, nilWord, x)
    ensures HasRoom(s, a, next)
  {
    forall x: nat
      ensures Word(m', x) == WordAfter(m, a, class_, hash, s, nilWord, x)
    {
      InitializedAllocated(m, a, class_, hash, s, nilWord, x);
    }
    forall i: nat | i < Items(s)
      ensures a + 1 + FirstItem(s) + ItemOffset(ItemBytes(s), i) < next
    {
      ItemInside(s, i, FirstItem(s), FormatAndSize(s).total);
    }
    if s.nInstVars > 0 { ItemInside(s, s.nInstVars - 1, FirstItem(s), FormatAndSize(s).total); }
  }

  /** The named fields and the items of an object at a lie below next. */
  ghost predicate HasRoom(s: Shape, a: nat, next: int)
    requires Divides(s)
  {
    && a + s.nInstVars < next
    && forall i: nat :: i < Items(s) ==> a + 1 + FirstItem(s) + ItemOffset(ItemBytes(s), i) < next
  }

  /** A region: objects from base up to current, free words from there to end. */
  class Region {
    const base: nat
    const end: int
    var current: nat
    var memory: Memory
    ghost var entries: seq<Entry>

    ghost predicate Valid()
      reads this
    {
      Parsed(memory, base, current, entries) && (current == base || current <= end)
    }

    /** The last word of the memory given is not used. */
    constructor (start: nat, size: nat, memory: Memory)
      ensures Valid() && base == current == start && end == start + size - 1 && entries == [] && this.memory == memory
    {
      base, end, current := start, start + size - 1, start;
      this.memory, entries := memory, [];
    }

    method RawAtPut(a: nat, index: nat, value: nat)
      modifies this`memory
      ensures memory == Put(old(memory), a, index, value)
    {
      memory := memory[a + 1 + index := value];
    }

    /** alloc: writes the header and, where there is one, the length word. */
    method Alloc(a: nat, class_: nat, hash: nat, s: Shape) returns (next: nat)
      requires class_ < 0x1_0000 && Divides(s)
      modifies this`memory
      ensures memory == Allocated(old(memory), a, class_, hash, s) && next == a + FormatAndSize(s).total
    {
      var l := FormatAndSize(s);
      var header := Header(a, class_, hash, s);
      memory := memory[a := header];
      LengthPlaceIs(a, class_, hash, s, header);
      PutLength(a, s, FirstIndex(header), NInstVars(header), LengthPlace(a, s));
      next := a + l.total;
    }

    /** The second half of alloc: extra and named are what the header says. */
    method PutLength(a: nat, s: Shape, extra: nat, named: nat, ghost place: nat)
      requires extra > named <==> place != a
      requires place != a ==> place == a + 1 + (extra - 1)
      modifies this`memory
      ensures memory == if place != a then old(memory)[place := Unsigned(s.nIndexed)] else old(memory)
    {
      if extra > named {
        RawAtPut(a, extra - 1, Unsigned(s.nIndexed));
      }
    }

    /** Stores a value in the fields from first up to end. */
    method Fill(a: nat, first: nat, end: int, value: nat)
      modifies this`memory
      ensures forall x: nat :: Word(memory, x) == if a + first < x <= a + end then value else Word(old(memory), x)
    {
      ghost var m := memory;
      var i := first;
      while i < end
        invariant first <= i && (i <= end || i == first)
        invariant forall x: nat :: Word(memory, x) == if a + first < x <= a + i then value else Word(m, x)
      {
        ghost var before := memory;
        RawAtPut(a, i, value);
        forall x: nat ensures Word(memory, x) == if x == a + 1 + i then value else Word(before, x) {
          PutWord(before, a, i, value, x);
        }
        i := i + 1;
      }
    }

    /** initialize: fills the named fields, then the indexed ones, as the header and length word say. */
    method Initialize(a: nat, nilWord: nat)
      modifies this`memory
      ensures forall x: nat :: Word(memory, x) == Initialized(old(memory), a, nilWord, x)
    {
      ghost var m := memory;
      var h := Word(memory, a);
      Fill(a, 0, NInstVars(h), nilWord);
      NamedFieldsKeepWords(m, memory, a);
      Fill(a, FirstIndex(h), Words(memory, a) - 1, if HeaderFormat(h) <= 16 then nilWord else 0);
    }

    /** The same, before what is written is told from the shape. */
    method AllocInitialized(class_: nat, hash: nat, s: Shape, nilWord: nat) returns (r: Option<nat>)
      requires Valid() && class_ < 0x1_0000 && Divides(s) && Representable(s)
      modifies this
      ensures r.Some? <==> old(current) < end && old(current) + FormatAndSize(s).total <= end
      ensures current == old(current) + if r.Some? then FormatAndSize(s).total else 0
      ensures r.None? || Readable(s) ==> Valid()
      ensures r.None? ==> entries == old(entries)
      ensures r.None? ==>
                memory == if current < end then Allocated(old(memory), current, class_, hash, s) else old(memory)
      ensures r.Some? ==> r.value == old(current)
      ensures r.Some? && Readable(s) ==>
        && entries == old(entries) + [Entry(r.value, current, class_, hash, s)]
          && InitializedAs(memory, r.value, s, nilWord)
        && forall x: nat :: x >= current ==> Word(memory, x) == Word(old(memory), x)
      ensures r.Some? && !Readable(s) ==> entries == old(entries)
      ensures r.Some? ==>
                var written := Allocated(old(memory), r.value, class_, hash, s);
                forall x: nat :: Word(memory, x) == Initialized(written, r.value, nilWord, x)
      ensures Parsed(memory, base, old(current), old(entries))
      ensures forall x: nat :: x < old(current) ==> Word(memory, x) == Word(old(memory), x)
    {
      var new_ := current;
      if new_ < end {
        ghost var m := memory;
        var next := Alloc(new_, class_, hash, s);
        ghost var e := Entry(new_, next, class_, hash, s);
        ghost var written := memory;
        ParsedRefused(m, base, entries, e, memory);
        if next <= end {
          current := next;
          Initialize(new_, nilWord);
          InitializedAbove(written, memory, base, entries, new_, nilWord);
          if Readable(s) {
            ParsedAllocated(m, written, memory, base, entries, e, nilWord);
            entries := entries + [e];
          }
          return Some(new_);
        }
      }
      return None;
    }

    /** allocObject: allocates and initializes at current, unless the object would reach beyond end. Objects
        of readable shapes extend the parsable heap; whatever the shape, the objects before are left alone. */
    method AllocObject(class_: nat, hash: nat, s: Shape, nilWord: nat) returns (r: Option<nat>)
      requires Valid() && class_ < 0x1_0000 && Divides(s) && Representable(s)
      modifies this
      ensures r.Some? <==> old(current) < end && old(current) + FormatAndSize(s).total <= end
      ensures current == old(current) + if r.Some? then FormatAndSize(s).total else 0
      ensures r.None? || Readable(s) ==> Valid()
      ensures r.None? ==> entries == old(entries)
      ensures r.None? ==>
                memory == if current < end then Allocated(old(memory), current, class_, hash, s) else old(memory)
      ensures r.Some? ==> r.value == old(current)
      ensures r.Some? && Readable(s) ==>
        && entries == old(entries) + [Entry(r.value, current, class_, hash, s)]
          && InitializedAs(memory, r.value, s, nilWord)
        && forall x: nat :: x >= current ==> Word(memory, x) == Word(old(memory), x)
      ensures r.Some? && !Readable(s) ==> entries == old(entries)
      ensures r.Some? ==>
                forall x: nat :: Word(memory, x) == WordAfter(old(memory), r.value, class_, hash, s, nilWord, x)
      ensures r.Some? ==> HasRoom(s, r.value, current)
      ensures Parsed(memory, base, old(current), old(entries))
      ensures forall x: nat :: x < old(current) ==> Word(memory, x) == Word(old(memory), x)
    {
      r := AllocInitialized(class_, hash, s, nilWord);
      if r.Some? { ObjectWritten(old(memory), memory, r.value, class_, hash, s, nilWord, current); }
    }

    /** raw_at_put at any address: the region stays valid exactly if the word is no header and no length word of
        an object, or keeps its value. */
    method AssignField(a: nat, index: nat, value: nat)
      requires Valid()
      modifies this`memory
      ensures memory == Put(old(memory), a, index, value)
      ensures Valid() <==> LeavesDescriptions(old(memory), entries, a + 1 + index, value)
    {
      ghost var m, x := memory, a + 1 + index;
      RawAtPut(a, index, value);
      assert memory == m[x := value];
      ParsedWriteIff(m, base, current, entries, x, value, memory);
    }
  }
}
