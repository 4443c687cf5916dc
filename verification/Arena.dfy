/** The global arena: spans of words cut into naturally aligned power-of-two blocks, which wait on one
    free list per size. Addresses count words.
 */
module Arenas {
  import opened Bits
  import opened Options

  datatype Block = Block(start: nat, len: nat)

  /** smallerPowerOf2: the largest power of two that is at most n. */
  function SmallerPowerOf2(n: nat): (p: nat)
    requires n > 0
    ensures 1 <= p <= n < 2 * p
  {
    BitLengthBounds(n);
    Pow2(BitLength(n) - 1)
  }

  /** x with the bits below p masked off, for a power of two p: its largest multiple up to x. */
  function RoundDown(x: nat, p: nat): (r: nat)
    requires p > 0
    ensures r <= x < r + p
  {
    if x < p then 0 else p + RoundDown(x - p, p)
  }

  /** That is what and-ing x with -p does. */
  lemma {:induction false} RoundDownIsMask(x: nat, k: nat)
    ensures RoundDown(x, Pow2(k)) == Perform(BitAnd, x, -Pow2(k))
  {
    MaskDropsLowBits(x, k);
    RoundDownIsMultiple(x, Pow2(k));
    ShiftDownIsDivision(x, k);
    ShiftUpIsTimesPow2(ShiftDown(x, k), k);
  }

  lemma {:induction false} MaskDropsLowBits(x: int, k: nat)
    ensures Perform(BitAnd, x, -Pow2(k)) == ShiftUp(ShiftDown(x, k), k)
    decreases k
  {
    var mask := -Pow2(k);
    if k == 0 {
      AndOnes(x);
    } else {
      var half := -Pow2(k - 1);
      MaskDropsLowBits(x / 2, k - 1);
      assert mask / 2 == half && mask % 2 == 0;
      PerformStep(BitAnd, x, mask);
    }
  }

  lemma {:induction false} AndOnes(x: int)
    ensures Perform(BitAnd, x, -1) == x
    decreases Magnitude(x)
  {
    PerformStep(BitAnd, x, -1);
    if Magnitude(x) != 0 { AndOnes(x / 2); }
  }

  lemma {:induction false} RoundDownIsMultiple(x: nat, p: nat)
    requires p > 0
    ensures RoundDown(x, p) == x / p * p
  {
    if x < p {
      DivModUnique(x, 0, x, p);
    } else {
      RoundDownIsMultiple(x - p, p);
      DivModIdentity(x - p, p);
      assert ((x - p) / p + 1) * p == (x - p) / p * p + p;
      DivModUnique(x, (x - p) / p + 1, (x - p) % p, p);
    }
  }

  predicate Aligned(x: nat, p: nat) {
    p > 0 && RoundDown(x, p) == x
  }

  lemma AlignedIffMultiple(x: nat, p: nat)
    requires p > 0
    ensures Aligned(x, p) <==> x % p == 0
  {
    RoundDownIsMultiple(x, p);
    DivModIdentity(x, p);
  }

  lemma {:induction false} RoundDownAligned(x: nat, p: nat)
    requires p > 0
    ensures Aligned(RoundDown(x, p), p)
  {
    if x >= p { RoundDownAligned(x - p, p); }
  }

  /** boundaryCalc: the length up to the last multiple, in the span, of the largest power of two
      that fits the span. */
  function BoundaryCalc(start: nat, len: nat): (aligned: nat)
    requires len > 0
    ensures 1 <= aligned <= len && len - aligned < SmallerPowerOf2(len)
  {
    RoundDown(start + len, SmallerPowerOf2(len)) - start
  }

  /** boundaryCalc on any span, before its result is made unsigned: the largest power of two up to an empty
      span comes out as 0, and so do the mask and the masked end. */
  function BoundaryRaw(start: nat, len: nat): int {
    (if len == 0 then 0 else RoundDown(start + len, SmallerPowerOf2(len))) - start
  }

  lemma BoundaryIsAligned(start: nat, len: nat)
    requires len > 0
    ensures Aligned(start + BoundaryCalc(start, len), SmallerPowerOf2(len))
  {
    RoundDownAligned(start + len, SmallerPowerOf2(len));
  }

  /** The blocks cut off a span from its end downwards, as the loop of freeToList does. */
  function TilesDown(start: nat, len: nat): seq<Block> {
    if len == 0 then [] else
      var l := SmallerPowerOf2(len);
      [Block(start + len - l, l)] + TilesDown(start, len - l)
  }

  /** The blocks that freeToList makes of a span, in the order in which it queues them. */
  function Tiles(start: nat, len: nat): seq<Block>
    decreases len
  {
    if len == 0 then [] else
      var aligned := BoundaryCalc(start, len);
      Tiles(start + aligned, len - aligned) + TilesDown(start, aligned)
  }

  lemma {:induction false} TilesOf(start: nat, len: nat, aligned: nat, above: nat, rest: nat)
    requires len > 0 && aligned == BoundaryCalc(start, len) && above == start + aligned && rest == len - aligned
    ensures Tiles(start, len) == Tiles(above, rest) + TilesDown(start, aligned)
  {
    SameTiles(start + aligned, len - aligned, above, rest);
  }

  lemma {:induction false} SameTiles(start: nat, len: nat, start': nat, len': nat)
    requires start == start' && len == len'
    ensures Tiles(start, len) == Tiles(start', len')
  {
  }

  /** How often a block contains word w. */
  function Covers(b: Block, w: nat): nat {
    if b.start <= w < b.start + b.len then 1 else 0
  }

  /** How many of the blocks contain word w. */
  function Count(blocks: seq<Block>, w: nat): nat {
    if blocks == [] then 0 else Covers(blocks[0], w) + Count(blocks[1..], w)
  }

  lemma {:induction false} CountConcat(a: seq<Block>, b: seq<Block>, w: nat)
    ensures Count(a + b, w) == Count(a, w) + Count(b, w)
  {
    if a == [] {
      assert a + b == b;
    } else {
      assert (a + b)[1..] == a[1..] + b;
      CountConcat(a[1..], b, w);
    }
  }

  lemma {:induction false} TilesDownCover(start: nat, len: nat, w: nat)
    ensures Count(TilesDown(start, len), w) == Covers(Block(start, len), w)
    decreases len
  {
    if len > 0 {
      var l := SmallerPowerOf2(len);
      TilesDownCover(start, len - l, w);
      assert TilesDown(start, len)[1..] == TilesDown(start, len - l);
    }
  }

  /** The tiles cover every word of the span exactly once and no other word. */
  lemma {:induction false} TilesCover(start: nat, len: nat, w: nat)
    ensures Count(Tiles(start, len), w) == Covers(Block(start, len), w)
    decreases len
  {
    if len > 0 {
      var aligned := BoundaryCalc(start, len);
      var above, rest := start + aligned, len - aligned;
      TilesOf(start, len, aligned, above, rest);
      TilesCover(above, rest, w);
      TilesDownCover(start, aligned, w);
      CountConcat(Tiles(above, rest), TilesDown(start, aligned), w);
    }
  }

  ghost predicate IsPowerOf2(n: nat) {
    exists k: nat :: n == Pow2(k)
  }

  /** A block whose length is a power of two and whose address is a multiple of it. */
  ghost predicate Natural(b: Block) {
    IsPowerOf2(b.len) && Aligned(b.start, b.len)
  }

  lemma AlignedToSmaller(x: nat, j: nat, k: nat)
    requires j <= k && Aligned(x, Pow2(k))
    ensures Aligned(x, Pow2(j))
  {
    Pow2Add(k - j, j);
    AlignedIffMultiple(x, Pow2(k));
    MultipleOfFactor(x, Pow2(k - j), Pow2(j));
    AlignedIffMultiple(x, Pow2(j));
  }

  lemma MultipleOfFactor(x: int, p: int, d: int)
    requires p > 0 && d > 0 && p * d > 0 && x % (p * d) == 0
    ensures x % d == 0
  {
    var q := x / (p * d);
    DivModIdentity(x, p * d);
    assert q * (p * d) == (q * p) * d;
    DivModUnique(x, q * p, 0, d);
  }

  lemma {:induction false} TilesDownNatural(start: nat, len: nat, k: nat)
    requires len < Pow2(k + 1) && Aligned(start + len, Pow2(k))
    ensures forall b :: b in TilesDown(start, len) ==> Natural(b)
    decreases len
  {
    if len > 0 {
      var j := BitLength(len) - 1;
      var l := SmallerPowerOf2(len);
      if j > k { Pow2Mono(k + 1, j); }
      var end := start + len - l;
      AlignedToSmaller(start + len, j, k);
      assert Natural(Block(end, l)) by { assert IsPowerOf2(l) by { assert l == Pow2(j); } }
      if j == 0 {
        TilesDownNatural(start, len - l, 0);
      } else {
        AlignedToSmaller(end, j - 1, j);
        TilesDownNatural(start, len - l, j - 1);
      }
    }
  }

  /** Whatever the start address, every tile is naturally aligned. */
  lemma {:induction false} TilesNatural(start: nat, len: nat)
    ensures forall b :: b in Tiles(start, len) ==> Natural(b)
    decreases len
  {
    if len > 0 {
      var aligned := BoundaryCalc(start, len);
      var above, rest := start + aligned, len - aligned;
      TilesOf(start, len, aligned, above, rest);
      TilesNatural(above, rest);
      BoundaryIsAligned(start, len);
      TilesDownNatural(start, aligned, BitLength(len) - 1);
    }
  }

  predicate Contains(c: Block, b: Block) {
    c.start <= b.start && b.start + b.len <= c.start + c.len
  }

  /** No larger naturally aligned block around b fits between start and end. */
  ghost predicate Maximal(b: Block, start: nat, end: nat) {
    forall c: Block :: Natural(c) && c.len > b.len && Contains(c, b) ==> c.start < start || c.start + c.len > end
  }

  /** Multiples of p are at least p apart. */
  lemma AlignedApart(x: nat, y: nat, p: nat)
    requires Aligned(x, p) && Aligned(y, p) && x < y
    ensures x + p <= y
  {
    RoundDownIsMultiple(x, p);
    RoundDownIsMultiple(y, p);
    if x / p >= y / p { MulMono(y / p, x / p, p); }
    MulMono(x / p + 1, y / p, p);
    assert (x / p + 1) * p == x / p * p + p;
  }

  lemma PowersApart(j: nat, k: nat)
    requires Pow2(j) < Pow2(k)
    ensures j < k
  {
    if k <= j { Pow2Mono(k, j); }
  }

  /** A larger block around one that ends at a multiple of twice its length begins before that much. */
  lemma LargerBlock(c: Block, b: Block, j: nat, end: nat)
    requires Natural(c) && Contains(c, b) && b.len == Pow2(j) < c.len && end == b.start + b.len
    requires Aligned(end, Pow2(j + 1))
    ensures c.start + Pow2(j + 1) <= end
  {
    var m: nat :| c.len == Pow2(m);
    PowersApart(j, m);
    AlignedToSmaller(c.start, j + 1, m);
    AlignedApart(c.start, end, Pow2(j + 1));
  }

  /** Blocks cut off downwards from a multiple of a power of two above the length are maximal whatever is above. */
  lemma {:induction false} TilesDownMaximal(start: nat, len: nat, end: nat, k: nat, top: nat)
    requires len < Pow2(k) && end == start + len && Aligned(end, Pow2(k))
    ensures forall b :: b in TilesDown(start, len) ==> Maximal(b, start, top)
    decreases len
  {
    if len > 0 {
      var j, l := BitLength(len) - 1, SmallerPowerOf2(len);
      PowersApart(j, k);
      AlignedToSmaller(end, j + 1, k);
      var b := Block(end - l, l);
      forall c: Block | Natural(c) && c.len > b.len && Contains(c, b)
        ensures c.start < start || c.start + c.len > top
      {
        LargerBlock(c, b, j, end);
      }
      AlignedBelow(end, j);
      TilesDownMaximal(start, len - l, end - l, j, top);
      assert TilesDown(start, len) == [b] + TilesDown(start, len - l);
    }
  }

  lemma AlignedBelow(end: nat, j: nat)
    requires Aligned(end, Pow2(j + 1)) && end >= Pow2(j)
    ensures Aligned(end - Pow2(j), Pow2(j))
  {
    AlignedToSmaller(end, j, j + 1);
  }

  /** The pieces are the largest naturally aligned blocks that fit the span. */
  lemma {:induction false} TilesMaximal(start: nat, len: nat, end: nat)
    requires end == start + len
    ensures forall b :: b in Tiles(start, len) ==> Maximal(b, start, end)
    decreases len
  {
    if len > 0 {
      var aligned, k := BoundaryCalc(start, len), BitLength(len) - 1;
      var above, rest := start + aligned, len - aligned;
      TilesOf(start, len, aligned, above, rest);
      BoundaryIsAligned(start, len);
      BitLengthBounds(len);
      TilesMaximal(above, rest, end);
      MaximalParts(start, len, aligned, above, rest, k, end);
    }
  }

  lemma MaximalParts(start: nat, len: nat, aligned: nat, above: nat, rest: nat, k: nat, end: nat)
    requires 0 < aligned <= len < Pow2(k + 1) && above == start + aligned && above + rest == end == start + len
    requires Aligned(above, Pow2(k)) && forall b :: b in Tiles(above, rest) ==> Maximal(b, above, end)
    ensures forall b :: b in Tiles(above, rest) + TilesDown(start, aligned) ==> Maximal(b, start, end)
  {
    forall b | b in Tiles(above, rest)
      ensures Maximal(b, start, end)
    {
      MaximalAbove(b, start, len, above, rest, k, end);
    }
    MaximalBelow(start, len, aligned, above, k, end);
  }

  /** Blocks above the boundary: a larger block around one begins at the boundary at least. */
  lemma MaximalAbove(b: Block, start: nat, len: nat, above: nat, rest: nat, k: nat, end: nat)
    requires b in Tiles(above, rest) && Maximal(b, above, end) && above + rest == end == start + len
    requires Aligned(above, Pow2(k)) && len < Pow2(k + 1)
    ensures Maximal(b, start, end)
  {
    TilesInside(above, rest, b);
    forall c: Block | Natural(c) && c.len > b.len && Contains(c, b)
      ensures c.start < start || c.start + c.len > end
    {
      var m: nat :| c.len == Pow2(m);
      if m <= k {
        AlignedToSmaller(above, m, k);
        if c.start < above { AlignedApart(c.start, above, Pow2(m)); }
      } else {
        Pow2Mono(k + 1, m);
      }
    }
  }

  lemma {:induction false} TilesInside(start: nat, len: nat, b: Block)
    requires b in Tiles(start, len)
    ensures start <= b.start && 0 < b.len && b.start + b.len <= start + len
    decreases len
  {
    if len > 0 {
      var aligned := BoundaryCalc(start, len);
      var above, rest := start + aligned, len - aligned;
      TilesOf(start, len, aligned, above, rest);
      if b in Tiles(above, rest) { TilesInside(above, rest, b); } else { TilesDownInside(start, aligned, b); }
    }
  }

  lemma {:induction false} TilesDownInside(start: nat, len: nat, b: Block)
    requires b in TilesDown(start, len)
    ensures start <= b.start && 0 < b.len && b.start + b.len <= start + len
    decreases len
  {
    var l := SmallerPowerOf2(len);
    if b != Block(start + len - l, l) { TilesDownInside(start, len - l, b); }
  }

  lemma MaximalBelow(start: nat, len: nat, aligned: nat, above: nat, k: nat, end: nat)
    requires 0 < aligned <= len < Pow2(k + 1) && above == start + aligned && end == start + len
    requires Aligned(above, Pow2(k))
    ensures forall b :: b in TilesDown(start, aligned) ==> Maximal(b, start, end)
  {
    if aligned < Pow2(k) {
      TilesDownMaximal(start, aligned, above, k, end);
    } else {
      PowerBetween(aligned, k);
      var l := SmallerPowerOf2(aligned);
      var rest, low := aligned - l, above - l;
      TooLarge(Block(low, l), start, len, k, end);
      AlignedLess(above, low, Pow2(k));
      TilesDownMaximal(start, rest, low, k, end);
      TilesDownTop(start, aligned, l, rest, low);
    }
  }

  lemma TilesDownTop(start: nat, len: nat, l: nat, rest: nat, low: nat)
    requires len > 0 && l == SmallerPowerOf2(len) && rest == len - l && low == start + rest
    ensures TilesDown(start, len) == [Block(low, l)] + TilesDown(start, rest)
  {
  }

  lemma AlignedLess(x: nat, y: nat, p: nat)
    requires Aligned(x, p) && x == y + p
    ensures Aligned(y, p)
  {
    assert RoundDown(x, p) == p + RoundDown(x - p, p);
  }

  /** A block of the largest power of two that fits the length is maximal. */
  lemma TooLarge(b: Block, start: nat, len: nat, k: nat, end: nat)
    requires b.len == Pow2(k) && len < Pow2(k + 1) && end == start + len
    ensures Maximal(b, start, end)
  {
    forall c: Block | Natural(c) && c.len > b.len && Contains(c, b)
      ensures c.start < start || c.start + c.len > end
    {
      var m: nat :| c.len == Pow2(m);
      PowersApart(k, m);
      Pow2Mono(k + 1, m);
    }
  }

  lemma PowerBetween(n: nat, k: nat)
    requires Pow2(k) <= n < Pow2(k + 1)
    ensures SmallerPowerOf2(n) == Pow2(k)
  {
    BitLengthBounds(n);
    PowersApart(k, BitLength(n));
    PowersApart(BitLength(n) - 1, k + 1);
  }

  lemma {:induction false} TilesDownBounded(start: nat, len: nat)
    ensures forall b :: b in TilesDown(start, len) ==> 0 < b.len <= len
    decreases len
  {
    if len > 0 { TilesDownBounded(start, len - SmallerPowerOf2(len)); }
  }

  lemma {:induction false} TilesBounded(start: nat, len: nat)
    ensures forall b :: b in Tiles(start, len) ==> 0 < b.len <= len
    decreases len
  {
    if len > 0 {
      var aligned := BoundaryCalc(start, len);
      var above, rest := start + aligned, len - aligned;
      TilesOf(start, len, aligned, above, rest);
      TilesBounded(above, rest);
      TilesDownBounded(start, aligned);
    }
  }

  // Free lists: list i holds the addresses of blocks of 2^i words, the latest first

  function Total(blocks: seq<Block>): nat {
    if blocks == [] then 0 else blocks[0].len + Total(blocks[1..])
  }

  lemma {:induction false} TotalConcat(a: seq<Block>, b: seq<Block>)
    ensures Total(a + b) == Total(a) + Total(b)
  {
    if a == [] {
      assert a + b == b;
    } else {
      assert (a + b)[1..] == a[1..] + b;
      TotalConcat(a[1..], b);
    }
  }

  lemma {:induction false} TilesDownTotal(start: nat, len: nat)
    ensures Total(TilesDown(start, len)) == len
    decreases len
  {
    if len > 0 {
      var l := SmallerPowerOf2(len);
      TilesDownTotal(start, len - l);
      assert TilesDown(start, len)[1..] == TilesDown(start, len - l);
    }
  }

  lemma {:induction false} TilesTotal(start: nat, len: nat)
    ensures Total(Tiles(start, len)) == len
    decreases len
  {
    if len > 0 {
      var aligned := BoundaryCalc(start, len);
      var above, rest := start + aligned, len - aligned;
      TilesOf(start, len, aligned, above, rest);
      TilesTotal(above, rest);
      TilesDownTotal(start, aligned);
      TotalConcat(Tiles(above, rest), TilesDown(start, aligned));
    }
  }

  /** The blocks that a free list stands for. */
  function Blocks(addrs: seq<nat>, size: nat): (bs: seq<Block>)
    ensures |bs| == |addrs| && forall i :: 0 <= i < |addrs| ==> bs[i] == Block(addrs[i], size)
  {
    seq(|addrs|, i requires 0 <= i < |addrs| => Block(addrs[i], size))
  }

  /** All queued blocks. */
  function Queued(lists: seq<seq<nat>>): seq<Block> {
    if lists == [] then [] else Queued(lists[..|lists| - 1]) + Blocks(lists[|lists| - 1], Pow2(|lists| - 1))
  }

  lemma {:induction false} PushQueues(lists: seq<seq<nat>>, i: nat, a: nat, w: nat)
    requires i < |lists|
    ensures Count(Queued(lists[i := [a] + lists[i]]), w) == Count(Queued(lists), w) + Covers(Block(a, Pow2(i)), w)
    ensures Total(Queued(lists[i := [a] + lists[i]])) == Total(Queued(lists)) + Pow2(i)
  {
    var n := |lists| - 1;
    var lists' := lists[i := [a] + lists[i]];
    CountConcat(Queued(lists[..n]), Blocks(lists[n], Pow2(n)), w);
    CountConcat(Queued(lists'[..n]), Blocks(lists'[n], Pow2(n)), w);
    TotalConcat(Queued(lists[..n]), Blocks(lists[n], Pow2(n)));
    TotalConcat(Queued(lists'[..n]), Blocks(lists'[n], Pow2(n)));
    if i == n {
      assert lists'[..n] == lists[..n];
      assert Blocks(lists'[n], Pow2(n))[1..] == Blocks(lists[n], Pow2(n));
    } else {
      assert lists'[..n] == lists[..n][i := [a] + lists[..n][i]];
      PushQueues(lists[..n], i, a, w);
    }
  }

  /** The list that holds blocks of len words, for a power of two from 2 up. */
  function ListOf(len: nat): nat
    requires len >= 2
  {
    BitLength(len - 1)
  }

  lemma {:induction false} BitLengthBelowPower(k: nat)
    ensures BitLength(Pow2(k) - 1) == k && BitLength(Pow2(k)) == k + 1
  {
    if k > 0 {
      BitLengthBelowPower(k - 1);
      assert (Pow2(k) - 1) / 2 == Pow2(k - 1) - 1 && Pow2(k) / 2 == Pow2(k - 1);
    }
  }

  lemma ListOfPower(len: nat)
    requires len >= 2 && IsPowerOf2(len)
    ensures ListOf(len) > 0 && Pow2(ListOf(len)) == len
  {
    var k: nat :| len == Pow2(k);
    BitLengthBelowPower(k);
  }

  lemma PowerFitsLists(len: nat, maxLength: nat)
    requires 2 <= len <= maxLength && IsPowerOf2(len)
    ensures ListOf(len) < BitLength(maxLength)
  {
    var k: nat :| len == Pow2(k);
    BitLengthBelowPower(k);
    BitLengthMono(len, maxLength);
  }

  /** addToFree on the lists: a one-word block is not queued. */
  function Queue(lists: seq<seq<nat>>, b: Block): seq<seq<nat>> {
    if b.len >= 2 && ListOf(b.len) < |lists| then lists[ListOf(b.len) := [b.start] + lists[ListOf(b.len)]] else lists
  }

  function QueueAll(lists: seq<seq<nat>>, bs: seq<Block>): seq<seq<nat>>
    decreases |bs|
  {
    if bs == [] then lists else QueueAll(Queue(lists, bs[0]), bs[1..])
  }

  /** The one-word blocks. */
  function Leftovers(bs: seq<Block>): seq<Block> {
    if bs == [] then [] else (if bs[0].len < 2 then [bs[0]] else []) + Leftovers(bs[1..])
  }

  lemma {:induction false} QueueAllConcat(lists: seq<seq<nat>>, a: seq<Block>, b: seq<Block>)
    ensures QueueAll(lists, a + b) == QueueAll(QueueAll(lists, a), b)
    ensures Leftovers(a + b) == Leftovers(a) + Leftovers(b)
    decreases |a|
  {
    if a == [] {
      assert a + b == b;
    } else {
      assert (a + b)[1..] == a[1..] + b;
      QueueAllConcat(Queue(lists, a[0]), a[1..], b);
    }
  }

  /** The lists are well formed: list 0 is empty and every block is aligned to its size. */
  ghost predicate ListsNatural(lists: seq<seq<nat>>) {
    && (|lists| > 0 ==> lists[0] == [])
    && forall i, j :: 0 <= i < |lists| && 0 <= j < |lists[i]| ==> Aligned(lists[i][j], Pow2(i))
  }

  ghost predicate Queueable(bs: seq<Block>, maxLength: nat) {
    forall b :: b in bs ==> Natural(b) && 0 < b.len <= maxLength
  }

  lemma QueueOne(lists: seq<seq<nat>>, b: Block, maxLength: nat, w: nat)
    requires |lists| == BitLength(maxLength) && ListsNatural(lists) && Natural(b) && 0 < b.len <= maxLength
    ensures |Queue(lists, b)| == |lists| && ListsNatural(Queue(lists, b))
    ensures Count(Queued(Queue(lists, b)), w) + Count(Leftovers([b]), w) == Count(Queued(lists), w) + Covers(b, w)
    ensures Total(Queued(Queue(lists, b))) + Total(Leftovers([b])) == Total(Queued(lists)) + b.len
  {
    assert [b][1..] == [];
    if b.len >= 2 {
      ListOfPower(b.len);
      PowerFitsLists(b.len, maxLength);
      PushQueues(lists, ListOf(b.len), b.start, w);
      assert Leftovers([b]) == [];
    } else {
      assert Leftovers([b]) == [b];
    }
  }

  lemma LeftoversStep(bs: seq<Block>, b: Block, rest: seq<Block>)
    requires bs != [] && b == bs[0] && rest == bs[1..]
    ensures Leftovers(bs) == Leftovers([b]) + Leftovers(rest)
  {
    assert bs == [b] + rest;
    QueueAllConcat([], [b], rest);
  }

  /** Queuing blocks conserves words: each is on a list or left over. */
  lemma {:induction false} QueueAllConserves(lists: seq<seq<nat>>, bs: seq<Block>, maxLength: nat, w: nat)
    requires |lists| == BitLength(maxLength) && ListsNatural(lists) && Queueable(bs, maxLength)
    ensures |QueueAll(lists, bs)| == |lists| && ListsNatural(QueueAll(lists, bs))
    ensures Count(Queued(QueueAll(lists, bs)), w) + Count(Leftovers(bs), w) == Count(Queued(lists), w) + Count(bs, w)
    ensures Total(Queued(QueueAll(lists, bs))) + Total(Leftovers(bs)) == Total(Queued(lists)) + Total(bs)
    decreases |bs|
  {
    if bs != [] {
      var b, rest := bs[0], bs[1..];
      var lists' := Queue(lists, b);
      QueueOne(lists, b, maxLength, w);
      QueueAllConserves(lists', rest, maxLength, w);
      LeftoversStep(bs, b, rest);
      CountConcat(Leftovers([b]), Leftovers(rest), w);
      TotalConcat(Leftovers([b]), Leftovers(rest));
    }
  }

  lemma {:induction false} LeftoversAreWords(bs: seq<Block>)
    requires forall b :: b in bs ==> b.len > 0
    ensures forall b :: b in Leftovers(bs) ==> b.len == 1
  {
    if bs != [] { LeftoversAreWords(bs[1..]); }
  }

  lemma PowerAtMost(p: nat, n: nat)
    requires IsPowerOf2(p) && p <= n
    ensures n > 0 && p <= SmallerPowerOf2(n)
  {
    var k: nat :| p == Pow2(k);
    BitLengthBelowPower(k);
    BitLengthMono(p, n);
    Pow2Mono(k, BitLength(n) - 1);
  }

  /** The tiles of a remainder of a page can all be queued, but for the one-word ones. */
  lemma TilesQueueable(start: nat, len: nat, pageWords: nat, maxLength: nat)
    requires len <= pageWords && 0 < pageWords && SmallerPowerOf2(pageWords) <= maxLength
    ensures Queueable(Tiles(start, len), maxLength)
  {
    TilesNatural(start, len);
    TilesBounded(start, len);
    forall b | b in Tiles(start, len)
      ensures b.len <= maxLength
    {
      PowerAtMost(b.len, pageWords);
    }
  }

  lemma SpanIsTiled(start: nat, len: nat, pageWords: nat, maxLength: nat)
    requires len <= pageWords && 0 < pageWords && SmallerPowerOf2(pageWords) <= maxLength
    ensures Queueable(Tiles(start, len), maxLength) && Total(Tiles(start, len)) == len
    ensures forall w :: Count(Tiles(start, len), w) == Covers(Block(start, len), w)
  {
    TilesQueueable(start, len, pageWords, maxLength);
    TilesTotal(start, len);
    forall w: nat ensures Count(Tiles(start, len), w) == Covers(Block(start, len), w) { TilesCover(start, len, w); }
  }

  /** Every word of the pages is in exactly one returned block, queued block, remnant or block in hand. */
  ghost predicate Balanced(pages: seq<Block>, returned: seq<Block>, lists: seq<seq<nat>>, remnants: seq<Block>,
                           inHand: seq<Block>) {
    && (forall w :: Count(pages, w) <= 1)
    && (forall w ::
          Count(pages, w) == Count(returned, w) + Count(Queued(lists), w) + Count(remnants, w) + Count(inHand, w))
    && Total(pages) == Total(returned) + Total(Queued(lists)) + Total(remnants) + Total(inHand)
  }

  lemma OneBlock(b: Block, w: nat)
    ensures Count([b], w) == Covers(b, w) && Total([b]) == b.len
  {
    assert [b][1..] == [];
  }

  /** A block popped from a list is in hand. */
  lemma BalancedPop(pages: seq<Block>, returned: seq<Block>, lists: seq<seq<nat>>, remnants: seq<Block>, i: nat, a: nat)
    requires i < |lists| && Balanced(pages, returned, lists[i := [a] + lists[i]], remnants, [])
    ensures Balanced(pages, returned, lists, remnants, [Block(a, Pow2(i))])
  {
    forall w: nat
      ensures Count(pages, w)
             == Count(returned, w) + Count(Queued(lists), w) + Count(remnants, w) + Count([Block(a, Pow2(i))], w)
    {
      PushQueues(lists, i, a, w);
      OneBlock(Block(a, Pow2(i)), w);
    }
    PushQueues(lists, i, a, 0);
    OneBlock(Block(a, Pow2(i)), 0);
  }

  /** A fresh page is in hand. */
  lemma BalancedPage(pages: seq<Block>, returned: seq<Block>, lists: seq<seq<nat>>, remnants: seq<Block>, page: Block)
    requires Balanced(pages, returned, lists, remnants, [])
    requires forall w :: page.start <= w < page.start + page.len ==> Count(pages, w) == 0
    ensures Balanced(pages + [page], returned, lists, remnants, [page])
  {
    forall w: nat
      ensures Count(pages + [page], w) <= 1
      ensures Count(pages + [page], w)
             == Count(returned, w) + Count(Queued(lists), w) + Count(remnants, w) + Count([page], w)
    {
      CountConcat(pages, [page], w);
      OneBlock(page, w);
    }
    TotalConcat(pages, [page]);
    OneBlock(page, 0);
  }

  /** What becomes of word w of a block in hand that is split in a part returned and tiles queued. */
  lemma SplitWord(returned: seq<Block>, lists: seq<seq<nat>>, remnants: seq<Block>,
                  ptr: nat, size: nat, total: nat, tiles: seq<Block>, maxLength: nat, w: nat)
    requires total <= size && |lists| == BitLength(maxLength) && ListsNatural(lists) && Queueable(tiles, maxLength)
    requires Count(tiles, w) == Covers(Block(ptr + total, size - total), w)
    ensures Count(returned + [Block(ptr, total)], w) + Count(Queued(QueueAll(lists, tiles)), w)
            + Count(remnants + Leftovers(tiles), w)
            == Count(returned, w) + Count(Queued(lists), w) + Count(remnants, w) + Count([Block(ptr, size)], w)
  {
    QueueAllConserves(lists, tiles, maxLength, w);
    CountConcat(returned, [Block(ptr, total)], w);
    CountConcat(remnants, Leftovers(tiles), w);
    OneBlock(Block(ptr, total), w);
    OneBlock(Block(ptr, size), w);
  }

  lemma SplitTotal(returned: seq<Block>, lists: seq<seq<nat>>, remnants: seq<Block>,
                   ptr: nat, size: nat, total: nat, tiles: seq<Block>, maxLength: nat)
    requires total <= size && |lists| == BitLength(maxLength) && ListsNatural(lists) && Queueable(tiles, maxLength)
    requires Total(tiles) == size - total
    ensures Total(returned + [Block(ptr, total)]) + Total(Queued(QueueAll(lists, tiles)))
          + Total(remnants + Leftovers(tiles))
            == Total(returned) + Total(Queued(lists)) + Total(remnants) + Total([Block(ptr, size)])
  {
    QueueAllConserves(lists, tiles, maxLength, 0);
    TotalConcat(returned, [Block(ptr, total)]);
    TotalConcat(remnants, Leftovers(tiles));
    OneBlock(Block(ptr, total), 0);
    OneBlock(Block(ptr, size), 0);
  }

  /** The block in hand is split: its first part is returned and the tiles of the rest are queued. */
  lemma BalancedSplit(pages: seq<Block>, returned: seq<Block>, lists: seq<seq<nat>>, remnants: seq<Block>,
                      ptr: nat, size: nat, total: nat, above: nat, rest: nat, tiles: seq<Block>, maxLength: nat)
    requires Balanced(pages, returned, lists, remnants, [Block(ptr, size)])
    requires total <= size && above == ptr + total && rest == size - total
    requires |lists| == BitLength(maxLength) && ListsNatural(lists) && Queueable(tiles, maxLength)
    requires forall w :: Count(tiles, w) == Covers(Block(above, rest), w)
    requires Total(tiles) == rest
    ensures Balanced(pages, returned + [Block(ptr, total)], QueueAll(lists, tiles), remnants + Leftovers(tiles), [])
    ensures |QueueAll(lists, tiles)| == |lists| && ListsNatural(QueueAll(lists, tiles))
  {
    forall w: nat
      ensures Count(pages, w) == Count(returned + [Block(ptr, total)], w) + Count(Queued(QueueAll(lists, tiles)), w)
                                 + Count(remnants + Leftovers(tiles), w)
    {
      SplitWord(returned, lists, remnants, ptr, size, total, tiles, maxLength, w);
    }
    SplitTotal(returned, lists, remnants, ptr, size, total, tiles, maxLength);
    QueueAllConserves(lists, tiles, maxLength, 0);
  }

  /** Queuing all tiles of a span is queuing those of its upper part, then those of its aligned part. */
  lemma QueueTiles(lists: seq<seq<nat>>, start: nat, len: nat, aligned: nat, above: nat, rest: nat, maxLength: nat)
    requires len > 0 && aligned == BoundaryCalc(start, len) && above == start + aligned && rest == len - aligned
    requires Queueable(Tiles(start, len), maxLength)
    ensures Queueable(Tiles(above, rest), maxLength) && Queueable(TilesDown(start, aligned), maxLength)
    ensures QueueAll(lists, Tiles(start, len))
         == QueueAll(QueueAll(lists, Tiles(above, rest)), TilesDown(start, aligned))
  {
    TilesOf(start, len, aligned, above, rest);
    QueueAllConcat(lists, Tiles(above, rest), TilesDown(start, aligned));
  }

  lemma QueueNone(lists: seq<seq<nat>>, start: nat, len: nat)
    requires len == 0
    ensures QueueAll(lists, Tiles(start, len)) == lists
  {
  }

  /** One round of cutting blocks off the end. */
  lemma QueueLast(lists: seq<seq<nat>>, start: nat, len: nat, l: nat, end: nat, maxLength: nat)
    requires len > 0 && l == SmallerPowerOf2(len) && end == len - l && Queueable(TilesDown(start, len), maxLength)
    ensures IsPowerOf2(l) && l <= maxLength && Queueable(TilesDown(start, len)[1..], maxLength)
    ensures TilesDown(start, len)[1..] == TilesDown(start, end)
    ensures QueueAll(lists, TilesDown(start, len))
         == QueueAll(Queue(lists, Block(start + end, l)), TilesDown(start, len)[1..])
  {
    var tiles := TilesDown(start, len);
    assert tiles[0] == Block(start + end, l);
    assert tiles[0] in tiles;
  }

  lemma PoppedListsNatural(lists: seq<seq<nat>>, i: nat, a: nat)
    requires i < |lists| && ListsNatural(lists[i := [a] + lists[i]])
    ensures ListsNatural(lists)
  {
    var pushed := lists[i := [a] + lists[i]];
    forall k, j | 0 <= k < |lists| && 0 <= j < |lists[k]|
      ensures Aligned(lists[k][j], Pow2(k))
    {
      if k == i { assert pushed[k][j + 1] == lists[k][j]; } else { assert pushed[k][j] == lists[k][j]; }
    }
    assert pushed[0] == [];
  }

  lemma EmptyLists(lists: seq<seq<nat>>)
    requires forall i :: 0 <= i < |lists| ==> lists[i] == []
    ensures ListsNatural(lists) && Queued(lists) == []
  {
    if lists != [] { EmptyLists(lists[..|lists| - 1]); }
  }

  /** The size of the block that a search of the lists from index on yields. */
  function BlockSize(lists: seq<seq<nat>>, index: nat, pageWords: nat): nat
    decreases |lists| - index
  {
    if index >= |lists| then pageWords
    else if lists[index] != [] then Pow2(index)
    else BlockSize(lists, index + 1, pageWords)
  }

  lemma {:induction false} BlockSizeAt(lists: seq<seq<nat>>, index: nat, j: nat, pageWords: nat)
    requires index <= j < |lists| && lists[j] != [] && forall i :: index <= i < j ==> lists[i] == []
    ensures BlockSize(lists, index, pageWords) == Pow2(j)
    decreases j - index
  {
    if index < j { BlockSizeAt(lists, index + 1, j, pageWords); }
  }

  lemma {:induction false} BlockSizeOfPage(lists: seq<seq<nat>>, index: nat, pageWords: nat)
    requires forall i :: index <= i < |lists| ==> lists[i] == []
    ensures BlockSize(lists, index, pageWords) == pageWords
    decreases |lists| - index
  {
    if index < |lists| { BlockSizeOfPage(lists, index + 1, pageWords); }
  }

  lemma {:induction false} FirstBlock(lists: seq<seq<nat>>, index: nat) returns (j: nat)
    requires exists k :: index <= k < |lists| && lists[k] != []
    ensures index <= j < |lists| && lists[j] != [] && forall i :: index <= i < j ==> lists[i] == []
    decreases |lists| - index
  {
    j := index;
    if lists[index] == [] { j := FirstBlock(lists, index + 1); }
  }

  class GlobalArena {
    const maxLength: nat
    const pageWords: nat
    var freeLists: seq<seq<nat>>

    /** What happened so far: the pages obtained, the blocks handed out, the one-word remnants. */
    ghost var pages: seq<Block>
    ghost var returned: seq<Block>
    ghost var remnants: seq<Block>

    ghost predicate Configured()
      reads this
    {
      && 2 <= maxLength <= pageWords && SmallerPowerOf2(pageWords) <= maxLength
      && |freeLists| == BitLength(maxLength)
    }

    ghost predicate Valid()
      reads this
    {
      && Configured() && ListsNatural(freeLists)
      && (forall b :: b in remnants ==> b.len == 1)
      && Balanced(pages, returned, freeLists, remnants, [])
    }

    constructor (maxLength: nat, pageWords: nat)
      requires 2 <= maxLength <= pageWords && SmallerPowerOf2(pageWords) <= maxLength
      ensures Valid() && pages == [] && returned == [] && remnants == []
      ensures this.maxLength == maxLength && this.pageWords == pageWords
    {
      this.maxLength, this.pageWords := maxLength, pageWords;
      freeLists := seq(BitLength(maxLength), i => []);
      pages, returned, remnants := [], [], [];
      new;
      EmptyLists(freeLists);
    }

    /** findAllocationList: 0 for a request beyond the maximum. */
    function FindAllocationList(target: nat): nat {
      if target > maxLength then 0
      else if target < 2 then 1
      else BitLength(target - 1)
    }

    /** The list found is the first one whose blocks are large enough; blocks of one word have no list. */
    lemma ListFoundFits(target: nat)
      requires target <= maxLength
      ensures 1 <= FindAllocationList(target) && target <= Pow2(FindAllocationList(target))
      ensures forall i: nat :: 1 <= i && target <= Pow2(i) ==> FindAllocationList(target) <= i
    {
      if target >= 2 {
        BitLengthBounds(target - 1);
        forall i: nat | 1 <= i < FindAllocationList(target)
          ensures Pow2(i) < target
        {
          Pow2Mono(i, FindAllocationList(target) - 1);
        }
      }
    }

    /** addToFree: queues a block on its list; a one-word block only gets a header. */
    method AddToFree(len: nat, ptr: nat)
      requires IsPowerOf2(len) && len <= maxLength && |freeLists| == BitLength(maxLength)
      modifies this`freeLists
      ensures freeLists == Queue(old(freeLists), Block(ptr, len))
    {
      if len >= 2 {
        var freeListIndex := FindAllocationList(len);
        ListOfPower(len);
        PowerFitsLists(len, maxLength);
        if freeListIndex > 0 {
          freeLists := freeLists[freeListIndex := [ptr] + freeLists[freeListIndex]];
        }
      }
    }

    /** getSlice: the latest block of a list. */
    method GetSlice(index: nat) returns (slice: Option<nat>)
      requires index < |freeLists|
      modifies this`freeLists
      ensures |freeLists| == |old(freeLists)|
      ensures slice.None? <==> old(freeLists)[index] == []
      ensures slice.None? ==> freeLists == old(freeLists)
      ensures slice.Some? ==> old(freeLists) == freeLists[index := [slice.value] + freeLists[index]]
    {
      if freeLists[index] == [] { return None; }
      slice := Some(freeLists[index][0]);
      ghost var lists := freeLists;
      freeLists := freeLists[index := freeLists[index][1..]];
      assert [slice.value] + freeLists[index] == lists[index];
    }

    /** freeToList: queues the tiles of a span. Of an empty span, unless at address 0, the unsigned
        subtraction in boundaryCalc fails. */
    method FreeToList(start: nat, len: nat) returns (ok: bool)
      requires Queueable(Tiles(start, len), maxLength) && |freeLists| == BitLength(maxLength)
      modifies this`freeLists
      ensures ok <==> len > 0 || start == 0
      ensures freeLists == QueueAll(old(freeLists), Tiles(start, len)) && |freeLists| == |old(freeLists)|
      decreases len
    {
      ok := BoundaryRaw(start, len) >= 0;
      if len == 0 {
        QueueNone(freeLists, start, len);
        return;
      }
      var alignedLen := BoundaryCalc(start, len);
      var above, rest := start + alignedLen, len - alignedLen;
      QueueTiles(freeLists, start, len, alignedLen, above, rest, maxLength);
      if alignedLen < len {
        ok := FreeToList(above, rest);
      } else {
        QueueNone(freeLists, above, rest);
      }
      FreeDown(start, alignedLen);
    }

    /** The loop of freeToList: cuts blocks off the end of the aligned part. */
    method FreeDown(start: nat, len: nat)
      requires Queueable(TilesDown(start, len), maxLength) && |freeLists| == BitLength(maxLength)
      modifies this`freeLists
      ensures freeLists == QueueAll(old(freeLists), TilesDown(start, len)) && |freeLists| == |old(freeLists)|
    {
      var free := len;
      ghost var tiles := TilesDown(start, len);
      ghost var filed := QueueAll(freeLists, tiles);
      while free > 0
        invariant 0 <= free <= len && |freeLists| == BitLength(maxLength)
        invariant tiles == TilesDown(start, free) && Queueable(tiles, maxLength)
        invariant QueueAll(freeLists, tiles) == filed
      {
        var l := SmallerPowerOf2(free);
        var end := free - l;
        QueueLast(freeLists, start, free, l, end, maxLength);
        AddToFree(l, start + end);
        free, tiles := end, tiles[1..];
      }
    }

    /** The loop of rawAlloc: the latest block of the first list, from the right one on, that has any. */
    method PopBlock(from: nat) returns (ptr: Option<nat>, index: nat)
      modifies this`freeLists
      ensures ptr.None? ==> freeLists == old(freeLists) && forall i :: from <= i < |freeLists| ==> freeLists[i] == []
      ensures ptr.Some? ==>
                from <= index < |freeLists|
                && old(freeLists) == freeLists[index := [ptr.value] + freeLists[index]]
      ensures ptr.Some? ==> forall i :: from <= i < index ==> old(freeLists)[i] == []
    {
      index := from;
      while index < |freeLists|
        invariant from <= index && freeLists == old(freeLists)
        invariant forall i :: from <= i < index && i < |freeLists| ==> freeLists[i] == []
        decreases |freeLists| - index
      {
        ptr := GetSlice(index);
        if ptr.Some? { return; }
        index := index + 1;
      }
      ptr := None;
    }

    /** The first half of rawAlloc: a block popped from the lists, or a fresh page. */
    method TakeBlock(totalSize: nat, page: nat) returns (ptr: nat, size: nat)
      requires Valid() && totalSize <= maxLength
      requires forall w :: page <= w < page + pageWords ==> Count(pages, w) == 0
      modifies this`freeLists, this`pages
      ensures Configured() && ListsNatural(freeLists) && totalSize <= size <= pageWords && size > 0
      ensures size == BlockSize(old(freeLists), FindAllocationList(totalSize), pageWords)
      ensures Balanced(pages, returned, freeLists, remnants, [Block(ptr, size)])
      ensures pages == old(pages) || (pages == old(pages) + [Block(page, pageWords)] && ptr == page)
      ensures pages != old(pages) ==>
        forall i :: FindAllocationList(totalSize) <= i < |old(freeLists)| ==> old(freeLists)[i] == []
    {
      var from := FindAllocationList(totalSize);
      ListFoundFits(totalSize);
      var block, index := PopBlock(from);
      if block.Some? {
        ptr, size := block.value, Pow2(index);
        BlockSizeAt(old(freeLists), from, index, pageWords);
        BalancedPop(pages, returned, freeLists, remnants, index, ptr);
        PoppedListsNatural(freeLists, index, ptr);
        Pow2Mono(from, index);
        ListBlockFits(index, maxLength);
      } else {
        ptr, size := page, pageWords;
        BlockSizeOfPage(freeLists, from, pageWords);
        BalancedPage(pages, returned, freeLists, remnants, Block(page, pageWords));
        pages := pages + [Block(page, pageWords)];
      }
    }

    /** The end of rawAlloc: frees what the request leaves over of the block in hand. */
    method FreeRemainder(ptr: nat, size: nat, totalSize: nat) returns (ok: bool)
      requires Configured() && ListsNatural(freeLists) && totalSize <= size <= pageWords
      requires Balanced(pages, returned, freeLists, remnants, [Block(ptr, size)])
      requires forall b :: b in remnants ==> b.len == 1
      modifies this`freeLists, this`returned, this`remnants
      ensures ok <==> totalSize < size || ptr + totalSize == 0
      ensures ok ==> Valid() && returned == old(returned) + [Block(ptr, totalSize)]
      ensures !ok ==> freeLists == old(freeLists) && returned == old(returned) && remnants == old(remnants)
    {
      var above, rest := ptr + totalSize, size - totalSize;
      ghost var tiles := Tiles(above, rest);
      SpanIsTiled(above, rest, pageWords, maxLength);
      ghost var handedOut, lost := returned + [Block(ptr, totalSize)], remnants + Leftovers(tiles);
      BalancedSplit(pages, returned, freeLists, remnants, ptr, size, totalSize, above, rest, tiles, maxLength);
      LeftoversAreWords(tiles);
      ok := FreeSplit(above, rest, handedOut, lost);
    }

    method FreeSplit(start: nat, len: nat, ghost handedOut: seq<Block>, ghost lost: seq<Block>) returns (ok: bool)
      requires Configured() && Queueable(Tiles(start, len), maxLength)
      requires ListsNatural(QueueAll(freeLists, Tiles(start, len))) && forall b :: b in lost ==> b.len == 1
      requires Balanced(pages, handedOut, QueueAll(freeLists, Tiles(start, len)), lost, [])
      modifies this`freeLists, this`returned, this`remnants
      ensures ok <==> len > 0 || start == 0
      ensures ok ==> Valid() && returned == handedOut
      ensures !ok ==> freeLists == old(freeLists) && returned == old(returned) && remnants == old(remnants)
    {
      ghost var lists, obtained := QueueAll(freeLists, Tiles(start, len)), pages;
      assert Balanced(obtained, handedOut, lists, lost, []);
      ok := FreeToList(start, len);
      if ok {
        returned, remnants := handedOut, lost;
        assert pages == obtained && freeLists == lists;
      } else {
        QueueNone(old(freeLists), start, len);
      }
    }

    /** rawAlloc: takes a block and frees what the request leaves over. page is where a fresh page would be
        mapped. It fails, with the block still in hand, exactly when the block has just the words asked for. */
    method RawAlloc(totalSize: nat, page: nat) returns (ok: bool, ptr: nat)
      requires Valid() && totalSize <= maxLength
      requires forall w :: page <= w < page + pageWords ==> Count(pages, w) == 0
      modifies this
      ensures ok <==> totalSize != BlockSize(old(freeLists), FindAllocationList(totalSize), pageWords)
      ensures ok ==> Valid() && returned == old(returned) + [Block(ptr, totalSize)]
      ensures !ok ==>
                returned == old(returned)
                && Balanced(pages, returned, freeLists, remnants, [Block(ptr, totalSize)])
      ensures pages == old(pages) || (pages == old(pages) + [Block(page, pageWords)] && ptr == page)
      ensures pages != old(pages) ==>
        forall i :: FindAllocationList(totalSize) <= i < |old(freeLists)| ==> old(freeLists)[i] == []
    {
      var size;
      ptr, size := TakeBlock(totalSize, page);
      ok := FreeRemainder(ptr, size, totalSize);
    }

    /** A request gets exactly its words, and so fails, when it is a power of two whose own list has a block,
        or the size of a page when none of the lists searched has any. */
    lemma ExactFitIff(totalSize: nat)
      requires Valid() && totalSize <= maxLength
      ensures var i := FindAllocationList(totalSize);
              (BlockSize(freeLists, i, pageWords) == totalSize
               <==> if exists j :: i <= j < |freeLists| && freeLists[j] != []
                    then i < |freeLists| && freeLists[i] != [] && Pow2(i) == totalSize
                    else totalSize == pageWords)
    {
      ListFoundFits(totalSize);
      var i := FindAllocationList(totalSize);
      if exists j :: i <= j < |freeLists| && freeLists[j] != [] {
        var j := FirstBlock(freeLists, i);
        BlockSizeAt(freeLists, i, j, pageWords);
        if i < j { Pow2Mono(i + 1, j); }
      } else {
        BlockSizeOfPage(freeLists, i, pageWords);
      }
    }

    /** freeSpace: the words on all lists: what was obtained less what was handed out or lost. */
    method FreeSpace() returns (sum: nat)
      requires Valid()
      ensures sum == Total(pages) - Total(returned) - Total(remnants)
    {
      sum := 0;
      for i := 0 to |freeLists|
        invariant sum == Total(Queued(freeLists[..i]))
      {
        assert freeLists[..i + 1][..i] == freeLists[..i];
        TotalConcat(Queued(freeLists[..i]), Blocks(freeLists[i], Pow2(i)));
        TotalOfList(freeLists[i], Pow2(i));
        sum := sum + Pow2(i) * |freeLists[i]|;
      }
      assert freeLists[..|freeLists|] == freeLists;
    }

    /** No two blocks handed out or waiting share a word. */
    lemma WordHasOneOwner(w: nat)
      requires Valid()
      ensures Count(returned, w) + Count(Queued(freeLists), w) + Count(remnants, w) <= 1
      ensures Count(pages, w) == 1 <==> Count(returned, w) + Count(Queued(freeLists), w) + Count(remnants, w) == 1
    {
    }
  }

  /** The free lists of a new arena, whose pages have 16 words. */
  predicate NoBlocks(lists: seq<seq<nat>>) {
    |lists| == 5 && forall i :: 0 <= i < 5 ==> lists[i] == []
  }

  lemma TwelveWords(start: nat, len: nat, b: Block, c: Block)
    requires start == 20 && len == 12 && b == Block(24, 8) && c == Block(20, 4)
    ensures Tiles(start, len) == [b, c]
  {
    assert SmallerPowerOf2(12) == 8 && SmallerPowerOf2(4) == 4;
    assert RoundDown(32, 8) == 32;
    assert Tiles(20, 12) == TilesDown(20, 12);
  }

  lemma QueueTwo(lists: seq<seq<nat>>, b: Block, c: Block)
    ensures QueueAll(lists, [b, c]) == Queue(Queue(lists, b), c)
  {
    assert [b, c][1..] == [c] && [c][1..] == [];
    assert QueueAll(Queue(lists, b), [c]) == QueueAll(Queue(Queue(lists, b), c), []);
  }

  lemma QueueOnEmpty(lists: seq<seq<nat>>, b: Block, k: nat)
    requires k < |lists| && lists[k] == [] && b.len >= 2 && k == ListOf(b.len)
    ensures Queue(lists, b) == lists[k := [b.start]]
  {
    assert [b.start] + lists[k] == [b.start];
  }

  lemma FirstRequest(lists: seq<seq<nat>>, b: Block, c: Block)
    requires NoBlocks(lists) && b == Block(24, 8) && c == Block(20, 4)
    ensures QueueAll(lists, [b, c]) == lists[3 := [b.start]][2 := [c.start]]
  {
    QueueTwo(lists, b, c);
    QueueOnEmpty(lists, b, 3);
    QueueOnEmpty(lists[3 := [b.start]], c, 2);
  }

  /** Of a page of 16 words at word 16 the first request for 4 words leaves a block of 4 words on the list for such
      requests, so that the second one fits exactly. */
  lemma SecondRequestFits(lists: seq<seq<nat>>, above: nat, rest: nat, i: nat)
    requires NoBlocks(lists) && above == 20 && rest == 12 && i == BitLength(4 - 1)
    ensures BlockSize(lists, i, 16) == 16 && BlockSize(QueueAll(lists, Tiles(above, rest)), i, 16) == 4
  {
    assert i == 2 && Pow2(2) == 4;
    BlockSizeOfPage(lists, i, 16);
    var b, c := Block(24, 8), Block(20, 4);
    TwelveWords(above, rest, b, c);
    FirstRequest(lists, b, c);
    BlockSizeAt(QueueAll(lists, [b, c]), i, i, 16);
  }

  /** A request for a whole page fits exactly when nothing is free. */
  lemma WholePageFits(lists: seq<seq<nat>>, i: nat)
    requires NoBlocks(lists) && i == BitLength(16 - 1)
    ensures BlockSize(lists, i, 16) == 16
  {
    BlockSizeOfPage(lists, i, 16);
  }

  lemma ListBlockFits(index: nat, maxLength: nat)
    requires index < BitLength(maxLength)
    ensures Pow2(index) <= maxLength
  {
    BitLengthBounds(maxLength);
    Pow2Mono(index, BitLength(maxLength) - 1);
  }

  lemma {:induction false} TotalOfList(addrs: seq<nat>, size: nat)
    ensures Total(Blocks(addrs, size)) == size * |addrs|
  {
    if addrs != [] {
      TotalOfList(addrs[1..], size);
      assert Blocks(addrs, size)[1..] == Blocks(addrs[1..], size);
      assert size * |addrs| == size * (|addrs| - 1) + size;
    }
  }
}
