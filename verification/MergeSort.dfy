/** The merge sort of ASTArrayedCollection: two buffers that swap roles at every level. */
module MergeSorts {

  // The sort on sequences

  /** Takes from b only what belongs strictly before the head of a. */
  function Merge<T>(a: seq<T>, b: seq<T>, less: (T, T) -> bool): seq<T> {
    if a == [] then b
    else if b == [] then a
    else if less(b[0], a[0]) then [b[0]] + Merge(a, b[1..], less)
    else [a[0]] + Merge(a[1..], b, less)
  }

  function Sort<T>(s: seq<T>, less: (T, T) -> bool): (r: seq<T>)
    ensures |r| == |s|
  {
    if |s| <= 1 then s else
      var h := (|s| + 1) / 2;
      MergeLength(Sort(s[..h], less), Sort(s[h..], less), less);
      Merge(Sort(s[..h], less), Sort(s[h..], less), less)
  }

  lemma MergeLength<T>(a: seq<T>, b: seq<T>, less: (T, T) -> bool)
    ensures |Merge(a, b, less)| == |a| + |b|
  {
  }

  ghost predicate StrictWeakOrder<T(!new)>(less: (T, T) -> bool) {
    && (forall x :: !less(x, x))
    && (forall x, y, z :: less(x, y) && less(y, z) ==> less(x, z))
    && (forall x, y, z :: !less(x, y) && !less(y, z) ==> !less(x, z))
  }

  ghost predicate Sorted<T>(s: seq<T>, less: (T, T) -> bool) {
    forall i, j :: 0 <= i < j < |s| ==> !less(s[j], s[i])
  }

  predicate Equivalent<T>(x: T, y: T, less: (T, T) -> bool) {
    !less(x, y) && !less(y, x)
  }

  /** The elements of s that rank equal to x, in their order. */
  function RankedLike<T>(s: seq<T>, x: T, less: (T, T) -> bool): seq<T> {
    if s == [] then []
    else OnlyIfLike(s[0], x, less) + RankedLike(s[1..], x, less)
  }

  lemma {:induction false} RankedLikeConcat<T>(a: seq<T>, b: seq<T>, x: T, less: (T, T) -> bool)
    ensures RankedLike(a + b, x, less) == RankedLike(a, x, less) + RankedLike(b, x, less)
  {
    if a == [] {
      assert a + b == b;
    } else {
      assert (a + b)[1..] == a[1..] + b && (a + b)[0] == a[0];
      RankedLikeConcat(a[1..], b, x, less);
      Associative(OnlyIfLike(a[0], x, less), RankedLike(a[1..], x, less), RankedLike(b, x, less));
    }
  }

  function OnlyIfLike<T>(h: T, x: T, less: (T, T) -> bool): seq<T> {
    if Equivalent(h, x, less) then [h] else []
  }

  lemma RankedLikeHead<T>(s: seq<T>, head: T, rest: seq<T>, x: T, less: (T, T) -> bool)
    requires |s| == |rest| + 1 && s[0] == head && s[1..] == rest
    ensures RankedLike(s, x, less) == OnlyIfLike(head, x, less) + RankedLike(rest, x, less)
  {
  }

  lemma {:induction false} NoneRankedLike<T>(s: seq<T>, x: T, less: (T, T) -> bool)
    requires forall i :: 0 <= i < |s| ==> !Equivalent(s[i], x, less)
    ensures RankedLike(s, x, less) == []
  {
    if s != [] { NoneRankedLike(s[1..], x, less); }
  }

  lemma {:induction false} MergePermutes<T>(a: seq<T>, b: seq<T>, less: (T, T) -> bool)
    ensures multiset(Merge(a, b, less)) == multiset(a) + multiset(b)
    decreases |a| + |b|
  {
    if a == [] || b == [] {
    } else if less(b[0], a[0]) {
      MergePermutes(a, b[1..], less);
      HeadAndRest(b, b[0], b[1..]);
      HeadAndRest(Merge(a, b, less), b[0], Merge(a, b[1..], less));
    } else {
      MergePermutes(a[1..], b, less);
      HeadAndRest(a, a[0], a[1..]);
      HeadAndRest(Merge(a, b, less), a[0], Merge(a[1..], b, less));
    }
  }

  lemma HeadAndRest<T>(s: seq<T>, head: T, rest: seq<T>)
    requires |s| == |rest| + 1 && s[0] == head && s[1..] == rest
    ensures multiset(s) == multiset{head} + multiset(rest)
  {
    assert s == [head] + rest;
  }

  /** The sort only rearranges, whatever the comparison block does. */
  lemma {:induction false} SortPermutes<T>(s: seq<T>, less: (T, T) -> bool)
    ensures multiset(Sort(s, less)) == multiset(s)
  {
    if |s| > 1 {
      var h := (|s| + 1) / 2;
      var l, r := s[..h], s[h..];
      SortPermutes(l, less);
      SortPermutes(r, less);
      MergePermutes(Sort(l, less), Sort(r, less), less);
      HalvesTogether(s, l, r, h);
    }
  }

  lemma HalvesTogether<T>(s: seq<T>, l: seq<T>, r: seq<T>, h: nat)
    requires h <= |s| && l == s[..h] && r == s[h..]
    ensures s == l + r && multiset(s) == multiset(l) + multiset(r)
  {
    assert s == l + r;
  }

  lemma SortedCons<T>(x: T, s: seq<T>, less: (T, T) -> bool)
    requires Sorted(s, less) && forall i :: 0 <= i < |s| ==> !less(s[i], x)
    ensures Sorted([x] + s, less)
  {
  }

  lemma SortedTail<T>(s: seq<T>, less: (T, T) -> bool)
    requires Sorted(s, less) && s != []
    ensures Sorted(s[1..], less)
    ensures forall i :: 0 <= i < |s| ==> i == 0 || !less(s[i], s[0])
  {
  }

  /** Every element of the merge comes from one of the inputs. */
  lemma MergeMembers<T>(a: seq<T>, b: seq<T>, less: (T, T) -> bool)
    ensures forall y :: y in Merge(a, b, less) ==> y in a || y in b
    decreases |a| + |b|
  {
    if a == [] || b == [] {
    } else if less(b[0], a[0]) {
      MergeMembers(a, b[1..], less);
    } else {
      MergeMembers(a[1..], b, less);
    }
  }

  lemma {:induction false} MergeSorted<T(!new)>(a: seq<T>, b: seq<T>, less: (T, T) -> bool)
    requires StrictWeakOrder(less) && Sorted(a, less) && Sorted(b, less)
    ensures Sorted(Merge(a, b, less), less)
    decreases |a| + |b|
  {
    if a == [] || b == [] {
    } else if less(b[0], a[0]) {
      SortedTail(b, less);
      SortedTail(a, less);
      MergeSorted(a, b[1..], less);
      var m := Merge(a, b[1..], less);
      MergeMembers(a, b[1..], less);
      HeadNotAbove(b[0], a, b[1..], m, less);
      SortedCons(b[0], m, less);
    } else {
      SortedTail(a, less);
      SortedTail(b, less);
      MergeSorted(a[1..], b, less);
      var m := Merge(a[1..], b, less);
      MergeMembers(a[1..], b, less);
      HeadNotAbove(a[0], a[1..], b, m, less);
      SortedCons(a[0], m, less);
    }
  }

  lemma HeadNotAbove<T(!new)>(x: T, a: seq<T>, b: seq<T>, m: seq<T>, less: (T, T) -> bool)
    requires StrictWeakOrder(less) && Sorted(a, less) && Sorted(b, less)
    requires forall y :: y in m ==> y in a || y in b
    requires a != [] ==> !less(a[0], x)
    requires b != [] ==> !less(b[0], x)
    ensures forall i :: 0 <= i < |m| ==> !less(m[i], x)
  {
    forall i | 0 <= i < |m|
      ensures !less(m[i], x)
    {
      assert m[i] in m;
      if m[i] in a {
        var j :| 0 <= j < |a| && a[j] == m[i];
        assert j == 0 || !less(a[j], a[0]);
      } else {
        var j :| 0 <= j < |b| && b[j] == m[i];
        assert j == 0 || !less(b[j], b[0]);
      }
    }
  }

  /** Elements of equal rank keep their order, those of a before those of b. */
  lemma {:induction false} MergeStable<T(!new)>(a: seq<T>, b: seq<T>, x: T, less: (T, T) -> bool)
    requires StrictWeakOrder(less) && Sorted(a, less) && Sorted(b, less)
    ensures RankedLike(Merge(a, b, less), x, less) == RankedLike(a, x, less) + RankedLike(b, x, less)
    decreases |a| + |b|
  {
    if a == [] || b == [] {
    } else if less(b[0], a[0]) {
      SortedTail(b, less);
      MergeStable(a, b[1..], x, less);
      RankedLikeHead(Merge(a, b, less), b[0], Merge(a, b[1..], less), x, less);
      RankedLikeHead(b, b[0], b[1..], x, less);
      if Equivalent(b[0], x, less) {
        SortedTail(a, less);
        NoneRankedLike(a, x, less);
      }
      OneIsEmpty(OnlyIfLike(b[0], x, less), RankedLike(a, x, less), RankedLike(b[1..], x, less));
    } else {
      SortedTail(a, less);
      MergeStable(a[1..], b, x, less);
      RankedLikeHead(Merge(a, b, less), a[0], Merge(a[1..], b, less), x, less);
      RankedLikeHead(a, a[0], a[1..], x, less);
      Associative(OnlyIfLike(a[0], x, less), RankedLike(a[1..], x, less), RankedLike(b, x, less));
    }
  }

  lemma Associative<T>(a: seq<T>, b: seq<T>, c: seq<T>)
    ensures a + (b + c) == (a + b) + c
  {
  }

  lemma OneIsEmpty<T>(a: seq<T>, b: seq<T>, c: seq<T>)
    requires a == [] || b == []
    ensures a + (b + c) == b + (a + c)
  {
  }

  /** For a strict weak order the result is sorted, and elements of equal rank keep their order. */
  lemma {:induction false} SortIsStable<T(!new)>(s: seq<T>, less: (T, T) -> bool)
    requires StrictWeakOrder(less)
    ensures Sorted(Sort(s, less), less)
    ensures forall x :: RankedLike(Sort(s, less), x, less) == RankedLike(s, x, less)
  {
    if |s| > 1 {
      var h := (|s| + 1) / 2;
      var a, b := Sort(s[..h], less), Sort(s[h..], less);
      SortIsStable(s[..h], less);
      SortIsStable(s[h..], less);
      MergeSorted(a, b, less);
      forall x
        ensures RankedLike(Sort(s, less), x, less) == RankedLike(s, x, less)
      {
        MergeStable(a, b, x, less);
        RankedLikeConcat(s[..h], s[h..], x, less);
        HalvesTogether(s, s[..h], s[h..], h);
      }
    }
  }

  lemma RankedLikeMember<T(!new)>(s: seq<T>, x: T, less: (T, T) -> bool)
    requires StrictWeakOrder(less)
    ensures forall y :: y in RankedLike(s, x, less) ==> y in s && Equivalent(y, x, less)
    ensures x in s ==> x in RankedLike(s, x, less)
  {
    if s != [] { RankedLikeMember(s[1..], x, less); }
  }

  /** Being sorted and stable leaves only one possible result. */
  lemma {:induction false} StableSortIsUnique<T(!new)>(s: seq<T>, t: seq<T>, less: (T, T) -> bool)
    requires StrictWeakOrder(less) && Sorted(s, less) && Sorted(t, less)
    requires forall x :: RankedLike(s, x, less) == RankedLike(t, x, less)
    ensures s == t
    decreases |s|
  {
    if s == [] {
      if t != [] {
        RankedLikeMember(t, t[0], less);
      }
    } else {
      var x := s[0];
      RankedLikeMember(s, x, less);
      RankedLikeMember(t, x, less);
      assert x in t;
      SameHead(s, t, less);
      SortedTail(s, less);
      SortedTail(t, less);
      forall y
        ensures RankedLike(s[1..], y, less) == RankedLike(t[1..], y, less)
      {
        assert RankedLike(s, y, less) == RankedLike(t, y, less);
        if Equivalent(x, y, less) {
          assert RankedLike(s[1..], y, less) == RankedLike(s, y, less)[1..];
          assert RankedLike(t[1..], y, less) == RankedLike(t, y, less)[1..];
        } else {
          assert RankedLike(s[1..], y, less) == RankedLike(s, y, less);
          assert RankedLike(t[1..], y, less) == RankedLike(t, y, less);
        }
      }
      StableSortIsUnique(s[1..], t[1..], less);
      assert s == [x] + s[1..] && t == [x] + t[1..];
    }
  }

  lemma SameHead<T(!new)>(s: seq<T>, t: seq<T>, less: (T, T) -> bool)
    requires StrictWeakOrder(less) && Sorted(s, less) && Sorted(t, less) && s != [] && t != []
    requires forall x :: RankedLike(s, x, less) == RankedLike(t, x, less)
    ensures s[0] == t[0]
  {
    RankedLikeMember(s, s[0], less);
    RankedLikeMember(t, s[0], less);
    RankedLikeMember(t, t[0], less);
    RankedLikeMember(s, t[0], less);
    assert s[0] in t && t[0] in s;
    SortedTail(s, less);
    SortedTail(t, less);
    assert Equivalent(t[0], s[0], less);
    assert RankedLike(s, s[0], less)[0] == s[0];
    assert RankedLike(t, s[0], less)[0] == t[0];
  }

  // The sort on arrays

  /** The elements of a from index first on are those of s. */
  ghost predicate HoldsAt<T>(a: seq<T>, first: nat, s: seq<T>) {
    first + |s| <= |a| && forall i :: 0 <= i < |s| ==> a[first + i] == s[i]
  }

  ghost predicate SameOutside<T>(a: seq<T>, b: seq<T>, first: nat, end: nat) {
    |a| == |b| && forall i :: 0 <= i < |a| && (i < first || end <= i) ==> a[i] == b[i]
  }

  lemma HoldsIsSlice<T>(a: seq<T>, first: nat, s: seq<T>)
    requires first + |s| <= |a|
    ensures HoldsAt(a, first, s) <==> a[first..first + |s|] == s
  {
    var slice := a[first..first + |s|];
    assert forall i :: 0 <= i < |s| ==> slice[i] == a[first + i];
  }

  /** replaceFrom:to:with:startingAt: between different arrays. */
  method ReplaceFrom<T>(dst: array<T>, from: nat, to: nat, src: array<T>, start: nat)
    requires from <= to <= dst.Length && start + (to - from) <= src.Length && dst != src
    modifies dst
    ensures forall i :: from <= i < to ==> dst[i] == src[start + (i - from)]
    ensures forall i :: (0 <= i < from || to <= i < dst.Length) ==> dst[i] == old(dst[i])
  {
    for i := from to to
      invariant forall k :: from <= k < i ==> dst[k] == src[start + (k - from)]
      invariant forall k :: (0 <= k < from || i <= k < dst.Length) ==> dst[k] == old(dst[k])
    {
      dst[i] := src[start + (i - from)];
    }
  }

  /** goal from place n on lists what is left of the runs in merge order, index by index. */
  ghost predicate Remaining<T>(goal: seq<T>, n: nat, a: seq<T>, b: seq<T>, i: nat, j: nat, less: (T, T) -> bool)
    requires i <= |a| && j <= |b|
    decreases |a| - i + (|b| - j)
  {
    && |goal| - n == |a| - i + (|b| - j)
    && (if j == |b| then forall k :: n <= k < |goal| ==> goal[k] == a[i + (k - n)]
        else if i == |a| then forall k :: n <= k < |goal| ==> goal[k] == b[j + (k - n)]
        else if less(b[j], a[i]) then goal[n] == b[j] && Remaining(goal, n + 1, a, b, i, j + 1, less)
        else goal[n] == a[i] && Remaining(goal, n + 1, a, b, i + 1, j, less))
  }

  lemma {:induction false} MergeRemains<T>(goal: seq<T>, n: nat, a: seq<T>, b: seq<T>, i: nat, j: nat,
                                           less: (T, T) -> bool)
    requires i <= |a| && j <= |b| && n <= |goal| && goal[n..] == Merge(a[i..], b[j..], less)
    ensures Remaining(goal, n, a, b, i, j, less)
    decreases |a| - i + (|b| - j)
  {
    var rest := goal[n..];
    MergeLength(a[i..], b[j..], less);
    assert forall k :: n <= k < |goal| ==> goal[k] == rest[k - n];
    if i < |a| && j < |b| {
      assert goal[n + 1..] == rest[1..];
      assert a[i..][1..] == a[i + 1..] && b[j..][1..] == b[j + 1..];
      if less(b[j], a[i]) {
        MergeRemains(goal, n + 1, a, b, i, j + 1, less);
      } else {
        MergeRemains(goal, n + 1, a, b, i + 1, j, less);
      }
    }
  }

  lemma AllRemains<T>(a: seq<T>, b: seq<T>, less: (T, T) -> bool)
    ensures Remaining(Merge(a, b, less), 0, a, b, 0, 0, less)
  {
    assert a[0..] == a && b[0..] == b;
    assert Merge(a, b, less)[0..] == Merge(a, b, less);
    MergeRemains(Merge(a, b, less), 0, a, b, 0, 0, less);
  }

  /** mergeFirst:middle:last:into:by: with indices counted from zero; a and b are the two runs. */
  method MergeRanges<T>(src: array<T>, first: nat, middle: nat, last: nat, dst: array<T>, less: (T, T) -> bool,
                        ghost a: seq<T>, ghost b: seq<T>)
    requires src != dst && first <= middle < last < src.Length == dst.Length
    requires |a| == middle + 1 - first && |b| == last - middle
    requires HoldsAt(src[..], first, a) && HoldsAt(src[..], middle + 1, b)
    modifies dst
    ensures HoldsAt(dst[..], first, Merge(a, b, less))
    ensures SameOutside(dst[..], old(dst[..]), first, last + 1)
  {
    AllRemains(a, b, less);
    var i1, i2, out := MergeHeads(src, first, middle, last, dst, less, a, b, Merge(a, b, less));
    if i1 <= middle {
      ReplaceFrom(dst, out, last + 1, src, i1);
    } else {
      ReplaceFrom(dst, out, last + 1, src, i2);
    }
  }

  /** The loop of the merge, which ends when one run is used up. */
  method MergeHeads<T>(src: array<T>, first: nat, middle: nat, last: nat, dst: array<T>, less: (T, T) -> bool,
                       ghost a: seq<T>, ghost b: seq<T>, ghost goal: seq<T>)
    returns (i1: nat, i2: nat, out: nat)
    requires src != dst && first <= middle < last < src.Length == dst.Length
    requires |a| == middle + 1 - first && |b| == last - middle
    requires HoldsAt(src[..], first, a) && HoldsAt(src[..], middle + 1, b)
    requires Remaining(goal, 0, a, b, 0, 0, less)
    modifies dst
    ensures first <= i1 <= middle + 1 <= i2 <= last + 1 && (i1 == middle + 1 || i2 == last + 1)
    ensures out == i1 + (i2 - (middle + 1))
    ensures Remaining(goal, out - first, a, b, i1 - first, i2 - (middle + 1), less)
    ensures forall k :: 0 <= k < out - first ==> dst[first + k] == goal[k]
    ensures forall k :: 0 <= k < dst.Length && (k < first || last < k) ==> dst[k] == old(dst[k])
  {
    i1, i2 := first, middle + 1;
    var val1, val2 := src[i1], src[i2];
    out := first;
    ghost var s, i, j := src[..], 0, 0;
    while i1 <= middle && i2 <= last
      invariant i1 == first + i && i2 == middle + 1 + j && out == first + (i + j)
      invariant 0 <= i <= |a| && 0 <= j <= |b|
      invariant src[..] == s && val1 == s[i1] && (i2 <= last ==> val2 == s[i2])
      invariant Remaining(goal, i + j, a, b, i, j, less)
      invariant forall k :: 0 <= k < i + j ==> dst[first + k] == goal[k]
      invariant forall k :: 0 <= k < dst.Length && (k < first || last < k) ==> dst[k] == old(dst[k])
      decreases |a| - i + (|b| - j)
    {
      if less(val2, val1) {
        dst[out] := val2;
        out := out + 1;
        i2, j := i2 + 1, j + 1;
        if i2 <= last { val2 := src[i2]; }
      } else {
        dst[out] := val1;
        out := out + 1;
        i1, i := i1 + 1, i + 1;
        val1 := src[i1];
      }
    }
  }

  /** mergeSortFrom:to:src:dst:by: sorts the range into dst; both buffers must agree on it, and
      src is left holding intermediate results there. */
  method SortRange<T>(first: nat, last: nat, src: array<T>, dst: array<T>, less: (T, T) -> bool, ghost s: seq<T>)
    requires src != dst && first <= last < src.Length == dst.Length && |s| == last + 1 - first
    requires HoldsAt(src[..], first, s) && HoldsAt(dst[..], first, s)
    modifies src, dst
    ensures HoldsAt(dst[..], first, Sort(s, less))
    ensures SameOutside(dst[..], old(dst[..]), first, last + 1) && SameOutside(src[..], old(src[..]), first, last + 1)
    decreases last - first
  {
    if first == last { return; }
    var middle := (first + last) / 2;
    ghost var h := (|s| + 1) / 2;
    assert middle + 1 == first + h;
    ghost var left, right := s[..h], s[h..];
    SortRange(first, middle, dst, src, less, left);
    SortRange(middle + 1, last, dst, src, less, right);
    MergeRanges(src, first, middle, last, dst, less, Sort(left, less), Sort(right, less));
  }

  datatype Outcome = Done | BadStartIndex | BadStopIndex

  /** mergeSortFrom:to:by: with the source's indices, which count from one. */
  method MergeSort<T>(a: array<T>, startIndex: int, stopIndex: int, less: (T, T) -> bool) returns (r: Outcome)
    modifies a
    ensures r == if a.Length <= 1 || startIndex == stopIndex then Done
                 else if !(1 <= startIndex < stopIndex) then BadStartIndex
                 else if stopIndex > a.Length then BadStopIndex
                 else Done
    ensures r.Done? && a.Length > 1 && startIndex != stopIndex ==>
      && HoldsAt(a[..], startIndex - 1, Sort(old(a[startIndex - 1..stopIndex]), less))
      && SameOutside(a[..], old(a[..]), startIndex - 1, stopIndex)
    ensures !r.Done? || a.Length <= 1 || startIndex == stopIndex ==> a[..] == old(a[..])
  {
    if a.Length <= 1 { return Done; }
    if startIndex == stopIndex { return Done; }
    if !(startIndex >= 1 && startIndex < stopIndex) { return BadStartIndex; }
    if !(stopIndex <= a.Length) { return BadStopIndex; }
    var temp := ShallowCopy(a);
    ghost var s := a[startIndex - 1..stopIndex];
    assert a[..][startIndex - 1..stopIndex] == s;
    HoldsIsSlice(a[..], startIndex - 1, s);
    SortRange(startIndex - 1, stopIndex - 1, temp, a, less, s);
    r := Done;
  }

  method ShallowCopy<T>(a: array<T>) returns (copy: array<T>)
    ensures fresh(copy) && copy[..] == a[..]
  {
    copy := new T[a.Length](i requires 0 <= i < a.Length reads a => a[i]);
  }
}
