/** ASTOrderedCollection: a window of used slots that slides and grows inside an array. Indices count
    from one, as in the source; slot i is slots[i - 1].
 */
module OrderedCollections {
  import opened Options

  /** The operations that change a collection. Positions count from zero at the first element. */
  datatype Operation<T> =
    | AddLast(x: T)
    | AddBefore(x: T)
    | DropFirst
    | DropLast
    | InsertAt(x: T, position: nat)
    | DropAt(position: nat)
    | DropEqual(x: T)

  /** What an operation does to a mathematical sequence; one that does not apply leaves it alone. */
  function Effect<T(==)>(s: seq<T>, op: Operation<T>): seq<T> {
    match op
    case AddLast(x) => s + [x]
    case AddBefore(x) => [x] + s
    case DropFirst => if s == [] then s else s[1..]
    case DropLast => if s == [] then s else s[..|s| - 1]
    case InsertAt(x, k) => if k <= |s| then s[..k] + [x] + s[k..] else s
    case DropAt(k) => if k < |s| then s[..k] + s[k + 1..] else s
    case DropEqual(x) => RemoveFirstEqual(s, x)
  }

  function Effects<T(==)>(s: seq<T>, ops: seq<Operation<T>>): seq<T>
    decreases |ops|
  {
    if ops == [] then s else Effect(Effects(s, ops[..|ops| - 1]), ops[|ops| - 1])
  }

  class OrderedCollection<T(==)> {
    var slots: array<T>
    var firstIndex: int
    var lastIndex: int
    const nil: T

    ghost predicate Valid()
      reads this
    {
      1 <= firstIndex <= lastIndex + 1 <= slots.Length + 1
    }

    ghost function Contents(): seq<T>
      reads this, slots
      requires Valid()
    {
      slots[firstIndex - 1..lastIndex]
    }

    lemma WindowIs(f: nat, end: nat)
      requires Valid() && f == firstIndex - 1 && end == lastIndex
      ensures Contents() == slots[..][f..end]
    {
    }

    /** new: with room for n elements, a third of it before the first one. */
    constructor (n: nat, nil: T)
      ensures Valid() && fresh(slots) && slots.Length == n && Contents() == []
    {
      this.nil := nil;
      slots := new T[n](_ => nil);
      firstIndex := if n / 3 > 1 then n / 3 else 1;
      lastIndex := (if n / 3 > 1 then n / 3 else 1) - 1;
    }

    function Size(): int
      reads this
    {
      lastIndex - firstIndex + 1
    }

    /** at: answers an error for an index outside the collection. */
    method At(anInteger: int) returns (r: Option<T>)
      requires Valid()
      ensures r == if 1 <= anInteger <= |Contents()| then Some(Contents()[anInteger - 1]) else None
    {
      if anInteger < 1 || anInteger + firstIndex - 1 > lastIndex { return None; }
      r := Some(slots[anInteger + firstIndex - 2]);
    }

    method AtPut(index: int, x: T) returns (ok: bool)
      requires Valid()
      modifies slots
      ensures Valid() && (ok <==> 1 <= index <= |Contents()|)
      ensures Contents() == if ok then old(Contents())[index - 1 := x] else old(Contents())
    {
      if index < 1 || index + firstIndex - 1 > lastIndex { return false; }
      slots[index + firstIndex - 2] := x;
      ok := true;
    }

    /** add: */
    method Add(newObject: T)
      requires Valid()
      modifies this, slots
      ensures Valid() && (slots == old(slots) || fresh(slots))
      ensures Contents() == old(Contents()) + [newObject]
    {
      if lastIndex == slots.Length { MakeRoomAtLast(); }
      WindowPush(slots[..], firstIndex - 1, lastIndex, lastIndex + 1, newObject);
      PutSlot(lastIndex, newObject);
      lastIndex := lastIndex + 1;
    }

    method AddFirst(newObject: T)
      requires Valid()
      modifies this, slots
      ensures Valid() && (slots == old(slots) || fresh(slots))
      ensures Contents() == [newObject] + old(Contents())
    {
      if firstIndex == 1 { MakeRoomAtFirst(); }
      ghost var from: nat := firstIndex - 1;
      firstIndex := firstIndex - 1;
      WindowPushFirst(slots[..], firstIndex - 1, from, lastIndex, newObject);
      PutSlot(firstIndex - 1, newObject);
    }

    /** removeFirst answers an error on an empty collection. */
    method RemoveFirst() returns (r: Option<T>)
      requires Valid()
      modifies this`firstIndex, slots
      ensures Valid()
      ensures old(Contents()) == [] ==> r.None? && Contents() == []
      ensures old(Contents()) != [] ==> r == Some(old(Contents())[0]) && Contents() == old(Contents())[1..]
    {
      if Size() == 0 { return None; }
      r := Some(slots[firstIndex - 1]);
      slots[firstIndex - 1] := nil;
      firstIndex := firstIndex + 1;
    }

    method RemoveLast() returns (r: Option<T>)
      requires Valid()
      modifies this`lastIndex, slots
      ensures Valid()
      ensures old(Contents()) == [] ==> r.None? && Contents() == []
      ensures old(Contents()) != [] ==>
        r == Some(old(Contents())[|old(Contents())| - 1]) && Contents() == old(Contents())[..|old(Contents())| - 1]
    {
      if Size() == 0 { return None; }
      r := Some(slots[lastIndex - 1]);
      slots[lastIndex - 1] := nil;
      lastIndex := lastIndex - 1;
    }

    /** grow: a larger array with the same slots in use. */
    method Grow()
      requires Valid()
      modifies this`slots
      ensures Valid() && fresh(slots) && Contents() == old(Contents())
      ensures slots.Length == Size() + (if old(slots.Length) > 2 then old(slots.Length) else 2)
    {
      var newArray := new T[Size() + (if slots.Length > 2 then slots.Length else 2)](_ => nil);
      for i := 0 to slots.Length
        invariant slots == old(slots)
        invariant newArray[..i] == slots[..i]
      {
        newArray[i] := slots[i];
        assert newArray[..i + 1] == newArray[..i] + [slots[i]] == slots[..i + 1];
      }
      SameWindow(slots[..], newArray[..], slots.Length, firstIndex - 1, lastIndex);
      slots := newArray;
    }

    /** makeRoomAtFirst: slides the window to the end of the array, after growing a full one. */
    method MakeRoomAtFirst()
      requires Valid()
      modifies this, slots
      ensures Valid() && firstIndex > 1 && (slots == old(slots) || fresh(slots))
      ensures Contents() == old(Contents()) && (old(firstIndex) == 1 ==> lastIndex == slots.Length)
    {
      var delta := slots.Length - Size();
      if delta == 0 {
        Grow();
        delta := slots.Length - Size();
      }
      if lastIndex == slots.Length { return; }
      SlideUp(delta);
    }

    /** The copying loop of makeRoomAtFirst, from the top down. */
    method SlideUp(delta: int)
      requires Valid() && lastIndex < slots.Length && 0 < delta == slots.Length - Size()
      modifies this`firstIndex, this`lastIndex, slots
      ensures Valid() && firstIndex == delta + 1 && lastIndex == slots.Length
      ensures Contents() == old(Contents())
    {
      var index := slots.Length;
      ghost var s, f: nat, h: nat := slots[..], firstIndex - 1, slots.Length - lastIndex;
      while index > delta
        invariant delta <= index <= slots.Length && firstIndex == f + 1 && lastIndex == old(lastIndex)
        invariant SlidUp(s, slots[..], f, h, index)
      {
        SlideUpStep(s, slots[..], f, h, index, nil);
        MoveSlot(index - delta + firstIndex - 2, index - 1);
        index := index - 1;
      }
      SlidWindow(s, slots[..], f, lastIndex, h);
      firstIndex := delta + 1;
      lastIndex := slots.Length;
    }

    /** at:put: of the array. */
    method PutSlot(i: nat, x: T)
      requires i < slots.Length
      modifies slots
      ensures slots[..] == old(slots[..])[i := x]
    {
      slots[i] := x;
    }

    method MoveSlot(source: nat, target: nat)
      requires source != target && source < slots.Length && target < slots.Length
      modifies slots
      ensures slots[..] == old(slots[..])[target := old(slots[source])][source := nil]
    {
      PutSlot(target, slots[source]);
      PutSlot(source, nil);
    }

    /** makeRoomAtLast: grows a full array, or slides the window to the start of the array. */
    method MakeRoomAtLast()
      requires Valid()
      modifies this, slots
      ensures Valid() && lastIndex < slots.Length && (slots == old(slots) || fresh(slots))
      ensures Contents() == old(Contents())
    {
      var newLast := Size();
      if slots.Length - Size() == 0 { Grow(); }
      var delta := firstIndex - 1;
      if delta == 0 { return; }
      SlideDown(delta, newLast);
    }

    /** The copying loop of makeRoomAtLast, from the bottom up. */
    method SlideDown(delta: int, newLast: int)
      requires Valid() && 0 < delta == firstIndex - 1 && newLast == Size()
      modifies this`firstIndex, this`lastIndex, slots
      ensures Valid() && firstIndex == 1 && lastIndex == newLast
      ensures Contents() == old(Contents())
    {
      ghost var s := old(slots[..]);
      for index := 1 to newLast + 1
        invariant forall k :: 0 <= k < index - 1 ==> slots[k] == s[k + delta]
        invariant forall k :: index - 1 + delta <= k < newLast + delta ==> slots[k] == s[k]
      {
        slots[index - 1] := slots[index + delta - 1];
        slots[index + delta - 1] := nil;
      }
      firstIndex := 1;
      lastIndex := newLast;
    }

    /** insert:before: where spot is a slot number; one before the window counts as its first. A spot beyond the one
        after the window does not get the object into the window, which takes in the slot behind it instead; if there
        is no such spot, that ends in an index error. */
    method Insert(anObject: T, spot: int) returns (ok: bool)
      requires Valid()
      modifies this, slots
      ensures Valid() && (slots == old(slots) || fresh(slots))
      ensures ok <==> spot <= old(lastIndex) + 1 || (old(firstIndex) > 1 && spot <= old(slots.Length) + 1)
      ensures spot <= old(lastIndex) + 1 ==>
                var k := if spot < old(firstIndex) then 0 else spot - old(firstIndex);
                Contents() == old(Contents())[..k] + [anObject] + old(Contents())[k..]
      ensures ok && spot > old(lastIndex) + 1 ==> Contents() == old(Contents()) + [old(slots[lastIndex])]
      ensures !ok ==> |Contents()| == |old(Contents())| + 1 && old(Contents()) <= Contents()
    {
      var spotIndex := spot;
      var delta := spotIndex - firstIndex;
      ghost var s := Contents();
      if firstIndex == 1 {
        MakeRoomAtFirst();
        spotIndex := firstIndex + delta;
      }
      ok := ShiftAndStore(anObject, spotIndex);
    }

    method ShiftAndStore(anObject: T, spotIndex: int) returns (ok: bool)
      requires Valid() && 1 < firstIndex
      modifies this`firstIndex, slots
      ensures Valid() && (ok <==> spotIndex <= slots.Length + 1)
      ensures spotIndex <= lastIndex + 1 ==>
                var k := if spotIndex < old(firstIndex) then 0 else spotIndex - old(firstIndex);
                Contents() == old(Contents())[..k] + [anObject] + old(Contents())[k..]
      ensures ok && spotIndex > lastIndex + 1 ==> Contents() == old(Contents()) + [old(slots[lastIndex])]
      ensures !ok ==> |Contents()| == |old(Contents())| + 1 && old(Contents()) <= Contents()
    {
      ghost var s, from: nat, end: nat := slots[..], firstIndex - 1, lastIndex;
      WindowIs(from, end);
      firstIndex := firstIndex - 1;
      ghost var f: nat := firstIndex - 1;
      var index := ShiftBefore(spotIndex);
      ghost var t := slots[..];
      ghost var p: nat := index - 1;
      ok := index >= spotIndex - 1;
      if ok { PutSlot(index - 1, anObject); }
      WindowIs(f, end);
      if spotIndex <= lastIndex + 1 {
        ghost var k: nat := p - f;
        InsertedWindow(s, t, f, p, from, end, k, anObject);
      } else {
        ShiftedWindow(s, slots[..], f, p, from, end);
      }
    }

    /** The loop of insert:before: moves the slots up to the spot down by one; it comes to an end with an index error
        at the last slot. */
    method ShiftBefore(spotIndex: int) returns (index: int)
      requires 1 <= firstIndex <= slots.Length
      modifies slots
      ensures index == if spotIndex - 1 <= firstIndex then firstIndex
                       else if spotIndex - 1 <= slots.Length then spotIndex - 1 else slots.Length
      ensures MovedDown(old(slots[..]), slots[..], firstIndex - 1, index - 1)
    {
      ghost var s, f: nat := slots[..], firstIndex - 1;
      index := firstIndex;
      while index < spotIndex - 1
        invariant firstIndex == f + 1 <= index <= slots.Length && (index <= spotIndex - 1 || index == firstIndex)
        invariant MovedDown(s, slots[..], f, index - 1)
      {
        if index >= slots.Length { return; }
        ghost var before := slots[..];
        MoveDownStep(s, before, f, index - 1);
        PutSlot(index - 1, slots[index]);
        index := index + 1;
      }
    }

    /** removeIndex: where a slot before the window of a collection that is not empty counts as its first, one
        behind it as its last. Indices below 1, and an empty collection that has no slot before it, end in an index
        error that changes nothing; any other empty collection loses the slot before it and is not valid any more. */
    method RemoveIndex(removedIndex: int) returns (ok: bool)
      requires Valid()
      modifies this`lastIndex, slots
      ensures ok <==> removedIndex >= 1 && old(lastIndex) >= 1
      ensures !ok ==> slots[..] == old(slots[..]) && lastIndex == old(lastIndex)
      ensures Valid() <==> !ok || old(Contents()) != []
      ensures ok && old(Contents()) != [] ==> Contents() == Without(old(Contents()), removedIndex - firstIndex)
    {
      ok := removedIndex >= 1 && lastIndex >= 1;
      if ok { DropSlot(removedIndex); }
    }

    /** The rest of it, without an error. */
    method DropSlot(removedIndex: int)
      requires Valid() && removedIndex >= 1 && lastIndex >= 1
      modifies this`lastIndex, slots
      ensures lastIndex == old(lastIndex) - 1
      ensures old(Contents()) != [] ==> Valid() && Contents() == Without(old(Contents()), removedIndex - firstIndex)
    {
      ghost var s: seq<T>, f: nat, last: nat, k := slots[..], firstIndex - 1, lastIndex - 1, removedIndex - firstIndex;
      ghost var end: nat := lastIndex;
      WindowIs(f, end);
      ghost var p := ShiftDown(removedIndex);
      ghost var t := slots[..];
      PutSlot(lastIndex - 1, nil);
      lastIndex := lastIndex - 1;
      if f <= last {
        RemovedWindow(s, t, f, p, last, end, k, nil);
        WindowIs(f, last);
      }
    }

    /** The loop of removeIndex: moves the elements after a slot down by one. */
    method ShiftDown(removedIndex: int) returns (ghost p: nat)
      requires Valid() && lastIndex >= 1 && 1 <= removedIndex
      modifies slots
      ensures p == (if removedIndex < lastIndex then removedIndex else lastIndex) - 1
      ensures MovedDown(old(slots[..]), slots[..], p, lastIndex - 1)
    {
      if removedIndex >= lastIndex { return lastIndex - 1; }
      ghost var s := slots[..];
      p := removedIndex - 1;
      var index := removedIndex;
      while index < lastIndex
        invariant removedIndex <= index <= lastIndex
        invariant MovedDown(s, slots[..], p, index - 1)
      {
        MoveDownStep(s, slots[..], p, index - 1);
        PutSlot(index - 1, slots[index]);
        index := index + 1;
      }
    }

    /** remove:ifAbsent: removes the first equal element. */
    method Remove(oldObject: T) returns (found: bool)
      requires Valid()
      modifies this`lastIndex, slots
      ensures Valid() && (found <==> oldObject in old(Contents()))
      ensures Contents() == RemoveFirstEqual(old(Contents()), oldObject)
    {
      ghost var s := Contents();
      var index := firstIndex;
      while index <= lastIndex
        invariant firstIndex <= index <= lastIndex + 1
        invariant Contents() == s && forall k :: 0 <= k < index - firstIndex ==> s[k] != oldObject
      {
        if oldObject == slots[index - 1] {
          FirstEqual(s, oldObject, index - firstIndex);
          var _ := RemoveIndex(index);
          assert Contents() == Without(s, index - firstIndex);
          return true;
        }
        index := index + 1;
      }
      NoneEqual(s, oldObject);
      found := false;
    }

    method InsertBefore(x: T, k: nat)
      requires Valid()
      modifies this, slots
      ensures Valid() && (slots == old(slots) || fresh(slots))
      ensures Contents() == Effect(old(Contents()), InsertAt(x, k))
    {
      if k <= Size() {
        var spot := firstIndex + k;
        var _ := Insert(x, spot);
      }
    }

    method DropElement(k: nat)
      requires Valid()
      modifies this`lastIndex, slots
      ensures Valid()
      ensures Contents() == Effect(old(Contents()), DropAt(k))
    {
      if k < Size() {
        WithoutElement(Contents(), k);
        var removedIndex := firstIndex + k;
        var _ := RemoveIndex(removedIndex);
      }
    }

    /** One operation, as a client that counts positions from the first element asks for it. */
    method Perform(op: Operation<T>)
      requires Valid()
      modifies this, slots
      ensures Valid() && (slots == old(slots) || fresh(slots))
      ensures Contents() == Effect(old(Contents()), op)
    {
      match op
      case AddLast(x) => Add(x);
      case AddBefore(x) => AddFirst(x);
      case DropFirst => var _ := RemoveFirst();
      case DropLast => var _ := RemoveLast();
      case InsertAt(x, k) => InsertBefore(x, k);
      case DropAt(k) => DropElement(k);
      case DropEqual(x) => var _ := Remove(x);
    }

    /** Any run of operations does to the collection what it does to a mathematical sequence. */
    method PerformAll(ops: seq<Operation<T>>)
      requires Valid()
      modifies this, slots
      ensures Valid() && (slots == old(slots) || fresh(slots))
      ensures Contents() == Effects(old(Contents()), ops)
    {
      for i := 0 to |ops|
        invariant Valid() && (slots == old(slots) || fresh(slots))
        invariant Contents() == Effects(old(Contents()), ops[..i])
      {
        Perform(ops[i]);
        assert ops[..i + 1][..i] == ops[..i];
      }
      assert ops[..|ops|] == ops;
    }
  }

  lemma SameWindow<T>(s: seq<T>, t: seq<T>, n: nat, f: nat, end: nat)
    requires n <= |s| && n <= |t| && s[..n] == t[..n] && f <= end <= n
    ensures s[f..end] == t[f..end]
  {
    assert s[f..end] == s[..n][f..end] && t[f..end] == t[..n][f..end];
  }

  /** From slot index up, t is s moved up by h; what is still to be moved from slot f on is untouched. */
  ghost predicate SlidUp<T>(s: seq<T>, t: seq<T>, f: nat, h: nat, index: nat) {
    && |t| == |s| && h <= index <= |s|
    && (forall k :: index <= k < |s| ==> t[k] == s[k - h])
    && (forall k :: f <= k < index - h ==> t[k] == s[k])
  }

  lemma SlideUpStep<T>(s: seq<T>, t: seq<T>, f: nat, h: nat, index: nat, nil: T)
    requires SlidUp(s, t, f, h, index) && 0 < h && f + h < index <= |s|
    ensures SlidUp(s, t[index - 1 := t[index - h - 1]][index - h - 1 := nil], f, h, index - 1)
  {
  }

  lemma SlidWindow<T>(s: seq<T>, t: seq<T>, f: nat, end: nat, h: nat)
    requires SlidUp(s, t, f, h, f + h) && f <= end && end + h == |s|
    ensures t[f + h..|s|] == s[f..end]
  {
    var u, w := t[f + h..|s|], s[f..end];
    assert forall i :: 0 <= i < |w| ==> u[i] == w[i];
  }

  /** From slot f up to slot p, t is s moved down by one. */
  ghost predicate MovedDown<T>(s: seq<T>, t: seq<T>, f: nat, p: nat) {
    && |t| == |s| && p <= |s|
    && (forall k :: f <= k < p && k + 1 < |s| ==> t[k] == s[k + 1])
    && (forall k :: 0 <= k < |s| && !(f <= k < p) ==> t[k] == s[k])
  }

  lemma MoveDownStep<T>(s: seq<T>, t: seq<T>, f: nat, p: nat)
    requires MovedDown(s, t, f, p) && f <= p && p + 1 < |s|
    ensures MovedDown(s, t[p := t[p + 1]], f, p + 1)
  {
  }

  /** The window from slot f to slot end after one element moved in at slot p, the ones before it down by one. */
  lemma InsertedWindow<T>(s: seq<T>, t: seq<T>, f: nat, p: nat, from: nat, end: nat, k: nat, x: T)
    requires f + k == p < end <= |s| && from == f + 1 && MovedDown(s, t, f, p)
    ensures t[p := x][f..end] == s[from..end][..k] + [x] + s[from..end][k..]
  {
    var w := s[from..end];
    var u, v := t[p := x][f..end], w[..k] + [x] + w[k..];
    assert |u| == |v|;
    forall i | 0 <= i < |u|
      ensures u[i] == v[i]
    {
      assert u[i] == t[p := x][f + i];
      if i < k {
        assert v[i] == w[i] == s[from + i];
      } else if i > k {
        assert v[i] == w[i - 1] == s[from + (i - 1)];
      }
    }
  }

  /** The window after all of it moved down by one, up to slot p behind its end: it takes in the slot after it. */
  lemma ShiftedWindow<T>(s: seq<T>, t: seq<T>, f: nat, p: nat, from: nat, end: nat)
    requires from == f + 1 <= end <= |s| == |t| && end <= p + 1
    requires forall k :: f <= k < p && k + 1 < |s| && k < end ==> t[k] == s[k + 1]
    ensures |t[f..end]| == |s[from..end]| + 1 && s[from..end] <= t[f..end]
    ensures end <= p && end < |s| ==> t[f..end] == s[from..end] + [s[end]]
  {
    var u, w := t[f..end], s[from..end];
    assert forall i :: 0 <= i < |w| ==> u[i] == t[f + i] == s[f + i + 1] == w[i];
    assert u[..|w|] == w;
    if end <= p && end < |s| {
      assert u[|w|] == t[end - 1] == s[end];
      assert u == u[..|w|] + [u[|w|]];
    }
  }

  /** s without element k, or without its first or last element if k is before or behind all. */
  function Without<T>(s: seq<T>, k: int): seq<T>
    requires s != []
  {
    if k <= 0 then s[1..]
    else if k >= |s| - 1 then s[..|s| - 1]
    else s[..k] + s[k + 1..]
  }

  lemma WithoutElement<T>(s: seq<T>, k: nat)
    requires k < |s|
    ensures Without(s, k) == s[..k] + s[k + 1..]
  {
    if k == 0 {
      assert s[1..] == s[..0] + s[1..];
    } else if k == |s| - 1 {
      assert s[..k] == s[..k] + s[k + 1..];
    }
  }

  lemma WindowPush<T>(s: seq<T>, f: nat, end: nat, next: nat, x: T)
    requires f <= end < |s| && next == end + 1
    ensures s[end := x][f..next] == s[f..end] + [x]
  {
  }

  lemma WindowPushFirst<T>(s: seq<T>, f: nat, from: nat, end: nat, x: T)
    requires f < end <= |s| && from == f + 1
    ensures s[f := x][f..end] == [x] + s[from..end]
  {
  }

  /** The window from slot f to slot end after the shift from p on, with its last slot dropped. */
  lemma RemovedWindow<T>(s: seq<T>, t: seq<T>, f: nat, p: nat, last: nat, end: nat, k: int, x: T)
    requires f <= last < |s| && p <= last && end == last + 1 && MovedDown(s, t, p, last)
    requires k == p - f || (p == last && k >= last - f)
    ensures t[last := x][f..last] == Without(s[f..end], k)
  {
    var w := s[f..end];
    var u, v := t[last := x][f..last], Without(w, k);
    assert |u| == |v|;
    forall i | 0 <= i < |u|
      ensures u[i] == v[i]
    {
      assert u[i] == t[f + i];
      if i < k {
        assert v[i] == w[i] == s[f + i];
      } else {
        assert v[i] == w[i + 1] == s[f + (i + 1)];
      }
    }
  }

  function RemoveFirstEqual<T(==)>(s: seq<T>, x: T): seq<T> {
    if s == [] then [] else if s[0] == x then s[1..] else [s[0]] + RemoveFirstEqual(s[1..], x)
  }

  lemma {:induction false} FirstEqual<T>(s: seq<T>, x: T, k: nat)
    requires k < |s| && s[k] == x && forall i :: 0 <= i < k ==> s[i] != x
    ensures RemoveFirstEqual(s, x) == s[..k] + s[k + 1..]
  {
    if k > 0 {
      FirstEqual(s[1..], x, k - 1);
      assert s[..k] == [s[0]] + s[1..][..k - 1] && s[k + 1..] == s[1..][k..];
    }
  }

  lemma {:induction false} NoneEqual<T>(s: seq<T>, x: T)
    requires x !in s
    ensures RemoveFirstEqual(s, x) == s
  {
    if s != [] { NoneEqual(s[1..], x); }
  }
}
