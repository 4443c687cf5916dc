/** ASTSet: a hashed set that grows before it is full and repairs collisions after a removal. */
module HashSets {
  import opened Probing
  import opened Options

  class HashSet<K(==)> {
    const hash: K -> int
    var tally: nat
    var slots: array<Option<K>>

    /** Sound, correctly counted, and with a nil slot: what the probing code relies on. */
    ghost predicate Searchable()
      reads this, slots
    {
      Sound(hash, slots[..]) && tally == |Elements(slots[..])| && HasNil(slots[..])
    }

    ghost predicate Valid()
      reads this, slots
    {
      Searchable() && !TooFull(slots.Length, tally)
    }

    ghost function Contents(): set<K>
      reads this, slots
    {
      Elements(slots[..])
    }

    /** new: makes room for nElements. */
    constructor (hash: K -> int, nElements: int)
      ensures Valid() && fresh(slots) && this.hash == hash && Contents() == {}
      ensures slots.Length == InitialSize(nElements)
    {
      this.hash := hash;
      slots := new Option<K>[InitialSize(nElements)](_ => None);
      tally := 0;
      new;
      EmptyTable(hash, slots[..]);
    }

    /** Scans from the home slot to the end, then from the start to the home slot. */
    method ScanFor(k: K) returns (r: Option<nat>)
      requires slots.Length > 0
      ensures ScanResult(hash, slots[..], k, r)
    {
      var start := hash(k) % slots.Length;
      for index := start to slots.Length
        invariant forall j :: start <= j < index ==> slots[j].Some? && slots[j].value != k
      {
        if slots[index].None? || slots[index].value == k { return Some(index); }
      }
      for index := 0 to start
        invariant forall j :: 0 <= j < index ==> slots[j].Some? && slots[j].value != k
      {
        if slots[index].None? || slots[index].value == k { return Some(index); }
      }
      return None;
    }

    /** findElementOrNil: there always is such a slot, so the error is never raised. */
    method FindElementOrNil(k: K) returns (index: nat)
      requires Sound(hash, slots[..]) && HasNil(slots[..])
      ensures ScanResult(hash, slots[..], k, Some(index)) && index < slots.Length
      ensures slots[index].Some? <==> k in Contents()
    {
      var r := ScanFor(k);
      ScanFinds(hash, slots[..], k, r);
      index := r.value;
    }

    method Includes(k: K) returns (b: bool)
      requires Valid()
      ensures b <==> k in Contents()
    {
      var index := FindElementOrNil(k);
      b := slots[index].Some?;
    }

    /** add: nil is refused; an element that is there already is not added again. */
    method Add(newObject: Option<K>) returns (ok: bool)
      requires Valid()
      modifies this, slots
      ensures Valid() && (slots == old(slots) || fresh(slots))
      ensures ok <==> newObject.Some?
      ensures Contents() == old(Contents()) + if newObject.Some? then {newObject.value} else {}
    {
      ok := newObject.Some?;
      if !ok { return; }
      var index := FindElementOrNil(newObject.value);
      if slots[index].None? {
        AtNewIndex(index, newObject.value);
      }
    }

    method AtNewIndex(index: nat, k: K)
      requires Valid() && index < slots.Length && slots[index].None?
      requires ScanResult(hash, slots[..], k, Some(index)) && k !in Contents()
      modifies this, slots
      ensures Valid() && (slots == old(slots) || fresh(slots))
      ensures Contents() == old(Contents()) + {k}
    {
      FillKeepsSound(hash, slots[..], k, index);
      ghost var t := slots[..];
      slots[index] := Some(k);
      assert slots[..] == t[index := Some(k)];
      tally := tally + 1;
      if TooFull(slots.Length, tally) {
        Grow();
      } else {
        NilRemains(slots[..]);
      }
    }

    /** grow: reinserts every element into a larger array. */
    method Grow()
      requires Sound(hash, slots[..]) && tally == |Elements(slots[..])| && tally <= slots.Length
      modifies this
      ensures Valid() && fresh(slots) && Contents() == old(Contents()) && tally == old(tally)
    {
      var oldElements := slots;
      slots := new Option<K>[GrownSize(oldElements.Length)](_ => None);
      tally := 0;
      GrowthSuffices(oldElements.Length, old(tally));
      EmptyTable(hash, slots[..]);
      for i := 0 to oldElements.Length
        invariant fresh(slots) && slots.Length == GrownSize(oldElements.Length)
        invariant oldElements[..] == old(slots[..])
        invariant Sound(hash, slots[..]) && tally == |Contents()|
        invariant Contents() == Elements(oldElements[..i])
      {
        ElementsNext(oldElements[..], i);
        if oldElements[i].Some? {
          EarlierKeysDiffer(oldElements[..], i);
          SmallerContents(oldElements[..], i);
          NoCheckAdd(oldElements[i].value);
        }
      }
      assert oldElements[..oldElements.Length] == oldElements[..];
      NilRemains(slots[..]);
    }

    method NoCheckAdd(k: K)
      requires Sound(hash, slots[..]) && tally == |Contents()| < slots.Length && k !in Contents()
      modifies this`tally, slots
      ensures Sound(hash, slots[..]) && tally == |Contents()|
      ensures Contents() == old(Contents()) + {k}
    {
      NilRemains(slots[..]);
      var index := FindElementOrNil(k);
      FillKeepsSound(hash, slots[..], k, index);
      ghost var t := slots[..];
      slots[index] := Some(k);
      assert slots[..] == t[index := Some(k)];
      tally := tally + 1;
    }

    /** remove:ifAbsent: answers whether the element was there. */
    method Remove(oldObject: K) returns (found: bool)
      requires Valid()
      modifies this, slots
      ensures Valid() && slots == old(slots)
      ensures found <==> oldObject in old(Contents())
      ensures Contents() == old(Contents()) - {oldObject}
    {
      var index := FindElementOrNil(oldObject);
      if slots[index].None? { return false; }
      ClearStartsRepair(hash, slots[..], index);
      ghost var t := slots[..];
      ghost var z: nat :| z < slots.Length && slots[z].None?;
      slots[index] := None;
      assert slots[..] == t[index := None];
      tally := tally - 1;
      FixCollisionsFrom(index, z);
      found := true;
    }

    /** fixCollisionsFrom: moves forward from a cleared slot to the next nil slot, and moves back
        every key that the cleared slot, or one cleared since, would make unreachable. */
    method FixCollisionsFrom(index: nat, ghost z: nat)
      requires Repairing(hash, slots[..], index, index)
      requires z < slots.Length && slots[z].None? && z != index
      modifies slots
      ensures Sound(hash, slots[..]) && HasNil(slots[..])
      ensures Contents() == old(Contents())
    {
      var oldIndex: nat := index;
      ghost var hole: nat := index;
      while true
        invariant oldIndex < slots.Length && Repairing(hash, slots[..], hole, oldIndex)
        invariant slots[z].None? && z != hole
        invariant Contents() == old(Contents())
        decreases Ahead(oldIndex, z, slots.Length)
      {
        ghost var last: nat, t := oldIndex, slots[..];
        oldIndex := if oldIndex == slots.Length - 1 then 0 else oldIndex + 1;
        if slots[oldIndex].None? {
          RepairEnds(hash, t, hole, last, z);
          break;
        }
        var newIndex := ScanFor(slots[oldIndex].value);
        RepairScan(hash, t, hole, last, z, newIndex);
        if oldIndex != newIndex.value {
          RepairMoves(hash, t, hole, last, z);
          slots[oldIndex], slots[newIndex.value] := slots[newIndex.value], slots[oldIndex];
          assert slots[..] == t[hole := t[oldIndex]][oldIndex := None];
          hole := oldIndex;
        } else {
          RepairStays(hash, t, hole, last, z);
        }
      }
      assert slots[..][z].None?;
    }
  }

  lemma ElementsNext<K>(t: Table<K>, i: nat)
    requires i < |t|
    ensures Elements(t[..i + 1]) == Elements(t[..i]) + if t[i].Some? then {t[i].value} else {}
  {
    ElementsPush(t[..i], t[i]);
    assert t[..i + 1] == t[..i] + [t[i]];
  }

  lemma EarlierKeysDiffer<K>(t: Table<K>, i: nat)
    requires NoDuplicates(t) && i < |t| && t[i].Some?
    ensures t[i].value !in Elements(t[..i])
  {
    forall j | 0 <= j < i && t[..i][j].Some?
      ensures t[..i][j].value != t[i].value
    {
      assert t[..i][j] == t[j];
    }
  }

  lemma {:induction false} SmallerContents<K>(t: Table<K>, i: nat)
    requires i <= |t|
    ensures |Elements(t[..i])| <= i
  {
    if i == 0 {
      assert Elements(t[..0]) == {};
    } else {
      SmallerContents(t, i - 1);
      assert t[..i] == t[..i - 1] + [t[i - 1]];
      ElementsPush(t[..i - 1], t[i - 1]);
    }
  }
}
