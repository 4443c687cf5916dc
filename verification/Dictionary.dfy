/** ASTDictionary: the hashed table of associations, which overrides how ASTSet sees a slot's key. */
module Dictionaries {
  import opened Probing
  import opened HashSets
  import opened Options

  class Association<K, V> {
    const key: K
    var value: V

    constructor (key: K, value: V)
      ensures this.key == key && this.value == value
    {
      this.key, this.value := key, value;
    }
  }

  /** keyAt: for every slot. */
  function KeysOf<K, V>(s: seq<Association?<K, V>>): (t: Table<K>)
    ensures |t| == |s| && forall i :: 0 <= i < |s| ==> t[i] == if s[i] == null then None else Some(s[i].key)
  {
    seq(|s|, i requires 0 <= i < |s| => if s[i] == null then None else Some(s[i].key))
  }

  lemma KeysOfUpdate<K, V>(s: seq<Association?<K, V>>, i: nat, a: Association?<K, V>)
    requires i < |s|
    ensures KeysOf(s[i := a]) == KeysOf(s)[i := if a == null then None else Some(a.key)]
  {
  }

  /** The associations in s hold exactly the map, and all belong to assocs. */
  ghost predicate Agree<K, V>(s: seq<Association?<K, V>>, contents: map<K, V>, assocs: set<Association<K, V>>)
    reads assocs
  {
    && contents.Keys == Elements(KeysOf(s))
    && forall a :: a in assocs && a in s ==> a.key in contents && contents[a.key] == a.value
  }

  ghost predicate Holds<K, V>(s: seq<Association?<K, V>>, assocs: set<Association<K, V>>) {
    forall i :: 0 <= i < |s| && s[i] != null ==> s[i] in assocs
  }

  /** Only associations of s are in u. */
  ghost predicate From<K, V>(u: seq<Association?<K, V>>, s: seq<Association?<K, V>>) {
    forall i :: 0 <= i < |u| && u[i] != null ==> u[i] in s
  }

  lemma SlotKeyIsElement<K, V>(s: seq<Association?<K, V>>, i: nat)
    requires i < |s| && s[i] != null
    ensures s[i].key in Elements(KeysOf(s))
  {
    assert KeysOf(s)[i].Some?;
  }

  /** The same associations in other slots hold the same map. */
  lemma AgreeRearranged<K, V>(s: seq<Association?<K, V>>, s': seq<Association?<K, V>>, contents: map<K, V>,
                              assocs: set<Association<K, V>>)
    requires Agree(s, contents, assocs) && Holds(s, assocs)
    requires Elements(KeysOf(s')) == Elements(KeysOf(s))
    requires From(s', s)
    ensures Agree(s', contents, assocs) && Holds(s', assocs)
  {
  }

  /** A new association in an empty slot extends the map. */
  lemma AgreeExtended<K, V>(s: seq<Association?<K, V>>, i: nat, a: Association<K, V>, contents: map<K, V>,
                            assocs: set<Association<K, V>>)
    requires Agree(s, contents, assocs) && Holds(s, assocs) && i < |s| && a.key !in contents
    requires Elements(KeysOf(s[i := a])) == Elements(KeysOf(s)) + {a.key}
    ensures Agree(s[i := a], contents[a.key := a.value], assocs + {a}) && Holds(s[i := a], assocs + {a})
  {
    forall b | b in assocs + {a} && b in s[i := a]
      ensures b.key in contents[a.key := a.value] && contents[a.key := a.value][b.key] == b.value
    {
      if b != a {
        assert b in s;
        assert b in assocs;
      }
    }
  }

  lemma StoredAssociation<K, V>(hash: K -> int, s: seq<Association?<K, V>>, i: nat, a: Association<K, V>,
                                contents: map<K, V>, assocs: set<Association<K, V>>)
    requires Agree(s, contents, assocs) && Holds(s, assocs) && i < |s| && s[i] == null && a.key !in contents
    requires Sound(hash, KeysOf(s)) && ScanResult(hash, KeysOf(s), a.key, Some(i))
    ensures Agree(s[i := a], contents[a.key := a.value], assocs + {a}) && Holds(s[i := a], assocs + {a})
    ensures Sound(hash, KeysOf(s[i := a]))
  {
    FillKeepsSound(hash, KeysOf(s), a.key, i);
    KeysOfUpdate(s, i, a);
    AgreeExtended(s, i, a, contents, assocs);
  }

  /** Clearing the one slot of a key removes it from the map. */
  lemma AgreeWithout<K, V>(s: seq<Association?<K, V>>, i: nat, contents: map<K, V>, assocs: set<Association<K, V>>)
    requires Agree(s, contents, assocs) && Holds(s, assocs) && i < |s| && s[i] != null
    requires NoDuplicates(KeysOf(s))
    requires Elements(KeysOf(s[i := null])) == Elements(KeysOf(s)) - {s[i].key}
    ensures Agree(s[i := null], contents - {s[i].key}, assocs) && Holds(s[i := null], assocs)
  {
    forall a | a in assocs && a in s[i := null]
      ensures a in s && a.key != s[i].key
    {
      var j :| 0 <= j < |s| && s[i := null][j] == a;
      assert KeysOf(s)[j] == Some(a.key);
      assert KeysOf(s)[i] == Some(s[i].key);
    }
  }

  /** The operations that change a dictionary. */
  datatype Operation<K, V> = Put(key: K, value: V) | Drop(key: K)

  /** What an operation does to a mathematical map. */
  function Effect<K, V>(contents: map<K, V>, op: Operation<K, V>): map<K, V> {
    match op
    case Put(k, v) => contents[k := v]
    case Drop(k) => contents - {k}
  }

  function Effects<K, V>(contents: map<K, V>, ops: seq<Operation<K, V>>): map<K, V>
    decreases |ops|
  {
    if ops == [] then contents else Effect(Effects(contents, ops[..|ops| - 1]), ops[|ops| - 1])
  }

  lemma EffectsStep<K, V>(contents: map<K, V>, ops: seq<Operation<K, V>>, done: nat)
    requires done < |ops|
    ensures Effects(contents, ops[..done + 1]) == Effect(Effects(contents, ops[..done]), ops[done])
  {
    assert ops[..done + 1][..done] == ops[..done];
  }

  /** Looking up a key after a run answers what was last put there, if it was not dropped since. */
  lemma {:induction false} LastPutWins<K, V>(contents: map<K, V>, ops: seq<Operation<K, V>>, i: nat)
    requires i < |ops| && ops[i].Put? && forall j :: i < j < |ops| ==> ops[j].key != ops[i].key
    ensures ops[i].key in Effects(contents, ops) && Effects(contents, ops)[ops[i].key] == ops[i].value
    decreases |ops|
  {
    var last := |ops| - 1;
    if i < last { LastPutWins(contents, ops[..last], i); }
  }

  class Dictionary<K(==), V> {
    const hash: K -> int
    /** The key that is nil, if that is a key. */
    const nilKey: Option<K>
    var tally: nat
    var slots: array<Association?<K, V>>

    /** The map that the dictionary stands for, and the associations it may hold. */
    ghost var contents: map<K, V>
    ghost var assocs: set<Association<K, V>>

    ghost function Keys(): Table<K>
      reads this, slots
    {
      KeysOf(slots[..])
    }

    ghost predicate Agrees()
      reads this, slots, assocs
    {
      Agree(slots[..], contents, assocs) && Holds(slots[..], assocs)
    }

    ghost predicate Valid()
      reads this, slots, assocs
    {
      && Sound(hash, Keys()) && HasNil(Keys())
      && Agrees() && tally == |contents|
      && !TooFull(slots.Length, tally)
    }

    constructor (hash: K -> int, nilKey: Option<K>, nElements: int)
      ensures Valid() && fresh(slots) && assocs == {} && this.hash == hash && this.nilKey == nilKey && contents == map[]
    {
      this.hash, this.nilKey := hash, nilKey;
      slots := new Association?<K, V>[InitialSize(nElements)](_ => null);
      tally := 0;
      contents, assocs := map[], {};
      new;
      EmptyTable(hash, Keys());
    }

    method ScanFor(k: K) returns (r: Option<nat>)
      requires slots.Length > 0
      ensures ScanResult(hash, Keys(), k, r)
    {
      var start := hash(k) % slots.Length;
      for index := start to slots.Length
        invariant forall j :: start <= j < index ==> slots[j] != null && slots[j].key != k
      {
        if slots[index] == null || slots[index].key == k { return Some(index); }
      }
      for index := 0 to start
        invariant forall j :: 0 <= j < index ==> slots[j] != null && slots[j].key != k
      {
        if slots[index] == null || slots[index].key == k { return Some(index); }
      }
      return None;
    }

    /** findElementOrNil: there always is such a slot, so the error is never raised. */
    method FindElementOrNil(k: K) returns (index: nat)
      requires Sound(hash, Keys()) && HasNil(Keys())
      ensures ScanResult(hash, Keys(), k, Some(index)) && index < slots.Length
      ensures slots[index] != null <==> k in Elements(Keys())
    {
      var r := ScanFor(k);
      ScanFinds(hash, Keys(), k, r);
      index := r.value;
    }

    /** at:ifAbsent: */
    method At(k: K) returns (v: Option<V>)
      requires Valid()
      ensures v == if k in contents then Some(contents[k]) else None
    {
      var index := FindElementOrNil(k);
      var assoc := slots[index];
      if assoc != null { SlotKeyIsElement(slots[..], index); }
      v := if assoc == null then None else Some(assoc.value);
    }

    /** at:put: changes the stored association of a known key, and adds one for a new key. */
    method AtPut(k: K, v: V)
      requires Valid()
      modifies this, slots, assocs
      ensures Valid() && (slots == old(slots) || fresh(slots)) && fresh(assocs - old(assocs))
      ensures contents == old(contents)[k := v]
    {
      var index := FindElementOrNil(k);
      var element := slots[index];
      if element == null {
        var a := new Association(k, v);
        AtNewIndex(index, a);
      } else {
        SetValue(index, v);
      }
    }

    /** value: sent to the association in a slot. */
    method SetValue(index: nat, v: V)
      requires Valid() && index < slots.Length && slots[index] != null
      modifies this`contents, assocs
      ensures Valid() && contents == old(contents)[slots[index].key := v]
    {
      var element := slots[index];
      ghost var s := slots[..];
      SlotKeyIsElement(s, index);
      element.value := v;
      contents := contents[element.key := v];
      forall a | a in assocs && a in s
        ensures a.key in contents && contents[a.key] == a.value
      {
        OneAssociationPerKey(s, index, a);
      }
      assert Agree(s, contents, assocs);
    }

    /** atNewIndex:put: */
    method AtNewIndex(index: nat, a: Association<K, V>)
      requires Valid() && index < slots.Length && slots[index] == null
      requires ScanResult(hash, Keys(), a.key, Some(index)) && a.key !in contents
      modifies this, slots
      ensures Valid() && (slots == old(slots) || fresh(slots)) && assocs == old(assocs) + {a}
      ensures contents == old(contents)[a.key := a.value]
    {
      Store(index, a);
      if TooFull(slots.Length, tally) {
        Grow();
      } else {
        NilRemains(Keys());
      }
    }

    method Store(index: nat, a: Association<K, V>)
      requires Valid() && index < slots.Length && slots[index] == null
      requires ScanResult(hash, Keys(), a.key, Some(index)) && a.key !in contents
      modifies this`tally, this`contents, this`assocs, slots
      ensures Sound(hash, Keys()) && Agrees() && tally == |contents| <= slots.Length
      ensures assocs == old(assocs) + {a} && contents == old(contents)[a.key := a.value]
    {
      ghost var s := slots[..];
      StoredAssociation(hash, s, index, a, contents, assocs);
      slots[index] := a;
      assert slots[..] == s[index := a];
      tally := tally + 1;
      contents := contents[a.key := a.value];
      assocs := assocs + {a};
    }

    /** grow: moves the associations themselves to a larger array. */
    method Grow()
      requires Sound(hash, Keys()) && Agrees() && tally == |contents| <= slots.Length
      modifies this`slots, this`tally
      ensures Valid() && fresh(slots) && tally == old(tally)
    {
      ghost var s, t := slots[..], Keys();
      Reinsert();
      AgreeRearranged(s, slots[..], contents, assocs);
      GrowthSuffices(|s|, tally);
      NilRemains(Keys());
    }

    /** The loop of grow, with the dictionary's noCheckAdd:. */
    method Reinsert()
      requires Sound(hash, Keys())
      modifies this`slots, this`tally
      ensures fresh(slots) && slots.Length == GrownSize(old(slots.Length))
      ensures Sound(hash, Keys()) && tally == |Elements(Keys())|
      ensures Elements(Keys()) == old(Elements(Keys()))
      ensures From(slots[..], old(slots[..]))
    {
      var oldElements := slots;
      ghost var s, t := slots[..], Keys();
      slots := new Association?<K, V>[GrownSize(oldElements.Length)](_ => null);
      tally := 0;
      EmptyTable(hash, Keys());
      NothingReinserted(s, t);
      ReinsertAll(oldElements, s, t);
    }

    method ReinsertAll(oldElements: array<Association?<K, V>>, ghost s: seq<Association?<K, V>>, ghost t: Table<K>)
      requires oldElements != slots && oldElements[..] == s && t == KeysOf(s) && NoDuplicates(t) && |s| < slots.Length
      requires Reinserted(s, t, 0)
      modifies this`tally, slots
      ensures Sound(hash, Keys()) && tally == |Elements(Keys())| && Elements(Keys()) == Elements(t)
             && From(slots[..], s)
    {
      for i := 0 to oldElements.Length
        invariant oldElements[..] == s
        invariant Reinserted(s, t, i)
      {
        if oldElements[i] == null {
          ElementsNext(t, i);
        } else {
          ReinsertAssociation(oldElements[i], s, t, i);
        }
      }
      assert t[..|t|] == t;
    }

    /** What the first i slots of s held is in the new slots. */
    ghost predicate Reinserted(s: seq<Association?<K, V>>, t: Table<K>, i: nat)
      requires i <= |t|
      reads this, slots
    {
      Sound(hash, Keys()) && tally == |Elements(Keys())| && Elements(Keys()) == Elements(t[..i]) && From(slots[..], s)
    }

    lemma NothingReinserted(s: seq<Association?<K, V>>, t: Table<K>)
      requires forall i :: 0 <= i < slots.Length ==> slots[i] == null
      requires Sound(hash, Keys()) && Elements(Keys()) == {} && tally == 0
      ensures Reinserted(s, t, 0)
    {
      assert Elements(t[..0]) == {};
    }

    /** One round of the loop. */
    method ReinsertAssociation(a: Association<K, V>, ghost s: seq<Association?<K, V>>, ghost t: Table<K>, ghost i: nat)
      requires t == KeysOf(s) && i < |s| && s[i] == a && NoDuplicates(t) && |s| < slots.Length && Reinserted(s, t, i)
      modifies this`tally, slots
      ensures Reinserted(s, t, i + 1)
    {
      ElementsNext(t, i);
      EarlierKeysDiffer(t, i);
      SmallerContents(t, i);
      NoCheckAdd(a);
    }

    method NoCheckAdd(a: Association<K, V>)
      requires Sound(hash, Keys()) && tally == |Elements(Keys())| < slots.Length && a.key !in Elements(Keys())
      modifies this`tally, slots
      ensures Sound(hash, Keys()) && tally == |Elements(Keys())|
      ensures Elements(Keys()) == old(Elements(Keys())) + {a.key}
      ensures forall j :: 0 <= j < slots.Length ==> slots[j] == old(slots[j]) || slots[j] == a
    {
      NilRemains(Keys());
      var index := FindElementOrNil(a.key);
      ghost var s := slots[..];
      FillKeepsSound(hash, Keys(), a.key, index);
      KeysOfUpdate(s, index, a);
      slots[index] := a;
      assert slots[..] == s[index := a];
      tally := tally + 1;
    }

    /** nil is a key of the dictionary. */
    ghost predicate HasNilKey(contents: map<K, V>) {
      nilKey.Some? && nilKey.value in contents
    }

    /** All of Valid but that every key can be found. */
    ghost predicate Consistent()
      reads this, slots, assocs
    {
      && slots.Length > 0 && NoDuplicates(Keys()) && HasNil(Keys())
      && Agrees() && tally == |contents| && !TooFull(slots.Length, tally)
    }

    /** removeKey:ifAbsent: answers the value that was there. Every other key stays in reach, exactly unless
        the repair is going to stop too early, which it only does at a nil key. */
    method RemoveKey(k: K) returns (v: Option<V>)
      requires Valid()
      modifies this, slots
      ensures Consistent() && slots == old(slots) && assocs == old(assocs)
      ensures v == if k in old(contents) then Some(old(contents)[k]) else None
      ensures contents == old(contents) - {k}
      ensures Valid() <==> !Loses(hash, old(Keys()), nilKey, k)
      ensures !HasNilKey(contents) ==> Valid()
    {
      var index := FindElementOrNil(k);
      var assoc := slots[index];
      if assoc == null {
        v := None;
        NothingToLose(hash, Keys(), nilKey, k);
      } else {
        v := Some(assoc.value);
        SlotKeyIsElement(slots[..], index);
        RemoveAt(index, k);
      }
    }

    /** The rest of it, when the key has been found. */
    method RemoveAt(index: nat, ghost k: K)
      requires Valid() && index < slots.Length && slots[index] != null && slots[index].key == k
      modifies slots, this`tally, this`contents
      ensures Consistent() && contents == old(contents) - {k}
      ensures Valid() <==> !Loses(hash, old(Keys()), nilKey, k)
      ensures !HasNilKey(contents) ==> Valid()
    {
      ghost var t, steps: nat := Keys(), slots.Length - 1;
      ghost var z := ClearSlot(index);
      ghost var u := Keys();
      ghost var hole, stop := FixCollisions(index, z, steps);
      LosesAt(hash, t, u, index, nilKey, k, steps, hole, stop);
    }

    /** The first half of removeKey: z is another empty slot. */
    method ClearSlot(index: nat) returns (ghost z: nat)
      requires Valid() && index < slots.Length && slots[index] != null
      modifies slots, this`tally, this`contents
      ensures Repairing(hash, Keys(), index, index) && Agrees() && tally == |contents| && !TooFull(slots.Length, tally)
      ensures contents == old(contents) - {old(slots[index].key)}
      ensures z < slots.Length && slots[z] == null && z != index
      ensures Keys() == old(Keys())[index := None]
    {
      ghost var s := slots[..];
      ClearStartsRepair(hash, KeysOf(s), index);
      z :| 0 <= z < |s| && KeysOf(s)[z].None?;
      KeysOfUpdate(s, index, null);
      AgreeWithout(s, index, contents, assocs);
      SlotKeyIsElement(s, index);
      contents := contents - {slots[index].key};
      slots[index] := null;
      assert slots[..] == s[index := null];
      assert slots[z] == null && z != index;
      tally := tally - 1;
    }

    /** The second half of removeKey: */
    method FixCollisions(index: nat, ghost z: nat, ghost steps: nat) returns (ghost hole: nat, ghost stop: nat)
      requires Repairing(hash, Keys(), index, index) && Agrees() && tally == |contents| && !TooFull(slots.Length, tally)
      requires z < slots.Length && slots[z] == null && z != index && steps == slots.Length - 1
      modifies slots
      ensures Consistent()
      ensures (hole, stop) == RepairEnd(hash, old(Keys()), nilKey, index, index, steps)
      ensures Valid() <==> !CutsOff(hash, old(Keys()), index, hole, stop)
      ensures !HasNilKey(contents) ==> Valid()
    {
      ghost var s := slots[..];
      hole, stop := FixCollisionsFrom(index, z, steps);
      AgreeRearranged(s, slots[..], contents, assocs);
    }

    /** What the walk of the repair has kept so far. */
    ghost predicate Walking(s: seq<Association?<K, V>>, index: nat, hole: nat, last: nat, z: nat)
      reads this, slots
    {
      && Repairing(hash, Keys(), hole, last) && index < |s| && Visited(index, hole, last) && !Visited(index, z, last)
      && z < slots.Length && slots[z] == null
      && Untouched(KeysOf(s), Keys(), index, last)
      && Elements(Keys()) == Elements(KeysOf(s)) && From(slots[..], s)
    }

    /** fixCollisionsFrom: over associations. It stops at the first slot whose key is nil: an empty one, or
        that of an association with a nil key. */
    method FixCollisionsFrom(index: nat, ghost z: nat, ghost steps: nat) returns (ghost hole: nat, ghost stop: nat)
      requires Repairing(hash, Keys(), index, index)
      requires z < slots.Length && slots[z] == null && z != index && steps == slots.Length - 1
      modifies slots
      ensures Repaired(old(slots[..]), index, hole, stop)
      ensures (hole, stop) == RepairEnd(hash, old(Keys()), nilKey, index, index, steps)
    {
      ghost var s, t, left := slots[..], Keys(), steps;
      ghost var end := RepairEnd(hash, t, nilKey, index, index, steps);
      var oldIndex: nat := index;
      hole, stop := index, index;
      var stopped := false;
      while !stopped
        invariant if stopped then Repaired(s, index, hole, stop) && end == (hole, stop)
                  else Going(s, t, index, hole, oldIndex, z, left, end)
        decreases if stopped then 0 else left + 1
      {
        stopped, oldIndex, hole, left := RepairNext(s, t, index, oldIndex, hole, z, left, end);
        if stopped { stop := oldIndex; }
      }
    }

    /** The repair is still going on, to end as end tells. */
    ghost predicate Going(s: seq<Association?<K, V>>, t: Table<K>, index: nat,
                          hole: nat, last: nat, z: nat, left: nat, end: (nat, nat))
      reads this, slots
    {
      && Walking(s, index, hole, last, z) && t == KeysOf(s) && Ahead(last, z, slots.Length) <= left
      && RepairEnd(hash, t, nilKey, hole, last, left) == end
    }

    /** What holds when the repair has stopped. */
    ghost predicate Repaired(s: seq<Association?<K, V>>, index: nat, hole: nat, stop: nat)
      reads this, slots
    {
      && slots.Length > 0 && NoDuplicates(Keys()) && HasNil(Keys())
      && (Sound(hash, Keys()) <==> !CutsOff(hash, KeysOf(s), index, hole, stop))
      && ((nilKey.Some? && nilKey.value in Elements(Keys())) || Sound(hash, Keys()))
      && Elements(Keys()) == Elements(KeysOf(s)) && From(slots[..], s)
    }

    /** Looks at the slot after last, and stops or repairs it. */
    method RepairNext(ghost s: seq<Association?<K, V>>, ghost t: Table<K>, ghost index: nat, last: nat, ghost hole: nat,
                      ghost z: nat, ghost left: nat, ghost end: (nat, nat))
      returns (stopped: bool, oldIndex: nat, ghost hole': nat, ghost left': nat)
      requires Going(s, t, index, hole, last, z, left, end)
      modifies slots
      ensures if stopped then Repaired(s, index, hole', oldIndex) && end == (hole', oldIndex)
              else left' < left && Going(s, t, index, hole', oldIndex, z, left', end)
    {
      oldIndex := if last == slots.Length - 1 then 0 else last + 1;
      SeenAsBefore(s, index, hole, last, oldIndex, z);
      stopped := slots[oldIndex] == null || Some(slots[oldIndex].key) == nilKey;
      if stopped {
        hole', left' := hole, left;
        EndStops(hash, t, nilKey, hole, last, left, oldIndex);
        RepairStops(s, index, hole, last, oldIndex, z);
      } else {
        hole' := RepairSlot(s, index, oldIndex, hole, last, z);
        left' := left - 1;
        EndGoesOn(hash, t, nilKey, hole, last, left, hole', oldIndex, left');
      }
    }

    /** The next slot is as it was before the repair, and the nil slot is not behind. */
    lemma SeenAsBefore(s: seq<Association?<K, V>>, index: nat, hole: nat, last: nat, p: nat, z: nat)
      requires Walking(s, index, hole, last, z) && p == Successor(last, slots.Length)
      ensures p < |s| == slots.Length && KeysOf(s)[p] == Keys()[p]
      ensures slots[p] != null ==> 0 < Ahead(p, z, slots.Length) == Ahead(last, z, slots.Length) - 1
    {
    }

    /** What is known when the repair stops at slot p. */
    lemma RepairStops(s: seq<Association?<K, V>>, index: nat, hole: nat, last: nat, p: nat, z: nat)
      requires Walking(s, index, hole, last, z) && p == Successor(last, slots.Length)
      requires slots[p] == null || Some(slots[p].key) == nilKey
      ensures Repaired(s, index, hole, p)
    {
      assert Keys()[z].None?;
      SoundIffNotCutOff(hash, KeysOf(s), Keys(), index, hole, last, z);
      if slots[p] == null {
        RepairEnds(hash, Keys(), hole, last, z);
      } else {
        SlotKeyIsElement(slots[..], p);
      }
    }

    /** One round of fixCollisionsFrom: moves the association at oldIndex into the hole if its key needs it. */
    method RepairSlot(ghost s: seq<Association?<K, V>>, ghost index: nat, oldIndex: nat,
                      ghost hole: nat, ghost last: nat, ghost z: nat)
      returns (ghost hole': nat)
      requires Walking(s, index, hole, last, z) && oldIndex == Successor(last, slots.Length) && slots[oldIndex] != null
      modifies slots
      ensures Walking(s, index, hole', oldIndex, z)
      ensures hole' == if OnPath(Home(hash, old(slots[oldIndex].key), slots.Length), hole, oldIndex)
                       then oldIndex else hole
      ensures 0 <= Ahead(oldIndex, z, slots.Length) < Ahead(last, z, slots.Length)
    {
      ghost var t, u := slots[..], Keys();
      var element := slots[oldIndex];
      var newIndex := ScanFor(element.key);
      RepairScan(hash, u, hole, last, z, newIndex);
      ScanTells(hash, u, hole, oldIndex, newIndex.value);
      if oldIndex != newIndex.value {
        RepairMoves(hash, u, hole, last, z);
        KeysOfUpdate(t, hole, element);
        KeysOfUpdate(t[hole := element], oldIndex, null);
        slots[oldIndex], slots[newIndex.value] := slots[newIndex.value], slots[oldIndex];
        assert slots[..] == t[hole := element][oldIndex := null];
        hole' := oldIndex;
      } else {
        RepairStays(hash, u, hole, last, z);
        hole' := hole;
      }
    }

    /** A removal that cuts another key off. */
    predicate Cuts(op: Operation<K, V>)
      reads this, slots
    {
      op.Drop? && Loses(hash, KeysOf(slots[..]), nilKey, op.key)
    }

    /** One operation, unless it cuts a key off. */
    method Perform(op: Operation<K, V>) returns (performed: bool)
      requires Valid()
      modifies this, slots, assocs
      ensures Valid() && (slots == old(slots) || fresh(slots)) && fresh(assocs - old(assocs))
      ensures performed <==> !old(Cuts(op))
      ensures if performed then contents == Effect(old(contents), op) else contents == old(contents) && Cuts(op)
      ensures !performed ==> HasNilKey(contents)
    {
      performed := !Cuts(op);
      if !performed {
        OnlyNilKeyLoses(hash, Keys(), nilKey, op.key);
        return;
      }
      match op
      case Put(k, v) => AtPut(k, v);
      case Drop(k) => var _ := RemoveKey(k);
    }

    /** A run has come to a removal that cuts a key off. */
    ghost predicate Stopped(ops: seq<Operation<K, V>>, done: nat)
      reads this, slots
    {
      done < |ops| && Cuts(ops[done]) && HasNilKey(contents)
    }

    /** The next operation of a run that began with the contents before. */
    method PerformNext(ops: seq<Operation<K, V>>, done: nat, ghost before: map<K, V>) returns (next: nat)
      requires Valid() && done < |ops| && contents == Effects(before, ops[..done])
      modifies this, slots, assocs
      ensures Valid() && (slots == old(slots) || fresh(slots)) && fresh(assocs - old(assocs))
      ensures next <= |ops| && contents == Effects(before, ops[..next])
      ensures next == done + 1 || (next == done && Stopped(ops, done))
    {
      EffectsStep(before, ops, done);
      var performed := Perform(ops[done]);
      next := if performed then done + 1 else done;
    }

    /** Any run of operations, growth included, refines a finite map, up to the first removal that would cut another
        key off; without a nil key there is none. */
    method PerformAll(ops: seq<Operation<K, V>>) returns (done: nat)
      requires Valid()
      modifies this, slots, assocs
      ensures Valid() && (slots == old(slots) || fresh(slots)) && fresh(assocs - old(assocs))
      ensures done <= |ops| && contents == Effects(old(contents), ops[..done]) && tally == |contents|
      ensures done == |ops| || Stopped(ops, done)
    {
      done := 0;
      ghost var before := contents;
      var stopped := false;
      while done < |ops| && !stopped
        invariant Valid() && (slots == old(slots) || fresh(slots)) && fresh(assocs - old(assocs))
        invariant done <= |ops| && contents == Effects(before, ops[..done])
        invariant stopped ==> Stopped(ops, done)
        decreases |ops| - done, !stopped
      {
        var next := PerformNext(ops, done, before);
        stopped, done := next == done, next;
      }
    }
  }

  /** Two associations in a table without duplicates have different keys. */
  lemma OneAssociationPerKey<K, V>(s: seq<Association?<K, V>>, i: nat, a: Association<K, V>)
    requires NoDuplicates(KeysOf(s)) && i < |s| && s[i] != null && a in s
    ensures a.key == s[i].key ==> a == s[i]
  {
    var j :| 0 <= j < |s| && s[j] == a;
    assert KeysOf(s)[j] == Some(a.key) && KeysOf(s)[i] == Some(s[i].key);
  }
}
