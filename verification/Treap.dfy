/** The treap that interns symbols and classes: a search tree stored in a growing vector, whose heap
    priority is a multiplicative hash of the slot number.
 */
module Treaps {
  import opened Options

  /** Keys are only compared; every countable total order embeds in the reals. */
  type Key = real

  const MAX_SLOTS: nat := 0x7FFFFFFF
  const MULTIPLIER: int := 1999999973
  const WORD: int := 0x1_0000_0000

  function Priority(pos: int): int {
    (pos + 1) * MULTIPLIER % WORD
  }

  /** The multiplier is odd, so distinct slots have distinct priorities. */
  lemma PriorityInjective(a: nat, b: nat)
    requires a < MAX_SLOTS && b < MAX_SLOTS && Priority(a) == Priority(b)
    ensures a == b
  {
    var qa, qb := (a + 1) * MULTIPLIER / WORD, (b + 1) * MULTIPLIER / WORD;
    MultiplesOfWord(a - b, qa - qb);
  }

  /** 2462478829 is the inverse of the multiplier modulo 2^32. */
  lemma MultiplesOfWord(d: int, q: int)
    requires d * 1999999973 == q * 0x1_0000_0000 && -0x1_0000_0000 < d < 0x1_0000_0000
    ensures d == 0
  {
    assert d == (q * 2462478829 - d * 1146681046) * 0x1_0000_0000;
  }

  /** The shape of a tree of slots. */
  datatype Tree = Leaf | Node(slot: nat, left: Tree, right: Tree)

  function Slots(t: Tree): set<nat> {
    match t
    case Leaf => {}
    case Node(s, l, r) => {s} + Slots(l) + Slots(r)
  }

  /** Strict search order on the keys of the slots. */
  ghost predicate Ordered(t: Tree, keys: seq<Key>) {
    match t
    case Leaf => true
    case Node(s, l, r) =>
      && s < |keys| && Ordered(l, keys) && Ordered(r, keys)
      && (forall x :: x in Slots(l) ==> x < |keys| && keys[x] < keys[s])
      && (forall x :: x in Slots(r) ==> x < |keys| && keys[s] < keys[x])
  }

  /** Strict max-heap order on the priorities. */
  ghost predicate Heap(t: Tree) {
    match t
    case Leaf => true
    case Node(s, l, r) =>
      && Heap(l) && Heap(r)
      && (forall x :: x in Slots(l) + Slots(r) ==> Priority(x) < Priority(s))
  }

  ghost predicate IsTreap(t: Tree, keys: seq<Key>) {
    Ordered(t, keys) && Heap(t) && |keys| <= MAX_SLOTS
  }

  lemma OrderedSlots(t: Tree, keys: seq<Key>)
    requires Ordered(t, keys)
    ensures forall x :: x in Slots(t) ==> x < |keys|
    ensures forall x, y :: x in Slots(t) && y in Slots(t) && keys[x] == keys[y] ==> x == y
  {
    if t.Node? {
      OrderedSlots(t.left, keys);
      OrderedSlots(t.right, keys);
    }
  }

  // Uniqueness of the shape

  /** Two treaps with the same slots have the same shape. */
  lemma {:induction false} SameSlotsSameShape(t: Tree, u: Tree, keys: seq<Key>)
    requires IsTreap(t, keys) && IsTreap(u, keys) && Slots(t) == Slots(u)
    ensures t == u
    decreases t
  {
    NodeHasSlot(t);
    NodeHasSlot(u);
    if t.Node? {
      OrderedSlots(t, keys);
      OrderedSlots(u, keys);
      PriorityOrder(t, u);
      SubtreeSlots(t, keys);
      SubtreeSlots(u, keys);
      assert Slots(t.left) == Slots(u.left);
      assert Slots(t.right) == Slots(u.right);
      SameSlotsSameShape(t.left, u.left, keys);
      SameSlotsSameShape(t.right, u.right, keys);
    }
  }

  lemma NodeHasSlot(t: Tree)
    ensures Slots(t) == {} <==> t.Leaf?
    ensures t.Node? ==> t.slot in Slots(t)
  {
  }

  lemma PriorityOrder(t: Tree, u: Tree)
    requires t.Node? && u.Node? && Heap(t) && Heap(u)
    requires t.slot in Slots(u) && u.slot in Slots(t)
    ensures t.slot == u.slot
  {
    if t.slot != u.slot {
      RootIsMaximal(t, u.slot);
      RootIsMaximal(u, t.slot);
    }
  }

  lemma RootIsMaximal(t: Tree, x: nat)
    requires t.Node? && Heap(t) && x in Slots(t) && x != t.slot
    ensures Priority(x) < Priority(t.slot)
  {
    assert x in Slots(t.left) + Slots(t.right);
  }

  /** The subtrees hold exactly the smaller and the larger keys. */
  lemma SubtreeSlots(t: Tree, keys: seq<Key>)
    requires t.Node? && Ordered(t, keys)
    ensures forall x :: x in Slots(t.left) <==> x in Slots(t) && x < |keys| && keys[x] < keys[t.slot]
    ensures forall x :: x in Slots(t.right) <==> x in Slots(t) && x < |keys| && keys[t.slot] < keys[x]
  {
  }

  ghost predicate DistinctOn(slots: set<nat>, keys: seq<Key>) {
    forall x, y :: x in slots && y in slots ==> x < |keys| && y < |keys| && (keys[x] == keys[y] ==> x == y)
  }

  ghost predicate IsMaximal(s: nat, slots: set<nat>) {
    s in slots && forall x :: x in slots ==> Priority(x) <= Priority(s)
  }

  lemma MaximalExists(slots: set<nat>)
    requires slots != {}
    ensures exists s :: IsMaximal(s, slots)
  {
    var s :| s in slots;
    if slots == {s} {
      assert IsMaximal(s, slots);
    } else {
      MaximalExists(slots - {s});
      var m: nat :| IsMaximal(m, slots - {s});
      if Priority(m) < Priority(s) {
        assert forall x :: x in slots ==> x == s || x in slots - {s};
        assert IsMaximal(s, slots);
      } else {
        assert forall x :: x in slots ==> x == s || x in slots - {s};
        assert IsMaximal(m, slots);
      }
    }
  }

  ghost function Root(slots: set<nat>): nat
    requires slots != {}
    ensures IsMaximal(Root(slots), slots)
  {
    MaximalExists(slots);
    var s :| IsMaximal(s, slots);
    s
  }

  /** The reference shape: the slot of maximum priority at the root, the rest split by its key. */
  ghost function Canonical(slots: set<nat>, keys: seq<Key>): Tree
    requires DistinctOn(slots, keys)
    decreases slots
  {
    if slots == {} then Leaf else
      var r := Root(slots);
      var below := set x | x in slots && keys[x] < keys[r];
      var above := set x | x in slots && keys[r] < keys[x];
      assert r in slots && r !in below && r !in above;
      Node(r, Canonical(below, keys), Canonical(above, keys))
  }

  lemma {:induction false} CanonicalIsTreap(slots: set<nat>, keys: seq<Key>)
    requires DistinctOn(slots, keys) && |keys| <= MAX_SLOTS
    ensures Slots(Canonical(slots, keys)) == slots && IsTreap(Canonical(slots, keys), keys)
    decreases slots
  {
    if slots != {} {
      var r := Root(slots);
      var below := set x | x in slots && keys[x] < keys[r];
      var above := set x | x in slots && keys[r] < keys[x];
      assert r in slots && r !in below && r !in above;
      CanonicalIsTreap(below, keys);
      CanonicalIsTreap(above, keys);
      RootIsAbove(r, slots, below, above, keys);
      JoinTreaps(r, Canonical(below, keys), Canonical(above, keys), keys);
    }
  }

  lemma RootIsAbove(r: nat, slots: set<nat>, below: set<nat>, above: set<nat>, keys: seq<Key>)
    requires IsMaximal(r, slots) && DistinctOn(slots, keys) && |keys| <= MAX_SLOTS
    requires below == set x | x in slots && keys[x] < keys[r]
    requires above == set x | x in slots && keys[r] < keys[x]
    ensures slots == {r} + below + above
    ensures forall x :: x in below + above ==> Priority(x) < Priority(r)
  {
    forall x | x in below + above
      ensures Priority(x) < Priority(r)
    {
      if Priority(x) == Priority(r) { PriorityInjective(x, r); }
    }
  }

  lemma JoinTreaps(r: nat, left: Tree, right: Tree, keys: seq<Key>)
    requires IsTreap(left, keys) && IsTreap(right, keys) && r < |keys|
    requires forall x :: x in Slots(left) ==> x < |keys| && keys[x] < keys[r]
    requires forall x :: x in Slots(right) ==> x < |keys| && keys[r] < keys[x]
    requires forall x :: x in Slots(left) + Slots(right) ==> Priority(x) < Priority(r)
    ensures IsTreap(Node(r, left, right), keys)
  {
  }

  /** Every treap has the canonical shape of its slots. */
  lemma TreapIsCanonical(t: Tree, keys: seq<Key>)
    requires IsTreap(t, keys)
    ensures DistinctOn(Slots(t), keys) && t == Canonical(Slots(t), keys)
  {
    OrderedSlots(t, keys);
    CanonicalIsTreap(Slots(t), keys);
    SameSlotsSameShape(t, Canonical(Slots(t), keys), keys);
  }

  // Insertion on shapes

  function RotateRight(t: Tree): Tree
    requires t.Node? && t.left.Node?
  {
    Node(t.left.slot, t.left.left, Node(t.slot, t.left.right, t.right))
  }

  function RotateLeft(t: Tree): Tree
    requires t.Node? && t.right.Node?
  {
    Node(t.right.slot, Node(t.slot, t.left, t.right.left), t.right.right)
  }

  function Inserted(t: Tree, target: nat, keys: seq<Key>): (u: Tree)
    requires target < |keys| && Ordered(t, keys)
    ensures u.Node?
  {
    match t
    case Leaf => Node(target, Leaf, Leaf)
    case Node(s, l, r) =>
      if keys[target] < keys[s] then
        var u := Node(s, Inserted(l, target, keys), r);
        if Priority(u.left.slot) > Priority(s) then RotateRight(u) else u
      else
        var u := Node(s, l, Inserted(r, target, keys));
        if Priority(u.right.slot) > Priority(s) then RotateLeft(u) else u
  }

  ghost predicate Absent(target: nat, t: Tree, keys: seq<Key>) {
    target < |keys| && forall x :: x in Slots(t) ==> x < |keys| && keys[x] != keys[target]
  }

  /** Insertion adds exactly the target and keeps both orders. */
  lemma {:induction false} InsertedIsTreap(t: Tree, target: nat, keys: seq<Key>)
    requires IsTreap(t, keys) && Absent(target, t, keys)
    ensures var u := Inserted(t, target, keys); IsTreap(u, keys) && Slots(u) == Slots(t) + {target}
    decreases t
  {
    if t.Node? {
      var s := t.slot;
      if keys[target] < keys[s] {
        InsertedIsTreap(t.left, target, keys);
        FixLeft(t, Inserted(t.left, target, keys), target, keys);
      } else {
        InsertedIsTreap(t.right, target, keys);
        FixRight(t, Inserted(t.right, target, keys), target, keys);
      }
    }
  }

  lemma FixLeft(t: Tree, l: Tree, target: nat, keys: seq<Key>)
    requires t.Node? && IsTreap(t, keys) && IsTreap(l, keys) && target < |keys|
    requires l.Node? && Slots(l) == Slots(t.left) + {target} && keys[target] < keys[t.slot]
    ensures var u := Node(t.slot, l, t.right);
            var v := if Priority(l.slot) > Priority(t.slot) then RotateRight(u) else u;
            IsTreap(v, keys) && Slots(v) == Slots(t) + {target}
  {
    var u := Node(t.slot, l, t.right);
    OrderedAttach(t, u, target, keys);
    OrderedSlots(t, keys);
    NodeHasSlot(l);
    if Priority(l.slot) > Priority(t.slot) {
      RotateRightOrdered(u, keys);
      RotatedHeap(t.slot, l, t.right, target, t.left, keys);
    } else {
      if Priority(l.slot) == Priority(t.slot) { PriorityInjective(l.slot, t.slot); }
      HeapAttach(u);
    }
  }

  lemma FixRight(t: Tree, r: Tree, target: nat, keys: seq<Key>)
    requires t.Node? && IsTreap(t, keys) && IsTreap(r, keys) && target < |keys|
    requires r.Node? && Slots(r) == Slots(t.right) + {target} && keys[t.slot] < keys[target]
    ensures var u := Node(t.slot, t.left, r);
            var v := if Priority(r.slot) > Priority(t.slot) then RotateLeft(u) else u;
            IsTreap(v, keys) && Slots(v) == Slots(t) + {target}
  {
    var u := Node(t.slot, t.left, r);
    OrderedAttach(t, u, target, keys);
    OrderedSlots(t, keys);
    NodeHasSlot(r);
    if Priority(r.slot) > Priority(t.slot) {
      RotateLeftOrdered(u, keys);
      RotatedHeap(t.slot, r, t.left, target, t.right, keys);
    } else {
      if Priority(r.slot) == Priority(t.slot) { PriorityInjective(r.slot, t.slot); }
      HeapAttach(u);
    }
  }

  lemma OrderedAttach(t: Tree, u: Tree, target: nat, keys: seq<Key>)
    requires t.Node? && u.Node? && u.slot == t.slot && Ordered(t, keys) && target < |keys|
    requires Ordered(u.left, keys) && Ordered(u.right, keys)
    requires Slots(u.left) == Slots(t.left)
             || (Slots(u.left) == Slots(t.left) + {target} && keys[target] < keys[t.slot])
    requires Slots(u.right) == Slots(t.right)
          || (Slots(u.right) == Slots(t.right) + {target} && keys[target] > keys[t.slot])
    ensures Ordered(u, keys)
  {
  }

  lemma RotateRightOrdered(u: Tree, keys: seq<Key>)
    requires u.Node? && u.left.Node? && Ordered(u, keys)
    ensures Ordered(RotateRight(u), keys) && Slots(RotateRight(u)) == Slots(u)
  {
    assert Ordered(Node(u.slot, u.left.right, u.right), keys);
  }

  lemma RotateLeftOrdered(u: Tree, keys: seq<Key>)
    requires u.Node? && u.right.Node? && Ordered(u, keys)
    ensures Ordered(RotateLeft(u), keys) && Slots(RotateLeft(u)) == Slots(u)
  {
    assert Ordered(Node(u.slot, u.left, u.right.left), keys);
  }

  /** A child that outranks the root s after an insertion is the inserted slot, and may be rotated up. */
  lemma RotatedHeap(s: nat, child: Tree, other: Tree, target: nat, was: Tree, keys: seq<Key>)
    requires child.Node? && Heap(child) && Heap(other) && Ordered(child, keys)
    requires Slots(child) == Slots(was) + {target}
    requires forall x :: x in Slots(was) + Slots(other) ==> Priority(x) < Priority(s)
    requires Priority(child.slot) > Priority(s)
    ensures Heap(Node(child.slot, child.left, Node(s, child.right, other)))
    ensures Heap(Node(child.slot, Node(s, other, child.left), child.right))
  {
    NodeHasSlot(child);
    SubtreesDisjoint(child, keys);
    assert child.slot == target;
    assert Slots(child.left) <= Slots(was) && Slots(child.right) <= Slots(was);
    assert Heap(Node(s, child.right, other));
    assert Heap(Node(s, other, child.left));
  }

  lemma HeapAttach(u: Tree)
    requires u.Node? && Heap(u.left) && Heap(u.right)
    requires u.left.Node? ==> Priority(u.left.slot) < Priority(u.slot)
    requires u.right.Node? ==> Priority(u.right.slot) < Priority(u.slot)
    ensures Heap(u)
  {
    forall x | x in Slots(u.left) + Slots(u.right)
      ensures Priority(x) < Priority(u.slot)
    {
      if x in Slots(u.left) {
        if x != u.left.slot { RootIsMaximal(u.left, x); }
      } else {
        if x != u.right.slot { RootIsMaximal(u.right, x); }
      }
    }
  }

  lemma SubtreesDisjoint(t: Tree, keys: seq<Key>)
    requires t.Node? && Ordered(t, keys)
    ensures Apart(t)
    ensures forall s :: s in Slots(t) ==> s < |keys|
  {
    OrderedSlots(t, keys);
  }

  /** The root and the two subtrees share no slot. */
  ghost predicate Apart(t: Tree)
    requires t.Node?
  {
    Slots(t.left) !! Slots(t.right) && t.slot !in Slots(t.left) && t.slot !in Slots(t.right)
  }

  // Interning as a function of the keys in slot order

  ghost predicate Distinct(keys: seq<Key>) {
    forall i, j :: 0 <= i < j < |keys| ==> keys[i] != keys[j]
  }

  /** The slot that holds key, if any. */
  function Find(keys: seq<Key>, key: Key): (slot: Option<nat>)
    ensures slot.None? ==> key !in keys
    ensures slot.Some? ==> slot.value < |keys| && keys[slot.value] == key
  {
    if keys == [] then None
    else if keys[|keys| - 1] == key then Some(|keys| - 1)
    else Find(keys[..|keys| - 1], key)
  }

  /** The presets are added before anything else. */
  function Initialized(keys: seq<Key>, init: seq<Key>): seq<Key> {
    if |keys| < |init| then init else keys
  }

  /** The keys after interning key, and the slot answered. */
  function Interned(keys: seq<Key>, init: seq<Key>, key: Key): (seq<Key>, nat) {
    var ks := Initialized(keys, init);
    match Find(ks, key)
    case Some(slot) => (ks, slot)
    case None => (ks + [key], |ks|)
  }

  /** Interning answers a slot that holds the key, keeps all slots, and adds nothing but the presets and the key. */
  lemma InternedAdds(keys: seq<Key>, init: seq<Key>, key: Key)
    requires Distinct(keys) && (|keys| < |init| ==> keys == [] && Distinct(init))
    ensures var (ks, slot) := Interned(keys, init, key);
            && slot < |ks| && ks[slot] == key && keys <= ks && Distinct(ks)
            && (forall k :: k in ks <==> k in keys || k == key || (|keys| < |init| && k in init))
            && (key in keys ==> ks == keys || |keys| < |init|)
  {
  }

  // The vector

  datatype Element = Element(value: Key, left: int, right: int)

  function Values(table: seq<Element>): (keys: seq<Key>)
    ensures |keys| == |table| && forall i :: 0 <= i < |table| ==> keys[i] == table[i].value
  {
    seq(|table|, i requires 0 <= i < |table| => table[i].value)
  }

  /** The links of the vector from slot i on form the shape t. */
  ghost predicate Links(table: seq<Element>, i: int, t: Tree)
    decreases t
  {
    match t
    case Leaf => i == -1
    case Node(s, l, r) => i == s && s < |table| && Links(table, table[s].left, l) && Links(table, table[s].right, r)
  }

  lemma {:induction false} LinksFrame(table: seq<Element>, table': seq<Element>, i: int, t: Tree)
    requires Links(table, i, t) && |table| <= |table'|
    requires forall s :: s in Slots(t) && s < |table| ==> table'[s] == table[s]
    ensures Links(table', i, t)
    decreases t
  {
    if t.Node? {
      LinksFrame(table, table', table[t.slot].left, t.left);
      LinksFrame(table, table', table[t.slot].right, t.right);
    }
  }

  /** The slots 0 to n - 1. */
  function FirstSlots(n: nat): set<nat> {
    if n == 0 then {} else FirstSlots(n - 1) + {n - 1}
  }

  lemma FirstSlotsContents(n: nat)
    ensures forall s :: s in FirstSlots(n) <==> 0 <= s < n
  {
  }

  ghost predicate AllSlots(t: Tree, n: nat) {
    forall s :: s in Slots(t) <==> 0 <= s < n
  }

  class Treap {
    var table: seq<Element>
    var root: int
    var free: nat
    const init: seq<Key>
    const empty: Key
    ghost var tree: Tree

    ghost predicate Valid()
      reads this
    {
      && |table| == free <= MAX_SLOTS && |init| < MAX_SLOTS
      && Links(table, root, tree)
      && IsTreap(tree, Values(table))
      && AllSlots(tree, free)
      && (free < |init| ==> free == 0)
      && (free >= |init| ==> init <= Values(table))
    }

    constructor (init: seq<Key>, empty: Key)
      requires |init| < MAX_SLOTS
      ensures Valid() && table == [] && this.init == init && this.empty == empty
    {
      this.init, this.empty := init, empty;
      table, root, free, tree := [], -1, 0, Leaf;
      new;
      assert Values(table) == [];
    }

    /** Rotates the subtree at slot y, whose left child rises. */
    method RightRotate(y: nat, ghost t: Tree) returns (x: int)
      requires t.Node? && t.left.Node? && t.slot == y && Links(table, y, t)
      requires Ordered(t, Values(table))
      modifies this`table
      ensures Links(table, x, RotateRight(t)) && Values(table) == old(Values(table))
      ensures forall i :: 0 <= i < |table| && i !in Slots(t) ==> table[i] == old(table[i])
    {
      SubtreesDisjoint(t, Values(table));
      SubtreesDisjoint(t.left, Values(table));
      x := table[y].left;
      var t2 := table[x].right;
      ghost var t0 := table;
      table := table[x := table[x].(right := y)];
      table := table[y := table[y].(left := t2)];
      ValuesFrame(t0, table);
      LinksFrame(t0, table, t0[x].left, t.left.left);
      LinksFrame(t0, table, t2, t.left.right);
      LinksFrame(t0, table, t0[y].right, t.right);
      LinksOfNode(table, Node(y, t.left.right, t.right));
      LinksOfNode(table, RotateRight(t));
    }

    /** Rotates the subtree at slot x, whose right child rises. */
    method LeftRotate(x: nat, ghost t: Tree) returns (y: int)
      requires t.Node? && t.right.Node? && t.slot == x && Links(table, x, t)
      requires Ordered(t, Values(table))
      modifies this`table
      ensures Links(table, y, RotateLeft(t)) && Values(table) == old(Values(table))
      ensures forall i :: 0 <= i < |table| && i !in Slots(t) ==> table[i] == old(table[i])
    {
      SubtreesDisjoint(t, Values(table));
      SubtreesDisjoint(t.right, Values(table));
      y := table[x].right;
      var t2 := table[y].left;
      ghost var t0 := table;
      table := table[y := table[y].(left := x)];
      table := table[x := table[x].(right := t2)];
      ValuesFrame(t0, table);
      LinksFrame(t0, table, t0[y].right, t.right.right);
      LinksFrame(t0, table, t2, t.right.left);
      LinksFrame(t0, table, t0[x].left, t.left);
      LinksOfNode(table, Node(x, t.left, t.right.left));
      LinksOfNode(table, RotateLeft(t));
    }

    /** The slot that holds key below slot current. */
    function Lookup(current: int, key: Key, ghost t: Tree): (slot: Option<nat>)
      requires Links(table, current, t) && Ordered(t, Values(table))
      reads this
      ensures slot.None? ==> forall x :: x in Slots(t) && x < |table| ==> table[x].value != key
      ensures slot.Some? ==> slot.value in Slots(t) && slot.value < |table| && table[slot.value].value == key
      decreases t
    {
      if current < 0 then None
      else if table[current].value == key then Some(current)
      else if table[current].value < key then Lookup(table[current].right, key, t.right)
      else Lookup(table[current].left, key, t.left)
    }

    /** lookupElement answers the slot of key exactly when it has been interned. */
    method LookupElement(key: Key) returns (slot: Option<nat>)
      requires Valid()
      ensures slot == Find(Values(table), key)
    {
      slot := Lookup(root, key, tree);
      FindIsUnique(Values(table), key);
      TreapIsDistinct(tree, free, Values(table));
      assert forall i: nat :: i < |table| ==> i in Slots(tree);
      if slot.Some? {
        assert Values(table)[slot.value] == key;
      }
    }

    method At(index: nat) returns (key: Key)
      requires index < |table|
      ensures key == Values(table)[index]
    {
      key := table[index].value;
    }

    /** The scan of insertElement: the first slot from pos on that is unused or beyond the end. */
    method FindFree(pos: nat) returns (slot: nat)
      requires pos <= |table|
      ensures pos <= slot <= |table|
      ensures slot < |table| ==> table[slot].value == empty
      ensures forall i :: pos <= i < slot ==> table[i].value != empty
    {
      slot := pos;
      while true
        invariant pos <= slot <= |table|
        invariant forall i :: pos <= i < slot ==> table[i].value != empty
        decreases |table| - slot
      {
        if slot >= |table| {
          break;
        } else if empty == table[slot].value {
          break;
        }
        slot := slot + 1;
      }
    }

    /** Puts key into a new slot at the end and inserts that slot. None is the panic on a key that
        is already there; the tree then still holds the old slots only. */
    method Append(key: Key) returns (slot: Option<nat>)
      requires |table| == free < MAX_SLOTS && Links(table, root, tree)
      requires IsTreap(tree, Values(table)) && AllSlots(tree, free)
      modifies this
      ensures slot.None? <==> key in old(Values(table))
      ensures slot.Some? ==> slot.value == old(free) && |table| == free == old(free) + 1
      ensures slot.Some? ==> Links(table, root, tree) && IsTreap(tree, Values(table)) && AllSlots(tree, free)
      ensures slot.Some? ==> Values(table) == old(Values(table)) + [key]
    {
      var pos := free;
      ghost var keys := Values(table);
      ghost var t0 := table;
      table := table + [Element(key, -1, -1)];
      assert Values(table) == keys + [key];
      LinksFrame(t0, table, root, tree);
      OrderedExtends(tree, keys, key);
      AbsentIffNew(tree, keys, key);
      var r := Insert(pos, root, tree);
      if r.None? { return None; }
      InsertedIsTreap(tree, pos, Values(table));
      tree := Inserted(tree, pos, Values(table));
      root := r.value;
      free := pos + 1;
      slot := Some(pos);
    }

    /** Adds the presets, if that has not been done. It panics exactly when two presets are equal. */
    method EnsureInitialized() returns (pos: nat, panicked: bool)
      requires Valid()
      modifies this
      ensures panicked <==> old(free) < |init| && !Distinct(init)
      ensures !panicked ==> Valid() && pos == free && Values(table) == Initialized(old(Values(table)), init)
    {
      pos := free;
      panicked := false;
      if pos >= |init| { return; }
      assert Values(table) == [] == init[..0];
      while pos < |init|
        invariant pos == free == |table| && 0 <= pos <= |init| < MAX_SLOTS
        invariant Links(table, root, tree) && IsTreap(tree, Values(table)) && AllSlots(tree, free)
        invariant Values(table) == init[..pos] && Distinct(init[..pos])
      {
        DistinctGrows(init, pos);
        var slot := Append(init[pos]);
        if slot.None? {
          panicked := true;
          return;
        }
        pos := pos + 1;
      }
      assert init[..pos] == init;
    }

    /** insertElement: the slot of key, which is added if it is new. */
    method InsertElement(key: Key) returns (slot: nat, panicked: bool)
      requires Valid()
      requires |table| < MAX_SLOTS
      modifies this
      ensures panicked <==> old(free) < |init| && !Distinct(init)
      ensures !panicked ==> Valid() && (Values(table), slot) == Interned(old(Values(table)), init, key)
    {
      var pos;
      pos, panicked := EnsureInitialized();
      if panicked { return 0, true; }
      var found := LookupElement(key);
      if found.Some? { return found.value, false; }
      pos := FindFree(pos);
      assert pos == |table|;
      var added := Append(key);
      slot := pos;
    }

    /** The shape of the stored tree is the canonical one, whatever the history. */
    lemma ShapeIsCanonical()
      requires Valid()
      ensures DistinctOn(FirstSlots(free), Values(table)) && tree == Canonical(FirstSlots(free), Values(table))
    {
      TreapIsCanonical(tree, Values(table));
      FirstSlotsContents(free);
      assert Slots(tree) == FirstSlots(free);
    }

    /** Inserts slot target below slot iroot; None is the panic on an existing key, which changes nothing. */
    method Insert(target: nat, iroot: int, ghost t: Tree) returns (r: Option<int>)
      requires target < |table| && table[target].left == -1 && table[target].right == -1
      requires Links(table, iroot, t) && IsTreap(t, Values(table)) && target !in Slots(t)
      modifies this`table
      ensures r.None? <==> !Absent(target, t, Values(old(table)))
      ensures r.None? ==> table == old(table)
      ensures Values(table) == Values(old(table))
      ensures r.Some? ==> Links(table, r.value, Inserted(t, target, Values(table)))
      ensures forall i :: 0 <= i < |table| && i != target && i !in Slots(t) ==> table[i] == old(table[i])
      decreases t, 1
    {
      if iroot < 0 { return Some(target); }
      OrderedSlots(t, Values(table));
      if table[target].value == table[iroot].value {
        return None;
      } else if table[target].value < table[iroot].value {
        r := InsertLeft(target, iroot, t);
      } else {
        r := InsertRight(target, iroot, t);
      }
    }

    /** The Less branch of insert. */
    method InsertLeft(target: nat, root: nat, ghost t: Tree) returns (r: Option<int>)
      requires target < |table| && table[target].left == -1 && table[target].right == -1
      requires Links(table, root, t) && IsTreap(t, Values(table)) && target !in Slots(t)
      requires t.Node? && table[target].value < table[root].value
      modifies this`table
      ensures r.None? <==> !Absent(target, t, Values(old(table)))
      ensures r.None? ==> table == old(table)
      ensures Values(table) == Values(old(table))
      ensures r.Some? ==> Links(table, r.value, Inserted(t, target, Values(table)))
      ensures forall i :: 0 <= i < |table| && i != target && i !in Slots(t) ==> table[i] == old(table[i])
      decreases t, 0
    {
      ghost var keys, t0 := Values(table), table;
      SubtreeAbsent(t, target, keys);
      var below := Insert(target, table[root].left, t.left);
      if below.None? { return None; }
      ghost var u := Node(t.slot, Inserted(t.left, target, keys), t.right);
      InsertedIsTreap(t.left, target, keys);
      SubtreesDisjoint(t, keys);
      OrderedAttach(t, u, target, keys);
      ghost var t1 := table;
      table := table[root := table[root].(left := below.value)];
      AttachLeft(t0, t1, table, t, u, below.value, target);
      if Priority(table[root].left) > Priority(root) {
        var x := RightRotate(root, u);
        r := Some(x);
      } else {
        r := Some(root);
      }
    }

    /** The Greater branch of insert. */
    method InsertRight(target: nat, root: nat, ghost t: Tree) returns (r: Option<int>)
      requires target < |table| && table[target].left == -1 && table[target].right == -1
      requires Links(table, root, t) && IsTreap(t, Values(table)) && target !in Slots(t)
      requires t.Node? && table[root].value < table[target].value
      modifies this`table
      ensures r.None? <==> !Absent(target, t, Values(old(table)))
      ensures r.None? ==> table == old(table)
      ensures Values(table) == Values(old(table))
      ensures r.Some? ==> Links(table, r.value, Inserted(t, target, Values(table)))
      ensures forall i :: 0 <= i < |table| && i != target && i !in Slots(t) ==> table[i] == old(table[i])
      decreases t, 0
    {
      ghost var keys, t0 := Values(table), table;
      SubtreeAbsent(t, target, keys);
      var above := Insert(target, table[root].right, t.right);
      if above.None? { return None; }
      ghost var u := Node(t.slot, t.left, Inserted(t.right, target, keys));
      InsertedIsTreap(t.right, target, keys);
      SubtreesDisjoint(t, keys);
      OrderedAttach(t, u, target, keys);
      ghost var t1 := table;
      table := table[root := table[root].(right := above.value)];
      AttachRight(t0, t1, table, t, u, above.value, target);
      if Priority(table[root].right) > Priority(root) {
        var x := LeftRotate(root, u);
        r := Some(x);
      } else {
        r := Some(root);
      }
    }
  }

  /** A key that differs from the root's is absent exactly when its side of the tree lacks it. */
  lemma SubtreeAbsent(t: Tree, target: nat, keys: seq<Key>)
    requires t.Node? && Ordered(t, keys) && target < |keys| && keys[target] != keys[t.slot]
    ensures keys[target] < keys[t.slot] ==> (Absent(target, t, keys) <==> Absent(target, t.left, keys))
    ensures keys[target] > keys[t.slot] ==> (Absent(target, t, keys) <==> Absent(target, t.right, keys))
  {
    OrderedSlots(t, keys);
  }

  lemma TargetOutside(t: Tree, target: nat)
    requires t.Node? && target !in Slots(t)
    ensures target != t.slot && target !in Slots(t.left) && target !in Slots(t.right)
  {
  }

  lemma RelinkFrame(t1: seq<Element>, t2: seq<Element>, i: int, t: Tree, root: nat)
    requires Links(t1, i, t) && root !in Slots(t) && |t2| == |t1|
    requires forall s :: 0 <= s < |t1| && s != root ==> t2[s] == t1[s]
    ensures Links(t2, i, t)
  {
    LinksFrame(t1, t2, i, t);
  }

  lemma LinksOfNode(table: seq<Element>, t: Tree)
    requires t.Node? && t.slot < |table|
    requires Links(table, table[t.slot].left, t.left) && Links(table, table[t.slot].right, t.right)
    ensures Links(table, t.slot, t)
  {
  }

  /** The links after a changed subtree has been hung below the root again. */
  lemma AttachLeft(t0: seq<Element>, t1: seq<Element>, t2: seq<Element>, t: Tree, u: Tree, l: int, target: nat)
    requires t.Node? && u.Node? && u.slot == t.slot && u.right == t.right && Links(t0, t.slot, t) && Apart(t)
    requires Values(t1) == Values(t0) && target !in Slots(t)
    requires forall i :: 0 <= i < |t1| && i != target && i !in Slots(t.left) ==> t1[i] == t0[i]
    requires |t1| == |t0| && t2 == t1[t.slot := t1[t.slot].(left := l)]
    requires Links(t1, l, u.left) && Slots(u.left) == Slots(t.left) + {target}
    ensures Values(t2) == Values(t0) && Links(t2, t.slot, u)
    ensures u.left.Node? && t2[t.slot].left == u.left.slot
  {
    TargetOutside(t, target);
    assert Links(t2, t0[t.slot].right, t.right) by { LinksFrame(t0, t2, t0[t.slot].right, t.right); }
    assert Links(t2, l, u.left) by { RelinkFrame(t1, t2, l, u.left, t.slot); }
    assert Values(t2) == Values(t0) by { ValuesFrame(t1, t2); }
    NodeHasSlot(u.left);
    LinksOfNode(t2, u);
  }

  lemma AttachRight(t0: seq<Element>, t1: seq<Element>, t2: seq<Element>, t: Tree, u: Tree, r: int, target: nat)
    requires t.Node? && u.Node? && u.slot == t.slot && u.left == t.left && Links(t0, t.slot, t) && Apart(t)
    requires Values(t1) == Values(t0) && target !in Slots(t)
    requires forall i :: 0 <= i < |t1| && i != target && i !in Slots(t.right) ==> t1[i] == t0[i]
    requires |t1| == |t0| && t2 == t1[t.slot := t1[t.slot].(right := r)]
    requires Links(t1, r, u.right) && Slots(u.right) == Slots(t.right) + {target}
    ensures Values(t2) == Values(t0) && Links(t2, t.slot, u)
    ensures u.right.Node? && t2[t.slot].right == u.right.slot
  {
    TargetOutside(t, target);
    assert Links(t2, t0[t.slot].left, t.left) by { LinksFrame(t0, t2, t0[t.slot].left, t.left); }
    assert Links(t2, r, u.right) by { RelinkFrame(t1, t2, r, u.right, t.slot); }
    assert Values(t2) == Values(t0) by { ValuesFrame(t1, t2); }
    NodeHasSlot(u.right);
    LinksOfNode(t2, u);
  }

  lemma ValuesFrame(t1: seq<Element>, t2: seq<Element>)
    requires |t1| == |t2| && forall i :: 0 <= i < |t1| ==> t1[i].value == t2[i].value
    ensures Values(t1) == Values(t2)
  {
  }

  lemma OrderedExtends(t: Tree, keys: seq<Key>, key: Key)
    requires IsTreap(t, keys) && |keys| < MAX_SLOTS
    ensures IsTreap(t, keys + [key])
  {
    if t.Node? {
      OrderedExtends(t.left, keys, key);
      OrderedExtends(t.right, keys, key);
    }
  }

  lemma AbsentIffNew(t: Tree, keys: seq<Key>, key: Key)
    requires AllSlots(t, |keys|)
    ensures Absent(|keys|, t, keys + [key]) <==> key !in keys
  {
    if key in keys {
      var i :| 0 <= i < |keys| && keys[i] == key;
      assert i in Slots(t);
    }
  }

  lemma DistinctGrows(init: seq<Key>, n: nat)
    requires n < |init| && Distinct(init[..n])
    ensures init[..n] + [init[n]] == init[..n + 1]
    ensures init[n] !in init[..n] <==> Distinct(init[..n + 1])
    ensures init[n] in init[..n] ==> !Distinct(init)
  {
    if init[n] in init[..n] {
      var i :| 0 <= i < n && init[i] == init[n];
      assert init[..n + 1][i] == init[..n + 1][n];
    } else {
      var a := init[..n + 1];
      forall i, j | 0 <= i < j < |a|
        ensures a[i] != a[j]
      {
        if j < n { assert init[..n][i] != init[..n][j]; }
      }
    }
  }

  lemma TreapIsDistinct(t: Tree, n: nat, keys: seq<Key>)
    requires Ordered(t, keys) && AllSlots(t, n) && n == |keys|
    ensures Distinct(keys)
  {
    OrderedSlots(t, keys);
    forall i, j | 0 <= i < j < |keys|
      ensures keys[i] != keys[j]
    {
      assert i in Slots(t) && j in Slots(t);
    }
  }

  lemma FindIsUnique(keys: seq<Key>, key: Key)
    ensures Distinct(keys) ==> forall i :: 0 <= i < |keys| && keys[i] == key ==> Find(keys, key) == Some(i)
  {
  }
}
