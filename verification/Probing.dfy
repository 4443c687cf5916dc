/** Open addressing with cyclic linear probing: the theory that sets and dictionaries share.
    A table is seen as the sequence of the keys in its slots.
 */
module Probing {
  import opened Options

  type Table<K> = seq<Option<K>>

  /** Slot j lies on the cyclic path from a up to but not including b. */
  predicate OnPath(a: nat, j: nat, b: nat) {
    if a <= b then a <= j < b else a <= j || j < b
  }

  /** The slot where the search for k starts. */
  function Home<K>(hash: K -> int, k: K, n: nat): nat
    requires n > 0
  {
    hash(k) % n
  }

  ghost predicate NoDuplicates<K>(t: Table<K>) {
    forall i, j :: 0 <= i < j < |t| && t[i].Some? && t[j].Some? ==> t[i] != t[j]
  }

  /** The probe from a passes only occupied slots before it reaches i. */
  ghost predicate PathOccupied<K>(t: Table<K>, a: nat, i: nat) {
    forall j :: 0 <= j < |t| && OnPath(a, j, i) ==> t[j].Some?
  }

  /** Every key is reached from its home slot through occupied slots. */
  ghost predicate AllReachable<K>(hash: K -> int, t: Table<K>) {
    |t| > 0 && forall i :: 0 <= i < |t| && t[i].Some? ==> PathOccupied(t, Home(hash, t[i].value, |t|), i)
  }

  ghost predicate HasNil<K>(t: Table<K>) {
    exists i :: 0 <= i < |t| && t[i].None?
  }

  ghost predicate Sound<K>(hash: K -> int, t: Table<K>) {
    NoDuplicates(t) && AllReachable(hash, t)
  }

  function Elements<K>(t: Table<K>): set<K> {
    set i | 0 <= i < |t| && t[i].Some? :: t[i].value
  }

  /** What scanFor: answers: the first slot on the probe from home that is nil or holds k; None when
      there is no such slot. */
  ghost predicate ScanResult<K>(hash: K -> int, t: Table<K>, k: K, r: Option<nat>) {
    && |t| > 0
    && var home := Home(hash, k, |t|);
       match r
       case Some(i) =>
         && i < |t| && (t[i].None? || t[i].value == k)
         && (forall j :: 0 <= j < |t| && OnPath(home, j, i) ==> t[j].Some? && t[j].value != k)
       case None => forall j :: 0 <= j < |t| ==> t[j].Some? && t[j].value != k
  }

  /** In a sound table the scan finds the key if it is there, and otherwise a nil slot. */
  lemma ScanFinds<K>(hash: K -> int, t: Table<K>, k: K, r: Option<nat>)
    requires Sound(hash, t) && HasNil(t) && ScanResult(hash, t, k, r)
    ensures r.Some? && (t[r.value].Some? <==> k in Elements(t))
  {
    var z :| 0 <= z < |t| && t[z].None?;
    if k in Elements(t) {
      var i :| 0 <= i < |t| && t[i].Some? && t[i].value == k;
      assert PathOccupied(t, Home(hash, k, |t|), i);
    }
  }

  /** Filling the nil slot that the scan found keeps the table sound. */
  lemma FillKeepsSound<K>(hash: K -> int, t: Table<K>, k: K, i: nat)
    requires Sound(hash, t) && ScanResult(hash, t, k, Some(i)) && t[i].None? && k !in Elements(t)
    ensures Sound(hash, t[i := Some(k)]) && Elements(t[i := Some(k)]) == Elements(t) + {k}
  {
    var u := t[i := Some(k)];
    forall m | 0 <= m < |u| && u[m].Some?
      ensures PathOccupied(u, Home(hash, u[m].value, |u|), m)
    {
      if m != i { assert PathOccupied(t, Home(hash, t[m].value, |t|), m); }
    }
    assert forall x :: x in Elements(u) <==> x in Elements(t) + {k} by {
      forall x | x in Elements(t) + {k}
        ensures x in Elements(u)
      {
        if x == k { assert u[i].value == k; } else {
          var m :| 0 <= m < |t| && t[m].Some? && t[m].value == x;
          assert u[m].value == x;
        }
      }
    }
  }

  // Counting

  lemma {:induction false} FullTableCount<K>(t: Table<K>)
    requires NoDuplicates(t) && forall i :: 0 <= i < |t| ==> t[i].Some?
    ensures |Elements(t)| == |t|
  {
    if t == [] {
      assert Elements(t) == {};
    } else {
      var u, x := t[..|t| - 1], t[|t| - 1].value;
      FullTableCount(u);
      assert Elements(t) == Elements(u) + {x} by {
        assert forall i :: 0 <= i < |u| ==> u[i] == t[i];
        assert t[|t| - 1].value == x;
        forall y | y in Elements(t)
          ensures y in Elements(u) + {x}
        {
          var i :| 0 <= i < |t| && t[i].Some? && t[i].value == y;
          if i < |u| { assert u[i].value == y; }
        }
      }
      assert x !in Elements(u);
    }
  }

  /** A table with fewer elements than slots has a nil slot. */
  lemma NilRemains<K>(t: Table<K>)
    requires NoDuplicates(t) && |Elements(t)| < |t|
    ensures HasNil(t)
  {
    if !HasNil(t) { FullTableCount(t); }
  }

  // Deletion

  /** The table while collisions are being repaired: one extra hole, at slot hole; the slots after it
      up to slot last are occupied and their keys do not need the hole. */
  ghost predicate Repairing<K>(hash: K -> int, t: Table<K>, hole: nat, last: nat) {
    && |t| > 0 && hole < |t| && last < |t|
    && NoDuplicates(t)
    && t[hole].None?
    && (forall i, j {:trigger t[i], t[j]} ::
          0 <= i < |t| && t[i].Some? && 0 <= j < |t| && OnPath(Home(hash, t[i].value, |t|), j, i)
          ==> t[j].Some? || j == hole)
    && (forall i :: 0 <= i < |t| && i != hole && (OnPath(hole, i, last) || i == last)
          ==> t[i].Some? && !OnPath(Home(hash, t[i].value, |t|), hole, i))
  }

  function Successor(i: nat, n: nat): nat
    requires i < n
  {
    if i == n - 1 then 0 else i + 1
  }

  /** Clearing a slot starts the repair. */
  lemma ClearStartsRepair<K>(hash: K -> int, t: Table<K>, i: nat)
    requires Sound(hash, t) && i < |t| && t[i].Some?
    ensures Repairing(hash, t[i := None], i, i)
    ensures Elements(t[i := None]) == Elements(t) - {t[i].value}
  {
    var u := t[i := None];
    forall m, j | 0 <= m < |u| && u[m].Some? && 0 <= j < |u| && OnPath(Home(hash, u[m].value, |u|), j, m)
      ensures u[j].Some? || j == i
    {
      assert PathOccupied(t, Home(hash, t[m].value, |t|), m);
    }
    forall x | x in Elements(t) - {t[i].value}
      ensures x in Elements(u)
    {
      var m :| 0 <= m < |t| && t[m].Some? && t[m].value == x;
      assert u[m].value == x;
    }
  }

  /** The slots still to be visited before the nil slot z stops the repair. */
  function Ahead(last: nat, z: nat, n: nat): int {
    if last < z then z - last else z - last + n
  }

  /** The scan for the next key answers its own slot or the hole. */
  lemma RepairScan<K>(hash: K -> int, t: Table<K>, hole: nat, last: nat, z: nat, r: Option<nat>)
    requires Repairing(hash, t, hole, last)
    requires z < |t| && t[z].None? && z != hole
    requires t[Successor(last, |t|)].Some?
    requires ScanResult(hash, t, t[Successor(last, |t|)].value, r)
    ensures r.Some? && (r.value == hole || r.value == Successor(last, |t|))
  {
    var p := Successor(last, |t|);
    var home := Home(hash, t[p].value, |t|);
    assert forall j :: 0 <= j < |t| && OnPath(home, j, p) ==> t[j].Some? || j == hole;
    assert forall j :: 0 <= j < |t| && t[j].Some? && t[j].value == t[p].value ==> j == p;
    assert r.Some?;
    assert OnPath(home, p, r.value) || OnPath(home, r.value, p) || r.value == p;
  }

  /** The key is at its own slot already: the repair moves on. */
  lemma RepairStays<K>(hash: K -> int, t: Table<K>, hole: nat, last: nat, z: nat)
    requires Repairing(hash, t, hole, last)
    requires z < |t| && t[z].None? && z != hole
    requires var p := Successor(last, |t|); t[p].Some? && ScanResult(hash, t, t[p].value, Some(p))
    ensures Repairing(hash, t, hole, Successor(last, |t|))
    ensures 0 <= Ahead(Successor(last, |t|), z, |t|) < Ahead(last, z, |t|)
  {
    var p := Successor(last, |t|);
    forall i | 0 <= i < |t| && i != hole && (OnPath(hole, i, p) || i == p)
      ensures t[i].Some? && !OnPath(Home(hash, t[i].value, |t|), hole, i)
    {
      if i != p { assert OnPath(hole, i, last) || i == last; }
    }
  }

  /** The key moves into the hole, and its old slot becomes the hole. */
  lemma RepairMoves<K>(hash: K -> int, t: Table<K>, hole: nat, last: nat, z: nat)
    requires Repairing(hash, t, hole, last)
    requires z < |t| && t[z].None? && z != hole
    requires var p := Successor(last, |t|); t[p].Some? && ScanResult(hash, t, t[p].value, Some(hole))
    ensures var p := Successor(last, |t|); var u := t[hole := t[p]][p := None];
            Repairing(hash, u, p, p) && Elements(u) == Elements(t) && u[z].None? && z != p
    ensures 0 <= Ahead(Successor(last, |t|), z, |t|) < Ahead(last, z, |t|)
  {
    var p := Successor(last, |t|);
    var u := t[hole := t[p]][p := None];
    forall i, j | 0 <= i < |u| && u[i].Some? && 0 <= j < |u| && OnPath(Home(hash, u[i].value, |u|), j, i)
      ensures u[j].Some? || j == p
    {
      if i == hole { assert t[j].Some?; } else { assert t[i] == u[i]; assert t[j].Some? || j == hole; }
    }
    MovedElements(t, hole, p);
  }

  lemma MovedElements<K>(t: Table<K>, a: nat, b: nat)
    requires a < |t| && b < |t| && t[a].None? && t[b].Some?
    ensures Elements(t[a := t[b]][b := None]) == Elements(t)
  {
    var u := t[a := t[b]][b := None];
    forall x | x in Elements(t)
      ensures x in Elements(u)
    {
      var m :| 0 <= m < |t| && t[m].Some? && t[m].value == x;
      assert u[if m == b then a else m].value == x;
    }
    forall x | x in Elements(u)
      ensures x in Elements(t)
    {
      var m :| 0 <= m < |u| && u[m].Some? && u[m].value == x;
      assert t[if m == a then b else m].value == x;
    }
  }

  /** A nil slot after the visited ones ends the repair: every key is reachable again. */
  lemma RepairEnds<K>(hash: K -> int, t: Table<K>, hole: nat, last: nat, z: nat)
    requires Repairing(hash, t, hole, last)
    requires z < |t| && t[z].None? && z != hole
    requires t[Successor(last, |t|)].None?
    ensures Sound(hash, t)
  {
    var p := Successor(last, |t|);
    assert forall i :: 0 <= i < |t| && i != hole && i != p ==>
           (OnPath(hole, i, last) || i == last) || OnPath(p, i, hole);
    assert p != hole;
    forall i | 0 <= i < |t| && t[i].Some?
      ensures PathOccupied(t, Home(hash, t[i].value, |t|), i)
    {
      var home := Home(hash, t[i].value, |t|);
      assert !OnPath(home, p, i);
    }
  }

  // Where a repair stops, told from the table before

  /** The hole that the repair leaves and the slot it stops at, when it has come to slot last and looks at no more
      than steps further ones: a key moves into the hole exactly if the hole is on its path. */
  function RepairEnd<K(==)>(hash: K -> int, t: Table<K>,
                     nilKey: Option<K>, hole: nat, last: nat, steps: nat): (nat, nat)
    requires hole < |t| && last < |t|
    decreases steps
  {
    var p := Successor(last, |t|);
    if steps == 0 || t[p].None? || t[p] == nilKey then (hole, p)
    else RepairEnd(hash, t, nilKey, if OnPath(Home(hash, t[p].value, |t|), hole, p) then p else hole, p, steps - 1)
  }

  lemma EndGoesOn<K>(hash: K -> int, t: Table<K>, nilKey: Option<K>, hole: nat, last: nat, steps: nat,
                     next: nat, p: nat, left: nat)
    requires hole < |t| && last < |t| && p == Successor(last, |t|) && t[p].Some? && t[p] != nilKey
    requires next == (if OnPath(Home(hash, t[p].value, |t|), hole, p) then p else hole) && left + 1 == steps
    ensures RepairEnd(hash, t, nilKey, hole, last, steps) == RepairEnd(hash, t, nilKey, next, p, left)
  {
  }

  lemma EndStops<K>(hash: K -> int, t: Table<K>, nilKey: Option<K>, hole: nat, last: nat, steps: nat, p: nat)
    requires hole < |t| && last < |t| && p == Successor(last, |t|) && (t[p].None? || t[p] == nilKey)
    ensures RepairEnd(hash, t, nilKey, hole, last, steps) == (hole, p)
  {
  }

  /** A key from the stop on round to the cleared slot has its home at or before the hole that is left. */
  predicate CutsOff<K>(hash: K -> int, t: Table<K>, cleared: nat, hole: nat, stop: nat) {
    exists j :: 0 <= j < |t| && t[j].Some? && OnPath(stop, j, cleared) && OnPath(Home(hash, t[j].value, |t|), hole, j)
  }

  /** Removing the key k cuts another key off. */
  predicate Loses<K(==)>(hash: K -> int, t: Table<K>, nilKey: Option<K>, k: K) {
    exists i :: 0 <= i < |t| && t[i] == Some(k)
      && var (hole, stop) := RepairEnd(hash, t, nilKey, i, i, |t| - 1); CutsOff(hash, t, i, hole, stop)
  }

  /** The slots that the walk from slot cleared to slot last has seen. */
  predicate Visited(cleared: nat, j: nat, last: nat) {
    OnPath(cleared, j, last) || j == last
  }

  /** The walk does not change what it has not seen. */
  ghost predicate Untouched<K>(t: Table<K>, u: Table<K>, cleared: nat, last: nat) {
    |t| == |u| && forall j :: 0 <= j < |t| && !Visited(cleared, j, last) ==> u[j] == t[j]
  }

  /** Of the keys in the table, those that need the hole are the ones that the walk has not seen. */
  lemma SoundIffNotCutOff<K>(hash: K -> int, t: Table<K>, u: Table<K>, cleared: nat, hole: nat, last: nat, z: nat)
    requires Repairing(hash, u, hole, last) && Untouched(t, u, cleared, last) && cleared < |t|
    requires Visited(cleared, hole, last) && z < |t| && u[z].None? && !Visited(cleared, z, last)
    ensures Sound(hash, u) <==> !CutsOff(hash, t, cleared, hole, Successor(last, |t|))
  {
    var stop := Successor(last, |t|);
    if CutsOff(hash, t, cleared, hole, stop) {
      var j :| 0 <= j < |t| && t[j].Some? && OnPath(stop, j, cleared) && OnPath(Home(hash, t[j].value, |t|), hole, j);
      assert u[j] == t[j];
      assert !PathOccupied(u, Home(hash, u[j].value, |u|), j);
    } else {
      forall i | 0 <= i < |u| && u[i].Some?
        ensures PathOccupied(u, Home(hash, u[i].value, |u|), i)
      {
        HoleNotNeeded(hash, t, u, cleared, hole, last, z, i);
      }
    }
  }

  lemma HoleNotNeeded<K>(hash: K -> int, t: Table<K>, u: Table<K>, cleared: nat, hole: nat, last: nat, z: nat, i: nat)
    requires Repairing(hash, u, hole, last) && Untouched(t, u, cleared, last) && cleared < |t|
    requires Visited(cleared, hole, last) && z < |t| && u[z].None? && !Visited(cleared, z, last)
    requires !CutsOff(hash, t, cleared, hole, Successor(last, |t|)) && i < |u| && u[i].Some?
    ensures !OnPath(Home(hash, u[i].value, |u|), hole, i)
  {
    var home := Home(hash, u[i].value, |u|);
    if OnPath(home, hole, i) {
      if Visited(cleared, i, last) {
        PastNil(cleared, hole, last, z, home, i);
      }
      assert false;
    }
  }

  /** A path to a slot seen before the hole that passes the hole goes all the way round, over a nil slot not seen. */
  lemma PastNil(cleared: nat, hole: nat, last: nat, z: nat, home: nat, i: nat)
    requires Visited(cleared, hole, last) && !Visited(cleared, z, last) && Visited(cleared, i, last)
    requires OnPath(home, hole, i) && i != hole && !Visited(hole, i, last)
    ensures OnPath(home, z, i)
  {
  }

  /** The scan answers the hole exactly if that is on the path of the key in slot p. */
  lemma ScanTells<K>(hash: K -> int, t: Table<K>, hole: nat, p: nat, r: nat)
    requires hole < |t| && p < |t| && t[hole].None? && t[p].Some? && (r == hole || r == p)
    requires ScanResult(hash, t, t[p].value, Some(r))
    ensures r == hole <==> OnPath(Home(hash, t[p].value, |t|), hole, p)
  {
    var home := Home(hash, t[p].value, |t|);
    assert r == hole ==> !OnPath(home, p, hole);
  }

  /** In a table with a nil slot the repair stops at a nil slot or the nil key, with the hole between the cleared
      slot and that one. */
  lemma {:induction false} EndIsNil<K>(hash: K -> int, t: Table<K>, nilKey: Option<K>,
                                   i: nat, hole: nat, last: nat, steps: nat, z: nat)
    requires i < |t| && hole < |t| && last < |t| && z < |t| && t[z].None?
    requires Visited(i, hole, last) && !Visited(i, z, last) && Ahead(last, z, |t|) <= steps
    ensures var (h, s) := RepairEnd(hash, t, nilKey, hole, last, steps);
            h < |t| && s < |t| && (t[s].None? || t[s] == nilKey) && s != i && OnPath(i, h, s)
    decreases steps
  {
    var p := Successor(last, |t|);
    if t[p].Some? && t[p] != nilKey {
      EndIsNil(hash, t, nilKey, i, if OnPath(Home(hash, t[p].value, |t|), hole, p) then p else hole, p, steps - 1, z);
    }
  }

  /** Without a nil key in the table no removal cuts a key off. */
  lemma OnlyNilKeyLoses<K>(hash: K -> int, t: Table<K>, nilKey: Option<K>, k: K)
    requires Sound(hash, t) && HasNil(t) && Loses(hash, t, nilKey, k)
    ensures nilKey.Some? && nilKey.value in Elements(t)
  {
    var i :| 0 <= i < |t| && t[i] == Some(k)
      && var (hole, stop) := RepairEnd(hash, t, nilKey, i, i, |t| - 1); CutsOff(hash, t, i, hole, stop);
    var z :| 0 <= z < |t| && t[z].None?;
    EndIsNil(hash, t, nilKey, i, i, i, |t| - 1, z);
    var (hole, stop) := RepairEnd(hash, t, nilKey, i, i, |t| - 1);
    var j :| 0 <= j < |t| && t[j].Some? && OnPath(stop, j, i) && OnPath(Home(hash, t[j].value, |t|), hole, j);
    assert PathOccupied(t, Home(hash, t[j].value, |t|), j);
    if t[stop].None? {
      PastStop(i, hole, stop, Home(hash, t[j].value, |t|), j);
      assert false;
    }
  }

  /** A path that passes the hole and ends behind the stop passes the stop. */
  lemma PastStop(i: nat, hole: nat, stop: nat, home: nat, j: nat)
    requires OnPath(i, hole, stop) && OnPath(stop, j, i) && OnPath(home, hole, j) && j != stop
    ensures OnPath(home, stop, j)
  {
  }

  /** Clearing the slot does not change where the repair is going to stop. */
  lemma {:induction false} SameEnd<K>(hash: K -> int, t: Table<K>, i: nat, nilKey: Option<K>,
                                   hole: nat, last: nat, steps: nat)
    requires i < |t| && hole < |t| && last < |t| && steps < Ahead(last, i, |t|)
    ensures RepairEnd(hash, t[i := None], nilKey, hole, last, steps) == RepairEnd(hash, t, nilKey, hole, last, steps)
    decreases steps
  {
    var p := Successor(last, |t|);
    if steps > 0 && t[p].Some? && t[p] != nilKey {
      SameEnd(hash, t, i, nilKey, if OnPath(Home(hash, t[p].value, |t|), hole, p) then p else hole, p, steps - 1);
    }
  }

  lemma NothingToLose<K>(hash: K -> int, t: Table<K>, nilKey: Option<K>, k: K)
    requires k !in Elements(t)
    ensures !Loses(hash, t, nilKey, k)
  {
  }

  lemma LosesAt<K>(hash: K -> int, t: Table<K>, u: Table<K>, i: nat, nilKey: Option<K>,
                k: K, steps: nat, hole: nat, stop: nat)
    requires NoDuplicates(t) && i < |t| && t[i] == Some(k) && u == t[i := None] && steps == |t| - 1
    requires (hole, stop) == RepairEnd(hash, u, nilKey, i, i, steps)
    ensures Loses(hash, t, nilKey, k) <==> CutsOff(hash, u, i, hole, stop)
  {
    var end := (hole, stop);
    SameEnd(hash, t, i, nilKey, i, i, steps);
    if CutsOff(hash, u, i, end.0, end.1) {
      var j :| 0 <= j < |u| && u[j].Some? && OnPath(end.1, j, i) && OnPath(Home(hash, u[j].value, |u|), end.0, j);
      assert t[j] == u[j];
    }
    if Loses(hash, t, nilKey, k) {
      var m :| 0 <= m < |t| && t[m] == Some(k)
        && var (hole, stop) := RepairEnd(hash, t, nilKey, m, m, |t| - 1); CutsOff(hash, t, m, hole, stop);
      var j :| 0 <= j < |t| && t[j].Some? && OnPath(end.1, j, i) && OnPath(Home(hash, t[j].value, |t|), end.0, j);
      assert u[j] == t[j];
    }
  }

  /** Keys 5 and nil (here 7) in slots 0 and 1, and key 6 in slot 2, all at home in slot 0 of four: after
      removing 5 the repair stops at nil and leaves 6 out of reach. */
  lemma NilKeyStopsRepair(hash: int -> int)
    requires hash(5) == hash(6) == hash(7) == 0
    ensures var t: Table<int> := [Some(5), Some(7), Some(6), None];
            Sound(hash, t) && Loses(hash, t, Some(7), 5) && !Loses(hash, t, None, 5)
  {
    var t: Table<int> := [Some(5), Some(7), Some(6), None];
    assert Sound(hash, t);
    assert RepairEnd(hash, t, Some(7), 0, 0, 3) == (0, 1);
    assert t[2].Some? && OnPath(1, 2, 0) && OnPath(Home(hash, t[2].value, 4), 0, 2);
    assert RepairEnd(hash, t, None, 2, 2, 1) == (2, 3);
    assert RepairEnd(hash, t, None, 1, 1, 2) == (2, 3);
    assert RepairEnd(hash, t, None, 0, 0, 3) == (2, 3);
  }

  lemma EmptyTable<K>(hash: K -> int, t: Table<K>)
    requires |t| > 0 && forall i :: 0 <= i < |t| ==> t[i].None?
    ensures Sound(hash, t) && HasNil(t) && Elements(t) == {}
  {
    assert t[0].None?;
  }

  lemma ElementsPush<K>(t: Table<K>, x: Option<K>)
    ensures Elements(t + [x]) == Elements(t) + if x.Some? then {x.value} else {}
  {
    var u := t + [x];
    forall y | y in Elements(t)
      ensures y in Elements(u)
    {
      var m :| 0 <= m < |t| && t[m].Some? && t[m].value == y;
      assert u[m].value == y;
    }
    if x.Some? { assert u[|t|].value == x.value; }
  }

  /** The size given to a new table, with room for the free slots that fullCheck demands. */
  function InitialSize(nElements: int): nat {
    if nElements <= 0 then 1 else (nElements + 1) * 4 / 3
  }

  /** fullCheck: whether so few slots are free that the table must grow. */
  predicate TooFull(size: nat, tally: nat) {
    size - tally < (if size / 4 > 1 then size / 4 else 1)
  }

  function GrownSize(size: nat): nat {
    size + if size > 2 then size else 2
  }

  /** A new table holds as many elements as asked for without growing. */
  lemma InitialSizeSuffices(nElements: int, tally: nat)
    requires tally <= nElements || tally == 0
    ensures !TooFull(InitialSize(nElements), tally)
  {
  }

  /** One growth is enough for every table that was not overfull before the last addition. */
  lemma GrowthSuffices(size: nat, tally: nat)
    requires tally <= size
    ensures !TooFull(GrownSize(size), tally) && tally < GrownSize(size)
  {
  }
}
