/** Threads that intern keys and read them back under one reader-writer lock: a probe under the
    read lock, and if that does not settle the call, a second attempt under the write lock.
    What happens while a lock is held is one step; steps of different threads interleave freely.
 */
module TreapProtocol {
  import opened Treaps
  import opened Options

  datatype Call = Intern(key: Key) | At(index: nat)

  datatype Reason = DuplicatePreset | OutOfRange | PoisonedLock

  datatype Result = Slot(slot: nat) | KeyOf(key: Key) | Panic(reason: Reason)

  datatype Thread = Idle | Probing(call: Call) | Waiting(call: Call)

  datatype Event = Event(call: Call, result: Result)

  /** The keys in slot order, whether a writer panicked, the threads, and the calls that have returned. */
  datatype State = State(keys: seq<Key>, poisoned: bool, threads: map<nat, Thread>, history: seq<Event>)

  /** The result of a call under the read lock, if the probe settles it. */
  function Probe(keys: seq<Key>, init: seq<Key>, call: Call): Option<Result> {
    if |keys| < |init| then None
    else
      match call
      case Intern(key) =>
        (match Find(keys, key)
         case Some(slot) => Some(Slot(slot))
         case None => None)
      case At(index) => Some(if index < |keys| then KeyOf(keys[index]) else Panic(OutOfRange))
  }

  /** The keys and the result of a call under the write lock. */
  function Locked(keys: seq<Key>, init: seq<Key>, call: Call, distinct: bool): (seq<Key>, Result) {
    if |keys| < |init| && !distinct then (keys, Panic(DuplicatePreset))
    else
      match call
      case Intern(key) => var (ks, slot) := Interned(keys, init, key); (ks, Slot(slot))
      case At(index) =>
        var ks := Initialized(keys, init);
        (ks, if index < |ks| then KeyOf(ks[index]) else Panic(OutOfRange))
  }

  function Finished(s: State, t: nat, call: Call, result: Result): State {
    s.(threads := s.threads[t := Idle], history := s.history + [Event(call, result)])
  }

  ghost predicate Starts(s: State, s': State, t: nat, call: Call) {
    (t !in s.threads || s.threads[t].Idle?) && s' == s.(threads := s.threads[t := Probing(call)])
  }

  ghost predicate Reads(s: State, s': State, t: nat, init: seq<Key>) {
    && t in s.threads && s.threads[t].Probing?
    && var call := s.threads[t].call;
       if s.poisoned then s' == Finished(s, t, call, Panic(PoisonedLock))
       else
         match Probe(s.keys, init, call)
         case Some(result) => s' == Finished(s, t, call, result)
         case None => s' == s.(threads := s.threads[t := Waiting(call)])
  }

  ghost predicate Writes(s: State, s': State, t: nat, init: seq<Key>) {
    && t in s.threads && s.threads[t].Waiting?
    && var call := s.threads[t].call;
       if s.poisoned then s' == Finished(s, t, call, Panic(PoisonedLock))
       else
         var (ks, result) := Locked(s.keys, init, call, Distinct(init));
         s' == Finished(s, t, call, result).(keys := ks, poisoned := result.Panic?)
  }

  ghost predicate Next(s: State, s': State, init: seq<Key>) {
    || (exists t, call :: Starts(s, s', t, call))
    || (exists t :: Reads(s, s', t, init))
    || (exists t :: Writes(s, s', t, init))
  }

  ghost predicate Run(states: seq<State>, init: seq<Key>) {
    && |states| > 0
    && states[0] == State([], false, map[], [])
    && forall i :: 0 <= i < |states| - 1 ==> Next(states[i], states[i + 1], init)
  }

  /** What a returned call says about the keys of any later state. */
  ghost predicate Truthful(e: Event, keys: seq<Key>) {
    match e
    case Event(Intern(key), Slot(slot)) => slot < |keys| && keys[slot] == key
    case Event(At(index), KeyOf(key)) => index < |keys| && keys[index] == key
    case Event(_, Panic(_)) => true
    case _ => false
  }

  ghost predicate Inv(s: State, init: seq<Key>) {
    && Distinct(s.keys)
    && (|s.keys| < |init| ==> s.keys == [])
    && (|s.keys| >= |init| ==> init <= s.keys)
    && forall i :: 0 <= i < |s.history| ==> Truthful(s.history[i], s.keys)
  }

  lemma LockedIsTruthful(keys: seq<Key>, init: seq<Key>, call: Call)
    requires Distinct(keys) && (|keys| < |init| ==> keys == []) && (|keys| >= |init| ==> init <= keys)
    ensures var (ks, result) := Locked(keys, init, call, Distinct(init));
            && keys <= ks && Distinct(ks) && Truthful(Event(call, result), ks)
            && (|ks| < |init| ==> ks == []) && (|ks| >= |init| ==> init <= ks)
  {
  }

  lemma TruthfulLater(e: Event, keys: seq<Key>, later: seq<Key>)
    requires Truthful(e, keys) && keys <= later
    ensures Truthful(e, later)
  {
  }

  lemma ProbeIsTruthful(keys: seq<Key>, init: seq<Key>, call: Call)
    ensures var result := Probe(keys, init, call); result.Some? ==> Truthful(Event(call, result.value), keys)
  {
  }

  /** What follows from adding a truthful event and keys that extend the old ones. */
  lemma FinishedKeepsInv(s: State, s': State, init: seq<Key>, e: Event)
    requires Inv(s, init) && s.keys <= s'.keys && s'.history == s.history + [e] && Truthful(e, s'.keys)
    requires Distinct(s'.keys) && (|s'.keys| < |init| ==> s'.keys == []) && (|s'.keys| >= |init| ==> init <= s'.keys)
    ensures Inv(s', init) && s.history <= s'.history
  {
    forall i | 0 <= i < |s.history|
      ensures Truthful(s'.history[i], s'.keys)
    {
      TruthfulLater(s.history[i], s.keys, s'.keys);
    }
  }

  lemma ReadKeepsInv(s: State, s': State, t: nat, init: seq<Key>)
    requires Inv(s, init) && Reads(s, s', t, init)
    ensures Inv(s', init) && s.keys <= s'.keys && s.history <= s'.history
  {
    ProbeIsTruthful(s.keys, init, s.threads[t].call);
    if s'.history != s.history { FinishedKeepsInv(s, s', init, s'.history[|s.history|]); }
  }

  lemma WriteKeepsInv(s: State, s': State, t: nat, init: seq<Key>)
    requires Inv(s, init) && Writes(s, s', t, init)
    ensures Inv(s', init) && s.keys <= s'.keys && s.history <= s'.history
  {
    LockedIsTruthful(s.keys, init, s.threads[t].call);
    FinishedKeepsInv(s, s', init, s'.history[|s.history|]);
  }

  /** Every step keeps the invariant and only appends keys and returned calls. */
  lemma StepKeepsInv(s: State, s': State, init: seq<Key>)
    requires Inv(s, init) && Next(s, s', init)
    ensures Inv(s', init) && s.keys <= s'.keys && s.history <= s'.history
  {
    if t, call :| Starts(s, s', t, call) {
    } else if t :| Reads(s, s', t, init) {
      ReadKeepsInv(s, s', t, init);
    } else {
      var t :| Writes(s, s', t, init);
      WriteKeepsInv(s, s', t, init);
    }
  }

  lemma {:induction false} EveryStateKeepsInv(states: seq<State>, init: seq<Key>, j: nat)
    requires Run(states, init) && j < |states|
    ensures Inv(states[j], init)
    decreases j
  {
    if j > 0 {
      EveryStateKeepsInv(states, init, j - 1);
      StepKeepsInv(states[j - 1], states[j], init);
    }
  }

  /** A slot never changes its key, over any run and any interleaving. */
  lemma {:induction false} RunKeepsInv(states: seq<State>, init: seq<Key>, i: nat, j: nat)
    requires Run(states, init) && i <= j < |states|
    ensures Inv(states[i], init) && Inv(states[j], init)
    ensures states[i].keys <= states[j].keys && states[i].history <= states[j].history
    decreases j
  {
    EveryStateKeepsInv(states, init, i);
    EveryStateKeepsInv(states, init, j);
    if i < j {
      RunKeepsInv(states, init, i, j - 1);
      StepKeepsInv(states[j - 1], states[j], init);
    }
  }

  ghost predicate Returned(s: State, call: Call, result: Result) {
    Event(call, result) in s.history
  }

  /** Two intern calls that returned, in whatever order and at whatever time, were given the same
      slot exactly when they asked for the same key. */
  lemma InternIsInjective(states: seq<State>, init: seq<Key>, i: nat, j: nat, k1: Key, s1: nat, k2: Key, s2: nat)
    requires Run(states, init) && i < |states| && j < |states|
    requires Returned(states[i], Intern(k1), Slot(s1)) && Returned(states[j], Intern(k2), Slot(s2))
    ensures k1 == k2 <==> s1 == s2
  {
    var m := if i <= j then j else i;
    RunKeepsInv(states, init, i, m);
    RunKeepsInv(states, init, j, m);
    var a :| 0 <= a < |states[i].history| && states[i].history[a] == Event(Intern(k1), Slot(s1));
    var b :| 0 <= b < |states[j].history| && states[j].history[b] == Event(Intern(k2), Slot(s2));
    assert states[m].history[a] == Event(Intern(k1), Slot(s1));
    assert states[m].history[b] == Event(Intern(k2), Slot(s2));
    assert Truthful(states[m].history[a], states[m].keys) && Truthful(states[m].history[b], states[m].keys);
  }

  /** at: of an interned slot answers the key that was interned, whenever both calls happen. */
  lemma AtUndoesIntern(states: seq<State>, init: seq<Key>, i: nat, j: nat, k: Key, slot: nat, k': Key)
    requires Run(states, init) && i < |states| && j < |states|
    requires Returned(states[i], Intern(k), Slot(slot)) && Returned(states[j], At(slot), KeyOf(k'))
    ensures k' == k
  {
    var m := if i <= j then j else i;
    RunKeepsInv(states, init, i, m);
    RunKeepsInv(states, init, j, m);
    var a :| 0 <= a < |states[i].history| && states[i].history[a] == Event(Intern(k), Slot(slot));
    var b :| 0 <= b < |states[j].history| && states[j].history[b] == Event(At(slot), KeyOf(k'));
    assert states[m].history[a] == Event(Intern(k), Slot(slot));
    assert states[m].history[b] == Event(At(slot), KeyOf(k'));
    assert Truthful(states[m].history[a], states[m].keys) && Truthful(states[m].history[b], states[m].keys);
  }

  /** The i-th preset always has slot i. */
  lemma PresetKeepsItsSlot(states: seq<State>, init: seq<Key>, j: nat, i: nat, slot: nat)
    requires Run(states, init) && j < |states| && i < |init|
    requires Returned(states[j], Intern(init[i]), Slot(slot))
    ensures slot == i
  {
    RunKeepsInv(states, init, j, j);
    var a :| 0 <= a < |states[j].history| && states[j].history[a] == Event(Intern(init[i]), Slot(slot));
    assert Truthful(states[j].history[a], states[j].keys);
  }

  /** The duplicate-key panic: reached by some call only if two presets are equal, and then no call
      ever answers a slot or a key. */
  ghost predicate PanicInv(s: State, init: seq<Key>) {
    && (Distinct(init) ==> forall i :: 0 <= i < |s.history| ==> s.history[i].result != Panic(DuplicatePreset))
    && (!Distinct(init) ==> s.keys == [] && forall i :: 0 <= i < |s.history| ==> s.history[i].result.Panic?)
  }

  lemma StepKeepsPanicInv(s: State, s': State, init: seq<Key>)
    requires PanicInv(s, init) && Next(s, s', init)
    ensures PanicInv(s', init)
  {
    assert !Distinct(init) ==> |init| > 0;
    if exists t, call :: Starts(s, s', t, call) {
    } else if exists t :: Reads(s, s', t, init) {
      var t :| Reads(s, s', t, init);
    } else {
      var t :| Writes(s, s', t, init);
    }
  }

  lemma {:induction false} PresetsDecidePanics(states: seq<State>, init: seq<Key>, j: nat)
    requires Run(states, init) && j < |states|
    ensures PanicInv(states[j], init)
    decreases j
  {
    if j > 0 {
      PresetsDecidePanics(states, init, j - 1);
      StepKeepsPanicInv(states[j - 1], states[j], init);
    }
  }

  /** The step from s to s' lets a call return. */
  ghost predicate Returns(s: State, s': State, call: Call, result: Result) {
    s'.history == s.history + [Event(call, result)]
  }

  lemma WhatReturns(s: State, s': State, init: seq<Key>, call: Call, result: Result)
    requires Next(s, s', init) && Returns(s, s', call, result)
    ensures || (s.poisoned && result == Panic(PoisonedLock))
            || Probe(s.keys, init, call) == Some(result)
            || Locked(s.keys, init, call, Distinct(init)).1 == result
  {
    assert s'.history[|s.history|] == Event(call, result);
    if exists t, c :: Starts(s, s', t, c) {
    } else if exists t :: Reads(s, s', t, init) {
      var t :| Reads(s, s', t, init);
    } else {
      var t :| Writes(s, s', t, init);
    }
  }

  /** Once intern has answered a slot for a key, every at of that slot that returns later answers the key,
      or finds the lock poisoned; it is never out of range. */
  lemma AtAfterIntern(states: seq<State>, init: seq<Key>, i: nat, j: nat, k: Key, slot: nat, r: Result)
    requires Run(states, init) && i <= j < |states| - 1
    requires Returned(states[i], Intern(k), Slot(slot)) && Returns(states[j], states[j + 1], At(slot), r)
    ensures r == KeyOf(k) || (r == Panic(PoisonedLock) && states[j].poisoned)
  {
    RunKeepsInv(states, init, i, j);
    var a :| 0 <= a < |states[i].history| && states[i].history[a] == Event(Intern(k), Slot(slot));
    assert states[j].history[a] == Event(Intern(k), Slot(slot));
    assert Truthful(states[j].history[a], states[j].keys);
    PresetsDecidePanics(states, init, j);
    WhatReturns(states[j], states[j + 1], init, At(slot), r);
  }

  /** A call that panicked under the write lock: equal presets, or an index that even the presets do not reach. */
  ghost predicate Culprit(e: Event, init: seq<Key>) {
    match e.result
    case Panic(DuplicatePreset) => !Distinct(init)
    case Panic(OutOfRange) => e.call.At? && e.call.index >= |init| > 0
    case _ => false
  }

  /** A poisoned lock has a culprit, and at waits for the write lock only to get presets inserted. */
  ghost predicate PoisonInv(s: State, init: seq<Key>) {
    && (s.poisoned ==> exists i :: 0 <= i < |s.history| && Culprit(s.history[i], init))
    && forall t :: t in s.threads && s.threads[t].Waiting? && s.threads[t].call.At? ==> init != []
  }

  lemma StepKeepsPoisonInv(s: State, s': State, init: seq<Key>)
    requires PoisonInv(s, init) && Next(s, s', init) && s.history <= s'.history
    ensures PoisonInv(s', init)
  {
    if s.poisoned {
      var i :| 0 <= i < |s.history| && Culprit(s.history[i], init);
      assert Culprit(s'.history[i], init);
    } else if s'.poisoned {
      var t :| Writes(s, s', t, init);
      var call := s.threads[t].call;
      assert s'.history[|s.history|] == Event(call, Locked(s.keys, init, call, Distinct(init)).1);
      assert Culprit(s'.history[|s.history|], init);
    }
  }

  lemma {:induction false} EveryStateKeepsPoisonInv(states: seq<State>, init: seq<Key>, j: nat)
    requires Run(states, init) && j < |states|
    ensures PoisonInv(states[j], init)
    decreases j
  {
    if j > 0 {
      EveryStateKeepsPoisonInv(states, init, j - 1);
      RunKeepsInv(states, init, j - 1, j);
      StepKeepsPoisonInv(states[j - 1], states[j], init);
    }
  }

  // What calls answer

  /** An answer that fits its call: a slot for intern, a key for at; a panic only for a poisoned lock, for equal
      presets, or for an at beyond the presets. */
  ghost predicate Fitting(e: Event, init: seq<Key>, poisoned: bool) {
    match e.result
    case Slot(_) => e.call.Intern?
    case KeyOf(_) => e.call.At?
    case Panic(PoisonedLock) => poisoned
    case Panic(DuplicatePreset) => !Distinct(init)
    case Panic(OutOfRange) => e.call.At? && e.call.index >= |init|
  }

  /** Behind the presets there are only keys that some intern was given the slot of. */
  ghost predicate AskedFor(s: State, init: seq<Key>, slot: nat) {
    slot < |init| || (slot < |s.keys| && Event(Intern(s.keys[slot]), Slot(slot)) in s.history)
  }

  ghost predicate AnswersInv(s: State, init: seq<Key>) {
    && (forall e :: e in s.history ==> Fitting(e, init, s.poisoned))
    && forall slot: nat :: slot < |s.keys| ==> AskedFor(s, init, slot)
  }

  lemma WriteKeepsAnswers(s: State, s': State, t: nat, init: seq<Key>)
    requires Inv(s, init) && AnswersInv(s, init) && Writes(s, s', t, init)
    ensures AnswersInv(s', init)
  {
    var call := s.threads[t].call;
    var e := s'.history[|s.history|];
    assert s'.history == s.history + [e];
    forall slot: nat | slot < |s'.keys|
      ensures AskedFor(s', init, slot)
    {
      if slot < |s.keys| {
        assert AskedFor(s, init, slot);
      } else if slot >= |init| {
        assert call.Intern? && e == Event(Intern(s'.keys[slot]), Slot(slot));
      }
    }
  }

  lemma ReadKeepsAnswers(s: State, s': State, t: nat, init: seq<Key>)
    requires Inv(s, init) && AnswersInv(s, init) && Reads(s, s', t, init)
    ensures AnswersInv(s', init)
  {
    if s'.history != s.history {
      var e := s'.history[|s.history|];
      assert s'.history == s.history + [e];
    }
    forall slot: nat | slot < |s'.keys|
      ensures AskedFor(s', init, slot)
    {
      assert AskedFor(s, init, slot);
    }
  }

  lemma StepKeepsAnswers(s: State, s': State, init: seq<Key>)
    requires Inv(s, init) && AnswersInv(s, init) && Next(s, s', init)
    ensures AnswersInv(s', init)
  {
    if t, call :| Starts(s, s', t, call) {
      forall slot: nat | slot < |s'.keys|
        ensures AskedFor(s', init, slot)
      {
        assert AskedFor(s, init, slot);
      }
    } else if t :| Reads(s, s', t, init) {
      ReadKeepsAnswers(s, s', t, init);
    } else {
      var t :| Writes(s, s', t, init);
      WriteKeepsAnswers(s, s', t, init);
    }
  }

  /** In every run answers fit their calls, and the table holds the presets and what was interned, nothing else. */
  lemma {:induction false} EveryAnswerFits(states: seq<State>, init: seq<Key>, j: nat)
    requires Run(states, init) && j < |states|
    ensures AnswersInv(states[j], init)
    decreases j
  {
    if j > 0 {
      EveryAnswerFits(states, init, j - 1);
      EveryStateKeepsInv(states, init, j - 1);
      StepKeepsAnswers(states[j - 1], states[j], init);
    }
  }

  ghost predicate Continues(s: State, states: seq<State>, init: seq<Key>) {
    && |states| > 0 && states[0] == s && forall i :: 0 <= i < |states| - 1 ==> Next(states[i], states[i + 1], init)
  }

  /** What a call that is not interfered with leaves and answers. */
  ghost predicate Meant(s: State, s': State, init: seq<Key>, call: Call, result: Result) {
    var base := if |s.keys| < |init| then init else s.keys;
    match call
    case Intern(key) =>
      && result.Slot? && result.slot < |s'.keys| && s'.keys[result.slot] == key
      && s'.keys == if key in base then base else base + [key]
    case At(index) => s'.keys == base && result == if index < |base| then KeyOf(base[index]) else Panic(OutOfRange)
  }

  /** No call is kept from returning: from any state with distinct presets and a lock that is not poisoned, an idle
      thread gets the answer that is meant in at most three steps of its own. */
  lemma CallReturns(s: State, init: seq<Key>, t: nat, call: Call) returns (states: seq<State>, result: Result)
    requires Inv(s, init) && Distinct(init) && !s.poisoned && (t in s.threads ==> s.threads[t].Idle?)
    ensures Continues(s, states, init) && |states| <= 4
    ensures var s' := states[|states| - 1];
            s'.history == s.history + [Event(call, result)] && s'.threads[t := Idle] == s.threads[t := Idle]
            && Meant(s, s', init, call, result)
  {
    var s1 := s.(threads := s.threads[t := Probing(call)]);
    assert Starts(s, s1, t, call);
    match Probe(s.keys, init, call)
    case Some(r) =>
      result := r;
      var s2 := Finished(s1, t, call, r);
      assert Reads(s1, s2, t, init);
      states := [s, s1, s2];
    case None =>
      var s2 := s1.(threads := s1.threads[t := Waiting(call)]);
      assert Reads(s1, s2, t, init);
      var (ks, r) := Locked(s.keys, init, call, true);
      result := r;
      var s3 := Finished(s2, t, call, r).(keys := ks, poisoned := r.Panic?);
      assert Writes(s2, s3, t, init);
      states := [s, s1, s2, s3];
  }

  /** A run in which the first call is at with an index beyond the presets. */
  ghost function PoisoningRun(init: seq<Key>): seq<State> {
    var call := At(|init|);
    var ks := if Distinct(init) then init else [];
    var reason := if Distinct(init) then OutOfRange else DuplicatePreset;
    [ State([], false, map[], []),
      State([], false, map[0 := Probing(call)], []),
      State([], false, map[0 := Waiting(call)], []),
      State(ks, true, map[0 := Idle], [Event(call, Panic(reason))]) ]
  }

  lemma PoisoningRuns(init: seq<Key>)
    requires init != []
    ensures Run(PoisoningRun(init), init)
  {
    var states := PoisoningRun(init);
    assert Starts(states[0], states[1], 0, At(|init|));
    assert Reads(states[1], states[2], 0, init);
    assert Writes(states[2], states[3], 0, init);
  }

  /** Poisoning is reachable as soon as there is a preset. It always takes a call of at beyond the presets
      before they are inserted, or equal presets. */
  lemma PoisonReachableIff(init: seq<Key>)
    ensures (exists states: seq<State>, j :: Run(states, init) && 0 <= j < |states| && states[j].poisoned)
         <==> init != []
  {
    if init != [] {
      PoisoningRuns(init);
      assert PoisoningRun(init)[3].poisoned;
    } else {
      forall states: seq<State>, j | Run(states, init) && 0 <= j < |states|
        ensures !states[j].poisoned
      {
        EveryStateKeepsPoisonInv(states, init, j);
      }
    }
  }

  /** What poisoned the lock, in any run. */
  lemma PoisonHasCulprit(states: seq<State>, init: seq<Key>, j: nat)
    requires Run(states, init) && j < |states| && states[j].poisoned
    ensures exists i :: 0 <= i < |states[j].history| && Culprit(states[j].history[i], init)
  {
    EveryStateKeepsPoisonInv(states, init, j);
  }
}
