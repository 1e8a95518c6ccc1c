/**
 The reference table of CFCore/Ref.cpp as a step relation.  Every operation is
 one critical section of the table mutex, except that UnRegister gives the
 mutex up while it waits; each pass of its wait loop is a step of its own.

 The table itself is a map from keys to refs.
 */
module RefTable {

  type Key = seq<nat>
  type RefId = nat
  type ThreadId = nat

  const WORD: nat := 0x1_0000_0000

  datatype Waiter = Waiter(ref: RefId, limit: nat)

  datatype State = State(
    keyOf: map<RefId, Key>,                // fString of every ref, fixed by Set
    count: map<RefId, nat>,                // fRefCount
    table: map<Key, RefId>,
    waiting: map<ThreadId, Waiter>,        // threads inside the wait of UnRegister
    signalled: set<ThreadId>)              // of those, the ones a Release has woken

  datatype Action =
    | Register(ref: RefId)
    | RegisterOrResolve(ref: RefId)
    | Resolve(key: Key)
    | Release(ref: RefId, wakes: ThreadId) // wakes: the waiter the condition variable picks
    | UnRegister(thread: ThreadId, ref: RefId, limit: nat)
    | Wake(thread: ThreadId)               // also stands for a spurious wake-up
    | TryUnRegister(ref: RefId, limit: nat)
    | Swap(ref: RefId)

  predicate Typed(s: State) {
    s.count.Keys == s.keyOf.Keys && (forall k | k in s.table :: s.table[k] in s.keyOf)
    && (forall t | t in s.waiting :: s.waiting[t].ref in s.keyOf)
  }

  predicate Init(s: State) {
    && Typed(s) && s.table == map[] && s.waiting == map[] && s.signalled == {}
    && forall r | r in s.count :: s.count[r] == 0
  }

  predicate Waits(s: State, t: ThreadId, r: RefId) {
    t in s.waiting && s.waiting[t].ref == r
  }

  /** What each operation may rely on: set-up refs, a zero count at
      registration, a resolve for every release. */
  predicate Enabled(s: State, a: Action)
    requires Typed(s)
  {
    match a
    case Register(r) => r in s.keyOf && s.count[r] == 0
    case RegisterOrResolve(r) =>
      && r in s.keyOf && s.count[r] == 0
      && (s.keyOf[r] in s.table ==> s.count[s.table[s.keyOf[r]]] + 1 < WORD)
    case Resolve(k) => k in s.table ==> s.count[s.table[k]] + 1 < WORD
    case Release(r, t) =>
      r in s.keyOf && s.count[r] > 0 && ((exists u | u in s.waiting :: Waits(s, u, r)) ==> Waits(s, t, r))
    case UnRegister(t, r, _) => r in s.keyOf && t !in s.waiting
    case Wake(t) => t in s.waiting
    case TryUnRegister(r, _) => r in s.keyOf
    case Swap(r) => r in s.keyOf && s.keyOf[r] in s.table
  }

  function Removed(s: State, r: RefId): (x: State)
    requires r in s.keyOf
  {
    var k := s.keyOf[r];
    if k in s.table && s.table[k] == r then s.(table := s.table - {k}) else s
  }

  function Resolved(s: State, k: Key): (x: State)
    requires Typed(s) && k in s.table
  {
    s.(count := s.count[s.table[k] := s.count[s.table[k]] + 1])
  }

  function Apply(s: State, a: Action): (x: State)
    requires Typed(s) && Enabled(s, a)
    ensures Typed(x) && x.keyOf == s.keyOf
  {
    match a
    case Register(r) =>
      if s.keyOf[r] == [] || s.keyOf[r] in s.table then s else s.(table := s.table[s.keyOf[r] := r])
    case RegisterOrResolve(r) =>
      if s.keyOf[r] in s.table then Resolved(s, s.keyOf[r]) else s.(table := s.table[s.keyOf[r] := r])
    case Resolve(k) => if k in s.table then Resolved(s, k) else s
    case Release(r, t) =>
      s.(count := s.count[r := s.count[r] - 1],
         signalled := if Waits(s, t, r) then s.signalled + {t} else s.signalled)
    case UnRegister(t, r, n) =>
      if s.count[r] > n then s.(waiting := s.waiting[t := Waiter(r, n)], signalled := s.signalled - {t})
      else Removed(s, r)
    case Wake(t) =>
      var w := s.waiting[t];
      if s.count[w.ref] > w.limit then s.(signalled := s.signalled - {t})
      else Removed(s, w.ref).(waiting := s.waiting - {t}, signalled := s.signalled - {t})
    case TryUnRegister(r, n) => if s.count[r] > n then s else Removed(s, r)
    case Swap(r) => s.(table := s.table[s.keyOf[r] := r])
  }

  predicate InTable(s: State, r: RefId) {
    r in s.keyOf && s.keyOf[r] in s.table && s.table[s.keyOf[r]] == r
  }

  // ------------------------------------------------------------------ runs

  datatype Run = Run(states: seq<State>, acts: seq<Action>)

  predicate StepAt(x: Run, i: nat)
    requires |x.states| == |x.acts| + 1 && i < |x.acts|
  {
    Typed(x.states[i]) && Enabled(x.states[i], x.acts[i]) && x.states[i + 1] == Apply(x.states[i], x.acts[i])
  }

  ghost predicate IsRun(x: Run) {
    |x.states| == |x.acts| + 1 && Init(x.states[0]) && forall i | 0 <= i < |x.acts| :: StepAt(x, i)
  }

  /** The step hands out ref r to a caller. */
  predicate Resolves(s: State, a: Action, r: RefId)
    requires Typed(s) && Enabled(s, a)
  {
    || (a.Resolve? && a.key in s.table && s.table[a.key] == r)
    || (a.RegisterOrResolve? && s.keyOf[a.ref] in s.table && s.table[s.keyOf[a.ref]] == r)
  }

  /** Resolves of r minus releases of r in the first i steps. */
  ghost function Outstanding(x: Run, i: nat, r: RefId): (n: int)
    requires IsRun(x) && i < |x.states|
  {
    if i == 0 then 0
    else
      assert StepAt(x, i - 1);
      var s, a := x.states[i - 1], x.acts[i - 1];
      Outstanding(x, i - 1, r) + (if Resolves(s, a, r) then 1 else 0) - (if a.Release? && a.ref == r then 1 else 0)
  }

  /** What the last UnRegister call of thread t before state i asked for. */
  function Asked(x: Run, i: nat, t: ThreadId): (w: Waiter)
    requires i <= |x.acts|
  {
    if i == 0 then Waiter(0, 0)
    else if x.acts[i - 1].UnRegister? && x.acts[i - 1].thread == t
    then Waiter(x.acts[i - 1].ref, x.acts[i - 1].limit)
    else Asked(x, i - 1, t)
  }

  /** The limit under which step i may unregister r, if it tries to. */
  function Limit(x: Run, i: nat, r: RefId): (n: int)
    requires i < |x.acts|
  {
    match x.acts[i]
    case UnRegister(_, q, n) => if q == r then n else -1
    case TryUnRegister(q, n) => if q == r then n else -1
    case Wake(t) => if Asked(x, i, t).ref == r then Asked(x, i, t).limit else -1
    case _ => -1
  }

  lemma TypedAlways(x: Run, i: nat)
    requires IsRun(x) && i < |x.states|
    ensures Typed(x.states[i])
  {
    if i > 0 {
      assert StepAt(x, i - 1);
    }
  }

  /** In every interleaving fRefCount is the number of resolves not released. */
  lemma {:induction false} CountIsOutstanding(x: Run, i: nat, r: RefId)
    requires IsRun(x) && i < |x.states| && r in x.states[i].keyOf
    ensures r in x.states[i].count && x.states[i].count[r] == Outstanding(x, i, r)
  {
    TypedAlways(x, i);
    if i > 0 {
      assert StepAt(x, i - 1);
      CountIsOutstanding(x, i - 1, r);
    }
  }

  /** No count ever wraps around. */
  lemma {:induction false} CountFits(x: Run, i: nat, r: RefId)
    requires IsRun(x) && i < |x.states| && r in x.states[i].count
    ensures x.states[i].count[r] < WORD
  {
    if i > 0 {
      assert StepAt(x, i - 1);
      if r in x.states[i - 1].count {
        CountFits(x, i - 1, r);
      }
    }
  }

  ghost predicate KeysOwn(s: State) {
    Typed(s) && forall k | k in s.table :: s.keyOf[s.table[k]] == k
  }

  /** A key always leads to a ref that carries that key, so a ref is in the
      table under its own key or not at all. */
  lemma {:induction false} KeysOwnAlways(x: Run, i: nat)
    requires IsRun(x) && i < |x.states|
    ensures KeysOwn(x.states[i])
  {
    if i > 0 {
      assert StepAt(x, i - 1);
      KeysOwnAlways(x, i - 1);
    }
  }

  /** A waiter waits for what its call asked for. */
  lemma {:induction false} WaitsAsAsked(x: Run, i: nat, t: ThreadId)
    requires IsRun(x) && i < |x.states| && t in x.states[i].waiting
    ensures x.states[i].waiting[t] == Asked(x, i, t)
  {
    assert i > 0;
    assert StepAt(x, i - 1);
    if t in x.states[i - 1].waiting {
      WaitsAsAsked(x, i - 1, t);
    }
  }

  /** Step i unregisters r: its limit is not below the number of outstanding
      holders at that very step, whatever was resolved while it waited. */
  ghost predicate TakesOut(x: Run, i: nat, r: RefId)
    requires IsRun(x) && i < |x.acts|
  {
    Limit(x, i, r) >= 0 && Outstanding(x, i, r) <= Limit(x, i, r)
  }

  ghost predicate SwapsAway(x: Run, i: nat, r: RefId)
    requires IsRun(x) && i < |x.acts| && r in x.states[i].keyOf
  {
    var a, keys := x.acts[i], x.states[i].keyOf;
    a.Swap? && a.ref != r && a.ref in keys && keys[a.ref] == keys[r]
  }

  /** A ref leaves the table exactly by a Swap for its key or by an unregister that
      its holders allow. */
  lemma LeavesExactly(x: Run, i: nat, r: RefId)
    requires IsRun(x) && i < |x.acts| && InTable(x.states[i], r)
    ensures !InTable(x.states[i + 1], r) <==> SwapsAway(x, i, r) || TakesOut(x, i, r)
  {
    assert StepAt(x, i);
    CountIsOutstanding(x, i, r);
    if x.acts[i].Wake? {
      WaitsAsAsked(x, i, x.acts[i].thread);
    }
  }

  /** A ref comes in exactly by a Swap, or by a registration under a key that no ref
      in the table has; Register refuses the empty key. */
  lemma EntersExactly(x: Run, i: nat, r: RefId)
    requires IsRun(x) && i < |x.acts| && r in x.states[i].keyOf && !InTable(x.states[i], r)
    ensures var s, a := x.states[i], x.acts[i];
            InTable(x.states[i + 1], r)
            <==> || a == Swap(r)
                 || ((a == RegisterOrResolve(r) || (a == Register(r) && s.keyOf[r] != []))
                     && forall q | InTable(s, q) :: s.keyOf[q] != s.keyOf[r])
  {
    var s, k := x.states[i], x.states[i].keyOf[r];
    assert StepAt(x, i);
    KeysOwnAlways(x, i);
    if k in s.table {
      assert InTable(s, s.table[k]);
    }
  }

  /** The refs in the table determine it: a key leads to the one ref in the table
      that carries it, if there is one. */
  lemma TableIsItsRefs(x: Run, i: nat, k: Key, r: RefId)
    requires IsRun(x) && i < |x.states|
    ensures var s := x.states[i];
            k in s.table && s.table[k] == r <==> InTable(s, r) && s.keyOf[r] == k
  {
    KeysOwnAlways(x, i);
  }

  /** Thread t sleeps in UnRegister after a step exactly if its call came with the
      step, or was asleep before, and the holders exceed its limit. */
  lemma WaitsExactly(x: Run, i: nat, t: ThreadId)
    requires IsRun(x) && i < |x.acts|
    ensures var a, w := x.acts[i], Asked(x, i + 1, t);
            t in x.states[i + 1].waiting
            <==> if (a.UnRegister? || a.Wake?) && a.thread == t then Outstanding(x, i, w.ref) > w.limit
                 else t in x.states[i].waiting
  {
    assert StepAt(x, i);
    var a := x.acts[i];
    if a.UnRegister? {
      CountIsOutstanding(x, i, a.ref);
    } else if a.Wake? {
      WaitsAsAsked(x, i, a.thread);
      TypedAlways(x, i);
      CountIsOutstanding(x, i, x.states[i].waiting[a.thread].ref);
    }
  }

  /** The step by which a call gets through takes its ref out. */
  lemma ThroughIsOut(x: Run, i: nat, t: ThreadId)
    requires IsRun(x) && i < |x.acts| && (x.acts[i].UnRegister? || x.acts[i].Wake?) && x.acts[i].thread == t
    requires t !in x.states[i + 1].waiting
    ensures !InTable(x.states[i + 1], Asked(x, i + 1, t).ref)
  {
    assert StepAt(x, i);
    if x.acts[i].Wake? {
      WaitsAsAsked(x, i, t);
    }
  }

  /** When UnRegister returns, the ref is out of the table, and at that moment it had
      at most as many holders as the call allowed. */
  lemma UnRegisterTakesOut(x: Run, i: nat, j: nat)
    requires IsRun(x) && i < j < |x.states| && x.acts[i].UnRegister?
    requires x.acts[i].thread !in x.states[j].waiting
    requires forall k | i < k < j :: x.acts[i].thread in x.states[k].waiting
    ensures !InTable(x.states[j], x.acts[i].ref) && Outstanding(x, j - 1, x.acts[i].ref) <= x.acts[i].limit
  {
    var t := x.acts[i].thread;
    AskedSince(x, i, j, t);
    WaitsExactly(x, j - 1, t);
    ThroughIsOut(x, j - 1, t);
  }

  /** While a call waits it is the last one of its thread. */
  lemma {:induction false} AskedSince(x: Run, i: nat, j: nat, t: ThreadId)
    requires IsRun(x) && i < j < |x.states| && x.acts[i].UnRegister? && x.acts[i].thread == t
    requires forall k | i < k < j :: t in x.states[k].waiting
    ensures Asked(x, j, t) == Waiter(x.acts[i].ref, x.acts[i].limit)
  {
    if j > i + 1 {
      AskedSince(x, i, j - 1, t);
      assert StepAt(x, j - 1);
    }
  }

  /** A ref leaves the table only by a Swap for its key, or by an unregister
      whose limit is not below the number of outstanding holders at that very
      step, whatever was resolved while it waited. */
  lemma LeavesOnlyWhenFree(x: Run, i: nat, r: RefId)
    requires IsRun(x) && i < |x.acts| && InTable(x.states[i], r) && !InTable(x.states[i + 1], r)
    ensures SwapsAway(x, i, r) || (Limit(x, i, r) >= 0 && Outstanding(x, i, r) <= Limit(x, i, r))
  {
    LeavesExactly(x, i, r);
  }

  /** Step k neither swaps r away nor tries to unregister it with a limit that
      its holders allow. */
  ghost predicate Guarded(x: Run, k: nat, r: RefId)
    requires IsRun(x) && k < |x.acts|
  {
    Outstanding(x, k, r) > Limit(x, k, r) && (r in x.states[k].keyOf ==> !SwapsAway(x, k, r))
  }

  /** A resolved ref stays in the table until it is released, unless Swap
      replaced it. */
  lemma {:induction false} ResolvedStays(x: Run, i: nat, j: nat, r: RefId)
    requires IsRun(x) && i <= j < |x.states| && InTable(x.states[i], r)
    requires forall k | i <= k < j :: Guarded(x, k, r)
    ensures InTable(x.states[j], r)
  {
    if i < j {
      ResolvedStays(x, i, j - 1, r);
      assert Guarded(x, j - 1, r);
      LeavesExactly(x, j - 1, r);
    }
  }

  // --------------------------------------------------------------- wake-ups

  /** Only sleeping threads are woken. */
  lemma {:induction false} WokenAreWaiting(x: Run, i: nat)
    requires IsRun(x) && i < |x.states|
    ensures x.states[i].signalled <= x.states[i].waiting.Keys
  {
    if i > 0 {
      WokenAreWaiting(x, i - 1);
      assert StepAt(x, i - 1);
    }
  }

  /** A sleeping thread has been woken exactly if a Release for its ref picked it
      since it last looked at the count. */
  lemma WokenExactly(x: Run, i: nat, t: ThreadId)
    requires IsRun(x) && i < |x.acts| && t in x.states[i + 1].waiting
    ensures var a := x.acts[i];
            t in x.states[i + 1].signalled
            <==> if (a.UnRegister? || a.Wake?) && a.thread == t then false
                 else t in x.states[i].signalled || (a.Release? && a.wakes == t && a.ref == Asked(x, i, t).ref)
  {
    assert StepAt(x, i);
    if t in x.states[i].waiting {
      WaitsAsAsked(x, i, t);
    }
  }

  /** At most one thread at a time waits to unregister the same ref. */
  ghost predicate OneWaiterEach(s: State) {
    forall t, u | t in s.waiting && u in s.waiting && s.waiting[t].ref == s.waiting[u].ref :: t == u
  }

  /** A waiter whose limit is met has been woken. */
  ghost predicate NoneOverslept(s: State) {
    Typed(s) && forall t | t in s.waiting && s.count[s.waiting[t].ref] <= s.waiting[t].limit :: t in s.signalled
  }

  /** A Release leaves no waiter asleep that it should wake: any waiter on the ref
      other than the one picked is woken already or has a limit still exceeded. */
  ghost predicate WakesEnough(s: State, a: Action)
    requires Typed(s) && Enabled(s, a)
  {
    a.Release? ==>
      forall t | Waits(s, t, a.ref) && t != a.wakes && t !in s.signalled :: s.waiting[t].limit < s.count[a.ref] - 1
  }

  /** Only a Release can leave a waiter asleep, and exactly under that condition. */
  lemma StepWakesExactly(s: State, a: Action)
    requires Typed(s) && Enabled(s, a) && NoneOverslept(s)
    ensures NoneOverslept(Apply(s, a)) <==> WakesEnough(s, a)
  {
    if a.Release? {
      ReleaseWakesExactly(s, a);
    }
  }

  lemma ReleaseWakesExactly(s: State, a: Action)
    requires Typed(s) && Enabled(s, a) && NoneOverslept(s) && a.Release?
    ensures NoneOverslept(Apply(s, a)) <==> WakesEnough(s, a)
  {
    var x := Apply(s, a);
    if WakesEnough(s, a) {
      forall t | t in x.waiting && x.count[x.waiting[t].ref] <= x.waiting[t].limit
        ensures t in x.signalled
      {
        assert s.waiting[t].ref == a.ref ==> Waits(s, t, a.ref);
      }
    } else {
      var t :| Waits(s, t, a.ref) && t != a.wakes && t !in s.signalled && s.waiting[t].limit >= s.count[a.ref] - 1;
      assert t in x.waiting && t !in x.signalled;
    }
  }

  /** No wake-up is lost in a run if and only if every Release in it wakes enough. */
  lemma NoLostWakeUpExactly(x: Run)
    requires IsRun(x)
    ensures (forall i | 0 <= i < |x.states| :: NoneOverslept(x.states[i]))
       <==> (forall k | 0 <= k < |x.acts| && StepAt(x, k) :: WakesEnough(x.states[k], x.acts[k]))
  {
    if forall k | 0 <= k < |x.acts| && StepAt(x, k) :: WakesEnough(x.states[k], x.acts[k]) {
      forall i | 0 <= i < |x.states|
        ensures NoneOverslept(x.states[i])
      {
        WokenSoFar(x, i);
      }
    } else {
      var k :| 0 <= k < |x.acts| && StepAt(x, k) && !WakesEnough(x.states[k], x.acts[k]);
      if NoneOverslept(x.states[k]) {
        StepWakesExactly(x.states[k], x.acts[k]);
        assert !NoneOverslept(x.states[k + 1]);
      }
    }
  }

  lemma {:induction false} WokenSoFar(x: Run, i: nat)
    requires IsRun(x) && i < |x.states|
    requires forall k | 0 <= k < i && StepAt(x, k) :: WakesEnough(x.states[k], x.acts[k])
    ensures NoneOverslept(x.states[i])
  {
    if i > 0 {
      WokenSoFar(x, i - 1);
      assert StepAt(x, i - 1);
      StepWakesExactly(x.states[i - 1], x.acts[i - 1]);
    }
  }

  lemma OneWaiterWakes(s: State, a: Action)
    requires Typed(s) && Enabled(s, a) && OneWaiterEach(s)
    ensures WakesEnough(s, a)
  {
    if a.Release? {
      forall t | Waits(s, t, a.ref)
        ensures t == a.wakes
      {
        assert Waits(s, a.wakes, a.ref);
      }
    }
  }

  /** So none is lost while refs have one waiter each. */
  lemma NoLostWakeUp(x: Run, i: nat)
    requires IsRun(x) && i < |x.states| && forall k | 0 <= k < i :: OneWaiterEach(x.states[k])
    ensures NoneOverslept(x.states[i])
  {
    forall k | 0 <= k < i && StepAt(x, k)
      ensures WakesEnough(x.states[k], x.acts[k])
    {
      OneWaiterWakes(x.states[k], x.acts[k]);
    }
    WokenSoFar(x, i);
  }

  lemma Extend(x: Run, a: Action, s: State) returns (y: Run)
    requires IsRun(x) && Typed(x.states[|x.acts|]) && Enabled(x.states[|x.acts|], a)
    requires Apply(x.states[|x.acts|], a) == s
    ensures y == Run(x.states + [s], x.acts + [a]) && IsRun(y)
  {
    y := Run(x.states + [s], x.acts + [a]);
    forall i | 0 <= i < |y.acts|
      ensures StepAt(y, i)
    {
      assert i < |x.acts| ==> StepAt(x, i);
    }
  }

  lemma ReachTwoHolders() returns (x: Run)
    ensures IsRun(x)
    ensures x.states[|x.acts|] == State(map[7 := [1]], map[7 := 2], map[[1] := 7], map[], {})
  {
    var keys := map[7 := [1]];
    var table := map[[1] := 7];
    x := Run([State(keys, map[7 := 0], map[], map[], {})], []);
    x := Extend(x, Register(7), State(keys, map[7 := 0], table, map[], {}));
    x := Extend(x, Resolve([1]), State(keys, map[7 := 1], table, map[], {}));
    x := Extend(x, Resolve([1]), State(keys, map[7 := 2], table, map[], {}));
  }

  const KEYS_OF_7: map<RefId, Key> := map[7 := [1]]
  const TABLE_OF_7: map<Key, RefId> := map[[1] := 7]
  const BOTH: map<ThreadId, Waiter> := map[1 := Waiter(7, 1), 2 := Waiter(7, 0)]

  lemma ReachTwoWaiters() returns (x: Run)
    ensures IsRun(x) && x.states[|x.acts|] == State(KEYS_OF_7, map[7 := 2], TABLE_OF_7, BOTH, {})
  {
    x := ReachTwoHolders();
    var s := x.states[|x.acts|];
    x := Extend(x, UnRegister(1, 7, 1), s.(waiting := map[1 := Waiter(7, 1)]));
    x := Extend(x, UnRegister(2, 7, 0), s.(waiting := BOTH));
  }

  /** With two waiters on one ref the single signal of Release can go to the
      one whose limit is not met, and the other sleeps on. */
  lemma TwoWaitersCanOversleep() returns (x: Run)
    ensures IsRun(x) && !NoneOverslept(x.states[|x.acts|])
  {
    x := ReachTwoWaiters();
    var s := x.states[|x.acts|];
    assert Waits(s, 2, 7);
    x := Extend(x, Release(7, 2), s.(count := map[7 := 1], signalled := {2}));
    assert 1 in x.states[|x.acts|].waiting;
  }
}
