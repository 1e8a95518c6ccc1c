/**
 The recursive mutex of CFCore/Mutex.cpp and the ownership hand-off of
 Cond::TimedWait in CFCore/Cond.cpp, one shared access per step.

 Thread ids are positive; 0 stands for no thread, as in fHolder.
 */
module RecursiveMutex {

  type ThreadId = nat

  /** A thread's position in the call it is executing. */
  datatype Pc =
    | Out
    | TestOwner(trying: bool)      // compare the caller with fHolder, without the lock
    | Recount                      // the caller is the holder: only count
    | Grab(trying: bool)           // pthread_mutex_lock or pthread_mutex_trylock
    | SetHolder
    | Count
    | UnTest | UnDec | UnCheck | UnClear | UnRelease
    | WaitDec | WaitClear | WaitRelease | Asleep | WaitInc | WaitSetHolder

  datatype State = State(
    inner: ThreadId,               // owner of the plain mutex, 0 when free
    holder: ThreadId,              // fHolder
    count: nat,                    // fHolderCount
    pc: seq<Pc>,                   // by thread id; entry 0 is unused
    depth: seq<nat>,               // locks a thread has returned from and not undone
    got: seq<bool>)                // what the last lock or try-lock of a thread returned

  datatype Call = Lock | TryLock | Unlock | Wait

  datatype Action = Start(t: ThreadId, call: Call) | Step(t: ThreadId)

  predicate Init(s: State) {
    && s.inner == 0 && s.holder == 0 && s.count == 0 && |s.pc| == |s.depth| == |s.got|
    && (forall t | 0 <= t < |s.pc| :: s.pc[t] == Out && s.depth[t] == 0)
  }

  predicate Enabled(s: State, a: Action) {
    && |s.pc| == |s.depth| == |s.got| && 0 < a.t < |s.pc|
    && match a
       case Start(t, call) => s.pc[t] == Out && (call.Wait? ==> s.depth[t] > 0)
       case Step(t) =>
         && s.pc[t] != Out
         && (s.pc[t] == Grab(false) || s.pc[t] == Asleep ==> s.inner == 0)
         && (s.pc[t].UnDec? || s.pc[t].WaitDec? ==> s.count > 0)
  }

  function At(s: State, t: ThreadId, p: Pc): (r: State)
    requires t < |s.pc|
  {
    s.(pc := s.pc[t := p])
  }

  /** A lock or try-lock returns. */
  function Return(s: State, t: ThreadId, ok: bool): (r: State)
    requires t < |s.pc| == |s.depth| == |s.got|
  {
    s.(pc := s.pc[t := Out], got := s.got[t := ok], depth := if ok then s.depth[t := s.depth[t] + 1] else s.depth)
  }

  function Apply(s: State, a: Action): (r: State)
    requires Enabled(s, a)
    ensures |r.pc| == |s.pc| && |r.depth| == |s.depth| && |r.got| == |s.got|
  {
    var t := a.t;
    match a
    case Start(_, Lock) => At(s, t, TestOwner(false))
    case Start(_, TryLock) => At(s, t, TestOwner(true))
    case Start(_, Unlock) => At(s, t, UnTest)
    case Start(_, Wait) => At(s, t, WaitDec)
    case Step(_) =>
      match s.pc[t]
      case Out => s
      case TestOwner(trying) => At(s, t, if s.holder == t then Recount else Grab(trying))
      case Recount => Return(s, t, true).(count := s.count + 1)
      case Grab(trying) => if s.inner == 0 then At(s, t, SetHolder).(inner := t) else Return(s, t, false)
      case SetHolder => At(s, t, Count).(holder := t)
      case Count => Return(s, t, true).(count := s.count + 1)
      case UnTest => At(s, t, if s.holder == t then UnDec else Out)
      case UnDec =>
        At(s, t, UnCheck).(count := s.count - 1,
                           depth := if s.depth[t] > 0 then s.depth[t := s.depth[t] - 1] else s.depth)
      case UnCheck => At(s, t, if s.count == 0 then UnClear else Out)
      case UnClear => At(s, t, UnRelease).(holder := 0)
      case UnRelease => At(s, t, Out).(inner := 0)
      case WaitDec => At(s, t, WaitClear).(count := s.count - 1)
      case WaitClear => At(s, t, WaitRelease).(holder := 0)
      case WaitRelease => At(s, t, Asleep).(inner := 0)
      case Asleep => At(s, t, WaitInc).(inner := t)
      case WaitInc => At(s, t, WaitSetHolder).(count := s.count + 1)
      case WaitSetHolder => At(s, t, Out).(holder := t)
  }

  /** The thread owns the plain mutex, told from its own position and depth. */
  predicate Inside(p: Pc, depth: nat) {
    match p
    case Out | TestOwner(_) | UnTest => depth > 0
    case Grab(_) | Asleep => false
    case _ => true
  }

  /** What the shared fields hold while the owner is at position p. */
  predicate OwnerSees(s: State, t: ThreadId, p: Pc, depth: nat) {
    match p
    case Out | TestOwner(_) | Recount | UnTest | UnDec | WaitDec => depth > 0 && s.holder == t && s.count == depth
    case SetHolder => depth == 0 && s.holder == 0 && s.count == 0
    case Count => depth == 0 && s.holder == t && s.count == 0
    case UnCheck => s.holder == t && s.count == depth
    case UnClear => depth == 0 && s.holder == t && s.count == 0
    case UnRelease => depth == 0 && s.holder == 0 && s.count == 0
    case WaitClear => depth > 0 && s.holder == t && s.count == depth - 1
    case WaitRelease => depth > 0 && s.holder == 0 && s.count == depth - 1
    case WaitInc => depth == 1 && s.holder == 0 && s.count == 0
    case WaitSetHolder => depth == 1 && s.holder == 0 && s.count == 1
    case Grab(_) | Asleep => false
  }

  predicate OutsideFits(p: Pc, depth: nat) {
    (p.Grab? ==> depth == 0) && (p.Asleep? ==> depth == 1)
  }

  /** A free plain mutex leaves no owner and no count behind. */
  predicate FreeIsClean(s: State) {
    s.inner == 0 ==> s.holder == 0 && s.count == 0
  }

  ghost predicate Inv(s: State) {
    && |s.pc| == |s.depth| == |s.got| && (s.inner == 0 || s.inner < |s.pc|)
    && FreeIsClean(s)
    && (forall t | 0 < t < |s.pc| :: Inside(s.pc[t], s.depth[t]) <==> s.inner == t)
    && (forall t | 0 < t < |s.pc| :: OutsideFits(s.pc[t], s.depth[t]))
    && (s.inner > 0 ==> OwnerSees(s, s.inner, s.pc[s.inner], s.depth[s.inner]))
  }

  /** A condition wait gives up the plain mutex in this step. */
  predicate WaitReleases(s: State, a: Action) {
    Enabled(s, a) && a.Step? && s.pc[a.t].WaitRelease?
  }

  /** A step of t leaves the other threads alone, and the shared fields too
      unless t owns the mutex or takes it. */
  lemma StepFrame(s: State, a: Action)
    requires Inv(s) && Enabled(s, a)
    ensures var r := Apply(s, a);
            && (forall u | 0 <= u < |s.pc| && u != a.t :: r.pc[u] == s.pc[u] && r.depth[u] == s.depth[u])
            && (s.inner != a.t ==> r.holder == s.holder && r.count == s.count)
            && (r.inner == s.inner || (s.inner == 0 && r.inner == a.t) || (s.inner == a.t && r.inner == 0))
  {
  }

  lemma OwnStep(s: State, a: Action)
    requires Inv(s) && Enabled(s, a) && (WaitReleases(s, a) ==> s.depth[a.t] == 1)
    ensures var r := Apply(s, a);
            var p, d := r.pc[a.t], r.depth[a.t];
            && (Inside(p, d) <==> r.inner == a.t) && OutsideFits(p, d)
            && (r.inner == a.t ==> OwnerSees(r, a.t, p, d)) && (r.inner == 0 ==> FreeIsClean(r))
  {
  }

  lemma InvKept(s: State, a: Action)
    requires Inv(s) && Enabled(s, a) && (WaitReleases(s, a) ==> s.depth[a.t] == 1)
    ensures Inv(Apply(s, a))
  {
    StepFrame(s, a);
    OwnStep(s, a);
  }

  // ------------------------------------------------------------------ runs

  datatype Run = Run(states: seq<State>, acts: seq<Action>)

  predicate StepAt(r: Run, i: nat)
    requires |r.states| == |r.acts| + 1 && i < |r.acts|
  {
    Enabled(r.states[i], r.acts[i]) && r.states[i + 1] == Apply(r.states[i], r.acts[i])
  }

  ghost predicate IsRun(r: Run) {
    |r.states| == |r.acts| + 1 && Init(r.states[0]) && forall i | 0 <= i < |r.acts| :: StepAt(r, i)
  }

  /** Up to state n, every condition wait was entered at nesting depth one. */
  ghost predicate WaitsShallow(r: Run, n: nat)
    requires IsRun(r) && n < |r.states|
  {
    forall i | 0 <= i < n && StepAt(r, i) && WaitReleases(r.states[i], r.acts[i]) ::
      r.states[i].depth[r.acts[i].t] == 1
  }

  lemma {:induction false} InvAlways(r: Run, n: nat)
    requires IsRun(r) && n < |r.states| && WaitsShallow(r, n)
    ensures Inv(r.states[n])
  {
    if n > 0 {
      assert WaitsShallow(r, n - 1);
      InvAlways(r, n - 1);
      assert StepAt(r, n - 1);
      InvKept(r.states[n - 1], r.acts[n - 1]);
    }
  }

  /** In every interleaving whose waits are entered at depth one: the unlocked
      owner test answers true exactly for a thread that has the mutex; at most
      one thread has it; while it is at rest the count is its nesting depth;
      a free plain mutex means no owner and count 0; the assertions after
      acquiring hold. */
  lemma OwnershipSound(r: Run, n: nat)
    requires IsRun(r) && n < |r.states| && WaitsShallow(r, n)
    ensures var s := r.states[n];
            && |s.pc| == |s.depth| == |s.got| && FreeIsClean(s)
            && (forall t | 0 < t < |s.pc| && (s.pc[t].TestOwner? || s.pc[t].UnTest?) ::
                  s.holder == t <==> s.depth[t] > 0)
            && (forall t, u | 0 < t < |s.pc| && 0 < u < |s.pc|
                              && Inside(s.pc[t], s.depth[t]) && Inside(s.pc[u], s.depth[u]) ::
                  t == u)
            && (forall t | 0 < t < |s.pc| && s.pc[t].Out? && s.depth[t] > 0 :: s.holder == t && s.count == s.depth[t])
            && (forall t | 0 < t < |s.pc| ::
                  (s.pc[t].SetHolder? ==> s.holder == 0) && (s.pc[t].Count? ==> s.count == 0))
  {
    InvAlways(r, n);
  }

  // ------------------------------------------------- what the calls bring about

  /** The last call that thread t started before state n. */
  function LastCall(r: Run, n: nat, t: ThreadId): (c: Call)
    requires n <= |r.acts|
  {
    if n == 0 then Lock
    else if r.acts[n - 1].Start? && r.acts[n - 1].t == t then r.acts[n - 1].call
    else LastCall(r, n - 1, t)
  }

  /** Thread t returns from its call in step i. */
  predicate Returns(r: Run, i: nat, t: ThreadId)
    requires i < |r.acts| && i + 1 < |r.states| && t < |r.states[i + 1].pc|
  {
    r.acts[i] == Step(t) && r.states[i + 1].pc[t].Out?
  }

  lemma {:induction false} SizeFixed(r: Run, n: nat)
    requires IsRun(r) && n < |r.states|
    ensures var s := r.states[n]; |s.pc| == |s.depth| == |s.got| == |r.states[0].pc|
  {
    if n > 0 {
      SizeFixed(r, n - 1);
      assert StepAt(r, n - 1);
    }
  }

  /** How often a thread that had the mutex d times has it after a call. */
  function After(c: Call, d: nat, ok: bool): (r: nat) {
    match c
    case Lock => d + 1
    case TryLock => if ok then d + 1 else d
    case Unlock => if d > 0 then d - 1 else 0
    case Wait => d
  }

  /** How often thread t has the mutex, told from its calls alone: locks, and
      try-locks that returned true, less the unlocks that found it locked. */
  ghost function Nesting(r: Run, n: nat, t: ThreadId): (d: nat)
    requires IsRun(r) && n < |r.states| && t < |r.states[0].pc|
  {
    if n == 0 then 0
    else
      SizeFixed(r, n);
      var d := Nesting(r, n - 1, t);
      if Returns(r, n - 1, t) then After(LastCall(r, n, t), d, r.states[n].got[t]) else d
  }

  /** Where a thread in call c, with nesting d when it started, can stand, and what
      its depth is there. */
  predicate Fits(p: Pc, c: Call, d: nat, depth: nat) {
    match p
    case Out => depth == d
    case TestOwner(trying) => c == (if trying then TryLock else Lock) && depth == d
    case Grab(trying) => c == (if trying then TryLock else Lock) && depth == d
    case Recount | SetHolder | Count => (c.Lock? || c.TryLock?) && depth == d
    case UnTest | UnDec => c.Unlock? && depth == d
    case UnCheck | UnClear | UnRelease => c.Unlock? && depth + 1 == d
    case _ => c.Wait? && depth == d
  }

  lemma FitsStep(s: State, t: ThreadId, c: Call, d: nat)
    requires Inv(s) && Enabled(s, Step(t)) && Fits(s.pc[t], c, d, s.depth[t])
    ensures var x := Apply(s, Step(t));
            Fits(x.pc[t], c, if x.pc[t].Out? then After(c, d, x.got[t]) else d, x.depth[t])
  {
  }

  lemma {:induction false} DepthIsNesting(r: Run, n: nat, t: ThreadId)
    requires IsRun(r) && n < |r.states| && WaitsShallow(r, n) && 0 < t < |r.states[0].pc|
    ensures var s := r.states[n];
            t < |s.pc| == |s.depth| && Fits(s.pc[t], LastCall(r, n, t), Nesting(r, n, t), s.depth[t])
  {
    SizeFixed(r, n);
    if n > 0 {
      assert WaitsShallow(r, n - 1);
      DepthIsNesting(r, n - 1, t);
      FitsOn(r, n - 1, t);
    }
  }

  lemma FitsOn(r: Run, n: nat, t: ThreadId)
    requires IsRun(r) && n < |r.acts| && WaitsShallow(r, n) && 0 < t < |r.states[0].pc|
    requires var s := r.states[n];
             t < |s.pc| == |s.depth| && Fits(s.pc[t], LastCall(r, n, t), Nesting(r, n, t), s.depth[t])
    ensures var s := r.states[n + 1];
            t < |s.pc| == |s.depth| && Fits(s.pc[t], LastCall(r, n + 1, t), Nesting(r, n + 1, t), s.depth[t])
  {
    assert StepAt(r, n);
    InvAlways(r, n);
    SizeFixed(r, n);
    if r.acts[n] == Step(t) {
      FitsStep(r.states[n], t, LastCall(r, n, t), Nesting(r, n, t));
    } else if r.acts[n].t != t {
      StepFrame(r.states[n], r.acts[n]);
    }
  }

  lemma {:induction false} InCall(r: Run, i: nat, j: nat, t: ThreadId)
    requires IsRun(r) && i < j < |r.states| && r.acts[i].Start? && r.acts[i].t == t < |r.states[0].pc|
    requires forall k | i < k < j :: t < |r.states[k].pc| && !r.states[k].pc[t].Out?
    ensures t < |r.states[j].pc| && LastCall(r, j, t) == r.acts[i].call
    ensures if !r.states[j].pc[t].Out? then Nesting(r, j, t) == Nesting(r, i, t)
            else t < |r.states[j].got|
                 && Nesting(r, j, t) == After(r.acts[i].call, Nesting(r, i, t), r.states[j].got[t])
  {
    SizeFixed(r, j);
    SizeFixed(r, j - 1);
    assert StepAt(r, j - 1);
    if j > i + 1 {
      InCall(r, i, j - 1, t);
    }
  }

  /** From its start to its return a call changes how often the thread has the mutex by
      what it says; in particular an Unlock that finds it locked once frees it. */
  lemma CallCounts(r: Run, i: nat, j: nat, t: ThreadId)
    requires IsRun(r) && i < j < |r.states| && WaitsShallow(r, j) && 0 < t < |r.states[0].pc|
    requires r.acts[i].Start? && r.acts[i].t == t && t < |r.states[j].pc| && r.states[j].pc[t].Out?
    requires forall k | i < k < j :: t < |r.states[k].pc| && !r.states[k].pc[t].Out?
    ensures t < |r.states[j].got|
    ensures Nesting(r, j, t) == After(r.acts[i].call, Nesting(r, i, t), r.states[j].got[t])
    ensures r.acts[i].call == Unlock && Nesting(r, i, t) <= 1 ==> r.states[j].inner != t && r.states[j].holder != t
  {
    InCall(r, i, j, t);
    NestingSound(r, j, t);
  }

  /** A thread at rest has the mutex exactly if its calls leave it locked, and the
      count is how often.  So an Unlock undoes one lock, and the last one frees the
      mutex. */
  lemma NestingSound(r: Run, n: nat, t: ThreadId)
    requires IsRun(r) && n < |r.states| && WaitsShallow(r, n) && 0 < t < |r.states[0].pc|
    requires t < |r.states[n].pc| && r.states[n].pc[t].Out?
    ensures var s, d := r.states[n], Nesting(r, n, t);
            (d > 0 <==> s.inner == t) && (d > 0 <==> s.holder == t) && (d > 0 ==> s.count == d)
  {
    DepthIsNesting(r, n, t);
    InvAlways(r, n);
  }

  /** A try-lock fails only while another thread has the mutex. */
  lemma TryLockFailsExactly(r: Run, i: nat, t: ThreadId)
    requires IsRun(r) && i < |r.acts| && WaitsShallow(r, i) && 0 < t < |r.states[0].pc|
    requires t < |r.states[i + 1].pc| && Returns(r, i, t) && LastCall(r, i, t) == TryLock
    ensures t < |r.states[i + 1].got|
    ensures !r.states[i + 1].got[t] <==> r.states[i].inner != t && r.states[i].inner != 0
  {
    assert StepAt(r, i);
    DepthIsNesting(r, i, t);
    InvAlways(r, i);
  }

  /** In a call, a thread can always go on, but for a lock or the end of a wait while
      another thread has the mutex; the count is never taken below zero. */
  lemma BlocksExactly(r: Run, n: nat, t: ThreadId)
    requires IsRun(r) && n < |r.states| && WaitsShallow(r, n) && 0 < t < |r.states[0].pc|
    requires t < |r.states[n].pc| && !r.states[n].pc[t].Out?
    ensures var s := r.states[n];
            !Enabled(s, Step(t)) <==>
            s.inner != t && s.inner != 0 && (s.pc[t].Asleep? || (s.pc[t].Grab? && LastCall(r, n, t) == Lock))
  {
    DepthIsNesting(r, n, t);
    InvAlways(r, n);
  }

  /** The steps a call still has before it. */
  function Ahead(p: Pc): (n: nat) {
    match p
    case Out => 0
    case Recount | Count | UnRelease | WaitSetHolder => 1
    case SetHolder | UnClear | WaitInc => 2
    case Grab(_) | UnCheck | Asleep => 3
    case TestOwner(_) | UnDec | WaitRelease => 4
    case UnTest | WaitClear => 5
    case WaitDec => 6
  }

  /** So every call ends, once it is not blocked. */
  lemma CallsEnd(s: State, t: ThreadId)
    requires Enabled(s, Step(t))
    ensures Ahead(Apply(s, Step(t)).pc[t]) < Ahead(s.pc[t])
  {
  }

  predicate Handing(p: Pc) {
    p.WaitDec? || p.WaitClear? || p.WaitRelease?
  }

  lemma HandingStep(s: State, a: Action, t: ThreadId)
    requires Inv(s) && Enabled(s, a) && 0 < t < |s.pc| && Handing(s.pc[t])
    requires a == Step(t) || a.t != t
    ensures var x := Apply(s, a); Handing(x.pc[t]) || x.inner != t
  {
    if a.t != t {
      StepFrame(s, a);
    }
  }

  lemma {:induction false} GivenUpAt(r: Run, i: nat, j: nat, t: ThreadId) returns (k: nat)
    requires IsRun(r) && i < j < |r.states| && WaitsShallow(r, j) && 0 < t < |r.states[0].pc|
    requires r.acts[i] == Start(t, Wait)
    ensures t < |r.states[j].pc|
    ensures Handing(r.states[j].pc[t]) || (i < k <= j && r.states[k].inner != t)
  {
    SizeFixed(r, j);
    k := j;
    if j == i + 1 {
      assert StepAt(r, i);
    } else {
      assert WaitsShallow(r, j - 1);
      k := GivenUpAt(r, i, j - 1, t);
      if Handing(r.states[j - 1].pc[t]) {
        k := j;
        HandingOn(r, j - 1, t);
      }
    }
  }

  lemma HandingOn(r: Run, n: nat, t: ThreadId)
    requires IsRun(r) && n < |r.acts| && WaitsShallow(r, n) && 0 < t < |r.states[n].pc|
    requires Handing(r.states[n].pc[t])
    ensures t < |r.states[n + 1].pc| && (Handing(r.states[n + 1].pc[t]) || r.states[n + 1].inner != t)
  {
    assert StepAt(r, n);
    InvAlways(r, n);
    HandingStep(r.states[n], r.acts[n], t);
  }

  /** Once a wait has returned, the mutex was given up in between. */
  lemma WaitGivesUp(r: Run, i: nat, j: nat, t: ThreadId) returns (k: nat)
    requires IsRun(r) && i < j < |r.states| && WaitsShallow(r, j) && 0 < t < |r.states[0].pc|
    requires r.acts[i] == Start(t, Wait) && t < |r.states[j].pc| && r.states[j].pc[t].Out?
    ensures i < k <= j && r.states[k].inner != t
  {
    k := GivenUpAt(r, i, j, t);
  }

  lemma {:induction false} FirstDeepWait(r: Run, n: nat) returns (k: nat)
    requires IsRun(r) && n < |r.states| && !WaitsShallow(r, n)
    ensures k < n && StepAt(r, k) && WaitReleases(r.states[k], r.acts[k]) && WaitsShallow(r, k)
    ensures r.states[k].depth[r.acts[k].t] != 1
  {
    if WaitsShallow(r, n - 1) {
      k := n - 1;
    } else {
      k := FirstDeepWait(r, n - 1);
    }
  }

  /** Exactly when the hand-off is sound: the mutex is clean whenever it is
      free if and only if no wait released it from a deeper nesting. */
  lemma CleanExactlyWhenShallow(r: Run)
    requires IsRun(r)
    ensures (forall i | 0 <= i < |r.states| :: FreeIsClean(r.states[i])) <==> WaitsShallow(r, |r.acts|)
  {
    if WaitsShallow(r, |r.acts|) {
      forall i | 0 <= i < |r.states|
        ensures FreeIsClean(r.states[i])
      {
        assert WaitsShallow(r, i);
        InvAlways(r, i);
      }
    } else {
      var k := FirstDeepWait(r, |r.acts|);
      InvAlways(r, k);
      assert !FreeIsClean(r.states[k + 1]);
    }
  }

  lemma Extend(r: Run, a: Action, s: State) returns (x: Run)
    requires IsRun(r) && Enabled(r.states[|r.acts|], a) && Apply(r.states[|r.acts|], a) == s
    ensures x == Run(r.states + [s], r.acts + [a]) && IsRun(x)
  {
    x := Run(r.states + [s], r.acts + [a]);
    forall i | 0 <= i < |x.acts|
      ensures StepAt(x, i)
    {
      assert i < |r.acts| ==> StepAt(r, i);
    }
  }

  /** Thread 1 alone. */
  function Alone(inner: ThreadId, holder: ThreadId, count: nat, p: Pc, depth: nat, ok: bool): (s: State) {
    State(inner, holder, count, [Out, p], [0, depth], [false, ok])
  }

  lemma GrabOnce() returns (r: Run)
    ensures IsRun(r) && r.states[|r.acts|] == Alone(1, 0, 0, SetHolder, 0, false)
  {
    r := Run([Alone(0, 0, 0, Out, 0, false)], []);
    r := Extend(r, Start(1, Lock), Alone(0, 0, 0, TestOwner(false), 0, false));
    r := Extend(r, Step(1), Alone(0, 0, 0, Grab(false), 0, false));
    r := Extend(r, Step(1), Alone(1, 0, 0, SetHolder, 0, false));
  }

  lemma LockOnce() returns (r: Run)
    ensures IsRun(r) && r.states[|r.acts|] == Alone(1, 1, 1, Out, 1, true)
  {
    r := GrabOnce();
    r := Extend(r, Step(1), Alone(1, 1, 0, Count, 0, false));
    r := Extend(r, Step(1), Alone(1, 1, 1, Out, 1, true));
  }

  lemma LockTwice() returns (r: Run)
    ensures IsRun(r) && r.states[|r.acts|] == Alone(1, 1, 2, Out, 2, true)
  {
    r := LockOnce();
    r := Extend(r, Start(1, Lock), Alone(1, 1, 1, TestOwner(false), 1, true));
    r := Extend(r, Step(1), Alone(1, 1, 1, Recount, 1, true));
    r := Extend(r, Step(1), Alone(1, 1, 2, Out, 2, true));
  }

  /** The failing family is not empty: lock twice, then wait. */
  lemma DeepWaitLeavesCount() returns (r: Run)
    ensures IsRun(r) && !WaitsShallow(r, |r.acts|)
    ensures var s := r.states[|r.acts|]; s.inner == 0 && s.count == 1
  {
    r := LockTwice();
    r := Extend(r, Start(1, Wait), Alone(1, 1, 2, WaitDec, 2, true));
    r := Extend(r, Step(1), Alone(1, 1, 1, WaitClear, 2, true));
    r := Extend(r, Step(1), Alone(1, 0, 1, WaitRelease, 2, true));
    var k := |r.acts|;
    r := Extend(r, Step(1), Alone(0, 0, 1, Asleep, 2, true));
    assert StepAt(r, k) && WaitReleases(r.states[k], r.acts[k]);
  }
}
