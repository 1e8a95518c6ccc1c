/**
 The task scheduler of CFThread/Task.cpp as a step relation.

 A step is one atomic access to shared memory, or one critical section of a
 thread's blocking queue.  Any number of signallers and worker threads
 interleave.  An event word is the set of its bit numbers: fetch_or is union,
 fetch_and is intersection, compare_exchange is set equality.
 */
module Scheduler {

  type TaskId = nat
  type ThreadId = nat
  type Mask = set<nat>

  const K_IDLE: nat := 1
  const K_ALIVE: nat := 31
  const MIN_WAIT := 10

  const ALIVE_ONLY: Mask := {K_ALIVE}

  /** How the release step finds the value it compares with: the shared
      static of the code, or a fresh copy of kAlive at each exchange. */
  datatype Expectation = SharedStatic | FreshCopy

  /** A Signal call that found kAlive clear and has not enqueued yet. */
  datatype Hand = Hand(task: TaskId, aimed: bool)

  datatype Timer = Timer(due: int, task: TaskId)

  /** Where a worker stands in TaskThread::Entry. */
  datatype Worker =
    | Waiting
    | Picked(task: TaskId)
    | Running(task: TaskId)
    | Releasing(task: TaskId)
    | Comparing(task: TaskId, expected: Mask)
    | Reloading(task: TaskId, seen: Mask)
    | MarkingIdle(task: TaskId)
    | Stopped

  datatype State = State(
    events: map<TaskId, Mask>,              // fEvents of every task not deleted
    useThread: map<TaskId, ThreadId>,       // fUseThisThread, absent when null
    defaultThread: map<TaskId, ThreadId>,   // fDefaultThread, absent when null
    hands: map<nat, Hand>,
    queues: seq<seq<TaskId>>,               // fTaskQueue of each thread
    timers: seq<seq<Timer>>,                // fHeap of each thread
    workers: seq<Worker>,
    expected: Mask,                         // the static val
    now: int)

  datatype Action =
    | NewTask(task: TaskId)
    | SetDefault(task: TaskId, thread: ThreadId)
    | SignalOr(hand: nat, task: TaskId, bits: Mask)
    | SignalAim(hand: nat)
    | SignalEnqueue(hand: nat, thread: ThreadId)
    | Dequeue(thread: ThreadId)
    | TimerFire(thread: ThreadId, index: nat)
    | BeginRun(thread: ThreadId)
    | ForceSameThread(thread: ThreadId)
    | GetEvents(thread: ThreadId)
    | RunReturns(thread: ThreadId, timeout: int)
    | MarkIdle(thread: ThreadId)
    | LoadExpected(thread: ThreadId)
    | Exchange(thread: ThreadId, spurious: bool)
    | StoreExpected(thread: ThreadId)
    | Tick(elapsed: nat)
    | Stop(thread: ThreadId)

  predicate Shaped(s: State) {
    |s.queues| == |s.workers| && |s.timers| == |s.workers|
  }

  predicate Init(s: State) {
    && Shaped(s)
    && s.events == map[] && s.useThread == map[] && s.defaultThread == map[] && s.hands == map[]
    && (forall w | 0 <= w < |s.queues| :: s.queues[w] == [])
    && (forall w | 0 <= w < |s.timers| :: s.timers[w] == [])
    && (forall w | 0 <= w < |s.workers| :: s.workers[w] == Waiting)
    && s.expected == ALIVE_ONLY
  }

  predicate Enabled(s: State, a: Action)
    requires Shaped(s)
  {
    var n := |s.workers|;
    match a
    case NewTask(t) => t !in s.events
    case SetDefault(t, w) => t in s.events && w < n
    case SignalOr(h, t, bits) => h !in s.hands && t in s.events
    case SignalAim(h) => h in s.hands && !s.hands[h].aimed
    case SignalEnqueue(h, w) =>
      && h in s.hands && s.hands[h].aimed && w < n
      && (s.hands[h].task in s.useThread ==> w == s.useThread[s.hands[h].task])
    case Dequeue(w) => w < n && s.workers[w].Waiting? && s.queues[w] != []
    case TimerFire(w, i) =>
      && w < n && s.workers[w].Waiting? && i < |s.timers[w]|
      && s.timers[w][i].due <= s.now
      && (forall j | 0 <= j < |s.timers[w]| :: s.timers[w][i].due <= s.timers[w][j].due)
    case BeginRun(w) => w < n && s.workers[w].Picked?
    case ForceSameThread(w) => w < n && s.workers[w].Running?
    case GetEvents(w) => w < n && s.workers[w].Running? && s.workers[w].task in s.events
    case RunReturns(w, _) => w < n && s.workers[w].Running?
    case MarkIdle(w) => w < n && s.workers[w].MarkingIdle? && s.workers[w].task in s.events
    case LoadExpected(w) => w < n && s.workers[w].Releasing?
    case Exchange(w, _) => w < n && s.workers[w].Comparing? && s.workers[w].task in s.events
    case StoreExpected(w) => w < n && s.workers[w].Reloading?
    case Tick(_) => true
    case Stop(w) => w < n && s.workers[w].Waiting? && s.queues[w] == []
  }

  /** Steps of no worker. */
  predicate Quiet(a: Action) {
    a.NewTask? || a.SetDefault? || a.SignalOr? || a.SignalAim? || a.SignalEnqueue? || a.Tick?
  }

  /** The exchange of the release step goes through. */
  predicate Succeeds(s: State, a: Action)
    requires Shaped(s)
  {
    && a.Exchange? && Enabled(s, a) && !a.spurious
    && s.events[s.workers[a.thread].task] == s.workers[a.thread].expected
  }

  function Max(a: int, b: int): int {
    if a < b then b else a
  }

  function Post(s: State, t: TaskId, bits: Mask): (r: State)
    requires t in s.events
  {
    s.(events := s.events[t := s.events[t] + bits])
  }

  function SetWorker(s: State, w: ThreadId, v: Worker): (r: State)
    requires w < |s.workers|
  {
    s.(workers := s.workers[w := v])
  }

  function Apply(mode: Expectation, s: State, a: Action): (r: State)
    requires Shaped(s) && Enabled(s, a)
    ensures Shaped(r) && |r.workers| == |s.workers|
  {
    match a
    case NewTask(t) =>
      s.(events := s.events[t := {}], useThread := s.useThread - {t}, defaultThread := s.defaultThread - {t})
    case SetDefault(t, w) => s.(defaultThread := s.defaultThread[t := w])
    case SignalOr(h, t, bits) =>
      var s1 := Post(s, t, bits + ALIVE_ONLY);
      if K_ALIVE !in s.events[t] && |s.workers| > 0 then s1.(hands := s1.hands[h := Hand(t, false)]) else s1
    case SignalAim(h) =>
      var t := s.hands[h].task;
      var s1 := s.(hands := s.hands[h := Hand(t, true)]);
      if t in s.defaultThread && t !in s.useThread then s1.(useThread := s.useThread[t := s.defaultThread[t]]) else s1
    case SignalEnqueue(h, w) =>
      s.(hands := s.hands - {h}, queues := s.queues[w := s.queues[w] + [s.hands[h].task]])
    case Dequeue(w) =>
      SetWorker(s, w, Picked(s.queues[w][0])).(queues := s.queues[w := s.queues[w][1..]])
    case TimerFire(w, i) =>
      SetWorker(s, w, Picked(s.timers[w][i].task))
      .(timers := s.timers[w := s.timers[w][..i] + s.timers[w][i + 1..]])
    case BeginRun(w) =>
      var t := s.workers[w].task;
      SetWorker(s, w, Running(t)).(useThread := s.useThread - {t})
    case ForceSameThread(w) => s.(useThread := s.useThread[s.workers[w].task := w])
    case GetEvents(w) =>
      var t := s.workers[w].task;
      s.(events := s.events[t := s.events[t] * ALIVE_ONLY])
    case RunReturns(w, timeout) =>
      var t := s.workers[w].task;
      if timeout < 0 then SetWorker(s, w, Waiting).(events := s.events - {t})
      else if timeout == 0 then SetWorker(s, w, Releasing(t))
      else
        SetWorker(s, w, MarkingIdle(t))
        .(timers := s.timers[w := s.timers[w] + [Timer(s.now + Max(timeout, MIN_WAIT), t)]])
    case MarkIdle(w) => SetWorker(Post(s, s.workers[w].task, {K_IDLE}), w, Waiting)
    case LoadExpected(w) => SetWorker(s, w, Comparing(s.workers[w].task, s.expected))
    case Exchange(w, _) =>
      var t := s.workers[w].task;
      if Succeeds(s, a) then SetWorker(s, w, Waiting).(events := s.events[t := {}])
      else SetWorker(s, w, Reloading(t, s.events[t]))
    case StoreExpected(w) =>
      SetWorker(s, w, Picked(s.workers[w].task))
      .(expected := if mode.SharedStatic? then s.workers[w].seen else s.expected)
    case Tick(elapsed) => s.(now := s.now + elapsed)
    case Stop(w) => SetWorker(s, w, Stopped)
  }

  // ---------------------------------------------------------------- places

  /** The places that can hold a task: a signaller's hand, a cell of a queue,
      a cell of a timer heap, or a worker between picking it up and letting go. */
  datatype Slot = InHand(hand: nat) | InQueue(thread: nat, i: nat) | InHeap(thread: nat, i: nat) | OnWorker(thread: nat)

  predicate Owns(v: Worker, t: TaskId) {
    (v.Picked? || v.Running? || v.Releasing? || v.Comparing? || v.Reloading?) && v.task == t
  }

  predicate Holds(s: State, p: Slot, t: TaskId) {
    match p
    case InHand(h) => h in s.hands && s.hands[h].task == t
    case InQueue(w, i) => w < |s.queues| && i < |s.queues[w]| && s.queues[w][i] == t
    case InHeap(w, i) => w < |s.timers| && i < |s.timers[w]| && s.timers[w][i].task == t
    case OnWorker(w) => w < |s.workers| && Owns(s.workers[w], t)
  }

  ghost predicate Scheduled(s: State, t: TaskId) {
    exists p :: Holds(s, p, t)
  }

  /** No task is in two places at once. */
  ghost predicate Exclusive(s: State) {
    forall t, p, q :: Holds(s, p, t) && Holds(s, q, t) ==> p == q
  }

  /** Whatever is held anywhere is a live task with kAlive set. */
  ghost predicate HeldIsAlive(s: State) {
    forall p, t :: Holds(s, p, t) ==> t in s.events && K_ALIVE in s.events[t]
  }

  /** Nothing is stranded: kAlive set means the task is somewhere. */
  ghost predicate AliveIsHeld(s: State) {
    |s.workers| > 0 ==> forall t :: t in s.events && K_ALIVE in s.events[t] ==> Scheduled(s, t)
  }

  predicate ExpectsAlive(s: State) {
    && K_ALIVE in s.expected
    && (forall w | 0 <= w < |s.workers| :: s.workers[w].Comparing? ==> K_ALIVE in s.workers[w].expected)
    && (forall w | 0 <= w < |s.workers| :: s.workers[w].Reloading? ==> K_ALIVE in s.workers[w].seen)
  }

  ghost predicate MarkingIsTimed(s: State)
    requires Shaped(s)
  {
    forall w | 0 <= w < |s.workers| && s.workers[w].MarkingIdle? ::
      exists i: nat :: Holds(s, InHeap(w, i), s.workers[w].task)
  }

  /** A forced thread is the thread whose queue, heap or worker holds the task. */
  ghost predicate Affine(s: State) {
    forall p, t :: Holds(s, p, t) && !p.InHand? && t in s.useThread ==> p.thread == s.useThread[t]
  }

  ghost predicate Inv(s: State) {
    Shaped(s) && Exclusive(s) && HeldIsAlive(s) && AliveIsHeld(s) && ExpectsAlive(s) && MarkingIsTimed(s) && Affine(s)
  }

  /** Where the content of slot p was before the step. */
  function Before(s: State, a: Action, p: Slot): (q: Slot)
    requires Shaped(s) && Enabled(s, a)
  {
    match a
    case SignalEnqueue(h, w) => if p == InQueue(w, |s.queues[w]|) then InHand(h) else p
    case Dequeue(w) =>
      if p == OnWorker(w) then InQueue(w, 0)
      else if p.InQueue? && p.thread == w then InQueue(w, p.i + 1) else p
    case TimerFire(w, i) =>
      if p == OnWorker(w) then InHeap(w, i)
      else if p.InHeap? && p.thread == w && p.i >= i then InHeap(w, p.i + 1) else p
    case RunReturns(w, timeout) =>
      if timeout > 0 && p == InHeap(w, |s.timers[w]|) then OnWorker(w) else p
    case _ => p
  }

  /** Where the content of slot p goes with the step. */
  function After(s: State, a: Action, p: Slot): (q: Slot)
    requires Shaped(s) && Enabled(s, a)
  {
    match a
    case SignalEnqueue(h, w) => if p == InHand(h) then InQueue(w, |s.queues[w]|) else p
    case Dequeue(w) =>
      if p == InQueue(w, 0) then OnWorker(w)
      else if p.InQueue? && p.thread == w then InQueue(w, p.i - 1) else p
    case TimerFire(w, i) =>
      if p == InHeap(w, i) then OnWorker(w)
      else if p.InHeap? && p.thread == w && p.i > i then InHeap(w, p.i - 1) else p
    case RunReturns(w, timeout) =>
      if timeout > 0 && p == OnWorker(w) then InHeap(w, |s.timers[w]|) else p
    case _ => p
  }

  /** The step takes kAlive from clear to set and puts the task in hand h. */
  predicate Schedules(s: State, a: Action, t: TaskId)
    requires Shaped(s)
  {
    a.SignalOr? && Enabled(s, a) && a.task == t && K_ALIVE !in s.events[t] && |s.workers| > 0
  }

  predicate Deletes(s: State, a: Action, t: TaskId)
    requires Shaped(s)
  {
    a.RunReturns? && Enabled(s, a) && a.timeout < 0 && s.workers[a.thread].task == t
  }

  predicate Releases(s: State, a: Action, t: TaskId)
    requires Shaped(s)
  {
    Succeeds(s, a) && s.workers[a.thread].task == t
  }

  /** Only the worker that takes the step changes its position. */
  lemma OthersStay(mode: Expectation, s: State, a: Action, w: ThreadId)
    requires Shaped(s) && Enabled(s, a) && w < |s.workers| && (Quiet(a) || a.thread != w)
    ensures Apply(mode, s, a).workers[w] == s.workers[w]
  {
  }

  /** Where a worker's expected values come from. */
  lemma ExpectedFrom(mode: Expectation, s: State, a: Action, w: ThreadId)
    requires Shaped(s) && Enabled(s, a) && !Quiet(a) && a.thread == w
    ensures var v := Apply(mode, s, a).workers[w];
            && (v.Comparing? ==> v == s.workers[w] || v.expected == s.expected)
            && (v.Reloading? ==> v == s.workers[w]
                                 || (a.Exchange? && v.seen == s.events[s.workers[w].task]))
  {
  }

  lemma SharedFrom(mode: Expectation, s: State, a: Action)
    requires Shaped(s) && Enabled(s, a)
    ensures var e := Apply(mode, s, a).expected;
            e == s.expected || (a.StoreExpected? && mode.SharedStatic? && e == s.workers[a.thread].seen)
  {
  }

  lemma HandBefore(mode: Expectation, s: State, a: Action, h: nat, t: TaskId)
    requires Shaped(s) && Enabled(s, a) && Holds(Apply(mode, s, a), InHand(h), t)
    ensures Holds(s, Before(s, a, InHand(h)), t) || (Schedules(s, a, t) && h == a.hand)
  {
  }

  lemma QueueBefore(mode: Expectation, s: State, a: Action, w: ThreadId, i: nat, t: TaskId)
    requires Shaped(s) && Enabled(s, a) && Holds(Apply(mode, s, a), InQueue(w, i), t)
    ensures Holds(s, Before(s, a, InQueue(w, i)), t)
  {
  }

  lemma HeapBefore(mode: Expectation, s: State, a: Action, w: ThreadId, i: nat, t: TaskId)
    requires Shaped(s) && Enabled(s, a) && Holds(Apply(mode, s, a), InHeap(w, i), t)
    ensures Holds(s, Before(s, a, InHeap(w, i)), t)
  {
  }

  lemma TakenBefore(mode: Expectation, s: State, a: Action, w: ThreadId, t: TaskId)
    requires Shaped(s) && Enabled(s, a) && (a.Dequeue? || a.TimerFire?) && a.thread == w
    requires Owns(Apply(mode, s, a).workers[w], t)
    ensures Holds(s, Before(s, a, OnWorker(w)), t)
  {
  }

  lemma OwnedBefore(mode: Expectation, s: State, a: Action, w: ThreadId, t: TaskId)
    requires Shaped(s) && Enabled(s, a) && !Quiet(a) && !a.Dequeue? && !a.TimerFire? && a.thread == w
    requires Owns(Apply(mode, s, a).workers[w], t)
    ensures Owns(s.workers[w], t)
  {
  }

  lemma WorkerBefore(mode: Expectation, s: State, a: Action, w: ThreadId, t: TaskId)
    requires Shaped(s) && Enabled(s, a) && Holds(Apply(mode, s, a), OnWorker(w), t)
    ensures Holds(s, Before(s, a, OnWorker(w)), t)
  {
    if Quiet(a) || a.thread != w {
      OthersStay(mode, s, a, w);
    } else if a.Dequeue? || a.TimerFire? {
      TakenBefore(mode, s, a, w, t);
    } else {
      OwnedBefore(mode, s, a, w, t);
    }
  }

  lemma HeldBefore(mode: Expectation, s: State, a: Action, p: Slot, t: TaskId)
    requires Shaped(s) && Enabled(s, a) && Holds(Apply(mode, s, a), p, t)
    ensures Holds(s, Before(s, a, p), t) || (Schedules(s, a, t) && p == InHand(a.hand))
  {
    match p
    case InHand(h) => HandBefore(mode, s, a, h, t);
    case InQueue(w, i) => QueueBefore(mode, s, a, w, i, t);
    case InHeap(w, i) => HeapBefore(mode, s, a, w, i, t);
    case OnWorker(w) => WorkerBefore(mode, s, a, w, t);
  }

  lemma DroppedIsGone(mode: Expectation, s: State, a: Action, p: Slot, t: TaskId)
    requires Shaped(s) && Enabled(s, a) && Holds(Apply(mode, s, a), p, t)
    requires Deletes(s, a, t) || Releases(s, a, t)
    ensures Before(s, a, p) == p && p != OnWorker(a.thread)
  {
  }

  lemma BeforeInjective(mode: Expectation, s: State, a: Action, p: Slot, q: Slot, t: TaskId)
    requires Shaped(s) && Enabled(s, a)
    requires Holds(Apply(mode, s, a), p, t) && Holds(Apply(mode, s, a), q, t)
    requires Before(s, a, p) == Before(s, a, q)
    ensures p == q
  {
  }

  lemma HandAfter(mode: Expectation, s: State, a: Action, h: nat, t: TaskId)
    requires Shaped(s) && Enabled(s, a) && Holds(s, InHand(h), t)
    ensures Holds(Apply(mode, s, a), After(s, a, InHand(h)), t)
  {
  }

  lemma QueueAfter(mode: Expectation, s: State, a: Action, w: ThreadId, i: nat, t: TaskId)
    requires Shaped(s) && Enabled(s, a) && Holds(s, InQueue(w, i), t)
    ensures Holds(Apply(mode, s, a), After(s, a, InQueue(w, i)), t)
  {
  }

  lemma HeapAfter(mode: Expectation, s: State, a: Action, w: ThreadId, i: nat, t: TaskId)
    requires Shaped(s) && Enabled(s, a) && Holds(s, InHeap(w, i), t)
    ensures Holds(Apply(mode, s, a), After(s, a, InHeap(w, i)), t)
  {
  }

  lemma ReturnAfter(mode: Expectation, s: State, w: ThreadId, timeout: int, t: TaskId)
    requires Shaped(s) && Enabled(s, RunReturns(w, timeout)) && Owns(s.workers[w], t) && timeout >= 0
    ensures var a := RunReturns(w, timeout); Holds(Apply(mode, s, a), After(s, a, OnWorker(w)), t)
  {
    if timeout > 0 {
      assert Apply(mode, s, RunReturns(w, timeout)).timers[w][|s.timers[w]|].task == t;
    }
  }

  lemma OwnedAfter(mode: Expectation, s: State, a: Action, w: ThreadId, t: TaskId)
    requires Shaped(s) && Enabled(s, a) && !Quiet(a) && !a.RunReturns? && a.thread == w && Owns(s.workers[w], t)
    requires !Releases(s, a, t)
    ensures Owns(Apply(mode, s, a).workers[w], t)
  {
  }

  lemma WorkerAfter(mode: Expectation, s: State, a: Action, w: ThreadId, t: TaskId)
    requires Shaped(s) && Enabled(s, a) && Holds(s, OnWorker(w), t)
    requires !((Deletes(s, a, t) || Releases(s, a, t)) && a.thread == w)
    ensures Holds(Apply(mode, s, a), After(s, a, OnWorker(w)), t)
  {
    if Quiet(a) || a.thread != w {
      OthersStay(mode, s, a, w);
    } else if a.RunReturns? {
      ReturnAfter(mode, s, w, a.timeout, t);
    } else {
      OwnedAfter(mode, s, a, w, t);
    }
  }

  lemma HeldAfter(mode: Expectation, s: State, a: Action, p: Slot, t: TaskId)
    requires Shaped(s) && Enabled(s, a) && Holds(s, p, t)
    requires !((Deletes(s, a, t) || Releases(s, a, t)) && p == OnWorker(a.thread))
    ensures Holds(Apply(mode, s, a), After(s, a, p), t)
  {
    match p
    case InHand(h) => HandAfter(mode, s, a, h, t);
    case InQueue(w, i) => QueueAfter(mode, s, a, w, i, t);
    case InHeap(w, i) => HeapAfter(mode, s, a, w, i, t);
    case OnWorker(w) => WorkerAfter(mode, s, a, w, t);
  }

  lemma AliveKept(mode: Expectation, s: State, a: Action, t: TaskId)
    requires Shaped(s) && Enabled(s, a) && t in s.events && K_ALIVE in s.events[t]
    ensures var r := Apply(mode, s, a);
            (t in r.events && K_ALIVE in r.events[t]) <==> !(Deletes(s, a, t) || (Releases(s, a, t)))
  {
  }

  lemma ExclusiveKept(mode: Expectation, s: State, a: Action)
    requires Inv(s) && Enabled(s, a)
    ensures Exclusive(Apply(mode, s, a))
  {
    var r := Apply(mode, s, a);
    forall t, p, q | Holds(r, p, t) && Holds(r, q, t)
      ensures p == q
    {
      HeldBefore(mode, s, a, p, t);
      HeldBefore(mode, s, a, q, t);
      if Holds(s, Before(s, a, p), t) && Holds(s, Before(s, a, q), t) {
        BeforeInjective(mode, s, a, p, q, t);
      }
    }
  }

  lemma HeldIsAliveKept(mode: Expectation, s: State, a: Action)
    requires Inv(s) && Enabled(s, a)
    ensures HeldIsAlive(Apply(mode, s, a))
  {
    var r := Apply(mode, s, a);
    forall p, t | Holds(r, p, t)
      ensures t in r.events && K_ALIVE in r.events[t]
    {
      HeldBefore(mode, s, a, p, t);
      if Holds(s, Before(s, a, p), t) {
        if Deletes(s, a, t) || Releases(s, a, t) {
          DroppedIsGone(mode, s, a, p, t);
          assert Holds(s, OnWorker(a.thread), t);
          assert false;
        }
        AliveKept(mode, s, a, t);
      }
    }
  }

  lemma AliveIsHeldKept(mode: Expectation, s: State, a: Action)
    requires Inv(s) && Enabled(s, a)
    ensures AliveIsHeld(Apply(mode, s, a))
  {
    var r := Apply(mode, s, a);
    if |r.workers| > 0 {
      forall t | t in r.events && K_ALIVE in r.events[t]
        ensures Scheduled(r, t)
      {
        if t in s.events && K_ALIVE in s.events[t] {
          AliveKept(mode, s, a, t);
          var p :| Holds(s, p, t);
          HeldAfter(mode, s, a, p, t);
        } else {
          assert Schedules(s, a, t);
          assert Holds(r, InHand(a.hand), t);
        }
      }
    }
  }

  lemma MarkingIsTimedKept(mode: Expectation, s: State, a: Action)
    requires Inv(s) && Enabled(s, a)
    ensures MarkingIsTimed(Apply(mode, s, a))
  {
    var r := Apply(mode, s, a);
    forall w | 0 <= w < |r.workers| && r.workers[w].MarkingIdle?
      ensures exists i: nat :: Holds(r, InHeap(w, i), r.workers[w].task)
    {
      var t := r.workers[w].task;
      if s.workers[w] == r.workers[w] {
        var i: nat :| Holds(s, InHeap(w, i), t);
        HeldAfter(mode, s, a, InHeap(w, i), t);
        assert a.TimerFire? ==> a.thread != w;
        assert After(s, a, InHeap(w, i)) == InHeap(w, i);
      } else {
        assert Holds(r, InHeap(w, |s.timers[w]|), t);
      }
    }
  }

  /** A task held elsewhere is in no hand. */
  lemma NotInHand(s: State, p: Slot, h: nat, t: TaskId)
    requires Inv(s) && Holds(s, p, t) && !p.InHand? && h in s.hands
    ensures s.hands[h].task != t
  {
    assert s.hands[h].task == t ==> Holds(s, InHand(h), t);
  }

  lemma AffineKept(mode: Expectation, s: State, a: Action)
    requires Inv(s) && Enabled(s, a)
    ensures Affine(Apply(mode, s, a))
  {
    var r := Apply(mode, s, a);
    forall p, t | Holds(r, p, t) && !p.InHand? && t in r.useThread
      ensures p.thread == r.useThread[t]
    {
      HeldBefore(mode, s, a, p, t);
      AimComes(mode, s, a, t);
      if a.ForceSameThread? && s.workers[a.thread].task == t {
        assert Holds(s, OnWorker(a.thread), t);
      } else if a.SignalAim? {
        NotInHand(s, p, a.hand, t);
      }
    }
  }

  predicate StartsRun(s: State, a: Action, t: TaskId)
    requires Shaped(s)
  {
    a.BeginRun? && Enabled(s, a) && s.workers[a.thread].task == t
  }

  /** The step makes w the thread asked for by task t: ForceSameThread does, and a
      Signal that finds none asked for but a default. */
  predicate Aims(s: State, a: Action, t: TaskId, w: ThreadId)
    requires Shaped(s)
  {
    || (a == ForceSameThread(w) && Enabled(s, a) && s.workers[w].task == t)
    || (a.SignalAim? && Enabled(s, a) && s.hands[a.hand].task == t
        && t !in s.useThread && t in s.defaultThread && s.defaultThread[t] == w)
  }

  /** The step makes task t ask for no thread: a Run starts without one. */
  predicate Unaims(s: State, a: Action, t: TaskId)
    requires Shaped(s)
  {
    StartsRun(s, a, t) || a == NewTask(t)
  }

  lemma UnaimsClears(mode: Expectation, s: State, a: Action, t: TaskId)
    requires Shaped(s) && Enabled(s, a) && Unaims(s, a, t)
    ensures t !in Apply(mode, s, a).useThread
  {
  }

  /** Where fUseThisThread of a task comes from. */
  lemma AimComes(mode: Expectation, s: State, a: Action, t: TaskId)
    requires Shaped(s) && Enabled(s, a) && t in Apply(mode, s, a).useThread
    ensures var w := Apply(mode, s, a).useThread[t]; Aims(s, a, t, w) || (t in s.useThread && s.useThread[t] == w)
  {
  }

  /** Every step keeps the scheduling invariant, whatever the release step
      compares with. */
  lemma InvKept(mode: Expectation, s: State, a: Action)
    requires Inv(s) && Enabled(s, a)
    ensures Inv(Apply(mode, s, a))
  {
    ExclusiveKept(mode, s, a);
    HeldIsAliveKept(mode, s, a);
    AliveIsHeldKept(mode, s, a);
    MarkingIsTimedKept(mode, s, a);
    AffineKept(mode, s, a);
    ExpectsAliveKept(mode, s, a);
  }

  lemma ExpectsAliveKept(mode: Expectation, s: State, a: Action)
    requires Inv(s) && Enabled(s, a)
    ensures ExpectsAlive(Apply(mode, s, a))
  {
    SharedFrom(mode, s, a);
    if a.Exchange? {
      assert Holds(s, OnWorker(a.thread), s.workers[a.thread].task);
    }
    var r := Apply(mode, s, a);
    forall w | 0 <= w < |r.workers|
      ensures r.workers[w].Comparing? ==> K_ALIVE in r.workers[w].expected
      ensures r.workers[w].Reloading? ==> K_ALIVE in r.workers[w].seen
    {
      if Quiet(a) || a.thread != w {
        OthersStay(mode, s, a, w);
      } else {
        ExpectedFrom(mode, s, a, w);
      }
    }
  }

  // ------------------------------------------------------------------ runs

  /** A run from the initial state: states[i] goes to states[i + 1] by acts[i]. */
  datatype Run = Run(mode: Expectation, states: seq<State>, acts: seq<Action>)

  predicate StepAt(r: Run, i: nat)
    requires |r.states| == |r.acts| + 1 && i < |r.acts|
  {
    && Shaped(r.states[i]) && Enabled(r.states[i], r.acts[i])
    && r.states[i + 1] == Apply(r.mode, r.states[i], r.acts[i])
  }

  ghost predicate IsRun(r: Run) {
    && |r.states| == |r.acts| + 1 && Init(r.states[0])
    && forall i | 0 <= i < |r.acts| :: StepAt(r, i)
  }

  lemma {:induction false} InvAlways(r: Run, i: nat)
    requires IsRun(r) && i < |r.states|
    ensures Inv(r.states[i])
  {
    if i > 0 {
      InvAlways(r, i - 1);
      assert StepAt(r, i - 1);
      InvKept(r.mode, r.states[i - 1], r.acts[i - 1]);
    }
  }

  /** In every interleaving and with either release step: a task is in at most
      one place and has kAlive set there; Run is never re-entered; an enqueued
      element is in no queue and an inserted timer is in no heap; no worker
      ever touches a deleted task. */
  lemma OnePlaceOnly(r: Run, i: nat)
    requires IsRun(r) && i < |r.states|
    ensures var s := r.states[i];
            && Exclusive(s) && HeldIsAlive(s)
            && (forall v, w | 0 <= v < |s.workers| && 0 <= w < |s.workers| && s.workers[v].Running?
                              && s.workers[v] == s.workers[w] :: v == w)
            && (forall w | 0 <= w < |s.workers| && !s.workers[w].Waiting? && !s.workers[w].Stopped? ::
                  s.workers[w].task in s.events)
    ensures i < |r.acts| && StepAt(r, i) && r.acts[i].SignalEnqueue? ==>
              forall w, k | 0 <= w < |r.states[i].queues| && 0 <= k < |r.states[i].queues[w]| ::
                r.states[i].queues[w][k] != r.states[i].hands[r.acts[i].hand].task
    ensures i < |r.acts| && StepAt(r, i) && r.acts[i].RunReturns? ==>
              forall w, k | 0 <= w < |r.states[i].timers| && 0 <= k < |r.states[i].timers[w]| ::
                r.states[i].timers[w][k].task != r.states[i].workers[r.acts[i].thread].task
  {
    InvAlways(r, i);
    var s := r.states[i];
    assert i < |r.acts| ==> StepAt(r, i);
    forall v, w | 0 <= v < |s.workers| && 0 <= w < |s.workers| && s.workers[v].Running? && s.workers[v] == s.workers[w]
      ensures v == w
    {
      assert Holds(s, OnWorker(v), s.workers[v].task) && Holds(s, OnWorker(w), s.workers[v].task);
    }
    forall w | 0 <= w < |s.workers| && !s.workers[w].Waiting? && !s.workers[w].Stopped?
      ensures s.workers[w].task in s.events
    {
      assert !s.workers[w].MarkingIdle? ==> Holds(s, OnWorker(w), s.workers[w].task);
    }
    if i < |r.acts| && r.acts[i].SignalEnqueue? {
      var t := s.hands[r.acts[i].hand].task;
      assert Holds(s, InHand(r.acts[i].hand), t);
      forall w, k | 0 <= w < |s.queues| && 0 <= k < |s.queues[w]|
        ensures s.queues[w][k] != t
      {
        assert !Holds(s, InQueue(w, k), t);
      }
    }
    if i < |r.acts| && r.acts[i].RunReturns? {
      var t := s.workers[r.acts[i].thread].task;
      assert Holds(s, OnWorker(r.acts[i].thread), t);
      forall w, k | 0 <= w < |s.timers| && 0 <= k < |s.timers[w]|
        ensures s.timers[w][k].task != t
      {
        assert !Holds(s, InHeap(w, k), t);
      }
    }
  }

  // ------------------------------------------------------- no lost event

  /** The event bits that step a adds to task t. */
  function Posted(s: State, a: Action, t: TaskId): (bits: Mask)
    requires Shaped(s) && Enabled(s, a)
  {
    if a.SignalOr? && a.task == t then a.bits - ALIVE_ONLY
    else if a.MarkIdle? && s.workers[a.thread].task == t then {K_IDLE}
    else {}
  }

  /** Step a is a GetEvents of task t, and its result contains b. */
  predicate Returned(s: State, a: Action, t: TaskId, b: nat)
    requires Shaped(s)
  {
    a.GetEvents? && Enabled(s, a) && s.workers[a.thread].task == t && b in s.events[t]
  }

  /** What GetEvents returns always has kAlive in it, and leaves just that set. */
  lemma AliveIsReported(r: Run, i: nat)
    requires IsRun(r) && i < |r.acts| && StepAt(r, i) && r.acts[i].GetEvents?
    ensures var t := r.states[i].workers[r.acts[i].thread].task;
            Returned(r.states[i], r.acts[i], t, K_ALIVE) && r.states[i + 1].events[t] == ALIVE_ONLY
  {
    InvAlways(r, i);
    assert Holds(r.states[i], OnWorker(r.acts[i].thread), r.states[i].workers[r.acts[i].thread].task);
  }

  ghost predicate Pending(s: State, t: TaskId, b: nat) {
    t in s.events && b in s.events[t] && Scheduled(s, t)
  }

  ghost predicate Settled(r: Run, i: nat, j: nat, t: TaskId, b: nat)
    requires IsRun(r) && j < |r.states|
  {
    exists k ::
      i < k < j && StepAt(r, k) && (Returned(r.states[k], r.acts[k], t, b) || Deletes(r.states[k], r.acts[k], t))
  }

  /** Every bit posted at step i is, in every later state, still pending on a
      scheduled task, already returned by GetEvents, or gone with the task. */
  ghost predicate NothingLost(r: Run)
    requires IsRun(r)
  {
    forall i, j, t, b | 0 <= i < j < |r.states| && StepAt(r, i) && b in Posted(r.states[i], r.acts[i], t) ::
      Pending(r.states[j], t, b) || Settled(r, i, j, t, b)
  }

  /** Every exchange that went through had compared with exactly kAlive. */
  ghost predicate ReleasesExact(r: Run)
    requires IsRun(r)
  {
    forall k | 0 <= k < |r.acts| && StepAt(r, k) && Succeeds(r.states[k], r.acts[k]) ::
      r.states[k].workers[r.acts[k].thread].expected == ALIVE_ONLY
  }

  /** A bit survives every step but the three that clear it. */
  lemma BitKept(mode: Expectation, s: State, a: Action, t: TaskId, b: nat)
    requires Shaped(s) && Enabled(s, a) && t in s.events && b in s.events[t] && b != K_ALIVE
    ensures Returned(s, a, t, b) || Deletes(s, a, t) || Releases(s, a, t)
            || (t in Apply(mode, s, a).events && b in Apply(mode, s, a).events[t])
  {
  }

  lemma {:induction false} PostedStays(r: Run, i: nat, j: nat, t: TaskId, b: nat)
    requires IsRun(r) && ReleasesExact(r) && i < j < |r.states| && |r.states[0].workers| > 0
    requires StepAt(r, i) && b in Posted(r.states[i], r.acts[i], t)
    ensures || (t in r.states[j].events && b in r.states[j].events[t] && K_ALIVE in r.states[j].events[t])
            || Settled(r, i, j, t, b)
  {
    if j == i + 1 {
      InvAlways(r, i);
      if r.acts[i].MarkIdle? {
        var w := r.acts[i].thread;
        var k: nat :| Holds(r.states[i], InHeap(w, k), t);
      }
    } else {
      PostedStays(r, i, j - 1, t, b);
      assert StepAt(r, j - 1);
      var s, a := r.states[j - 1], r.acts[j - 1];
      if Settled(r, i, j - 1, t, b) {
        var k :| i < k < j - 1 && StepAt(r, k)
                 && (Returned(r.states[k], r.acts[k], t, b) || Deletes(r.states[k], r.acts[k], t));
        assert i < k < j;
      } else if Returned(s, a, t, b) || Deletes(s, a, t) {
        assert i < j - 1 < j;
      } else {
        assert !Releases(s, a, t);
        BitKept(r.mode, s, a, t, b);
        AliveKept(r.mode, s, a, t);
      }
    }
  }

  lemma {:induction false} WorkersFixed(r: Run, i: nat)
    requires IsRun(r) && i < |r.states|
    ensures |r.states[i].workers| == |r.states[0].workers|
  {
    if i > 0 {
      WorkersFixed(r, i - 1);
      assert StepAt(r, i - 1);
    }
  }

  /** A bit that is set was posted, and not fetched or discarded since. */
  lemma {:induction false} BitHasSource(r: Run, j: nat, t: TaskId, b: nat) returns (i: nat)
    requires IsRun(r) && j < |r.states| && t in r.states[j].events && b in r.states[j].events[t] && b != K_ALIVE
    ensures i < j && StepAt(r, i) && b in Posted(r.states[i], r.acts[i], t) && !Settled(r, i, j, t, b)
  {
    assert j > 0;
    assert StepAt(r, j - 1);
    var s, a := r.states[j - 1], r.acts[j - 1];
    if b in Posted(s, a, t) {
      i := j - 1;
    } else {
      i := BitHasSource(r, j - 1, t, b);
      forall k | i < k < j && StepAt(r, k)
        ensures !Returned(r.states[k], r.acts[k], t, b) && !Deletes(r.states[k], r.acts[k], t)
      {
        assert k < j - 1 || k == j - 1;
      }
    }
  }

  lemma ReleaseClears(mode: Expectation, s: State, a: Action)
    requires Shaped(s) && Succeeds(s, a)
    ensures forall b :: !Pending(Apply(mode, s, a), s.workers[a.thread].task, b)
  {
  }

  /** A release that compared with more than kAlive drops the surplus bits. */
  lemma StaleReleaseLoses(r: Run, k: nat, b: nat)
    requires IsRun(r) && k < |r.acts| && StepAt(r, k) && Succeeds(r.states[k], r.acts[k])
    requires b in r.states[k].workers[r.acts[k].thread].expected && b != K_ALIVE
    ensures !NothingLost(r)
  {
    var t := r.states[k].workers[r.acts[k].thread].task;
    var i := BitHasSource(r, k, t, b);
    ReleaseClears(r.mode, r.states[k], r.acts[k]);
    NotSettledYet(r, i, k, t, b);
    LostBit(r, i, k + 1, t, b);
  }

  lemma NotSettledYet(r: Run, i: nat, k: nat, t: TaskId, b: nat)
    requires IsRun(r) && i < k < |r.acts| && !Settled(r, i, k, t, b) && StepAt(r, k)
    requires !Returned(r.states[k], r.acts[k], t, b) && !Deletes(r.states[k], r.acts[k], t)
    ensures !Settled(r, i, k + 1, t, b)
  {
    forall m | i < m < k + 1 && StepAt(r, m)
      ensures !Returned(r.states[m], r.acts[m], t, b) && !Deletes(r.states[m], r.acts[m], t)
    {
      assert m < k || m == k;
    }
  }

  lemma LostBit(r: Run, i: nat, j: nat, t: TaskId, b: nat)
    requires IsRun(r) && i < j < |r.states| && StepAt(r, i) && b in Posted(r.states[i], r.acts[i], t)
    requires !Pending(r.states[j], t, b) && !Settled(r, i, j, t, b)
    ensures !NothingLost(r)
  {
  }

  /** The no-lost-event guarantee, exactly: with a non-empty pool, a run loses
      no event if and only if every successful release compared with exactly
      kAlive. */
  lemma NothingLostExactly(r: Run)
    requires IsRun(r) && |r.states[0].workers| > 0
    ensures NothingLost(r) <==> ReleasesExact(r)
  {
    if ReleasesExact(r) {
      forall i, j, t, b | 0 <= i < j < |r.states| && StepAt(r, i) && b in Posted(r.states[i], r.acts[i], t)
        ensures Pending(r.states[j], t, b) || Settled(r, i, j, t, b)
      {
        PostedStays(r, i, j, t, b);
        InvAlways(r, j);
        WorkersFixed(r, j);
      }
    } else {
      var k :| 0 <= k < |r.acts| && StepAt(r, k) && Succeeds(r.states[k], r.acts[k])
               && r.states[k].workers[r.acts[k].thread].expected != ALIVE_ONLY;
      InvAlways(r, k);
      var e := r.states[k].workers[r.acts[k].thread].expected;
      assert e != ALIVE_ONLY && ALIVE_ONLY <= e;
      var b :| b in e && b !in ALIVE_ONLY;
      StaleReleaseLoses(r, k, b);
    }
  }

  predicate ComparesExact(s: State) {
    && s.expected == ALIVE_ONLY
    && forall w | 0 <= w < |s.workers| && s.workers[w].Comparing? :: s.workers[w].expected == ALIVE_ONLY
  }

  lemma ComparesExactKept(s: State, a: Action)
    requires Shaped(s) && Enabled(s, a) && ComparesExact(s)
    ensures ComparesExact(Apply(FreshCopy, s, a))
  {
    SharedFrom(FreshCopy, s, a);
    var r := Apply(FreshCopy, s, a);
    forall w | 0 <= w < |r.workers| && r.workers[w].Comparing?
      ensures r.workers[w].expected == ALIVE_ONLY
    {
      if Quiet(a) || a.thread != w {
        OthersStay(FreshCopy, s, a, w);
      } else {
        ExpectedFrom(FreshCopy, s, a, w);
      }
    }
  }

  lemma {:induction false} FreshIsExact(r: Run, i: nat)
    requires IsRun(r) && r.mode.FreshCopy? && i < |r.states|
    ensures ComparesExact(r.states[i])
  {
    if i > 0 {
      FreshIsExact(r, i - 1);
      assert StepAt(r, i - 1);
      ComparesExactKept(r.states[i - 1], r.acts[i - 1]);
    }
  }

  /** With a fresh copy of kAlive at each exchange no run loses an event. */
  lemma FreshCopyLosesNothing(r: Run)
    requires IsRun(r) && r.mode.FreshCopy? && |r.states[0].workers| > 0
    ensures NothingLost(r)
  {
    forall k | 0 <= k < |r.acts| && StepAt(r, k) && Succeeds(r.states[k], r.acts[k])
      ensures r.states[k].workers[r.acts[k].thread].expected == ALIVE_ONLY
    {
      FreshIsExact(r, k);
    }
    NothingLostExactly(r);
  }

  lemma {:induction false} EmptyPoolHoldsNothing(r: Run, i: nat)
    requires IsRun(r) && i < |r.states| && |r.states[0].workers| == 0
    ensures Shaped(r.states[i]) && |r.states[i].workers| == 0 && r.states[i].hands == map[]
  {
    if i > 0 {
      EmptyPoolHoldsNothing(r, i - 1);
      assert StepAt(r, i - 1);
    }
  }

  /** With no worker threads Signal sets kAlive and enqueues nothing, so a run
      loses no event only if it posts none. */
  lemma EmptyPoolStrands(r: Run)
    requires IsRun(r) && |r.states[0].workers| == 0
    ensures NothingLost(r) <==>
            forall i, t | 0 <= i < |r.acts| && StepAt(r, i) :: Posted(r.states[i], r.acts[i], t) == {}
  {
    forall i, t, b | 0 <= i < |r.acts| && StepAt(r, i) && b in Posted(r.states[i], r.acts[i], t)
      ensures !NothingLost(r)
    {
      EmptyPoolHoldsNothing(r, i + 1);
      assert !Pending(r.states[i + 1], t, b) && !Settled(r, i, i + 1, t, b);
    }
  }

  // -------------------------------------------- the run that loses an event

  /** A one-thread pool with one task, number 0. */
  function Small(events: Mask, hands: map<nat, Hand>, queue: seq<TaskId>, worker: Worker, expected: Mask): (s: State) {
    State(map[0 := events], map[], map[], hands, [queue], [[]], [worker], expected, 0)
  }

  ghost function Last(r: Run): (s: State)
    requires IsRun(r)
  {
    r.states[|r.acts|]
  }

  /** A run followed by one more step. */
  lemma Extend(r: Run, a: Action, s: State) returns (x: Run)
    requires IsRun(r) && Shaped(Last(r)) && Enabled(Last(r), a) && Apply(r.mode, Last(r), a) == s
    ensures x == Run(r.mode, r.states + [s], r.acts + [a]) && IsRun(x) && Last(x) == s
  {
    x := Run(r.mode, r.states + [s], r.acts + [a]);
    forall i | 0 <= i < |x.acts|
      ensures StepAt(x, i)
    {
      assert i < |r.acts| ==> StepAt(r, i);
    }
  }

  /** Task 0 is signalled with event 4 and about to be enqueued. */
  lemma ReachSignal() returns (r: Run)
    ensures IsRun(r) && r.mode.SharedStatic? && |r.states[0].workers| == 1
    ensures Last(r) == Small({4, 31}, map[0 := Hand(0, true)], [], Waiting, ALIVE_ONLY)
  {
    var s0 := State(map[], map[], map[], map[], [[]], [[]], [Waiting], ALIVE_ONLY, 0);
    r := Run(SharedStatic, [s0], []);
    r := Extend(r, NewTask(0), Small({}, map[], [], Waiting, ALIVE_ONLY));
    assert {} + ({4} + ALIVE_ONLY) == {4, 31};
    r := Extend(r, SignalOr(0, 0, {4}), Small({4, 31}, map[0 := Hand(0, false)], [], Waiting, ALIVE_ONLY));
    r := Extend(r, SignalAim(0), Small({4, 31}, map[0 := Hand(0, true)], [], Waiting, ALIVE_ONLY));
  }

  /** It reaches its first Run on thread 0. */
  lemma ReachFirstRun() returns (r: Run)
    ensures IsRun(r) && r.mode.SharedStatic? && |r.states[0].workers| == 1
    ensures Last(r) == Small({4, 31}, map[], [], Running(0), ALIVE_ONLY)
  {
    r := ReachSignal();
    var none: seq<TaskId> := [];
    var one: seq<TaskId> := [0];
    assert map[0 := Hand(0, true)] - {0} == map[] && none + one == one;
    r := Extend(r, SignalEnqueue(0, 0), Small({4, 31}, map[], [0], Waiting, ALIVE_ONLY));
    assert one[1..] == none;
    r := Extend(r, Dequeue(0), Small({4, 31}, map[], [], Picked(0), ALIVE_ONLY));
    r := Extend(r, BeginRun(0), Small({4, 31}, map[], [], Running(0), ALIVE_ONLY));
  }

  /** The task fetches its events, event 4 is signalled again before Run
      returns 0, and the exchange is tried. */
  lemma FetchSignalRelease(r: Run, e: Mask) returns (x: Run)
    requires IsRun(r) && r.mode.SharedStatic? && Last(r) == Small({4, 31}, map[], [], Running(0), e)
    ensures IsRun(x) && x.mode.SharedStatic? && x.states[0] == r.states[0]
    ensures Last(x) == Small({4, 31}, map[], [], Comparing(0, e), e)
  {
    assert {4, 31} * ALIVE_ONLY == {31} && {31} + ({4} + ALIVE_ONLY) == {4, 31};
    x := Extend(r, GetEvents(0), Small({31}, map[], [], Running(0), e));
    x := Extend(x, SignalOr(0, 0, {4}), Small({4, 31}, map[], [], Running(0), e));
    x := Extend(x, RunReturns(0, 0), Small({4, 31}, map[], [], Releasing(0), e));
    x := Extend(x, LoadExpected(0), Small({4, 31}, map[], [], Comparing(0, e), e));
  }

  /** With the shared static the guarantee fails even for a task that fetches
      its events in every Run: the first failed exchange leaves {kAlive, 4} in
      the static, and the next exchange matches it and drops event 4. */
  lemma SharedStaticLosesAnEvent() returns (r: Run)
    ensures IsRun(r) && r.mode.SharedStatic? && |r.states[0].workers| == 1
    ensures !NothingLost(r)
  {
    var stale := {4, 31};
    r := ReachFirstRun();
    r := FetchSignalRelease(r, ALIVE_ONLY);
    r := Extend(r, Exchange(0, false), Small(stale, map[], [], Reloading(0, stale), ALIVE_ONLY));
    r := Extend(r, StoreExpected(0), Small(stale, map[], [], Picked(0), stale));
    r := Extend(r, BeginRun(0), Small(stale, map[], [], Running(0), stale));
    r := FetchSignalRelease(r, stale);
    var k := |r.acts|;
    r := Extend(r, Exchange(0, false), Small({}, map[], [], Waiting, stale));
    assert StepAt(r, k);
    StaleReleaseLoses(r, k, 4);
  }

  // -------------------------------------------------- forced thread, timers

  /** Between steps i and j task t neither starts a Run nor is deleted. */
  ghost predicate Undisturbed(r: Run, i: nat, j: nat, t: TaskId)
    requires IsRun(r) && j < |r.states|
  {
    forall k | i < k < j && StepAt(r, k) :: !StartsRun(r.states[k], r.acts[k], t) && !Deletes(r.states[k], r.acts[k], t)
  }

  lemma ForcedKept(mode: Expectation, s: State, a: Action, t: TaskId, w: ThreadId)
    requires Inv(s) && Enabled(s, a) && t in s.events && t in s.useThread && s.useThread[t] == w
    requires !StartsRun(s, a, t) && !Deletes(s, a, t)
    ensures var r := Apply(mode, s, a); t in r.events && t in r.useThread && r.useThread[t] == w
  {
    if a.ForceSameThread? && s.workers[a.thread].task == t {
      assert Holds(s, OnWorker(a.thread), t);
    }
  }

  lemma {:induction false} AimStays(r: Run, i: nat, j: nat, t: TaskId, w: ThreadId)
    requires IsRun(r) && i < j < |r.states| && StepAt(r, i) && Undisturbed(r, i, j, t)
    requires Aims(r.states[i], r.acts[i], t, w)
    ensures t in r.states[j].events && t in r.states[j].useThread && r.states[j].useThread[t] == w
  {
    if j == i + 1 {
      InvAlways(r, i);
      assert Holds(r.states[i], if r.acts[i].SignalAim? then InHand(r.acts[i].hand) else OnWorker(w), t);
    } else {
      assert Undisturbed(r, i, j - 1, t);
      AimStays(r, i, j - 1, t, w);
      InvAlways(r, j - 1);
      assert StepAt(r, j - 1);
      ForcedKept(r.mode, r.states[j - 1], r.acts[j - 1], t, w);
    }
  }

  /** The next Run of a task is on the thread it asked for, or on its default. */
  lemma AimHonoured(r: Run, i: nat, j: nat, t: TaskId, w: ThreadId)
    requires IsRun(r) && i < j < |r.acts| && StepAt(r, i) && StepAt(r, j) && Undisturbed(r, i, j, t)
    requires Aims(r.states[i], r.acts[i], t, w) && StartsRun(r.states[j], r.acts[j], t)
    ensures r.acts[j].thread == w
  {
    AimStays(r, i, j, t, w);
    InvAlways(r, j);
    assert Holds(r.states[j], OnWorker(r.acts[j].thread), t);
  }

  /** ForceSameThread: the next Run of the task is on the thread that asked. */
  lemma ForcedThreadHonoured(r: Run, i: nat, j: nat, t: TaskId, w: ThreadId)
    requires IsRun(r) && i < j < |r.acts| && StepAt(r, i) && StepAt(r, j) && Undisturbed(r, i, j, t)
    requires r.acts[i] == ForceSameThread(w) && r.states[i].workers[w].task == t
    requires StartsRun(r.states[j], r.acts[j], t)
    ensures r.acts[j].thread == w
  {
    AimHonoured(r, i, j, t, w);
  }

  /** Since step i, task t has neither started a Run nor been made anew. */
  ghost predicate NotUnaimed(r: Run, i: nat, j: nat, t: TaskId)
    requires IsRun(r) && j < |r.states|
  {
    forall k | i <= k < j && StepAt(r, k) :: !Unaims(r.states[k], r.acts[k], t)
  }

  /** A thread asked for was asked for by an earlier step, and no Run of the task has
      started since. */
  lemma {:induction false} AimHasSource(r: Run, j: nat, t: TaskId) returns (i: nat)
    requires IsRun(r) && j < |r.states| && t in r.states[j].useThread
    ensures i < j && StepAt(r, i) && Aims(r.states[i], r.acts[i], t, r.states[j].useThread[t])
    ensures NotUnaimed(r, i, j, t)
  {
    assert j > 0;
    i := j - 1;
    assert StepAt(r, i);
    AimComes(r.mode, r.states[i], r.acts[i], t);
    if Unaims(r.states[i], r.acts[i], t) {
      UnaimsClears(r.mode, r.states[i], r.acts[i], t);
    }
    if !Aims(r.states[i], r.acts[i], t, r.states[j].useThread[t]) {
      i := AimHasSource(r, j - 1, t);
      assert NotUnaimed(r, i, j - 1, t);
    }
  }

  /** So a task that asked for no thread since its last Run began, and had no default,
      can be put in the queue of every thread. */
  lemma FreeGoesAnywhere(r: Run, i: nat, j: nat, t: TaskId, h: nat, w: ThreadId)
    requires IsRun(r) && i < j < |r.states| && StepAt(r, i) && Unaims(r.states[i], r.acts[i], t)
    requires forall k | i < k < j :: r.acts[k].ForceSameThread? ==>
               r.acts[k].thread < |r.states[k].workers|
               && (r.states[k].workers[r.acts[k].thread].Running? ==> r.states[k].workers[r.acts[k].thread].task != t)
    requires forall k | i < k < j :: t !in r.states[k].defaultThread
    requires h in r.states[j].hands && r.states[j].hands[h] == Hand(t, true) && w < |r.states[j].workers|
    ensures Shaped(r.states[j]) && Enabled(r.states[j], SignalEnqueue(h, w))
  {
    InvAlways(r, j);
    if t in r.states[j].useThread {
      var k := AimHasSource(r, j, t);
    }
  }

  /** The step sets the default thread of task t, or makes the task anew. */
  predicate Resets(a: Action, t: TaskId) {
    (a.SetDefault? || a.NewTask?) && a.task == t
  }

  lemma DefaultStep(mode: Expectation, s: State, a: Action, t: TaskId)
    requires Shaped(s) && Enabled(s, a)
    ensures var x := Apply(mode, s, a);
            if Resets(a, t) then (t in x.defaultThread <==> a.SetDefault?)
                                 && (a.SetDefault? ==> x.defaultThread[t] == a.thread)
            else (t in x.defaultThread <==> t in s.defaultThread)
                 && (t in x.defaultThread ==> x.defaultThread[t] == s.defaultThread[t])
  {
  }

  /** The last of the first n steps that set the default thread of task t or made it,
      or n if there is none. */
  function LastReset(acts: seq<Action>, n: nat, t: TaskId): (i: nat)
    requires n <= |acts|
    ensures i <= |acts| && (i < |acts| ==> Resets(acts[i], t))
  {
    if n == 0 then |acts| else if Resets(acts[n - 1], t) then n - 1 else LastReset(acts, n - 1, t)
  }

  /** A task's default thread is the last one set for it since it was made. */
  lemma {:induction false} DefaultIsLast(r: Run, n: nat, t: TaskId)
    requires IsRun(r) && n < |r.states|
    ensures var i, s := LastReset(r.acts, n, t), r.states[n];
            && (t in s.defaultThread <==> i < |r.acts| && r.acts[i].SetDefault?)
            && (t in s.defaultThread ==> s.defaultThread[t] == r.acts[i].thread)
  {
    if n > 0 {
      DefaultIsLast(r, n - 1, t);
      assert StepAt(r, n - 1);
      DefaultStep(r.mode, r.states[n - 1], r.acts[n - 1], t);
    }
  }

  /** Task t sits in a heap with deadline due, or was taken out at or after it. */
  ghost predicate Sleeping(s: State, t: TaskId, due: int) {
    || (exists w: nat, i: nat :: Holds(s, InHeap(w, i), t) && s.timers[w][i].due == due)
    || (s.now >= due && exists w :: 0 <= w < |s.workers| && s.workers[w] == Picked(t))
  }

  lemma PickedKept(mode: Expectation, s: State, a: Action, w: ThreadId, t: TaskId)
    requires Shaped(s) && Enabled(s, a) && w < |s.workers| && s.workers[w] == Picked(t) && !StartsRun(s, a, t)
    ensures Apply(mode, s, a).workers[w] == Picked(t) && Apply(mode, s, a).now >= s.now
  {
    assert Quiet(a) || a.thread != w;
    OthersStay(mode, s, a, w);
  }

  lemma TimerAfter(mode: Expectation, s: State, a: Action, w: ThreadId, i: nat, t: TaskId)
    requires Shaped(s) && Enabled(s, a) && Holds(s, InHeap(w, i), t)
    ensures var r := Apply(mode, s, a);
            var q := After(s, a, InHeap(w, i));
            if q.InHeap? then Holds(r, q, t) && q.thread == w && r.timers[w][q.i].due == s.timers[w][i].due
            else r.workers[w] == Picked(t) && s.timers[w][i].due <= r.now
  {
  }

  lemma SleepingKept(mode: Expectation, s: State, a: Action, t: TaskId, due: int)
    requires Inv(s) && Enabled(s, a) && Sleeping(s, t, due) && !StartsRun(s, a, t)
    ensures Sleeping(Apply(mode, s, a), t, due)
  {
    if w: nat, i: nat :| Holds(s, InHeap(w, i), t) && s.timers[w][i].due == due {
      TimerAfter(mode, s, a, w, i, t);
      assert After(s, a, InHeap(w, i)).InHeap? ==>
        Holds(Apply(mode, s, a), InHeap(w, After(s, a, InHeap(w, i)).i), t);
    } else {
      var w :| 0 <= w < |s.workers| && s.workers[w] == Picked(t);
      PickedKept(mode, s, a, w, t);
    }
  }

  lemma {:induction false} SleepingStays(r: Run, i: nat, j: nat, t: TaskId, due: int)
    requires IsRun(r) && i < j < |r.states| && StepAt(r, i) && Undisturbed(r, i, j, t)
    requires r.acts[i].RunReturns? && r.acts[i].timeout > 0 && r.states[i].workers[r.acts[i].thread].task == t
    requires due == r.states[i].now + Max(r.acts[i].timeout, MIN_WAIT)
    ensures Sleeping(r.states[j], t, due)
  {
    if j == i + 1 {
      var w := r.acts[i].thread;
      assert Holds(r.states[j], InHeap(w, |r.states[i].timers[w]|), t);
    } else {
      assert Undisturbed(r, i, j - 1, t);
      SleepingStays(r, i, j - 1, t, due);
      InvAlways(r, j - 1);
      assert StepAt(r, j - 1);
      SleepingKept(r.mode, r.states[j - 1], r.acts[j - 1], t, due);
    }
  }

  /** A task whose Run returned timeout > 0 does not start its next Run before
      max(timeout, 10) milliseconds have passed, however often it is signalled. */
  lemma TimerNeverEarly(r: Run, i: nat, j: nat, t: TaskId)
    requires IsRun(r) && i < j < |r.acts| && StepAt(r, i) && StepAt(r, j) && Undisturbed(r, i, j, t)
    requires r.acts[i].RunReturns? && r.acts[i].timeout > 0 && r.states[i].workers[r.acts[i].thread].task == t
    requires StartsRun(r.states[j], r.acts[j], t)
    ensures r.states[j].now >= r.states[i].now + r.acts[i].timeout && r.states[j].now >= r.states[i].now + 10
  {
    SleepingStays(r, i, j, t, r.states[i].now + Max(r.acts[i].timeout, MIN_WAIT));
    InvAlways(r, j);
    assert Holds(r.states[j], OnWorker(r.acts[j].thread), t);
  }

  /** Once that time has passed, its thread can take a timer out, and as long as it waits
      this task is among those due. */
  lemma TimerNotLate(r: Run, i: nat, j: nat, t: TaskId, w: ThreadId, k: nat) returns (n: nat)
    requires IsRun(r) && i < j < |r.states| && StepAt(r, i) && Undisturbed(r, i, j, t)
    requires r.acts[i].RunReturns? && r.acts[i].timeout > 0 && r.states[i].workers[r.acts[i].thread].task == t
    requires Holds(r.states[j], InHeap(w, k), t)
    requires r.states[j].now >= r.states[i].now + r.acts[i].timeout && r.states[j].now >= r.states[i].now + 10
    requires w < |r.states[j].workers| && r.states[j].workers[w].Waiting?
    ensures Shaped(r.states[j]) && r.states[j].timers[w][k].due <= r.states[j].now
    ensures Enabled(r.states[j], TimerFire(w, n)) && r.states[j].timers[w][n].due <= r.states[j].timers[w][k].due
  {
    var s, due := r.states[j], r.states[i].now + Max(r.acts[i].timeout, MIN_WAIT);
    InvAlways(r, j);
    SleepingStays(r, i, j, t, due);
    if v :| 0 <= v < |s.workers| && s.workers[v] == Picked(t) {
      assert Holds(s, OnWorker(v), t);
    }
    n := DueCanFire(s, w, k);
  }

  /** Timers leave a heap in order of their deadlines. */
  lemma TimersInOrder(r: Run, i: nat)
    requires IsRun(r) && i < |r.acts| && StepAt(r, i) && r.acts[i].TimerFire?
    ensures var s, x, w := r.states[i], r.states[i + 1], r.acts[i].thread;
            forall k | 0 <= k < |x.timers[w]| :: x.timers[w][k].due >= s.timers[w][r.acts[i].index].due
  {
  }

  /** A waiting thread with a timer that is due can take one out. */
  lemma {:induction false} DueCanFire(s: State, w: ThreadId, k: nat) returns (i: nat)
    requires Shaped(s) && w < |s.workers| && s.workers[w].Waiting?
    requires k < |s.timers[w]| && s.timers[w][k].due <= s.now
    ensures Enabled(s, TimerFire(w, i)) && s.timers[w][i].due <= s.timers[w][k].due
  {
    i := Earliest(s.timers[w], |s.timers[w]|);
  }

  lemma {:induction false} Earliest(q: seq<Timer>, n: nat) returns (i: nat)
    requires 0 < n <= |q|
    ensures i < n && forall j | 0 <= j < n :: q[i].due <= q[j].due
  {
    i := 0;
    if n > 1 {
      i := Earliest(q, n - 1);
      if q[n - 1].due < q[i].due {
        i := n - 1;
      }
    }
  }

  /** The time that the first n steps take. */
  function Elapsed(acts: seq<Action>, n: nat): (e: nat)
    requires n <= |acts|
  {
    if n == 0 then 0 else Elapsed(acts, n - 1) + if acts[n - 1].Tick? then acts[n - 1].elapsed else 0
  }

  lemma NowAfter(mode: Expectation, s: State, a: Action)
    requires Shaped(s) && Enabled(s, a)
    ensures Apply(mode, s, a).now == s.now + if a.Tick? then a.elapsed else 0
  {
  }

  lemma {:induction false} NowIsElapsed(r: Run, n: nat)
    requires IsRun(r) && n < |r.states|
    ensures r.states[n].now == r.states[0].now + Elapsed(r.acts, n)
  {
    if n > 0 {
      NowIsElapsed(r, n - 1);
      assert StepAt(r, n - 1);
      NowAfter(r.mode, r.states[n - 1], r.acts[n - 1]);
    }
  }

  /** A stopped thread takes no task any more. */
  lemma {:induction false} StoppedStays(r: Run, i: nat, j: nat, w: ThreadId)
    requires IsRun(r) && i < j < |r.states| && r.acts[i] == Stop(w)
    ensures w < |r.states[j].workers| && r.states[j].workers[w].Stopped?
  {
    assert StepAt(r, j - 1);
    if j > i + 1 {
      StoppedStays(r, i, j - 1, w);
      OthersStay(r.mode, r.states[j - 1], r.acts[j - 1], w);
    }
  }

  // ------------------------------------------------------------ the picker

  /** The pool sizes that CreateThreads(short, blocking) records. */
  datatype Pool = Pool(total: nat, short: nat, blocking: nat)

  function CreateThreads(short: nat, blocking: nat): (p: Pool) {
    var total := short + blocking;
    Pool(total, if short == 0 then total else short, blocking)
  }

  /** The thread that a picker names, unless it takes a remainder by zero. */
  datatype Pick = Named(thread: nat) | DividesByZero

  function PickShort(p: Pool, ticket: nat): (r: Pick) {
    if p.short == 0 then DividesByZero else Named(ticket % p.short)
  }

  function PickBlocking(p: Pool, ticket: nat): (r: Pick) {
    if p.blocking == 0 then DividesByZero else Named(ticket % p.blocking + p.short)
  }

  /** The short picker names a thread of the pool for every ticket, unless the pool
      is empty; Signal does not ask then.  The blocking picker does so, and stays off
      the short threads, exactly when the pool was created with threads of both
      kinds. */
  lemma PickedThreadExists(short: nat, blocking: nat)
    ensures var p := CreateThreads(short, blocking);
            && ((forall k: nat :: PickShort(p, k).Named? && PickShort(p, k).thread < p.total) <==> p.total > 0)
            && (short > 0 ==> forall k: nat :: PickShort(p, k).thread < short)
            && ((forall k: nat :: PickBlocking(p, k).Named? && short <= PickBlocking(p, k).thread < p.total)
                <==> short > 0 && blocking > 0)
            && (PickBlocking(p, 0).DividesByZero? <==> blocking == 0)
  {
    var p := CreateThreads(short, blocking);
    if short == 0 || blocking == 0 {
      assert PickBlocking(p, 0) == if blocking == 0 then DividesByZero else Named(p.total);
    }
    assert PickShort(p, 0).DividesByZero? <==> p.total == 0;
  }
}
