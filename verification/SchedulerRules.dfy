/** The round-robin scheduler of scheduler.c as steps on a table of threads. */
module SchedulerRules {

  datatype ThreadState = Ready | Running | Blocked | Terminated

  datatype Slot = Slot(id: nat, state: ThreadState, started: bool)

  datatype Table = Table(slots: seq<Slot>, nextId: nat, current: nat, active: bool) {
    /** The fields that index the table are usable. */
    predicate Usable() {
      if slots == [] then current == 0 && !active else current < |slots|
    }

    predicate In(i: nat, state: ThreadState) {
      i < |slots| && slots[i].state == state
    }

    function Set(i: nat, state: ThreadState): Table
      requires i < |slots|
    {
      this.(slots := slots[i := slots[i].(state := state)])
    }
  }

  /** The index `k` places after `from`, going round a table of `n`. */
  function Around(from: nat, k: nat, n: nat): (i: nat)
    requires from < n && k <= n
    ensures i == if from + k < n then from + k else from + k - n
  {
    SmallRemainder(from + k, n);
    (from + k) % n
  }

  lemma SmallRemainder(x: nat, n: nat)
    requires 0 < n && x < 2 * n
    ensures x % n == if x < n then x else x - n
  {
    assert x == n * (x / n) + x % n;
    FewTimes(n, x / n);
  }

  lemma FewTimes(n: nat, q: nat)
    ensures q == 0 ==> n * q == 0
    ensures q == 1 ==> n * q == n
    ensures q >= 2 ==> n * q >= 2 * n
  {
    if q >= 2 {
      assert n * q == 2 * n + n * (q - 2);
    }
  }

  /** How many places after `from` the index `i` comes, from 1 to `n`. */
  function Distance(from: nat, i: nat, n: nat): (k: nat)
    requires from < n && i < n
    ensures 1 <= k <= n && Around(from, k, n) == i
  {
    if i > from then i - from else i - from + n
  }

  /** The least offset from `k` on whose thread is ready, or one more than the table size. */
  function FirstReady(t: Table, k: nat): (r: nat)
    requires t.current < |t.slots| && 1 <= k <= |t.slots| + 1
    ensures k <= r <= |t.slots| + 1
    ensures r <= |t.slots| ==> t.In(Around(t.current, r, |t.slots|), Ready)
    ensures forall j {:trigger Around(t.current, j, |t.slots|)} :: k <= j < r ==>
      !t.In(Around(t.current, j, |t.slots|), Ready)
    decreases |t.slots| + 1 - k
  {
    if k > |t.slots| then k
    else if t.slots[Around(t.current, k, |t.slots|)].state == Ready then k
    else FirstReady(t, k + 1)
  }

  // ----- The steps -----

  /** A new thread; `memory` and `stack` say whether the two allocations succeed. */
  function Create(t: Table, entry: bool, memory: bool, stack: bool): Table {
    if !entry || |t.slots| == 32 || !memory then t
    else if !stack then t.(nextId := t.nextId + 1)
    else t.(slots := t.slots + [Slot(t.nextId, Ready, false)], nextId := t.nextId + 1)
  }

  function RunAt(t: Table, i: nat): Table
    requires i < |t.slots|
  {
    t.Set(i, Running).(current := i)
  }

  /** A running current thread becomes ready again. */
  function Demoted(t: Table): (d: Table)
    requires t.current < |t.slots|
  {
    if t.slots[t.current].state == Running then t.Set(t.current, Ready) else t
  }

  function Yield(t: Table): (out: Table)
    requires t.Usable()
    ensures out.Usable() && |out.slots| == |t.slots|
  {
    if t.slots == [] || !t.active then t
    else
      var d := Demoted(t);
      var k := FirstReady(d, 1);
      if k <= |t.slots| then RunAt(d, Around(d.current, k, |t.slots|))
      else d.Set(d.current, Terminated).(active := false)
  }

  function BlockCurrent(t: Table): Table
    requires t.Usable()
  {
    if t.slots == [] || !t.active then t else Yield(t.Set(t.current, Blocked))
  }

  function Unblock(t: Table, i: nat): Table {
    if t.In(i, Blocked) then t.Set(i, Ready) else t
  }

  function Terminate(t: Table, i: nat): Table {
    if i < |t.slots| then t.Set(i, Terminated) else t
  }

  /** The first thing a thread does when it is switched to for the first time. */
  function Begin(t: Table): Table
    requires t.Usable()
  {
    if t.slots == [] then t
    else t.(slots := t.slots[t.current := t.slots[t.current].(started := true)])
  }

  /** The last thing a thread does when its entry function returns. */
  function Finish(t: Table): Table
    requires t.Usable()
  {
    if t.slots == [] then t else Yield(t.Set(t.current, Terminated))
  }

  function Tick(t: Table): Table
    requires t.Usable()
  {
    if t.slots == [] then t
    else if !t.active then
      var d := t.Set(t.current, Ready);
      var k := FirstReady(d, 1);
      if k <= |t.slots| then RunAt(d, Around(d.current, k, |t.slots|)) else d
    else Yield(t)
  }

  ghost predicate StartedWaits(t: Table)
    requires t.current < |t.slots|
  {
    exists k: nat {:trigger Around(t.current, k, |t.slots|)} ::
      1 <= k < |t.slots| && t.In(Around(t.current, k, |t.slots|), Ready) &&
        t.slots[Around(t.current, k, |t.slots|)].started
  }

  ghost function Preempt(t: Table): Table
    requires t.Usable()
  {
    if !t.active || |t.slots| < 2 then t
    else if StartedWaits(t) then Yield(t)
    else t
  }

  function Start(t: Table): Table {
    if t.slots == [] then t else RunAt(t, 0).(active := true)
  }

  function StartThread(t: Table, i: nat): Table {
    if i < |t.slots| then RunAt(t, i).(active := true) else t
  }

  datatype Event =
    | CreateThread(entry: bool, memory: bool, stack: bool)
    | YieldCalled
    | BlockCalled
    | UnblockCalled(target: nat)
    | TerminateCalled(target: nat)
    | Began
    | Finished
    | Ticked
    | Preempted
    | StartCalled
    | StartThreadCalled(target: nat)

  ghost function Step(t: Table, e: Event): (out: Table)
    requires t.Usable()
    ensures out.Usable()
  {
    match e
    case CreateThread(entry, memory, stack) => Create(t, entry, memory, stack)
    case YieldCalled => Yield(t)
    case BlockCalled => BlockCurrent(t)
    case UnblockCalled(i) => Unblock(t, i)
    case TerminateCalled(i) => Terminate(t, i)
    case Began => Begin(t)
    case Finished => Finish(t)
    case Ticked => Tick(t)
    case Preempted => Preempt(t)
    case StartCalled => Start(t)
    case StartThreadCalled(i) => StartThread(t, i)
  }

  ghost function Run(t: Table, events: seq<Event>): (out: Table)
    requires t.Usable()
    ensures out.Usable()
    decreases |events|
  {
    if events == [] then t else Run(Step(t, events[0]), events[1..])
  }

  // ----- What every run keeps -----

  ghost predicate OnlyCurrentRuns(slots: seq<Slot>, current: nat) {
    forall i :: 0 <= i < |slots| && slots[i].state == Running ==> i == current
  }

  ghost predicate IdsIncrease(slots: seq<Slot>, nextId: nat) {
    && (forall i, j :: 0 <= i < j < |slots| ==> slots[i].id < slots[j].id)
    && (forall i :: 0 <= i < |slots| ==> slots[i].id < nextId)
  }

  ghost predicate Orderly(t: Table) {
    t.Usable() && |t.slots| <= 32 && IdsIncrease(t.slots, t.nextId) && OnlyCurrentRuns(t.slots, t.current)
  }

  ghost predicate Kept(t: Table) {
    && Orderly(t)
    && (t.active ==> t.slots[t.current].state == Running || t.slots[t.current].state == Terminated)
  }

  /** What the start functions need: they do not take RUNNING away from another current thread. */
  predicate StartsCleanly(t: Table, e: Event) {
    match e
    case StartCalled => t.slots == [] || t.current == 0 || !t.In(t.current, Running)
    case StartThreadCalled(i) => i >= |t.slots| || t.current == i || !t.In(t.current, Running)
    case _ => true
  }

  lemma SetKeeps(t: Table, i: nat, state: ThreadState)
    requires IdsIncrease(t.slots, t.nextId) && i < |t.slots|
    ensures IdsIncrease(t.Set(i, state).slots, t.nextId)
    ensures OnlyCurrentRuns(t.slots, t.current) && (state == Running ==> i == t.current) ==>
      OnlyCurrentRuns(t.Set(i, state).slots, t.current)
  {
  }

  lemma RunAtKeeps(t: Table, i: nat)
    requires Orderly(t) && i < |t.slots|
    ensures IdsIncrease(RunAt(t, i).slots, t.nextId)
    ensures OnlyCurrentRuns(RunAt(t, i).slots, i) <==> i == t.current || !t.In(t.current, Running)
  {
    SetKeeps(t, i, Running);
    if i != t.current {
      assert RunAt(t, i).slots[t.current] == t.slots[t.current];
    }
  }

  lemma YieldKeeps(t: Table)
    requires Orderly(t) && t.active
    ensures Kept(Yield(t))
  {
    hide IdsIncrease;
    SetKeeps(t, t.current, Ready);
    var d := Demoted(t);
    assert Orderly(d) && !d.In(t.current, Running);
    var k := FirstReady(d, 1);
    if k <= |t.slots| {
      RunAtKeeps(d, Around(d.current, k, |t.slots|));
    } else {
      SetKeeps(d, d.current, Terminated);
    }
  }

  lemma TickKeeps(t: Table)
    requires Kept(t) && t.slots != []
    ensures Kept(Tick(t))
  {
    hide IdsIncrease;
    if t.active {
      YieldKeeps(t);
    } else {
      SetKeeps(t, t.current, Ready);
      var d := t.Set(t.current, Ready);
      var k := FirstReady(d, 1);
      if k <= |t.slots| {
        RunAtKeeps(d, Around(d.current, k, |t.slots|));
      }
    }
  }

  lemma CreateKeeps(t: Table, entry: bool, memory: bool, stack: bool)
    requires Kept(t)
    ensures Kept(Create(t, entry, memory, stack))
  {
  }

  lemma BeginKeeps(t: Table)
    requires Kept(t)
    ensures Kept(Begin(t))
  {
  }

  /** Every step keeps the table in order; the start functions do exactly when no other thread runs. */
  lemma StepKeeps(t: Table, e: Event)
    requires Kept(t)
    ensures Kept(Step(t, e)) <==> StartsCleanly(t, e)
  {
    hide IdsIncrease;
    hide OnlyCurrentRuns;
    hide Yield;
    hide FirstReady;
    if t.slots != [] {
      SetKeeps(t, t.current, Blocked);
      SetKeeps(t, t.current, Terminated);
    }
    match e {
      case CreateThread(entry, memory, stack) => CreateKeeps(t, entry, memory, stack);
      case YieldCalled =>
        if t.active {
          YieldKeeps(t);
        } else {
          YieldIdle(t);
        }
      case BlockCalled =>
        if t.active {
          YieldKeeps(t.Set(t.current, Blocked));
        }
      case UnblockCalled(i) =>
        if t.In(i, Blocked) {
          SetKeeps(t, i, Ready);
        }
      case TerminateCalled(i) =>
        if i < |t.slots| {
          SetKeeps(t, i, Terminated);
        }
      case Began => BeginKeeps(t);
      case Finished =>
        if t.active {
          YieldKeeps(t.Set(t.current, Terminated));
        } else if t.slots != [] {
          YieldIdle(t.Set(t.current, Terminated));
        }
      case Ticked =>
        if t.slots != [] {
          TickKeeps(t);
        }
      case Preempted =>
        if t.active {
          YieldKeeps(t);
        }
      case StartCalled =>
        if t.slots != [] {
          RunAtKeeps(t, 0);
        }
      case StartThreadCalled(i) =>
        if i < |t.slots| {
          RunAtKeeps(t, i);
        }
    }
  }

  lemma YieldIdle(t: Table)
    requires t.Usable() && !t.active
    ensures Yield(t) == t
  {
  }

  ghost predicate AllStartCleanly(t: Table, events: seq<Event>)
    requires t.Usable()
    decreases |events|
  {
    events != [] ==> StartsCleanly(t, events[0]) && AllStartCleanly(Step(t, events[0]), events[1..])
  }

  /** Over any run: ids increase, the current index is usable and only its thread runs. */
  lemma {:induction false} RunKeeps(t: Table, events: seq<Event>)
    requires Kept(t) && AllStartCleanly(t, events)
    ensures Kept(Run(t, events))
    decreases |events|
  {
    if events != [] {
      StepKeeps(t, events[0]);
      RunKeeps(Step(t, events[0]), events[1..]);
    }
  }

  /** The scheduler stops exactly when nobody was ready or running. */
  lemma YieldStops(t: Table)
    requires Kept(t) && t.active
    ensures !Yield(t).active <==> forall i :: 0 <= i < |t.slots| ==> !t.In(i, Ready) && !t.In(i, Running)
  {
    hide IdsIncrease;
    var d := Demoted(t);
    var k := FirstReady(d, 1);
    forall i | 0 <= i < |t.slots| && (t.In(i, Ready) || t.In(i, Running)) ensures k <= |t.slots| {
      var far := Distance(t.current, i, |t.slots|);
      assert d.In(Around(d.current, far, |t.slots|), Ready);
    }
    if k <= |t.slots| {
      var c := Around(d.current, k, |t.slots|);
      assert t.In(c, Ready) || t.In(c, Running);
    }
  }

  // ----- Bounded waiting -----

  /** A yield gives the processor to a waiting thread or brings its turn nearer. */
  lemma YieldApproaches(t: Table, i: nat)
    requires t.Usable() && t.active && t.In(i, Ready)
    ensures Yield(t).active
    ensures Yield(t).current == i ==> Yield(t).In(i, Running)
    ensures Yield(t).current != i ==> Yield(t).In(i, Ready)
    ensures Yield(t).current != i ==> Distance(Yield(t).current, i, |t.slots|) < Distance(t.current, i, |t.slots|)
  {
    var d, far := Demoted(t), Distance(t.current, i, |t.slots|);
    var k := FirstReady(d, 1);
    assert d.In(Around(d.current, far, |t.slots|), Ready);
    assert k <= far;
  }

  /** How many yields of an active scheduler a step makes. */
  ghost function YieldsIn(t: Table, e: Event): nat
    requires t.Usable()
  {
    if !t.active then 0
    else
      match e
      case YieldCalled => 1
      case BlockCalled => 1
      case Finished => 1
      case Ticked => 1
      case Preempted => if |t.slots| >= 2 && StartedWaits(t) then 1 else 0
      case _ => 0
  }

  ghost function Yields(t: Table, events: seq<Event>): nat
    requires t.Usable()
    decreases |events|
  {
    if events == [] then 0 else YieldsIn(t, events[0]) + Yields(Step(t, events[0]), events[1..])
  }

  /** Thread `i` is ready before and after every step, no thread is created and none started. */
  ghost predicate StaysReady(t: Table, events: seq<Event>, i: nat)
    requires t.Usable()
    decreases |events|
  {
    && t.In(i, Ready)
    && (events != [] ==>
      && !events[0].CreateThread? && !events[0].StartCalled? && !events[0].StartThreadCalled?
      && StaysReady(Step(t, events[0]), events[1..], i))
  }

  lemma {:induction false} InactiveMakesNone(t: Table, events: seq<Event>, i: nat)
    requires t.Usable() && !t.active && StaysReady(t, events, i)
    ensures Yields(t, events) == 0
    decreases |events|
  {
    if events != [] {
      InactiveMakesNone(Step(t, events[0]), events[1..], i);
    }
  }

  lemma StepApproaches(t: Table, e: Event, i: nat)
    requires t.Usable() && t.active && t.In(i, Ready) && t.current != i
    requires !e.CreateThread? && !e.StartCalled? && !e.StartThreadCalled?
    requires Step(t, e).In(i, Ready)
    ensures |Step(t, e).slots| == |t.slots| && Step(t, e).active && Step(t, e).current != i
    ensures Distance(Step(t, e).current, i, |t.slots|) + YieldsIn(t, e) <= Distance(t.current, i, |t.slots|)
  {
    match e {
      case YieldCalled => YieldApproaches(t, i);
      case BlockCalled => YieldApproaches(t.Set(t.current, Blocked), i);
      case Finished => YieldApproaches(t.Set(t.current, Terminated), i);
      case Ticked => YieldApproaches(t, i);
      case Preempted => YieldApproaches(t, i);
      case _ =>
    }
  }

  lemma {:induction false} WaitsAtMost(t: Table, events: seq<Event>, i: nat)
    requires t.Usable() && t.active && t.current != i && StaysReady(t, events, i)
    ensures Yields(t, events) < Distance(t.current, i, |t.slots|)
    decreases |events|
  {
    if events != [] {
      var next := Step(t, events[0]);
      assert StaysReady(next, events[1..], i);
      StepApproaches(t, events[0], i);
      WaitsAtMost(next, events[1..], i);
    }
  }

  /** Round robin: among n threads, whatever happens to the others, a thread that is still
      waiting has seen fewer than n - 1 yields. */
  lemma BoundedWaiting(t: Table, events: seq<Event>, i: nat)
    requires Kept(t) && StaysReady(t, events, i)
    ensures t.active ==> Yields(t, events) < |t.slots| - 1
    ensures !t.active ==> Yields(t, events) == 0
  {
    if t.active {
      WaitsAtMost(t, events, i);
    } else {
      InactiveMakesNone(t, events, i);
    }
  }

  // ----- Preemption and unstarted threads -----

  /** The first ready thread after the current one has been started. */
  ghost predicate NextIsStarted(t: Table)
    requires t.current < |t.slots|
  {
    var k := FirstReady(t, 1);
    k <= |t.slots| && t.slots[Around(t.current, k, |t.slots|)].started
  }

  /** When preemption switches at all, it switches to a started thread exactly when the first ready
      thread in turn is one: the test looks for any started thread, the switch takes the first. */
  lemma PreemptToStarted(t: Table)
    requires Kept(t) && t.active && |t.slots| >= 2 && StartedWaits(t)
    ensures Preempt(t) == Yield(t) && Preempt(t).active && Preempt(t).current != t.current
    ensures Preempt(t).slots[Preempt(t).current].started <==> NextIsStarted(t)
  {
    var k: nat :| 1 <= k < |t.slots| && t.In(Around(t.current, k, |t.slots|), Ready);
    var d := Demoted(t);
    assert d.In(Around(t.current, k, |t.slots|), Ready);
    SameFirst(t, d, 1);
  }

  lemma {:induction false} SameFirst(t: Table, d: Table, k: nat)
    requires t.Usable() && t.active && d == Demoted(t) && 1 <= k < |t.slots|
    requires FirstReady(d, k) < |t.slots|
    ensures FirstReady(t, k) == FirstReady(d, k)
    decreases |t.slots| - k
  {
    if !t.In(Around(t.current, k, |t.slots|), Ready) {
      SameFirst(t, d, k + 1);
    }
  }

  lemma RunFirst(t: Table, e: Event, rest: seq<Event>)
    requires t.Usable()
    ensures Run(t, [e] + rest) == Run(Step(t, e), rest)
  {
    assert ([e] + rest)[1..] == rest;
  }

  /** The table at boot. */
  function Boot(): Table {
    Table([], 1, 0, false)
  }

  /** Three threads, of which the third and then the first have run. */
  function Unfair(): Table {
    Table([Slot(1, Running, true), Slot(2, Ready, false), Slot(3, Ready, true)], 4, 0, true)
  }

  function New(): Event {
    CreateThread(true, true, true)
  }

  function ThreeThreads(): Table {
    Table([Slot(1, Ready, false), Slot(2, Ready, false), Slot(3, Ready, false)], 4, 0, false)
  }

  lemma ThreeCreated(rest: seq<Event>)
    ensures Run(Boot(), [New()] + ([New()] + ([New()] + rest))) == Run(ThreeThreads(), rest)
  {
    var one := Table([Slot(1, Ready, false)], 2, 0, false);
    var two := Table([Slot(1, Ready, false), Slot(2, Ready, false)], 3, 0, false);
    RunFirst(Boot(), New(), [New()] + ([New()] + rest));
    assert Step(Boot(), New()) == one;
    RunFirst(one, New(), [New()] + rest);
    assert Step(one, New()).slots == two.slots;
    RunFirst(two, New(), rest);
    assert Step(two, New()).slots == ThreeThreads().slots;
  }

  /** A run from boot to that table: the third thread is started, begins and yields, and the first begins. */
  lemma UnfairIsReached()
    ensures Run(Boot(),
      [New()] + ([New()] + ([New()] + ([StartThreadCalled(2)] + ([Began] + ([YieldCalled] + [Began])))))) == Unfair()
  {
    ThreeCreated([StartThreadCalled(2)] + ([Began] + ([YieldCalled] + [Began])));
    var a := Table([Slot(1, Ready, false), Slot(2, Ready, false), Slot(3, Running, false)], 4, 2, true);
    var b := Table([Slot(1, Ready, false), Slot(2, Ready, false), Slot(3, Running, true)], 4, 2, true);
    var c := Table([Slot(1, Running, false), Slot(2, Ready, false), Slot(3, Ready, true)], 4, 0, true);
    RunFirst(ThreeThreads(), StartThreadCalled(2), [Began] + ([YieldCalled] + [Began]));
    assert Step(ThreeThreads(), StartThreadCalled(2)).slots == a.slots;
    RunFirst(a, Began, [YieldCalled] + [Began]);
    assert Step(a, Began).slots == b.slots;
    RunFirst(b, YieldCalled, [Began]);
    YieldToFirst(b, c);
    RunFirst(c, Began, []);
    assert [Began] + [] == [Began];
    assert Step(c, Began).slots == Unfair().slots;
  }

  lemma YieldToFirst(b: Table, c: Table)
    requires b == Table([Slot(1, Ready, false), Slot(2, Ready, false), Slot(3, Running, true)], 4, 2, true)
    requires c == Table([Slot(1, Running, false), Slot(2, Ready, false), Slot(3, Ready, true)], 4, 0, true)
    ensures Yield(b) == c
  {
    var d := Demoted(b);
    assert Around(2, 1, 3) == 0 && d.In(0, Ready);
    assert FirstReady(d, 1) == 1;
    assert Yield(b).slots == c.slots;
  }

  /** Preemption does switch to a thread that was never started, in a table reached from boot. */
  lemma PreemptToUnstarted()
    ensures Kept(Unfair()) && StartedWaits(Unfair())
    ensures Preempt(Unfair()).current == 1 && !Preempt(Unfair()).slots[1].started
  {
    var t := Unfair();
    assert t.In(Around(t.current, 2, |t.slots|), Ready);
    var d := Demoted(t);
    assert FirstReady(d, 1) == 1;
  }

  /** Starting a thread while another runs leaves two threads RUNNING, in a run from boot on. */
  lemma TwoRunning()
    ensures var t := Run(Boot(), [New()] + ([New()] + ([New()] + ([StartCalled] + [StartThreadCalled(1)]))));
      t.In(0, Running) && t.In(1, Running) && !Kept(t)
  {
    ThreeCreated([StartCalled] + [StartThreadCalled(1)]);
    var a := Table([Slot(1, Running, false), Slot(2, Ready, false), Slot(3, Ready, false)], 4, 0, true);
    var b := Table([Slot(1, Running, false), Slot(2, Running, false), Slot(3, Ready, false)], 4, 1, true);
    RunFirst(ThreeThreads(), StartCalled, [StartThreadCalled(1)]);
    assert Step(ThreeThreads(), StartCalled).slots == a.slots;
    RunFirst(a, StartThreadCalled(1), []);
    assert [StartThreadCalled(1)] + [] == [StartThreadCalled(1)];
    assert Step(a, StartThreadCalled(1)).slots == b.slots;
    assert b.slots[0].state == Running && b.current == 1;
  }

  // ----- The end of a process -----

  /** A parent's thread is unblocked, and started at once if the parent was waiting. */
  function Woken(t: Table, parent: nat, wake: bool): Table {
    if wake then StartThread(Unblock(t, parent), parent) else Unblock(t, parent)
  }

  /** What `process_exit` does to the threads: that of the process ends, that of its parent is woken.
      `parent` is the number of threads when there is no parent. */
  function AfterExit(t: Table, thread: nat, parent: nat, wake: bool): Table {
    Woken(Terminate(t, thread), parent, wake)
  }

  /** The thread of a parent that waited runs, whatever its state was, and that of the process has
      ended. A second thread is left RUNNING exactly when the current one was running and belongs to
      neither: the process was killed by another than its parent. */
  lemma ExitSwitches(t: Table, thread: nat, parent: nat, wake: bool)
    requires Kept(t) && thread < |t.slots| && parent < |t.slots| && thread != parent
    ensures var a := AfterExit(t, thread, parent, wake);
      && a.In(thread, Terminated)
      && (wake ==> a.In(parent, Running) && a.current == parent && a.active)
      && (Kept(a) <==> !wake || t.current == thread || t.current == parent || !t.In(t.current, Running))
    ensures forall i :: 0 <= i < |t.slots| && i != thread && i != parent ==>
      AfterExit(t, thread, parent, wake).slots[i] == t.slots[i]
  {
    hide IdsIncrease;
    hide Yield;
    hide BlockCurrent;
    hide Finish;
    hide Tick;
    hide Preempt;
    hide Orderly;
    StepKeeps(t, TerminateCalled(thread));
    StepKeeps(Terminate(t, thread), UnblockCalled(parent));
    StepKeeps(Unblock(Terminate(t, thread), parent), StartThreadCalled(parent));
  }

  /** In a run from boot the third thread blocks and the first runs. It kills the process of the second,
      whose parent is that of the third: the first and the third are both RUNNING. */
  lemma KillerStaysRunning()
    ensures var t := Run(Boot(), [New()] + ([New()] + ([New()] + ([StartThreadCalled(2)] + [BlockCalled]))));
      t.In(2, Blocked) && t.current == 0 && var a := AfterExit(t, 1, 2, true); a.In(0, Running) && a.In(2, Running)
  {
    ThreeCreated([StartThreadCalled(2)] + [BlockCalled]);
    var a := Table([Slot(1, Ready, false), Slot(2, Ready, false), Slot(3, Running, false)], 4, 2, true);
    var b := Table([Slot(1, Running, false), Slot(2, Ready, false), Slot(3, Blocked, false)], 4, 0, true);
    RunFirst(ThreeThreads(), StartThreadCalled(2), [BlockCalled]);
    assert Step(ThreeThreads(), StartThreadCalled(2)).slots == a.slots;
    RunFirst(a, BlockCalled, []);
    assert [BlockCalled] + [] == [BlockCalled];
    assert FirstReady(a.Set(2, Blocked), 1) == 1;
    assert Step(a, BlockCalled).slots == b.slots;
  }
}
