/** The scheduler of scheduler.c: a table of thread objects, the current one and a switch per step. */
module Scheduler {
  import opened SchedulerRules

  class Thread {
    const id: nat
    var state: ThreadState
    var started: bool

    constructor (id: nat)
      ensures this.id == id && state == Ready && !started
    {
      this.id := id;
      state, started := Ready, false;
    }
  }

  class RoundRobin {
    var threads: seq<Thread>
    var nextId: nat
    var currentIndex: nat
    var schedulerActive: bool

    ghost function ViewOf(): (t: Table)
      reads this, threads
      ensures |t.slots| == |threads| && t.nextId == nextId && t.current == currentIndex && t.active == schedulerActive
      ensures forall i :: 0 <= i < |threads| ==> t.slots[i] == Slot(threads[i].id, threads[i].state, threads[i].started)
    {
      Table(seq(|threads|, i requires 0 <= i < |threads| reads this,
        threads => Slot(threads[i].id, threads[i].state, threads[i].started)),
        nextId, currentIndex, schedulerActive)
    }

    ghost predicate Valid()
      reads this, threads
    {
      Kept(ViewOf())
    }

    constructor ()
      ensures Valid() && threads == [] && !schedulerActive
    {
      threads, nextId, currentIndex, schedulerActive := [], 1, 0, false;
    }

    /** Threads have different numbers, so they are different objects. */
    lemma Distinct()
      requires IdsIncrease(ViewOf().slots, nextId)
      ensures forall i, j :: 0 <= i < j < |threads| ==> threads[i] != threads[j]
    {
      forall i, j | 0 <= i < j < |threads| ensures threads[i] != threads[j] {
        assert ViewOf().slots[i].id < ViewOf().slots[j].id;
      }
    }

    method SetState(i: nat, state: ThreadState)
      requires i < |threads| && IdsIncrease(ViewOf().slots, nextId)
      modifies threads
      ensures ViewOf() == old(ViewOf()).Set(i, state)
    {
      Distinct();
      threads[i].state := state;
      assert ViewOf().slots == old(ViewOf()).Set(i, state).slots;
    }

    method SetThread(thread: Thread, state: ThreadState)
      requires thread in threads && IdsIncrease(ViewOf().slots, nextId)
      modifies threads
      ensures ViewOf() == old(ViewOf()).Set(IndexOf(thread), state)
    {
      ghost var i := IndexOf(thread);
      Distinct();
      thread.state := state;
      assert ViewOf().slots == old(ViewOf()).Set(i, state).slots;
    }

    /** `thread_create`: `memory` and `stack` say whether the two allocations succeed. */
    method Create(entry: bool, memory: bool, stack: bool) returns (thread: Thread?)
      requires Valid()
      modifies this`threads, this`nextId
      ensures Valid() && ViewOf() == SchedulerRules.Create(old(ViewOf()), entry, memory, stack)
      ensures if thread == null then threads == old(threads) else fresh(thread) && threads == old(threads) + [thread]
    {
      CreateKeeps(ViewOf(), entry, memory, stack);
      if !entry || |threads| == 32 || !memory {
        return null;
      }
      var made := new Thread(nextId);
      nextId := nextId + 1;
      if !stack {
        assert ViewOf().slots == old(ViewOf()).slots;
        return null;
      }
      threads := threads + [made];
      assert ViewOf().slots == old(ViewOf()).slots + [Slot(made.id, Ready, false)];
      return made;
    }

    method SwitchTo(i: nat)
      requires i < |threads| && IdsIncrease(ViewOf().slots, nextId)
      modifies this`currentIndex, threads
      ensures ViewOf() == RunAt(old(ViewOf()), i)
    {
      hide ViewOf;
      hide IdsIncrease;
      currentIndex := i;
      SameSlots();
      SetState(i, Running);
    }

    method SetActive(active: bool)
      modifies this`schedulerActive
      ensures ViewOf() == old(ViewOf()).(active := active)
    {
      schedulerActive := active;
      SameSlots();
    }

    twostate lemma SameSlots()
      requires threads == old(threads) && forall i :: 0 <= i < |threads| ==> threads[i].state == old(threads[i].state)
      requires forall i :: 0 <= i < |threads| ==> threads[i].started == old(threads[i].started)
      ensures ViewOf().slots == old(ViewOf()).slots
    {
    }

    /** The search both `scheduler_yield` and `scheduler_tick` make: the next ready thread runs. */
    method TakeNext() returns (found: bool)
      requires threads != [] && currentIndex < |threads| && IdsIncrease(ViewOf().slots, nextId)
      modifies this`currentIndex, threads
      ensures found <==> FirstReady(old(ViewOf()), 1) <= |threads|
      ensures var d := old(ViewOf());
        ViewOf() == if found then RunAt(d, Around(d.current, FirstReady(d, 1), |d.slots|)) else d
    {
      hide ViewOf;
      hide IdsIncrease;
      ghost var d := ViewOf();
      var offset := 1;
      while offset <= |threads|
        invariant 1 <= offset <= |threads| + 1
        invariant ViewOf() == d && FirstReady(d, 1) == FirstReady(d, offset)
      {
        var candidate := (currentIndex + offset) % |threads|;
        assert candidate == Around(d.current, offset, |d.slots|);
        if threads[candidate].state == Ready {
          SwitchTo(candidate);
          return true;
        }
        offset := offset + 1;
      }
      return false;
    }

    /** `scheduler_yield`, with the switch of contexts as a change of state only. */
    method Yield()
      requires Orderly(ViewOf())
      modifies this`currentIndex, this`schedulerActive, threads
      ensures ViewOf() == SchedulerRules.Yield(old(ViewOf()))
      ensures old(Valid()) || old(schedulerActive) ==> Valid()
    {
      hide ViewOf;
      hide IdsIncrease;
      hide OnlyCurrentRuns;
      hide FirstReady;
      if |threads| == 0 || !schedulerActive {
        return;
      }
      ghost var t := ViewOf();
      YieldKeeps(t);
      SetKeeps(t, t.current, Ready);
      if threads[currentIndex].state == Running {
        SetState(currentIndex, Ready);
      }
      assert ViewOf() == Demoted(t);
      var found := TakeNext();
      if !found {
        SetState(currentIndex, Terminated);
        SetActive(false);
      }
    }

    method BlockCurrent()
      requires Valid()
      modifies this`currentIndex, this`schedulerActive, threads
      ensures Valid() && ViewOf() == SchedulerRules.BlockCurrent(old(ViewOf()))
    {
      StepKeeps(ViewOf(), BlockCalled);
      if |threads| == 0 || !schedulerActive {
        return;
      }
      SetKeeps(ViewOf(), currentIndex, Blocked);
      SetState(currentIndex, Blocked);
      Yield();
    }

    /** Where a thread stands in the table; the size of the table when it is not there. */
    ghost function IndexOf(thread: Thread?): (i: nat)
      reads this`threads
      ensures if thread in threads then i < |threads| && threads[i] == thread else i == |threads|
    {
      if thread in threads then
        var i: nat :| i < |threads| && threads[i] == thread;
        i
      else |threads|
    }

    method Unblock(thread: Thread?)
      requires Valid() && (thread != null ==> thread in threads)
      modifies threads
      ensures Valid() && ViewOf() == SchedulerRules.Unblock(old(ViewOf()), IndexOf(thread))
    {
      StepKeeps(ViewOf(), UnblockCalled(IndexOf(thread)));
      if thread != null && thread.state == Blocked {
        SetThread(thread, Ready);
      }
    }

    method Terminate(thread: Thread?)
      requires Valid() && (thread != null ==> thread in threads)
      modifies threads
      ensures Valid() && ViewOf() == SchedulerRules.Terminate(old(ViewOf()), IndexOf(thread))
    {
      StepKeeps(ViewOf(), TerminateCalled(IndexOf(thread)));
      if thread != null {
        SetThread(thread, Terminated);
      }
    }

    /** `thread_bootstrap` up to the call of the entry function. */
    method Begin()
      requires Valid() && threads != []
      modifies threads
      ensures Valid() && ViewOf() == SchedulerRules.Begin(old(ViewOf()))
    {
      StepKeeps(ViewOf(), Began);
      Distinct();
      threads[currentIndex].started := true;
      assert ViewOf().slots == SchedulerRules.Begin(old(ViewOf())).slots;
    }

    /** `thread_bootstrap` from the return of the entry function on. */
    method Finish()
      requires Valid() && threads != []
      modifies this`currentIndex, this`schedulerActive, threads
      ensures Valid() && ViewOf() == SchedulerRules.Finish(old(ViewOf()))
    {
      StepKeeps(ViewOf(), Finished);
      SetKeeps(ViewOf(), currentIndex, Terminated);
      SetState(currentIndex, Terminated);
      Yield();
    }

    method Tick()
      requires Valid()
      modifies this`currentIndex, this`schedulerActive, threads
      ensures Valid() && ViewOf() == SchedulerRules.Tick(old(ViewOf()))
    {
      hide ViewOf;
      hide IdsIncrease;
      hide OnlyCurrentRuns;
      hide FirstReady;
      StepKeeps(ViewOf(), Ticked);
      if |threads| == 0 {
        return;
      }
      if !schedulerActive {
        SetKeeps(ViewOf(), currentIndex, Ready);
        SetState(currentIndex, Ready);
        var found := TakeNext();
        return;
      }
      hide SchedulerRules.Yield;
      Yield();
    }

    method Preempt()
      requires Valid()
      modifies this`currentIndex, this`schedulerActive, threads
      ensures Valid() && ViewOf() == SchedulerRules.Preempt(old(ViewOf()))
    {
      hide ViewOf;
      hide IdsIncrease;
      hide OnlyCurrentRuns;
      hide FirstReady;
      hide SchedulerRules.Yield;
      StepKeeps(ViewOf(), Preempted);
      if !schedulerActive || |threads| < 2 {
        return;
      }
      ghost var t := ViewOf();
      var offset := 1;
      while offset < |threads|
        invariant 1 <= offset <= |threads|
        invariant ViewOf() == t
        invariant forall k: nat {:trigger Around(t.current, k, |t.slots|)} :: 1 <= k < offset ==>
          !(t.In(Around(t.current, k, |t.slots|), Ready) && t.slots[Around(t.current, k, |t.slots|)].started)
      {
        var candidate := (currentIndex + offset) % |threads|;
        assert candidate == Around(t.current, offset, |t.slots|);
        if threads[candidate].state == Ready && threads[candidate].started {
          Yield();
          return;
        }
        offset := offset + 1;
      }
    }

    method Start()
      requires Valid()
      modifies this`currentIndex, this`schedulerActive, threads
      ensures ViewOf() == SchedulerRules.Start(old(ViewOf()))
      ensures Valid() <==> StartsCleanly(old(ViewOf()), StartCalled)
    {
      hide ViewOf;
      hide IdsIncrease;
      StepKeeps(ViewOf(), StartCalled);
      if |threads| == 0 {
        return;
      }
      SwitchTo(0);
      SetActive(true);
    }

    /** `scheduler_start_thread`; a thread that is not in the table is not started. */
    method StartThread(thread: Thread?)
      requires Valid()
      modifies this`currentIndex, this`schedulerActive, threads
      ensures ViewOf() == SchedulerRules.StartThread(old(ViewOf()), IndexOf(thread))
      ensures Valid() <==> StartsCleanly(old(ViewOf()), StartThreadCalled(IndexOf(thread)))
    {
      if thread == null {
        return;
      }
      hide ViewOf;
      Distinct();
      hide IdsIncrease;
      hide SchedulerRules.Yield;
      hide SchedulerRules.Tick;
      hide SchedulerRules.Preempt;
      for index: nat := 0 to |threads|
        invariant thread !in threads[..index]
        invariant ViewOf() == old(ViewOf())
      {
        if threads[index] == thread {
          StepKeeps(ViewOf(), StartThreadCalled(index));
          SwitchTo(index);
          SetActive(true);
          return;
        }
      }
    }

    /** What the end of a process does for the thread of the parent. */
    method Wake(thread: Thread, start: bool)
      requires Valid() && thread in threads
      modifies this`currentIndex, this`schedulerActive, threads
      ensures ViewOf() == Woken(old(ViewOf()), IndexOf(thread), start)
    {
      hide ViewOf;
      hide Valid;
      Unblock(thread);
      if start {
        StartThread(thread);
      }
    }
  }
}
