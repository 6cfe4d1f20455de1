/** The process table of process.c: objects with parent pointers, the process in use, and the threads
    and address spaces the processes own. */
module Processes {
  import opened ProcessRules
  import SchedulerRules
  import Scheduler

  /** Whether the entry of a new process is not null and the allocations for it succeed: the process
      itself, its thread, the thread's stack, and the root of its address space, 0 when there is none. */
  datatype Resources = Resources(entry: bool, memory: bool, thread: bool, stack: bool, root: nat)

  /** `process_create` gets as far as creating the thread. */
  predicate AsksThread(w: World, r: Resources) {
    r.entry && |w.entries| != 32 && r.memory
  }

  predicate Suffices(r: Resources, t: SchedulerRules.Table) {
    r.entry && r.memory && |t.slots| != 32 && r.thread && r.stack && r.root != 0
  }

  /** The threads after `process_create`; one that was made stays when there is no address space. */
  function ThreadsAfterCreate(t: SchedulerRules.Table, w: World, r: Resources): SchedulerRules.Table {
    if AsksThread(w, r) then SchedulerRules.Create(t, true, r.thread, r.stack) else t
  }

  /** The entries with the first `n` orphaned. */
  ghost function OrphanTo(entries: seq<Entry>, pid: nat, n: nat): seq<Entry>
    requires n <= |entries|
  {
    Orphan(entries[..n], pid) + entries[n..]
  }

  ghost function OrphanOne(entries: seq<Entry>, pid: nat, n: nat): seq<Entry>
    requires n < |entries|
  {
    if entries[n].parent == pid then entries[n := entries[n].(parent := 0)] else entries
  }

  lemma OrphanNone(entries: seq<Entry>, pid: nat)
    ensures OrphanTo(entries, pid, 0) == entries
  {
  }

  lemma OrphanNext(entries: seq<Entry>, pid: nat, n: nat)
    requires n < |entries|
    ensures |OrphanTo(entries, pid, n)| == |entries|
    ensures OrphanTo(entries, pid, n + 1) == OrphanOne(OrphanTo(entries, pid, n), pid, n)
  {
    assert OrphanTo(entries, pid, n)[n] == entries[n];
  }

  lemma OrphanAll(entries: seq<Entry>, pid: nat)
    ensures OrphanTo(entries, pid, |entries|) == Orphan(entries, pid)
  {
    assert entries[..|entries|] == entries;
  }

  class Process {
    const pid: nat
    const mainThread: Scheduler.Thread
    const root: nat
    var state: ProcessState
    var exitStatus: int
    var parent: Process?
    var loaded: bool
    var forkReturn: int

    constructor (pid: nat, parent: Process?, mainThread: Scheduler.Thread, root: nat)
      ensures this.pid == pid && this.parent == parent && this.mainThread == mainThread && this.root == root
      ensures state == Running && exitStatus == 0 && !loaded && forkReturn == -1
    {
      this.pid, this.parent, this.mainThread, this.root := pid, parent, mainThread, root;
      state, exitStatus, loaded, forkReturn := Running, 0, false, -1;
    }

    ghost function EntryOf(): Entry
      reads this
    {
      Entry(state, exitStatus, PidOf(parent), loaded, forkReturn)
    }
  }

  function PidOf(p: Process?): nat {
    if p == null then 0 else p.pid
  }

  ghost function EntriesOf(table: seq<Process>): (entries: seq<Entry>)
    reads table
    ensures |entries| == |table| && forall i :: 0 <= i < |table| ==> entries[i] == table[i].EntryOf()
  {
    seq(|table|, i requires 0 <= i < |table| reads table => table[i].EntryOf())
  }

  lemma EntriesMore(table: seq<Process>, process: Process)
    ensures EntriesOf(table + [process]) == EntriesOf(table) + [process.EntryOf()]
  {
  }

  class ProcessTable {
    var table: seq<Process>
    var current: Process?
    var nextPid: nat
    var activeRoot: nat

    /** A pointer leads to no process or to the one in the table that has its pid. */
    ghost predicate Points(p: Process?)
      reads this`table
    {
      p != null ==> 1 <= p.pid <= |table| && table[p.pid - 1] == p
    }

    ghost predicate Linked()
      reads this`table, this`current, this`nextPid, table
    {
      && |table| <= 32 && nextPid == |table| + 1
      && (forall i :: 0 <= i < |table| ==> table[i].pid == i + 1)
      && (forall i :: 0 <= i < |table| ==> Points(table[i].parent))
      && Points(current)
    }

    /** The processes have threads of the scheduler, each its own. */
    ghost predicate Threaded(scheduler: Scheduler.RoundRobin)
      reads this`table, scheduler`threads
    {
      && (forall i :: 0 <= i < |table| ==> table[i].mainThread in scheduler.threads)
      && (forall i, j :: 0 <= i < j < |table| ==> table[i].mainThread != table[j].mainThread)
    }

    ghost function ViewOf(): (w: World)
      reads this`table, this`current, table
      ensures |w.entries| == |table| && w.current == PidOf(current)
      ensures forall i :: 0 <= i < |table| ==> w.entries[i] == table[i].EntryOf()
    {
      World(EntriesOf(table), PidOf(current))
    }

    constructor ()
      ensures Linked() && Kept(ViewOf()) && ViewOf() == World([], 0)
    {
      table, current, nextPid, activeRoot := [], null, 1, 0;
    }

    twostate lemma SameEntries()
      requires table == old(table) && forall i :: 0 <= i < |table| ==> unchanged(table[i])
      ensures ViewOf().entries == old(ViewOf()).entries
    {
      forall i | 0 <= i < |table| ensures ViewOf().entries[i] == old(ViewOf()).entries[i] {
        assert table[i].EntryOf() == old(table[i].EntryOf());
      }
    }

    lemma InTable(p: Process)
      requires Linked() && Points(p)
      ensures 1 <= p.pid <= |table| && ViewOf().entries[p.pid - 1] == p.EntryOf() && Points(p.parent)
    {
      assert Points(table[p.pid - 1].parent);
    }

    twostate lemma EntriesChanged(process: Process)
      requires Points(process) && table == old(table) && current == old(current)
      requires forall i :: 0 <= i < |table| ==> table[i].pid == i + 1
      requires forall i :: 0 <= i < |table| && table[i] != process ==> unchanged(table[i])
      ensures ViewOf() == old(ViewOf()).Put(process.pid, process.EntryOf())
    {
      var w := old(ViewOf()).Put(process.pid, process.EntryOf());
      forall i | 0 <= i < |table| ensures ViewOf().entries[i] == w.entries[i] {
        if table[i] != process {
          assert table[i].EntryOf() == old(table[i].EntryOf());
        }
      }
      assert ViewOf().entries == w.entries;
    }

    /** A change to one process of the table changes its entry only. */
    twostate lemma OneChanged(process: Process)
      requires old(Linked()) && Points(process) && table == old(table) && current == old(current) &&
        nextPid == old(nextPid)
      requires forall i :: 0 <= i < |table| && table[i] != process ==> unchanged(table[i])
      requires Points(process.parent)
      ensures Linked() && ViewOf() == old(ViewOf()).Put(process.pid, process.EntryOf())
    {
      hide ViewOf;
      forall i | 0 <= i < |table| ensures Points(table[i].parent) {
        assert old(Points(table[i].parent));
      }
      EntriesChanged(process);
    }

    /** `process_create`. */
    method Create(scheduler: Scheduler.RoundRobin, r: Resources) returns (process: Process?)
      requires Linked() && Threaded(scheduler) && scheduler.Valid()
      modifies this`table, this`nextPid, scheduler`threads, scheduler`nextId
      ensures Linked() && Threaded(scheduler) && scheduler.Valid()
      ensures ViewOf() == ProcessRules.Create(old(ViewOf()), Suffices(r, old(scheduler.ViewOf())))
      ensures scheduler.ViewOf() == ThreadsAfterCreate(old(scheduler.ViewOf()), old(ViewOf()), r)
      ensures process == null <==> ViewOf() == old(ViewOf())
      ensures if process == null then table == old(table)
        else fresh(process) && Points(process) && table == old(table) + [process] && process.root == r.root
    {
      hide Scheduler.RoundRobin.ViewOf;
      hide SchedulerRules.Kept;
      if !r.entry || |table| == 32 || !r.memory {
        return null;
      }
      var thread := scheduler.Create(true, r.thread, r.stack);
      if thread == null || r.root == 0 {
        return null;
      }
      process := Append(thread, r.root);
    }

    method Append(thread: Scheduler.Thread, root: nat) returns (process: Process)
      requires Linked() && |table| < 32
      modifies this`table, this`nextPid
      ensures Linked() && ViewOf() == ProcessRules.Create(old(ViewOf()), true)
      ensures fresh(process) && Points(process) && table == old(table) + [process]
      ensures process.mainThread == thread && process.root == root
    {
      hide EntriesOf;
      process := new Process(nextPid, current, thread, root);
      ghost var before := EntriesOf(table);
      EntriesMore(table, process);
      table := table + [process];
      nextPid := nextPid + 1;
      assert EntriesOf(table) == before + [process.EntryOf()];
    }

    /** `process_fork`; `copied` says whether the image loads into the child. */
    method Fork(scheduler: Scheduler.RoundRobin, parent: Process?, r: Resources, copied: bool)
      returns (child: Process?)
      requires Linked() && Points(parent) && Threaded(scheduler) && scheduler.Valid() && r.entry
      modifies this`table, this`nextPid, table, scheduler`threads, scheduler`nextId
      ensures Linked() && Threaded(scheduler) && scheduler.Valid()
      ensures ViewOf()
        == ProcessRules.Fork(old(ViewOf()), PidOf(parent), Suffices(r, old(scheduler.ViewOf())), copied)
      ensures scheduler.ViewOf() == if parent == null || !old(parent.loaded) then old(scheduler.ViewOf())
        else ThreadsAfterCreate(old(scheduler.ViewOf()), old(ViewOf()), r)
      ensures child != null ==>
        fresh(child) && child.forkReturn == 0 && parent != null && parent.forkReturn == child.pid
    {
      hide ViewOf;
      hide Linked;
      hide World.Put;
      hide Scheduler.RoundRobin.ViewOf;
      hide Scheduler.RoundRobin.Valid;
      hide Suffices;
      hide ThreadsAfterCreate;
      hide Threaded;
      if parent == null {
        return null;
      }
      InTable(parent);
      if !parent.loaded {
        return null;
      }
      child := Create(scheduler, r);
      if child == null || !copied {
        return null;
      }
      assert table[parent.pid - 1] == old(table)[parent.pid - 1];
      InTable(child);
      Attach(child, parent);
    }

    method Attach(child: Process, parent: Process)
      requires Linked() && Points(child) && Points(parent) && child.pid != parent.pid
      requires 1 <= child.pid <= |ViewOf().entries| && 1 <= parent.pid <= |ViewOf().entries|
      modifies child, parent`forkReturn
      ensures Linked() && child.forkReturn == 0 && parent.forkReturn == child.pid
      ensures var w := old(ViewOf());
        var placed := w.Put(child.pid,
          w.entries[child.pid - 1].(parent := parent.pid, loaded := true, forkReturn := 0));
        ViewOf() == placed.Put(parent.pid, placed.entries[parent.pid - 1].(forkReturn := child.pid))
    {
      hide ViewOf;
      hide Linked;
      hide World.Put;
      Adopt(child, parent);
      GiveReturn(parent, child.pid);
    }

    method GiveReturn(process: Process, value: int)
      requires Linked() && Points(process)
      modifies process`forkReturn
      ensures Linked() && process.forkReturn == value
      ensures ViewOf() == old(ViewOf()).Put(process.pid, old(ViewOf()).entries[process.pid - 1].(forkReturn := value))
    {
      InTable(process);
      process.forkReturn := value;
      OneChanged(process);
    }

    method Adopt(child: Process, parent: Process)
      requires Linked() && Points(child) && Points(parent)
      modifies child
      ensures Linked() && child.forkReturn == 0
      ensures ViewOf() == old(ViewOf()).Put(child.pid,
        old(ViewOf()).entries[child.pid - 1].(parent := parent.pid, loaded := true, forkReturn := 0))
    {
      child.loaded := true;
      child.parent := parent;
      child.forkReturn := 0;
      OneChanged(child);
    }

    method SetCurrent(process: Process?) returns (ok: bool)
      requires Linked() && Points(process)
      modifies this`current
      ensures Linked() && ViewOf() == ProcessRules.SetCurrent(old(ViewOf()), PidOf(process))
      ensures ok <==> old(ViewOf()).Is(PidOf(process), Running)
    {
      hide ViewOf;
      if process == null {
        return false;
      }
      InTable(process);
      if process.state != Running {
        return false;
      }
      current := process;
      SameEntries();
      return true;
    }

    method SetState(process: Process, state: ProcessState)
      requires Linked() && Points(process)
      modifies process`state
      ensures Linked() && ViewOf() == old(ViewOf()).SetState(process.pid, state)
    {
      process.state := state;
      OneChanged(process);
    }

    /** The loop that takes the parent away from the children of a process. */
    method OrphanChildren(process: Process)
      requires Linked() && Points(process)
      modifies table
      ensures Linked()
      ensures ViewOf() == old(ViewOf()).(entries := Orphan(old(ViewOf()).entries, process.pid))
    {
      hide ViewOf;
      hide Linked;
      hide OrphanTo;
      ghost var w := ViewOf();
      OrphanNone(w.entries, process.pid);
      for index: nat := 0 to |table|
        invariant Linked() && ViewOf() == w.(entries := OrphanTo(w.entries, process.pid, index))
      {
        OrphanNext(w.entries, process.pid, index);
        OrphanAt(process, index);
      }
      OrphanAll(w.entries, process.pid);
    }

    method OrphanAt(process: Process, index: nat)
      requires Linked() && Points(process) && index < |table|
      modifies table
      ensures Linked() && ViewOf() == old(ViewOf()).(entries := OrphanOne(old(ViewOf()).entries, process.pid, index))
    {
      if table[index].parent == process {
        table[index].parent := null;
        OneChanged(table[index]);
      } else {
        NotItsChild(process, index);
      }
    }

    lemma NotItsChild(process: Process, index: nat)
      requires Linked() && Points(process) && index < |table| && table[index].parent != process
      ensures OrphanOne(ViewOf().entries, process.pid, index) == ViewOf().entries
    {
      assert Points(table[index].parent);
    }

    method MarkExited(process: Process, status: int)
      requires Linked() && Points(process)
      modifies process
      ensures Linked() && process.parent == old(process.parent)
      ensures ViewOf() == old(ViewOf()).Put(process.pid,
        old(ViewOf()).entries[process.pid - 1].(state := Exited, exitStatus := status))
    {
      process.state := Exited;
      process.exitStatus := status;
      OneChanged(process);
    }

    /** The number of the parent's thread, or of none. */
    ghost function ParentThread(scheduler: Scheduler.RoundRobin, process: Process): nat
      reads process`parent, scheduler`threads
    {
      scheduler.IndexOf(if process.parent == null then null else process.parent.mainThread)
    }

    /** `process_exit`: the process and its thread end, and a parent that waits runs at once, in its own
        address space. */
    method Exit(scheduler: Scheduler.RoundRobin, process: Process?, status: int) returns (ok: bool)
      requires Linked() && Points(process) && Threaded(scheduler) && scheduler.Valid()
      modifies table, this`activeRoot, scheduler`currentIndex, scheduler`schedulerActive, scheduler.threads
      ensures Linked() && Threaded(scheduler)
      ensures ViewOf() == ProcessRules.Exit(old(ViewOf()), PidOf(process), status)
      ensures ok <==> old(ViewOf()).Alive(PidOf(process))
      ensures !ok ==> scheduler.ViewOf() == old(scheduler.ViewOf()) && activeRoot == old(activeRoot)
      ensures ok ==> var wake := old(process.parent != null && process.parent.state == Waiting);
        && scheduler.ViewOf() == SchedulerRules.AfterExit(old(scheduler.ViewOf()),
             scheduler.IndexOf(process.mainThread), old(ParentThread(scheduler, process)), wake)
        && activeRoot == if wake then old(process.parent.root) else old(activeRoot)
    {
      hide ViewOf;
      hide Linked;
      hide Orphan;
      hide World.Put;
      hide World.SetState;
      hide Scheduler.RoundRobin.ViewOf;
      hide Scheduler.RoundRobin.Valid;
      if process == null {
        return false;
      }
      InTable(process);
      OwnThread(scheduler, process);
      if process.state == Exited {
        return false;
      }
      var parent := process.parent;
      var wake := parent != null && parent.state == Waiting;
      if parent != null {
        InTable(parent);
        OwnThread(scheduler, parent);
      }
      hide Threaded;
      hide SchedulerRules.AfterExit;
      End(scheduler, process, parent, status, wake);
      return true;
    }

    /** The world after the process is marked EXITED and its parent RUNNING. */
    ghost function Marked(w: World, pid: nat, parent: nat, status: int): World
      requires 1 <= pid <= |w.entries| && parent <= |w.entries|
    {
      var gone := w.Put(pid, w.entries[pid - 1].(state := Exited, exitStatus := status));
      if parent > 0 then gone.SetState(parent, Running) else gone
    }

    method End(scheduler: Scheduler.RoundRobin, process: Process, parent: Process?, status: int, wake: bool)
      requires Linked() && Points(process) && Points(parent) && 1 <= process.pid <= |ViewOf().entries|
      requires process.mainThread in scheduler.threads && scheduler.Valid()
      requires parent != null ==> parent.mainThread in scheduler.threads && 1 <= parent.pid <= |ViewOf().entries|
      requires process in table && (parent != null ==> parent in table) && (wake ==> parent != null)
      modifies table, this`activeRoot, scheduler`currentIndex, scheduler`schedulerActive, scheduler.threads
      ensures Linked()
      ensures var w := Marked(old(ViewOf()), process.pid, PidOf(parent), status);
        ViewOf() == w.(entries := Orphan(w.entries, process.pid))
      ensures scheduler.ViewOf() == SchedulerRules.AfterExit(old(scheduler.ViewOf()),
        scheduler.IndexOf(process.mainThread),
        scheduler.IndexOf(if parent == null then null else parent.mainThread), wake)
      ensures activeRoot == if wake then parent.root else old(activeRoot)
    {
      hide ViewOf;
      hide Linked;
      hide Orphan;
      hide World.Put;
      hide World.SetState;
      hide Scheduler.RoundRobin.ViewOf;
      hide Scheduler.RoundRobin.Valid;
      hide Points;
      hide SchedulerRules.Woken;
      hide SchedulerRules.Terminate;
      EndOwn(scheduler, process, status);
      WakeParent(scheduler, parent, wake);
      OrphanChildren(process);
    }

    method EndOwn(scheduler: Scheduler.RoundRobin, process: Process, status: int)
      requires Linked() && Points(process) && process.mainThread in scheduler.threads && scheduler.Valid()
      requires 1 <= process.pid <= |ViewOf().entries|
      modifies process, scheduler.threads
      ensures Linked() && scheduler.Valid()
      ensures ViewOf() == old(ViewOf()).Put(process.pid,
        old(ViewOf()).entries[process.pid - 1].(state := Exited, exitStatus := status))
      ensures scheduler.ViewOf()
        == SchedulerRules.Terminate(old(scheduler.ViewOf()), scheduler.IndexOf(process.mainThread))
    {
      hide ViewOf;
      hide Linked;
      hide World.Put;
      hide Scheduler.RoundRobin.ViewOf;
      hide Scheduler.RoundRobin.Valid;
      hide SchedulerRules.Terminate;
      hide Points;
      MarkExited(process, status);
      scheduler.Terminate(process.mainThread);
    }

    lemma OwnThread(scheduler: Scheduler.RoundRobin, process: Process)
      requires Linked() && Points(process) && Threaded(scheduler)
      ensures process.mainThread in scheduler.threads
    {
    }

    method WakeParent(scheduler: Scheduler.RoundRobin, parent: Process?, wake: bool)
      requires Linked() && Points(parent) && scheduler.Valid() && (wake ==> parent != null)
      requires parent != null ==>
        parent in table && parent.mainThread in scheduler.threads && 1 <= parent.pid <= |ViewOf().entries|
      modifies table, this`activeRoot, scheduler`currentIndex, scheduler`schedulerActive, scheduler.threads
      ensures Linked()
      ensures ViewOf() == if parent == null then old(ViewOf()) else old(ViewOf()).SetState(parent.pid, Running)
      ensures scheduler.ViewOf() == SchedulerRules.Woken(old(scheduler.ViewOf()),
        scheduler.IndexOf(if parent == null then null else parent.mainThread), wake)
      ensures activeRoot == if wake then parent.root else old(activeRoot)
    {
      hide ViewOf;
      hide Linked;
      hide World.SetState;
      hide Scheduler.RoundRobin.ViewOf;
      hide Scheduler.RoundRobin.Valid;
      hide SchedulerRules.Woken;
      hide Points;
      if parent == null {
        NoneWoken(scheduler);
        return;
      }
      SetState(parent, Running);
      if wake {
        activeRoot := parent.root;
      }
      scheduler.Wake(parent.mainThread, wake);
    }

    lemma NoneWoken(scheduler: Scheduler.RoundRobin)
      ensures SchedulerRules.Woken(scheduler.ViewOf(), scheduler.IndexOf(null), false) == scheduler.ViewOf()
    {
    }

    /** `process_wait`: the pid and the status, -2 while the child lives, -1 when it is no child. */
    method Wait(pid: nat) returns (result: int, status: int)
      requires Linked()
      ensures match ProcessRules.Wait(ViewOf(), pid)
        case Status(s) => result == pid && status == s
        case StillRunning => result == -2
        case NoChild => result == -1
    {
      hide ViewOf;
      hide Linked;
      hide ProcessRules.Wait;
      status := 0;
      for index := 0 to |table|
        invariant forall i :: 0 <= i < index ==> table[i].pid != pid || table[i].parent != current
      {
        var process := table[index];
        if process.pid == pid && process.parent == current {
          ChildAt(index);
        }
        if process.pid == pid && process.parent == current && process.state == Exited {
          return pid, process.exitStatus;
        }
        if process.pid == pid && process.parent == current {
          return -2, status;
        }
      }
      NoChildOf(pid);
      return -1, status;
    }

    lemma ChildAt(index: nat)
      requires Linked() && index < |table| && table[index].parent == current
      ensures ProcessRules.Wait(ViewOf(), table[index].pid)
        == if table[index].state == Exited then Status(table[index].exitStatus) else StillRunning
    {
      assert ViewOf().entries[index] == table[index].EntryOf();
    }

    lemma NoChildOf(pid: nat)
      requires Linked() && forall i :: 0 <= i < |table| ==> table[i].pid != pid || table[i].parent != current
      ensures ProcessRules.Wait(ViewOf(), pid) == NoChild
    {
      if 1 <= pid <= |table| {
        assert Points(table[pid - 1].parent);
      }
    }

    method Kill(scheduler: Scheduler.RoundRobin, pid: nat) returns (ok: bool)
      requires Linked() && Threaded(scheduler) && scheduler.Valid()
      modifies table, this`activeRoot, scheduler`currentIndex, scheduler`schedulerActive, scheduler.threads
      ensures Linked() && Threaded(scheduler)
      ensures ViewOf() == ProcessRules.Kill(old(ViewOf()), pid)
      ensures ok <==> old(ViewOf()).Alive(pid)
      ensures !ok ==> scheduler.ViewOf() == old(scheduler.ViewOf()) && activeRoot == old(activeRoot)
    {
      hide Scheduler.RoundRobin.ViewOf;
      hide Scheduler.RoundRobin.Valid;
      for index := 0 to |table|
        invariant Linked() && ViewOf() == old(ViewOf()) && Threaded(scheduler) && scheduler.Valid()
        invariant scheduler.ViewOf() == old(scheduler.ViewOf()) && activeRoot == old(activeRoot)
        invariant forall i :: 0 <= i < index ==> table[i].pid != pid
      {
        if table[index].pid == pid {
          ok := Exit(scheduler, table[index], -9);
          return;
        }
      }
      return false;
    }
  }
}
