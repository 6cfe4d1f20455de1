/** The life of processes in process.c as steps on a table: creation, fork, exit, kill and wait. */
module ProcessRules {

  datatype ProcessState = Running | Waiting | Exited

  /** A process; `parent` is the pid of its parent, 0 when it has none. */
  datatype Entry = Entry(state: ProcessState, exitStatus: int, parent: nat, loaded: bool, forkReturn: int)

  /** The table in order of creation and the pid of the current process, 0 when there is none.
      The process in place i has pid i + 1. */
  datatype World = World(entries: seq<Entry>, current: nat) {
    /** Whether `pid` is that of a process in the given state. */
    predicate Is(pid: nat, state: ProcessState) {
      1 <= pid <= |entries| && entries[pid - 1].state == state
    }

    predicate Alive(pid: nat) {
      1 <= pid <= |entries| && entries[pid - 1].state != Exited
    }

    function Put(pid: nat, e: Entry): World
      requires 1 <= pid <= |entries|
    {
      this.(entries := entries[pid - 1 := e])
    }

    function SetState(pid: nat, state: ProcessState): World
      requires 1 <= pid <= |entries|
    {
      Put(pid, entries[pid - 1].(state := state))
    }
  }

  // ----- The steps -----

  /** `resources` says whether the entry is not null and memory, thread and address space are there. */
  function Create(w: World, resources: bool): World {
    if !resources || |w.entries| == 32 then w
    else w.(entries := w.entries + [Entry(Running, 0, w.current, false, -1)])
  }

  /** `copied` says whether loading the parent's image into the child succeeds; when it does not,
      the child stays in the table. */
  function Fork(w: World, parent: nat, resources: bool, copied: bool): World {
    if !(1 <= parent <= |w.entries|) || !w.entries[parent - 1].loaded then w
    else
      var created := Create(w, resources);
      if created == w || !copied then created
      else
        var child := |created.entries|;
        var placed := created.Put(child,
          created.entries[child - 1].(parent := parent, loaded := true, forkReturn := 0));
        placed.Put(parent, placed.entries[parent - 1].(forkReturn := child))
  }

  function Load(w: World, pid: nat): World {
    if 1 <= pid <= |w.entries| then w.Put(pid, w.entries[pid - 1].(loaded := true)) else w
  }

  function SetCurrent(w: World, pid: nat): World {
    if w.Is(pid, Running) then w.(current := pid) else w
  }

  /** The children of `pid` lose their parent. */
  function Orphan(entries: seq<Entry>, pid: nat): (out: seq<Entry>)
    ensures |out| == |entries|
  {
    seq(|entries|, i requires 0 <= i < |entries| =>
      if entries[i].parent == pid then entries[i].(parent := 0) else entries[i])
  }

  function Exit(w: World, pid: nat, status: int): World {
    if !w.Alive(pid) then w
    else
      var gone := w.Put(pid, w.entries[pid - 1].(state := Exited, exitStatus := status));
      var parent := w.entries[pid - 1].parent;
      var woken := if 1 <= parent <= |w.entries| then gone.SetState(parent, Running) else gone;
      woken.(entries := Orphan(woken.entries, pid))
  }

  function Kill(w: World, pid: nat): World {
    Exit(w, pid, -9)
  }

  /** What `process_wait` answers: the status of an exited child, that the child still lives, or that
      there is no such child. */
  datatype Answer = Status(status: int) | StillRunning | NoChild

  function Wait(w: World, pid: nat): Answer {
    if 1 <= pid <= |w.entries| && w.entries[pid - 1].parent == w.current then
      if w.entries[pid - 1].state == Exited then Status(w.entries[pid - 1].exitStatus) else StillRunning
    else NoChild
  }

  /** A blocking wait marks the current process before it gives up the processor. */
  function Block(w: World, pid: nat): World {
    if Wait(w, pid) == StillRunning && 1 <= w.current <= |w.entries| then w.SetState(w.current, Waiting) else w
  }

  datatype Event =
    | Created(resources: bool)
    | Forked(parent: nat, resources: bool, copied: bool)
    | Loaded(pid: nat)
    | MadeCurrent(pid: nat)
    | Ended(pid: nat, status: int)
    | Killed(pid: nat)
    | Blocked(pid: nat)

  function Step(w: World, e: Event): World {
    match e
    case Created(resources) => Create(w, resources)
    case Forked(parent, resources, copied) => Fork(w, parent, resources, copied)
    case Loaded(pid) => Load(w, pid)
    case MadeCurrent(pid) => SetCurrent(w, pid)
    case Ended(pid, status) => Exit(w, pid, status)
    case Killed(pid) => Kill(w, pid)
    case Blocked(pid) => Block(w, pid)
  }

  function Run(w: World, events: seq<Event>): World
    decreases |events|
  {
    if events == [] then w else Run(Step(w, events[0]), events[1..])
  }

  // ----- What every run keeps -----

  /** Parents come before their children and have not exited: the links form a forest. */
  ghost predicate Forest(entries: seq<Entry>) {
    forall i :: 0 <= i < |entries| && entries[i].parent != 0 ==>
      entries[i].parent <= i && entries[entries[i].parent - 1].state != Exited
  }

  ghost predicate Kept(w: World) {
    |w.entries| <= 32 && w.current <= |w.entries| && Forest(w.entries)
  }

  /** No step revives a process that has exited or changes its status. */
  ghost predicate Absorbs(w: World, v: World) {
    && |w.entries| <= |v.entries|
    && forall i :: 0 <= i < |w.entries| && w.entries[i].state == Exited ==>
      v.entries[i].state == Exited && v.entries[i].exitStatus == w.entries[i].exitStatus
  }

  /** The guards of `process_create`: there is room, and what a process needs. */
  predicate Creates(w: World, resources: bool) {
    resources && |w.entries| < 32
  }

  /** The guards of `process_fork`: the parent is there, has an image, and creation succeeds. */
  predicate Forks(w: World, parent: nat, resources: bool) {
    1 <= parent <= |w.entries| && w.entries[parent - 1].loaded && Creates(w, resources)
  }

  /** A new process gets a parent that is alive, or none. */
  predicate CleanParent(w: World, e: Event) {
    match e
    case Created(resources) => Creates(w, resources) ==> w.current == 0 || w.Alive(w.current)
    case Forked(parent, resources, copied) =>
      Forks(w, parent, resources) ==> if copied then w.Alive(parent) else w.current == 0 || w.Alive(w.current)
    case _ => true
  }

  lemma ExitKeeps(w: World, pid: nat, status: int)
    requires Kept(w)
    ensures Kept(Exit(w, pid, status)) && Absorbs(w, Exit(w, pid, status))
  {
    if w.Alive(pid) {
      var parent := w.entries[pid - 1].parent;
      var out := Exit(w, pid, status);
      forall i | 0 <= i < |w.entries|
        ensures out.entries[i].parent == if w.entries[i].parent == pid then 0 else w.entries[i].parent
        ensures out.entries[i].state == if i == pid - 1 then Exited else if i + 1 == parent then Running
          else w.entries[i].state
        ensures i != pid - 1 ==> out.entries[i].exitStatus == w.entries[i].exitStatus
      {
      }
    }
  }

  lemma ForkedEntries(w: World, parent: nat, resources: bool, copied: bool)
    requires Forks(w, parent, resources)
    ensures var out, n := Fork(w, parent, resources, copied).entries, |w.entries|;
      && |out| == n + 1
      && out[n].state == Running && out[n].parent == (if copied then parent else w.current)
      && forall i :: 0 <= i < n ==> out[i] == w.entries[i].(forkReturn := out[i].forkReturn)
  {
    var created := Create(w, resources);
    assert |created.entries| == |w.entries| + 1;
    assert forall i :: 0 <= i < |w.entries| ==> created.entries[i] == w.entries[i];
  }

  lemma OneMore(before: seq<Entry>, after: seq<Entry>)
    requires Forest(before) && |after| == |before| + 1
    requires forall i :: 0 <= i < |before| ==> after[i].state == before[i].state && after[i].parent == before[i].parent
    ensures var p := after[|before|].parent;
      Forest(after) <==> p == 0 || (p <= |before| && before[p - 1].state != Exited)
  {
  }

  lemma ForkKeeps(w: World, parent: nat, resources: bool, copied: bool)
    requires Kept(w)
    ensures var e := Forked(parent, resources, copied); Kept(Step(w, e)) <==> CleanParent(w, e)
    ensures Absorbs(w, Fork(w, parent, resources, copied))
  {
    var e := Forked(parent, resources, copied);
    if Forks(w, parent, resources) {
      ForkedEntries(w, parent, resources, copied);
      OneMore(w.entries, Step(w, e).entries);
      hide Fork;
      hide Forest;
      assert Step(w, e).current == w.current;
    }
  }

  lemma CreateKeeps(w: World, resources: bool)
    requires Kept(w)
    ensures var e := Created(resources); Kept(Step(w, e)) <==> CleanParent(w, e)
    ensures Absorbs(w, Create(w, resources))
  {
    var e := Created(resources);
    if Creates(w, resources) {
      assert Step(w, e).entries[|w.entries|].parent == w.current;
      OneMore(w.entries, Step(w, e).entries);
      assert forall i :: 0 <= i < |w.entries| ==> Step(w, e).entries[i] == w.entries[i];
    }
  }

  lemma BlockKeeps(w: World, pid: nat)
    requires Kept(w)
    ensures Kept(Block(w, pid)) && Absorbs(w, Block(w, pid))
  {
  }

  /** Creating and forking keep the forest exactly when the new parent is alive; every other step
      keeps it, and no step undoes an exit. */
  lemma StepKeeps(w: World, e: Event)
    requires Kept(w)
    ensures Kept(Step(w, e)) <==> CleanParent(w, e)
    ensures Absorbs(w, Step(w, e))
  {
    hide Exit;
    hide Fork;
    hide Create;
    hide Block;
    match e {
      case Created(resources) => CreateKeeps(w, resources);
      case Forked(parent, resources, copied) => ForkKeeps(w, parent, resources, copied);
      case Ended(pid, status) => ExitKeeps(w, pid, status);
      case Killed(pid) => ExitKeeps(w, pid, -9);
      case Blocked(pid) => BlockKeeps(w, pid);
      case _ =>
    }
  }

  ghost predicate Clean(w: World, events: seq<Event>)
    decreases |events|
  {
    events != [] ==> CleanParent(w, events[0]) && Clean(Step(w, events[0]), events[1..])
  }

  lemma {:induction false} RunKeeps(w: World, events: seq<Event>)
    requires Kept(w) && Clean(w, events)
    ensures Kept(Run(w, events)) && Absorbs(w, Run(w, events))
    decreases |events|
  {
    if events != [] {
      StepKeeps(w, events[0]);
      RunKeeps(Step(w, events[0]), events[1..]);
    }
  }

  // ----- Waiting for a child -----

  /** The status with which a step makes process `pid` exit, if it does. */
  function ExitOf(w: World, e: Event, pid: nat): seq<int> {
    if !w.Alive(pid) then []
    else if e.Ended? && e.pid == pid then [e.status]
    else if e.Killed? && e.pid == pid then [-9]
    else []
  }

  /** The statuses of all successful exits of process `pid` in a run. */
  function Exits(w: World, events: seq<Event>, pid: nat): seq<int>
    decreases |events|
  {
    if events == [] then [] else ExitOf(w, events[0], pid) + Exits(Step(w, events[0]), events[1..], pid)
  }

  /** An exit makes one process EXITED, with its status, and no other. */
  lemma ExitMarks(w: World, pid: nat, status: int, q: nat)
    requires Kept(w) && !w.Is(q, Exited)
    ensures var v := Exit(w, pid, status);
      && (v.Is(q, Exited) <==> q == pid && w.Alive(pid))
      && (v.Is(q, Exited) ==> v.entries[q - 1].exitStatus == status)
  {
  }

  lemma ForkMarksNone(w: World, parent: nat, resources: bool, copied: bool, q: nat)
    requires Kept(w) && !w.Is(q, Exited)
    ensures !Fork(w, parent, resources, copied).Is(q, Exited)
  {
    if Forks(w, parent, resources) {
      ForkedEntries(w, parent, resources, copied);
    }
  }

  lemma ExitOfStep(w: World, e: Event, pid: nat)
    requires Kept(w) && CleanParent(w, e) && !w.Is(pid, Exited)
    ensures if Step(w, e).Is(pid, Exited) then ExitOf(w, e, pid) == [Step(w, e).entries[pid - 1].exitStatus]
            else ExitOf(w, e, pid) == []
  {
    match e {
      case Ended(target, status) =>
        ExitMarks(w, target, status, pid);
        hide Exit;
      case Killed(target) =>
        ExitMarks(w, target, -9, pid);
        hide Exit;
      case Forked(parent, resources, copied) =>
        ForkMarksNone(w, parent, resources, copied, pid);
        hide Fork;
      case _ =>
    }
  }

  lemma {:induction false} ExitsOnce(w: World, events: seq<Event>, pid: nat)
    requires Kept(w) && Clean(w, events)
    ensures w.Is(pid, Exited) ==> Exits(w, events, pid) == []
    ensures !w.Is(pid, Exited) ==> var out := Run(w, events);
      Exits(w, events, pid) == if out.Is(pid, Exited) then [out.entries[pid - 1].exitStatus] else []
    decreases |events|
  {
    if events != [] {
      var next := Step(w, events[0]);
      StepKeeps(w, events[0]);
      ExitsOnce(next, events[1..], pid);
      RunKeeps(next, events[1..]);
      if !w.Is(pid, Exited) {
        ExitOfStep(w, events[0], pid);
      }
    }
  }

  /** From boot on, a wait that reports a status reports that of the child's one successful exit. */
  lemma WaitReportsTheExit(events: seq<Event>, pid: nat)
    requires Clean(World([], 0), events)
    ensures var w := Run(World([], 0), events);
      Wait(w, pid).Status? ==> Exits(World([], 0), events, pid) == [Wait(w, pid).status]
    ensures var w := Run(World([], 0), events);
      Wait(w, pid) == StillRunning ==> Exits(World([], 0), events, pid) == []
  {
    ExitsOnce(World([], 0), events, pid);
  }

  lemma RunFirst(w: World, e: Event, rest: seq<Event>)
    ensures Run(w, [e] + rest) == Run(Step(w, e), rest)
  {
    assert ([e] + rest)[1..] == rest;
  }

  /** Without the condition a process comes back to life, here in a run from boot on: it exits, is still
      the current one when a process is created, and becomes running when that one exits. */
  lemma Revived()
    ensures var exited := Run(World([], 0), [Created(true), MadeCurrent(1), Ended(1, 7)]);
      && Kept(exited) && exited.Is(1, Exited) && !CleanParent(exited, Created(true))
      && Run(exited, [Created(true), Ended(2, 0)]).Is(1, Running)
  {
    var created := World([Entry(Running, 0, 0, false, -1)], 0);
    assert Create(World([], 0), true).entries == created.entries;
    var exited := World([Entry(Exited, 7, 0, false, -1)], 1);
    assert Exit(created.(current := 1), 1, 7).entries == exited.entries;
    RunFirst(World([], 0), Created(true), [MadeCurrent(1), Ended(1, 7)]);
    RunFirst(created, MadeCurrent(1), [Ended(1, 7)]);
    RunFirst(created.(current := 1), Ended(1, 7), []);
    assert Run(World([], 0), [Created(true), MadeCurrent(1), Ended(1, 7)]) == exited by {
      assert [Created(true)] + [MadeCurrent(1), Ended(1, 7)] == [Created(true), MadeCurrent(1), Ended(1, 7)];
      assert [MadeCurrent(1)] + [Ended(1, 7)] == [MadeCurrent(1), Ended(1, 7)];
      assert [Ended(1, 7)] + [] == [Ended(1, 7)];
    }
    var child := World([exited.entries[0], Entry(Running, 0, 1, false, -1)], 1);
    assert Create(exited, true).entries == child.entries;
    RunFirst(exited, Created(true), [Ended(2, 0)]);
    RunFirst(child, Ended(2, 0), []);
    assert [Created(true)] + [Ended(2, 0)] == [Created(true), Ended(2, 0)] && [Ended(2, 0)] + [] == [Ended(2, 0)];
  }
}
