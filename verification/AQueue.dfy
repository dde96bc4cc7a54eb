/**
 The lock-protected content of the "as soon as possible" queue, and the critical sections that
 change it: constructing and destroying a locker, adding a task, and the two ends of TakeCall.

 A task kind is a bit mask in the source; here it is the set of its bit positions, so `|` is union,
 `-` is set difference, IsEnumContains is inclusion and IsEnumContainsAny is overlap.
*/
module AQueue {
  import opened Wrappers

  type Kind = set<nat>
  type Thread = nat
  type Task = int

  const EMPTY: Kind := {}
  const GET: Kind := {0}
  const DENY_GET: Kind := {0, 1}
  const SET: Kind := {0, 1, 2}
  const SEND: Kind := {4}
  const RECV: Kind := {5}

  datatype WorkerState = Sleeping | Ringing | Working

  /** What the mutex protects, plus `calls`: the calls of TakeCall that MakeCallForWork has asked
      for and that no thread has made yet. */
  datatype Content = Content(working: Kind, getters: nat, tasks: seq<Task>,
                             worker: WorkerState, taker: Option<Thread>, calls: nat)

  const INITIAL := Content(EMPTY, 0, [], Sleeping, None, 0)

  // ---- The critical sections as functions on the content ----

  predicate Grants(c: Content, kind: Kind) {
    && c.taker.None?
    && c.tasks == []
    && if kind == GET then !(DENY_GET <= c.working) else c.working * kind == {}
  }

  /** The content after CheckAndSet: a second getter only counts, every other grant also sets the bits. */
  function Granted(c: Content, kind: Kind): Content
    requires Grants(c, kind)
  {
    if kind == GET then
      if c.getters + 1 > 1 then c.(getters := c.getters + 1)
      else c.(getters := c.getters + 1, working := c.working + kind)
    else c.(working := c.working + kind)
  }

  /** The content after ClearTaskKind, and whether no kind is at work any more. */
  function Cleared(c: Content, kind: Kind): (Content, bool)
    requires kind == GET ==> c.getters > 0
  {
    if kind == GET && c.getters - 1 > 0 then (c.(getters := c.getters - 1), false)
    else
      var d := if kind == GET then c.(getters := c.getters - 1) else c;
      var e := d.(working := d.working - kind);
      (e, e.working == EMPTY)
  }

  /** AfterAddTask: wake the worker when it sleeps and no in-place work is going on. */
  function Rung(c: Content): Content {
    if c.working == EMPTY && c.worker == Sleeping then c.(worker := Ringing, calls := c.calls + 1) else c
  }

  datatype Locker = Locker(thread: Thread, kind: Kind, inTaking: bool, allowed: bool)

  function LockerMade(c: Content, me: Thread, kind: Kind): (Content, Locker) {
    if c.taker == Some(me) then (c, Locker(me, kind, true, true))
    else if Grants(c, kind) then (Granted(c, kind), Locker(me, kind, false, true))
    else (c, Locker(me, kind, false, false))
  }

  function LockerGone(c: Content, l: Locker): Content
    requires l.allowed && !l.inTaking && l.kind == GET ==> c.getters > 0
  {
    if l.allowed then
      if l.inTaking then c
      else
        var (d, idle) := Cleared(c, l.kind);
        if idle && d.tasks != [] then Rung(d) else d
    else if c.tasks != [] then Rung(c) else c
  }

  function TaskAdded(c: Content, t: Task): Content {
    Rung(c.(tasks := c.tasks + [t]))
  }

  predicate CanTake(c: Content) {
    c.working == EMPTY && c.taker.None?
  }

  function TakeBegun(c: Content, me: Thread): Content
    requires CanTake(c)
  {
    c.(tasks := [], taker := Some(me), worker := Working)
  }

  function TakeEnded(c: Content): Content {
    if c.tasks == [] then c.(taker := None, worker := Sleeping)
    else c.(taker := None, worker := Ringing, calls := c.calls + 1)
  }

  /** The tasks that running `ts` one after the other puts back into the queue. */
  function FollowUps(f: Task -> seq<Task>, ts: seq<Task>): seq<Task> {
    if ts == [] then [] else FollowUps(f, ts[..|ts| - 1]) + f(ts[|ts| - 1])
  }

  // ---- The object ----

  class Queue {
    var workingTaskKind: Kind
    var countGetter: nat
    var tasks: seq<Task>
    var worker: WorkerState
    var takingThread: Option<Thread>
    var calls: nat
    /** The tasks handed to the invoker so far, oldest first. */
    var invoked: seq<Task>

    function View(): Content
      reads this
    {
      Content(workingTaskKind, countGetter, tasks, worker, takingThread, calls)
    }

    constructor ()
      ensures View() == INITIAL && invoked == []
    {
      workingTaskKind, countGetter, tasks := EMPTY, 0, [];
      worker, takingThread, calls, invoked := Sleeping, None, 0, [];
    }

    method CheckAndSet(kind: Kind) returns (ok: bool)
      modifies this
      ensures ok == old(Grants(View(), kind))
      ensures View() == if ok then old(Granted(View(), kind)) else old(View())
      ensures invoked == old(invoked)
    {
      if takingThread.Some? || tasks != [] {
        return false;
      }
      if kind == GET {
        if DENY_GET <= workingTaskKind {
          return false;
        }
        countGetter := countGetter + 1;
        if countGetter > 1 {
          return true;
        }
      } else if workingTaskKind * kind != {} {
        return false;
      }
      workingTaskKind := workingTaskKind + kind;
      return true;
    }

    method ClearTaskKind(kind: Kind) returns (idle: bool)
      requires kind == GET ==> countGetter > 0
      modifies this
      ensures (View(), idle) == old(Cleared(View(), kind))
      ensures invoked == old(invoked)
    {
      if kind == GET {
        countGetter := countGetter - 1;
        if countGetter > 0 {
          return false;
        }
      }
      workingTaskKind := workingTaskKind - kind;
      return workingTaskKind == EMPTY;
    }

    method SetToRinging() returns (woken: bool)
      modifies this`worker
      ensures woken == (old(worker) == Sleeping)
      ensures worker == if woken then Ringing else old(worker)
    {
      if worker == Sleeping {
        worker := Ringing;
        return true;
      }
      return false;
    }

    method AfterAddTask()
      modifies this`worker, this`calls
      ensures View() == old(Rung(View()))
    {
      if workingTaskKind == EMPTY {
        var woken := SetToRinging();
        if woken {
          calls := calls + 1;
        }
      }
    }

    method AddTask(t: Task)
      modifies this
      ensures View() == old(TaskAdded(View(), t)) && invoked == old(invoked)
    {
      tasks := tasks + [t];
      AfterAddTask();
    }

    method MakeLocker(me: Thread, kind: Kind) returns (l: Locker)
      modifies this
      ensures (View(), l) == old(LockerMade(View(), me, kind)) && invoked == old(invoked)
    {
      var inTaking := takingThread == Some(me);
      var allowed := inTaking;
      if !inTaking {
        allowed := CheckAndSet(kind);
      }
      l := Locker(me, kind, inTaking, allowed);
    }

    method DropLocker(l: Locker)
      requires l.allowed && !l.inTaking && l.kind == GET ==> countGetter > 0
      modifies this
      ensures View() == old(LockerGone(View(), l)) && invoked == old(invoked)
    {
      if l.allowed {
        if l.inTaking {
          return;
        }
        var idle := ClearTaskKind(l.kind);
        if idle && tasks != [] {
          AfterAddTask();
        }
      } else if tasks != [] {
        AfterAddTask();
      }
    }

    /** TakeCall on thread `me`, when the only activity meanwhile is that of the invoked tasks
        themselves: each task t adds the tasks f(t) while it runs. Interference by other threads
        is the subject of AQueueRuns. */
    method TakeCall(me: Thread, f: Task -> seq<Task>)
      modifies this
      ensures !old(CanTake(View())) ==> View() == old(View()) && invoked == old(invoked)
      ensures old(CanTake(View())) ==>
                && invoked == old(invoked + tasks)
                && View() == TakeEnded(old(TakeBegun(View(), me)).(tasks := FollowUps(f, old(tasks))))
    {
      if workingTaskKind != EMPTY || takingThread.Some? {
        return;
      }
      var batch := tasks;
      tasks := [];
      takingThread := Some(me);
      worker := Working;
      for i := 0 to |batch|
        invariant tasks == FollowUps(f, batch[..i])
        invariant invoked == old(invoked) + batch[..i]
        invariant View() == old(TakeBegun(View(), me)).(tasks := tasks)
      {
        assert batch[..i + 1][..i] == batch[..i];
        invoked := invoked + [batch[i]];
        var added := f(batch[i]);
        for j := 0 to |added|
          invariant tasks == FollowUps(f, batch[..i]) + added[..j]
          invariant invoked == old(invoked) + batch[..i + 1]
          invariant View() == old(TakeBegun(View(), me)).(tasks := tasks)
        {
          AddTask(added[j]);
        }
      }
      assert batch[..|batch|] == batch;
      takingThread := None;
      if tasks == [] {
        worker := Sleeping;
      } else {
        worker := Ringing;
        calls := calls + 1;
      }
    }
  }
}
