/**
 Runs of the queue under any number of threads. A step is one critical section of one thread, or the
 end of one invoked task; between two steps any other thread may take its own. A locker keeps the
 mutex from its construction until it is unlocked or destroyed, so a step that needs the mutex is
 enabled only while nobody keeps it.

 Two things come from C++ rather than from the queue: lockers constructed while a task is being
 invoked are gone when that invocation returns (they are automatic variables), and a locker that may
 not run in place can only give the mutex up by being destroyed (UnlockForInplace demands
 IsAllowInplace_).
*/
module AQueueRuns {
  import opened Wrappers
  import opened AQueue

  type LockerId = nat

  /** `batch` is what the running TakeCall still has to invoke, the running one first;
      `added` and `invoked` record every task ever queued and every finished invocation. */
  datatype State = State(c: Content, lockers: map<LockerId, Locker>, mutex: Option<LockerId>,
                         batch: seq<Task>, added: seq<Task>, invoked: seq<Task>)

  datatype Step =
    | MakeLocker(id: LockerId, me: Thread, kind: Kind)
    | Unlock(id: LockerId)
    | Relock(id: LockerId)
    | AddAsync(id: LockerId, t: Task)
    | DropLocker(id: LockerId)
    | AddTask(t: Task)
    | TakeCall(me: Thread, asked: bool)
    | TaskDone
    | TakeEnd

  const START := State(INITIAL, map[], None, [], [], [])

  /** Holds the right to run in place outside the taking thread. */
  predicate IsHolder(l: Locker) {
    l.allowed && !l.inTaking
  }

  predicate NoNestedLocker(s: State) {
    forall id <- s.lockers :: !s.lockers[id].inTaking
  }

  predicate Enabled(s: State, step: Step) {
    match step
    case MakeLocker(id, _, _) => s.mutex.None? && id !in s.lockers
    case Unlock(id) => s.mutex == Some(id) && id in s.lockers && s.lockers[id].allowed
    case Relock(id) => s.mutex.None? && id in s.lockers
    case AddAsync(id, _) => s.mutex == Some(id) && id in s.lockers
    case DropLocker(id) =>
      && id in s.lockers
      && (s.mutex == Some(id) || s.mutex.None? || s.lockers[id].inTaking)
      && (IsHolder(s.lockers[id]) && s.lockers[id].kind == GET ==> s.c.getters > 0)
    case AddTask(_) => s.mutex.None?
    case TakeCall(_, asked) => s.mutex.None? && (asked ==> s.c.calls > 0)
    case TaskDone => s.c.taker.Some? && s.batch != [] && NoNestedLocker(s)
    case TakeEnd => s.mutex.None? && s.c.taker.Some? && s.batch == [] && NoNestedLocker(s)
  }

  function Next(s: State, step: Step): State
    requires Enabled(s, step)
  {
    match step
    case MakeLocker(id, me, kind) =>
      var (c, l) := LockerMade(s.c, me, kind);
      s.(c := c, lockers := s.lockers[id := l], mutex := Some(id))
    case Unlock(_) => s.(mutex := None)
    case Relock(id) => s.(mutex := Some(id))
    case AddAsync(_, t) => s.(c := s.c.(tasks := s.c.tasks + [t]), added := s.added + [t])
    case DropLocker(id) =>
      s.(c := LockerGone(s.c, s.lockers[id]), lockers := s.lockers - {id},
         mutex := if s.mutex == Some(id) then None else s.mutex)
    case AddTask(t) => s.(c := TaskAdded(s.c, t), added := s.added + [t])
    case TakeCall(me, asked) =>
      var c := if asked then s.c.(calls := s.c.calls - 1) else s.c;
      if CanTake(c) then s.(c := TakeBegun(c, me), batch := c.tasks) else s.(c := c)
    case TaskDone => s.(batch := s.batch[1..], invoked := s.invoked + [s.batch[0]])
    case TakeEnd => s.(c := TakeEnded(s.c))
  }

  /** The state after `steps`, or None when some step is not enabled where it is taken. */
  function Exec(s: State, steps: seq<Step>): Option<State> {
    if steps == [] then Some(s)
    else match Exec(s, steps[..|steps| - 1])
      case None => None
      case Some(t) =>
        var step := steps[|steps| - 1];
        if Enabled(t, step) then Some(Next(t, step)) else None
  }

  /** Every locker of the run asks for a kind in `kinds`. */
  predicate UsesOnly(kinds: set<Kind>, steps: seq<Step>) {
    forall step <- steps :: step.MakeLocker? ==> step.kind in kinds
  }

  // ---- What every step keeps, whatever kinds are used ----

  function Getters(m: map<LockerId, Locker>): set<LockerId> {
    set id | id in m && IsHolder(m[id]) && m[id].kind == GET
  }

  ghost predicate Owned(m: map<LockerId, Locker>, bit: nat) {
    exists id :: id in m && IsHolder(m[id]) && bit in m[id].kind
  }

  predicate HasHolder(m: map<LockerId, Locker>) {
    exists id <- m :: IsHolder(m[id])
  }

  ghost predicate KeysMatch(s: State) {
    && (s.mutex.Some? ==> s.mutex.value in s.lockers)
    && (forall id <- s.lockers :: !s.lockers[id].allowed ==> s.mutex == Some(id))
    && (forall id <- s.lockers :: s.lockers[id].inTaking ==> s.lockers[id].allowed && s.c.taker == Some(s.lockers[id].thread))
  }

  ghost predicate BitsMatch(s: State) {
    && s.c.getters == |Getters(s.lockers)|
    && (forall bit <- s.c.working :: Owned(s.lockers, bit))
  }

  ghost predicate WorkerMatch(s: State) {
    && (s.c.worker == Working <==> s.c.taker.Some?)
    && (s.c.taker.None? ==> s.batch == [])
    && (s.c.taker.Some? ==> s.c.working == EMPTY)
    && (s.c.worker == Ringing ==> s.c.tasks != [] && s.c.working == EMPTY && s.c.calls > 0)
    && (s.c.worker == Sleeping && s.c.tasks != [] ==> s.mutex.Some? || HasHolder(s.lockers))
  }

  ghost predicate Inv(s: State) {
    && KeysMatch(s)
    && BitsMatch(s)
    && WorkerMatch(s)
    && s.added == s.invoked + s.batch + s.c.tasks
  }

  lemma GettersAdd(m: map<LockerId, Locker>, id: LockerId, l: Locker)
    requires id !in m
    ensures |Getters(m[id := l])| == |Getters(m)| + (if IsHolder(l) && l.kind == GET then 1 else 0)
  {
    assert Getters(m[id := l]) == Getters(m) + (if IsHolder(l) && l.kind == GET then {id} else {});
  }

  lemma GettersDrop(m: map<LockerId, Locker>, id: LockerId)
    requires id in m
    ensures |Getters(m - {id})| == |Getters(m)| - (if IsHolder(m[id]) && m[id].kind == GET then 1 else 0)
  {
    assert Getters(m - {id}) == Getters(m) - {id};
  }

  lemma OwnedStays(m: map<LockerId, Locker>, m': map<LockerId, Locker>, gone: LockerId, bit: nat)
    requires Owned(m, bit)
    requires forall i <- m | i != gone :: i in m' && m'[i] == m[i]
    requires gone in m ==> !(IsHolder(m[gone]) && bit in m[gone].kind)
    ensures Owned(m', bit)
  {
    var o :| o in m && IsHolder(m[o]) && bit in m[o].kind;
    assert o != gone;
  }

  lemma MakeLockerKeepsBits(s: State, id: LockerId, me: Thread, kind: Kind)
    requires Inv(s) && Enabled(s, MakeLocker(id, me, kind))
    ensures BitsMatch(Next(s, MakeLocker(id, me, kind)))
  {
    var s' := Next(s, MakeLocker(id, me, kind));
    var l := s'.lockers[id];
    GettersAdd(s.lockers, id, l);
    forall bit | bit in s'.c.working ensures Owned(s'.lockers, bit) {
      if bit in s.c.working {
        OwnedStays(s.lockers, s'.lockers, id, bit);
      } else {
        assert IsHolder(l) && bit in l.kind;
      }
    }
  }

  lemma MakeLockerKeepsInv(s: State, id: LockerId, me: Thread, kind: Kind)
    requires Inv(s) && Enabled(s, MakeLocker(id, me, kind))
    ensures Inv(Next(s, MakeLocker(id, me, kind)))
  {
    MakeLockerKeepsBits(s, id, me, kind);
  }

  lemma DropLockerKeepsBits(s: State, id: LockerId)
    requires Inv(s) && Enabled(s, DropLocker(id))
    ensures BitsMatch(Next(s, DropLocker(id)))
  {
    var s' := Next(s, DropLocker(id));
    var l := s.lockers[id];
    GettersDrop(s.lockers, id);
    forall bit | bit in s'.c.working ensures Owned(s'.lockers, bit) {
      if IsHolder(l) && bit in l.kind {
        assert |Getters(s'.lockers)| > 0;
        var o: LockerId :| o in Getters(s'.lockers);
        assert bit in s'.lockers[o].kind;
      } else {
        OwnedStays(s.lockers, s'.lockers, id, bit);
      }
    }
  }

  lemma BitsNeedHolder(s: State)
    requires BitsMatch(s) && (s.c.working != EMPTY || s.c.getters > 0)
    ensures HasHolder(s.lockers)
  {
    if s.c.getters > 0 {
      var id: LockerId :| id in Getters(s.lockers);
      assert IsHolder(s.lockers[id]);
    } else {
      var bit :| bit in s.c.working;
      assert Owned(s.lockers, bit);
    }
  }

  /** A locker that goes leaves the queue, and wakes the worker only if it sleeps, no in-place work goes on
      and there are tasks. */
  lemma GoneChanges(c: Content, l: Locker)
    requires IsHolder(l) && l.kind == GET ==> c.getters > 0
    ensures var c' := LockerGone(c, l);
            && c'.tasks == c.tasks && c'.taker == c.taker && c.calls <= c'.calls && c'.working <= c.working
            && (c'.worker == c.worker
                || (c.worker == Sleeping && c'.worker == Ringing && c.tasks != [] && c'.working == EMPTY && c'.calls > 0))
            && (c'.worker == Sleeping && c.tasks != [] && (IsHolder(l) || c.worker != Sleeping) ==> c'.working != EMPTY || c'.getters > 0)
  {
  }

  lemma DropLockerKeepsWorker(s: State, id: LockerId)
    requires Inv(s) && Enabled(s, DropLocker(id))
    ensures WorkerMatch(Next(s, DropLocker(id)))
  {
    DropLockerKeepsBits(s, id);
    var s' := Next(s, DropLocker(id));
    if s'.c.working != EMPTY || s'.c.getters > 0 {
      BitsNeedHolder(s');
    } else if HasHolder(s.lockers) && !IsHolder(s.lockers[id]) {
      var o :| o in s.lockers && IsHolder(s.lockers[o]);
      assert s'.lockers[o] == s.lockers[o];
    }
  }

  lemma DropLockerKeepsKeys(s: State, id: LockerId)
    requires KeysMatch(s) && Enabled(s, DropLocker(id))
    ensures KeysMatch(Next(s, DropLocker(id)))
  {
    GoneChanges(s.c, s.lockers[id]);
  }

  lemma DropLockerKeepsInv(s: State, id: LockerId)
    requires Inv(s) && Enabled(s, DropLocker(id))
    ensures Inv(Next(s, DropLocker(id)))
  {
    DropLockerKeepsKeys(s, id);
    DropLockerKeepsBits(s, id);
    DropLockerKeepsWorker(s, id);
    GoneChanges(s.c, s.lockers[id]);
  }

  lemma StepKeepsInv(s: State, step: Step)
    requires Inv(s) && Enabled(s, step)
    ensures Inv(Next(s, step))
  {
    match step
    case MakeLocker(id, me, kind) => MakeLockerKeepsInv(s, id, me, kind);
    case DropLocker(id) => DropLockerKeepsInv(s, id);
    case TaskDone =>
      assert s.batch == [s.batch[0]] + s.batch[1..];
    case Unlock(id) =>
      if !s.lockers[id].inTaking {
        assert IsHolder(s.lockers[id]);
      }
    case Relock(_) =>
    case AddAsync(_, _) =>
    case AddTask(_) =>
    case TakeCall(_, _) =>
    case TakeEnd =>
  }

  /** Every state of every run satisfies the invariant, for any kinds at all. */
  lemma {:induction false} RunKeepsInv(steps: seq<Step>)
    requires Exec(START, steps).Some?
    ensures Inv(Exec(START, steps).value)
  {
    if steps != [] {
      RunKeepsInv(steps[..|steps| - 1]);
      StepKeepsInv(Exec(START, steps[..|steps| - 1]).value, steps[|steps| - 1]);
    }
  }

  // ---- No lost wakeup ----

  /** Queued tasks with the mutex free always have somebody committed to look at them: a TakeCall
      already asked for that will not be turned away, a running TakeCall, or a live in-place holder. */
  lemma NoLostWakeup(steps: seq<Step>)
    requires Exec(START, steps).Some?
    ensures var s := Exec(START, steps).value;
            s.c.tasks != [] && s.mutex.None? ==>
              || (s.c.worker == Ringing && s.c.calls > 0 && CanTake(s.c))
              || s.c.taker.Some?
              || HasHolder(s.lockers)
  {
    RunKeepsInv(steps);
  }

  // ---- Exactly once, in order ----

  /** Finished invocations, then the rest of the batch, then the queue: that is every task ever
      added, in order; and in-place work outside the taking thread is let in only when every task
      added so far has been invoked to its end. */
  lemma InOrderExactlyOnce(steps: seq<Step>, id: LockerId, me: Thread, kind: Kind)
    requires Exec(START, steps).Some?
    ensures var s := Exec(START, steps).value;
            && s.added == s.invoked + s.batch + s.c.tasks
            && (Enabled(s, MakeLocker(id, me, kind)) && IsHolder(LockerMade(s.c, me, kind).1) ==> s.invoked == s.added)
  {
    RunKeepsInv(steps);
  }

  // ---- Exclusion ----

  /** Two holders may coexist when both only get, or when they share no bit. */
  predicate Compatible(k1: Kind, k2: Kind) {
    (k1 == GET && k2 == GET) || k1 * k2 == {}
  }

  ghost predicate Exclusive(s: State) {
    && (forall i <- s.lockers, j <- s.lockers | i != j && IsHolder(s.lockers[i]) && IsHolder(s.lockers[j]) ::
          Compatible(s.lockers[i].kind, s.lockers[j].kind))
    && (s.c.taker.Some? ==> forall i <- s.lockers :: !IsHolder(s.lockers[i]))
  }

  /** A kind that exclusion can rely on: not empty, and if it has the bit of Get and plain getters
      are also used, it is Get itself or it denies getters. */
  predicate Sound(kinds: set<Kind>, kind: Kind) {
    && kind != EMPTY
    && (GET in kinds && 0 in kind ==> kind == GET || 1 in kind)
  }

  ghost predicate SoundInv(kinds: set<Kind>, s: State) {
    && Inv(s)
    && Exclusive(s)
    && (forall i <- s.lockers :: s.lockers[i].kind in kinds)
    && (forall i <- s.lockers | IsHolder(s.lockers[i]) :: s.lockers[i].kind <= s.c.working)
  }

  lemma TwoGetters(m: map<LockerId, Locker>, i: LockerId, j: LockerId)
    requires i != j && i in Getters(m) && j in Getters(m)
    ensures |Getters(m)| >= 2
  {
    SubsetSize({i, j}, Getters(m));
  }

  lemma DropKeepsOther(s: State, id: LockerId, i: LockerId)
    requires Inv(s) && Exclusive(s) && Enabled(s, DropLocker(id)) && i in s.lockers && i != id
    requires IsHolder(s.lockers[i]) && s.lockers[i].kind <= s.c.working
    ensures s.lockers[i].kind <= Next(s, DropLocker(id)).c.working
  {
    var l := s.lockers[id];
    if IsHolder(l) {
      assert Compatible(s.lockers[i].kind, l.kind);
      if l.kind == GET && s.lockers[i].kind == GET {
        TwoGetters(s.lockers, i, id);
      } else {
        OutsideDifference(s.lockers[i].kind, s.c.working, l.kind);
      }
    }
  }

  lemma OutsideDifference(a: Kind, working: Kind, b: Kind)
    requires a <= working && a * b == {}
    ensures a <= working - b
  {
    forall bit <- a
      ensures bit !in b
    {
      assert bit !in a * b;
    }
  }

  lemma {:induction false} SubsetSize<T>(a: set<T>, b: set<T>)
    requires a <= b
    ensures |a| <= |b|
  {
    assert b == a + (b - a);
    assert |a + (b - a)| == |a| + |b - a|;
  }

  lemma GrantIsCompatible(kinds: set<Kind>, c: Content, k: Kind, kind: Kind)
    requires Sound(kinds, k) && k in kinds && k <= c.working
    requires Sound(kinds, kind) && kind in kinds && Grants(c, kind)
    ensures Compatible(k, kind) && k <= Granted(c, kind).working
  {
    assert 0 in k && 1 in k ==> DENY_GET <= k;
  }

  lemma MakeKeepsExclusive(kinds: set<Kind>, s: State, id: LockerId, me: Thread, kind: Kind)
    requires forall k <- kinds :: Sound(kinds, k)
    requires SoundInv(kinds, s) && kind in kinds && Enabled(s, MakeLocker(id, me, kind))
    ensures Exclusive(Next(s, MakeLocker(id, me, kind)))
  {
    var s' := Next(s, MakeLocker(id, me, kind));
    forall i, j | i in s'.lockers && j in s'.lockers && i != j && IsHolder(s'.lockers[i]) && IsHolder(s'.lockers[j])
      ensures Compatible(s'.lockers[i].kind, s'.lockers[j].kind)
    {
      if i == id {
        GrantIsCompatible(kinds, s.c, s.lockers[j].kind, kind);
      } else if j == id {
        GrantIsCompatible(kinds, s.c, s.lockers[i].kind, kind);
      } else {
        assert Compatible(s.lockers[i].kind, s.lockers[j].kind);
      }
    }
  }

  lemma GrantSetsKind(s: State, kind: Kind)
    requires Inv(s) && Grants(s.c, kind)
    requires forall i <- s.lockers | IsHolder(s.lockers[i]) :: s.lockers[i].kind <= s.c.working
    ensures kind <= Granted(s.c, kind).working
  {
    if kind == GET && s.c.getters > 0 {
      var o: LockerId :| o in Getters(s.lockers);
      assert s.lockers[o].kind <= s.c.working;
    }
  }

  lemma MakeKeepsCovered(s: State, id: LockerId, me: Thread, kind: Kind)
    requires Inv(s) && Enabled(s, MakeLocker(id, me, kind))
    requires forall i <- s.lockers | IsHolder(s.lockers[i]) :: s.lockers[i].kind <= s.c.working
    ensures var s' := Next(s, MakeLocker(id, me, kind));
            forall i <- s'.lockers | IsHolder(s'.lockers[i]) :: s'.lockers[i].kind <= s'.c.working
  {
    if s.c.taker != Some(me) && Grants(s.c, kind) {
      GrantSetsKind(s, kind);
    }
  }

  lemma MakeKeepsSound(kinds: set<Kind>, s: State, id: LockerId, me: Thread, kind: Kind)
    requires forall k <- kinds :: Sound(kinds, k)
    requires SoundInv(kinds, s) && kind in kinds && Enabled(s, MakeLocker(id, me, kind))
    ensures SoundInv(kinds, Next(s, MakeLocker(id, me, kind)))
  {
    MakeKeepsExclusive(kinds, s, id, me, kind);
    MakeLockerKeepsInv(s, id, me, kind);
    MakeKeepsCovered(s, id, me, kind);
  }

  lemma DropKeepsExclusive(s: State, id: LockerId)
    requires Exclusive(s) && Enabled(s, DropLocker(id))
    ensures Exclusive(Next(s, DropLocker(id)))
  {
    var s' := Next(s, DropLocker(id));
    assert forall i <- s'.lockers :: i in s.lockers && s'.lockers[i] == s.lockers[i];
    forall i, j | i in s'.lockers && j in s'.lockers && i != j && IsHolder(s'.lockers[i]) && IsHolder(s'.lockers[j])
      ensures Compatible(s'.lockers[i].kind, s'.lockers[j].kind)
    {
      assert Compatible(s.lockers[i].kind, s.lockers[j].kind);
    }
  }

  lemma DropKeepsSound(kinds: set<Kind>, s: State, id: LockerId)
    requires SoundInv(kinds, s) && Enabled(s, DropLocker(id))
    ensures SoundInv(kinds, Next(s, DropLocker(id)))
  {
    DropLockerKeepsInv(s, id);
    var s' := Next(s, DropLocker(id));
    assert forall i <- s'.lockers :: i in s.lockers && s'.lockers[i] == s.lockers[i];
    DropKeepsExclusive(s, id);
    forall i | i in s'.lockers && IsHolder(s'.lockers[i]) ensures s'.lockers[i].kind <= s'.c.working {
      DropKeepsOther(s, id, i);
    }
  }

  lemma TakeKeepsSound(kinds: set<Kind>, s: State, me: Thread, asked: bool)
    requires forall k <- kinds :: Sound(kinds, k)
    requires SoundInv(kinds, s) && Enabled(s, TakeCall(me, asked))
    ensures SoundInv(kinds, Next(s, TakeCall(me, asked)))
  {
    StepKeepsInv(s, TakeCall(me, asked));
    if CanTake(s.c) {
      forall i | i in s.lockers ensures !IsHolder(s.lockers[i]) {
        assert Sound(kinds, s.lockers[i].kind);
      }
    }
  }

  lemma SoundStep(kinds: set<Kind>, s: State, step: Step)
    requires forall k <- kinds :: Sound(kinds, k)
    requires SoundInv(kinds, s) && Enabled(s, step)
    requires step.MakeLocker? ==> step.kind in kinds
    ensures SoundInv(kinds, Next(s, step))
  {
    match step
    case MakeLocker(id, me, kind) => MakeKeepsSound(kinds, s, id, me, kind);
    case DropLocker(id) => DropKeepsSound(kinds, s, id);
    case TakeCall(me, asked) => TakeKeepsSound(kinds, s, me, asked);
    case _ => StepKeepsInv(s, step);
  }

  lemma {:induction false} SoundRun(kinds: set<Kind>, steps: seq<Step>)
    requires forall k <- kinds :: Sound(kinds, k)
    requires UsesOnly(kinds, steps) && Exec(START, steps).Some?
    ensures SoundInv(kinds, Exec(START, steps).value)
  {
    if steps != [] {
      SoundRun(kinds, steps[..|steps| - 1]);
      SoundStep(kinds, Exec(START, steps[..|steps| - 1]).value, steps[|steps| - 1]);
    }
  }

  ghost predicate AlwaysExclusive(kinds: set<Kind>) {
    forall steps | UsesOnly(kinds, steps) && Exec(START, steps).Some? :: Exclusive(Exec(START, steps).value)
  }

  lemma ExecPush(s: State, steps: seq<Step>, step: Step)
    requires Exec(s, steps).Some? && Enabled(Exec(s, steps).value, step)
    ensures Exec(s, steps + [step]) == Some(Next(Exec(s, steps).value, step))
  {
    assert (steps + [step])[..|steps + [step]| - 1] == steps;
  }

  /** The empty kind sets no bit, so TakeCall starts a batch beside its holder. */
  lemma EmptyKindBreaks(kinds: set<Kind>)
    requires EMPTY in kinds
    ensures !AlwaysExclusive(kinds)
  {
    var s1 := Next(START, MakeLocker(0, 1, EMPTY));
    var s2 := Next(s1, Unlock(0));
    var s3 := Next(s2, TakeCall(2, false));
    ExecPush(START, [], MakeLocker(0, 1, EMPTY));
    ExecPush(START, [MakeLocker(0, 1, EMPTY)], Unlock(0));
    ExecPush(START, [MakeLocker(0, 1, EMPTY), Unlock(0)], TakeCall(2, false));
    var run := [MakeLocker(0, 1, EMPTY), Unlock(0)] + [TakeCall(2, false)];
    assert [] + [MakeLocker(0, 1, EMPTY)] == [MakeLocker(0, 1, EMPTY)];
    assert [MakeLocker(0, 1, EMPTY)] + [Unlock(0)] == [MakeLocker(0, 1, EMPTY), Unlock(0)];
    assert Exec(START, run) == Some(s3);
    assert IsHolder(s3.lockers[0]) && s3.c.taker.Some?;
    assert UsesOnly(kinds, run);
  }

  /** A kind with the bit of Get that neither is Get nor denies it lets a getter in beside it. */
  lemma HalfGetBreaks(kinds: set<Kind>, kind: Kind)
    requires kind in kinds && GET in kinds && 0 in kind && kind != GET && 1 !in kind
    ensures !AlwaysExclusive(kinds)
  {
    var m1, m2, m3 := MakeLocker(0, 1, kind), Unlock(0), MakeLocker(1, 2, GET);
    var s1 := Next(START, m1);
    var s2 := Next(s1, m2);
    assert s2.c.working == kind;
    var s3 := Next(s2, m3);
    ExecPush(START, [], m1);
    ExecPush(START, [m1], m2);
    ExecPush(START, [m1, m2], m3);
    var run := [m1, m2] + [m3];
    assert [] + [m1] == [m1];
    assert [m1] + [m2] == [m1, m2];
    assert Exec(START, run) == Some(s3);
    assert 0 in s3.lockers && 1 in s3.lockers && IsHolder(s3.lockers[0]) && IsHolder(s3.lockers[1]);
    assert 0 in s3.lockers[0].kind * s3.lockers[1].kind;
    assert UsesOnly(kinds, run);
  }

  /** Exclusion holds in every run over a set of kinds if and only if every one of them is sound. */
  lemma ExclusionIffSound(kinds: set<Kind>)
    ensures AlwaysExclusive(kinds) <==> forall k <- kinds :: Sound(kinds, k)
  {
    if forall k <- kinds :: Sound(kinds, k) {
      forall steps | UsesOnly(kinds, steps) && Exec(START, steps).Some?
        ensures Exclusive(Exec(START, steps).value)
      {
        SoundRun(kinds, steps);
      }
    } else {
      var k :| k in kinds && !Sound(kinds, k);
      if k == EMPTY {
        EmptyKindBreaks(kinds);
      } else {
        HalfGetBreaks(kinds, k);
      }
    }
  }

  /** The kinds the library declares are sound together; and for sound kinds WorkingTaskKind_ is
      exactly the union of the holders' kinds and CountGetter_ their number of getters. */
  lemma DeclaredKindsExact(steps: seq<Step>)
    requires UsesOnly({GET, DENY_GET, SET, SEND, RECV}, steps) && Exec(START, steps).Some?
    ensures var s := Exec(START, steps).value;
            && Exclusive(s)
            && s.c.getters == |Getters(s.lockers)|
            && (forall bit :: bit in s.c.working <==> Owned(s.lockers, bit))
  {
    SoundRun({GET, DENY_GET, SET, SEND, RECV}, steps);
  }

  // ---- Draining ----

  /** Steps that finish what is already going on: no new locker, no new task, no unasked TakeCall. */
  predicate Finishing(step: Step) {
    step.DropLocker? || step.TaskDone? || step.TakeEnd? || (step.TakeCall? && step.asked)
  }

  function Rank(s: State): nat {
    2 * |s.lockers| + 2 * s.c.calls + (if s.c.taker.Some? then 1 else 0) + |s.batch| + |s.c.tasks|
    + (if s.c.tasks != [] && s.c.worker != Ringing then 2 else 0)
  }

  lemma FinishingLowersRank(s: State, step: Step)
    requires Inv(s) && Enabled(s, step) && Finishing(step)
    ensures Rank(Next(s, step)) < Rank(s)
  {
    match step
    case DropLocker(id) => MapDropSize(s.lockers, id);
    case TaskDone =>
    case TakeEnd =>
    case TakeCall(_, _) =>
  }

  lemma MapDropSize<K, V>(m: map<K, V>, k: K)
    requires k in m
    ensures |m - {k}| == |m| - 1
  {
    assert m.Keys == (m - {k}).Keys + {k};
    assert |m - {k}| == |(m - {k}).Keys| && |m| == |m.Keys|;
  }

  ghost predicate CanFinish(s: State) {
    exists step :: Finishing(step) && Enabled(s, step)
  }

  lemma StuckMeansDrained(s: State)
    requires Inv(s) && !CanFinish(s)
    ensures s.c.tasks == [] && s.batch == [] && s.invoked == s.added && s.lockers == map[]
  {
    if s.lockers != map[] {
      var id :| id in s.lockers;
      var d := if s.mutex.Some? then s.mutex.value else id;
      if IsHolder(s.lockers[d]) && s.lockers[d].kind == GET {
        assert d in Getters(s.lockers);
      }
      assert Finishing(DropLocker(d)) && Enabled(s, DropLocker(d));
    } else if s.c.taker.Some? {
      var step := if s.batch != [] then TaskDone else TakeEnd;
      assert Finishing(step) && Enabled(s, step);
    } else if s.c.calls > 0 {
      assert Finishing(TakeCall(0, true)) && Enabled(s, TakeCall(0, true));
    }
  }

  lemma {:induction false} FinishingBound(s: State, steps: seq<Step>)
    requires Inv(s) && Exec(s, steps).Some? && forall step <- steps :: Finishing(step)
    ensures Inv(Exec(s, steps).value) && |steps| + Rank(Exec(s, steps).value) <= Rank(s)
  {
    if steps != [] {
      var front, last := steps[..|steps| - 1], steps[|steps| - 1];
      FinishingBound(s, front);
      StepKeepsInv(Exec(s, front).value, last);
      FinishingLowersRank(Exec(s, front).value, last);
    }
  }

  /** Once no thread starts anything new, every way of finishing what is going on ends after at most
      Rank steps, and where it can go no further every task ever added has been invoked, once and in
      order, with no TakeCall beyond those MakeCallForWork asked for. */
  lemma EveryFinishDrains(steps: seq<Step>, more: seq<Step>)
    requires Exec(START, steps).Some? && Exec(Exec(START, steps).value, more).Some?
    requires forall step <- more :: Finishing(step)
    ensures var s := Exec(START, steps).value;
            var s' := Exec(s, more).value;
            && |more| <= Rank(s)
            && (!CanFinish(s') ==> s'.invoked == s'.added && s'.lockers == map[])
  {
    RunKeepsInv(steps);
    var s := Exec(START, steps).value;
    FinishingBound(s, more);
    var s' := Exec(s, more).value;
    if !CanFinish(s') {
      StuckMeansDrained(s');
    }
  }
}
