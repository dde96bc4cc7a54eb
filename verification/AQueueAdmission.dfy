/**
 Who is let in: when a locker may run in place, said of the kinds of the lockers that are held, and how
 many calls of TakeCall the queue asks for.
*/
module AQueueAdmission {
  import opened Wrappers
  import opened AQueue
  import opened AQueueRuns

  // ---- Lockers that are let in ----

  /** Nobody takes, and every task added so far has been invoked to its end. */
  predicate Settled(s: State) { s.c.taker.None? && s.invoked == s.added }

  ghost predicate Held(s: State, kind: Kind) {
    exists i :: i in s.lockers && IsHolder(s.lockers[i]) && s.lockers[i].kind == kind
  }

  /** The kind may run beside everything that is held. */
  ghost predicate FitsAll(s: State, kind: Kind) {
    forall k | Held(s, k) :: Compatible(k, kind)
  }

  /** The bits of DenyGet are held, by one locker or by two. */
  ghost predicate GetsDenied(s: State) {
    (exists k :: Held(s, k) && 0 in k) && exists k :: Held(s, k) && 1 in k
  }

  ghost predicate LetIn(s: State, id: LockerId, me: Thread, kind: Kind)
    requires Enabled(s, MakeLocker(id, me, kind))
  {
    Next(s, MakeLocker(id, me, kind)).lockers[id].allowed
  }

  /** Exactly the bits of the kinds that are held are set. */
  lemma BitIsHeld(kinds: set<Kind>, s: State, bit: nat)
    requires SoundInv(kinds, s)
    ensures bit in s.c.working <==> exists k :: Held(s, k) && bit in k
  {
    if bit in s.c.working {
      var i :| i in s.lockers && IsHolder(s.lockers[i]) && bit in s.lockers[i].kind;
      assert Held(s, s.lockers[i].kind);
    }
  }

  lemma SettledIsEmpty(s: State)
    requires Inv(s) && s.c.taker.None?
    ensures s.invoked == s.added <==> s.c.tasks == []
  {
  }

  lemma NoSharedBit(kinds: set<Kind>, s: State, kind: Kind)
    requires SoundInv(kinds, s)
    ensures s.c.working * kind == {} <==> forall k | Held(s, k) :: k * kind == {}
  {
    if s.c.working * kind == {} {
      forall k | Held(s, k)
        ensures k * kind == {}
      {
        assert k <= s.c.working;
      }
    } else {
      var bit :| bit in s.c.working * kind;
      BitIsHeld(kinds, s, bit);
      var k :| Held(s, k) && bit in k;
      assert bit in k * kind;
    }
  }

  /** The kinds that are held let this one in beside them. */
  ghost predicate Allows(s: State, kind: Kind) {
    if kind == GET then !GetsDenied(s) else forall k | Held(s, k) :: k * kind == {}
  }

  lemma AllowsByBits(kinds: set<Kind>, s: State, kind: Kind)
    requires SoundInv(kinds, s)
    ensures Allows(s, kind) <==> if kind == GET then !(DENY_GET <= s.c.working) else s.c.working * kind == {}
  {
    if kind == GET {
      BitIsHeld(kinds, s, 0);
      BitIsHeld(kinds, s, 1);
    } else {
      NoSharedBit(kinds, s, kind);
    }
  }

  lemma GrantsWhenAllowed(kinds: set<Kind>, s: State, kind: Kind)
    requires SoundInv(kinds, s)
    ensures Grants(s.c, kind) <==> Settled(s) && Allows(s, kind)
  {
    AllowsByBits(kinds, s, kind);
    if s.c.taker.None? { SettledIsEmpty(s); }
  }

  /** The taking thread itself is always let in, and changes nothing by that. Anybody else is let in exactly
      when the queue is settled and no kind that is held is in the way: for a getter the two bits of DenyGet,
      for any other kind a bit of its own. */
  lemma LetInIff(kinds: set<Kind>, steps: seq<Step>, id: LockerId, me: Thread, kind: Kind)
    requires forall k <- kinds :: Sound(kinds, k)
    requires UsesOnly(kinds, steps) && Exec(START, steps).Some?
    requires Enabled(Exec(START, steps).value, MakeLocker(id, me, kind))
    ensures var s := Exec(START, steps).value;
            if s.c.taker == Some(me) then
              LetIn(s, id, me, kind) && Next(s, MakeLocker(id, me, kind)).c == s.c
            else
              LetIn(s, id, me, kind) <==> Settled(s) && Allows(s, kind)
  {
    var s := Exec(START, steps).value;
    SoundRun(kinds, steps);
    GrantsWhenAllowed(kinds, s, kind);
    LetInByGrant(s, id, me, kind);
  }

  lemma LetInByGrant(s: State, id: LockerId, me: Thread, kind: Kind)
    requires Enabled(s, MakeLocker(id, me, kind))
    ensures LetIn(s, id, me, kind) <==> s.c.taker == Some(me) || Grants(s.c, kind)
    ensures s.c.taker == Some(me) ==> Next(s, MakeLocker(id, me, kind)).c == s.c
  {
  }

  lemma SplitDeny(kinds: set<Kind>, s: State)
    requires forall k <- kinds :: Sound(kinds, k)
    requires SoundInv(kinds, s) && GET in kinds && forall k <- kinds :: 1 in k ==> 0 in k
    ensures GetsDenied(s) <==> !FitsAll(s, GET)
  {
    if GetsDenied(s) {
      var k :| Held(s, k) && 1 in k;
      assert k in kinds && k != GET && 0 in k * GET;
      assert !Compatible(k, GET);
    }
    if !FitsAll(s, GET) {
      var k :| Held(s, k) && !Compatible(k, GET);
      assert k in kinds && 0 in k;
    }
  }

  lemma FitsIsAllowed(kinds: set<Kind>, s: State, kind: Kind)
    requires forall k <- kinds :: Sound(kinds, k)
    requires SoundInv(kinds, s) && kind in kinds && (GET in kinds ==> forall k <- kinds :: 1 in k ==> 0 in k)
    ensures Allows(s, kind) <==> FitsAll(s, kind)
  {
    if kind == GET { SplitDeny(kinds, s); }
  }

  /** Whoever asks from outside the taking thread is let in if and only if the queue is settled and the kind
      asked for is compatible with every kind that is held. */
  ghost predicate AdmitsAt(kinds: set<Kind>, s: State) {
    forall id: LockerId, me: Thread, kind: Kind |
      kind in kinds && Enabled(s, MakeLocker(id, me, kind)) && s.c.taker != Some(me) ::
        LetIn(s, id, me, kind) <==> Settled(s) && FitsAll(s, kind)
  }

  ghost predicate AdmitsCompatible(kinds: set<Kind>) {
    forall steps | UsesOnly(kinds, steps) && Exec(START, steps).Some? :: AdmitsAt(kinds, Exec(START, steps).value)
  }

  lemma AdmitsOne(kinds: set<Kind>, steps: seq<Step>)
    requires forall k <- kinds :: Sound(kinds, k)
    requires GET in kinds ==> forall k <- kinds :: 1 in k ==> 0 in k
    requires UsesOnly(kinds, steps) && Exec(START, steps).Some?
    ensures AdmitsAt(kinds, Exec(START, steps).value)
  {
    var s := Exec(START, steps).value;
    SoundRun(kinds, steps);
    forall id: LockerId, me: Thread, kind: Kind |
      kind in kinds && Enabled(s, MakeLocker(id, me, kind)) && s.c.taker != Some(me)
      ensures LetIn(s, id, me, kind) <==> Settled(s) && FitsAll(s, kind)
    {
      LetInIff(kinds, steps, id, me, kind);
      FitsIsAllowed(kinds, s, kind);
    }
  }

  /** A getter and, beside it, a locker of another kind that shares no bit with it. */
  lemma TwoLetIn(kind: Kind)
    requires kind != GET && 0 !in kind
    ensures Exec(START, [MakeLocker(0, 1, GET), Unlock(0), MakeLocker(1, 2, kind), Unlock(1)])
         == Some(START.(c := INITIAL.(working := GET + kind, getters := 1),
                        lockers := map[0 := Locker(1, GET, false, true), 1 := Locker(2, kind, false, true)]))
  {
    var m1, m2, m3, m4 := MakeLocker(0, 1, GET), Unlock(0), MakeLocker(1, 2, kind), Unlock(1);
    assert [] + [m1] == [m1] && [m1] + [m2] == [m1, m2] && [m1, m2] + [m3] == [m1, m2, m3];
    assert [m1, m2, m3] + [m4] == [m1, m2, m3, m4];
    var c1, l1 := INITIAL.(working := GET, getters := 1), map[0 := Locker(1, GET, false, true)];
    ExecPush(START, [], m1);
    assert EMPTY + GET == GET && INITIAL.working * GET == {};
    assert Exec(START, [m1]) == Some(START.(c := c1, lockers := l1, mutex := Some(0)));
    ExecPush(START, [m1], m2);
    assert Exec(START, [m1, m2]) == Some(START.(c := c1, lockers := l1));
    assert GET * kind == {};
    ExecPush(START, [m1, m2], m3);
    assert Exec(START, [m1, m2, m3]) == Some(START.(c := c1.(working := GET + kind),
                                                    lockers := l1[1 := Locker(2, kind, false, true)], mutex := Some(1)));
    ExecPush(START, [m1, m2, m3], m4);
  }

  /** A getter beside a kind that has the second bit of DenyGet only: they share no bit, yet together they
      keep the next getter out. */
  lemma SplitDenyRefuses(kinds: set<Kind>, kind: Kind)
    requires GET in kinds && kind in kinds && 1 in kind && 0 !in kind
    ensures !AdmitsCompatible(kinds)
  {
    var run := [MakeLocker(0, 1, GET), Unlock(0), MakeLocker(1, 2, kind), Unlock(1)];
    TwoLetIn(kind);
    var s := Exec(START, run).value;
    assert FitsAll(s, GET) by {
      assert kind * GET == {};
      assert forall k | Held(s, k) :: k == GET || k == kind;
    }
    assert DENY_GET <= s.c.working;
    LetInByGrant(s, 2, 3, GET);
    assert Enabled(s, MakeLocker(2, 3, GET)) && !LetIn(s, 2, 3, GET);
    assert UsesOnly(kinds, run);
    assert !AdmitsAt(kinds, s);
  }

  /** For sound kinds, being compatible is what decides if and only if plain getters are not used or no kind
      has the second bit of DenyGet without the first. */
  lemma AdmissionIff(kinds: set<Kind>)
    requires forall k <- kinds :: Sound(kinds, k)
    ensures AdmitsCompatible(kinds) <==> (GET in kinds ==> forall k <- kinds :: 1 in k ==> 0 in k)
  {
    if GET in kinds ==> forall k <- kinds :: 1 in k ==> 0 in k {
      forall steps | UsesOnly(kinds, steps) && Exec(START, steps).Some?
        ensures AdmitsAt(kinds, Exec(START, steps).value)
      {
        AdmitsOne(kinds, steps);
      }
    } else {
      var k :| k in kinds && 1 in k && 0 !in k;
      SplitDenyRefuses(kinds, k);
    }
  }

  /** The kinds the library declares admit whatever is compatible. */
  lemma DeclaredKindsAdmit()
    ensures AdmitsCompatible({GET, DENY_GET, SET, SEND, RECV})
  {
    AdmissionIff({GET, DENY_GET, SET, SEND, RECV});
  }

  /** A getter beside another getter only counts. */
  lemma SecondGetterOnlyCounts(s: State, id: LockerId, me: Thread)
    requires Enabled(s, MakeLocker(id, me, GET)) && s.c.taker != Some(me) && s.c.getters > 0 && LetIn(s, id, me, GET)
    ensures Next(s, MakeLocker(id, me, GET)).c == s.c.(getters := s.c.getters + 1)
  {
  }

  // ---- What tasks add ----

  /** The tasks that running two batches adds are those of the first and then those of the second; those of
      a single task are what it adds. */
  lemma {:induction false} FollowUpsInOrder(f: Task -> seq<Task>, a: seq<Task>, b: seq<Task>)
    ensures FollowUps(f, a + b) == FollowUps(f, a) + FollowUps(f, b)
    ensures forall t :: FollowUps(f, [t]) == f(t)
    decreases |b|
  {
    forall t
      ensures FollowUps(f, [t]) == f(t)
    {
      assert [t][..0] == [];
      assert [] + f(t) == f(t);
    }
    if b == [] {
      assert a + b == a;
      AppendNothing(FollowUps(f, a));
    } else {
      var n := |b| - 1;
      assert (a + b)[..|a + b| - 1] == a + b[..n];
      FollowUpsInOrder(f, a, b[..n]);
      AppendAssoc(FollowUps(f, a), FollowUps(f, b[..n]), f(b[n]));
    }
  }

  // ---- Calls that are asked for ----

  /** No thread calls TakeCall unless it was asked for. */
  predicate OnlyAsked(steps: seq<Step>) {
    forall step <- steps :: step.TakeCall? ==> step.asked
  }

  lemma StepKeepsOneCall(s: State, step: Step)
    requires Inv(s) && Enabled(s, step) && (step.TakeCall? ==> step.asked)
    requires s.c.calls == if s.c.worker == Ringing then 1 else 0
    ensures Next(s, step).c.calls == if Next(s, step).c.worker == Ringing then 1 else 0
  {
    if step.DropLocker? { GoneChanges(s.c, s.lockers[step.id]); }
  }

  /** A worker that rings has asked for exactly one TakeCall that was not made yet, and any other for none: no
      wakeup is asked for twice. */
  lemma {:induction false} OneCallPerRing(steps: seq<Step>)
    requires Exec(START, steps).Some? && OnlyAsked(steps)
    ensures var c := Exec(START, steps).value.c;
            c.calls == if c.worker == Ringing then 1 else 0
  {
    if steps != [] {
      var front := steps[..|steps| - 1];
      OneCallPerRing(front);
      RunKeepsInv(front);
      StepKeepsOneCall(Exec(START, front).value, steps[|steps| - 1]);
    }
  }

  /** How often the worker began to ring. */
  function Rings(steps: seq<Step>): nat {
    if steps == [] then 0
    else
      var front := steps[..|steps| - 1];
      Rings(front) + match (Exec(START, front), Exec(START, steps))
                     case (Some(s), Some(s')) => if s.c.worker != Ringing && s'.c.worker == Ringing then 1 else 0
                     case _ => 0
  }

  /** How often TakeCall was called as asked for. */
  function Answered(steps: seq<Step>): nat {
    if steps == [] then 0
    else Answered(steps[..|steps| - 1]) + match steps[|steps| - 1] case TakeCall(_, asked) => if asked then 1 else 0 case _ => 0
  }

  /** Every time the worker begins to ring one call is asked for, and none at any other time, whoever else
      calls TakeCall meanwhile. */
  lemma {:induction false} CallsAreRings(steps: seq<Step>)
    requires Exec(START, steps).Some?
    ensures Exec(START, steps).value.c.calls + Answered(steps) == Rings(steps)
  {
    if steps != [] {
      var front, step := steps[..|steps| - 1], steps[|steps| - 1];
      CallsAreRings(front);
      RunKeepsInv(front);
      StepRings(Exec(START, front).value, step);
    }
  }

  lemma StepRings(s: State, step: Step)
    requires Inv(s) && Enabled(s, step)
    ensures var s' := Next(s, step);
            s'.c.calls + (if step.TakeCall? && step.asked then 1 else 0)
            == s.c.calls + if s.c.worker != Ringing && s'.c.worker == Ringing then 1 else 0
  {
  }
}
