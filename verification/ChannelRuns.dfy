/**
 What holds over every run of the channels: the gate in front of the real-time stream, the exactness of
 the splice, and what the accepted snapshot round is worth.
*/
module ChannelRuns {
  import opened Wrappers
  import opened Channels

  // ---- Views of what was dispatched and logged ----

  function OrdinaryOf(log: seq<RtPacket>): seq<RtPacket> {
    if log == [] then []
    else OrdinaryOf(log[..|log| - 1]) + if log[|log| - 1].heartbeat then [] else [log[|log| - 1]]
  }

  /** The ordinary real-time packets dispatched, in order. */
  function Ordinary(items: seq<Item>): seq<RtPacket> {
    if items == [] then []
    else
      var item := items[|items| - 1];
      Ordinary(items[..|items| - 1]) + if item.FromRt? && !item.rt.heartbeat then [item.rt] else []
  }

  /** The snapshot packets dispatched, in order. */
  function SsOf(items: seq<Item>): seq<SsPacket> {
    if items == [] then []
    else SsOf(items[..|items| - 1]) + if items[|items| - 1].FromSs? then [items[|items| - 1].ss] else []
  }

  function Above(pks: seq<RtPacket>, last: nat): seq<RtPacket> {
    if pks == [] then []
    else Above(pks[..|pks| - 1], last) + if pks[|pks| - 1].num > last then [pks[|pks| - 1]] else []
  }

  lemma {:induction false} OrdinaryAppend(a: seq<Item>, b: seq<Item>)
    ensures Ordinary(a + b) == Ordinary(a) + Ordinary(b)
    ensures SsOf(a + b) == SsOf(a) + SsOf(b)
  {
    if b == [] {
      assert a + b == a;
    } else {
      var b' := b[..|b| - 1];
      assert (a + b)[..|a + b| - 1] == a + b';
      OrdinaryAppend(a, b');
    }
  }

  lemma AddItem(items: seq<Item>, item: Item)
    ensures Ordinary(items + [item]) == Ordinary(items) + if item.FromRt? && !item.rt.heartbeat then [item.rt] else []
    ensures SsOf(items + [item]) == SsOf(items) + if item.FromSs? then [item.ss] else []
  {
    assert (items + [item])[..|items|] == items;
  }

  lemma AddLogged(log: seq<RtPacket>, pk: RtPacket)
    ensures OrdinaryOf(log + [pk]) == OrdinaryOf(log) + if pk.heartbeat then [] else [pk]
  {
    assert (log + [pk])[..|log|] == log;
  }

  lemma AddAbove(pks: seq<RtPacket>, pk: RtPacket, last: nat)
    ensures Above(pks + [pk], last) == Above(pks, last) + if pk.num > last then [pk] else []
  {
    assert (pks + [pk])[..|pks|] == pks;
  }

  lemma {:induction false} FromIsAbove(log: seq<RtPacket>, last: nat)
    ensures Ordinary(From(log, last + 1)) == Above(OrdinaryOf(log), last)
    ensures SsOf(From(log, last + 1)) == []
  {
    if log != [] {
      var log', pk := log[..|log| - 1], log[|log| - 1];
      FromIsAbove(log', last);
      var head, pks := From(log', last + 1), OrdinaryOf(log');
      AddItem(head, FromRt(pk));
      AddAbove(pks, pk, last);
      AppendNothing(head);
      AppendNothing(pks);
      AppendNothing(Above(pks, last));
    }
  }

  lemma {:induction false} AllOfIsSnapshot(log: seq<SsPacket>)
    ensures SsOf(AllOf(log)) == log && Ordinary(AllOf(log)) == []
  {
    if log != [] {
      var log' := log[..|log| - 1];
      AllOfIsSnapshot(log');
      assert AllOf(log)[..|log| - 1] == AllOf(log');
    }
  }

  // ---- The gate ----

  /** The real-time packets that ought to have been dispatched: of the log at the splice those above the
      snapshot's last number, and everything since. */
  function Delivered(rt: Realtime): seq<RtPacket> {
    match rt.splice
    case None => []
    case Some(s) => if s.logged > |rt.log| then []
                    else Above(OrdinaryOf(rt.log[..s.logged]), s.last) + OrdinaryOf(rt.log[s.logged..])
  }

  ghost predicate Increasing(pks: seq<RtPacket>) {
    forall i, j | 0 <= i < j < |pks| :: pks[i].num < pks[j].num
  }

  /** The ordinary numbers logged grow, and the next one expected is one above the last. */
  ghost predicate Counted(rt: Realtime) {
    var pks := OrdinaryOf(rt.log);
    && Increasing(pks)
    && (forall pk <- pks :: 1 <= pk.num < rt.next)
    && rt.next == if pks == [] then 0 else pks[|pks| - 1].num + 1
  }

  ghost predicate SinceSplice(rt: Realtime) {
    match rt.splice
    case None => true
    case Some(s) => s.logged <= |rt.log| && s.next <= rt.next
                    && forall pk <- OrdinaryOf(rt.log[s.logged..]) :: 1 <= pk.num && pk.num >= s.next
  }

  ghost predicate Gate(m: Market) {
    && (m.rt.state == Running || m.rt.state == Waiting)
    && (m.bi.state == Running || m.bi.state == Cycled)
    && m.ss.state != Cycled
    && m.bi.notified == (if m.bi.state == Cycled then 1 else 0)
    && (m.rt.state == Running <==> m.ss.state == CanBeClosed && m.bi.state == Cycled)
    && (m.ss.state == Waiting ==> m.bi.state == Running)
    && (m.ss.state == Running ==> m.bi.state == Cycled)
    && (m.rt.splice.Some? <==> m.rt.state == Running)
    && (m.rt.splice.Some? ==> m.rt.splice.value.last == m.ss.start && m.rt.splice.value.dispatched <= |m.out|)
    && SinceSplice(m.rt)
    && Counted(m.rt)
    && Ordinary(m.out) == Delivered(m.rt)
  }

  lemma DeliveredGrows(rt: Realtime, pk: RtPacket)
    requires rt.splice.Some? && rt.splice.value.logged <= |rt.log|
    ensures Delivered(RtLogged(rt, pk)) == Delivered(rt) + if pk.heartbeat then [] else [pk]
    ensures OrdinaryOf(RtLogged(rt, pk).log[rt.splice.value.logged..])
            == OrdinaryOf(rt.log[rt.splice.value.logged..]) + if pk.heartbeat then [] else [pk]
  {
    var s, log' := rt.splice.value, rt.log + [pk];
    assert log'[..s.logged] == rt.log[..s.logged];
    assert log'[s.logged..] == rt.log[s.logged..] + [pk];
    AddLogged(rt.log[s.logged..], pk);
  }

  lemma OrdinaryKeepsCounted(rt: Realtime, num: nat)
    requires Counted(rt) && num >= 1 && num >= rt.next
    ensures Counted(RtLogged(rt, RtPacket(num, false)).(next := num + 1))
  {
    AddLogged(rt.log, RtPacket(num, false));
  }

  lemma OrdinaryKeepsSplice(rt: Realtime, num: nat)
    requires SinceSplice(rt) && num >= 1 && num >= rt.next
    ensures SinceSplice(RtLogged(rt, RtPacket(num, false)).(next := num + 1))
  {
    if rt.splice.Some? { DeliveredGrows(rt, RtPacket(num, false)); }
  }

  lemma RtKeepsDelivered(m: Market, num: nat)
    requires Ordinary(m.out) == Delivered(m.rt) && SinceSplice(m.rt)
    requires m.rt.splice.Some? <==> m.rt.state != Waiting
    ensures var m' := RtStep(m, num); Ordinary(m'.out) == Delivered(m'.rt) && |m.out| <= |m'.out|
  {
    var pk := RtPacket(num, false);
    if m.rt.splice.Some? {
      AddItem(m.out, FromRt(pk));
      DeliveredGrows(m.rt, pk);
    } else {
      AppendNothing(m.out);
    }
  }

  lemma RtKeepsGate(m: Market, num: nat)
    requires Gate(m) && num >= 1 && num >= m.rt.next
    ensures Gate(RtStep(m, num))
  {
    OrdinaryKeepsCounted(m.rt, num);
    OrdinaryKeepsSplice(m.rt, num);
    RtKeepsDelivered(m, num);
  }

  lemma HeartbeatKeepsLog(rt: Realtime, num: nat)
    requires Counted(rt) && SinceSplice(rt)
    ensures Counted(RtLogged(rt, RtPacket(num, true))) && SinceSplice(RtLogged(rt, RtPacket(num, true)))
  {
    var pk := RtPacket(num, true);
    AddLogged(rt.log, pk);
    if rt.splice.Some? { DeliveredGrows(rt, pk); }
  }

  lemma RtHeartbeatKeepsGate(m: Market, num: nat)
    requires Gate(m)
    ensures Gate(RtHeartbeatStep(m, num))
  {
    HeartbeatKeepsLog(m.rt, num);
    AddItem(m.out, FromRt(RtPacket(num, true)));
    if m.rt.splice.Some? { DeliveredGrows(m.rt, RtPacket(num, true)); }
  }

  /** Releasing dispatches exactly the logged ordinary packets above the snapshot's last number. */
  lemma ReleaseDelivers(m: Market, last: nat)
    requires m.rt.state == Waiting && Counted(m.rt) && Ordinary(m.out) == []
    ensures var m' := Released(m, last);
            && m'.rt.state == Running && m'.rt.splice == Some(Splice(last, m.rt.next, |m.rt.log|, |m.out|))
            && Ordinary(m'.out) == Above(OrdinaryOf(m.rt.log), last) == Delivered(m'.rt)
            && SsOf(m'.out) == SsOf(m.out)
            && SinceSplice(m'.rt) && Counted(m'.rt)
  {
    OrdinaryAppend(m.out, From(m.rt.log, last + 1));
    FromIsAbove(m.rt.log, last);
    AppendNothing(SsOf(m.out));
    JustSpliced(m.rt, Splice(last, m.rt.next, |m.rt.log|, |m.out|));
  }

  lemma JustSpliced(rt: Realtime, s: Splice)
    requires s.logged == |rt.log| && s.next == rt.next
    ensures Delivered(rt.(state := Running, splice := Some(s))) == Above(OrdinaryOf(rt.log), s.last)
    ensures SinceSplice(rt.(state := Running, splice := Some(s)))
  {
    assert rt.log[..|rt.log|] == rt.log && rt.log[|rt.log|..] == [];
    AppendNothing(Above(OrdinaryOf(rt.log), s.last));
  }

  lemma TakenKeepsOrdinary(m: Market, pk: SsPacket)
    ensures Ordinary(SsTaken(m, pk).out) == Ordinary(m.out)
  {
    AddItem(m.out, FromSs(pk));
    AppendNothing(m.out);
    AppendNothing(Ordinary(m.out));
  }

  /** The snapshot changes of a step leave the gate alone unless they complete the round. */
  lemma TakenKeepsGate(m: Market, ss: Snapshot, pk: SsPacket)
    requires Gate(m) && ss.state == m.ss.state && (ss.start == m.ss.start || m.ss.state != CanBeClosed)
    ensures Gate(SsTaken(m.(ss := ss), pk))
  {
    TakenKeepsOrdinary(m.(ss := ss), pk);
  }

  lemma CompletedKeepsGate(m: Market, pk: SsPacket, last: nat)
    requires Gate(m) && m.ss.state != CanBeClosed
    ensures Gate(SsCompleted(m, pk, last))
  {
    if RoundComplete(m.rt, m.ss, last) {
      var m' := m.(ss := m.ss.(state := CanBeClosed, reach := m.rt.first));
      if m.bi.state.Done() {
        ReleaseDelivers(m', last);
        TakenKeepsOrdinary(Released(m', last), pk);
      } else {
        TakenKeepsOrdinary(m', pk);
      }
    } else if !m.ss.skipLog {
      TakenKeepsGate(m, m.ss.(next := 0), pk);
    }
  }

  lemma SsKeepsGate(m: Market, pk: SsPacket)
    requires Gate(m)
    ensures Gate(SsHandled(m, pk))
  {
    if m.ss.state != CanBeClosed {
      match pk.body
      case Unknown =>
      case Data => TakenKeepsGate(m, m.ss, pk);
      case Begin(last) => TakenKeepsGate(m, SsStarted(m.ss, pk, last), pk);
      case Complete(last) => CompletedKeepsGate(m, pk, last);
    }
  }

  lemma BasicDoneKeepsGate(m: Market)
    requires Gate(m) && m.bi.state == Running
    ensures Gate(BasicDone(m.(bi := m.bi.(state := Cycled, notified := m.bi.notified + 1))))
  {
    OrdinaryAppend(m.out, AllOf(m.ss.log));
    AllOfIsSnapshot(m.ss.log);
    if m.ss.state == CanBeClosed {
      var m0 := m.(bi := m.bi.(state := Cycled, notified := m.bi.notified + 1), out := m.out + AllOf(m.ss.log));
      ReleaseDelivers(m0, m.ss.start);
    }
  }

  lemma StepKeepsGate(m: Market, ev: Event)
    requires Gate(m) && Possible(m, ev)
    ensures Gate(Next(m, ev))
  {
    match ev
    case RtArrives(num) => RtKeepsGate(m, num);
    case RtHeartbeat(num) => RtHeartbeatKeepsGate(m, num);
    case SsArrives(pk, waits) => SsKeepsGate(m.(ss := SsCounted(m.ss, pk, waits)), pk);
    case BiArrives(_, _) =>
    case BiHeartbeat(num) => if m.bi.state == Running { BasicDoneKeepsGate(m); }
  }

  lemma {:induction false} RunKeepsGate(evs: seq<Event>)
    requires Run(STARTUP, evs).Some?
    ensures Gate(Run(STARTUP, evs).value)
  {
    if evs != [] {
      RunKeepsGate(evs[..|evs| - 1]);
      StepKeepsGate(Run(STARTUP, evs[..|evs| - 1]).value, evs[|evs| - 1]);
    }
  }

  /** The real-time channel is closed until a snapshot round was accepted and the basic information is
      complete, and open from then on; while it is closed no ordinary packet of it is dispatched, and
      ChannelCycled is called once at most. */
  lemma GateOpensOnce(evs: seq<Event>)
    requires Run(STARTUP, evs).Some?
    ensures var m := Run(STARTUP, evs).value;
            && (m.rt.state == Running <==> m.ss.state == CanBeClosed && m.bi.state.Done())
            && (m.rt.state != Running ==> m.rt.state == Waiting && Ordinary(m.out) == [])
            && m.bi.notified <= 1 && (m.bi.notified == 1 <==> m.bi.state.Done())
  {
    RunKeepsGate(evs);
  }

  function Rank(state: ChannelState): nat {
    match state case Waiting => 0 case Running => 1 case Cycled => 2 case CanBeClosed => 3
  }

  lemma SsGoesForward(m: Market, pk: SsPacket)
    requires Gate(m)
    ensures var m' := SsHandled(m, pk);
            && Rank(m.rt.state) <= Rank(m'.rt.state) && Rank(m.ss.state) <= Rank(m'.ss.state) && m'.bi == m.bi
            && m.out <= m'.out && m'.rt.log == m.rt.log && m'.rt.first == m.rt.first
            && (m.rt.splice.Some? ==> m'.rt.splice == m.rt.splice)
  {
  }

  /** No step takes a channel back, and the log and what was dispatched only grow. */
  lemma StepGoesForward(m: Market, ev: Event)
    requires Gate(m) && Possible(m, ev)
    ensures var m' := Next(m, ev);
            && Rank(m.rt.state) <= Rank(m'.rt.state) && Rank(m.ss.state) <= Rank(m'.ss.state)
            && Rank(m.bi.state) <= Rank(m'.bi.state)
            && m.out <= m'.out && m.rt.log <= m'.rt.log
            && (m.rt.splice.Some? ==> m'.rt.splice == m.rt.splice)
            && (m.rt.first != 0 ==> m'.rt.first == m.rt.first)
  {
    match ev
    case RtArrives(_) =>
    case RtHeartbeat(_) =>
    case SsArrives(pk, waits) => SsGoesForward(m.(ss := SsCounted(m.ss, pk, waits)), pk);
    case BiArrives(_, _) =>
    case BiHeartbeat(_) =>
  }

  lemma {:induction false} RunGoesForward(m: Market, evs: seq<Event>)
    requires Gate(m) && Run(m, evs).Some?
    ensures var m' := Run(m, evs).value;
            && Gate(m')
            && Rank(m.rt.state) <= Rank(m'.rt.state) && Rank(m.ss.state) <= Rank(m'.ss.state)
            && Rank(m.bi.state) <= Rank(m'.bi.state)
            && m.out <= m'.out && m.rt.log <= m'.rt.log
            && (m.rt.splice.Some? ==> m'.rt.splice == m.rt.splice)
            && (m.rt.first != 0 ==> m'.rt.first == m.rt.first)
  {
    if evs != [] {
      RunGoesForward(m, evs[..|evs| - 1]);
      var m1 := Run(m, evs[..|evs| - 1]).value;
      StepGoesForward(m1, evs[|evs| - 1]);
      StepKeepsGate(m1, evs[|evs| - 1]);
    }
  }

  // ---- The splice ----

  lemma {:induction false} AboveIsBetween(pks: seq<RtPacket>, last: nat)
    ensures forall pk :: pk in Above(pks, last) <==> pk in pks && pk.num > last
  {
    if pks != [] {
      AboveIsBetween(pks[..|pks| - 1], last);
      assert pks == pks[..|pks| - 1] + [pks[|pks| - 1]];
    }
  }

  lemma AddIncreasing(pks: seq<RtPacket>, pk: RtPacket)
    requires Increasing(pks) && forall p <- pks :: p.num < pk.num
    ensures Increasing(pks + [pk])
  {
  }

  lemma {:induction false} AboveIncreases(pks: seq<RtPacket>, last: nat)
    requires Increasing(pks)
    ensures Increasing(Above(pks, last))
  {
    if pks != [] {
      var pks', pk := pks[..|pks| - 1], pks[|pks| - 1];
      AboveIncreases(pks', last);
      AboveIsBetween(pks', last);
      if pk.num > last { AddIncreasing(Above(pks', last), pk); }
    }
  }

  lemma JoinIncreases(a: seq<RtPacket>, b: seq<RtPacket>)
    ensures Increasing(a + b) <==> Increasing(a) && Increasing(b) && forall p <- a, q <- b :: p.num < q.num
  {
    var s := a + b;
    assert forall i | 0 <= i < |a| :: s[i] == a[i];
    assert forall j | 0 <= j < |b| :: s[|a| + j] == b[j];
    if Increasing(s) {
      forall p <- a, q <- b
        ensures p.num < q.num
      {
        var i :| 0 <= i < |a| && a[i] == p;
        var j :| 0 <= j < |b| && b[j] == q;
        assert s[i].num < s[|a| + j].num;
      }
    }
  }

  lemma {:induction false} OrdinaryOfAppend(a: seq<RtPacket>, b: seq<RtPacket>)
    ensures OrdinaryOf(a + b) == OrdinaryOf(a) + OrdinaryOf(b)
  {
    if b == [] {
      assert a + b == a;
    } else {
      var b' := b[..|b| - 1];
      assert a + b == (a + b') + [b[|b| - 1]];
      OrdinaryOfAppend(a, b');
      AddLogged(a + b', b[|b| - 1]);
    }
  }

  lemma PartsIncrease(a: seq<RtPacket>, b: seq<RtPacket>, last: nat)
    requires Increasing(a + b)
    ensures Increasing(Above(a, last) + b)
    ensures forall pk :: pk in Above(a, last) + b <==> (pk in a && pk.num > last) || pk in b
  {
    JoinIncreases(a, b);
    AboveIncreases(a, last);
    AboveIsBetween(a, last);
    JoinIncreases(Above(a, last), b);
  }

  lemma DeliveredParts(rt: Realtime)
    requires Counted(rt) && SinceSplice(rt) && rt.splice.Some?
    ensures var s := rt.splice.value;
            && OrdinaryOf(rt.log) == OrdinaryOf(rt.log[..s.logged]) + OrdinaryOf(rt.log[s.logged..])
            && Increasing(Delivered(rt))
            && (forall pk :: pk in Delivered(rt) <==>
                  (pk in OrdinaryOf(rt.log[..s.logged]) && pk.num > s.last) || pk in OrdinaryOf(rt.log[s.logged..]))
  {
    var s := rt.splice.value;
    assert rt.log[..s.logged] + rt.log[s.logged..] == rt.log;
    OrdinaryOfAppend(rt.log[..s.logged], rt.log[s.logged..]);
    PartsIncrease(OrdinaryOf(rt.log[..s.logged]), OrdinaryOf(rt.log[s.logged..]), s.last);
  }

  /** Once the channel is open it has dispatched exactly the ordinary packets of the log at the splice
      that are above the accepted snapshot's last number, and every ordinary packet since: in order,
      and none of them twice. */
  lemma SpliceIsExact(evs: seq<Event>)
    requires Run(STARTUP, evs).Some? && Run(STARTUP, evs).value.rt.state == Running
    ensures var m := Run(STARTUP, evs).value;
            && m.rt.splice.Some?
            && var s := m.rt.splice.value;
            && s.last == m.ss.start && s.logged <= |m.rt.log|
            && Ordinary(m.out) == Above(OrdinaryOf(m.rt.log[..s.logged]), s.last) + OrdinaryOf(m.rt.log[s.logged..])
            && Increasing(Ordinary(m.out))
  {
    RunKeepsGate(evs);
    DeliveredParts(Run(STARTUP, evs).value.rt);
  }

  /** Nothing the snapshot already holds is dispatched behind it. */
  ghost predicate OnlyNewer(m: Market)
    requires m.rt.splice.Some?
  {
    forall pk <- Ordinary(m.out) :: pk.num > m.rt.splice.value.last
  }

  lemma NewerFromGate(m: Market)
    requires Gate(m) && m.rt.splice.Some?
    requires m.rt.splice.value.next > m.rt.splice.value.last || m.rt.splice.value.last == 0
    ensures OnlyNewer(m)
  {
    DeliveredParts(m.rt);
  }

  /** A released channel whose real-time stream was still behind the snapshot dispatches, when the
      stream catches up, packets that the snapshot already holds: a late packet is not compared with
      the snapshot. So in every continuation of a run that has just been spliced only newer packets are
      dispatched if and only if the stream had passed the snapshot's last number by then. */
  lemma OnlyNewerIffCaughtUp(evs: seq<Event>)
    requires Run(STARTUP, evs).Some?
    requires var rt := Run(STARTUP, evs).value.rt; rt.splice.Some? && rt.next == rt.splice.value.next
    ensures var m := Run(STARTUP, evs).value;
            (forall more | Run(m, more).Some? && Run(m, more).value.rt.splice.Some? :: OnlyNewer(Run(m, more).value))
            <==> m.rt.next > m.rt.splice.value.last || m.rt.splice.value.last == 0
  {
    var m := Run(STARTUP, evs).value;
    RunKeepsGate(evs);
    var last := m.rt.splice.value.last;
    if m.rt.next > last || last == 0 {
      forall more | Run(m, more).Some? && Run(m, more).value.rt.splice.Some?
        ensures OnlyNewer(Run(m, more).value)
      {
        RunGoesForward(m, more);
        NewerFromGate(Run(m, more).value);
      }
    } else {
      LateIsDispatched(m, last);
    }
  }

  lemma LateIsDispatched(m: Market, num: nat)
    requires Gate(m) && m.rt.splice.Some? && 1 <= num <= m.rt.splice.value.last && m.rt.next <= num
    ensures exists more :: Run(m, more).Some? && Run(m, more).value.rt.splice.Some? && !OnlyNewer(Run(m, more).value)
  {
    var more := [RtArrives(num)];
    assert more[..0] == [];
    assert Run(m, []) == Some(m);
    assert Run(m, more) == Some(RtStep(m, num));
    AddItem(m.out, FromRt(RtPacket(num, false)));
    var m' := RtStep(m, num);
    assert RtPacket(num, false) in Ordinary(m'.out);
    assert !OnlyNewer(m');
  }

  // ---- No gap between the snapshot and the stream ----

  ghost predicate Consecutive(pks: seq<RtPacket>) {
    forall i | 0 <= i < |pks| :: pks[i].num == pks[0].num + i
  }

  /** Every ordinary packet above the snapshot's last number, up to the newest received, is dispatched. */
  ghost predicate NoGap(m: Market)
    requires m.rt.splice.Some?
  {
    forall n | m.rt.splice.value.last < n < m.rt.next :: RtPacket(n, false) in Ordinary(m.out)
  }

  lemma {:induction false} OrdinaryAreOrdinary(log: seq<RtPacket>)
    ensures forall pk :: pk in OrdinaryOf(log) <==> pk in log && !pk.heartbeat
  {
    if log != [] { OrdinaryAreOrdinary(log[..|log| - 1]); }
  }

  /** When the stream itself lost nothing: the snapshot and the stream join without a gap if and only if
      the first ordinary packet ever logged is no more than one above the snapshot's last number. */
  lemma NoGapIff(evs: seq<Event>)
    requires Run(STARTUP, evs).Some? && Run(STARTUP, evs).value.rt.state == Running
    requires Consecutive(OrdinaryOf(Run(STARTUP, evs).value.rt.log))
    ensures var m := Run(STARTUP, evs).value; var pks := OrdinaryOf(m.rt.log);
            m.rt.splice.Some? && (NoGap(m) <==> pks == [] || pks[0].num <= m.rt.splice.value.last + 1)
  {
    RunKeepsGate(evs);
    var m := Run(STARTUP, evs).value;
    var pks, last := OrdinaryOf(m.rt.log), m.rt.splice.value.last;
    DeliveredParts(m.rt);
    OrdinaryAreOrdinary(m.rt.log);
    if pks != [] {
      if pks[0].num <= last + 1 {
        forall n | last < n < m.rt.next
          ensures RtPacket(n, false) in Delivered(m.rt)
        {
          FindNumber(pks, n);
        }
      } else {
        assert last + 1 < m.rt.next;
        assert RtPacket(last + 1, false) !in Delivered(m.rt) by { BelowFirst(pks, last + 1); }
      }
    }
  }

  lemma FindNumber(pks: seq<RtPacket>, n: nat)
    requires Consecutive(pks) && pks != [] && pks[0].num <= n <= pks[|pks| - 1].num && forall pk <- pks :: !pk.heartbeat
    ensures RtPacket(n, false) in pks
  {
    assert pks[n - pks[0].num] in pks;
  }

  lemma BelowFirst(pks: seq<RtPacket>, n: nat)
    requires Consecutive(pks) && pks != [] && n < pks[0].num
    ensures RtPacket(n, false) !in pks
  {
  }
}
