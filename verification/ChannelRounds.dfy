/**
 What an accepted snapshot round is worth: whether it is whole, how far back the real-time log reaches,
 and that it is dispatched before the real-time stream it is spliced to.
*/
module ChannelRounds {
  import opened Wrappers
  import opened Channels
  import opened ChannelRuns

  // ---- The round ----

  /** The packets of a round that are logged. */
  function Known(round: seq<SsPacket>): seq<SsPacket> {
    if round == [] then []
    else Known(round[..|round| - 1]) + if round[|round| - 1].body.Unknown? then [] else [round[|round| - 1]]
  }

  /** Numbers 1, 2, 3 and so on, and nothing behind a Complete. */
  ghost predicate Unbroken(round: seq<SsPacket>) {
    && (forall i | 0 <= i < |round| :: round[i].num == i + 1)
    && (forall i | 0 <= i < |round| - 1 :: !round[i].body.Complete?)
  }

  /** A whole round of the snapshot taken at `last`. */
  ghost predicate Whole(round: seq<SsPacket>, last: nat) {
    && |round| >= 2 && round[0].body == Begin(last) && round[|round| - 1].body == Complete(last)
    && Unbroken(round)
  }

  function Expected(round: seq<SsPacket>): nat
    requires round != []
  {
    var pk := round[|round| - 1];
    if pk.body.Complete? then 0 else pk.num + 1
  }

  ghost predicate Started(ss: Snapshot) {
    ss.round != [] && ss.round[0] == SsPacket(1, Begin(ss.start)) && ss.log == Known(ss.round)
  }

  /** Until the round is accepted, `lost` beyond `before` is what was counted in it. */
  ghost predicate Rounded(ss: Snapshot) {
    && Started(ss) && ss.lost >= ss.before
    && (ss.lost == ss.before ==> (Unbroken(ss.round) <==> ss.uncounted == 0))
  }

  ghost predicate RoundInv(m: Market) {
    var ss := m.ss;
    && (ss.skipLog ==> ss.log == [] && ss.state != CanBeClosed)
    && (!ss.skipLog ==> Started(ss))
    && (!ss.skipLog && ss.state != CanBeClosed ==> Rounded(ss) && ss.next == Expected(ss.round))
    && (ss.state == CanBeClosed ==>
          && |ss.round| >= 2 && ss.round[|ss.round| - 1].body == Complete(ss.start)
          && (Unbroken(ss.round) <==> ss.uncounted == 0)
          && (ss.reach == 1 || ss.reach <= ss.start) && (ss.reach != 0 ==> m.rt.first == ss.reach))
  }

  lemma AddKnown(round: seq<SsPacket>, pk: SsPacket)
    ensures Known(round + [pk]) == Known(round) + if pk.body.Unknown? then [] else [pk]
  {
    assert (round + [pk])[..|round|] == round;
  }

  lemma AddUnbroken(round: seq<SsPacket>, pk: SsPacket)
    requires round != []
    ensures Unbroken(round + [pk]) <==>
            Unbroken(round) && !round[|round| - 1].body.Complete? && pk.num == |round| + 1
  {
    var round' := round + [pk];
    assert forall i | 0 <= i < |round| :: round'[i] == round[i];
    assert round'[|round|] == pk;
    if Unbroken(round') {
      assert !round'[|round| - 1].body.Complete?;
    }
  }

  /** A packet of the round other than Begin: the gap in front of it is counted one way or the other. */
  lemma CountKeepsRound(ss: Snapshot, pk: SsPacket, waits: bool)
    requires !ss.skipLog && ss.state != CanBeClosed && Rounded(ss) && ss.next == Expected(ss.round)
    requires pk.num > 1 && pk.num >= ss.next
    ensures var ss' := SsCounted(ss, pk, waits);
            && ss'.round == ss.round + [pk] && ss'.round[0] == ss.round[0] && ss'.lost >= ss'.before
            && (ss'.lost == ss'.before ==> (Unbroken(ss'.round) <==> ss'.uncounted == 0))
            && Known(ss'.round) == ss'.log + if pk.body.Unknown? then [] else [pk]
  {
    AddKnown(ss.round, pk);
    AddUnbroken(ss.round, pk);
    if Unbroken(ss.round) { assert ss.round[|ss.round| - 1].num == |ss.round|; }
  }

  lemma StartedKeepsRound(m: Market, pk: SsPacket, last: nat)
    requires m.ss.state != CanBeClosed && m.ss.next == 2 && (m.ss.skipLog ==> m.ss.log == [])
    requires pk == SsPacket(1, Begin(last))
    ensures RoundInv(SsTaken(m.(ss := SsStarted(m.ss, pk, last)), pk))
  {
    assert [pk][..0] == [];
    assert Known([pk]) == [pk];
  }

  lemma BeginKeepsRound(m: Market, pk: SsPacket, waits: bool)
    requires RoundInv(m) && Possible(m, SsArrives(pk, waits)) && pk.num == 1
    ensures RoundInv(SsStep(m, pk, waits))
  {
    if m.ss.state != CanBeClosed {
      StartedKeepsRound(m.(ss := SsCounted(m.ss, pk, waits)), pk, pk.body.last);
    }
  }

  lemma CompleteKeepsRound(m: Market, pk: SsPacket, last: nat)
    requires !m.ss.skipLog && m.ss.state != CanBeClosed && pk.body == Complete(last)
    requires var round := m.ss.round;
             && |round| >= 2 && round[0] == SsPacket(1, Begin(m.ss.start)) && round[|round| - 1] == pk
             && Known(round) == m.ss.log + [pk] && m.ss.lost >= m.ss.before
             && (m.ss.lost == m.ss.before ==> (Unbroken(round) <==> m.ss.uncounted == 0))
    ensures RoundInv(SsCompleted(m, pk, last))
  {
  }

  lemma LaterKeepsRound(m: Market, pk: SsPacket, waits: bool)
    requires RoundInv(m) && Possible(m, SsArrives(pk, waits)) && pk.num > 1
    ensures RoundInv(SsStep(m, pk, waits))
  {
    if !m.ss.skipLog && m.ss.state != CanBeClosed {
      CountKeepsRound(m.ss, pk, waits);
      if pk.body.Complete? { CompleteKeepsRound(m.(ss := SsCounted(m.ss, pk, waits)), pk, pk.body.last); }
    }
  }

  /** Steps of the other channels. */
  lemma OtherKeepsRound(m: Market, m': Market)
    requires RoundInv(m) && (m.rt.first != 0 ==> m'.rt.first == m.rt.first)
    requires m'.ss == m.ss || (m.ss.state == Waiting && m'.ss == m.ss.(state := Running))
    ensures RoundInv(m')
  {
  }

  lemma StepKeepsRound(m: Market, ev: Event)
    requires Gate(m) && RoundInv(m) && Possible(m, ev)
    ensures RoundInv(Next(m, ev))
  {
    StepGoesForward(m, ev);
    match ev
    case SsArrives(pk, waits) => if pk.num == 1 { BeginKeepsRound(m, pk, waits); } else { LaterKeepsRound(m, pk, waits); }
    case RtArrives(_) => OtherKeepsRound(m, Next(m, ev));
    case RtHeartbeat(_) => OtherKeepsRound(m, Next(m, ev));
    case BiArrives(_, _) => OtherKeepsRound(m, Next(m, ev));
    case BiHeartbeat(_) => OtherKeepsRound(m, Next(m, ev));
  }

  lemma {:induction false} RunKeepsRound(evs: seq<Event>)
    requires Run(STARTUP, evs).Some?
    ensures RoundInv(Run(STARTUP, evs).value)
  {
    if evs != [] {
      RunKeepsRound(evs[..|evs| - 1]);
      RunKeepsGate(evs[..|evs| - 1]);
      StepKeepsRound(Run(STARTUP, evs[..|evs| - 1]).value, evs[|evs| - 1]);
    }
  }

  /** An accepted round starts with Begin and ends with Complete of the same last number, its known
      packets are what is logged, and it is whole if and only if no gap in it went uncounted. */
  lemma AcceptedRound(evs: seq<Event>)
    requires Run(STARTUP, evs).Some? && Run(STARTUP, evs).value.ss.state == CanBeClosed
    ensures var ss := Run(STARTUP, evs).value.ss;
            && |ss.round| >= 2 && ss.round[0].body == Begin(ss.start)
            && ss.round[|ss.round| - 1].body == Complete(ss.start)
            && ss.log == Known(ss.round)
            && (Whole(ss.round, ss.start) <==> ss.uncounted == 0)
  {
    RunKeepsRound(evs);
  }

  /** A waiting time is set for the snapshot channel all along. */
  predicate Waits(evs: seq<Event>) {
    forall ev <- evs :: ev.SsArrives? ==> ev.waits
  }

  /** Once a round is followed, the first packet of all has been received, so every gap is counted. */
  lemma {:induction false} WaitingCountsAll(evs: seq<Event>)
    requires Run(STARTUP, evs).Some? && Waits(evs)
    ensures var ss := Run(STARTUP, evs).value.ss;
            !ss.skipLog ==> ss.received > 0 && ss.uncounted == 0
  {
    if evs != [] {
      WaitingCountsAll(evs[..|evs| - 1]);
      assert evs[|evs| - 1] in evs;
    }
  }

  /** With a feeder that waits for missing packets, only a whole round is ever accepted. */
  lemma WaitingAcceptsWholeRounds(evs: seq<Event>)
    requires Run(STARTUP, evs).Some? && Waits(evs) && Run(STARTUP, evs).value.ss.state == CanBeClosed
    ensures Whole(Run(STARTUP, evs).value.ss.round, Run(STARTUP, evs).value.ss.start)
  {
    WaitingCountsAll(evs);
    RunKeepsRound(evs);
    AcceptedRound(evs);
  }

  // ---- How far back the real-time log reaches ----

  /** The check at Complete is enough for a join without a gap when something of the real-time stream had
      been received by then: the stream lost nothing, and what was received first is an ordinary packet
      or a heartbeat that repeats the number in front of the first ordinary packet. The exception for
      number 1 is sound only if 1 is the number of an ordinary packet or the snapshot holds packet 1. */
  lemma CheckReachesBack(evs: seq<Event>)
    requires Run(STARTUP, evs).Some? && Run(STARTUP, evs).value.rt.state == Running
    requires var m := Run(STARTUP, evs).value; var pks := OrdinaryOf(m.rt.log);
             && Consecutive(pks) && (pks != [] ==> pks[0].num <= m.rt.first + 1)
             && m.ss.reach != 0 && (m.ss.start != 0 || (pks != [] ==> pks[0].num == 1))
    ensures var m := Run(STARTUP, evs).value; m.rt.splice.Some? && NoGap(m)
  {
    RunKeepsRound(evs);
    RunKeepsGate(evs);
    NoGapIff(evs);
  }

  // ---- Where the checks are not enough ----

  lemma RunAdds(evs: seq<Event>, ev: Event)
    requires Run(STARTUP, evs).Some? && Possible(Run(STARTUP, evs).value, ev)
    ensures Run(STARTUP, evs + [ev]) == Some(Next(Run(STARTUP, evs).value, ev))
  {
    assert (evs + [ev])[..|evs|] == evs;
  }

  /** A feeder that does not wait lets a round with a missing packet be accepted. */
  lemma UncountedGapIsAccepted() returns (evs: seq<Event>)
    ensures Run(STARTUP, evs).Some? && Run(STARTUP, evs).value.ss.state == CanBeClosed
    ensures !Whole(Run(STARTUP, evs).value.ss.round, Run(STARTUP, evs).value.ss.start)
  {
    evs := [];
    RunAdds(evs, SsArrives(SsPacket(1, Begin(7)), false));
    evs := evs + [SsArrives(SsPacket(1, Begin(7)), false)];
    RunAdds(evs, SsArrives(SsPacket(3, Complete(7)), false));
    evs := evs + [SsArrives(SsPacket(3, Complete(7)), false)];
    AcceptedRound(evs);
  }

  /** The basic information completes after two heartbeats behind packets 1 and 2. */
  lemma BasicCompletes(evs: seq<Event>) returns (evs': seq<Event>)
    requires Run(STARTUP, evs).Some? && Run(STARTUP, evs).value.bi == STARTUP.bi
    ensures Run(STARTUP, evs').Some?
    ensures var m := Run(STARTUP, evs).value;
            Run(STARTUP, evs').value == BasicDone(m).(bi := BasicInfo(Cycled, 3, 0, 0, 3, 2, 1))
  {
    var evs1 := BiRound(evs, 1);
    evs' := BiRound(evs1, 2);
    SecondHeartbeatCompletes(Run(STARTUP, evs).value);
  }

  lemma SecondHeartbeatCompletes(m: Market)
    requires m.bi == STARTUP.bi
    ensures var m1 := BiHeartbeatStep(BiStep(m, 1, false), 1);
            && m1 == m.(bi := BasicInfo(Running, 2, 0, 0, 2, 1, 0))
            && BiHeartbeatStep(BiStep(m1, 2, false), 2) == BasicDone(m).(bi := BasicInfo(Cycled, 3, 0, 0, 3, 2, 1))
  {
    BasicDoneIgnoresBasic(m, BasicInfo(Cycled, 2, 0, 0, 3, 2, 1));
  }

  lemma BasicDoneIgnoresBasic(m: Market, bi: BasicInfo)
    ensures BasicDone(m.(bi := bi)) == BasicDone(m).(bi := bi)
  {
  }

  /** A packet of the basic information and the heartbeat that repeats its number. */
  lemma BiRound(evs: seq<Event>, num: nat) returns (evs': seq<Event>)
    requires Run(STARTUP, evs).Some? && Run(STARTUP, evs).value.bi.next <= num
    ensures Run(STARTUP, evs').Some?
    ensures Run(STARTUP, evs').value == BiHeartbeatStep(BiStep(Run(STARTUP, evs).value, num, false), num)
  {
    RunAdds(evs, BiArrives(num, false));
    var evs1 := evs + [BiArrives(num, false)];
    RunAdds(evs1, BiHeartbeat(num));
    evs' := evs1 + [BiHeartbeat(num)];
  }

  lemma Begins(last: nat) returns (m: Market)
    ensures Run(STARTUP, [SsArrives(SsPacket(1, Begin(last)), true)]) == Some(m)
    ensures var pk := SsPacket(1, Begin(last));
            m == STARTUP.(ss := Snapshot(Waiting, false, last, 0, 0, 2, 1, [pk], [pk], 0, 0))
  {
    var open := SsArrives(SsPacket(1, Begin(last)), true);
    RunAdds([], open);
    assert [] + [open] == [open];
    m := Next(STARTUP, open);
  }

  lemma Closes(evs: seq<Event>, last: nat) returns (evs': seq<Event>)
    requires Run(STARTUP, evs).Some?
    requires var m := Run(STARTUP, evs).value;
             && m.bi == STARTUP.bi && m.ss.state == Waiting && !m.ss.skipLog && m.ss.start == last && m.ss.next == 2
             && m.ss.lost == m.ss.before && (m.rt.first == 1 || m.rt.first <= last)
    ensures Run(STARTUP, evs').Some?
    ensures var m, m' := Run(STARTUP, evs).value, Run(STARTUP, evs').value;
            && m'.bi == STARTUP.bi && m'.ss.state == CanBeClosed && m'.ss.start == last && m'.rt == m.rt
            && m'.ss.reach == m.rt.first
  {
    RunAdds(evs, SsArrives(SsPacket(2, Complete(last)), true));
    evs' := evs + [SsArrives(SsPacket(2, Complete(last)), true)];
  }

  /** A round of nothing but Begin and Complete, with a heartbeat in between or not. */
  lemma EmptyRound(last: nat, heartbeat: bool) returns (evs: seq<Event>)
    requires heartbeat || last > 0
    ensures Run(STARTUP, evs).Some?
    ensures var m := Run(STARTUP, evs).value; var log := if heartbeat then [RtPacket(1, true)] else [];
            && m.bi == STARTUP.bi && m.ss.state == CanBeClosed && m.ss.start == last
            && m.rt == Realtime(Waiting, log, |log|, 0, None) && m.ss.reach == |log|
  {
    var m := Begins(last);
    evs := [SsArrives(SsPacket(1, Begin(last)), true)];
    if heartbeat {
      RunAdds(evs, RtHeartbeat(1));
      evs := evs + [RtHeartbeat(1)];
    }
    evs := Closes(evs, last);
  }

  /** After it, the basic information completes, and the real-time stream goes on with a packet. */
  lemma GoesOn(evs: seq<Event>, num: nat) returns (evs': seq<Event>)
    requires Run(STARTUP, evs).Some? && num >= 1
    requires var m := Run(STARTUP, evs).value; 
             && m.bi == STARTUP.bi && m.ss.state == CanBeClosed && m.rt.state == Waiting && m.rt.next == 0
             && m.ss.start + 1 < num && OrdinaryOf(m.rt.log) == []
    ensures Run(STARTUP, evs').Some?
    ensures var m, m' := Run(STARTUP, evs).value, Run(STARTUP, evs').value;
            && m'.rt.state == Running && Consecutive(OrdinaryOf(m'.rt.log))
            && m'.ss.reach == m.ss.reach && m'.ss.start == m.ss.start
            && m'.rt.splice.Some? && !NoGap(m')
  {
    evs' := BasicCompletes(evs);
    var m := Run(STARTUP, evs').value;
    assert m.rt.next == 0 && m.rt.log == Run(STARTUP, evs).value.rt.log;
    RunAdds(evs', RtArrives(num));
    evs' := evs' + [RtArrives(num)];
    AddLogged(m.rt.log, RtPacket(num, false));
    assert OrdinaryOf(Run(STARTUP, evs').value.rt.log) == [RtPacket(num, false)];
    NoGapIff(evs');
    RunKeepsGate(evs');
  }

  /** When nothing of the real-time stream was received before the round is accepted, the check passes
      whatever the snapshot's last number is, and a stream that starts later leaves a gap. */
  lemma NothingReceivedLeavesGap() returns (evs: seq<Event>)
    ensures Run(STARTUP, evs).Some?
    ensures var m := Run(STARTUP, evs).value;
            && m.rt.state == Running && Consecutive(OrdinaryOf(m.rt.log)) && m.ss.reach == 0
            && m.rt.splice.Some? && !NoGap(m)
  {
    evs := EmptyRound(7, false);
    evs := GoesOn(evs, 20);
  }

  /** A heartbeat with number 1 also passes the check against a snapshot taken before packet 1, which
      nobody then dispatches. */
  lemma HeartbeatOneLeavesGap() returns (evs: seq<Event>)
    ensures Run(STARTUP, evs).Some?
    ensures var m := Run(STARTUP, evs).value;
            && m.rt.state == Running && Consecutive(OrdinaryOf(m.rt.log)) && m.ss.reach == 1 && m.ss.start == 0
            && m.rt.splice.Some? && !NoGap(m)
  {
    evs := EmptyRound(0, true);
    AddLogged([], RtPacket(1, true));
    assert [] + [RtPacket(1, true)] == [RtPacket(1, true)];
    evs := GoesOn(evs, 2);
  }

  // ---- The snapshot comes first ----

  predicate EndsWith(s: seq<SsPacket>, t: seq<SsPacket>) { |t| <= |s| && s[|s| - |t|..] == t }

  /** The round is dispatched, but for its Complete when that is what releases the real-time channel. */
  predicate Shows(items: seq<Item>, log: seq<SsPacket>) {
    EndsWith(SsOf(items), log) || (log != [] && EndsWith(SsOf(items), log[..|log| - 1]))
  }

  ghost predicate FirstInv(m: Market) {
    && (m.ss.state == Running ==> EndsWith(SsOf(m.out), m.ss.log))
    && match m.rt.splice
       case None => true
       case Some(s) => s.dispatched <= |m.out| && Shows(m.out[..s.dispatched], m.ss.log)
                       && Ordinary(m.out[..s.dispatched]) == []
  }

  lemma AddEnd(s: seq<SsPacket>, t: seq<SsPacket>, pk: SsPacket)
    requires EndsWith(s, t)
    ensures EndsWith(s + [pk], t + [pk])
  {
  }

  lemma JoinEnd(s: seq<SsPacket>, t: seq<SsPacket>)
    ensures EndsWith(s + t, t)
  {
  }

  lemma GrowsKeepsFirst(m: Market, m': Market)
    requires FirstInv(m) && m.out <= m'.out && m'.ss.log == m.ss.log && m'.rt.splice == m.rt.splice
    requires m'.ss.state == Running ==> m.ss.state == Running && SsOf(m'.out) == SsOf(m.out)
    ensures FirstInv(m')
  {
    if m.rt.splice.Some? {
      var n := m.rt.splice.value.dispatched;
      assert m'.out[..n] == m.out[..n];
    }
  }

  lemma RtKeepsFirst(m: Market, num: nat)
    requires FirstInv(m)
    ensures FirstInv(RtStep(m, num)) && FirstInv(RtHeartbeatStep(m, num))
  {
    AddItem(m.out, FromRt(RtPacket(num, false)));
    AddItem(m.out, FromRt(RtPacket(num, true)));
    AppendNothing(m.out);
    AppendNothing(SsOf(m.out));
    GrowsKeepsFirst(m, RtStep(m, num));
    GrowsKeepsFirst(m, RtHeartbeatStep(m, num));
  }

  /** A packet taken before the real-time channel is released. */
  lemma TakenKeepsFirst(m: Market, pk: SsPacket)
    requires m.rt.splice.None? && (m.ss.state == Running ==> EndsWith(SsOf(m.out), m.ss.log))
    ensures FirstInv(SsTaken(m, pk))
  {
    if m.ss.state == Running {
      AddItem(m.out, FromSs(pk));
      AddEnd(SsOf(m.out), m.ss.log, pk);
    }
  }

  lemma ReleasedShows(m: Market, last: nat)
    requires m.rt.state == Waiting
    ensures Released(m, last).out[..|m.out|] == m.out
  {
  }

  lemma ClosedKeepsFirst(m: Market, pk: SsPacket, last: nat)
    requires m.rt.state == Waiting && m.ss.state == Running && Ordinary(m.out) == [] && EndsWith(SsOf(m.out), m.ss.log)
    ensures FirstInv(SsTaken(Released(m.(ss := m.ss.(state := CanBeClosed, reach := m.rt.first)), last), pk))
  {
    var m0 := m.(ss := m.ss.(state := CanBeClosed, reach := m.rt.first));
    ReleasedShows(m0, last);
    assert (Released(m0, last).out + [FromSs(pk)])[..|m.out|] == m.out;
    assert (m.ss.log + [pk])[..|m.ss.log|] == m.ss.log;
  }

  lemma CompletedKeepsFirst(m: Market, pk: SsPacket, last: nat)
    requires Gate(m) && FirstInv(m) && m.ss.state != CanBeClosed
    ensures FirstInv(SsCompleted(m, pk, last))
  {
    if m.ss.skipLog {
    } else if RoundComplete(m.rt, m.ss, last) {
      if m.bi.state.Done() { ClosedKeepsFirst(m, pk, last); }
    } else {
      TakenKeepsFirst(m.(ss := m.ss.(next := 0)), pk);
    }
  }

  lemma SsKeepsFirst(m: Market, pk: SsPacket)
    requires Gate(m) && FirstInv(m) && (m.ss.skipLog ==> m.ss.log == [])
    ensures FirstInv(SsHandled(m, pk))
  {
    if m.ss.state != CanBeClosed {
      match pk.body
      case Unknown =>
      case Data => TakenKeepsFirst(m, pk);
      case Begin(last) => TakenKeepsFirst(m.(ss := SsStarted(m.ss, pk, last)), pk);
      case Complete(last) => CompletedKeepsFirst(m, pk, last);
    }
  }

  /** What the snapshot channel replays. */
  lemma ReplayShows(m: Market)
    ensures var out := m.out + AllOf(m.ss.log);
            EndsWith(SsOf(out), m.ss.log) && Ordinary(out) == Ordinary(m.out)
  {
    OrdinaryAppend(m.out, AllOf(m.ss.log));
    AllOfIsSnapshot(m.ss.log);
    JoinEnd(SsOf(m.out), m.ss.log);
    AppendNothing(Ordinary(m.out));
  }

  lemma BasicDoneKeepsFirst(m: Market)
    requires Gate(m) && m.bi.state == Running
    ensures FirstInv(BasicDone(m))
  {
    ReplayShows(m);
    if m.ss.state == CanBeClosed { ReleasedShows(m.(out := m.out + AllOf(m.ss.log)), m.ss.start); }
  }

  lemma HeartbeatKeepsFirst(m: Market, num: nat)
    requires Gate(m) && FirstInv(m)
    ensures FirstInv(BiHeartbeatStep(m, num))
  {
    if m.bi.state == Running {
      BasicDoneKeepsFirst(m);
      BasicDoneIgnoresBasic(m, m.bi.(state := Cycled, notified := m.bi.notified + 1));
    }
  }

  lemma StepKeepsFirst(m: Market, ev: Event)
    requires Gate(m) && RoundInv(m) && FirstInv(m) && Possible(m, ev)
    ensures FirstInv(Next(m, ev))
  {
    match ev
    case RtArrives(num) => RtKeepsFirst(m, num);
    case RtHeartbeat(num) => RtKeepsFirst(m, num);
    case SsArrives(pk, waits) => SsKeepsFirst(m.(ss := SsCounted(m.ss, pk, waits)), pk);
    case BiArrives(_, _) =>
    case BiHeartbeat(num) => HeartbeatKeepsFirst(m, num);
  }

  lemma {:induction false} RunKeepsFirst(evs: seq<Event>)
    requires Run(STARTUP, evs).Some?
    ensures FirstInv(Run(STARTUP, evs).value)
  {
    if evs != [] {
      RunKeepsFirst(evs[..|evs| - 1]);
      RunKeepsGate(evs[..|evs| - 1]);
      RunKeepsRound(evs[..|evs| - 1]);
      StepKeepsFirst(Run(STARTUP, evs[..|evs| - 1]).value, evs[|evs| - 1]);
    }
  }

  /** The accepted round is dispatched before the first ordinary real-time packet is. */
  lemma SnapshotComesFirst(evs: seq<Event>)
    requires Run(STARTUP, evs).Some? && Run(STARTUP, evs).value.rt.state == Running
    ensures var m := Run(STARTUP, evs).value;
            && m.rt.splice.Some? && m.rt.splice.value.dispatched <= |m.out|
            && var before := m.out[..m.rt.splice.value.dispatched];
            && Ordinary(before) == [] && Shows(before, m.ss.log) && m.ss.log == Known(m.ss.round)
  {
    RunKeepsFirst(evs);
    RunKeepsGate(evs);
    RunKeepsRound(evs);
  }
}
