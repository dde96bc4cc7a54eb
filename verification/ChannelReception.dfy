/**
 What the channels receive: from which snapshot round on they follow, which number they expect next, what
 becomes of heartbeats, and that gaps are counted as the feeder counts them.
*/
module ChannelReception {
  import opened Wrappers
  import opened Channels
  import opened ChannelRuns
  import opened ChannelRounds
  import opened ChannelGaps
  import opened ChannelCycles
  import Feeder

  // ---- The round that is followed ----

  /** The number of the first real-time packet or heartbeat among the first k events, 0 without one. */
  function FirstNumber(evs: seq<Event>, k: nat): nat
    requires k <= |evs|
  {
    if k == 0 then 0
    else
      var before := FirstNumber(evs, k - 1);
      if before == 0 && (evs[k - 1].RtArrives? || evs[k - 1].RtHeartbeat?) then evs[k - 1].num else before
  }

  /** Event k begins a round of a snapshot that what was received of the real-time stream reaches back to. */
  predicate Joinable(evs: seq<Event>, k: nat)
    requires k < |evs|
  {
    evs[k].SsArrives? && evs[k].pk.body.Begin? && FirstNumber(evs, k) <= evs[k].pk.body.last
  }

  lemma FirstStep(m: Market, ev: Event)
    requires Possible(m, ev)
    ensures Next(m, ev).rt.first == if m.rt.first == 0 && (ev.RtArrives? || ev.RtHeartbeat?) then ev.num else m.rt.first
  {
  }

  lemma {:induction false} FirstIsNumber(evs: seq<Event>, k: nat)
    requires k <= |evs| && Run(STARTUP, evs).Some?
    ensures At(evs, k).rt.first == FirstNumber(evs, k)
    decreases k
  {
    if k == 0 {
      assert evs[..0] == [];
    } else {
      FirstIsNumber(evs, k - 1);
      EventRuns(evs, k - 1);
      FirstStep(At(evs, k - 1), evs[k - 1]);
    }
  }

  lemma SkipStep(m: Market, ev: Event)
    requires Possible(m, ev) && (m.ss.skipLog ==> m.ss.state != CanBeClosed)
    ensures Next(m, ev).ss.skipLog
            <==> m.ss.skipLog && !(ev.SsArrives? && ev.pk.body.Begin? && m.rt.first <= ev.pk.body.last)
    ensures Next(m, ev).ss.skipLog ==> Next(m, ev).ss.state != CanBeClosed
  {
  }

  ghost predicate NoneJoinable(evs: seq<Event>, k: nat)
    requires k <= |evs|
  {
    forall j | 0 <= j < k :: !Joinable(evs, j)
  }

  lemma NoneJoinableGrows(evs: seq<Event>, n: nat)
    requires n < |evs|
    ensures NoneJoinable(evs, n + 1) <==> NoneJoinable(evs, n) && !Joinable(evs, n)
  {
  }

  /** Over every run, snapshot packets are skipped exactly until a round begins that what was received of the
      real-time stream reaches back to. */
  lemma {:induction false} SkipsUntilJoinable(evs: seq<Event>, k: nat)
    requires k <= |evs| && Run(STARTUP, evs).Some?
    ensures At(evs, k).ss.skipLog <==> NoneJoinable(evs, k)
    ensures At(evs, k).ss.skipLog ==> At(evs, k).ss.state != CanBeClosed
    decreases k
  {
    if k == 0 {
      assert evs[..0] == [];
    } else {
      SkipsUntilJoinable(evs, k - 1);
      EventRuns(evs, k - 1);
      FirstIsNumber(evs, k - 1);
      SkipStep(At(evs, k - 1), evs[k - 1]);
      NoneJoinableGrows(evs, k - 1);
    }
  }

  // ---- The number expected ----

  /** The number behind the last snapshot packet among the first k events; behind a Complete that does not
      close the channel the numbers start anew. */
  function Expects(evs: seq<Event>, k: nat): nat
    requires k <= |evs|
  {
    if k == 0 then 0
    else
      match evs[k - 1]
      case SsArrives(pk, _) => if pk.body.Complete? && At(evs, k).ss.state != CanBeClosed then 0 else pk.num + 1
      case _ => Expects(evs, k - 1)
  }

  lemma NextStep(m: Market, ev: Event)
    requires Possible(m, ev)
    ensures var m' := Next(m, ev);
            m'.ss.next == if !ev.SsArrives? then m.ss.next
                          else if ev.pk.body.Complete? && m'.ss.state != CanBeClosed then 0 else ev.pk.num + 1
  {
  }

  /** Over every run, so that a round that failed can be followed again. */
  lemma {:induction false} NextIsExpected(evs: seq<Event>, k: nat)
    requires k <= |evs| && Run(STARTUP, evs).Some?
    ensures At(evs, k).ss.next == Expects(evs, k)
    decreases k
  {
    if k == 0 {
      assert evs[..0] == [];
    } else {
      NextIsExpected(evs, k - 1);
      EventRuns(evs, k - 1);
      NextStep(At(evs, k - 1), evs[k - 1]);
    }
  }

  // ---- Gaps ----

  /** A round's Begin is never counted as behind a gap, wherever the channel was. */
  lemma BeginIsNoGap(m: Market, pk: SsPacket, waits: bool)
    requires Possible(m, SsArrives(pk, waits)) && pk.body.Begin?
    ensures Next(m, SsArrives(pk, waits)).ss.lost == m.ss.lost
  {
  }

  /** The channel counts a gap exactly when its feeder keeps the packet back for what is missing, and then by
      as much as the feeder's timer does; a packet that the feeder hands on at once it does not count. */
  lemma CountsAsFeeder(c: Feeder.Config, s: Feeder.State, pk: Feeder.Packet)
    requires s.next < pk.num <= c.max < Feeder.U64 && 2 * (pk.num - s.next) <= c.max
    requires s.received == 0 ==> s.next == 0
    ensures Counts(c.waits, s.next, s.received) <==> Feeder.Feed(c, s, pk).out == s.out
    ensures Counts(c.waits, s.next, s.received) ==>
              Feeder.PassOver(c, s, pk).lost == (s.lost + (pk.num - s.next)) % Feeder.U64
    ensures !Counts(c.waits, s.next, s.received) ==>
              var s' := Feeder.Feed(c, s, pk); s.out + [pk] <= s'.out && s'.lost == s.lost
  {
    assert pk.num - s.next <= c.max / 2;
    DrainAppends(c, Feeder.Deliver(c, s, pk));
    if Counts(c.waits, s.next, s.received) { assert Feeder.Feed(c, s, pk) == Feeder.Insert(s, pk); }
  }

  lemma {:induction false} DrainAppends(c: Feeder.Config, s: Feeder.State)
    ensures s.out <= Feeder.Drain(c, s).out && Feeder.Drain(c, s).lost == s.lost
    decreases |s.pending|
  {
    if s.pending != [] && Feeder.Unshifted(c, s.pending[0]).num == s.next {
      DrainAppends(c, Feeder.Deliver(c, s, Feeder.Unshifted(c, s.pending[0])).(pending := s.pending[1..]));
    }
  }

  // ---- Heartbeats ----

  /** The real-time heartbeats dispatched, in order. */
  function Beats(items: seq<Item>): seq<RtPacket> {
    if items == [] then []
    else
      var item := items[|items| - 1];
      Beats(items[..|items| - 1]) + if item.FromRt? && item.rt.heartbeat then [item.rt] else []
  }

  function BeatsOf(log: seq<RtPacket>): seq<RtPacket> {
    if log == [] then []
    else BeatsOf(log[..|log| - 1]) + if log[|log| - 1].heartbeat then [log[|log| - 1]] else []
  }

  lemma {:induction false} BeatsAppend(a: seq<Item>, b: seq<Item>)
    ensures Beats(a + b) == Beats(a) + Beats(b)
  {
    if b == [] {
      assert a + b == a;
      AppendNothing(Beats(a));
    } else {
      assert (a + b)[..|a + b| - 1] == a + b[..|b| - 1];
      BeatsAppend(a, b[..|b| - 1]);
    }
  }

  lemma AddBeat(items: seq<Item>, item: Item)
    ensures Beats(items + [item]) == Beats(items) + if item.FromRt? && item.rt.heartbeat then [item.rt] else []
  {
    assert (items + [item])[..|items|] == items;
  }

  lemma AddBeatOf(log: seq<RtPacket>, pk: RtPacket)
    ensures BeatsOf(log + [pk]) == BeatsOf(log) + if pk.heartbeat then [pk] else []
  {
    assert (log + [pk])[..|log|] == log;
  }

  lemma {:induction false} BeatsOfFrom(log: seq<RtPacket>, last: nat)
    ensures Beats(From(log, last + 1)) == Above(BeatsOf(log), last)
  {
    if log != [] {
      var log', pk := log[..|log| - 1], log[|log| - 1];
      BeatsOfFrom(log', last);
      AddBeat(From(log', last + 1), FromRt(pk));
      AddAbove(BeatsOf(log'), pk, last);
      AppendNothing(From(log', last + 1));
      AppendNothing(BeatsOf(log'));
      AppendNothing(Above(BeatsOf(log'), last));
    }
  }

  lemma {:induction false} NoBeatsInSnapshot(log: seq<SsPacket>)
    ensures Beats(AllOf(log)) == []
  {
    if log != [] {
      NoBeatsInSnapshot(log[..|log| - 1]);
      assert AllOf(log)[..|log| - 1] == AllOf(log[..|log| - 1]);
    }
  }

  /** The heartbeats that ought to have been dispatched: each as it came, and at the splice those of the log
      above the snapshot's last number once more. */
  function Beaten(rt: Realtime): seq<RtPacket> {
    match rt.splice
    case None => BeatsOf(rt.log)
    case Some(s) =>
      if s.logged > |rt.log| then []
      else BeatsOf(rt.log[..s.logged]) + Above(BeatsOf(rt.log[..s.logged]), s.last) + BeatsOf(rt.log[s.logged..])
  }

  ghost predicate BeatInv(m: Market) { Beats(m.out) == Beaten(m.rt) }

  lemma BeatenGrows(rt: Realtime, pk: RtPacket)
    requires rt.splice.Some? ==> rt.splice.value.logged <= |rt.log|
    ensures Beaten(RtLogged(rt, pk)) == Beaten(rt) + if pk.heartbeat then [pk] else []
  {
    match rt.splice
    case None => AddBeatOf(rt.log, pk);
    case Some(s) =>
      assert (rt.log + [pk])[..s.logged] == rt.log[..s.logged];
      assert (rt.log + [pk])[s.logged..] == rt.log[s.logged..] + [pk];
      AddBeatOf(rt.log[s.logged..], pk);
  }

  lemma RtKeepsBeats(m: Market, num: nat)
    requires Gate(m) && BeatInv(m)
    ensures BeatInv(RtStep(m, num)) && BeatInv(RtHeartbeatStep(m, num))
  {
    BeatenGrows(m.rt, RtPacket(num, false));
    BeatenGrows(m.rt, RtPacket(num, true));
    AddBeat(m.out, FromRt(RtPacket(num, false)));
    AddBeat(m.out, FromRt(RtPacket(num, true)));
    AppendNothing(m.out);
    AppendNothing(Beats(m.out));
  }

  lemma TakenKeepsBeats(m: Market, pk: SsPacket)
    ensures Beats(SsTaken(m, pk).out) == Beats(m.out)
  {
    AddBeat(m.out, FromSs(pk));
    AppendNothing(m.out);
    AppendNothing(Beats(m.out));
  }

  lemma ReleaseBeats(m: Market, last: nat)
    requires BeatInv(m) && m.rt.state == Waiting && m.rt.splice.None?
    ensures BeatInv(Released(m, last))
  {
    BeatsAppend(m.out, From(m.rt.log, last + 1));
    BeatsOfFrom(m.rt.log, last);
    assert m.rt.log[..|m.rt.log|] == m.rt.log && m.rt.log[|m.rt.log|..] == [];
    AppendNothing(BeatsOf(m.rt.log) + Above(BeatsOf(m.rt.log), last));
  }

  lemma CompletedKeepsBeats(m: Market, pk: SsPacket, last: nat)
    requires Gate(m) && BeatInv(m) && m.ss.state != CanBeClosed
    ensures BeatInv(SsCompleted(m, pk, last))
  {
    if m.ss.skipLog {
    } else if RoundComplete(m.rt, m.ss, last) {
      var m' := m.(ss := m.ss.(state := CanBeClosed, reach := m.rt.first));
      if m.bi.state.Done() {
        ReleaseBeats(m', last);
        TakenKeepsBeats(Released(m', last), pk);
      } else {
        TakenKeepsBeats(m', pk);
      }
    } else {
      TakenKeepsBeats(m.(ss := m.ss.(next := 0)), pk);
    }
  }

  lemma SsKeepsBeats(m: Market, pk: SsPacket)
    requires Gate(m) && BeatInv(m)
    ensures BeatInv(SsHandled(m, pk))
  {
    if m.ss.state != CanBeClosed {
      match pk.body
      case Unknown =>
      case Data => TakenKeepsBeats(m, pk);
      case Begin(last) => TakenKeepsBeats(m.(ss := SsStarted(m.ss, pk, last)), pk);
      case Complete(last) => CompletedKeepsBeats(m, pk, last);
    }
  }

  lemma BasicDoneKeepsBeats(m: Market)
    requires Gate(m) && BeatInv(m) && m.bi.state == Running
    ensures BeatInv(BasicDone(m))
  {
    BeatsAppend(m.out, AllOf(m.ss.log));
    NoBeatsInSnapshot(m.ss.log);
    AppendNothing(Beats(m.out));
    if m.ss.state == CanBeClosed { ReleaseBeats(m.(out := m.out + AllOf(m.ss.log)), m.ss.start); }
  }

  lemma HeartbeatKeepsBeats(m: Market, num: nat)
    requires Gate(m) && BeatInv(m)
    ensures BeatInv(BiHeartbeatStep(m, num))
  {
    if m.bi.state == Running {
      BasicDoneKeepsBeats(m);
      BasicDoneIgnoresBasic(m, m.bi.(state := Cycled, notified := m.bi.notified + 1));
    }
  }

  lemma StepKeepsBeats(m: Market, ev: Event)
    requires Gate(m) && BeatInv(m) && Possible(m, ev)
    ensures BeatInv(Next(m, ev))
  {
    match ev
    case RtArrives(num) => RtKeepsBeats(m, num);
    case RtHeartbeat(num) => RtKeepsBeats(m, num);
    case SsArrives(pk, waits) => SsKeepsBeats(m.(ss := SsCounted(m.ss, pk, waits)), pk);
    case BiArrives(_, _) =>
    case BiHeartbeat(num) => HeartbeatKeepsBeats(m, num);
  }

  /** Over every run, exactly these real-time heartbeats are dispatched, in this order: each one when it
      comes, open or not, and at the splice those logged above the snapshot's last number again. */
  lemma {:induction false} BeatsAreExact(evs: seq<Event>)
    requires Run(STARTUP, evs).Some?
    ensures Beats(Run(STARTUP, evs).value.out) == Beaten(Run(STARTUP, evs).value.rt)
  {
    if evs != [] {
      BeatsAreExact(evs[..|evs| - 1]);
      RunKeepsGate(evs[..|evs| - 1]);
      StepKeepsBeats(Run(STARTUP, evs[..|evs| - 1]).value, evs[|evs| - 1]);
    }
  }
}
