/**
 The multicast channels of one market: basic information, the looping order-book snapshot, and the
 real-time stream, which is logged but held back until a whole snapshot round has been received and the
 basic information is complete; then it is spliced onto the snapshot.

 A step is one packet after the feeder has put it in order. Resets of the sequence number are not part
 of this model, and the packet logs open without error.
*/
module Channels {
  import opened Wrappers

  datatype ChannelState = Running | Waiting | Cycled | CanBeClosed {
    /** state >= Cycled in the order of the enumeration. */
    predicate Done() { Cycled? || CanBeClosed? }
  }

  /** A packet of the real-time channel; a heartbeat repeats the number of the last ordinary packet. */
  datatype RtPacket = RtPacket(num: nat, heartbeat: bool)

  datatype SnapshotBody = Begin(last: nat) | Data | Complete(last: nat) | Unknown

  datatype SsPacket = SsPacket(num: nat, body: SnapshotBody)

  /** What is handed to the parsers, in order. */
  datatype Item = FromRt(rt: RtPacket) | FromSs(ss: SsPacket)

  /** When the real-time channel was released: the snapshot's last sequence number, the number expected
      next, and how many packets had been logged and how many items dispatched by then. */
  datatype Splice = Splice(last: nat, next: nat, logged: nat, dispatched: nat)

  datatype Realtime = Realtime(state: ChannelState, log: seq<RtPacket>, first: nat, next: nat, splice: Option<Splice>)

  /** `received` counts the packets the feeder has handed on. `round`, `uncounted` and `reach` are
      bookkeeping of the model: the packets since Begin, the gaps between them that the feeder did not add
      to `lost`, and the first real-time number when the round was accepted. */
  datatype Snapshot = Snapshot(state: ChannelState, skipLog: bool, start: nat, before: nat, lost: nat, next: nat,
                               received: nat, log: seq<SsPacket>, round: seq<SsPacket>, uncounted: nat, reach: nat)

  /** `notified` counts the calls of ChannelCycled. */
  datatype BasicInfo = BasicInfo(state: ChannelState, start: nat, before: nat, lost: nat, next: nat, received: nat,
                                 notified: nat)

  datatype Market = Market(rt: Realtime, ss: Snapshot, bi: BasicInfo, out: seq<Item>)

  /** StartupChannel of the three channels. */
  const STARTUP := Market(Realtime(Waiting, [], 0, 0, None), Snapshot(Waiting, true, 0, 0, 0, 0, 0, [], [], 0, 0),
                          BasicInfo(Running, 0, 0, 0, 0, 0, 0), [])

  // ---- The parts of a step ----

  predicate Taken(pk: RtPacket, from: nat) { from == 0 || pk.num >= from }

  /** The logged packets that ReloadDispatch(from) hands on. */
  function From(log: seq<RtPacket>, from: nat): seq<Item> {
    if log == [] then []
    else
      var pk := log[|log| - 1];
      From(log[..|log| - 1], from) + if Taken(pk, from) then [FromRt(pk)] else []
  }

  function AllOf(log: seq<SsPacket>): (items: seq<Item>)
    ensures |items| == |log| && forall i | 0 <= i < |log| :: items[i] == FromSs(log[i])
  {
    if log == [] then [] else AllOf(log[..|log| - 1]) + [FromSs(log[|log| - 1])]
  }

  /** OnSnapshotDone: the real-time channel, if it still waits, replays its log behind the snapshot. */
  function Released(m: Market, last: nat): Market {
    if m.rt.state != Waiting then m
    else m.(rt := m.rt.(state := Running, splice := Some(Splice(last, m.rt.next, |m.rt.log|, |m.out|))),
            out := m.out + From(m.rt.log, last + 1))
  }

  /** ChannelCycled of the basic information: the snapshot channel replays what it has, and if its round
      is complete the real-time channel is released. */
  function BasicDone(m: Market): Market {
    var ss := if m.ss.state.Done() then m.ss else m.ss.(state := Running);
    var m' := m.(ss := ss, out := m.out + AllOf(m.ss.log));
    if ss.state == CanBeClosed then Released(m', ss.start) else m'
  }

  function RtLogged(rt: Realtime, pk: RtPacket): Realtime {
    rt.(log := rt.log + [pk], first := if rt.first == 0 then pk.num else rt.first)
  }

  // ---- Steps ----

  datatype Event =
    | RtArrives(num: nat)
    | RtHeartbeat(num: nat)
    | SsArrives(pk: SsPacket, waits: bool)
    | BiArrives(num: nat, waits: bool)
    | BiHeartbeat(num: nat)

  /** The feeder delivers increasing numbers, except that number 1 starts the snapshot's count again. The
      exchange numbers from 1, and of a snapshot round exactly Begin has number 1. `waits` says whether the
      feeder waits for missing packets, that is, whether a waiting time is set. */
  predicate Possible(m: Market, ev: Event) {
    match ev
    case RtArrives(num) => num >= 1 && num >= m.rt.next
    case RtHeartbeat(_) => true
    case SsArrives(pk, _) => pk.num >= 1 && (pk.num == 1 <==> pk.body.Begin?) && (pk.num == 1 || pk.num >= m.ss.next)
    case BiArrives(num, _) => num >= m.bi.next
    case BiHeartbeat(_) => true
  }

  function RtStep(m: Market, num: nat): Market {
    var pk := RtPacket(num, false);
    m.(rt := RtLogged(m.rt, pk).(next := num + 1), out := m.out + if m.rt.state != Waiting then [FromRt(pk)] else [])
  }

  function RtHeartbeatStep(m: Market, num: nat): Market {
    var pk := RtPacket(num, true);
    m.(rt := RtLogged(m.rt, pk), out := m.out + [FromRt(pk)])
  }

  /** A feeder adds a gap to its lost count when it has waited for what is missing; but it never waits in
      front of the first packet of all. */
  predicate Counts(waits: bool, next: nat, received: nat) { waits && !(next == 0 && received == 0) }

  function Gap(ss: Snapshot, pk: SsPacket): nat
    requires pk.num == 1 || pk.num >= ss.next
  {
    if pk.num == 1 then 0 else pk.num - ss.next
  }

  /** The snapshot channel as OnPkContSnapshot finds it. */
  function SsCounted(ss: Snapshot, pk: SsPacket, waits: bool): Snapshot
    requires pk.num == 1 || pk.num >= ss.next
  {
    var gap, counted := Gap(ss, pk), Counts(waits, ss.next, ss.received);
    var ss' := ss.(lost := if counted then ss.lost + gap else ss.lost, next := pk.num + 1, received := ss.received + 1);
    if ss.state == CanBeClosed then ss'
    else ss'.(round := ss.round + [pk], uncounted := if counted then ss.uncounted else ss.uncounted + gap)
  }

  /** The end of PkContOnReceived for a snapshot packet that is taken. */
  function SsTaken(m: Market, pk: SsPacket): Market {
    m.(ss := m.ss.(log := m.ss.log + [pk]), out := m.out + if m.ss.state != Waiting then [FromSs(pk)] else [])
  }

  /** OnCycleStart at Begin. While the channel skips, nothing is logged. */
  function SsStarted(ss: Snapshot, pk: SsPacket, last: nat): Snapshot {
    ss.(skipLog := false, start := last, before := ss.lost, log := if ss.skipLog then ss.log else [],
        round := [pk], uncounted := 0)
  }

  /** The check at Complete: the same last number as Begin, a real-time log that reaches back far enough,
      and nothing lost since Begin. */
  predicate RoundComplete(rt: Realtime, ss: Snapshot, last: nat) {
    last == ss.start && (rt.first == 1 || rt.first <= last) && ss.lost == ss.before
  }

  function SsCompleted(m: Market, pk: SsPacket, last: nat): Market {
    if m.ss.skipLog then m.(ss := m.ss.(next := 0))
    else if RoundComplete(m.rt, m.ss, last) then
      var m' := m.(ss := m.ss.(state := CanBeClosed, reach := m.rt.first));
      SsTaken(if m.bi.state.Done() then Released(m', last) else m', pk)
    else SsTaken(m.(ss := m.ss.(next := 0)), pk)
  }

  /** A snapshot packet whose gap has been counted: what OnPkContSnapshot decides and what follows. */
  function SsHandled(m: Market, pk: SsPacket): Market {
    if m.ss.state == CanBeClosed then m
    else
      match pk.body
      case Unknown => m
      case Data => if m.ss.skipLog then m else SsTaken(m, pk)
      case Begin(last) =>
        if m.ss.skipLog && m.rt.first > last then m else SsTaken(m.(ss := SsStarted(m.ss, pk, last)), pk)
      case Complete(last) => SsCompleted(m, pk, last)
  }

  function SsStep(m: Market, pk: SsPacket, waits: bool): Market
    requires pk.num == 1 || pk.num >= m.ss.next
  {
    SsHandled(m.(ss := SsCounted(m.ss, pk, waits)), pk)
  }

  function BiStep(m: Market, num: nat, waits: bool): Market
    requires num >= m.bi.next
  {
    var counted := Counts(waits, m.bi.next, m.bi.received);
    m.(bi := m.bi.(lost := if counted then m.bi.lost + (num - m.bi.next) else m.bi.lost, next := num + 1,
                   received := m.bi.received + 1))
  }

  function BiHeartbeatStep(m: Market, num: nat): Market {
    var bi := m.bi;
    if bi.next != num + 1 || num == 0 || bi.start == num + 1 then m
    else
      var m' := if bi.start != 0 && !bi.state.Done() && bi.lost == bi.before
                then BasicDone(m.(bi := bi.(state := Cycled, notified := bi.notified + 1))) else m;
      m'.(bi := m'.bi.(start := num + 1, before := bi.lost))
  }

  function Next(m: Market, ev: Event): Market
    requires Possible(m, ev)
  {
    match ev
    case RtArrives(num) => RtStep(m, num)
    case RtHeartbeat(num) => RtHeartbeatStep(m, num)
    case SsArrives(pk, waits) => SsStep(m, pk, waits)
    case BiArrives(num, waits) => BiStep(m, num, waits)
    case BiHeartbeat(num) => BiHeartbeatStep(m, num)
  }

  /** The events one after the other, as long as each is possible. */
  function Run(m: Market, evs: seq<Event>): Option<Market> {
    if evs == [] then Some(m)
    else match Run(m, evs[..|evs| - 1])
      case None => None
      case Some(m') => if Possible(m', evs[|evs| - 1]) then Some(Next(m', evs[|evs| - 1])) else None
  }

  // ---- The channel manager, in place ----

  class ChannelMgr {
    var rt: Realtime
    var ss: Snapshot
    var bi: BasicInfo
    var out: seq<Item>

    ghost function View(): Market reads this { Market(rt, ss, bi, out) }

    constructor ()
      ensures View() == STARTUP
    {
      rt, ss, bi, out := STARTUP.rt, STARTUP.ss, STARTUP.bi, [];
    }

    method Dispatch(item: Item)
      modifies `out
      ensures out == old(out) + [item]
    {
      out := out + [item];
    }

    /** ReloadDispatch of the real-time channel. */
    method ReloadRealtime(from: nat)
      modifies `rt, `out
      ensures out == old(out) + From(rt.log, from)
      ensures rt == if old(rt).state.Done() then old(rt) else old(rt).(state := Running)
    {
      for i := 0 to |rt.log|
        invariant rt == old(rt)
        invariant out == old(out) + From(rt.log[..i], from)
      {
        assert rt.log[..i + 1][..i] == rt.log[..i];
        if from == 0 || rt.log[i].num >= from { Dispatch(FromRt(rt.log[i])); }
      }
      assert rt.log[..|rt.log|] == rt.log;
      if rt.state != Cycled && rt.state != CanBeClosed { rt := rt.(state := Running); }
    }

    /** ReloadDispatch(0) of the snapshot channel. */
    method ReloadSnapshot()
      modifies `ss, `out
      ensures out == old(out) + AllOf(old(ss).log)
      ensures ss == if old(ss).state.Done() then old(ss) else old(ss).(state := Running)
    {
      for i := 0 to |ss.log|
        invariant ss == old(ss)
        invariant out == old(out) + AllOf(ss.log[..i])
      {
        assert ss.log[..i + 1][..i] == ss.log[..i];
        Dispatch(FromSs(ss.log[i]));
      }
      assert ss.log[..|ss.log|] == ss.log;
      if ss.state != Cycled && ss.state != CanBeClosed { ss := ss.(state := Running); }
    }

    method OnSnapshotDone(last: nat)
      modifies `rt, `out
      ensures View() == Released(old(View()), last)
    {
      if rt.state == Waiting {
        var at := Splice(last, rt.next, |rt.log|, |out|);
        ReloadRealtime(last + 1);
        rt := rt.(splice := Some(at));
      }
    }

    method ChannelCycled()
      modifies `rt, `ss, `out
      ensures View() == BasicDone(old(View()))
    {
      ReloadSnapshot();
      if ss.state == CanBeClosed { OnSnapshotDone(ss.start); }
    }

    method PkLogAppend(pk: RtPacket)
      modifies `rt
      ensures rt == RtLogged(old(rt), pk)
    {
      if rt.first == 0 { rt := rt.(first := pk.num); }
      rt := rt.(log := rt.log + [pk]);
    }

    method OnRtPacket(num: nat)
      modifies `rt, `out
      ensures View() == RtStep(old(View()), num)
    {
      var pk := RtPacket(num, false);
      if rt.state != Waiting { Dispatch(FromRt(pk)); }
      PkLogAppend(pk);
      rt := rt.(next := num + 1);
    }

    method OnRtHeartbeat(num: nat)
      modifies `rt, `out
      ensures View() == RtHeartbeatStep(old(View()), num)
    {
      PkLogAppend(RtPacket(num, true));
      Dispatch(FromRt(RtPacket(num, true)));
    }

    /** OnPkContSnapshot: true if the packet is taken. */
    method OnSnapshotControl(pk: SsPacket) returns (taken: bool)
      modifies `rt, `ss, `out
      ensures SsHandled(old(View()), pk) == if taken then SsTaken(View(), pk) else View()
    {
      if ss.state == CanBeClosed { return false; }
      match pk.body {
        case Unknown => return false;
        case Data => return !ss.skipLog;
        case Begin(last) =>
          if ss.skipLog {
            if rt.first > last { return false; }
            ss := ss.(skipLog := false, start := last, before := ss.lost);
          } else {
            ss := ss.(start := last, before := ss.lost, log := []);
          }
          ss := ss.(round := [pk], uncounted := 0);
          return true;
        case Complete(last) =>
          if ss.skipLog { ss := ss.(next := 0); return false; }
          if last == ss.start && (rt.first == 1 || rt.first <= last) && ss.lost == ss.before {
            ss := ss.(state := CanBeClosed, reach := rt.first);
            if bi.state.Done() { OnSnapshotDone(last); }
          }
          if ss.state != CanBeClosed { ss := ss.(next := 0); }
          return true;
      }
    }

    /** What the feeder has done to its counts when it hands a packet on. */
    method FeederCounts(pk: SsPacket, waits: bool)
      requires pk.num == 1 || pk.num >= ss.next
      modifies `ss
      ensures ss == SsCounted(old(ss), pk, waits)
    {
      var gap := if pk.num == 1 then 0 else pk.num - ss.next;
      var counted := waits && !(ss.next == 0 && ss.received == 0);
      if counted { ss := ss.(lost := ss.lost + gap); }
      ss := ss.(next := pk.num + 1, received := ss.received + 1);
      if ss.state != CanBeClosed {
        ss := ss.(round := ss.round + [pk]);
        if !counted { ss := ss.(uncounted := ss.uncounted + gap); }
      }
    }

    method OnSsPacket(pk: SsPacket, waits: bool)
      requires pk.num == 1 || pk.num >= ss.next
      modifies `rt, `ss, `out
      ensures View() == SsStep(old(View()), pk, waits)
    {
      FeederCounts(pk, waits);
      var taken := OnSnapshotControl(pk);
      if taken {
        if ss.state != Waiting { Dispatch(FromSs(pk)); }
        ss := ss.(log := ss.log + [pk]);
      }
    }

    method OnBiPacket(num: nat, waits: bool)
      requires num >= bi.next
      modifies `bi
      ensures View() == BiStep(old(View()), num, waits)
    {
      if waits && !(bi.next == 0 && bi.received == 0) { bi := bi.(lost := bi.lost + (num - bi.next)); }
      bi := bi.(next := num + 1, received := bi.received + 1);
    }

    method OnBiHeartbeat(num: nat)
      modifies this
      ensures View() == BiHeartbeatStep(old(View()), num)
    {
      if bi.next != num + 1 { return; }
      if num == 0 || bi.start == num + 1 { return; }
      if bi.start != 0 && bi.state != Cycled && bi.state != CanBeClosed && bi.lost == bi.before {
        bi := bi.(state := Cycled, notified := bi.notified + 1);
        ChannelCycled();
      }
      bi := bi.(start := num + 1, before := bi.lost);
    }
  }
}
