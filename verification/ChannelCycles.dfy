/**
 What a complete cycle of the basic information is worth, said of the packets and heartbeats of its channel
 alone: two heartbeats, and every packet between them.
*/
module ChannelCycles {
  import opened Wrappers
  import opened Channels
  import opened ChannelRuns
  import opened ChannelGaps

  /** The number behind the last packet of the basic information among the first k events, 0 without one. */
  function Behind(evs: seq<Event>, k: nat): nat
    requires k <= |evs|
  {
    if k == 0 then 0
    else if evs[k - 1].BiArrives? then evs[k - 1].num + 1
    else Behind(evs, k - 1)
  }

  /** Event k is a heartbeat that repeats the number of the packet in front of it. */
  predicate Echo(evs: seq<Event>, k: nat)
    requires k < |evs|
  {
    evs[k].BiHeartbeat? && evs[k].num != 0 && Behind(evs, k) == evs[k].num + 1
  }

  /** Event k is a packet handed on behind a gap that the feeder has waited for in vain. */
  predicate Misses(evs: seq<Event>, k: nat)
    requires k < |evs|
  {
    evs[k].BiArrives? && evs[k].waits && evs[k].num != Behind(evs, k)
  }

  ghost predicate NoMiss(evs: seq<Event>, i: nat, j: nat)
    requires i <= j <= |evs|
  {
    forall k | i <= k < j :: !Misses(evs, k)
  }

  /** Two heartbeats with different numbers and no gap between them that the feeder has waited for. */
  ghost predicate Cycle(evs: seq<Event>, i: nat, j: nat)
    requires i < |evs| && j < |evs|
  {
    i < j && Echo(evs, i) && Echo(evs, j) && evs[i].num < evs[j].num && NoMiss(evs, i, j)
  }

  ghost predicate HasCycle(evs: seq<Event>, n: nat)
    requires n <= |evs|
  {
    exists i, j | 0 <= i < n && 0 <= j < n :: Cycle(evs, i, j)
  }

  // ---- Numbers grow ----

  lemma PrefixRuns(evs: seq<Event>, k: nat)
    requires k < |evs| && Run(STARTUP, evs[..k + 1]).Some?
    ensures Run(STARTUP, evs[..k]).Some? && Possible(At(evs, k), evs[k]) && At(evs, k + 1) == Next(At(evs, k), evs[k])
  {
    assert evs[..k + 1][..k] == evs[..k];
  }

  lemma {:induction false} AllPrefixesRun(evs: seq<Event>, k: nat)
    requires k <= |evs| && Run(STARTUP, evs).Some?
    ensures Run(STARTUP, evs[..k]).Some?
    decreases |evs| - k
  {
    if k == |evs| {
      assert evs[..k] == evs;
    } else {
      AllPrefixesRun(evs, k + 1);
      PrefixRuns(evs, k);
    }
  }

  lemma EventRuns(evs: seq<Event>, k: nat)
    requires k < |evs| && Run(STARTUP, evs).Some?
    ensures Possible(At(evs, k), evs[k]) && At(evs, k + 1) == Next(At(evs, k), evs[k])
  {
    AllPrefixesRun(evs, k + 1);
    PrefixRuns(evs, k);
  }

  lemma BasicStep(m: Market, ev: Event)
    requires Possible(m, ev) && !ev.BiArrives? && !ev.BiHeartbeat?
    ensures Next(m, ev).bi == m.bi
  {
  }

  lemma HeartbeatStep(m: Market, num: nat)
    ensures var bi, bi' := m.bi, BiHeartbeatStep(m, num).bi;
            && bi'.next == bi.next && bi'.lost == bi.lost && bi'.received == bi.received
            && if bi.next != num + 1 || num == 0 || bi.start == num + 1 then bi' == bi
               else && bi'.start == num + 1 && bi'.before == bi.lost
                    && (bi'.state.Done() <==> bi.state.Done() || (bi.start != 0 && bi.lost == bi.before))
  {
  }

  lemma {:induction false} NextIsBehind(evs: seq<Event>, k: nat)
    requires k <= |evs| && Run(STARTUP, evs).Some?
    ensures At(evs, k).bi.next == Behind(evs, k)
    ensures At(evs, k).bi.received == 0 ==> Behind(evs, k) == 0
    decreases k
  {
    if k > 0 {
      NextIsBehind(evs, k - 1);
      EventRuns(evs, k - 1);
      var m, ev := At(evs, k - 1), evs[k - 1];
      if ev.BiHeartbeat? { HeartbeatStep(m, ev.num); } else if !ev.BiArrives? { BasicStep(m, ev); }
    } else {
      assert evs[..0] == [];
    }
  }

  /** Packets of the basic information come with growing numbers. */
  ghost predicate Growing(evs: seq<Event>) {
    forall k | 0 <= k < |evs| && evs[k].BiArrives? :: evs[k].num >= Behind(evs, k)
  }

  lemma RunIsGrowing(evs: seq<Event>)
    requires Run(STARTUP, evs).Some?
    ensures Growing(evs)
  {
    forall k | 0 <= k < |evs| && evs[k].BiArrives?
      ensures evs[k].num >= Behind(evs, k)
    {
      EventRuns(evs, k);
      NextIsBehind(evs, k);
    }
  }

  lemma {:induction false} BehindGrows(evs: seq<Event>, i: nat, j: nat)
    requires i <= j <= |evs| && Growing(evs)
    ensures Behind(evs, i) <= Behind(evs, j)
    decreases j
  {
    if i < j { BehindGrows(evs, i, j - 1); }
  }

  lemma ArrivesBetween(evs: seq<Event>, i: nat, k: nat, j: nat)
    requires i <= k < j <= |evs| && Growing(evs) && evs[k].BiArrives?
    ensures Behind(evs, i) <= evs[k].num < Behind(evs, j)
  {
    BehindGrows(evs, i, k);
    BehindGrows(evs, k + 1, j);
  }

  // ---- The heartbeat the code goes by ----

  /** The last heartbeat that begins a cycle: the first one of its number. */
  function Latest(evs: seq<Event>, k: nat): (r: Option<nat>)
    requires k <= |evs|
    ensures r.Some? ==> r.value < k && Echo(evs, r.value)
  {
    if k == 0 then None
    else
      var r := Latest(evs, k - 1);
      if Echo(evs, k - 1) && (r.None? || evs[r.value].num != evs[k - 1].num) then Some(k - 1) else r
  }

  lemma {:induction false} LatestIsLargest(evs: seq<Event>, i: nat, k: nat)
    requires i < k <= |evs| && Growing(evs) && Echo(evs, i)
    ensures Latest(evs, k).Some? && evs[i].num <= evs[Latest(evs, k).value].num
    ensures i > Latest(evs, k).value ==> evs[i].num == evs[Latest(evs, k).value].num
    decreases k
  {
    if i < k - 1 {
      LatestIsLargest(evs, i, k - 1);
      BehindGrows(evs, i, k - 1);
    } else if Latest(evs, i).Some? {
      BehindGrows(evs, Latest(evs, i).value, i);
    }
  }

  lemma SameNumberNoMiss(evs: seq<Event>, i: nat, j: nat)
    requires i <= j < |evs| && Growing(evs) && Echo(evs, i) && Echo(evs, j) && evs[i].num == evs[j].num
    ensures NoMiss(evs, i, j)
  {
    forall k | i <= k < j
      ensures !evs[k].BiArrives?
    {
      if evs[k].BiArrives? {
        ArrivesBetween(evs, i, k, j);
        assert false;
      }
    }
  }

  /** What the fields of the basic information say about the events. */
  ghost predicate Says(evs: seq<Event>, k: nat)
    requires k <= |evs|
  {
    var bi := At(evs, k).bi;
    && bi.before <= bi.lost
    && (bi.state.Done() <==> HasCycle(evs, k))
    && match Latest(evs, k)
       case None => bi.start == 0
       case Some(i) => bi.start == evs[i].num + 1 && (bi.lost == bi.before <==> NoMiss(evs, i, k))
  }

  lemma NoMissGrows(evs: seq<Event>, i: nat, k: nat)
    requires i <= k < |evs|
    ensures NoMiss(evs, i, k + 1) <==> NoMiss(evs, i, k) && !Misses(evs, k)
  {
  }

  lemma QuietKeepsCycles(evs: seq<Event>, k: nat)
    requires k < |evs| && !Echo(evs, k)
    ensures HasCycle(evs, k + 1) <==> HasCycle(evs, k)
    ensures Latest(evs, k + 1) == Latest(evs, k)
  {
    if HasCycle(evs, k + 1) {
      var i, j :| 0 <= i < k + 1 && 0 <= j < k + 1 && Cycle(evs, i, j);
      assert i < k && j < k;
    }
  }

  lemma ShorterCycle(evs: seq<Event>, i: nat, l: nat, k: nat)
    requires i < l < k < |evs| && Cycle(evs, i, k) && Echo(evs, l) && evs[l].num == evs[k].num
    ensures Cycle(evs, i, l)
  {
  }

  /** A heartbeat that repeats a number closes no cycle that was not closed before. */
  lemma RepeatKeepsCycles(evs: seq<Event>, k: nat)
    requires k < |evs| && Growing(evs) && Echo(evs, k)
    requires Latest(evs, k).Some? && evs[Latest(evs, k).value].num == evs[k].num
    ensures HasCycle(evs, k + 1) <==> HasCycle(evs, k)
  {
    if HasCycle(evs, k + 1) {
      var i, j :| 0 <= i < k + 1 && 0 <= j < k + 1 && Cycle(evs, i, j);
      if j == k {
        var l := Latest(evs, k).value;
        LatestIsLargest(evs, i, k);
        ShorterCycle(evs, i, l, k);
      }
    }
  }

  /** A heartbeat with a new number closes a cycle if the one that began it is the latest and nothing was
      missed since. */
  lemma NewClosesCycle(evs: seq<Event>, k: nat)
    requires k < |evs| && Growing(evs) && Echo(evs, k)
    requires Latest(evs, k).Some? ==> evs[Latest(evs, k).value].num != evs[k].num
    ensures HasCycle(evs, k + 1) <==>
            HasCycle(evs, k) || (Latest(evs, k).Some? && NoMiss(evs, Latest(evs, k).value, k))
  {
    if HasCycle(evs, k + 1) && !HasCycle(evs, k) {
      var i, j :| 0 <= i < k + 1 && 0 <= j < k + 1 && Cycle(evs, i, j);
      assert j == k;
      LatestIsLargest(evs, i, k);
      var l := Latest(evs, k).value;
      if l < i { SameNumberNoMiss(evs, l, i); }
    }
    if Latest(evs, k).Some? && NoMiss(evs, Latest(evs, k).value, k) {
      BehindGrows(evs, Latest(evs, k).value, k);
      assert Cycle(evs, Latest(evs, k).value, k);
    }
  }

  lemma ArrivalSays(evs: seq<Event>, k: nat)
    requires k < |evs| && Run(STARTUP, evs).Some? && Says(evs, k) && evs[k].BiArrives?
    ensures Says(evs, k + 1)
  {
    RunIsGrowing(evs);
    EventRuns(evs, k);
    NextIsBehind(evs, k);
    QuietKeepsCycles(evs, k);
    if Latest(evs, k).Some? {
      NoMissGrows(evs, Latest(evs, k).value, k);
      BehindGrows(evs, Latest(evs, k).value, k);
    }
  }

  lemma HeartbeatSays(evs: seq<Event>, k: nat)
    requires k < |evs| && Run(STARTUP, evs).Some? && Says(evs, k) && evs[k].BiHeartbeat?
    ensures Says(evs, k + 1)
  {
    RunIsGrowing(evs);
    EventRuns(evs, k);
    NextIsBehind(evs, k);
    HeartbeatStep(At(evs, k), evs[k].num);
    if Latest(evs, k).Some? { NoMissGrows(evs, Latest(evs, k).value, k); }
    if !Echo(evs, k) {
      QuietKeepsCycles(evs, k);
    } else if Latest(evs, k).Some? && evs[Latest(evs, k).value].num == evs[k].num {
      RepeatKeepsCycles(evs, k);
    } else {
      NewClosesCycle(evs, k);
      assert NoMiss(evs, k, k + 1);
    }
  }

  lemma OtherSays(evs: seq<Event>, k: nat)
    requires k < |evs| && Run(STARTUP, evs).Some? && Says(evs, k) && !evs[k].BiHeartbeat? && !evs[k].BiArrives?
    ensures Says(evs, k + 1)
  {
    EventRuns(evs, k);
    BasicStep(At(evs, k), evs[k]);
    QuietKeepsCycles(evs, k);
    if Latest(evs, k).Some? { NoMissGrows(evs, Latest(evs, k).value, k); }
  }

  lemma {:induction false} AlwaysSays(evs: seq<Event>, k: nat)
    requires k <= |evs| && Run(STARTUP, evs).Some?
    ensures Says(evs, k)
    decreases k
  {
    if k == 0 {
      assert evs[..0] == [];
    } else {
      AlwaysSays(evs, k - 1);
      match evs[k - 1]
      case BiArrives(_, _) => ArrivalSays(evs, k - 1);
      case BiHeartbeat(_) => HeartbeatSays(evs, k - 1);
      case _ => OtherSays(evs, k - 1);
    }
  }

  /** Over every run the basic information is complete if and only if there were two heartbeats, each with
      the number of the packet in front of it, and between them no gap that the feeder had waited for. */
  lemma CompleteIffCycle(evs: seq<Event>)
    requires Run(STARTUP, evs).Some?
    ensures Run(STARTUP, evs).value.bi.state.Done() <==> exists i, j | 0 <= i < |evs| && 0 <= j < |evs| :: Cycle(evs, i, j)
  {
    AlwaysSays(evs, |evs|);
    assert evs[..|evs|] == evs;
  }

  // ---- Every packet of the cycle ----

  /** The packet with this number arrived between two events. */
  ghost predicate Arrived(evs: seq<Event>, i: nat, j: nat, num: nat)
    requires i <= j <= |evs|
  {
    exists k | i <= k < j :: evs[k].BiArrives? && evs[k].num == num
  }

  /** Every packet with a number from `low` up to, but not including, `high` arrived between two events. */
  ghost predicate AllArrived(evs: seq<Event>, i: nat, j: nat, low: nat, high: nat)
    requires i <= j <= |evs|
  {
    forall num: nat | low <= num < high :: Arrived(evs, i, j, num)
  }

  /** Event k is a packet handed on behind a gap, waited for or not. */
  predicate Jumps(evs: seq<Event>, k: nat)
    requires k < |evs|
  {
    evs[k].BiArrives? && evs[k].num != Behind(evs, k)
  }

  ghost predicate NoJump(evs: seq<Event>, i: nat, j: nat)
    requires i <= j <= |evs|
  {
    forall k | i <= k < j :: !Jumps(evs, k)
  }

  lemma NoJumpGrows(evs: seq<Event>, i: nat, n: nat)
    requires i <= n < |evs|
    ensures NoJump(evs, i, n + 1) <==> NoJump(evs, i, n) && !Jumps(evs, n)
  {
  }

  lemma {:induction false} WholeIffNoJump(evs: seq<Event>, i: nat, j: nat)
    requires i <= j <= |evs| && Growing(evs)
    ensures AllArrived(evs, i, j, Behind(evs, i), Behind(evs, j)) <==> NoJump(evs, i, j)
    decreases j
  {
    if i < j {
      var n, low := j - 1, Behind(evs, i);
      BehindGrows(evs, i, n);
      WholeIffNoJump(evs, i, n);
      LastArrives(evs, i, n, low);
      NoJumpGrows(evs, i, n);
      assert n + 1 == j;
    }
  }

  lemma OneMoreArrived(evs: seq<Event>, i: nat, n: nat, num: nat)
    requires i <= n < |evs|
    ensures Arrived(evs, i, n + 1, num) <==> Arrived(evs, i, n, num) || (evs[n].BiArrives? && evs[n].num == num)
  {
    if Arrived(evs, i, n, num) {
      var k :| i <= k < n && evs[k].BiArrives? && evs[k].num == num;
    }
  }

  lemma NotYetArrived(evs: seq<Event>, i: nat, n: nat, num: nat)
    requires i <= n <= |evs| && Growing(evs) && num >= Behind(evs, n)
    ensures !Arrived(evs, i, n, num)
  {
    forall k | i <= k < n && evs[k].BiArrives?
      ensures evs[k].num != num
    {
      ArrivesBetween(evs, i, k, n);
    }
  }

  /** An event with another number adds none of these. */
  lemma EarlierArrived(evs: seq<Event>, i: nat, n: nat, low: nat, high: nat)
    requires i <= n < |evs| && (evs[n].BiArrives? ==> evs[n].num >= high)
    ensures AllArrived(evs, i, n + 1, low, high) <==> AllArrived(evs, i, n, low, high)
  {
    if AllArrived(evs, i, n + 1, low, high) {
      forall num: nat | low <= num < high
        ensures Arrived(evs, i, n, num)
      {
        assert Arrived(evs, i, n + 1, num);
        OneMoreArrived(evs, i, n, num);
      }
    } else {
      var num: nat :| low <= num < high && !Arrived(evs, i, n + 1, num);
      OneMoreArrived(evs, i, n, num);
    }
  }

  /** The next packet arrives. */
  lemma NextArrives(evs: seq<Event>, i: nat, n: nat, low: nat)
    requires i <= n < |evs| && Growing(evs) && low <= Behind(evs, n)
    requires evs[n].BiArrives? && evs[n].num == Behind(evs, n)
    ensures AllArrived(evs, i, n + 1, low, Behind(evs, n + 1)) <==> AllArrived(evs, i, n, low, Behind(evs, n))
  {
    EarlierArrived(evs, i, n, low, Behind(evs, n));
    OneMoreArrived(evs, i, n, Behind(evs, n));
    assert AllArrived(evs, i, n + 1, low, Behind(evs, n + 1))
        <==> AllArrived(evs, i, n + 1, low, Behind(evs, n)) && Arrived(evs, i, n + 1, Behind(evs, n));
  }

  lemma SkippedNeverArrives(evs: seq<Event>, i: nat, n: nat, low: nat)
    requires i <= n < |evs| && Growing(evs) && low <= Behind(evs, n) && Jumps(evs, n)
    ensures !AllArrived(evs, i, n + 1, low, Behind(evs, n + 1))
  {
    NotYetArrived(evs, i, n, Behind(evs, n));
    OneMoreArrived(evs, i, n, Behind(evs, n));
  }

  lemma NothingArrives(evs: seq<Event>, i: nat, n: nat, low: nat)
    requires i <= n < |evs| && !evs[n].BiArrives?
    ensures AllArrived(evs, i, n + 1, low, Behind(evs, n + 1)) <==> AllArrived(evs, i, n, low, Behind(evs, n))
  {
    EarlierArrived(evs, i, n, low, Behind(evs, n));
  }

  /** One more event: it covers its own number, and nothing later covers what it jumps over. */
  lemma LastArrives(evs: seq<Event>, i: nat, n: nat, low: nat)
    requires i <= n < |evs| && Growing(evs) && low <= Behind(evs, n)
    ensures AllArrived(evs, i, n + 1, low, Behind(evs, n + 1))
            <==> AllArrived(evs, i, n, low, Behind(evs, n)) && !Jumps(evs, n)
  {
    if !evs[n].BiArrives? {
      NothingArrives(evs, i, n, low);
    } else if Jumps(evs, n) {
      SkippedNeverArrives(evs, i, n, low);
    } else {
      NextArrives(evs, i, n, low);
    }
  }

  /** A cycle is whole if and only if the feeder handed none of its packets on behind a gap without waiting
      for what was missing. */
  lemma WholeCycleIff(evs: seq<Event>, i: nat, j: nat)
    requires Run(STARTUP, evs).Some? && i < |evs| && j < |evs| && Cycle(evs, i, j)
    ensures AllArrived(evs, i, j, evs[i].num + 1, evs[j].num + 1)
            <==> forall k | i <= k < j :: !(Jumps(evs, k) && !evs[k].waits)
  {
    RunIsGrowing(evs);
    WholeIffNoJump(evs, i, j);
    assert forall k | i <= k < j :: Jumps(evs, k) && evs[k].waits ==> Misses(evs, k);
  }

  /** A waiting time is set for the basic information all along. */
  predicate BasicWaits(evs: seq<Event>) {
    forall ev <- evs :: ev.BiArrives? ==> ev.waits
  }

  /** Every packet between two heartbeats that repeat the numbers of packets in front of them. */
  ghost predicate WholeCycle(evs: seq<Event>, i: nat, j: nat)
    requires i < |evs| && j < |evs|
  {
    && i < j && Echo(evs, i) && Echo(evs, j) && evs[i].num < evs[j].num
    && AllArrived(evs, i, j, evs[i].num + 1, evs[j].num + 1)
  }

  /** With a waiting time set all along, the basic information is complete if and only if there were two
      heartbeats, each with the number of the packet in front of it, and every number behind the first up to
      the second arrived between them. */
  lemma CompleteIffWholeCycle(evs: seq<Event>)
    requires Run(STARTUP, evs).Some? && BasicWaits(evs)
    ensures Run(STARTUP, evs).value.bi.state.Done()
            <==> exists i, j | 0 <= i < |evs| && 0 <= j < |evs| :: WholeCycle(evs, i, j)
  {
    CompleteIffCycle(evs);
    forall i, j | 0 <= i < |evs| && 0 <= j < |evs|
      ensures Cycle(evs, i, j) <==> WholeCycle(evs, i, j)
    {
      WaitingCycleIsWhole(evs, i, j);
    }
  }

  lemma WaitingCycleIsWhole(evs: seq<Event>, i: nat, j: nat)
    requires Run(STARTUP, evs).Some? && BasicWaits(evs) && i < |evs| && j < |evs|
    ensures Cycle(evs, i, j) <==> WholeCycle(evs, i, j)
  {
    RunIsGrowing(evs);
    if i < j && Echo(evs, i) && Echo(evs, j) {
      WholeIffNoJump(evs, i, j);
      forall k | i <= k < j
        ensures Jumps(evs, k) <==> Misses(evs, k)
      {
        assert evs[k] in evs;
      }
    }
  }
}
