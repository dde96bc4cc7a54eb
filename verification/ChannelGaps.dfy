/**
 Which runs of the feeder accept only whole snapshot rounds: the condition on the packets of a round as
 they are handed on.
*/
module ChannelGaps {
  import opened Wrappers
  import opened Channels
  import opened ChannelRuns
  import opened ChannelRounds

  /** The market in front of event k. */
  function At(evs: seq<Event>, k: nat): Market
    requires k <= |evs|
  {
    match Run(STARTUP, evs[..k]) case Some(m) => m case None => STARTUP
  }

  /** Event k is a packet on the snapshot channel that a still open round is followed with. */
  predicate Follows(evs: seq<Event>, k: nat)
    requires k < |evs|
  {
    evs[k].SsArrives? && evs[k].pk.num > 1 && !At(evs, k).ss.skipLog && At(evs, k).ss.state != CanBeClosed
  }

  /** Event k begins a round anew. */
  predicate Restarts(evs: seq<Event>, k: nat)
    requires k < |evs|
  {
    evs[k].SsArrives? && evs[k].pk.num == 1 && At(evs, k).ss.state != CanBeClosed
  }

  /** Event k is a packet behind Begin of the round that is now followed or accepted. */
  ghost predicate InRound(evs: seq<Event>, k: nat)
    requires k < |evs|
  {
    Follows(evs, k) && forall j | k < j < |evs| :: !Restarts(evs, j)
  }

  /** The feeder handed the packet on behind a gap without waiting for what is missing. */
  predicate Leaps(evs: seq<Event>, k: nat)
    requires k < |evs|
  {
    evs[k].SsArrives? && !evs[k].waits && evs[k].pk.num > At(evs, k).ss.next
  }

  ghost predicate NoLeap(evs: seq<Event>) {
    forall k | 0 <= k < |evs| && InRound(evs, k) :: !Leaps(evs, k)
  }

  lemma AtFront(evs: seq<Event>, k: nat)
    requires k < |evs|
    ensures var front := evs[..|evs| - 1];
            && At(evs, k) == At(front, k)
            && (k < |front| ==> (Follows(evs, k) <==> Follows(front, k)) && (Restarts(evs, k) <==> Restarts(front, k))
                                && (Leaps(evs, k) <==> Leaps(front, k)))
  {
    assert evs[..|evs| - 1][..k] == evs[..k];
  }

  /** An event that does not begin a round leaves the packets before it in their round. */
  lemma FrontInRound(evs: seq<Event>, k: nat)
    requires k < |evs| - 1 && !Restarts(evs, |evs| - 1)
    ensures InRound(evs, k) <==> InRound(evs[..|evs| - 1], k)
    ensures Leaps(evs, k) <==> Leaps(evs[..|evs| - 1], k)
  {
    var front := evs[..|evs| - 1];
    AtFront(evs, k);
    forall j | k < j < |front|
      ensures Restarts(evs, j) <==> Restarts(front, j)
    {
      AtFront(evs, j);
    }
  }

  lemma NoLeapGrows(evs: seq<Event>)
    requires evs != [] && !Restarts(evs, |evs| - 1)
    ensures NoLeap(evs) <==> NoLeap(evs[..|evs| - 1]) && !(Follows(evs, |evs| - 1) && Leaps(evs, |evs| - 1))
  {
    var n := |evs| - 1;
    var front := evs[..n];
    forall k | 0 <= k < n
      ensures InRound(evs, k) <==> InRound(front, k)
      ensures Leaps(evs, k) <==> Leaps(front, k)
    {
      FrontInRound(evs, k);
    }
    if NoLeap(front) && !(Follows(evs, n) && Leaps(evs, n)) {
      forall k | 0 <= k < |evs| && InRound(evs, k)
        ensures !Leaps(evs, k)
      {
        if k < n { assert InRound(front, k); }
      }
    }
    if NoLeap(evs) {
      assert InRound(evs, n) <==> Follows(evs, n);
      forall k | 0 <= k < n && InRound(front, k)
        ensures !Leaps(front, k)
      {
        assert InRound(evs, k);
      }
    }
  }

  /** Begin starts without a gap. */
  lemma RestartNoLeap(evs: seq<Event>)
    requires evs != [] && Restarts(evs, |evs| - 1)
    ensures NoLeap(evs)
  {
    forall k | 0 <= k < |evs|
      ensures !InRound(evs, k)
    {
      assert k < |evs| - 1 ==> Restarts(evs, |evs| - 1);
    }
  }

  /** What a step does to the uncounted gaps of a round that is followed behind it. */
  lemma StepUncounted(m: Market, ev: Event)
    requires Possible(m, ev) && (!m.ss.skipLog ==> m.ss.received > 0)
    ensures var ss := Next(m, ev).ss;
            && (!ss.skipLog ==> ss.received > 0)
            && (!ss.skipLog && m.ss.skipLog ==> ev.SsArrives? && ev.pk.num == 1 && m.ss.state != CanBeClosed)
            && (!ss.skipLog ==>
                  if ev.SsArrives? && ev.pk.num == 1 && m.ss.state != CanBeClosed then ss.uncounted == 0
                  else if ev.SsArrives? && ev.pk.num > 1 && m.ss.state != CanBeClosed && !ev.waits
                  then ss.uncounted == m.ss.uncounted + ev.pk.num - m.ss.next
                  else ss.uncounted == m.ss.uncounted)
  {
  }

  lemma {:induction false} UncountedIffLeap(evs: seq<Event>)
    requires Run(STARTUP, evs).Some? && !Run(STARTUP, evs).value.ss.skipLog
    ensures Run(STARTUP, evs).value.ss.received > 0
    ensures Run(STARTUP, evs).value.ss.uncounted == 0 <==> NoLeap(evs)
    decreases |evs|
  {
    var n := |evs| - 1;
    var m, ev := Run(STARTUP, evs[..n]).value, evs[n];
    assert At(evs, n) == m;
    if !m.ss.skipLog { UncountedIffLeap(evs[..n]); }
    StepUncounted(m, ev);
    if Restarts(evs, n) {
      RestartNoLeap(evs);
    } else {
      NoLeapGrows(evs);
    }
  }

  /** An accepted round is whole if and only if the feeder handed none of its packets on behind a gap
      without waiting for what was missing. */
  lemma WholeIffNoLeap(evs: seq<Event>)
    requires Run(STARTUP, evs).Some? && Run(STARTUP, evs).value.ss.state == CanBeClosed
    ensures Whole(Run(STARTUP, evs).value.ss.round, Run(STARTUP, evs).value.ss.start) <==> NoLeap(evs)
  {
    RunKeepsRound(evs);
    AcceptedRound(evs);
    UncountedIffLeap(evs);
  }
}
