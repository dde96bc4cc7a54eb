/**
 When the feeder passes a pending packet by although it is next in line: behind an overflow, packets whose
 numbers have started again may be put in front of older ones that still wait with their shifted numbers.
*/
module FeederTurns {
  import opened Wrappers
  import opened Feeder
  import opened FeederRuns
  import opened FeederOverflow

  /** How many packets come before a packet is due, going on with the first number behind the largest. */
  function Ahead(c: Config, next: nat, pk: Packet): int {
    var num := Unshifted(c, pk).num;
    if num >= next then num - next else num - c.restart + c.max + 1 - next
  }

  /** Behind the largest number, numbers go on with `restart`. */
  predicate Numbered(c: Config, pk: Packet) { c.restart <= pk.num <= c.max }

  /** Of two packets the one with the smaller stored number becomes due first. */
  predicate Fits(c: Config, next: nat, pk: Packet, q: Packet) {
    && (q.num < pk.num ==> Ahead(c, next, q) < Ahead(c, next, pk))
    && (q.num > pk.num ==> Ahead(c, next, q) > Ahead(c, next, pk))
  }

  /** Pending packets wait in the order in which they become due. */
  ghost predicate InTurn(c: Config, s: State, ahead: nat) {
    && (forall pk <- s.pending, q <- s.pending :: Fits(c, s.next, pk, q))
    && forall pk <- s.pending :: Ahead(c, s.next, pk) >= ahead && (Shifted(c, pk) ==> Numbered(c, Unshifted(c, pk)))
  }

  /** A packet waits although its number is the expected one. */
  ghost predicate Overdue(c: Config, s: State) {
    exists pk <- s.pending :: Unshifted(c, pk).num == s.next
  }

  lemma OneOn(c: Config, next: nat, q: Packet)
    requires c.restart <= c.max && next <= c.max && Ahead(c, next, q) >= 1
    requires Numbered(c, Unshifted(c, q)) || next < q.num <= c.max
    ensures Ahead(c, After(c, next), q) == Ahead(c, next, q) - 1
  {
  }

  /** The next packet brings every pending one nearer by one. */
  lemma DeliverInTurn(c: Config, s: State, pk: Packet)
    requires Held(c, s, 0) && InTurn(c, s, 1) && c.restart <= c.max && pk.num == s.next <= c.max
    ensures InTurn(c, Deliver(c, s, pk), 0)
  {
    forall q <- s.pending
      ensures Ahead(c, After(c, s.next), q) == Ahead(c, s.next, q) - 1
    {
      OneOn(c, s.next, q);
    }
    forall p <- s.pending, q <- s.pending
      ensures Fits(c, After(c, s.next), p, q)
    {
      assert Fits(c, s.next, p, q);
    }
  }

  lemma HeadInTurn(c: Config, s: State)
    requires Handed(c, s) && Held(c, s, 0) && InTurn(c, s, 0)
    requires s.pending != [] && Unshifted(c, s.pending[0]).num == s.next
    ensures InTurn(c, Deliver(c, s, Unshifted(c, s.pending[0])).(pending := s.pending[1..]), 0)
  {
    var head, t := s.pending[0], s.(pending := s.pending[1..]);
    assert forall i | 0 <= i < |t.pending| :: t.pending[i] == s.pending[i + 1];
    forall q <- t.pending
      ensures q in s.pending && Ahead(c, t.next, q) >= 1
    {
      assert head.num < q.num && head in s.pending && Fits(c, s.next, q, head);
    }
    forall p <- t.pending, q <- t.pending
      ensures Fits(c, t.next, p, q)
    {
      assert Fits(c, s.next, p, q);
    }
    DeliverInTurn(c, t, Unshifted(c, head));
  }

  lemma {:induction false} DrainInTurn(c: Config, s: State)
    requires Handed(c, s) && Held(c, s, 0) && InTurn(c, s, 0)
    ensures InTurn(c, Drain(c, s), 1)
    decreases |s.pending|
  {
    if s.pending != [] {
      assert s.pending[0] in s.pending;
      if Unshifted(c, s.pending[0]).num == s.next {
        DeliverOnRing(c, s, Unshifted(c, s.pending[0]));
        HeadOnRing(c, s);
        HeadInTurn(c, s);
        DrainInTurn(c, Deliver(c, s, Unshifted(c, s.pending[0])).(pending := s.pending[1..]));
      } else {
        forall q <- s.pending
          ensures Ahead(c, s.next, q) >= 1
        {
          assert Fits(c, s.next, q, s.pending[0]);
        }
      }
    }
  }

  lemma InsertInTurn(c: Config, s: State, pk: Packet)
    requires Sorted(s.pending) && InTurn(c, s, 1) && forall q <- s.pending :: Fits(c, s.next, pk, q)
    requires Ahead(c, s.next, pk) >= 1 && (Shifted(c, pk) ==> Numbered(c, Unshifted(c, pk)))
    ensures InTurn(c, Insert(s, pk), 1)
  {
    InsertSorted(s, pk);
    forall p <- Insert(s, pk).pending, q <- Insert(s, pk).pending
      ensures Fits(c, s.next, p, q)
    {
      FitsBack(c, s.next, p, q);
    }
  }

  lemma FitsBack(c: Config, next: nat, pk: Packet, q: Packet)
    ensures Fits(c, next, pk, q) <==> Fits(c, next, q, pk)
  {
  }

  lemma InTurnInserted(c: Config, s: State, pk: Packet, q: Packet)
    requires Sorted(s.pending) && InTurn(c, Insert(s, pk), 1) && q in s.pending
    ensures Fits(c, s.next, pk, q)
  {
    InsertHolds(s, pk);
    var p :| p in Insert(s, pk).pending && p.num == pk.num;
    assert Fits(c, s.next, p, q);
  }

  lemma InsertInTurnIff(c: Config, s: State, pk: Packet)
    requires Sorted(s.pending) && InTurn(c, s, 1)
    requires Ahead(c, s.next, pk) >= 1 && (Shifted(c, pk) ==> Numbered(c, Unshifted(c, pk)))
    ensures InTurn(c, Insert(s, pk), 1) <==> forall q <- s.pending :: Fits(c, s.next, pk, q)
  {
    if forall q <- s.pending :: Fits(c, s.next, pk, q) { InsertInTurn(c, s, pk); }
    if InTurn(c, Insert(s, pk), 1) {
      forall q <- s.pending
        ensures Fits(c, s.next, pk, q)
      {
        InTurnInserted(c, s, pk, q);
      }
    }
  }

  /** The packet goes in front of a shifted one that becomes due no later than it: one with a number from
      the expected one up to its own. */
  ghost predicate Crosses(c: Config, s: State, pk: Packet) {
    && s.out != [] && s.next < pk.num && Near(c, s.next, pk.num)
    && exists q <- s.pending :: Shifted(c, q) && s.next <= Unshifted(c, q).num <= pk.num
  }

  lemma FitsUnlessCrossed(c: Config, s: State, pk: Packet, q: Packet)
    requires Held(c, s, 1) && InTurn(c, s, 1) && q in s.pending && s.next < pk.num <= c.max && Near(c, s.next, pk.num)
    ensures Fits(c, s.next, pk, q) <==> !(Shifted(c, q) && s.next <= Unshifted(c, q).num <= pk.num)
  {
  }

  lemma FeedAhead(c: Config, s: State, pk: Packet)
    requires c.waits && s.next < pk.num && s.received > 0
    ensures Feed(c, s, pk)
         == if Near(c, s.next, pk.num) then Insert(s, pk) else s.(dropped := s.dropped + 1)
  {
    BelowHalf(pk.num - s.next, c.max);
  }

  lemma DropInTurn(c: Config, s: State)
    requires InTurn(c, s, 1)
    ensures InTurn(c, s.(dropped := s.dropped + 1), 1)
  {
  }

  lemma AheadInTurnIff(c: Config, s: State, pk: Packet)
    requires Held(c, s, 1) && InTurn(c, s, 1) && c.waits
    requires s.out != [] && s.received == |s.out| && s.next < pk.num <= c.max
    ensures InTurn(c, Feed(c, s, pk), 1) <==> !Crosses(c, s, pk)
  {
    FeedAhead(c, s, pk);
    if Near(c, s.next, pk.num) {
      InsertInTurnIff(c, s, pk);
      forall q <- s.pending
        ensures Fits(c, s.next, pk, q) <==> !(Shifted(c, q) && s.next <= Unshifted(c, q).num <= pk.num)
      {
        FitsUnlessCrossed(c, s, pk, q);
      }
    } else {
      DropInTurn(c, s);
    }
  }

  lemma LateFits(c: Config, s: State, late: Packet, q: Packet)
    requires Held(c, s, 1) && InTurn(c, s, 1) && q in s.pending && s.next <= c.max
    requires Shifted(c, late) && Numbered(c, Unshifted(c, late))
    requires Unshifted(c, late).num < s.next && Near(c, s.next, late.num)
    ensures Fits(c, s.next, late, q)
  {
  }

  lemma LateInTurn(c: Config, s: State, late: Packet)
    requires Held(c, s, 1) && s.next <= c.max && InTurn(c, s, 1)
    requires Shifted(c, late) && Numbered(c, Unshifted(c, late))
    requires Unshifted(c, late).num < s.next && Near(c, s.next, late.num)
    ensures InTurn(c, Insert(s, late), 1)
  {
    InsertInTurnIff(c, s, late);
    forall q <- s.pending
      ensures Fits(c, s.next, late, q)
    {
      LateFits(c, s, late, q);
    }
  }

  lemma BehindInTurn(c: Config, s: State, pk: Packet)
    requires Held(c, s, 1) && InTurn(c, s, 1) && Numbered(c, pk) && pk.num < s.next <= c.max < U64
    ensures InTurn(c, Feed(c, s, pk), 1)
  {
    FeedBehind(c, s, pk);
    if Near(c, s.next, pk.num + c.max + 1) {
      LateInTurn(c, s, pk.(num := pk.num + c.max + 1));
    } else {
      DropInTurn(c, s);
    }
  }

  lemma TakeInTurn(c: Config, s: State, pk: Packet)
    requires OnRing(c, s) && InTurn(c, s, 1) && Numbered(c, pk) && (s.out == [] || pk.num == s.next)
    ensures InTurn(c, Drain(c, Deliver(c, s, pk)), 1)
  {
    DeliverOnRing(c, s, pk);
    if s.out != [] { DeliverInTurn(c, s, pk); }
    DrainInTurn(c, Deliver(c, s, pk));
  }

  lemma ArrivalInTurnIff(c: Config, s: State, pk: Packet)
    requires OnRing(c, s) && InTurn(c, s, 1) && c.waits && Numbered(c, pk)
    ensures InTurn(c, Feed(c, s, pk), 1) <==> !Crosses(c, s, pk)
  {
    if pk.num < s.next {
      BehindInTurn(c, s, pk);
    } else if pk.num == s.next || s.out == [] {
      TakeInTurn(c, s, pk);
    } else {
      AheadInTurnIff(c, s, pk);
    }
  }

  /** A feeder that waits is fed proper numbers, and its timer finds no shifted packet. */
  ghost predicate Regular(c: Config, evs: seq<Event>) {
    && c.waits && c.restart <= c.max < U64 && AllSpared(c, evs)
    && forall ev <- evs | ev.Arrives? :: Numbered(c, ev.pk)
  }

  ghost predicate CrossesAt(c: Config, evs: seq<Event>, i: nat)
    requires i < |evs|
  {
    evs[i].Arrives? && Crosses(c, Run(c, evs[..i]), evs[i].pk)
  }

  ghost predicate AllUncrossed(c: Config, evs: seq<Event>) {
    forall i | 0 <= i < |evs| :: !CrossesAt(c, evs, i)
  }

  lemma StepInTurnIff(c: Config, s: State, ev: Event)
    requires OnRing(c, s) && InTurn(c, s, 1) && c.waits && (ev.Arrives? ==> Numbered(c, ev.pk))
    ensures InTurn(c, Next(c, s, ev), 1) <==> (ev.Arrives? ==> !Crosses(c, s, ev.pk))
  {
    if ev.Arrives? { ArrivalInTurnIff(c, s, ev.pk); }
  }

  lemma RegularOnRing(c: Config, evs: seq<Event>, k: nat)
    requires Regular(c, evs) && k <= |evs|
    ensures OnRing(c, Run(c, evs[..k]))
  {
    assert forall ev <- evs :: Within(c, ev);
    OnRingSoFar(c, evs, k);
  }

  lemma {:induction false} InTurnSoFar(c: Config, evs: seq<Event>, k: nat)
    requires Regular(c, evs)
    requires k <= |evs| && forall i | 0 <= i < k :: !CrossesAt(c, evs, i)
    ensures InTurn(c, Run(c, evs[..k]), 1)
    decreases k
  {
    if k > 0 {
      InTurnSoFar(c, evs, k - 1);
      RegularOnRing(c, evs, k - 1);
      assert !CrossesAt(c, evs, k - 1) && evs[k - 1] in evs;
      StepInTurnIff(c, Run(c, evs[..k - 1]), evs[k - 1]);
      RunStep(c, evs, k - 1);
    }
  }

  lemma {:induction false} FirstCrossed(c: Config, evs: seq<Event>, i: nat) returns (k: nat)
    requires i < |evs| && CrossesAt(c, evs, i)
    ensures k < |evs| && CrossesAt(c, evs, k) && forall j | 0 <= j < k :: !CrossesAt(c, evs, j)
  {
    k := i;
    if j :| 0 <= j < i && CrossesAt(c, evs, j) {
      k := FirstCrossed(c, evs, j);
    }
  }

  lemma CrossingShows(c: Config, evs: seq<Event>, k: nat)
    requires Regular(c, evs)
    requires k < |evs| && CrossesAt(c, evs, k) && forall j | 0 <= j < k :: !CrossesAt(c, evs, j)
    ensures !InTurn(c, Run(c, evs[..k + 1]), 1)
  {
    InTurnSoFar(c, evs, k);
    RegularOnRing(c, evs, k);
    StepInTurnIff(c, Run(c, evs[..k]), evs[k]);
    RunStep(c, evs, k);
  }

  /** A feeder that waits always keeps its pending packets in the order in which they become due, so that
      none is overdue, if and only if no packet ever goes in front of a shifted one due no later. */
  lemma InTurnIff(c: Config, evs: seq<Event>)
    requires Regular(c, evs)
    ensures (forall k | 0 <= k <= |evs| :: InTurn(c, Run(c, evs[..k]), 1)) <==> AllUncrossed(c, evs)
    ensures AllUncrossed(c, evs) ==> !Overdue(c, Run(c, evs))
  {
    if AllUncrossed(c, evs) {
      forall k | 0 <= k <= |evs|
        ensures InTurn(c, Run(c, evs[..k]), 1)
      {
        InTurnSoFar(c, evs, k);
      }
      assert evs[..|evs|] == evs;
    } else {
      var i :| 0 <= i < |evs| && CrossesAt(c, evs, i);
      var k := FirstCrossed(c, evs, i);
      CrossingShows(c, evs, k);
    }
  }

  /** A packet put in front of a shifted one makes the feeder pass that one by: its number is the expected
      one and it waits, yet it is not handed on. */
  lemma CrossedIsOverdue(c: Config, a: Packet, b: Packet, d: Packet, e: Packet, f: Packet)
    requires c.waits && 2 * c.restart + 4 <= c.max < U64
    requires a.num == c.max - 1 && b.num == c.restart + 1 && d.num == c.max
    requires e.num == c.restart + 2 && f.num == c.restart
    ensures var s := Run(c, [Arrives(a), Arrives(b), Arrives(d), Arrives(e), Arrives(f)]);
            && s.out == [a, d, f] && s.next == b.num && s.pending == [e, b.(num := b.num + c.max + 1)]
            && Overdue(c, s)
  {
    var evs := [Arrives(a), Arrives(b), Arrives(d), Arrives(e), Arrives(f)];
    assert evs[..0] == [] && evs[..5] == evs;
    assert forall k | 0 < k <= 5 :: evs[..k][..k - 1] == evs[..k - 1];
    var late := b.(num := b.num + c.max + 1);
    var s1 := State(c.max, 1, 0, 0, [], [a]);
    assert Run(c, evs[..1]) == s1;
    FeedBehind(c, s1, b);
    assert Run(c, evs[..2]) == s1.(pending := [late]);
    var s3 := State(c.restart, 2, 0, 0, [late], [a, d]);
    assert Run(c, evs[..3]) == s3;
    FeedAhead(c, s3, e);
    assert Run(c, evs[..4]) == s3.(pending := [e, late]);
    assert Run(c, evs) == State(b.num, 3, 0, 0, [e, late], [a, d, f]);
    assert late in Run(c, evs).pending;
  }
}
