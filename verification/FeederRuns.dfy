/**
 What holds over every run of the feeder: order, no repetition, an exact count of what was lost, and
 independence of the order in which the packets arrive while the timer does not fire.
*/
module FeederRuns {
  import opened Wrappers
  import opened Feeder

  ghost predicate Sorted(pks: seq<Packet>) {
    forall i, j | 0 <= i < j < |pks| :: pks[i].num < pks[j].num
  }

  ghost predicate Between(pks: seq<Packet>, low: nat, high: nat) {
    forall pk <- pks :: low <= pk.num < high
  }

  /** Delivered in order, each number once; and when gaps are waited for, every number from the first
      delivered up to the next expected is delivered or counted as lost. */
  ghost predicate Delivered(c: Config, s: State) {
    && Sorted(s.out) && s.received == |s.out| && (s.out == [] ==> s.next == 0 && s.lost == 0)
    && (s.out != [] ==> s.out[|s.out| - 1].num + 1 == s.next <= c.max && s.out[0].num + s.lost + |s.out| <= s.next)
    && (if c.waits && s.out != [] then s.out[0].num + s.lost + |s.out| == s.next else s.lost == 0)
  }

  /** What is pending is ahead of the next expected number, by at least `ahead`. */
  ghost predicate Waiting(c: Config, s: State, ahead: nat) {
    && Sorted(s.pending) && Between(s.pending, s.next + ahead, c.max)
    && ((s.out == [] || !c.waits) ==> s.pending == [])
  }

  ghost predicate InOrder(c: Config, s: State) {
    Delivered(c, s) && Waiting(c, s, 1) && c.max < U64
  }

  /** The number is in the range in which nothing overflows. */
  predicate Plain(c: Config, s: State, ev: Event) {
    ev.Arrives? ==> ev.pk.num < c.max && !Overflows(c, s, ev.pk)
  }

  ghost predicate AllPlain(c: Config, evs: seq<Event>) {
    forall i | 0 <= i < |evs| :: Plain(c, Run(c, evs[..i]), evs[i])
  }

  // ---- One step ----

  lemma DeliverKeeps(c: Config, s: State, pk: Packet)
    requires Delivered(c, s) && s.next <= pk.num < c.max && (s.out == [] || pk.num == s.next || !c.waits)
    ensures Delivered(c, Deliver(c, s, pk))
  {
  }

  /** Delivered or still pending. */
  predicate Has(s: State, pk: Packet) { pk in s.out || pk in s.pending }

  lemma HeadMoves(c: Config, s: State)
    requires Waiting(c, s, 0) && s.pending != [] && s.pending[0].num == s.next
    ensures var s1 := Deliver(c, s, s.pending[0]).(pending := s.pending[1..]);
            Waiting(c, s1, 0) && forall p :: Has(s1, p) <==> Has(s, p)
  {
    var pk, rest := s.pending[0], s.pending[1..];
    assert pk in s.pending;
    ConsTail(s.pending);
    assert forall i | 0 <= i < |rest| :: rest[i] == s.pending[i + 1];
    forall p <- rest
      ensures s.next + 1 <= p.num < c.max
    {
      assert p in s.pending;
    }
  }

  lemma {:induction false} DrainKeeps(c: Config, s: State)
    requires Delivered(c, s) && Waiting(c, s, 0)
    ensures var s' := Drain(c, s);
            && Delivered(c, s') && Waiting(c, s', 1) && s'.lost == s.lost
            && s.out <= s'.out && (forall p :: Has(s', p) <==> Has(s, p))
    decreases |s.pending|
  {
    if s.pending != [] {
      var pk := s.pending[0];
      assert pk in s.pending;
      if pk.num == s.next {
        DeliverKeeps(c, s, pk);
        HeadMoves(c, s);
        DrainKeeps(c, Deliver(c, s, pk).(pending := s.pending[1..]));
      }
    }
  }

  lemma TakeKeeps(c: Config, s: State, pk: Packet)
    requires InOrder(c, s) && s.next <= pk.num < c.max && (s.out == [] || pk.num == s.next || !c.waits)
    ensures var s' := Drain(c, Deliver(c, s, pk));
            && InOrder(c, s') && s'.lost == s.lost && s.out + [pk] <= s'.out
            && (forall p :: Has(s', p) <==> Has(s, p) || p == pk)
  {
    DeliverKeeps(c, s, pk);
    DrainKeeps(c, Deliver(c, s, pk));
  }

  lemma InsertSorted(s: State, pk: Packet)
    requires Sorted(s.pending)
    ensures var s' := Insert(s, pk);
            && Sorted(s'.pending) && s' == s.(pending := s'.pending)
            && forall p <- s'.pending :: p in s.pending || p == pk
  {
    var i := Place(s.pending, pk.num);
    assert s.pending == s.pending[..i] + s.pending[i..];
  }

  lemma InsertHolds(s: State, pk: Packet)
    requires Sorted(s.pending)
    ensures (forall q <- s.pending :: q in Insert(s, pk).pending)
    ensures exists p :: p in Insert(s, pk).pending && p.num == pk.num
  {
    var i := Place(s.pending, pk.num);
    assert s.pending == s.pending[..i] + s.pending[i..];
    if i < |s.pending| && s.pending[i].num == pk.num {
      assert s.pending[i] in s.pending;
    } else {
      assert pk in Insert(s, pk).pending;
    }
  }

  lemma InsertKeeps(c: Config, s: State, pk: Packet)
    requires Waiting(c, s, 1) && s.out != [] && c.waits && s.next < pk.num < c.max
    ensures var s' := Insert(s, pk);
            && Waiting(c, s', 1) && (exists p :: p in s'.pending && p.num == pk.num)
            && (forall p <- s'.pending :: p in s.pending || p == pk) && (forall p <- s.pending :: p in s'.pending)
  {
    InsertSorted(s, pk);
    InsertHolds(s, pk);
  }

  lemma FrontOf(pks: seq<Packet>, k: nat)
    requires k < |pks|
    ensures pks[..k + 1][..k] == pks[..k] && pks[..k + 1] == pks[..k] + [pks[k]]
  {
  }

  /** The first k of the packets that the timer hands on. */
  lemma {:induction false} GiveUpKeeps(c: Config, s: State, pks: seq<Packet>, k: nat)
    requires Delivered(c, s) && s.out != [] && c.waits && c.max < U64
    requires Sorted(pks) && Between(pks, s.next, c.max) && k <= |pks|
    ensures var s' := GiveUp(c, s, pks[..k]);
            && Delivered(c, s') && s'.out == s.out + pks[..k] && s'.next == (if k > 0 then pks[k - 1].num + 1 else s.next)
            && s'.pending == s.pending
    decreases k
  {
    if k == 0 {
      AppendNothing(s.out);
    } else {
      GiveUpKeeps(c, s, pks, k - 1);
      FrontOf(pks, k - 1);
      assert pks[k - 1] in pks;
      CountKeeps(c, GiveUp(c, s, pks[..k - 1]), pks[k - 1]);
      AppendAssoc(s.out, pks[..k - 1], [pks[k - 1]]);
    }
  }

  lemma CountKeeps(c: Config, s: State, pk: Packet)
    requires Delivered(c, s) && s.out != [] && c.waits && s.next <= pk.num < c.max < U64
    ensures var s' := PassOver(c, s, pk);
            Delivered(c, s') && s'.out == s.out + [pk] && s'.next == pk.num + 1 && s'.pending == s.pending
  {
    assert s.lost + pk.num - s.next <= c.max;
    Small(s.lost + pk.num - s.next);
    assert (s.out + [pk])[0] == s.out[0];
  }

  lemma Small(x: nat)
    requires x < U64
    ensures x % U64 == x
  {
  }

  lemma TimerKeepsOrder(c: Config, s: State)
    requires InOrder(c, s)
    ensures InOrder(c, Timer(c, s)) && s.out <= Timer(c, s).out
  {
    if s.pending != [] {
      GiveUpKeeps(c, s, s.pending, |s.pending|);
      assert s.pending[..|s.pending|] == s.pending;
    }
  }

  /** An arrival that nothing overflows at is taken, left to wait, or ignored. */
  lemma ArrivalKeepsOrder(c: Config, s: State, pk: Packet)
    requires InOrder(c, s) && Plain(c, s, Arrives(pk))
    ensures var s' := Feed(c, s, pk);
            && InOrder(c, s') && s.out <= s'.out && s'.lost == s.lost
            && (forall p :: Has(s', p) ==> Has(s, p) || p == pk) && (forall p :: Has(s, p) ==> Has(s', p))
  {
    if pk.num == s.next || (pk.num > s.next && s.next == 0 && s.received == 0) {
      TakeKeeps(c, s, pk);
    } else if pk.num > s.next && pk.num - s.next <= c.max / 2 {
      if c.waits { InsertKeeps(c, s, pk); } else { TakeKeeps(c, s, pk); }
    }
  }

  lemma {:induction false} RunKeepsOrder(c: Config, evs: seq<Event>)
    requires c.max < U64 && AllPlain(c, evs)
    ensures InOrder(c, Run(c, evs))
  {
    if evs != [] {
      PrefixPlain(c, evs);
      RunKeepsOrder(c, evs[..|evs| - 1]);
      var s := Run(c, evs[..|evs| - 1]);
      match evs[|evs| - 1]
      case Arrives(pk) => ArrivalKeepsOrder(c, s, pk);
      case TimesOut => TimerKeepsOrder(c, s);
    }
  }

  lemma PrefixPlain(c: Config, evs: seq<Event>)
    requires evs != [] && AllPlain(c, evs)
    ensures AllPlain(c, evs[..|evs| - 1]) && Plain(c, Run(c, evs[..|evs| - 1]), evs[|evs| - 1])
  {
    var evs' := evs[..|evs| - 1];
    forall i | 0 <= i < |evs'|
      ensures Plain(c, Run(c, evs'[..i]), evs'[i])
    {
      assert evs'[..i] == evs[..i];
    }
  }

  /** While no number overflows, packets are delivered with strictly growing numbers, and a feeder that
      waits counts as lost exactly the numbers it passed over since the first packet. */
  lemma DeliversInOrderAndCounts(c: Config, evs: seq<Event>)
    requires c.max < U64 && AllPlain(c, evs)
    ensures var s := Run(c, evs);
            && Sorted(s.out) && s.received == |s.out|
            && (s.out != [] ==> s.next == s.out[|s.out| - 1].num + 1)
            && (c.waits && s.out != [] ==> s.lost == (s.next - s.out[0].num) - |s.out|)
            && (!c.waits ==> s.lost == 0 && s.pending == [])
  {
    RunKeepsOrder(c, evs);
  }

  // ---- The order of arrival ----

  predicate TooFar(c: Config, s: State, ev: Event) {
    ev.Arrives? && ev.pk.num > s.next && ev.pk.num - s.next > c.max / 2 && (s.next != 0 || s.received != 0)
  }

  /** No timer fires, nothing overflows and nothing is so far ahead that it is taken for a repetition. */
  ghost predicate Calm(c: Config, evs: seq<Event>) {
    forall i | 0 <= i < |evs| ::
      evs[i].Arrives? && Plain(c, Run(c, evs[..i]), evs[i]) && !TooFar(c, Run(c, evs[..i]), evs[i])
  }

  ghost predicate Kept(s: State, num: nat) {
    exists pk :: Has(s, pk) && pk.num == num
  }

  /** Everything from the first packet on is delivered or pending, nothing is lost, and nothing is made up. */
  ghost predicate KeepsAll(c: Config, evs: seq<Event>) {
    var s := Run(c, evs);
    && InOrder(c, s) && s.lost == 0
    && (forall pk | Has(s, pk) :: Arrives(pk) in evs)
    && (evs != [] ==> s.out != [] && evs[0].Arrives? && s.out[0] == evs[0].pk)
    && (forall ev <- evs :: ev.Arrives? && (ev.pk.num >= evs[0].pk.num ==> Kept(s, ev.pk.num)))
  }

  lemma CalmPrefix(c: Config, evs: seq<Event>) returns (evs': seq<Event>, pk: Packet)
    requires evs != [] && Calm(c, evs)
    ensures evs == evs' + [Arrives(pk)] && Calm(c, evs')
    ensures Plain(c, Run(c, evs'), Arrives(pk)) && !TooFar(c, Run(c, evs'), Arrives(pk))
  {
    evs', pk := evs[..|evs| - 1], evs[|evs| - 1].pk;
    forall i | 0 <= i < |evs'|
      ensures evs'[i].Arrives? && Plain(c, Run(c, evs'[..i]), evs'[i]) && !TooFar(c, Run(c, evs'[..i]), evs'[i])
    {
      assert evs'[..i] == evs[..i];
    }
  }

  lemma ArrivalIsKept(c: Config, s: State, pk: Packet)
    requires InOrder(c, s) && s.lost == 0 && c.waits
    requires Plain(c, s, Arrives(pk)) && !TooFar(c, s, Arrives(pk)) && (s.out == [] || pk.num >= s.out[0].num)
    ensures Kept(Feed(c, s, pk), pk.num)
  {
    if pk.num == s.next || s.out == [] {
      TakeKeeps(c, s, pk);
      assert Has(Feed(c, s, pk), pk);
    } else if pk.num > s.next {
      InsertKeeps(c, s, pk);
      var p :| p in Insert(s, pk).pending && p.num == pk.num;
      assert Has(Feed(c, s, pk), p);
    } else {
      NothingMissing(s.out, pk.num);
      assert Has(Feed(c, s, pk), s.out[pk.num - s.out[0].num]);
    }
  }

  lemma NothingMissing(out: seq<Packet>, num: nat)
    requires Sorted(out) && out != [] && out[|out| - 1].num + 1 == out[0].num + |out|
    requires out[0].num <= num <= out[|out| - 1].num
    ensures num - out[0].num < |out| && out[num - out[0].num].num == num
  {
    Steps(out, 0, num - out[0].num);
    Steps(out, num - out[0].num, |out| - 1);
  }

  lemma {:induction false} Steps(out: seq<Packet>, i: nat, j: nat)
    requires Sorted(out) && i <= j < |out|
    ensures out[j].num >= out[i].num + (j - i)
  {
    if i < j { Steps(out, i, j - 1); }
  }

  lemma FirstIsDelivered(c: Config, s: State, pk: Packet)
    requires InOrder(c, s) && Plain(c, s, Arrives(pk)) && s.out == []
    ensures Feed(c, s, pk).out != [] && Feed(c, s, pk).out[0] == pk
  {
    TakeKeeps(c, s, pk);
    assert (s.out + [pk])[0] == pk;
  }

  lemma StepKeepsAll(c: Config, evs: seq<Event>, pk: Packet)
    requires KeepsAll(c, evs) && c.waits
    requires Plain(c, Run(c, evs), Arrives(pk)) && !TooFar(c, Run(c, evs), Arrives(pk))
    ensures KeepsAll(c, evs + [Arrives(pk)])
  {
    var s := Run(c, evs);
    ArrivalKeepsOrder(c, s, pk);
    if evs == [] { FirstIsDelivered(c, s, pk); }
    if evs == [] || pk.num >= evs[0].pk.num { ArrivalIsKept(c, s, pk); }
    AddKeepsAll(c, evs, Arrives(pk));
  }

  lemma NothingToKeep(c: Config)
    requires c.max < U64
    ensures KeepsAll(c, [])
  {
  }

  lemma {:induction false} CalmKeepsAll(c: Config, evs: seq<Event>)
    requires c.max < U64 && c.waits && Calm(c, evs)
    ensures KeepsAll(c, evs)
    decreases |evs|
  {
    if evs == [] {
      NothingToKeep(c);
    } else {
      var evs', pk := CalmPrefix(c, evs);
      CalmKeepsAll(c, evs');
      StepKeepsAll(c, evs', pk);
    }
  }

  lemma AddKeepsAll(c: Config, evs: seq<Event>, ev: Event)
    requires KeepsAll(c, evs) && ev.Arrives?
    requires var s, s' := Run(c, evs), Feed(c, Run(c, evs), ev.pk);
             && InOrder(c, s') && s'.lost == 0 && s.out <= s'.out
             && (forall p :: Has(s', p) ==> Has(s, p) || p == ev.pk) && (forall p :: Has(s, p) ==> Has(s', p))
             && (evs == [] ==> s'.out != [] && s'.out[0] == ev.pk)
             && (ev.pk.num >= (evs + [ev])[0].pk.num ==> Kept(s', ev.pk.num))
    ensures KeepsAll(c, evs + [ev])
  {
    assert (evs + [ev])[..|evs|] == evs;
    var s, s' := Run(c, evs), Run(c, evs + [ev]);
    forall e <- evs + [ev]
      ensures e.Arrives? && (e.pk.num >= (evs + [ev])[0].pk.num ==> Kept(s', e.pk.num))
    {
      if e in evs && e.pk.num >= evs[0].pk.num {
        var p :| Has(s, p) && p.num == e.pk.num;
        assert Has(s', p);
      }
    }
  }

  /** Packets with the same number are the same packet. */
  ghost predicate OneData(evs: seq<Event>) {
    forall a <- evs, b <- evs | a.Arrives? && b.Arrives? && a.pk.num == b.pk.num :: a == b
  }

  /** Everything from the first packet up to the next expected number is delivered. */
  ghost predicate Gapless(s: State) {
    && s.out != [] && Sorted(s.out)
    && s.out[|s.out| - 1].num + 1 == s.next == s.out[0].num + |s.out|
    && (forall pk <- s.pending :: pk.num > s.next)
  }

  lemma NotBeyond(s: State)
    requires Gapless(s)
    ensures !Kept(s, s.next)
  {
    forall pk | Has(s, pk)
      ensures pk.num != s.next
    {
      if pk in s.out {
        var i :| 0 <= i < |s.out| && s.out[i] == pk;
        Steps(s.out, i, |s.out| - 1);
      }
    }
  }

  lemma NotFurther(s: State, s': State, evs: seq<Event>)
    requires Gapless(s) && Gapless(s') && s.out[0] == s'.out[0]
    requires forall pk | Has(s', pk) :: Arrives(pk) in evs
    requires forall ev <- evs :: ev.Arrives? && (ev.pk.num >= s.out[0].num ==> Kept(s, ev.pk.num))
    ensures s'.next <= s.next
  {
    if s.next < s'.next {
      NothingMissing(s'.out, s.next);
      var pk := s'.out[s.next - s'.out[0].num];
      assert Has(s', pk);
      NotBeyond(s);
      assert false;
    }
  }

  lemma SameAt(s: State, s': State, evs: seq<Event>, i: nat)
    requires Gapless(s) && Gapless(s') && OneData(evs) && s.out[0] == s'.out[0] && |s.out| == |s'.out|
    requires forall pk | Has(s, pk) || Has(s', pk) :: Arrives(pk) in evs
    requires i < |s.out|
    ensures s.out[i] == s'.out[i]
  {
    NothingMissing(s.out, s.out[0].num + i);
    NothingMissing(s'.out, s.out[0].num + i);
    assert Has(s, s.out[i]) && Has(s', s'.out[i]);
  }

  lemma KeepsAllIsGapless(c: Config, evs: seq<Event>)
    requires KeepsAll(c, evs) && c.waits && evs != []
    ensures Gapless(Run(c, evs))
  {
  }

  /** Whatever order the same packets arrive in behind the same first one, and however often each is
      repeated, the feeder delivers the same packets in the same order. */
  lemma OrderOfArrivalIsIrrelevant(c: Config, evs: seq<Event>, evs': seq<Event>)
    requires c.max < U64 && c.waits && Calm(c, evs) && Calm(c, evs') && OneData(evs)
    requires evs != [] && evs' != [] && evs[0] == evs'[0]
    requires forall ev :: ev in evs <==> ev in evs'
    ensures Run(c, evs).out == Run(c, evs').out && Run(c, evs).next == Run(c, evs').next
  {
    CalmKeepsAll(c, evs);
    CalmKeepsAll(c, evs');
    KeepsAllIsGapless(c, evs);
    KeepsAllIsGapless(c, evs');
    var s, s' := Run(c, evs), Run(c, evs');
    NotFurther(s, s', evs);
    NotFurther(s', s, evs');
    forall i | 0 <= i < |s.out|
      ensures s.out[i] == s'.out[i]
    {
      SameAt(s, s', evs, i);
    }
  }
}
