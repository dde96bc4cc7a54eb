/**
 The feeder across overflows of the numbers: what holds over every run in which the timer finds no packet
 from behind an overflow, and what goes wrong exactly when it finds one.
*/
module FeederOverflow {
  import opened Wrappers
  import opened Feeder
  import opened FeederRuns

  /** The packet waits with the number it would have had without an overflow. */
  predicate Shifted(c: Config, pk: Packet) { pk.num > c.max }

  /** How many numbers were passed over between the packets handed on. */
  function Passed(c: Config, out: seq<Packet>): int {
    if |out| < 2 then 0
    else Passed(c, out[..|out| - 1]) + out[|out| - 1].num - After(c, out[|out| - 2].num)
  }

  /** A number is at or ahead of another by at most half the numbers. */
  predicate Near(c: Config, from: nat, to: nat) { from <= to && 2 * (to - from) <= c.max }

  /** The packet at place i is near the number behind the one before it. */
  predicate NearAt(c: Config, out: seq<Packet>, i: nat)
    requires 0 < i < |out|
  {
    Near(c, After(c, out[i - 1].num), out[i].num)
  }

  /** Each packet is near the number behind the one before it, across overflows too. */
  ghost predicate Close(c: Config, out: seq<Packet>) {
    && (forall pk <- out :: !Shifted(c, pk))
    && forall i | 0 < i < |out| :: NearAt(c, out, i)
  }

  ghost predicate Handed(c: Config, s: State) {
    && c.restart <= c.max < U64 && s.next <= c.max && s.received == |s.out| && Close(c, s.out)
    && s.next == (if s.out == [] then 0 else After(c, s.out[|s.out| - 1].num))
    && s.lost == (if c.waits then Passed(c, s.out) % U64 else 0)
  }

  /** Pending packets are sorted: first those before the overflow, which are ahead by at least `ahead` and
      at most half the numbers, then the shifted ones. */
  ghost predicate Held(c: Config, s: State, ahead: nat) {
    && Sorted(s.pending)
    && forall pk <- s.pending ::
         if Shifted(c, pk) then 2 * (pk.num - c.max) <= c.max
         else c.waits && s.next + ahead <= pk.num && Near(c, s.next, pk.num)
  }

  ghost predicate OnRing(c: Config, s: State) {
    Handed(c, s) && Held(c, s, 1) && (s.out == [] ==> s.pending == [])
  }

  predicate Within(c: Config, ev: Event) { ev.Arrives? ==> ev.pk.num <= c.max }

  /** The timer does not find a shifted packet. */
  ghost predicate Spared(c: Config, s: State, ev: Event) {
    ev.TimesOut? ==> forall pk <- s.pending :: !Shifted(c, pk)
  }

  ghost predicate AllSpared(c: Config, evs: seq<Event>) {
    forall i | 0 <= i < |evs| :: Spared(c, Run(c, evs[..i]), evs[i])
  }

  // ---- One step ----

  lemma CloseGrows(c: Config, out: seq<Packet>, pk: Packet)
    requires Close(c, out) && !Shifted(c, pk)
    requires out == [] || Near(c, After(c, out[|out| - 1].num), pk.num)
    ensures Close(c, out + [pk])
  {
    forall i | 0 < i < |out + [pk]|
      ensures NearAt(c, out + [pk], i)
    {
      if i < |out| { assert NearAt(c, out, i); }
    }
  }

  lemma PassedGrows(c: Config, out: seq<Packet>, pk: Packet)
    ensures Passed(c, out + [pk])
         == Passed(c, out) + if out == [] then 0 else pk.num - After(c, out[|out| - 1].num)
  {
    assert (out + [pk])[..|out|] == out;
  }

  /** A packet handed on; when gaps are waited for, it is the next one or the first. */
  lemma DeliverOnRing(c: Config, s: State, pk: Packet)
    requires Handed(c, s) && !Shifted(c, pk)
    requires s.out == [] || pk.num == s.next || (!c.waits && Near(c, s.next, pk.num))
    ensures Handed(c, Deliver(c, s, pk))
  {
    CloseGrows(c, s.out, pk);
    PassedGrows(c, s.out, pk);
  }

  lemma HeadOnRing(c: Config, s: State)
    requires s.next <= c.max && Held(c, s, 0) && c.restart <= c.max && s.pending != []
    requires Unshifted(c, s.pending[0]).num == s.next
    ensures Held(c, Deliver(c, s, Unshifted(c, s.pending[0])).(pending := s.pending[1..]), 0)
  {
    var rest := s.pending[1..];
    assert forall i | 0 <= i < |rest| :: rest[i] == s.pending[i + 1];
    forall pk <- rest
      ensures pk in s.pending && pk.num > s.pending[0].num
    {
    }
    assert s.pending[0] in s.pending;
  }

  lemma {:induction false} DrainOnRing(c: Config, s: State)
    requires Handed(c, s) && Held(c, s, 0)
    ensures Handed(c, Drain(c, s)) && Held(c, Drain(c, s), 1) && s.out <= Drain(c, s).out
    decreases |s.pending|
  {
    if s.pending != [] {
      var pk := Unshifted(c, s.pending[0]);
      assert s.pending[0] in s.pending;
      if pk.num == s.next {
        DeliverOnRing(c, s, pk);
        HeadOnRing(c, s);
        DrainOnRing(c, Deliver(c, s, pk).(pending := s.pending[1..]));
      } else {
        HeadIsFirst(c, s);
      }
    }
  }

  lemma HeadIsFirst(c: Config, s: State)
    requires Held(c, s, 0) && s.pending != [] && s.next <= c.max
    requires Unshifted(c, s.pending[0]).num != s.next
    ensures Held(c, s, 1)
  {
    forall pk <- s.pending | !Shifted(c, pk)
      ensures pk.num != s.next
    {
      assert s.pending[0] in s.pending && s.pending[0].num <= pk.num;
    }
  }

  lemma TakeOnRing(c: Config, s: State, pk: Packet)
    requires OnRing(c, s) && !Shifted(c, pk)
    requires s.out == [] || pk.num == s.next || (!c.waits && Near(c, s.next, pk.num))
    ensures OnRing(c, Drain(c, Deliver(c, s, pk))) && s.out + [pk] <= Drain(c, Deliver(c, s, pk)).out
  {
    DeliverOnRing(c, s, pk);
    DrainOnRing(c, Deliver(c, s, pk));
  }

  lemma InsertOnRing(c: Config, s: State, pk: Packet)
    requires OnRing(c, s) && s.out != []
    requires if Shifted(c, pk) then 2 * (pk.num - c.max) <= c.max
             else c.waits && s.next < pk.num && Near(c, s.next, pk.num)
    ensures OnRing(c, Insert(s, pk)) && Insert(s, pk).out == s.out
  {
    InsertSorted(s, pk);
  }

  lemma OverflowsNear(c: Config, s: State, pk: Packet)
    requires s.next <= c.max < U64 && pk.num < s.next
    ensures Overflows(c, s, pk) <==> Near(c, s.next, pk.num + c.max + 1)
  {
    Small(pk.num + c.max - s.next);
    BelowHalf(pk.num + c.max - s.next, c.max);
  }

  lemma BelowHalf(x: int, y: nat)
    ensures x < y / 2 <==> 2 * (x + 1) <= y
    ensures x <= y / 2 <==> 2 * x <= y
  {
  }

  lemma DropOnRing(c: Config, s: State)
    requires OnRing(c, s)
    ensures OnRing(c, s.(dropped := s.dropped + 1))
  {
  }

  /** A number below the expected one is taken to lie behind an overflow if that is the nearer reading. */
  lemma FeedBehind(c: Config, s: State, pk: Packet)
    requires s.next <= c.max < U64 && pk.num < s.next
    ensures Feed(c, s, pk)
         == if Near(c, s.next, pk.num + c.max + 1) then Insert(s, pk.(num := pk.num + c.max + 1))
            else s.(dropped := s.dropped + 1)
  {
    OverflowsNear(c, s, pk);
  }

  lemma BehindOnRing(c: Config, s: State, pk: Packet)
    requires OnRing(c, s) && pk.num < s.next
    ensures OnRing(c, Feed(c, s, pk)) && s.out <= Feed(c, s, pk).out
  {
    FeedBehind(c, s, pk);
    DropOnRing(c, s);
    var late := pk.(num := pk.num + c.max + 1);
    if Near(c, s.next, pk.num + c.max + 1) { InsertOnRing(c, s, late); }
  }

  lemma AheadOnRing(c: Config, s: State, pk: Packet)
    requires OnRing(c, s) && s.next < pk.num <= c.max && s.out != []
    ensures OnRing(c, Feed(c, s, pk)) && s.out <= Feed(c, s, pk).out
  {
    BelowHalf(pk.num - s.next, c.max);
    DropOnRing(c, s);
    if pk.num - s.next <= c.max / 2 {
      if c.waits { InsertOnRing(c, s, pk); } else { TakeOnRing(c, s, pk); }
    }
  }

  lemma ArrivalOnRing(c: Config, s: State, pk: Packet)
    requires OnRing(c, s) && pk.num <= c.max
    ensures OnRing(c, Feed(c, s, pk)) && s.out <= Feed(c, s, pk).out
  {
    if pk.num < s.next {
      BehindOnRing(c, s, pk);
    } else if pk.num == s.next || s.out == [] {
      TakeOnRing(c, s, pk);
    } else {
      AheadOnRing(c, s, pk);
    }
  }

  lemma PassOverOnRing(c: Config, s: State, pk: Packet)
    requires Handed(c, s) && c.waits && s.out != [] && pk.num <= c.max && Near(c, s.next, pk.num)
    ensures Handed(c, PassOver(c, s, pk))
  {
    CloseGrows(c, s.out, pk);
    PassedGrows(c, s.out, pk);
    Carries(Passed(c, s.out), pk.num - s.next);
  }

  lemma Carries(a: int, b: int)
    ensures (a % U64 + b) % U64 == (a + b) % U64
  {
  }

  /** Sorted packets ahead of the expected number by at most half the numbers, none of them shifted. */
  ghost predicate Spanned(c: Config, next: nat, pks: seq<Packet>) {
    Sorted(pks) && forall pk <- pks :: pk.num <= c.max && Near(c, next, pk.num)
  }

  lemma PassOverStep(c: Config, s: State, next: nat, pks: seq<Packet>, i: nat)
    requires Handed(c, s) && c.waits && s.out != [] && Spanned(c, next, pks)
    requires i < |pks| && next <= s.next <= pks[i].num
    ensures var s' := PassOver(c, s, pks[i]);
            Handed(c, s') && s'.out == s.out + [pks[i]] && (i + 1 < |pks| ==> next <= s'.next <= pks[i + 1].num)
  {
    assert pks[i] in pks;
    PassOverOnRing(c, s, pks[i]);
    if i + 1 < |pks| { assert pks[i].num < pks[i + 1].num && pks[i + 1] in pks; }
  }

  /** The first k of the packets that the timer hands on. */
  lemma {:induction false} GiveUpOnRing(c: Config, s: State, pks: seq<Packet>, k: nat)
    requires Handed(c, s) && c.waits && s.out != [] && Spanned(c, s.next, pks) && k <= |pks|
    ensures var s' := GiveUp(c, s, pks[..k]);
            Handed(c, s') && s'.out == s.out + pks[..k] && (k < |pks| ==> s.next <= s'.next <= pks[k].num)
    decreases k
  {
    if k == 0 {
      AppendNothing(s.out);
      if pks != [] { assert pks[0] in pks; }
    } else {
      GiveUpOnRing(c, s, pks, k - 1);
      FrontOf(pks, k - 1);
      PassOverStep(c, GiveUp(c, s, pks[..k - 1]), s.next, pks, k - 1);
      AppendAssoc(s.out, pks[..k - 1], [pks[k - 1]]);
    }
  }

  lemma TimerOnRing(c: Config, s: State)
    requires OnRing(c, s) && Spared(c, s, TimesOut)
    ensures OnRing(c, Timer(c, s)) && Timer(c, s).out == s.out + s.pending
  {
    if s.pending == [] {
      AppendNothing(s.out);
    } else {
      assert s.pending[0] in s.pending;
      GiveUpOnRing(c, s, s.pending, |s.pending|);
      assert s.pending[..|s.pending|] == s.pending;
    }
  }

  // ---- Every run ----

  lemma SparedSoFar(c: Config, evs: seq<Event>, k: nat)
    requires k <= |evs| && forall i | 0 <= i < k :: Spared(c, Run(c, evs[..i]), evs[i])
    ensures AllSpared(c, evs[..k])
  {
    forall i | 0 <= i < k
      ensures Spared(c, Run(c, evs[..k][..i]), evs[..k][i])
    {
      assert evs[..k][..i] == evs[..i];
    }
  }

  lemma {:induction false} RunOnRing(c: Config, evs: seq<Event>)
    requires c.restart <= c.max < U64 && (forall ev <- evs :: Within(c, ev)) && AllSpared(c, evs)
    ensures OnRing(c, Run(c, evs))
  {
    if evs != [] {
      SparedSoFar(c, evs, |evs| - 1);
      RunOnRing(c, evs[..|evs| - 1]);
      var s := Run(c, evs[..|evs| - 1]);
      match evs[|evs| - 1]
      case Arrives(pk) => assert Within(c, evs[|evs| - 1]); ArrivalOnRing(c, s, pk);
      case TimesOut => TimerOnRing(c, s);
    }
  }

  lemma RunStep(c: Config, evs: seq<Event>, k: nat)
    requires k < |evs|
    ensures Run(c, evs[..k + 1]) == Next(c, Run(c, evs[..k]), evs[k])
  {
    assert evs[..k + 1][..k] == evs[..k];
  }

  lemma OnRingSoFar(c: Config, evs: seq<Event>, k: nat)
    requires c.restart <= c.max < U64 && (forall ev <- evs :: Within(c, ev))
    requires k <= |evs| && forall i | 0 <= i < k :: Spared(c, Run(c, evs[..i]), evs[i])
    ensures OnRing(c, Run(c, evs[..k]))
  {
    SparedSoFar(c, evs, k);
    RunOnRing(c, evs[..k]);
  }

  /** Whatever arrives and however often the numbers overflow: while the timer finds no shifted packet, each
      packet handed on is at most half the numbers ahead of the expected one, the feeder expects the number
      after the last one, and a feeder that waits counts as lost exactly the numbers passed over. */
  lemma DeliversAcrossOverflow(c: Config, evs: seq<Event>)
    requires c.restart <= c.max < U64 && (forall ev <- evs :: Within(c, ev)) && AllSpared(c, evs)
    ensures var s := Run(c, evs);
            && s.received == |s.out| && Close(c, s.out)
            && (s.out != [] ==> s.next == After(c, s.out[|s.out| - 1].num) <= c.max)
            && s.lost == (if c.waits then Passed(c, s.out) % U64 else 0)
  {
    RunOnRing(c, evs);
  }

  // ---- The timer ----

  lemma GiveUpNext(c: Config, s: State, pks: seq<Packet>)
    requires pks != []
    ensures GiveUp(c, s, pks).next == After(c, pks[|pks| - 1].num)
    ensures GiveUp(c, s, pks).out != [] && GiveUp(c, s, pks).out[|GiveUp(c, s, pks).out| - 1] == pks[|pks| - 1]
  {
  }

  /** The timer expects the number after the last packet it handed on if and only if that packet is not
      shifted. */
  lemma TimerExpectsNextIff(c: Config, s: State)
    requires s.pending != [] && s.pending[|s.pending| - 1].num <= 2 * c.max
    ensures var last := s.pending[|s.pending| - 1];
            Timer(c, s).next == After(c, Unshifted(c, last).num) <==> !Shifted(c, last)
  {
    GiveUpNext(c, s, s.pending);
  }

  /** The feeder expects the number after the last packet handed on. */
  ghost predicate Expects(c: Config, s: State) {
    s.out != [] ==> s.next == After(c, Unshifted(c, s.out[|s.out| - 1]).num)
  }

  lemma OnRingExpects(c: Config, s: State)
    requires OnRing(c, s)
    ensures Expects(c, s)
  {
    if s.out != [] { assert s.out[|s.out| - 1] in s.out; }
  }

  lemma ShiftedMisleads(c: Config, s: State)
    requires OnRing(c, s) && !Spared(c, s, TimesOut)
    ensures !Expects(c, Timer(c, s))
  {
    var pk :| pk in s.pending && Shifted(c, pk);
    var last := s.pending[|s.pending| - 1];
    assert last in s.pending && pk.num <= last.num;
    GiveUpNext(c, s, s.pending);
    TimerExpectsNextIff(c, s);
  }

  lemma {:induction false} FirstShifted(c: Config, evs: seq<Event>, i: nat) returns (k: nat)
    requires i < |evs| && !Spared(c, Run(c, evs[..i]), evs[i])
    ensures k < |evs| && !Spared(c, Run(c, evs[..k]), evs[k])
    ensures forall j | 0 <= j < k :: Spared(c, Run(c, evs[..j]), evs[j])
  {
    k := i;
    if j :| 0 <= j < i && !Spared(c, Run(c, evs[..j]), evs[j]) {
      k := FirstShifted(c, evs, j);
    }
  }

  lemma ShiftedShows(c: Config, evs: seq<Event>, k: nat)
    requires c.restart <= c.max < U64 && (forall ev <- evs :: Within(c, ev))
    requires k < |evs| && !Spared(c, Run(c, evs[..k]), evs[k])
    requires forall j | 0 <= j < k :: Spared(c, Run(c, evs[..j]), evs[j])
    ensures !Expects(c, Run(c, evs[..k + 1]))
  {
    OnRingSoFar(c, evs, k);
    ShiftedMisleads(c, Run(c, evs[..k]));
    RunStep(c, evs, k);
  }

  /** Along a whole run the feeder always expects the number after the last packet handed on if and only if
      the timer never finds a shifted packet. */
  lemma ExpectsNextIff(c: Config, evs: seq<Event>)
    requires c.restart <= c.max < U64 && (forall ev <- evs :: Within(c, ev))
    ensures (forall k | 0 <= k <= |evs| :: Expects(c, Run(c, evs[..k]))) <==> AllSpared(c, evs)
  {
    if AllSpared(c, evs) {
      forall k | 0 <= k <= |evs|
        ensures Expects(c, Run(c, evs[..k]))
      {
        OnRingSoFar(c, evs, k);
        OnRingExpects(c, Run(c, evs[..k]));
      }
    } else {
      var i :| 0 <= i < |evs| && !Spared(c, Run(c, evs[..i]), evs[i]);
      var k := FirstShifted(c, evs, i);
      ShiftedShows(c, evs, k);
    }
  }

  /** Behind an overflow the timer hands a pending packet on with its shifted number and expects one too
      many: the packet that is in fact next is taken for a repetition and dropped. */
  lemma OverflowBehindTimerDropsNext(c: Config, a: Packet, b: Packet, d: Packet)
    requires c.waits && c.restart <= b.num && 2 * (b.num + 1) <= c.max && 4 <= c.max < U64
    requires a.num == c.max - 1 && d.num == b.num + 1
    ensures var s := Run(c, [Arrives(a), Arrives(b), TimesOut]);
            && s.next == b.num + 2 && s.dropped == 0 && s.out == [a, b.(num := b.num + c.max + 1)]
            && Feed(c, s, d) == s.(dropped := 1)
  {
    var evs := [Arrives(a), Arrives(b), TimesOut];
    assert evs[..0] == [] && evs[..3] == evs;
    assert forall k | 0 < k <= 3 :: evs[..k][..k - 1] == evs[..k - 1];
    var late := b.(num := b.num + c.max + 1);
    var s1 := State(c.max, 1, 0, 0, [], [a]);
    assert Run(c, evs[..1]) == s1;
    FeedBehind(c, s1, b);
    assert Run(c, evs[..2]) == s1.(pending := [late]);
    OneGivenUp(c, s1.(pending := [late]), late);
    FeedBehind(c, Run(c, evs), d);
  }

  lemma OneGivenUp(c: Config, s: State, late: Packet)
    requires s.pending == [late] && s.next == c.max < U64 && s.lost == 0 && c.max < late.num <= 2 * c.max
    ensures Timer(c, s)
         == State(late.num + 1 - c.max, s.received + 1, s.dropped, late.num - c.max, [], s.out + [late])
  {
    assert [late][..0] == [];
    assert GiveUp(c, s, []) == s;
    Small(late.num - c.max);
  }
}
