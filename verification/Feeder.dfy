/**
 PkContFeeder: puts the packets of a channel in order. A packet ahead of the expected number waits among
 the pending ones until the gap closes or a timer gives the gap up.
*/
module Feeder {
  import opened Wrappers

  datatype Packet = Packet(num: nat, data: string)

  /** The largest number, the number after it, and whether a waiting time is set. */
  datatype Config = Config(max: nat, restart: nat, waits: bool)

  datatype State = State(next: nat, received: nat, dropped: nat, lost: nat, pending: seq<Packet>, out: seq<Packet>)

  const FRESH := State(0, 0, 0, 0, [], [])

  const U64 := 0x1_0000_0000_0000_0000

  // ---- One packet ----

  function After(c: Config, num: nat): nat {
    if num + 1 <= c.max then num + 1 else if num + 1 - c.max == 1 then c.restart else num + 1 - c.max
  }

  function Deliver(c: Config, s: State, pk: Packet): State {
    s.(next := After(c, pk.num), received := s.received + 1, out := s.out + [pk])
  }

  /** Numbers beyond the overflow are kept larger than the others while they wait. */
  function Unshifted(c: Config, pk: Packet): Packet {
    if pk.num > c.max then pk.(num := pk.num - (c.max + 1)) else pk
  }

  /** Hands on the pending packets that have become next in line. */
  function Drain(c: Config, s: State): State
    decreases |s.pending|
  {
    if s.pending == [] || Unshifted(c, s.pending[0]).num != s.next then s
    else Drain(c, Deliver(c, s, Unshifted(c, s.pending[0])).(pending := s.pending[1..]))
  }

  /** The first place whose packet is not below `num`. */
  function Place(pending: seq<Packet>, num: nat): (i: nat)
    ensures i <= |pending|
    ensures forall j | 0 <= j < i :: pending[j].num < num
    ensures i < |pending| ==> pending[i].num >= num
  {
    if pending == [] || pending[0].num >= num then 0 else 1 + Place(pending[1..], num)
  }

  /** A packet whose number already waits is ignored. */
  function Insert(s: State, pk: Packet): State {
    var i := Place(s.pending, pk.num);
    if i < |s.pending| && s.pending[i].num == pk.num then s
    else s.(pending := s.pending[..i] + [pk] + s.pending[i..])
  }

  /** The branch for numbers that look like those after an overflow; the subtraction is unsigned. */
  predicate Overflows(c: Config, s: State, pk: Packet) {
    pk.num < s.next && (pk.num + c.max - s.next) % U64 < c.max / 2
  }

  function Feed(c: Config, s: State, pk: Packet): State {
    if pk.num == s.next then Drain(c, Deliver(c, s, pk))
    else if pk.num < s.next then
      if Overflows(c, s, pk) then Insert(s, pk.(num := pk.num + c.max + 1)) else s.(dropped := s.dropped + 1)
    else if s.next == 0 && s.received == 0 then Drain(c, Deliver(c, s, pk))
    else if pk.num - s.next > c.max / 2 then s.(dropped := s.dropped + 1)
    else if !c.waits then Drain(c, Deliver(c, s, pk))
    else Insert(s, pk)
  }

  /** A packet handed on although packets before it are missing; the count is an unsigned 64-bit number. */
  function PassOver(c: Config, s: State, pk: Packet): State {
    Deliver(c, s.(lost := (s.lost + pk.num - s.next) % U64), pk)
  }

  /** The timer hands on the given pending packets in order and counts the gaps as lost. */
  function GiveUp(c: Config, s: State, pks: seq<Packet>): State {
    if pks == [] then s
    else PassOver(c, GiveUp(c, s, pks[..|pks| - 1]), pks[|pks| - 1])
  }

  function Timer(c: Config, s: State): State {
    GiveUp(c, s, s.pending).(pending := [])
  }

  datatype Event = Arrives(pk: Packet) | TimesOut

  function Next(c: Config, s: State, ev: Event): State {
    match ev case Arrives(pk) => Feed(c, s, pk) case TimesOut => Timer(c, s)
  }

  function Run(c: Config, evs: seq<Event>): State {
    if evs == [] then FRESH else Next(c, Run(c, evs[..|evs| - 1]), evs[|evs| - 1])
  }

  // ---- In place ----

  class PkContFeeder {
    const max: nat
    const restart: nat
    const waits: bool
    var next: nat
    var received: nat
    var dropped: nat
    var lost: nat
    var pending: seq<Packet>
    var out: seq<Packet>

    ghost function Setup(): Config { Config(max, restart, waits) }

    ghost function View(): State reads this { State(next, received, dropped, lost, pending, out) }

    constructor (max: nat, restart: nat, waits: bool)
      ensures Setup() == Config(max, restart, waits) && View() == FRESH
    {
      this.max, this.restart, this.waits := max, restart, waits;
      next, received, dropped, lost, pending, out := 0, 0, 0, 0, [], [];
    }

    method CallOnReceived(pk: Packet)
      modifies `next, `received, `out
      ensures View() == Deliver(Setup(), old(View()), pk)
    {
      var after := pk.num + 1;
      out := out + [pk];
      if after <= max {
        next := after;
      } else {
        next := after - max;
        if next == 1 { next := restart; }
      }
      received := received + 1;
    }

    method InsertPending(pk: Packet)
      modifies `pending
      ensures View() == Insert(old(View()), pk)
    {
      var i := 0;
      while i < |pending| && pending[i].num < pk.num
        invariant i <= |pending| && pending == old(pending)
        invariant Place(pending, pk.num) == i + Place(pending[i..], pk.num)
      {
        assert pending[i..][1..] == pending[i + 1..];
        i := i + 1;
      }
      if i == |pending| || pending[i].num != pk.num {
        pending := pending[..i] + [pk] + pending[i..];
      }
    }

    /** Delivers a packet and then what has become next in line. */
    method ReceiveAndDrain(pk: Packet)
      modifies `next, `received, `pending, `out
      ensures View() == Drain(Setup(), Deliver(Setup(), old(View()), pk))
    {
      CallOnReceived(pk);
      ghost var s := View();
      var i := 0;
      while i < |pending| && Unshifted(Config(max, restart, waits), pending[i]).num == next
        invariant i <= |pending| && pending == old(pending)
        invariant Drain(Setup(), s) == Drain(Setup(), View().(pending := pending[i..]))
      {
        assert pending[i..][1..] == pending[i + 1..];
        CallOnReceived(Unshifted(Config(max, restart, waits), pending[i]));
        i := i + 1;
      }
      pending := pending[i..];
    }

    method FeedPacket(pk: Packet)
      modifies this
      ensures View() == Feed(Setup(), old(View()), pk)
    {
      if pk.num == next {
        ReceiveAndDrain(pk);
        return;
      }
      if pk.num < next {
        if (pk.num + max - next) % U64 < max / 2 {
          InsertPending(pk.(num := pk.num + max + 1));
        } else {
          dropped := dropped + 1;
        }
        return;
      }
      if next == 0 && received == 0 {
        ReceiveAndDrain(pk);
      } else if pk.num - next > max / 2 {
        dropped := dropped + 1;
      } else if !waits {
        ReceiveAndDrain(pk);
      } else {
        InsertPending(pk);
      }
    }

    method PkContOnTimer()
      modifies this
      ensures View() == Timer(Setup(), old(View()))
    {
      for i := 0 to |pending|
        invariant pending == old(pending)
        invariant View() == GiveUp(Setup(), old(View()), pending[..i])
      {
        assert pending[..i + 1][..i] == pending[..i];
        lost := (lost + pending[i].num - next) % U64;
        CallOnReceived(pending[i]);
      }
      assert pending[..|pending|] == pending;
      pending := [];
    }
  }
}
