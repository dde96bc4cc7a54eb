/**
 What the fixed levels of a side mean: a window on the exchange's full list of levels. The exchange
 inserts, removes and amends within the window; when a removal pulls a level in that the window has
 never seen, the exchange sends that level later, as a new level at the end of the valid ones.
*/
module BookDepth {
  import opened Wrappers
  import opened Book

  function Zeros(n: nat): (z: Levels)
    ensures |z| == n && forall i | 0 <= i < n :: z[i] == ZERO
  {
    seq(n, _ => ZERO)
  }

  /** `full` is every level of the side, best first; the first `valid` of them are known. */
  datatype Market = Market(full: Levels, valid: nat, depth: nat) {
    predicate Valid() { valid <= |full| && valid <= depth && depth > 0 }

    /** The levels in memory: the known ones, then zeros. */
    function Window(): (w: Levels)
      requires Valid()
      ensures |w| == depth
    {
      full[..valid] + Zeros(depth - valid)
    }

    /** How many levels that belong in the window are still to be sent. */
    function Owed(): int { (if |full| < depth then |full| else depth) - valid }
  }

  /** What the exchange sends an entry for. */
  datatype Event = Insert(lv: nat, pq: PriQty) | Remove(lv: nat) | Amend(lv: nat, pq: PriQty) | Reveal

  /** What the exchange can send in a given state of its market. */
  predicate Possible(m: Market, ev: Event) {
    && m.Valid()
    && match ev
       case Insert(lv, _) => lv <= m.valid && lv < m.depth
       case Remove(lv) => lv < m.valid
       case Amend(lv, _) => lv < m.valid
       case Reveal => m.Owed() > 0
  }

  function Occur(m: Market, ev: Event): (m': Market)
    requires Possible(m, ev)
    ensures m'.Valid() && m'.depth == m.depth
  {
    match ev
    case Insert(lv, pq) =>
      m.(full := m.full[..lv] + [pq] + m.full[lv..], valid := if m.valid < m.depth then m.valid + 1 else m.depth)
    case Remove(lv) => m.(full := m.full[..lv] + m.full[lv + 1..], valid := m.valid - 1)
    case Amend(lv, pq) => m.(full := m.full[lv := pq])
    case Reveal => m.(valid := m.valid + 1)
  }

  /** The entry the exchange sends for an event: the action, the level, and what to put there. A level that comes into view is sent like a new one. */
  predicate Reports(e: Entry, div: PriceDiv, m: Market, ev: Event)
    requires Possible(m, ev)
  {
    match ev
    case Insert(lv, pq) => e.action == '0' && e.level == lv + 1 && Says(e, div, pq)
    case Remove(lv) => e.action == '2' && e.level == lv + 1
    case Amend(lv, pq) => (e.action == '1' || e.action == '5') && e.level == lv + 1 && Says(e, div, pq)
    case Reveal =>
      e.action == '0' && e.level == m.valid + 1 && Says(e, div, m.full[m.valid])
  }

  lemma InsertFollows(m: Market, lv: nat, pq: PriQty)
    requires Possible(m, Insert(lv, pq))
    ensures InsertAt(m.Window(), lv, pq) == Occur(m, Insert(lv, pq)).Window()
  {
    var w, w' := m.Window(), Occur(m, Insert(lv, pq)).Window();
    forall i | 0 <= i < m.depth ensures InsertAt(w, lv, pq)[i] == w'[i] {
      assert InsertAt(w, lv, pq)[i] == if i < lv then w[i] else if i == lv then pq else w[i - 1];
    }
  }

  lemma RemoveFollows(m: Market, lv: nat)
    requires Possible(m, Remove(lv))
    ensures DeleteAt(m.Window(), lv) == Occur(m, Remove(lv)).Window()
  {
    var w, w' := m.Window(), Occur(m, Remove(lv)).Window();
    forall i | 0 <= i < m.depth ensures DeleteAt(w, lv)[i] == w'[i] {
      assert DeleteAt(w, lv)[i] == if i < lv then w[i] else if i + 1 < m.depth then w[i + 1] else ZERO;
      assert i < m.valid - 1 ==> w'[i] == if i < lv then m.full[i] else m.full[i + 1];
    }
  }

  lemma RevealFollows(m: Market)
    requires Possible(m, Reveal)
    ensures InsertAt(m.Window(), m.valid, m.full[m.valid]) == Occur(m, Reveal).Window()
  {
    var w, pq, w' := m.Window(), m.full[m.valid], Occur(m, Reveal).Window();
    forall i | 0 <= i < m.depth ensures InsertAt(w, m.valid, pq)[i] == w'[i] {
      assert InsertAt(w, m.valid, pq)[i] == if i < m.valid then w[i] else if i == m.valid then pq else w[i - 1];
    }
  }

  /** One event and its entry: the window follows the full list, and one more level is owed exactly when
      a removal pulls one in from behind the window. */
  lemma WindowFollows(m: Market, ev: Event, e: Entry, div: PriceDiv)
    requires Possible(m, ev) && Reports(e, div, m, ev)
    ensures ApplyToSide(m.Window(), e, div) == Occur(m, ev).Window()
    ensures Occur(m, ev).Owed() == m.Owed() + (match ev
                                               case Insert(_, _) => if m.valid < m.depth <= |m.full| then -1 else 0
                                               case Remove(_) => if |m.full| > m.depth then 1 else 0
                                               case Amend(_, _) => 0
                                               case Reveal => -1)
  {
    match ev
    case Insert(lv, pq) =>
      SaysOne(e, div, pq);
      InsertFollows(m, lv, pq);
    case Remove(lv) => RemoveFollows(m, lv);
    case Amend(lv, pq) =>
      SaysOne(e, div, pq);
      assert m.Window()[lv := pq] == Occur(m, ev).Window();
    case Reveal =>
      SaysOne(e, div, m.full[m.valid]);
      RevealFollows(m);
  }

  /** The exchange sends an entry for an event; or levels that are not known change, and nothing is sent. */
  datatype Happening = Reported(ev: Event, e: Entry) | Unseen(full: Levels)

  /** What becomes of the market, or None when it cannot happen or is not what the exchange sends for it. */
  function Step(m: Market, div: PriceDiv, h: Happening): (r: Option<Market>)
    requires m.Valid()
    ensures r.Some? ==> r.value.Valid() && r.value.depth == m.depth
  {
    match h
    case Reported(ev, e) => if Possible(m, ev) && Reports(e, div, m, ev) then Some(Occur(m, ev)) else None
    case Unseen(full) => if m.full[..m.valid] <= full then Some(m.(full := full)) else None
  }

  /** The market and the levels in memory after a run. */
  function Run(m: Market, w: Levels, div: PriceDiv, hs: seq<Happening>): (r: Option<(Market, Levels)>)
    requires m.Valid() && |w| == m.depth
    ensures r.Some? ==> r.value.0.Valid() && |r.value.1| == r.value.0.depth == m.depth
  {
    if hs == [] then Some((m, w))
    else
      match Run(m, w, div, hs[..|hs| - 1])
      case None => None
      case Some((m1, w1)) =>
        var h := hs[|hs| - 1];
        match Step(m1, div, h)
        case None => None
        case Some(m2) => Some((m2, if h.Reported? then ApplyToSide(w1, h.e, div) else w1))
  }

  /** Whatever happens to the levels that are not known, the window stays; what is owed stays too while the
      levels that belong in the window do. */
  lemma UnseenKeepsWindow(m: Market, full: Levels)
    requires m.Valid() && m.full[..m.valid] <= full
    ensures m.(full := full).Window() == m.Window()
    ensures (if |m.full| < m.depth then |full| == |m.full| else |full| >= m.depth)
        ==> m.(full := full).Owed() == m.Owed()
  {
    assert full[..m.valid] == m.full[..m.valid];
  }

  /** After any run that begins with a market's window in memory, such as an empty side or a snapshot:
      the levels in memory are the known part of the full list with zeros behind it, and when nothing is
      owed they are its best levels, all of them. */
  lemma {:induction false} WindowRefinesList(m0: Market, div: PriceDiv, hs: seq<Happening>)
    requires m0.Valid() && Run(m0, m0.Window(), div, hs).Some?
    ensures var (m, w) := Run(m0, m0.Window(), div, hs).value;
            && m.Valid() && m.depth == m0.depth == |w|
            && w == m.Window()
            && (m.Owed() == 0 ==> forall i | 0 <= i < m.depth :: w[i] == if i < |m.full| then m.full[i] else ZERO)
    decreases |hs|
  {
    if hs != [] {
      WindowRefinesList(m0, div, hs[..|hs| - 1]);
      var (m, _) := Run(m0, m0.Window(), div, hs[..|hs| - 1]).value;
      match hs[|hs| - 1]
      case Reported(ev, e) => WindowFollows(m, ev, e, div);
      case Unseen(full) => UnseenKeepsWindow(m, full);
    }
  }
}
