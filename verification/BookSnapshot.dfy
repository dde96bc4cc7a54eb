/** A whole new book: ExgMdToSnapshotBS clears what was there and sets the levels a message lists. */
module BookSnapshot {
  import opened Wrappers
  import opened Book
  import opened BookDepth

  /** Where an entry of a snapshot goes. A derived entry goes to its only level whatever level it names. */
  function SlotOf(e: Entry): Option<(Side, nat)> {
    match SideOf(e)
    case None => None
    case Some(side) =>
      if side == DerivedBuy || side == DerivedSell then Some((side, 0))
      else if LevelOf(e) >= DEPTH then None
      else Some((side, LevelOf(e)))
  }

  function Put(b: Book, e: Entry, div: PriceDiv): (r: Book)
    requires b.Valid()
    ensures r.Valid()
  {
    match SlotOf(e)
    case None => b
    case Some((side, lv)) => b.Set(side, b.Get(side)[lv := PriQty(PriceOf(e, div), e.qty)])
  }

  function Snapshot(es: seq<Entry>, div: PriceDiv): (b: Book)
    ensures b.Valid()
  {
    if es == [] then EMPTY_BOOK else Put(Snapshot(es[..|es| - 1], div), es[|es| - 1], div)
  }

  function SnapshotFlags(es: seq<Entry>): set<Side> {
    if es == [] then {}
    else SnapshotFlags(es[..|es| - 1]) + match SlotOf(es[|es| - 1]) case Some((side, _)) => {side} case None => {}
  }

  /** The entry is for this level; a derived one is for the only level of its side whatever level it names. */
  predicate Names(e: Entry, side: Side, lv: nat) {
    && e.kind == KindOf(side)
    && (if side == DerivedBuy || side == DerivedSell then lv == 0 else lv < 5 && e.level == lv + 1)
  }

  lemma NamesSlot(e: Entry, side: Side, lv: nat)
    ensures Names(e, side, lv) <==> SlotOf(e) == Some((side, lv))
  {
  }

  /** Entry i is the last one that names the level. */
  ghost predicate LastNaming(es: seq<Entry>, i: int, side: Side, lv: nat) {
    0 <= i < |es| && Names(es[i], side, lv) && forall j | i < j < |es| :: !Names(es[j], side, lv)
  }

  ghost predicate Named(es: seq<Entry>, side: Side, lv: nat) {
    exists i :: 0 <= i < |es| && Names(es[i], side, lv)
  }

  lemma {:induction false} LastOneWins(es: seq<Entry>, div: PriceDiv, side: Side, lv: nat, i: nat)
    requires lv < DepthOf(side) && LastNaming(es, i, side, lv)
    ensures lv < |Snapshot(es, div).Get(side)|
    ensures Snapshot(es, div).Get(side)[lv] == PriQty(PriceOf(es[i], div), es[i].qty)
  {
    var front := es[..|es| - 1];
    NamesSlot(es[|es| - 1], side, lv);
    if i < |front| {
      assert !Names(es[|es| - 1], side, lv);
      LastOneWins(front, div, side, lv, i);
    }
  }

  lemma {:induction false} UnnamedIsZero(es: seq<Entry>, div: PriceDiv, side: Side, lv: nat)
    requires lv < DepthOf(side) && !Named(es, side, lv)
    ensures lv < |Snapshot(es, div).Get(side)|
    ensures Snapshot(es, div).Get(side)[lv] == ZERO
  {
    if es != [] {
      var front := es[..|es| - 1];
      assert !Names(es[|es| - 1], side, lv);
      NamesSlot(es[|es| - 1], side, lv);
      assert forall i | 0 <= i < |front| :: front[i] == es[i];
      UnnamedIsZero(front, div, side, lv);
    }
  }

  lemma FindLast(es: seq<Entry>, side: Side, lv: nat) returns (k: nat)
    requires Named(es, side, lv)
    ensures LastNaming(es, k, side, lv)
  {
    var i :| 0 <= i < |es| && Names(es[i], side, lv);
    k := i;
    for j := i + 1 to |es|
      invariant k < j && Names(es[k], side, lv) && forall n | k < n < j :: !Names(es[n], side, lv)
    {
      if Names(es[j], side, lv) { k := j; }
    }
  }

  /** Each level is what the last entry that names it says, and zero when none does: nothing of the book
      before is left. */
  lemma SnapshotHolds(es: seq<Entry>, div: PriceDiv, side: Side, lv: nat)
    requires lv < DepthOf(side)
    ensures lv < |Snapshot(es, div).Get(side)|
    ensures if Named(es, side, lv)
            then exists i :: LastNaming(es, i, side, lv)
                             && Says(es[i], div, Snapshot(es, div).Get(side)[lv])
            else Snapshot(es, div).Get(side)[lv] == ZERO
  {
    if Named(es, side, lv) {
      var i := FindLast(es, side, lv);
      LastOneWins(es, div, side, lv, i);
      SaysOne(es[i], div, Snapshot(es, div).Get(side)[lv]);
    } else {
      UnnamedIsZero(es, div, side, lv);
    }
  }

  ghost predicate NamesSome(e: Entry, side: Side) { exists lv: nat :: Names(e, side, lv) }

  lemma NamesSomeSlot(e: Entry, side: Side)
    ensures NamesSome(e, side) <==> SlotOf(e).Some? && SlotOf(e).value.0 == side
  {
    if SlotOf(e).Some? { NamesSlot(e, SlotOf(e).value.0, SlotOf(e).value.1); }
    if lv: nat :| Names(e, side, lv) { NamesSlot(e, side, lv); }
  }

  /** A side is flagged exactly when an entry names one of its levels. */
  lemma {:induction false} FlagsAreSides(es: seq<Entry>, side: Side)
    ensures side in SnapshotFlags(es) <==> exists i :: 0 <= i < |es| && NamesSome(es[i], side)
  {
    if es != [] {
      var front, last := es[..|es| - 1], es[|es| - 1];
      FlagsAreSides(front, side);
      NamesSomeSlot(last, side);
      assert forall i | 0 <= i < |front| :: NamesSome(es[i], side) <==> NamesSome(front[i], side);
      if i :| 0 <= i < |front| && NamesSome(front[i], side) { assert NamesSome(es[i], side); }
    }
  }

  /** The entries of a side in a message that lists the known levels of its market. */
  ghost predicate Lists(es: seq<Entry>, div: PriceDiv, side: Side, m: Market) {
    && m.Valid() && m.depth == DepthOf(side)
    && (forall i, l: nat | 0 <= i < |es| && Names(es[i], side, l) :: l < m.valid)
    && (forall i, l: nat | 0 <= i < |es| && Names(es[i], side, l) :: Says(es[i], div, m.full[l]))
    && (forall l: nat | l < m.valid :: Named(es, side, l))
  }

  lemma ListedLevel(es: seq<Entry>, div: PriceDiv, side: Side, m: Market, lv: nat)
    requires Lists(es, div, side, m) && lv < m.valid
    ensures lv < |Snapshot(es, div).Get(side)| && Snapshot(es, div).Get(side)[lv] == m.full[lv]
  {
    SnapshotHolds(es, div, side, lv);
    assert Named(es, side, lv);
    var pq := Snapshot(es, div).Get(side)[lv];
    var i :| LastNaming(es, i, side, lv) && Says(es[i], div, pq);
    SaysOne(es[i], div, pq);
    SaysOne(es[i], div, m.full[lv]);
  }

  lemma UnlistedLevel(es: seq<Entry>, div: PriceDiv, side: Side, m: Market, lv: nat)
    requires Lists(es, div, side, m) && m.valid <= lv < m.depth
    ensures lv < |Snapshot(es, div).Get(side)| && Snapshot(es, div).Get(side)[lv] == ZERO
  {
    SnapshotHolds(es, div, side, lv);
    forall i | 0 <= i < |es|
      ensures !Names(es[i], side, lv)
    {
    }
  }

  /** A snapshot that lists the known levels of a market leaves that market's window in memory, from which
      updates then follow it (BookDepth.WindowRefinesList). */
  lemma SnapshotIsWindow(es: seq<Entry>, div: PriceDiv, side: Side, m: Market)
    requires Lists(es, div, side, m)
    ensures Snapshot(es, div).Get(side) == m.Window()
  {
    forall lv: nat | lv < m.depth
      ensures Snapshot(es, div).Get(side)[lv] == m.Window()[lv]
    {
      if lv < m.valid { ListedLevel(es, div, side, m, lv); } else { UnlistedLevel(es, div, side, m, lv); }
    }
  }
}
