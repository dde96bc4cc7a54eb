/**
 The two programs that apply an exchange update to the book in place: I081BSParserToRts, which also
 writes the delta packet, and ExgMdToUpdateBS, which only updates. Both leave the book that the function
 ApplyAll describes, so they agree on every update.
*/
module BookUpdate {
  import opened Wrappers
  import opened Bytes
  import opened Buffers
  import opened BitvNumber
  import opened BitvDecimal
  import opened BitvStreams
  import opened Book
  import BookSnapshot

  /** How far the loop of I081BSParserToRts has come: the book, its flags, the count and the deltas. */
  datatype Progress = Progress(book: Book, flags: set<Side>, count: Byte, node: Bytes)

  function Add(p: Progress, e: Entry, div: PriceDiv): Progress
    requires p.book.Valid()
  {
    var delta := Delta(p.book, e, div);
    Progress(Apply(p.book, e, div), p.flags + (match SideOf(e) case Some(side) => {side} case None => {}),
             if delta != [] then Increment(p.count) else p.count, p.node + delta)
  }

  function Parsed(b: Book, es: seq<Entry>, div: PriceDiv): (p: Progress)
    requires b.Valid()
    ensures p.book.Valid()
  {
    if es == [] then Progress(b, {}, 0, []) else Add(Parsed(b, es[..|es| - 1], div), es[|es| - 1], div)
  }

  lemma {:induction false} ParsedIsUpdate(b: Book, es: seq<Entry>, div: PriceDiv)
    requires b.Valid()
    ensures Parsed(b, es, div)
         == Progress(ApplyAll(b, es, div), Flags(es), Uint8(Count(b, es, div)), Deltas(b, es, div))
  {
    if es != [] {
      ParsedIsUpdate(b, es[..|es| - 1], div);
      CountsOn(Count(b, es[..|es| - 1], div));
    }
  }

  lemma ParsedStep(b: Book, es: seq<Entry>, i: nat, div: PriceDiv)
    requires b.Valid() && i < |es|
    ensures Parsed(b, es[..i + 1], div) == Add(Parsed(b, es[..i], div), es[i], div)
  {
    assert es[..i + 1][..i] == es[..i];
  }

  class SymbBook {
    const buys: array<PriQty>
    const sells: array<PriQty>
    const derivedBuy: array<PriQty>
    const derivedSell: array<PriQty>
    var flags: set<Side>

    predicate Valid() {
      && buys.Length == DEPTH && sells.Length == DEPTH && derivedBuy.Length == 1 && derivedSell.Length == 1
      && buys != sells && derivedBuy != derivedSell
    }

    function View(): (b: Book)
      requires Valid()
      reads buys, sells, derivedBuy, derivedSell
      ensures b.Valid()
    {
      Book(buys[..], sells[..], derivedBuy[..], derivedSell[..])
    }

    constructor ()
      ensures Valid() && fresh(buys) && fresh(sells) && fresh(derivedBuy) && fresh(derivedSell)
      ensures View() == EMPTY_BOOK
    {
      buys := new PriQty[DEPTH](_ => ZERO);
      sells := new PriQty[DEPTH](_ => ZERO);
      derivedBuy := new PriQty[1](_ => ZERO);
      derivedSell := new PriQty[1](_ => ZERO);
      flags := {};
    }

    function LevelsOf(side: Side): array<PriQty> {
      match side
      case OrderBuy => buys
      case OrderSell => sells
      case DerivedBuy => derivedBuy
      case DerivedSell => derivedSell
    }

    /** The loop of I081BSParserToRts: the entries in order, each one into the book and then its delta
        behind those before it. */
    method ParseEntries(es: seq<Entry>, div: PriceDiv) returns (count: Byte, node: Bytes)
      requires Valid()
      modifies this, buys, sells, derivedBuy, derivedSell
      ensures Progress(View(), flags, count, node) == Parsed(old(View()), es, div)
    {
      ghost var b := View();
      flags, count, node := {}, 0, [];
      for i := 0 to |es|
        invariant Progress(View(), flags, count, node) == Parsed(b, es[..i], div)
      {
        ParsedStep(b, es, i, div);
        var delta := ApplyEntry(es[i], div);
        if delta != [] { count := Increment(count); }
        node := node + delta;
      }
      assert es[..|es|] == es;
    }

    /** I081BSParserToRts. */
    method ParseI081(es: seq<Entry>, div: PriceDiv) returns (packet: Option<Bytes>)
      requires Valid()
      modifies this, buys, sells, derivedBuy, derivedSell
      ensures View() == ApplyAll(old(View()), es, div) && flags == Flags(es)
      ensures packet == Packet(old(View()), es, div)
    {
      ParsedIsUpdate(View(), es, div);
      var count, node := ParseEntries(es, div);
      packet := if count == 0 then None else Some([count - 1] + node);
    }

    /** One round of the loop of I081BSParserToRts. */
    method ApplyEntry(e: Entry, div: PriceDiv) returns (delta: Bytes)
      requires Valid()
      modifies this, buys, sells, derivedBuy, derivedSell
      ensures View() == Apply(old(View()), e, div)
      ensures flags == old(flags) + (match SideOf(e) case Some(side) => {side} case None => {})
      ensures delta == Delta(old(View()), e, div)
    {
      var side := SideOf(e);
      if side.None? {
        return [];
      }
      flags := flags + {side.value};
      var dst := LevelsOf(side.value);
      if LevelOf(e) >= dst.Length || ActionOf(e).None? {
        return [];
      }
      delta := ApplyToLevels(dst, SideBits(side.value) + LevelOf(e), e, div);
    }

    /** ExgMdToUpdateBS. */
    method ToUpdateBS(es: seq<Entry>, div: PriceDiv)
      requires Valid()
      modifies this, buys, sells, derivedBuy, derivedSell
      ensures View() == ApplyAll(old(View()), es, div) && flags == Flags(es)
    {
      flags := {};
      for i := 0 to |es|
        invariant View() == ApplyAll(old(View()), es[..i], div) && flags == Flags(es[..i])
      {
        assert es[..i + 1][..i] == es[..i];
        UpdateEntry(es[i], div);
      }
      assert es[..|es|] == es;
    }

    /** ExgMdToSnapshotBS. */
    method ToSnapshotBS(es: seq<Entry>, div: PriceDiv)
      requires Valid()
      modifies this, buys, sells, derivedBuy, derivedSell
      ensures View() == BookSnapshot.Snapshot(es, div) && flags == BookSnapshot.SnapshotFlags(es)
    {
      Clear();
      for i := 0 to |es|
        invariant View() == BookSnapshot.Snapshot(es[..i], div) && flags == BookSnapshot.SnapshotFlags(es[..i])
      {
        assert es[..i + 1][..i] == es[..i];
        PutEntry(es[i], div);
      }
      assert es[..|es|] == es;
    }

    method Clear()
      requires Valid()
      modifies this, buys, sells, derivedBuy, derivedSell
      ensures View() == EMPTY_BOOK && flags == {}
    {
      flags := {};
      forall i | 0 <= i < DEPTH { buys[i] := ZERO; }
      forall i | 0 <= i < DEPTH { sells[i] := ZERO; }
      derivedBuy[0], derivedSell[0] := ZERO, ZERO;
    }

    /** One round of the loop of ExgMdToSnapshotBS. */
    method PutEntry(e: Entry, div: PriceDiv)
      requires Valid()
      modifies this, buys, sells, derivedBuy, derivedSell
      ensures View() == BookSnapshot.Put(old(View()), e, div)
      ensures flags == old(flags) + (match BookSnapshot.SlotOf(e) case Some((side, _)) => {side} case None => {})
    {
      var pq := PriQty(PriceOf(e, div), e.qty);
      var lv := LevelOf(e);
      match e.kind {
        case '0' =>
          if lv >= DEPTH { return; }
          buys[lv] := pq;
          flags := flags + {OrderBuy};
        case '1' =>
          if lv >= DEPTH { return; }
          sells[lv] := pq;
          flags := flags + {OrderSell};
        case 'E' =>
          derivedBuy[0] := pq;
          flags := flags + {DerivedBuy};
        case 'F' =>
          derivedSell[0] := pq;
          flags := flags + {DerivedSell};
        case _ =>
      }
    }

    /** One round of the loop of ExgMdToUpdateBS: a new level falls through to the change that fills it. */
    method UpdateEntry(e: Entry, div: PriceDiv)
      requires Valid()
      modifies this, buys, sells, derivedBuy, derivedSell
      ensures View() == Apply(old(View()), e, div)
      ensures flags == old(flags) + (match SideOf(e) case Some(side) => {side} case None => {})
    {
      var side := SideOf(e);
      if side.None? {
        return;
      }
      flags := flags + {side.value};
      var dst, lv := LevelsOf(side.value), LevelOf(e);
      if lv >= dst.Length {
        return;
      }
      if e.action == '2' {
        MoveUp(dst, lv);
      } else if e.action == '0' || e.action == '1' || e.action == '5' {
        if e.action == '0' {
          MoveDown(dst, lv);
        }
        dst[lv] := PriQty(PriceOf(e, div), e.qty);
      } else {
        return;
      }
      assert dst[..] == ApplyToSide(old(dst[..]), e, div);
    }
  }

  /** The switch on the action. The scratch buffer grows at its front, so the quantity goes in before the
      price. */
  method ApplyToLevels(dst: array<PriQty>, bits: Byte, e: Entry, div: PriceDiv) returns (delta: Bytes)
    requires LevelOf(e) < dst.Length && ActionOf(e).Some? && bits < 0x40
    modifies dst
    ensures dst[..] == ApplyToSide(old(dst[..]), e, div)
    ensures delta == SideDelta(old(dst[..]), bits, e, div)
  {
    var lv, pri := LevelOf(e), PriceOf(e, div);
    PriceInRange(e, div);
    QtyInRange(e);
    var xbuf := new RevBuffer();
    if e.action == '2' {
      MoveUp(dst, lv);
      return [ACTION_DELETE + bits];
    }
    QtyToBitv(xbuf, e.qty);
    if e.action == '0' {
      MoveDown(dst, lv);
      dst[lv] := PriQty(pri, e.qty);
      PriToBitv(xbuf, pri);
      return [ACTION_NEW + bits] + xbuf.data;
    }
    dst[lv] := dst[lv].(qty := e.qty);
    if pri == dst[lv].pri {
      return [ACTION_CHANGE_QTY + bits] + xbuf.data;
    }
    dst[lv] := dst[lv].(pri := pri);
    PriToBitv(xbuf, pri);
    return [ACTION_CHANGE_PQ + bits] + xbuf.data;
  }

  method QtyToBitv(xbuf: RevBuffer, q: int)
    requires UINT64.Has(q) && xbuf.data == []
    modifies xbuf
    ensures xbuf.data == EncodeQty(q)
  {
    TypeInWide(UINT64, q);
    IntToBitv(xbuf, q);
  }

  method PriToBitv(xbuf: RevBuffer, p: int)
    requires INT64.Has(p) && p != NULL_PRI
    modifies xbuf
    ensures xbuf.data == EncodePri(p) + old(xbuf.data)
  {
    TypeInWide(INT64, p);
    DecToBitv(xbuf, p, PRI_SCALE);
  }

  /** memmove of the levels behind lv up by one, and zero the last. */
  method MoveUp(dst: array<PriQty>, lv: nat)
    requires lv < dst.Length
    modifies dst
    ensures dst[..] == DeleteAt(old(dst[..]), lv)
  {
    forall i | lv <= i < dst.Length - 1 {
      dst[i] := dst[i + 1];
    }
    dst[dst.Length - 1] := ZERO;
  }

  /** memmove of the levels from lv on down by one; the last is lost and lv keeps what it had. */
  method MoveDown(dst: array<PriQty>, lv: nat)
    requires lv < dst.Length
    modifies dst
    ensures dst[..] == InsertAt(old(dst[..]), lv, old(dst[lv]))
  {
    forall i | lv < i < dst.Length {
      dst[i] := dst[i - 1];
    }
  }
}
