/**
 The whole book against the four markets it stands for: everything that happens on the sides, in whatever
 order it comes, and everything the exchange sends for it.
*/
module BookMarkets {
  import opened Wrappers
  import opened Book
  import opened BookDepth

  datatype Markets = Markets(buys: Market, sells: Market, derivedBuy: Market, derivedSell: Market) {
    function Get(side: Side): Market {
      match side
      case OrderBuy => buys
      case OrderSell => sells
      case DerivedBuy => derivedBuy
      case DerivedSell => derivedSell
    }

    function Set(side: Side, m: Market): (r: Markets)
      ensures forall s: Side :: r.Get(s) == if s == side then m else Get(s)
    {
      match side
      case OrderBuy => this.(buys := m)
      case OrderSell => this.(sells := m)
      case DerivedBuy => this.(derivedBuy := m)
      case DerivedSell => this.(derivedSell := m)
    }

    predicate Valid() {
      forall side: Side :: Get(side).Valid() && Get(side).depth == DepthOf(side)
    }
  }

  /** Something happens on a side of the book, or an entry comes that no side takes. */
  datatype BookEvent = On(side: Side, h: Happening) | Ignored(e: Entry)

  function SentFor(h: BookEvent): (es: seq<Entry>)
    ensures |es| <= 1
  {
    match h
    case On(_, Reported(_, e)) => [e]
    case On(_, Unseen(_)) => []
    case Ignored(e) => [e]
  }

  /** The entries that are sent along a run of the book. */
  function Sent(hs: seq<BookEvent>): seq<Entry> {
    if hs == [] then []
    else Sent(hs[..|hs| - 1]) + SentFor(hs[|hs| - 1])
  }

  function ApplySent(b: Book, div: PriceDiv, h: BookEvent): Book {
    if SentFor(h) == [] then b else Apply(b, SentFor(h)[0], div)
  }

  /** An entry that a side takes: of its type, for one of its levels, with an action that is known. */
  predicate Taken(e: Entry, side: Side) {
    e.kind == KindOf(side) && 1 <= e.level <= DepthOf(side) && e.action in {'0', '1', '2', '5'}
  }

  function MarketsStep(ms: Markets, div: PriceDiv, h: BookEvent): (r: Option<Markets>)
    requires ms.Valid()
    ensures r.Some? ==> r.value.Valid()
  {
    match h
    case Ignored(e) => if exists side: Side :: Taken(e, side) then None else Some(ms)
    case On(side, h) =>
      if h.Reported? && h.e.kind != KindOf(side) then None
      else match Step(ms.Get(side), div, h) case None => None case Some(m) => Some(ms.Set(side, m))
  }

  /** The four markets after a run, or None when something in it cannot happen. */
  function MarketsRun(ms: Markets, div: PriceDiv, hs: seq<BookEvent>): (r: Option<Markets>)
    requires ms.Valid()
    ensures r.Some? ==> r.value.Valid()
  {
    if hs == [] then Some(ms)
    else match MarketsRun(ms, div, hs[..|hs| - 1]) case None => None case Some(ms1) => MarketsStep(ms1, div, hs[|hs| - 1])
  }

  /** Each side of the book is the window on its market. */
  ghost predicate Mirrors(b: Book, ms: Markets) {
    ms.Valid() && forall side: Side :: b.Get(side) == ms.Get(side).Window()
  }

  lemma ReportedApplies(b: Book, ms: Markets, div: PriceDiv, side: Side, ev: Event, e: Entry)
    requires Mirrors(b, ms) && MarketsStep(ms, div, On(side, Reported(ev, e))).Some?
    ensures Possible(ms.Get(side), ev) && Reports(e, div, ms.Get(side), ev)
    ensures Apply(b, e, div) == b.Set(side, ApplyToSide(b.Get(side), e, div))
    ensures MarketsStep(ms, div, On(side, Reported(ev, e))) == Some(ms.Set(side, Occur(ms.Get(side), ev)))
  {
  }

  lemma SetMirrors(b: Book, ms: Markets, side: Side, m: Market)
    requires Mirrors(b, ms) && m.Valid() && m.depth == DepthOf(side)
    ensures Mirrors(b.Set(side, m.Window()), ms.Set(side, m))
  {
  }

  /** What is sent for an event on a side does to the book what the event does to the markets. */
  lemma ReportedMirrors(b: Book, ms: Markets, div: PriceDiv, side: Side, ev: Event, e: Entry)
    requires Mirrors(b, ms) && MarketsStep(ms, div, On(side, Reported(ev, e))).Some?
    ensures Mirrors(Apply(b, e, div), MarketsStep(ms, div, On(side, Reported(ev, e))).value)
  {
    ReportedApplies(b, ms, div, side, ev, e);
    WindowFollows(ms.Get(side), ev, e, div);
    SetMirrors(b, ms, side, Occur(ms.Get(side), ev));
  }

  lemma UnseenMirrors(b: Book, ms: Markets, div: PriceDiv, side: Side, full: Levels)
    requires Mirrors(b, ms) && MarketsStep(ms, div, On(side, Unseen(full))).Some?
    ensures Mirrors(b, MarketsStep(ms, div, On(side, Unseen(full))).value)
  {
    UnseenKeepsWindow(ms.Get(side), full);
  }

  /** A book that begins as the window on its markets and takes every entry sent, whatever happens on its
      four sides in whatever order, stays the window on them. */
  lemma {:induction false} BookMirrorsMarkets(b: Book, ms: Markets, div: PriceDiv, hs: seq<BookEvent>)
    requires Mirrors(b, ms) && MarketsRun(ms, div, hs).Some?
    ensures Mirrors(ApplyAll(b, Sent(hs), div), MarketsRun(ms, div, hs).value)
    decreases |hs|
  {
    if hs != [] {
      var front := hs[..|hs| - 1];
      BookMirrorsMarkets(b, ms, div, front);
      SentGrows(b, div, hs);
      MirrorsStep(ApplyAll(b, Sent(front), div), MarketsRun(ms, div, front).value, div, hs[|hs| - 1]);
    }
  }

  lemma MirrorsStep(b: Book, ms: Markets, div: PriceDiv, h: BookEvent)
    requires Mirrors(b, ms) && MarketsStep(ms, div, h).Some?
    ensures Mirrors(ApplySent(b, div, h), MarketsStep(ms, div, h).value)
  {
    match h
    case On(side, Reported(ev, e)) => ReportedMirrors(b, ms, div, side, ev, e);
    case On(side, Unseen(full)) => UnseenMirrors(b, ms, div, side, full);
    case Ignored(e) => AppliesByShape(b, ms, e);
  }

  /** A side that is owed nothing holds the best levels of its market, all of them. */
  lemma CompleteSide(b: Book, ms: Markets, side: Side, i: nat)
    requires Mirrors(b, ms) && ms.Get(side).Owed() == 0 && i < |b.Get(side)|
    ensures b.Get(side)[i] == if i < |ms.Get(side).full| then ms.Get(side).full[i] else ZERO
  {
  }

  lemma AppliesByShape(b: Book, ms: Markets, e: Entry)
    requires Mirrors(b, ms)
    ensures Applies(b, e) <==> exists side: Side :: Taken(e, side)
  {
    if Applies(b, e) { assert Taken(e, SideOf(e).value); }
  }

  lemma SentGrows(b: Book, div: PriceDiv, hs: seq<BookEvent>)
    requires hs != []
    ensures ApplyAll(b, Sent(hs), div) == ApplySent(ApplyAll(b, Sent(hs[..|hs| - 1]), div), div, hs[|hs| - 1])
  {
    var front, sent := Sent(hs[..|hs| - 1]), SentFor(hs[|hs| - 1]);
    if sent == [] {
      assert front + sent == front;
    } else {
      assert (front + sent)[..|front|] == front;
    }
  }

  /** An empty book is the window on markets of which nothing is known yet. */
  lemma EmptyBookMirrors(ms: Markets)
    requires ms.Valid() && forall side: Side :: ms.Get(side).valid == 0
    ensures Mirrors(EMPTY_BOOK, ms)
  {
    forall side: Side
      ensures EMPTY_BOOK.Get(side) == ms.Get(side).Window()
    {
      assert EMPTY_BOOK.Get(side) == Zeros(|EMPTY_BOOK.Get(side)|);
    }
  }
}
