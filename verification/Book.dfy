/**
 The order book of one symbol: the entries of an exchange update, what they do to the book, and the
 delta packet that carries them to replicas.
*/
module Book {
  import opened Wrappers
  import opened Bytes
  import opened BitvNumber
  import opened BitvDecimal

  const DEPTH := 5
  const PRI_SCALE := 8
  const NULL_PRI: int := OrigNull(INT64)

  /** A price with eight decimals, as its integer, and a quantity. */
  datatype PriQty = PriQty(pri: int, qty: int)

  const ZERO := PriQty(0, 0)

  datatype Side = OrderBuy | OrderSell | DerivedBuy | DerivedSell

  type Levels = seq<PriQty>

  datatype Book = Book(buys: Levels, sells: Levels, derivedBuy: Levels, derivedSell: Levels) {
    predicate Valid() {
      |buys| == DEPTH && |sells| == DEPTH && |derivedBuy| == 1 && |derivedSell| == 1
    }

    function Get(side: Side): Levels {
      match side
      case OrderBuy => buys
      case OrderSell => sells
      case DerivedBuy => derivedBuy
      case DerivedSell => derivedSell
    }

    function Set(side: Side, levels: Levels): Book {
      match side
      case OrderBuy => this.(buys := levels)
      case OrderSell => this.(sells := levels)
      case DerivedBuy => this.(derivedBuy := levels)
      case DerivedSell => this.(derivedSell := levels)
    }
  }

  const EMPTY_BOOK := Book([ZERO, ZERO, ZERO, ZERO, ZERO], [ZERO, ZERO, ZERO, ZERO, ZERO], [ZERO], [ZERO])

  /** An entry of I081. The packed decimal fields are not checked, so a nibble can be up to 15. */
  datatype RawEntry = RawEntry(action: char, kind: char, sign: char, price: nat, qty: nat, level: nat)

  type Entry = e: RawEntry | e.price <= 16_666_666_665 && e.qty <= 166_666_665 && e.level <= 165
    witness RawEntry('0', '0', '0', 0, 0, 0)

  function SideOf(e: Entry): Option<Side> {
    if e.kind == '0' then Some(OrderBuy)
    else if e.kind == '1' then Some(OrderSell)
    else if e.kind == 'E' then Some(DerivedBuy)
    else if e.kind == 'F' then Some(DerivedSell)
    else None
  }

  /** The level counted from 0 in 32 unsigned bits: level 0 of the exchange becomes a huge one. */
  function LevelOf(e: Entry): nat {
    if e.level == 0 then 0xffff_ffff else e.level - 1
  }

  /** The divisor a symbol's decimal locator gives, 0 when it is not known yet. */
  type PriceDiv = d: nat | d <= 100_000_000

  /** ExgMdSPrice::AssignTo. */
  function PriceOf(e: Entry, div: PriceDiv): int {
    var v := if div == 0 then e.price else e.price * div;
    if e.sign == '-' then -v else v
  }

  lemma PriceInRange(e: Entry, div: PriceDiv)
    ensures INT64.Has(PriceOf(e, div)) && PriceOf(e, div) != NULL_PRI
  {
    Pow256Values();
    ProductBound(e.price, div, 16_666_666_665, 100_000_000);
  }

  lemma ProductBound(a: nat, b: nat, m: nat, n: nat)
    requires a <= m && b <= n
    ensures 0 <= a * b <= m * n
  {
    assert a * b <= a * n <= m * n;
  }

  // ---- What an entry says, field by field ----

  /** The type character of the entries of a side. */
  function KindOf(side: Side): char {
    match side
    case OrderBuy => '0'
    case OrderSell => '1'
    case DerivedBuy => 'E'
    case DerivedSell => 'F'
  }

  function DepthOf(side: Side): nat {
    match side
    case OrderBuy => 5
    case OrderSell => 5
    case DerivedBuy => 1
    case DerivedSell => 1
  }

  /** The entry is for this level of this side, counted from 0. */
  predicate IsFor(e: Entry, side: Side, lv: nat) {
    e.kind == KindOf(side) && e.level == lv + 1 && lv < DepthOf(side)
  }

  function Abs(x: int): nat { if x < 0 then -x else x }

  /** The quantity is the one sent. The price has the sign sent, where anything but '-' is a plus, and the
      size sent, times the divisor if that is known. */
  predicate Says(e: Entry, div: PriceDiv, pq: PriQty) {
    && pq.qty == e.qty
    && (if e.sign == '-' then pq.pri <= 0 else pq.pri >= 0)
    && Abs(pq.pri) == if div == 0 then e.price else e.price * div
  }

  lemma SaysOne(e: Entry, div: PriceDiv, pq: PriQty)
    ensures Says(e, div, pq) <==> pq == PriQty(PriceOf(e, div), e.qty)
  {
    ProductBound(e.price, div, e.price, div);
  }

  lemma ForOneLevel(e: Entry, side: Side, lv: nat)
    ensures IsFor(e, side, lv) <==> SideOf(e) == Some(side) && LevelOf(e) == lv && lv < DepthOf(side)
  {
  }

  // ---- What an update does to the levels of a side ----

  function DeleteAt(s: Levels, lv: nat): (r: Levels)
    requires lv < |s|
    ensures |r| == |s|
  {
    s[..lv] + s[lv + 1..] + [ZERO]
  }

  function InsertAt(s: Levels, lv: nat, pq: PriQty): (r: Levels)
    requires lv < |s|
    ensures |r| == |s|
  {
    s[..lv] + [pq] + s[lv..|s| - 1]
  }

  datatype Action = New | Delete | Change

  function ActionOf(e: Entry): Option<Action> {
    if e.action == '0' then Some(New)
    else if e.action == '2' then Some(Delete)
    else if e.action == '1' || e.action == '5' then Some(Change)
    else None
  }

  /** An entry with a known side, a level within it and a known action. */
  predicate Applies(b: Book, e: Entry) {
    SideOf(e).Some? && LevelOf(e) < |b.Get(SideOf(e).value)| && ActionOf(e).Some?
  }

  function ApplyToSide(s: Levels, e: Entry, div: PriceDiv): (r: Levels)
    requires ActionOf(e).Some? && LevelOf(e) < |s|
    ensures |r| == |s|
  {
    var lv, pq := LevelOf(e), PriQty(PriceOf(e, div), e.qty);
    match ActionOf(e).value
    case New => InsertAt(s, lv, pq)
    case Delete => DeleteAt(s, lv)
    case Change => s[lv := pq]
  }

  function Apply(b: Book, e: Entry, div: PriceDiv): (r: Book)
    ensures b.Valid() ==> r.Valid()
  {
    if Applies(b, e) then b.Set(SideOf(e).value, ApplyToSide(b.Get(SideOf(e).value), e, div)) else b
  }

  function ApplyAll(b: Book, es: seq<Entry>, div: PriceDiv): (r: Book)
    ensures b.Valid() ==> r.Valid()
  {
    if es == [] then b else Apply(ApplyAll(b, es[..|es| - 1], div), es[|es| - 1], div)
  }

  /** The sides an update names, whether or not the level or the action is any good. */
  function Flags(es: seq<Entry>): set<Side> {
    if es == [] then {}
    else Flags(es[..|es| - 1]) + (match SideOf(es[|es| - 1]) case Some(side) => {side} case None => {})
  }

  /** A new or changed level holds the price and quantity that the entry says. */
  lemma EntryIsStored(b: Book, e: Entry, div: PriceDiv, side: Side, lv: nat)
    requires b.Valid() && IsFor(e, side, lv) && e.action in {'0', '1', '5'}
    ensures var levels := Apply(b, e, div).Get(side);
            |levels| == DepthOf(side) && Says(e, div, levels[lv])
  {
    ForOneLevel(e, side, lv);
    SaysOne(e, div, PriQty(PriceOf(e, div), e.qty));
  }

  /** A side is flagged exactly when an entry of an update is for it, whatever its level and action. */
  lemma {:induction false} FlaggedIff(es: seq<Entry>, side: Side)
    ensures side in Flags(es) <==> exists i | 0 <= i < |es| :: es[i].kind == KindOf(side)
  {
    if es != [] {
      var n := |es| - 1;
      FlaggedIff(es[..n], side);
      if i :| 0 <= i < n && es[..n][i].kind == KindOf(side) { assert es[i].kind == KindOf(side); }
      if i :| 0 <= i < |es| && es[i].kind == KindOf(side) {
        if i < n { assert es[..n][i].kind == KindOf(side); }
      }
    }
  }

  // ---- The delta of one entry ----

  function SideBits(side: Side): Byte {
    match side
    case OrderBuy => 0x00
    case OrderSell => 0x10
    case DerivedBuy => 0x20
    case DerivedSell => 0x30
  }

  const ACTION_NEW := 0x00
  const ACTION_DELETE := 0x40
  const ACTION_CHANGE_PQ := 0x80
  const ACTION_CHANGE_QTY := 0xc0

  function EncodePri(p: int): Bytes
    requires INT64.Has(p)
  {
    EncodeDecimal(INT64, PRI_SCALE, p)
  }

  function EncodeQty(q: int): Bytes
    requires UINT64.Has(q)
  {
    TypeInWide(UINT64, q);
    EncodeInt(q)
  }

  lemma QtyInRange(e: Entry)
    ensures UINT64.Has(e.qty)
  {
    Pow256Values();
  }

  /** The bytes I081BSParserToRts appends for an entry that applies to the levels s: the type byte, then
      price and quantity; the price is left out when it stays the same, and both when the level goes. */
  function SideDelta(s: Levels, bits: Byte, e: Entry, div: PriceDiv): (d: Bytes)
    requires LevelOf(e) < |s| && ActionOf(e).Some? && bits < 0x40
    ensures d != []
  {
    PriceInRange(e, div); QtyInRange(e);
    var p := PriceOf(e, div);
    match ActionOf(e).value
    case Delete => [ACTION_DELETE + bits]
    case New => [ACTION_NEW + bits] + (EncodePri(p) + EncodeQty(e.qty))
    case Change =>
      if p == s[LevelOf(e)].pri then [ACTION_CHANGE_QTY + bits] + EncodeQty(e.qty)
      else [ACTION_CHANGE_PQ + bits] + (EncodePri(p) + EncodeQty(e.qty))
  }

  function Delta(b: Book, e: Entry, div: PriceDiv): (d: Bytes)
    requires b.Valid()
    ensures d != [] <==> Applies(b, e)
  {
    if !Applies(b, e) then []
    else
      var side := SideOf(e).value;
      SideDelta(b.Get(side), SideBits(side) + LevelOf(e), e, div)
  }

  /** The two top bits of the first byte of a delta, from the action and whether the price changes. */
  function ActionBits(action: char, samePrice: bool): nat {
    if action == '0' then 0x00 else if action == '2' then 0x40 else if samePrice then 0xc0 else 0x80
  }

  function SideNumber(side: Side): nat {
    match side
    case OrderBuy => 0
    case OrderSell => 1
    case DerivedBuy => 2
    case DerivedSell => 3
  }

  /** The first byte of a delta: action, side and level in the places the format has for them. */
  lemma DeltaStarts(b: Book, e: Entry, div: PriceDiv, side: Side, lv: nat)
    requires b.Valid() && IsFor(e, side, lv) && e.action in {'0', '1', '2', '5'}
    ensures Delta(b, e, div) != []
    ensures |b.Get(side)| == DepthOf(side)
    ensures Delta(b, e, div)[0]
         == ActionBits(e.action, Says(e, div, b.Get(side)[lv].(qty := e.qty))) + 0x10 * SideNumber(side) + lv
  {
    ForOneLevel(e, side, lv);
    SaysOne(e, div, b.Get(side)[lv].(qty := e.qty));
  }

  function Deltas(b: Book, es: seq<Entry>, div: PriceDiv): Bytes
    requires b.Valid()
  {
    if es == [] then [] else Deltas(b, es[..|es| - 1], div) + Delta(ApplyAll(b, es[..|es| - 1], div), es[|es| - 1], div)
  }

  /** How many entries took effect. */
  function Count(b: Book, es: seq<Entry>, div: PriceDiv): nat {
    if es == [] then 0
    else Count(b, es[..|es| - 1], div) + if Applies(ApplyAll(b, es[..|es| - 1], div), es[|es| - 1]) then 1 else 0
  }

  /** A count kept in a byte. */
  function Uint8(n: nat): (b: Byte)
    ensures n < 256 ==> b == n
  {
    if n < 256 then n else Uint8(n - 256)
  }

  function Increment(b: Byte): Byte { if b == 255 then 0 else b + 1 }

  lemma {:induction false} CountsOn(n: nat)
    ensures Uint8(n + 1) == Increment(Uint8(n))
  {
    if n >= 256 { CountsOn(n - 256); }
  }

  /** Count byte and deltas, or nothing when no entry took effect. The entries are counted in a byte. */
  function Packet(b: Book, es: seq<Entry>, div: PriceDiv): Option<Bytes>
    requires b.Valid()
  {
    var count := Uint8(Count(b, es, div));
    if count == 0 then None else Some([count - 1] + Deltas(b, es, div))
  }

  // ---- Sizes ----

  const SIZEOF_PRI_QTY := 16
  const SCRATCH := SIZEOF_PRI_QTY + 8

  lemma DeltaFits(b: Book, e: Entry, div: PriceDiv)
    requires b.Valid()
    ensures |Delta(b, e, div)| <= SIZEOF_PRI_QTY + 4
    ensures |EncodeQty(e.qty)| + 10 <= SCRATCH
  {
    PriceInRange(e, div);
    QtyInRange(e);
    QtyLength(e.qty);
    TypeInWide(INT64, PriceOf(e, div));
    DecDecodes(PriceOf(e, div), PRI_SCALE, []);
  }

  lemma QtyLength(q: int)
    requires UINT64.Has(q)
    ensures |EncodeQty(q)| <= 9
  {
    TypeInWide(UINT64, q);
    if q != 0 {
      TaggedNumber(q, []);
    }
  }

  /** The deltas of a packet fit the node that is allocated for them, whatever the book. (DeltaFits says
      of the scratch buffer that it has the ten bytes a price may ask for left behind any quantity.) */
  lemma {:induction false} DeltasFit(b: Book, es: seq<Entry>, div: PriceDiv)
    requires b.Valid()
    ensures |Deltas(b, es, div)| <= |es| * (SIZEOF_PRI_QTY + 5)
  {
    if es != [] {
      DeltasFit(b, es[..|es| - 1], div);
      DeltasGrow(b, es, div);
      assert |es[..|es| - 1]| == |es| - 1;
    }
  }

  lemma DeltasGrow(b: Book, es: seq<Entry>, div: PriceDiv)
    requires b.Valid() && es != []
    ensures |Deltas(b, es, div)| <= |Deltas(b, es[..|es| - 1], div)| + SIZEOF_PRI_QTY + 4
  {
    DeltaFits(ApplyAll(b, es[..|es| - 1], div), es[|es| - 1], div);
  }
}
