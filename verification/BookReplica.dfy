/**
 The receiving side of the book: RcMdRtsDecoder replays a delta packet on its own copy. The copy is not
 byte for byte the sender's: where a delete vacates a level the sender writes zeros and the receiver a
 Null price, and that is what decides when the two stay together.
*/
module BookReplica {
  import opened Wrappers
  import opened Bytes
  import opened BitvNumber
  import opened BitvDecimal
  import opened Book

  // ---- Decoding ----

  const VACATED := PriQty(NULL_PRI, 0)

  function SideOfBits(t: Byte): Side {
    var x := t / 16 % 4;
    if x == 0 then OrderBuy else if x == 1 then OrderSell else if x == 2 then DerivedBuy else DerivedSell
  }

  /** InsertPQ: the levels from lv on move down by one and the last is lost. */
  function Opened(s: Levels, lv: nat): (r: Levels)
    requires lv < |s|
    ensures |r| == |s|
  {
    s[..lv + 1] + s[lv..|s| - 1]
  }

  /** DeletePQ: the levels behind lv move up by one, and the last becomes Null. */
  function Closed(s: Levels, lv: nat): (r: Levels)
    requires lv < |s|
    ensures |r| == |s|
  {
    s[..lv] + s[lv + 1..] + [VACATED]
  }

  function DecodePri(buf: Bytes): Out<int> { DecodeDec(INT64, PRI_SCALE, buf) }

  function DecodeQty(buf: Bytes): Out<int> { DecodeInt(UINT64, buf, 0) }

  function DecodePQ(buf: Bytes): Out<PriQty> {
    match DecodePri(buf)
    case Out(Err(e), rest) => Out(Err(e), rest)
    case Out(Ok(p), rest) =>
      match DecodeQty(rest)
      case Out(Err(e), rest') => Out(Err(e), rest')
      case Out(Ok(q), rest') => Out(Ok(PriQty(p, q)), rest')
  }

  /** One round of the loop of DecodeUpdateBS: the levels of the replica's side after one delta. */
  function ReplayOnSide(s: Levels, t: Byte, buf: Bytes): Out<Levels>
    requires t % 16 < |s|
  {
    var lv, action := t % 16, t - t % 64;
    if action == ACTION_DELETE then Out(Ok(Closed(s, lv)), buf)
    else if action == ACTION_CHANGE_QTY then
      match DecodeQty(buf)
      case Out(Err(e), rest) => Out(Err(e), rest)
      case Out(Ok(q), rest) => Out(Ok(s[lv := s[lv].(qty := q)]), rest)
    else
      var s' := if action == ACTION_NEW then Opened(s, lv) else s;
      match DecodePQ(buf)
      case Out(Err(e), rest) => Out(Err(e), rest)
      case Out(Ok(pq), rest) => Out(Ok(s'[lv := pq]), rest)
  }

  function ReplayOne(r: Book, buf: Bytes): (o: Out<Book>)
    requires r.Valid()
  {
    if buf == [] then Out(Err(NeedsMore), buf)
    else
      var side := SideOfBits(buf[0]);
      if buf[0] % 16 >= |r.Get(side)| then Out(Err(OutOfRange), buf[1..])
      else
        match ReplayOnSide(r.Get(side), buf[0], buf[1..])
        case Out(Err(e), rest) => Out(Err(e), rest)
        case Out(Ok(levels), rest) => Out(Ok(r.Set(side, levels)), rest)
  }

  lemma ReplayOneValid(r: Book, buf: Bytes)
    requires r.Valid() && ReplayOne(r, buf).res.Ok?
    ensures ReplayOne(r, buf).res.value.Valid()
  {
    var side := SideOfBits(buf[0]);
    ReplayKeepsDepth(r.Get(side), buf[0], buf[1..]);
  }

  lemma ReplayKeepsDepth(s: Levels, t: Byte, buf: Bytes)
    requires t % 16 < |s| && ReplayOnSide(s, t, buf).res.Ok?
    ensures |ReplayOnSide(s, t, buf).res.value| == |s|
  {
  }

  function Replay(r: Book, n: nat, buf: Bytes): (o: Out<Book>)
    requires r.Valid()
    decreases n
  {
    if n == 0 then Out(Ok(r), buf)
    else
      match ReplayOne(r, buf)
      case Out(Err(e), rest) => Out(Err(e), rest)
      case Out(Ok(r'), rest) => ReplayOneValid(r, buf); Replay(r', n - 1, rest)
  }

  /** DecodeUpdateBS, from the count byte on. */
  function ReplayPacket(r: Book, buf: Bytes): Out<Book>
    requires r.Valid()
  {
    if buf == [] then Out(Err(NeedsMore), buf) else Replay(r, buf[0] % 128 + 1, buf[1..])
  }

  // ---- How a replica stays with its book ----

  /** Same price and quantity, except that the replica may show Null where the book has nothing. The
      book itself never holds a Null price. */
  predicate SameLevel(b: PriQty, r: PriQty) {
    b.pri != NULL_PRI && (b == r || (b == ZERO && r == VACATED))
  }

  predicate SameLevels(s: Levels, t: Levels) {
    |s| == |t| && forall i | 0 <= i < |s| :: SameLevel(s[i], t[i])
  }

  predicate Mirrors(b: Book, r: Book) {
    && b.Valid() && r.Valid()
    && SameLevels(b.buys, r.buys) && SameLevels(b.sells, r.sells)
    && SameLevels(b.derivedBuy, r.derivedBuy) && SameLevels(b.derivedSell, r.derivedSell)
  }

  /** The replica's levels t after the delta of e, sent from levels s. */
  function FollowSide(s: Levels, t: Levels, e: Entry, div: PriceDiv): (r: Levels)
    requires ActionOf(e).Some? && LevelOf(e) < |s| == |t|
    ensures |r| == |t|
  {
    var lv, p := LevelOf(e), PriceOf(e, div);
    match ActionOf(e).value
    case Delete => Closed(t, lv)
    case New => Opened(t, lv)[lv := PriQty(p, e.qty)]
    case Change => if p == s[lv].pri then t[lv := t[lv].(qty := e.qty)] else t[lv := PriQty(p, e.qty)]
  }

  function Followed(b: Book, r: Book, e: Entry, div: PriceDiv): (r': Book)
    requires b.Valid() && r.Valid()
    ensures r'.Valid()
  {
    if !Applies(b, e) then r
    else
      var side := SideOf(e).value;
      r.Set(side, FollowSide(b.Get(side), r.Get(side), e, div))
  }

  function FollowedAll(b: Book, r: Book, es: seq<Entry>, div: PriceDiv): (r': Book)
    requires b.Valid() && r.Valid()
    ensures r'.Valid()
  {
    if es == [] then r
    else
      var front := es[..|es| - 1];
      Followed(ApplyAll(b, front, div), FollowedAll(b, r, front, div), es[|es| - 1], div)
  }

  // ---- The bytes replay to that ----

  lemma TypeByte(side: Side, lv: nat, action: Byte)
    requires lv < 16 && action in {ACTION_NEW, ACTION_DELETE, ACTION_CHANGE_PQ, ACTION_CHANGE_QTY}
    ensures var t := action + (SideBits(side) + lv);
            t < 256 && SideOfBits(t) == side && t % 16 == lv && t - t % 64 == action
  {
  }

  lemma PQRoundTrip(p: int, q: int, rest: Bytes)
    requires INT64.Has(p) && UINT64.Has(q)
    ensures DecodePQ(EncodePri(p) + EncodeQty(q) + rest) == Out(Ok(PriQty(p, q)), rest)
  {
    AppendAssoc(EncodePri(p), EncodeQty(q), rest);
    DecimalRoundTrip(INT64, PRI_SCALE, p, EncodeQty(q) + rest);
    QtyRoundTrip(q, rest);
  }

  lemma QtyRoundTrip(q: int, rest: Bytes)
    requires UINT64.Has(q)
    ensures DecodeQty(EncodeQty(q) + rest) == Out(Ok(q), rest)
  {
    TypeInWide(UINT64, q);
    IntRoundTrip(UINT64, q, rest, 0);
  }

  lemma NewReplays(s: Levels, t: Byte, p: int, q: int, rest: Bytes)
    requires INT64.Has(p) && UINT64.Has(q) && t % 16 < |s| && t - t % 64 in {ACTION_NEW, ACTION_CHANGE_PQ}
    ensures ReplayOnSide(s, t, EncodePri(p) + EncodeQty(q) + rest) ==
            Out(Ok((if t - t % 64 == ACTION_NEW then Opened(s, t % 16) else s)[t % 16 := PriQty(p, q)]), rest)
  {
    PQRoundTrip(p, q, rest);
  }

  lemma QtyReplays(s: Levels, t: Byte, q: int, rest: Bytes)
    requires UINT64.Has(q) && t % 16 < |s| && t - t % 64 == ACTION_CHANGE_QTY
    ensures ReplayOnSide(s, t, EncodeQty(q) + rest) == Out(Ok(s[t % 16 := s[t % 16].(qty := q)]), rest)
  {
    QtyRoundTrip(q, rest);
  }

  /** A delta whose body the side replays as it should is replayed as it should. */
  lemma ReplayFrom(b: Book, r: Book, e: Entry, div: PriceDiv, t: Byte, body: Bytes, rest: Bytes)
    requires b.Valid() && r.Valid() && Applies(b, e) && Delta(b, e, div) == [t] + body
    requires SideOfBits(t) == SideOf(e).value && t % 16 == LevelOf(e)
    requires var side := SideOf(e).value;
             ReplayOnSide(r.Get(side), t, body + rest) == Out(Ok(FollowSide(b.Get(side), r.Get(side), e, div)), rest)
    ensures ReplayOne(r, Delta(b, e, div) + rest) == Out(Ok(Followed(b, r, e, div)), rest)
  {
    AppendAssoc([t], body, rest);
  }

  lemma DeleteReplays(b: Book, r: Book, e: Entry, div: PriceDiv, rest: Bytes)
    requires b.Valid() && r.Valid() && Applies(b, e) && ActionOf(e) == Some(Delete)
    ensures ReplayOne(r, Delta(b, e, div) + rest) == Out(Ok(Followed(b, r, e, div)), rest)
  {
    var side, lv := SideOf(e).value, LevelOf(e);
    var t := ACTION_DELETE + SideBits(side) + lv;
    TypeByte(side, lv, ACTION_DELETE);
    assert [] + rest == rest && [t] + [] == [t];
    ReplayFrom(b, r, e, div, t, [], rest);
  }

  /** The delta of an entry that sends price and quantity. */
  lemma FullDelta(b: Book, e: Entry, div: PriceDiv, action: Byte)
    requires b.Valid() && Applies(b, e)
    requires if ActionOf(e).value == New then action == ACTION_NEW
             else action == ACTION_CHANGE_PQ && ActionOf(e).value == Change
                  && PriceOf(e, div) != b.Get(SideOf(e).value)[LevelOf(e)].pri
    ensures INT64.Has(PriceOf(e, div)) && PriceOf(e, div) != NULL_PRI && UINT64.Has(e.qty)
    ensures action + SideBits(SideOf(e).value) + LevelOf(e) < 256
    ensures Delta(b, e, div) == [action + SideBits(SideOf(e).value) + LevelOf(e)]
                                + (EncodePri(PriceOf(e, div)) + EncodeQty(e.qty))
  {
    PriceInRange(e, div);
    QtyInRange(e);
  }

  lemma FullReplays(b: Book, r: Book, e: Entry, div: PriceDiv, action: Byte, t: Byte, rest: Bytes)
    requires b.Valid() && r.Valid() && Applies(b, e)
    requires INT64.Has(PriceOf(e, div)) && UINT64.Has(e.qty)
    requires if ActionOf(e).value == New then action == ACTION_NEW
             else action == ACTION_CHANGE_PQ && ActionOf(e).value == Change
                  && PriceOf(e, div) != b.Get(SideOf(e).value)[LevelOf(e)].pri
    requires t % 16 == LevelOf(e) && t - t % 64 == action
    ensures var side := SideOf(e).value;
            ReplayOnSide(r.Get(side), t, EncodePri(PriceOf(e, div)) + EncodeQty(e.qty) + rest)
            == Out(Ok(FollowSide(b.Get(side), r.Get(side), e, div)), rest)
  {
    NewReplays(r.Get(SideOf(e).value), t, PriceOf(e, div), e.qty, rest);
  }

  lemma NewDeltaReplays(b: Book, r: Book, e: Entry, div: PriceDiv, rest: Bytes)
    requires b.Valid() && r.Valid() && Applies(b, e) && ActionOf(e) == Some(New)
    ensures ReplayOne(r, Delta(b, e, div) + rest) == Out(Ok(Followed(b, r, e, div)), rest)
  {
    var side, lv, p := SideOf(e).value, LevelOf(e), PriceOf(e, div);
    var t := ACTION_NEW + SideBits(side) + lv;
    FullDelta(b, e, div, ACTION_NEW);
    TypeByte(side, lv, ACTION_NEW);
    FullReplays(b, r, e, div, ACTION_NEW, t, rest);
    ReplayFrom(b, r, e, div, t, EncodePri(p) + EncodeQty(e.qty), rest);
  }

  lemma ChangeQtyReplays(b: Book, r: Book, e: Entry, div: PriceDiv, rest: Bytes)
    requires b.Valid() && r.Valid() && Applies(b, e) && ActionOf(e) == Some(Change)
    requires PriceOf(e, div) == b.Get(SideOf(e).value)[LevelOf(e)].pri
    ensures ReplayOne(r, Delta(b, e, div) + rest) == Out(Ok(Followed(b, r, e, div)), rest)
  {
    QtyInRange(e);
    var side, lv := SideOf(e).value, LevelOf(e);
    var t := ACTION_CHANGE_QTY + SideBits(side) + lv;
    TypeByte(side, lv, ACTION_CHANGE_QTY);
    QtyReplays(r.Get(side), t, e.qty, rest);
    ReplayFrom(b, r, e, div, t, EncodeQty(e.qty), rest);
  }

  lemma ChangePQReplays(b: Book, r: Book, e: Entry, div: PriceDiv, rest: Bytes)
    requires b.Valid() && r.Valid() && Applies(b, e) && ActionOf(e) == Some(Change)
    requires PriceOf(e, div) != b.Get(SideOf(e).value)[LevelOf(e)].pri
    ensures ReplayOne(r, Delta(b, e, div) + rest) == Out(Ok(Followed(b, r, e, div)), rest)
  {
    var side, lv, p := SideOf(e).value, LevelOf(e), PriceOf(e, div);
    var t := ACTION_CHANGE_PQ + SideBits(side) + lv;
    FullDelta(b, e, div, ACTION_CHANGE_PQ);
    TypeByte(side, lv, ACTION_CHANGE_PQ);
    FullReplays(b, r, e, div, ACTION_CHANGE_PQ, t, rest);
    ReplayFrom(b, r, e, div, t, EncodePri(p) + EncodeQty(e.qty), rest);
  }

  /** Replaying the delta of an entry takes exactly its bytes and does what FollowSide says. */
  lemma DeltaReplays(b: Book, r: Book, e: Entry, div: PriceDiv, rest: Bytes)
    requires b.Valid() && r.Valid() && Applies(b, e)
    ensures ReplayOne(r, Delta(b, e, div) + rest) == Out(Ok(Followed(b, r, e, div)), rest)
  {
    match ActionOf(e).value
    case Delete => DeleteReplays(b, r, e, div, rest);
    case New => NewDeltaReplays(b, r, e, div, rest);
    case Change =>
      if PriceOf(e, div) == b.Get(SideOf(e).value)[LevelOf(e)].pri {
        ChangeQtyReplays(b, r, e, div, rest);
      } else {
        ChangePQReplays(b, r, e, div, rest);
      }
  }

  /** One more round at the end. */
  function AfterReplay(o: Out<Book>): Out<Book>
    requires o.res.Ok? ==> o.res.value.Valid()
  {
    match o case Out(Ok(r), rest) => ReplayOne(r, rest) case Out(Err(e), rest) => o
  }

  lemma {:induction false} ReplayLast(r: Book, n: nat, buf: Bytes)
    requires r.Valid()
    ensures Replay(r, n, buf).res.Ok? ==> Replay(r, n, buf).res.value.Valid()
    ensures Replay(r, n + 1, buf) == AfterReplay(Replay(r, n, buf))
    decreases n
  {
    if ReplayOne(r, buf).res.Ok? {
      ReplayOneValid(r, buf);
      if n > 0 {
        ReplayLast(ReplayOne(r, buf).res.value, n - 1, ReplayOne(r, buf).rest);
      }
    }
  }

  lemma {:induction false} DeltasReplay(b: Book, r: Book, es: seq<Entry>, div: PriceDiv, rest: Bytes)
    requires b.Valid() && r.Valid()
    ensures Replay(r, Count(b, es, div), Deltas(b, es, div) + rest) == Out(Ok(FollowedAll(b, r, es, div)), rest)
    decreases |es|
  {
    if es == [] {
      assert [] + rest == rest;
    } else {
      var front, last := es[..|es| - 1], es[|es| - 1];
      var mid := ApplyAll(b, front, div);
      var delta := Delta(mid, last, div);
      AppendAssoc(Deltas(b, front, div), delta, rest);
      DeltasReplay(b, r, front, div, delta + rest);
      if Applies(mid, last) {
        ReplayLast(r, Count(b, front, div), Deltas(b, es, div) + rest);
        DeltaReplays(mid, FollowedAll(b, r, front, div), last, div, rest);
      } else {
        assert [] + rest == rest;
      }
    }
  }

  /** Every packet is replayed to its last byte, entry by entry, on any replica. */
  lemma PacketReplays(b: Book, r: Book, es: seq<Entry>, div: PriceDiv)
    requires b.Valid() && r.Valid() && Count(b, es, div) <= 0x80
    ensures match Packet(b, es, div)
            case Some(bytes) => ReplayPacket(r, bytes) == Out(Ok(FollowedAll(b, r, es, div)), [])
            case None => FollowedAll(b, r, es, div) == r && ApplyAll(b, es, div) == b
  {
    var n := Count(b, es, div);
    if n > 0 {
      DeltasReplay(b, r, es, div, []);
      CountedReplay(r, n, Deltas(b, es, div));
    } else {
      NothingApplies(b, r, es, div);
    }
  }

  /** The first k entries that take effect, and the bytes behind theirs. */
  lemma {:induction false} CutAt(b: Book, es: seq<Entry>, div: PriceDiv, k: nat) returns (j: nat, tail: Bytes)
    requires b.Valid() && k < Count(b, es, div)
    ensures j < |es| && Count(b, es[..j], div) == k
    ensures tail != [] && Deltas(b, es, div) == Deltas(b, es[..j], div) + tail
    decreases |es|
  {
    var front, last := es[..|es| - 1], es[|es| - 1];
    var delta := Delta(ApplyAll(b, front, div), last, div);
    if Count(b, front, div) == k {
      j, tail := |es| - 1, delta;
    } else {
      j, tail := CutAt(b, front, div, k);
      assert front[..j] == es[..j];
      AppendAssoc(Deltas(b, es[..j], div), tail, delta);
      tail := tail + delta;
    }
  }

  /** The count byte has seven bits to count with, so a packet is replayed to its last byte if and only if it
      has at most 128 entries, which the code only asserts. */
  lemma PacketReplaysIff(b: Book, r: Book, es: seq<Entry>, div: PriceDiv)
    requires b.Valid() && r.Valid() && 0 < Count(b, es, div) < 256
    ensures Packet(b, es, div).Some?
    ensures ReplayPacket(r, Packet(b, es, div).value) == Out(Ok(FollowedAll(b, r, es, div)), [])
            <==> Count(b, es, div) <= 0x80
  {
    var n := Count(b, es, div);
    if n <= 0x80 {
      PacketReplays(b, r, es, div);
    } else {
      var j, tail := CutAt(b, es, div, n - 0x80);
      DeltasReplay(b, r, es[..j], div, tail);
      ShortReplay(r, n, Deltas(b, es, div));
    }
  }

  lemma SevenBits(n: nat)
    requires 0x80 < n < 256
    ensures (n - 1) % 128 + 1 == n - 0x80
  {
  }

  lemma ShortReplay(r: Book, n: nat, bs: Bytes)
    requires r.Valid() && 0x80 < n < 256
    ensures ReplayPacket(r, [n - 1] + bs) == Replay(r, n - 0x80, bs)
  {
    SevenBits(n);
    assert ([n - 1] + bs)[1..] == bs;
  }

  lemma CountedReplay(r: Book, n: nat, bs: Bytes)
    requires r.Valid() && 0 < n <= 0x80
    ensures ReplayPacket(r, [n - 1] + bs) == Replay(r, n, bs + [])
  {
    CountByte(n, bs);
  }

  lemma CountByte(n: nat, bs: Bytes)
    requires 0 < n <= 0x80
    ensures var buf := [n - 1] + bs; buf[0] % 128 + 1 == n && buf[1..] == bs + []
  {
  }

  lemma {:induction false} NothingApplies(b: Book, r: Book, es: seq<Entry>, div: PriceDiv)
    requires b.Valid() && r.Valid() && Count(b, es, div) == 0
    ensures FollowedAll(b, r, es, div) == r && ApplyAll(b, es, div) == b
    decreases |es|
  {
    if es != [] {
      NothingApplies(b, r, es[..|es| - 1], div);
    }
  }

  // ---- When the replica stays with the book ----

  /** The one kind of entry a replica cannot follow: a change to price zero, with a quantity, of a level
      it holds as vacated. The book's price is zero already, so only the quantity is sent. */
  ghost predicate Misleads(r: Book, e: Entry) {
    && (e.action == '1' || e.action == '5') && e.price == 0 && e.qty != 0
    && exists side: Side, lv: nat :: IsFor(e, side, lv) && lv < |r.Get(side)| && r.Get(side)[lv] == VACATED
  }

  lemma MisleadsByParts(r: Book, e: Entry, div: PriceDiv)
    requires r.Valid()
    ensures Misleads(r, e) <==> Applies(r, e) && ActionOf(e).value == Change && PriceOf(e, div) == 0
                                && e.qty != 0 && r.Get(SideOf(e).value)[LevelOf(e)] == VACATED
  {
    ZeroPrice(e, div);
    if Applies(r, e) {
      var side, lv := SideOf(e).value, LevelOf(e);
      ForOneLevel(e, side, lv);
      forall side': Side, lv': nat | IsFor(e, side', lv')
        ensures side' == side && lv' == lv
      {
        ForOneLevel(e, side', lv');
      }
    } else {
      forall side: Side, lv: nat
        ensures !(IsFor(e, side, lv) && e.action in {'1', '5'})
      {
        ForOneLevel(e, side, lv);
      }
    }
  }

  lemma ZeroPrice(e: Entry, div: PriceDiv)
    ensures PriceOf(e, div) == 0 <==> e.price == 0
  {
    if e.price > 0 && div > 0 { ProductBound(1, 1, e.price, div); }
  }

  lemma MirrorSide(s: Levels, t: Levels, e: Entry, div: PriceDiv)
    requires SameLevels(s, t) && ActionOf(e).Some? && LevelOf(e) < |s|
    ensures SameLevels(ApplyToSide(s, e, div), FollowSide(s, t, e, div)) <==>
            !(ActionOf(e).value == Change && PriceOf(e, div) == 0 && e.qty != 0 && t[LevelOf(e)] == VACATED)
  {
    PriceInRange(e, div);
    NullIsNegative();
    var lv, p := LevelOf(e), PriceOf(e, div);
    match ActionOf(e).value
    case New => InsertMirrors(s, t, lv, PriQty(p, e.qty));
    case Delete => DeleteMirrors(s, t, lv);
    case Change =>
      var s', t' := ApplyToSide(s, e, div), FollowSide(s, t, e, div);
      assert SameLevel(s[lv], t[lv]);
      assert forall i | 0 <= i < |s| && i != lv :: s'[i] == s[i] && t'[i] == t[i];
      assert SameLevels(s', t') <==> SameLevel(s'[lv], t'[lv]);
  }

  lemma NullIsNegative()
    ensures NULL_PRI < 0
  {
    Pow256Values();
  }

  lemma InsertMirrors(s: Levels, t: Levels, lv: nat, pq: PriQty)
    requires SameLevels(s, t) && lv < |s| && pq.pri != NULL_PRI
    ensures SameLevels(InsertAt(s, lv, pq), Opened(t, lv)[lv := pq])
  {
    var s', t' := InsertAt(s, lv, pq), Opened(t, lv)[lv := pq];
    forall i | 0 <= i < |s| ensures SameLevel(s'[i], t'[i]) {
      if i < lv {
        assert s'[i] == s[i] && t'[i] == t[i];
      } else if i > lv {
        assert s'[i] == s[i - 1] && t'[i] == t[i - 1];
      }
    }
  }

  lemma DeleteMirrors(s: Levels, t: Levels, lv: nat)
    requires SameLevels(s, t) && lv < |s|
    ensures SameLevels(DeleteAt(s, lv), Closed(t, lv))
  {
    NullIsNegative();
    var s', t' := DeleteAt(s, lv), Closed(t, lv);
    forall i | 0 <= i < |s| ensures SameLevel(s'[i], t'[i]) {
      if i < lv {
        assert s'[i] == s[i] && t'[i] == t[i];
      } else if i + 1 < |s| {
        assert s'[i] == s[i + 1] && t'[i] == t[i + 1];
      }
    }
  }

  /** One entry: a replica that mirrored the book still does so exactly when the entry does not mislead it. */
  lemma MirrorStep(b: Book, r: Book, e: Entry, div: PriceDiv)
    requires Mirrors(b, r)
    ensures Mirrors(Apply(b, e, div), Followed(b, r, e, div)) <==> !Misleads(r, e)
  {
    if Applies(b, e) {
      var side := SideOf(e).value;
      MirrorSide(b.Get(side), r.Get(side), e, div);
    }
    MisleadsByParts(r, e, div);
  }

  /** A whole update: the replica mirrors the book after every entry exactly when no entry misleads it
      as it stands when the entry comes. */
  lemma {:induction false} MirrorsIffNotMisled(b: Book, r: Book, es: seq<Entry>, div: PriceDiv)
    requires Mirrors(b, r)
    ensures (forall k | 0 <= k <= |es| :: Mirrors(ApplyAll(b, es[..k], div), FollowedAll(b, r, es[..k], div))) <==>
            (forall k | 0 <= k < |es| :: !Misleads(FollowedAll(b, r, es[..k], div), es[k]))
  {
    var always := forall k | 0 <= k <= |es| :: Mirrors(ApplyAll(b, es[..k], div), FollowedAll(b, r, es[..k], div));
    var never := forall k | 0 <= k < |es| :: !Misleads(FollowedAll(b, r, es[..k], div), es[k]);
    if always {
      forall k | 0 <= k < |es| ensures !Misleads(FollowedAll(b, r, es[..k], div), es[k]) {
        PrefixStep(b, r, es, k, div);
        MirrorStep(ApplyAll(b, es[..k], div), FollowedAll(b, r, es[..k], div), es[k], div);
      }
    }
    if never {
      forall k | 0 <= k <= |es| ensures Mirrors(ApplyAll(b, es[..k], div), FollowedAll(b, r, es[..k], div)) {
        MirrorsUpTo(b, r, es, k, div);
      }
    }
  }

  lemma PrefixStep(b: Book, r: Book, es: seq<Entry>, k: nat, div: PriceDiv)
    requires b.Valid() && r.Valid() && k < |es|
    ensures ApplyAll(b, es[..k + 1], div) == Apply(ApplyAll(b, es[..k], div), es[k], div)
    ensures FollowedAll(b, r, es[..k + 1], div) ==
            Followed(ApplyAll(b, es[..k], div), FollowedAll(b, r, es[..k], div), es[k], div)
  {
    assert es[..k + 1][..k] == es[..k];
  }

  lemma {:induction false} MirrorsUpTo(b: Book, r: Book, es: seq<Entry>, k: nat, div: PriceDiv)
    requires Mirrors(b, r) && k <= |es|
    requires forall j | 0 <= j < |es| :: !Misleads(FollowedAll(b, r, es[..j], div), es[j])
    ensures Mirrors(ApplyAll(b, es[..k], div), FollowedAll(b, r, es[..k], div))
    decreases k
  {
    if k > 0 {
      MirrorsUpTo(b, r, es, k - 1, div);
      PrefixStep(b, r, es, k - 1, div);
      MirrorStep(ApplyAll(b, es[..k - 1], div), FollowedAll(b, r, es[..k - 1], div), es[k - 1], div);
    }
  }

  /** End to end, for any book, any replica that mirrors it and any update that never misleads it: the
      packet's bytes, replayed, leave a replica that mirrors the new book, with nothing left over. */
  lemma Replication(b: Book, r: Book, es: seq<Entry>, div: PriceDiv)
    requires Mirrors(b, r) && 0 < Count(b, es, div) <= 0x80
    requires forall k | 0 <= k < |es| :: !Misleads(FollowedAll(b, r, es[..k], div), es[k])
    ensures var o := ReplayPacket(r, Packet(b, es, div).value);
            o.res.Ok? && o.rest == [] && Mirrors(ApplyAll(b, es, div), o.res.value)
  {
    PacketReplays(b, r, es, div);
    MirrorsUpTo(b, r, es, |es|, div);
    assert es[..|es|] == es;
  }

  /** The misleading case is real: delete a derived price, then overlay it with price zero. */
  lemma OverlayAtZeroMisleads()
    ensures var b := Book([ZERO, ZERO, ZERO, ZERO, ZERO], [ZERO, ZERO, ZERO, ZERO, ZERO], [PriQty(100, 1)], [ZERO]);
            var es: seq<Entry> := [RawEntry('2', 'E', '0', 0, 0, 1), RawEntry('5', 'E', '0', 0, 7, 1)];
            && Mirrors(b, b)
            && ApplyAll(b, es, 0).derivedBuy == [PriQty(0, 7)]
            && FollowedAll(b, b, es, 0).derivedBuy == [PriQty(NULL_PRI, 7)]
  {
    Pow256Values();
    var b := Book([ZERO, ZERO, ZERO, ZERO, ZERO], [ZERO, ZERO, ZERO, ZERO, ZERO], [PriQty(100, 1)], [ZERO]);
    var e1: Entry := RawEntry('2', 'E', '0', 0, 0, 1);
    var e2: Entry := RawEntry('5', 'E', '0', 0, 7, 1);
    var es := [e1, e2];
    assert es[..0] == [] && es[..1] == [e1] && es[..2] == es;
    PrefixStep(b, b, es, 0, 0);
    PrefixStep(b, b, es, 1, 0);
    assert DeleteAt([PriQty(100, 1)], 0) == [ZERO];
    assert Closed([PriQty(100, 1)], 0) == [VACATED];
  }
}
