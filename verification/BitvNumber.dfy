/**
 The number formats of Bitv: tagged integers, and decimals whose two-byte head lends its low two
 bits to the number. Bit masks of the source are written as division and remainder: `b & 0xf8` is
 b - b % 8, `b & 7` is b % 8, `b >> 3` is b / 8, and `type | n` is type + n.
*/
module BitvNumber {
  import opened Wrappers
  import opened Bytes

  const BYTE_ARRAY: Byte := 0x80
  const CONTAINER: Byte := 0x88
  const INTEGER_POS: Byte := 0x90
  const INTEGER_NEG: Byte := 0xa0
  const DECIMAL: Byte := 0xb0

  const NUMBER_0: Byte := 0xf0
  const CHAR_0: Byte := 0xf1
  const BOOL_FALSE: Byte := 0xf2
  const BYTE_ARRAY_EMPTY: Byte := 0xf8
  const NUMBER_NULL: Byte := 0xf9
  const CONTAINER_EMPTY: Byte := 0xfa
  const BOOL_TRUE: Byte := 0xfb

  datatype Error = NeedsMore | TypeNotMatch | Overflow | SignedError | OutOfRange | RangeError

  /** What a decoder hands back, and the bytes it leaves in the buffer. */
  datatype Out<+T> = Out(res: Result<T, Error>, rest: Bytes)

  // ---- Integers ----

  function EncodeTagged(v: nat, tag: Byte): (r: Bytes)
    requires |BigEndian(v)| <= 8 && tag % 8 == 0
    ensures |r| == 1 + |BigEndian(v)|
  {
    [tag + |BigEndian(v)| - 1] + BigEndian(v)
  }

  lemma FitsEight(v: int)
    requires 0 <= v <= UINT64.Max()
    ensures |BigEndian(v)| <= 8
  {
    BigEndianLength(v, 8);
  }

  lemma FitsWidth(t: IntType, v: int)
    requires t.Valid() && t.Has(v)
    ensures v >= 0 ==> |BigEndian(v)| <= t.width
    ensures v < 0 ==> |BigEndian(-v - 1)| <= t.width
  {
    ModulusEven(t);
    if v >= 0 {
      BigEndianLength(v, t.width);
    } else {
      BigEndianLength(-v - 1, t.width);
    }
  }

  /** IntToBitv: zero by its own tag, a negative number by its complement. */
  function EncodeInt(v: int): (r: Bytes)
    requires INT64.Min() <= v <= UINT64.Max()
  {
    Pow256Values();
    if v == 0 then [NUMBER_0]
    else if v > 0 then FitsEight(v); EncodeTagged(v, INTEGER_POS)
    else FitsEight(-v - 1); EncodeTagged(-v - 1, INTEGER_NEG)
  }

  /** BitvToIntAux<T, BitvT_Pos, BitvV_0, BitvV_Null>. */
  function DecodeIntAux(t: IntType, pos: Byte, zero: Byte, nil: Byte, buf: Bytes, nullValue: int): Out<int>
    requires t.Valid()
  {
    if buf == [] then Out(Err(NeedsMore), buf)
    else
      var tag := buf[0] - buf[0] % 8;
      if tag == pos || tag == INTEGER_NEG then
        var n := buf[0] % 8 + 1;
        if tag != pos && !t.signed then Out(Err(SignedError), buf)
        else if n > t.width then Out(Err(Overflow), buf)
        else if |buf| < n + 1 then Out(Err(NeedsMore), buf)
        else
          var v := t.Wrap(FromBigEndian(buf[1..n + 1]));
          Out(Ok(if tag == INTEGER_NEG then t.Wrap(-v - 1) else v), buf[n + 1..])
      else if buf[0] == zero then Out(Ok(0), buf[1..])
      else if buf[0] == nil then Out(Ok(nullValue), buf[1..])
      else Out(Err(TypeNotMatch), buf)
  }

  function DecodeInt(t: IntType, buf: Bytes, nullValue: int): Out<int>
    requires t.Valid()
  {
    DecodeIntAux(t, INTEGER_POS, NUMBER_0, NUMBER_NULL, buf, nullValue)
  }

  lemma SliceOfAppend(h: Bytes, b: Bytes, r: Bytes)
    ensures (h + b + r)[|h|..|b| + |h|] == b && (h + b + r)[|b| + |h|..] == r
  {
  }

  /** A tag and its length share a byte. */
  lemma TagParts(tag: nat, n: nat)
    requires tag % 8 == 0 && 1 <= n <= 8
    ensures (tag + n - 1) % 8 + 1 == n && (tag + n - 1) - (tag + n - 1) % 8 == tag
  {
    var q := tag / 8;
    assert tag + n - 1 == 8 * q + (n - 1);
  }

  /** What BitvToIntAux makes of a tagged number u of n bytes; `buf` stays when it refuses them. */
  function IntOf(t: IntType, pos: Byte, tag: Byte, n: nat, u: nat, buf: Bytes, rest: Bytes): Out<int>
    requires t.Valid()
  {
    if tag != pos && !t.signed then Out(Err(SignedError), buf)
    else if n > t.width then Out(Err(Overflow), buf)
    else Out(Ok(if tag == INTEGER_NEG then t.Wrap(-t.Wrap(u) - 1) else t.Wrap(u)), rest)
  }

  /** The branch of BitvToIntAux that a number tag selects, on a buffer that holds the whole number. */
  lemma TakesNumber(t: IntType, pos: Byte, zero: Byte, nil: Byte, buf: Bytes, nullValue: int,
                    tag: Byte, n: nat, u: nat, rest: Bytes)
    requires t.Valid() && buf != [] && buf[0] - buf[0] % 8 == tag && buf[0] % 8 + 1 == n
    requires |buf| > n && FromBigEndian(buf[1..n + 1]) == u && buf[n + 1..] == rest
    requires tag == pos || tag == INTEGER_NEG
    ensures DecodeIntAux(t, pos, zero, nil, buf, nullValue) == IntOf(t, pos, tag, n, u, buf, rest)
  {
  }

  /** A tag byte, the bytes of a number and anything behind them, taken apart again. */
  lemma TaggedParts(buf: Bytes, tag: Byte, body: Bytes, rest: Bytes)
    requires tag in [INTEGER_POS, INTEGER_NEG, CONTAINER] && 1 <= |body| <= 8
    requires buf == [tag + |body| - 1] + body + rest
    ensures buf != [] && buf[0] - buf[0] % 8 == tag && buf[0] % 8 + 1 == |body|
    ensures |buf| > |body| && buf[1..|body| + 1] == body && buf[|body| + 1..] == rest
  {
    NumberTags(tag);
    TagParts(tag, |body|);
    SliceOfAppend([tag + |body| - 1], body, rest);
  }

  lemma NumberTags(tag: Byte)
    requires tag in [INTEGER_POS, INTEGER_NEG, CONTAINER]
    ensures tag % 8 == 0
  {
    assert INTEGER_POS % 8 == 0 && INTEGER_NEG % 8 == 0 && CONTAINER % 8 == 0;
  }

  /** A tagged number in front of anything is taken whole, or refused whole. */
  lemma DecodeTaggedBody(t: IntType, pos: Byte, zero: Byte, nil: Byte, buf: Bytes, nullValue: int,
                         tag: Byte, body: Bytes, rest: Bytes)
    requires t.Valid() && 1 <= |body| <= 8 && buf == [tag + |body| - 1] + body + rest
    requires pos == INTEGER_POS || pos == CONTAINER
    requires tag == pos || tag == INTEGER_NEG
    ensures DecodeIntAux(t, pos, zero, nil, buf, nullValue)
            == IntOf(t, pos, tag, |body|, FromBigEndian(body), buf, rest)
  {
    TaggedParts(buf, tag, body, rest);
    TakesNumber(t, pos, zero, nil, buf, nullValue, tag, |body|, FromBigEndian(body), rest);
  }

  lemma DecodeTagged(t: IntType, pos: Byte, zero: Byte, nil: Byte, tag: Byte, u: nat, rest: Bytes, nullValue: int)
    requires t.Valid() && |BigEndian(u)| <= 8
    requires pos == INTEGER_POS || pos == CONTAINER
    requires tag == pos || tag == INTEGER_NEG
    ensures var buf := EncodeTagged(u, tag) + rest;
            DecodeIntAux(t, pos, zero, nil, buf, nullValue) == IntOf(t, pos, tag, |BigEndian(u)|, u, buf, rest)
  {
    BigEndianRoundTrip(u);
    DecodeTaggedBody(t, pos, zero, nil, EncodeTagged(u, tag) + rest, nullValue, tag, BigEndian(u), rest);
  }

  lemma WrapIsIdentity(t: IntType, u: nat)
    requires t.Valid() && u < t.Modulus()
    ensures t.Wrap(u) == u <==> t.Has(u)
    ensures t.signed ==> (t.Wrap(-t.Wrap(u) - 1) == -1 - u <==> t.Has(-1 - u))
  {
    ModulusEven(t);
    WrapInRange(t, u);
    WrapInRange(t, -t.Wrap(u) - 1);
  }

  /** Decoding what IntToBitv wrote gives the number back exactly when the type of the reader has it:
      the writer's own type or any other. */
  lemma IntRoundTrip(t: IntType, v: int, rest: Bytes, nullValue: int)
    requires t.Valid() && INT64.Min() <= v <= UINT64.Max()
    ensures DecodeInt(t, EncodeInt(v) + rest, nullValue) == Out(Ok(v), rest) <==> t.Has(v)
  {
    Pow256Values();
    ModulusEven(t);
    if v == 0 {
      assert ([NUMBER_0] + rest)[1..] == rest;
    } else {
      var u := if v > 0 then v else -v - 1;
      FitsEight(u);
      BigEndianLength(u, t.width);
      DecodeTagged(t, INTEGER_POS, NUMBER_0, NUMBER_NULL, if v > 0 then INTEGER_POS else INTEGER_NEG, u, rest, nullValue);
      if u < t.Modulus() {
        WrapIsIdentity(t, u);
      }
    }
  }

  // ---- Decimals ----

  function Pow10(n: nat): (p: nat)
    ensures p > 0
  {
    if n == 0 then 1 else 10 * Pow10(n - 1)
  }

  lemma {:induction false} Pow10Add(m: nat, n: nat)
    ensures Pow10(m + n) == Pow10(m) * Pow10(n)
  {
    if m > 0 {
      Pow10Add(m - 1, n);
    }
  }

  predicate FitsHead(v: int) { 0 <= v <= 0x3ff }

  /** BitvAdjustScale: drop trailing zeros, two at a time, until the value fits the head and one byte. */
  function Strip(v: int, scale: nat): (int, nat)
    decreases scale
  {
    if scale == 0 || FitsHead(v) then (v, scale)
    else if scale >= 2 && v % 100 == 0 then Strip(v / 100, scale - 2)
    else if v % 10 == 0 then (v / 10, scale - 1)
    else (v, scale)
  }

  /** Stripping keeps the number, and goes on until it cannot or need not. */
  lemma {:induction false} StripKeepsNumber(v: int, scale: nat)
    ensures var (v', s') := Strip(v, scale);
            && s' <= scale
            && v' * Pow10(scale - s') == v
            && (v' == 0 <==> v == 0) && (v' < 0 <==> v < 0)
            && (s' == 0 || 0 <= v' < 1024 || v' % 10 != 0) && (s' < scale ==> v' < 0 || 100 * v' >= 1024)
            && (if v >= 0 then v' <= v else v' >= v)
    decreases scale
  {
    if scale == 0 || FitsHead(v) {
      assert Pow10(0) == 1;
    } else if scale >= 2 && v % 100 == 0 {
      Hundreds(v);
      StripKeepsNumber(v / 100, scale - 2);
      var (v', s') := Strip(v / 100, scale - 2);
      assert Pow10(scale - s') == 10 * (10 * Pow10(scale - 2 - s'));
      MulBy100(v', Pow10(scale - 2 - s'));
    } else {
      Tens(v);
      assert Pow10(0) == 1 && Pow10(1) == 10;
    }
  }

  lemma Hundreds(v: int)
    requires v % 100 == 0
    ensures v == 100 * (v / 100) && (v / 100 == 0 <==> v == 0) && (v / 100 < 0 <==> v < 0)
    ensures if v >= 0 then v / 100 <= v else v / 100 >= v
  {
  }

  lemma Tens(v: int)
    ensures v % 10 == 0 ==> v == 10 * (v / 10) && (v / 10 == 0 <==> v == 0) && (v / 10 < 0 <==> v < 0)
    ensures v % 10 == 0 ==> if v >= 0 then v / 10 <= v else v / 10 >= v
    ensures v % 10 == 0 && v % 100 != 0 ==> v / 10 % 10 != 0
    ensures v == 0 ==> v % 10 == 0
  {
  }

  lemma MulBy100(v: int, p: nat)
    ensures v * (10 * (10 * p)) == 100 * (v * p)
  {
  }

  /** The three-argument DecToBitv: sign and scale share a byte with the two top bits of the number
      when those are free, and take a byte of their own otherwise. */
  function EncodeDecBytes(v: nat, scale: nat, neg: bool): (r: Bytes)
    requires |BigEndian(v)| <= 8
  {
    var head := (scale * 8) % 256 + (if neg then 4 else 0);
    var be := BigEndian(v);
    if |be| > 1 && be[0] < 4 then [DECIMAL + |be| - 2, head + be[0]] + be[1..]
    else [DECIMAL + |be| - 1, head] + be
  }

  /** DecToBitv of a signed or unsigned 64-bit value. */
  function EncodeDec(v: int, scale: nat): (r: Bytes)
    requires INT64.Min() <= v <= UINT64.Max()
  {
    StripKeepsNumber(v, scale);
    Pow256Values();
    var (v', s') := Strip(v, scale);
    if v == 0 then [NUMBER_0]
    else if s' == 0 then EncodeInt(v')
    else if v' < 0 then FitsEight(-v' - 1); EncodeDecBytes(-v' - 1, s', true)
    else FitsEight(v'); EncodeDecBytes(v', s', false)
  }

  datatype NumType = Zero | Pos | Neg | Null

  /** fon9_BitvNumR: for Neg the number is the 64-bit signed reading of num. */
  datatype NumR = NumR(kind: NumType, scale: nat, num: int) {
    function Number(): int { if kind == Neg then INT64.Wrap(num) else num }
  }

  /** BitvToNumber. */
  function DecodeNumber(buf: Bytes): Out<NumR> {
    if buf == [] then Out(Err(NeedsMore), buf)
    else
      var tag := buf[0] - buf[0] % 8;
      var n := buf[0] % 8 + 1;
      if tag == INTEGER_POS || tag == INTEGER_NEG then
        if |buf| < n + 1 then Out(Err(NeedsMore), buf)
        else
          var v := UINT64.Wrap(FromBigEndian(buf[1..n + 1]));
          Out(Ok(if tag == INTEGER_POS then NumR(Pos, 0, v) else NumR(Neg, 0, UINT64.Max() - v)), buf[n + 1..])
      else if tag == DECIMAL then
        if |buf| < n + 2 then Out(Err(NeedsMore), buf)
        else
          var v := UINT64.Wrap(FromBigEndian([buf[1] % 4] + buf[2..n + 2]));
          var kind := if buf[1] / 4 % 2 == 1 then Neg else Pos;
          Out(Ok(NumR(kind, buf[1] / 8, if kind == Neg then UINT64.Max() - v else v)), buf[n + 2..])
      else if buf[0] == NUMBER_0 then Out(Ok(NumR(Zero, 0, 0)), buf[1..])
      else if buf[0] == NUMBER_NULL then Out(Ok(NumR(Null, 0, 0)), buf[1..])
      else Out(Err(TypeNotMatch), buf)
  }

  lemma ComplementNumber(v: int)
    requires 0 <= v < Pow256(8) / 2
    ensures NumR(Neg, 0, UINT64.Max() - v).Number() == -v - 1
  {
    Pow256Values();
  }

  lemma DecodeDecimal(n: nat, head: Byte, body: Bytes, rest: Bytes)
    requires 1 <= n <= 8 && |body| == n
    ensures var v := UINT64.Wrap(FromBigEndian([head % 4] + body));
            var kind := if head / 4 % 2 == 1 then Neg else Pos;
            DecodeNumber([DECIMAL + n - 1, head] + body + rest) ==
            Out(Ok(NumR(kind, head / 8, if kind == Neg then UINT64.Max() - v else v)), rest)
  {
    DecimalParts([DECIMAL + n - 1, head] + body + rest, head, body, rest);
    ReadsDecimal([DECIMAL + n - 1, head] + body + rest, head, body, rest);
  }

  lemma DecimalParts(buf: Bytes, head: Byte, body: Bytes, rest: Bytes)
    requires 1 <= |body| <= 8 && buf == [DECIMAL + |body| - 1, head] + body + rest
    ensures |buf| >= |body| + 2 && buf[0] - buf[0] % 8 == DECIMAL && buf[0] % 8 + 1 == |body| && buf[1] == head
    ensures buf[2..|body| + 2] == body && buf[|body| + 2..] == rest
  {
    TagParts(DECIMAL, |body|);
    SliceOfAppend([DECIMAL + |body| - 1, head], body, rest);
  }

  lemma ReadsDecimal(buf: Bytes, head: Byte, body: Bytes, rest: Bytes)
    requires |buf| >= |body| + 2 && buf[0] - buf[0] % 8 == DECIMAL && buf[0] % 8 + 1 == |body| && buf[1] == head
    requires buf[2..|body| + 2] == body && buf[|body| + 2..] == rest
    ensures var v := UINT64.Wrap(FromBigEndian([head % 4] + body));
            var kind := if head / 4 % 2 == 1 then Neg else Pos;
            DecodeNumber(buf) == Out(Ok(NumR(kind, head / 8, if kind == Neg then UINT64.Max() - v else v)), rest)
  {
  }

  /** What DecToBitv puts between the tag and the rest: head byte and body spell the number, with the
      two lent bits in front. */
  lemma DecBytesShape(v: nat, scale: nat, neg: bool) returns (head: Byte, body: Bytes)
    requires v <= UINT64.Max()
    ensures |BigEndian(v)| <= 8 && 1 <= |body| <= 8
    ensures EncodeDecBytes(v, scale, neg) == [DECIMAL + |body| - 1, head] + body
    ensures head / 8 == scale % 32 && (head / 4 % 2 == 1 <==> neg)
    ensures FromBigEndian([head % 4] + body) == v
  {
    FitsEight(v);
    BigEndianRoundTrip(v);
    var be := BigEndian(v);
    if |be| > 1 && be[0] < 4 {
      HeadByte(scale, neg, be[0]);
      head, body := (scale * 8) % 256 + (if neg then 4 else 0) + be[0], be[1..];
      assert [head % 4] + body == be;
    } else {
      HeadByte(scale, neg, 0);
      head, body := (scale * 8) % 256 + (if neg then 4 else 0), be;
      FromBigEndianHead(0, be);
      assert [DECIMAL + |be| - 1, head] + be == EncodeDecBytes(v, scale, neg);
    }
  }

  lemma DecBytesRoundTrip(v: nat, scale: nat, neg: bool, rest: Bytes)
    requires v <= UINT64.Max() && (neg ==> v <= INT64.Max())
    ensures |BigEndian(v)| <= 8
    ensures var out := DecodeNumber(EncodeDecBytes(v, scale, neg) + rest);
            && out.rest == rest && out.res.Ok?
            && out.res.value.kind == (if neg then Neg else Pos)
            && out.res.value.scale == scale % 32
            && out.res.value.Number() == (if neg then -1 - v else v)
    ensures |EncodeDecBytes(v, scale, neg)| <= 10
  {
    var head, body := DecBytesShape(v, scale, neg);
    DecodeDecimal(|body|, head, body, rest);
    WrapInRange(UINT64, v);
    Pow256Values();
    if neg {
      ComplementNumber(v);
    }
  }

  lemma HeadByte(scale: nat, neg: bool, low: nat)
    requires low < 4
    ensures var h := (scale * 8) % 256 + (if neg then 4 else 0) + low;
            h < 256 && h / 8 == scale % 32 && (h / 4 % 2 == 1 <==> neg) && h % 4 == low
  {
    var q, r := scale / 32, scale % 32;
    assert scale * 8 == q * 256 + r * 8;
    ModUnique(scale * 8, 256, q, r * 8);
  }

  /** The bytes of the stripped number n, which is not 0, with s decimals. */
  ghost predicate IsStrippedForm(n: int, s: nat, bytes: Bytes)
    requires INT64.Min() <= n <= UINT64.Max() && n != 0
  {
    if s == 0 then bytes == EncodeInt(n)
    else if n < 0 then FitsEight(-n - 1); bytes == EncodeDecBytes(-n - 1, s, true)
    else FitsEight(n); bytes == EncodeDecBytes(n, s, false)
  }

  lemma StrippedBytes(v: int, scale: nat, n: int, s: nat) returns (bytes: Bytes)
    requires INT64.Min() <= v <= UINT64.Max() && v != 0 && (n, s) == Strip(v, scale)
    ensures INT64.Min() <= n <= UINT64.Max() && n != 0
    ensures bytes == EncodeDec(v, scale) && IsStrippedForm(n, s, bytes)
  {
    StripKeepsNumber(v, scale);
    bytes := EncodeDec(v, scale);
  }

  lemma StrippedDecodes(n: int, s: nat, bytes: Bytes, rest: Bytes)
    requires INT64.Min() <= n <= UINT64.Max() && n != 0 && IsStrippedForm(n, s, bytes)
    ensures var out := DecodeNumber(bytes + rest);
            && out.rest == rest && out.res.Ok? && out.res.value.kind == (if n < 0 then Neg else Pos)
            && out.res.value.Number() == n && out.res.value.scale == s % 32
    ensures |bytes| <= 10
  {
    if s == 0 {
      TaggedNumber(n, rest);
    } else if n < 0 {
      DecBytesRoundTrip(-n - 1, s, true, rest);
    } else {
      DecBytesRoundTrip(n, s, false, rest);
    }
  }

  /** Decoding what DecToBitv wrote takes exactly those bytes, at most ten, and finds the stripped
      value with the stripped scale modulo 32. */
  lemma DecDecodes(v: int, scale: nat, rest: Bytes)
    requires INT64.Min() <= v <= UINT64.Max()
    ensures var out := DecodeNumber(EncodeDec(v, scale) + rest);
            && out.rest == rest && out.res.Ok? && out.res.value.kind != Null
            && (out.res.value.kind == Zero <==> v == 0)
            && (out.res.value.kind == Neg <==> v < 0)
            && out.res.value.Number() == Strip(v, scale).0
            && (v != 0 ==> out.res.value.scale == Strip(v, scale).1 % 32)
    ensures |EncodeDec(v, scale)| <= 10
  {
    StripKeepsNumber(v, scale);
    if v == 0 {
      assert ([NUMBER_0] + rest)[1..] == rest;
    } else {
      var bytes := StrippedBytes(v, scale, Strip(v, scale).0, Strip(v, scale).1);
      StrippedDecodes(Strip(v, scale).0, Strip(v, scale).1, bytes, rest);
    }
  }

  /** The decoded number equals v with the given number of decimals. */
  predicate SameNumber(r: NumR, v: int, scale: nat) {
    v == 0 == r.Number() || (r.scale <= scale && r.Number() * Pow10(scale - r.scale) == v)
  }

  /** The number survives exactly when the stripped scale fits the five bits it is given. */
  lemma DecRoundTrip(v: int, scale: nat, rest: Bytes)
    requires INT64.Min() <= v <= UINT64.Max()
    ensures var out := DecodeNumber(EncodeDec(v, scale) + rest);
            && out.rest == rest && out.res.Ok?
            && (SameNumber(out.res.value, v, scale) <==> v == 0 || Strip(v, scale).1 < 32)
  {
    DecDecodes(v, scale, rest);
    StripKeepsNumber(v, scale);
    if v != 0 {
      SameNumberIff(DecodeNumber(EncodeDec(v, scale) + rest).res.value, Strip(v, scale).1, v, scale);
    }
  }

  lemma SameNumberIff(r: NumR, s': nat, v: int, scale: nat)
    requires v != 0 && r.scale == s' % 32 && s' <= scale && r.Number() * Pow10(scale - s') == v
    ensures SameNumber(r, v, scale) <==> s' < 32
  {
    if s' >= 32 {
      assert r.scale < 32 <= s';
      OtherScale(r.Number(), r.scale, s', scale);
    } else {
      assert r.scale == s';
    }
  }

  lemma OtherScale(v': int, s1: nat, s2: nat, scale: nat)
    requires v' != 0 && s1 < s2 <= scale
    ensures v' * Pow10(scale - s1) != v' * Pow10(scale - s2)
  {
    Pow10Add(s2 - s1, scale - s2);
    assert Pow10(s2 - s1) >= 10 by { assert Pow10(s2 - s1) == 10 * Pow10(s2 - s1 - 1); }
    BiggerProduct(Pow10(s2 - s1), Pow10(scale - s2));
    MulCancel(v', Pow10(s2 - s1) * Pow10(scale - s2), Pow10(scale - s2));
  }

  lemma BiggerProduct(p: nat, q: nat)
    requires p > 1 && q > 0
    ensures p * q > q
  {
  }

  lemma MulCancel(v: int, a: int, b: int)
    requires v != 0 && a != b
    ensures v * a != v * b
  {
    assert v * a - v * b == v * (a - b);
  }

  function NumberOf(tag: Byte, u: nat): NumR {
    var v := UINT64.Wrap(u);
    if tag == INTEGER_POS then NumR(Pos, 0, v) else NumR(Neg, 0, UINT64.Max() - v)
  }

  /** The branch of BitvToNumber that an integer tag selects. */
  lemma PicksInteger(buf: Bytes, tag: Byte, body: Bytes, rest: Bytes)
    requires buf != [] && buf[0] - buf[0] % 8 == tag && buf[0] % 8 + 1 == |body|
    requires |buf| > |body| && buf[1..|body| + 1] == body && buf[|body| + 1..] == rest
    requires tag == INTEGER_POS || tag == INTEGER_NEG
    ensures DecodeNumber(buf) == Out(Ok(NumberOf(tag, FromBigEndian(body))), rest)
  {
  }

  lemma ReadsInteger(buf: Bytes, tag: Byte, body: Bytes, rest: Bytes)
    requires tag in [INTEGER_POS, INTEGER_NEG] && 1 <= |body| <= 8 && buf == [tag + |body| - 1] + body + rest
    ensures DecodeNumber(buf) == Out(Ok(NumberOf(tag, FromBigEndian(body))), rest)
  {
    TaggedParts(buf, tag, body, rest);
    PicksInteger(buf, tag, body, rest);
  }

  /** A tagged integer read as a number, before its meaning is looked at. */
  lemma TaggedReads(u: nat, tag: Byte, rest: Bytes)
    requires |BigEndian(u)| <= 8 && tag in [INTEGER_POS, INTEGER_NEG]
    ensures DecodeNumber(EncodeTagged(u, tag) + rest) == Out(Ok(NumberOf(tag, u)), rest)
  {
    BigEndianRoundTrip(u);
    ReadsInteger(EncodeTagged(u, tag) + rest, tag, BigEndian(u), rest);
  }

  lemma WrapsNot(u: nat)
    requires u < Pow256(8)
    ensures UINT64.Wrap(u) == u
  {
    Pow256Values();
    WrapInRange(UINT64, u);
  }

  lemma TaggedNumber(v: int, rest: Bytes)
    requires INT64.Min() <= v <= UINT64.Max() && v != 0
    ensures var out := DecodeNumber(EncodeInt(v) + rest);
            && out.rest == rest && out.res.Ok?
            && out.res.value.kind == (if v < 0 then Neg else Pos)
            && out.res.value.scale == 0 && out.res.value.Number() == v
    ensures |EncodeInt(v)| <= 9
  {
    Pow256Values();
    if v > 0 {
      FitsEight(v);
      TaggedReads(v, INTEGER_POS, rest);
      WrapsNot(v);
    } else {
      FitsEight(-v - 1);
      TaggedReads(-v - 1, INTEGER_NEG, rest);
      WrapsNot(-v - 1);
      ComplementNumber(-v - 1);
    }
  }
}
