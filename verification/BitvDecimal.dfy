/**
 Fixed-point Decimal values in Bitv: rescaling on the way in, and the two forms of BitvFixedInt.hpp
 that do not strip trailing zeros.
*/
module BitvDecimal {
  import opened Wrappers
  import opened Bytes
  import opened BitvNumber

  const DEC_SCALE_MAX := 18

  /** The value of the integer type that stands for "no number". */
  function OrigNull(t: IntType): int {
    if t.signed then t.Min() else t.Max()
  }

  /** RoundByDivisor: half away from zero. */
  function Round(num: int, divisor: nat): int
    requires divisor > 0
    decreases num < 0
  {
    if num < 0 then -Round(-num, divisor)
    else num / divisor + (if num % divisor >= divisor / 2 then 1 else 0)
  }

  /** AdjustDecScale with the default policy, which ignores overflow. `src` is a 64-bit value. */
  function AdjustDecScale(wide: IntType, src: int, srcScale: nat, scale: nat): Result<int, Error>
    requires wide.Valid()
  {
    if scale == srcScale then Ok(src)
    else if scale < srcScale then
      if srcScale - scale > DEC_SCALE_MAX then Err(RangeError)
      else Ok(Round(src, Pow10(srcScale - scale)))
    else
      if scale - srcScale > DEC_SCALE_MAX then Err(RangeError)
      else Ok(wide.Wrap(src * Pow10(scale - srcScale)))
  }

  /** The value BitvToDec stores for a number other than Null and zero. */
  function Stored(t2: IntType, r: NumR, scale2: nat): Result<int, Error>
    requires t2.Valid()
  {
    if r.kind == Neg && !t2.signed then Err(SignedError)
    else
      match AdjustDecScale(if r.kind == Neg then INT64 else UINT64, r.Number(), r.scale, scale2)
      case Err(e) => Err(e)
      case Ok(v) => Ok(t2.Wrap(v))
  }

  /** BitvToDec into Decimal<t, scale>. */
  function DecodeDec(t: IntType, scale: nat, buf: Bytes): Out<int>
    requires t.Valid()
  {
    var out := DecodeNumber(buf);
    match out.res
    case Err(e) => Out(Err(e), out.rest)
    case Ok(r) =>
      if r.kind == Null then Out(Ok(OrigNull(t)), out.rest)
      else if r.kind == Zero then Out(Ok(0), out.rest)
      else Out(Stored(t, r, scale), out.rest)
  }

  /** ToBitv of a Decimal<t, scale> whose integer is v. */
  function EncodeDecimal(t: IntType, scale: nat, v: int): Bytes
    requires t.Valid() && t.Has(v)
  {
    TypeInWide(t, v);
    if v == OrigNull(t) then [NUMBER_NULL] else EncodeDec(v, scale)
  }

  /** Null is the lowest value of a signed type and the highest of an unsigned one, so it is never 0. */
  lemma NullIsExtreme(t: IntType)
    requires t.Valid()
    ensures t.Has(OrigNull(t)) && OrigNull(t) != 0
    ensures if t.signed then forall v | t.Has(v) :: OrigNull(t) <= v else forall v | t.Has(v) :: v <= OrigNull(t)
  {
    ModulusEven(t);
  }

  lemma TypeInWide(t: IntType, v: int)
    requires t.Valid() && t.Has(v)
    ensures INT64.Min() <= v <= UINT64.Max()
    ensures t.signed ==> v <= INT64.Max()
  {
    Pow256Values();
  }

  /** The integer nearest to num / divisor, where of two equally near ones it is the one farther from zero. */
  predicate Nearest(w: int, num: int, divisor: nat) {
    var e := w * divisor - num;
    && 0 - divisor <= 2 * e <= divisor
    && (2 * e == divisor ==> num > 0)
    && (2 * e == 0 - divisor ==> num < 0)
  }

  /** Rounding to fewer decimals gives the nearest value. */
  lemma RoundIsNearest(num: int, divisor: nat)
    requires divisor > 0 && divisor % 2 == 0
    ensures Nearest(Round(num, divisor), num, divisor)
    decreases num < 0
  {
    if num < 0 {
      RoundIsNearest(-num, divisor);
      assert Round(num, divisor) * divisor == -(Round(-num, divisor) * divisor);
    } else {
      var q, r := num / divisor, num % divisor;
      DivMod(num, divisor);
      assert (q + 1) * divisor == q * divisor + divisor;
    }
  }

  lemma NearestNotAbove(w: int, w': int, num: int, divisor: nat)
    requires divisor > 0 && Nearest(w, num, divisor) && Nearest(w', num, divisor)
    ensures w <= w'
  {
    assert (w - w') * divisor == w * divisor - w' * divisor;
    if w > w' { AtLeast(w - w', divisor); }
  }

  /** There is only one such integer. */
  lemma NearestIsOne(w: int, w': int, num: int, divisor: nat)
    requires divisor > 0 && Nearest(w, num, divisor) && Nearest(w', num, divisor)
    ensures w == w'
  {
    NearestNotAbove(w, w', num, divisor);
    NearestNotAbove(w', w, num, divisor);
  }

  lemma AtLeast(d: nat, divisor: nat)
    requires d > 0
    ensures d * divisor >= divisor && (d * divisor == divisor && divisor > 0 ==> d == 1)
  {
    assert d * divisor == (d - 1) * divisor + divisor;
    assert (d - 1) * divisor >= 0;
  }

  /** The integer that stands, with scale2 decimals, for what is left of v after stripping. */
  function Rescaled(v: int, scale: nat, scale2: nat): int
    requires Strip(v, scale).1 <= scale2
  {
    Strip(v, scale).0 * Pow10(scale2 - Strip(v, scale).1)
  }

  lemma RescaledIsSameNumber(v: int, scale: nat, scale2: nat)
    requires Strip(v, scale).1 <= scale2
    ensures Rescaled(v, scale, scale2) * Pow10(scale) == v * Pow10(scale2)
  {
    StripKeepsNumber(v, scale);
    CrossScale(Strip(v, scale).0, Strip(v, scale).1, v, scale, scale2);
  }

  lemma DecimalDecodes(t: IntType, scale: nat, v: int, t2: IntType, scale2: nat, rest: Bytes) returns (r: NumR)
    requires t.Valid() && t.Has(v) && v != OrigNull(t) && t2.Valid() && Strip(v, scale).1 < 32
    ensures r.Number() == Strip(v, scale).0 && (r.kind == Neg <==> v < 0) && (v != 0 ==> r.scale == Strip(v, scale).1)
    ensures DecodeDec(t2, scale2, EncodeDecimal(t, scale, v) + rest) ==
            Out(if v == 0 then Ok(0) else Stored(t2, r, scale2), rest)
  {
    TypeInWide(t, v);
    DecDecodes(v, scale, rest);
    var buf := EncodeDec(v, scale) + rest;
    r := DecodeNumber(buf).res.value;
    DecodeFrom(t2, scale2, buf, r, rest);
    SmallMod(Strip(v, scale).1);
  }

  lemma DecodeFrom(t2: IntType, scale2: nat, buf: Bytes, r: NumR, rest: Bytes)
    requires t2.Valid() && DecodeNumber(buf) == Out(Ok(r), rest) && r.kind != Null
    ensures DecodeDec(t2, scale2, buf) == Out(if r.kind == Zero then Ok(0) else Stored(t2, r, scale2), rest)
  {
  }

  lemma SmallMod(n: nat)
    requires n < 32
    ensures n % 32 == n
  {
  }

  lemma StripZero(scale: nat)
    ensures Strip(0, scale) == (0, scale)
  {
  }

  /** A written Decimal is read back by any Decimal type that keeps all its stripped decimals, as the
      same number with the reader's decimals, exactly when the reader's integer type has that value. */
  lemma DecimalRescaled(t: IntType, scale: nat, v: int, t2: IntType, scale2: nat, rest: Bytes)
    requires t.Valid() && t.Has(v) && v != OrigNull(t) && t2.Valid()
    requires Strip(v, scale).1 <= scale2 <= DEC_SCALE_MAX
    ensures DecodeDec(t2, scale2, EncodeDecimal(t, scale, v) + rest) == Out(Ok(Rescaled(v, scale, scale2)), rest)
            <==> t2.Has(Rescaled(v, scale, scale2))
  {
    var r := DecimalDecodes(t, scale, v, t2, scale2, rest);
    if v == 0 {
      StripZero(scale);
      ModulusEven(t2);
    } else {
      TypeInWide(t, v);
      StripKeepsNumber(v, scale);
      ReadScaled(t2, r, scale2);
    }
  }

  lemma CrossScale(v': int, s': nat, v: int, scale: nat, scale2: nat)
    requires s' <= scale && s' <= scale2 && v' * Pow10(scale - s') == v
    ensures v' * Pow10(scale2 - s') * Pow10(scale) == v * Pow10(scale2)
  {
    Pow10Add(scale - s', s');
    Pow10Add(scale2 - s', s');
    Shuffle(v', Pow10(scale2 - s'), Pow10(scale - s'), Pow10(s'));
  }

  lemma Shuffle(v: int, a: int, b: int, c: int)
    ensures v * a * (b * c) == v * b * (a * c)
  {
    assert v * a * (b * c) == v * (a * (b * c));
    assert v * b * (a * c) == v * (b * (a * c));
    assert a * (b * c) == b * (a * c);
  }

  lemma ScaledSign(v: int, p: nat)
    requires p > 0
    ensures v < 0 ==> v * p <= v
    ensures v > 0 ==> v * p >= v
  {
    if v < 0 {
      assert v * p == v + v * (p - 1);
      assert v * (p - 1) <= 0;
    } else {
      assert v * p == v + v * (p - 1);
      assert v * (p - 1) >= 0;
    }
  }

  lemma ReadScaled(t2: IntType, r: NumR, scale2: nat)
    requires t2.Valid() && r.scale <= scale2 <= DEC_SCALE_MAX && INT64.Min() <= r.Number() <= UINT64.Max()
    requires r.kind == Neg <==> r.Number() < 0
    ensures var w := r.Number() * Pow10(scale2 - r.scale);
            Stored(t2, r, scale2) == Ok(w) <==> t2.Has(w)
  {
    var w := r.Number() * Pow10(scale2 - r.scale);
    var wide := if r.kind == Neg then INT64 else UINT64;
    ScaledSign(r.Number(), Pow10(scale2 - r.scale));
    var a := AdjustDecScale(wide, r.Number(), r.scale, scale2);
    WrapInRange(t2, a.value);
    ModulusEven(t2);
    if t2.Has(w) {
      TypeInWide(t2, w);
      WrapInRange(wide, w);
      assert Pow10(0) == 1;
      assert a.value == w;
    }
  }

  lemma ReadRounded(t2: IntType, r: NumR, n: int, k: nat, scale2: nat)
    requires t2.Valid() && r.Number() == n && r.scale == k && (r.kind == Neg <==> n < 0)
    requires scale2 < k <= scale2 + DEC_SCALE_MAX
    ensures var w := Round(n, Pow10(k - scale2));
            Stored(t2, r, scale2) == Ok(w) <==> t2.Has(w) && (n < 0 ==> t2.signed)
  {
    var w := Round(n, Pow10(k - scale2));
    WrapInRange(t2, w);
    ModulusEven(t2);
  }

  lemma Pow10Even(n: nat)
    requires n > 0
    ensures Pow10(n) >= 10 && Pow10(n) % 2 == 0
  {
    assert Pow10(n) == 10 * Pow10(n - 1);
  }

  lemma ErrorTimes(w: int, num: int, divisor: nat, c: nat)
    ensures w * (divisor * c) - num * c == (w * divisor - num) * c
    ensures 2 * ((w * divisor - num) * c) == (2 * (w * divisor - num)) * c
  {
    assert w * (divisor * c) == w * divisor * c;
  }

  lemma NearestTimes(w: int, num: int, divisor: nat, c: nat)
    requires divisor > 0 && c > 0 && Nearest(w, num, divisor)
    ensures Nearest(w, num * c, divisor * c)
  {
    var e, f := 2 * (w * divisor - num), 2 * (w * (divisor * c) - num * c);
    ErrorTimes(w, num, divisor, c);
    assert f == e * c;
    TimesBound(e, divisor, c);
    TimesBound(0 - divisor, e, c);
    assert (0 - divisor) * c == 0 - divisor * c;
    SignTimes(num, c);
  }

  lemma SignTimes(num: int, c: nat)
    requires c > 0
    ensures (num > 0 <==> num * c > 0) && (num < 0 <==> num * c < 0)
  {
    if num > 0 { AtLeast(num, c); }
    if num < 0 {
      AtLeast(-num, c);
      assert num * c == -((-num) * c);
    }
  }

  lemma TimesBound(a: int, b: int, c: nat)
    requires a <= b && c > 0
    ensures a * c <= b * c && (a * c == b * c ==> a == b)
  {
    var d := b - a;
    assert d * c == b * c - a * c;
    if d > 0 { AtLeast(d, c); }
  }

  lemma NearestAcross(w: int, num: int, p: nat, a: nat, b: nat)
    requires p > 0 && a > 0 && b > 0 && Nearest(w, num, p)
    ensures Nearest(w, num * a * b, a * (p * b))
  {
    NearestTimes(w, num, p, a * b);
    assert p * (a * b) == a * (p * b);
    assert num * (a * b) == num * a * b;
  }

  /** The stripped number rounded is, with scale2 decimals, the nearest value of the number written. */
  lemma RoundedIsNearest(v: int, scale: nat, scale2: nat)
    requires scale2 < Strip(v, scale).1
    ensures Nearest(Round(Strip(v, scale).0, Pow10(Strip(v, scale).1 - scale2)), v * Pow10(scale2), Pow10(scale))
  {
    var (v', s') := Strip(v, scale);
    StripKeepsNumber(v, scale);
    Pow10Even(s' - scale2);
    RoundIsNearest(v', Pow10(s' - scale2));
    Pow10Add(s' - scale2, scale2);
    Pow10Add(scale - s', s');
    NearestAcross(Round(v', Pow10(s' - scale2)), v', Pow10(s' - scale2), Pow10(scale - s'), Pow10(scale2));
  }

  lemma StripKeepsSign(v: int, scale: nat)
    ensures Strip(v, scale).0 < 0 <==> v < 0
  {
    StripKeepsNumber(v, scale);
  }

  lemma ReadsZero(t: IntType, scale: nat, t2: IntType, scale2: nat, rest: Bytes)
    requires t.Valid() && t.Has(0) && OrigNull(t) != 0 && t2.Valid() && scale < 32
    ensures DecodeDec(t2, scale2, EncodeDecimal(t, scale, 0) + rest) == Out(Ok(0), rest) && t2.Has(0)
  {
    StripZero(scale);
    ModulusEven(t2);
    var _ := DecimalDecodes(t, scale, 0, t2, scale2, rest);
  }

  lemma NonZeroDecodes(t: IntType, scale: nat, v: int, t2: IntType, scale2: nat, rest: Bytes) returns (r: NumR)
    requires t.Valid() && t.Has(v) && v != OrigNull(t) && v != 0 && t2.Valid() && Strip(v, scale).1 < 32
    ensures r.Number() == Strip(v, scale).0 && r.scale == Strip(v, scale).1
    ensures (r.kind == Neg <==> v < 0) && (r.kind == Neg <==> Strip(v, scale).0 < 0)
    ensures DecodeDec(t2, scale2, EncodeDecimal(t, scale, v) + rest) == Out(Stored(t2, r, scale2), rest)
  {
    StripKeepsSign(v, scale);
    r := DecimalDecodes(t, scale, v, t2, scale2, rest);
  }

  lemma RoundZero(d: nat)
    requires d > 1
    ensures Round(0, d) == 0
  {
  }

  lemma ReadsRoundedNonZero(t: IntType, scale: nat, v: int, n: int, k: nat, t2: IntType, scale2: nat, rest: Bytes)
    requires t.Valid() && t.Has(v) && v != OrigNull(t) && v != 0 && t2.Valid()
    requires Strip(v, scale) == (n, k) && scale2 < k < 32 && k - scale2 <= DEC_SCALE_MAX
    ensures var w := Round(n, Pow10(k - scale2));
            DecodeDec(t2, scale2, EncodeDecimal(t, scale, v) + rest) == Out(Ok(w), rest)
            <==> t2.Has(w) && (v < 0 ==> t2.signed)
  {
    var r := NonZeroDecodes(t, scale, v, t2, scale2, rest);
    ReadRounded(t2, r, n, k, scale2);
  }

  lemma ReadsRounded(t: IntType, scale: nat, v: int, t2: IntType, scale2: nat, rest: Bytes)
    requires t.Valid() && t.Has(v) && v != OrigNull(t) && t2.Valid()
    requires scale2 < Strip(v, scale).1 < 32 && Strip(v, scale).1 - scale2 <= DEC_SCALE_MAX
    ensures var w := Round(Strip(v, scale).0, Pow10(Strip(v, scale).1 - scale2));
            DecodeDec(t2, scale2, EncodeDecimal(t, scale, v) + rest) == Out(Ok(w), rest)
            <==> t2.Has(w) && (v < 0 ==> t2.signed)
  {
    if v == 0 {
      StripZero(scale);
      RoundZero(Pow10(scale - scale2));
      ReadsZero(t, scale, t2, scale2, rest);
    } else {
      ReadsRoundedNonZero(t, scale, v, Strip(v, scale).0, Strip(v, scale).1, t2, scale2, rest);
    }
  }

  lemma NearestIsRounded(v: int, scale: nat, scale2: nat, w: int)
    requires scale2 < Strip(v, scale).1 && Nearest(w, v * Pow10(scale2), Pow10(scale))
    ensures w == Round(Strip(v, scale).0, Pow10(Strip(v, scale).1 - scale2))
  {
    RoundedIsNearest(v, scale, scale2);
    NearestIsOne(w, Round(Strip(v, scale).0, Pow10(Strip(v, scale).1 - scale2)), v * Pow10(scale2), Pow10(scale));
  }

  /** A Decimal type that keeps fewer decimals reads the nearest value of the number that was written, where a
      half goes away from zero, exactly when its integer type has that value and it is not an unsigned one
      facing a negative number. */
  lemma DecimalRounded(t: IntType, scale: nat, v: int, t2: IntType, scale2: nat, rest: Bytes, w: int)
    requires t.Valid() && t.Has(v) && v != OrigNull(t) && t2.Valid()
    requires scale2 < Strip(v, scale).1 < 32 && Strip(v, scale).1 - scale2 <= DEC_SCALE_MAX
    requires Nearest(w, v * Pow10(scale2), Pow10(scale))
    ensures DecodeDec(t2, scale2, EncodeDecimal(t, scale, v) + rest) == Out(Ok(w), rest)
            <==> t2.Has(w) && (v < 0 ==> t2.signed)
  {
    NearestIsRounded(v, scale, scale2, w);
    ReadsRounded(t, scale, v, t2, scale2, rest);
  }

  lemma NearestExists(v: int, scale: nat, scale2: nat)
    requires scale2 < Strip(v, scale).1
    ensures exists w :: Nearest(w, v * Pow10(scale2), Pow10(scale))
  {
    RoundedIsNearest(v, scale, scale2);
  }

  /** A number whose scale is more than 18 away from the reader's is refused, unless it is 0; before that a
      negative one is by an unsigned reader. */
  lemma DecimalOutOfTable(t: IntType, scale: nat, v: int, t2: IntType, scale2: nat, rest: Bytes)
    requires t.Valid() && t.Has(v) && v != OrigNull(t) && v != 0 && t2.Valid() && Strip(v, scale).1 < 32
    requires Strip(v, scale).1 > scale2 + DEC_SCALE_MAX || scale2 > Strip(v, scale).1 + DEC_SCALE_MAX
    ensures DecodeDec(t2, scale2, EncodeDecimal(t, scale, v) + rest)
         == Out(Err(if v < 0 && !t2.signed then SignedError else RangeError), rest)
  {
    var r := DecimalDecodes(t, scale, v, t2, scale2, rest);
  }

  lemma RescaledToItself(v: int, scale: nat)
    ensures Strip(v, scale).1 <= scale && Rescaled(v, scale, scale) == v
  {
    StripKeepsNumber(v, scale);
  }

  /** A Decimal written and read with the same type comes back, Null included. */
  lemma DecimalRoundTrip(t: IntType, scale: nat, v: int, rest: Bytes)
    requires t.Valid() && t.Has(v) && scale <= DEC_SCALE_MAX
    ensures DecodeDec(t, scale, EncodeDecimal(t, scale, v) + rest) == Out(Ok(v), rest)
  {
    if v == OrigNull(t) {
      assert ([NUMBER_NULL] + rest)[1..] == rest;
    } else {
      RescaledToItself(v, scale);
      DecimalRescaled(t, scale, v, t, scale, rest);
    }
  }

  // ---- Fixed-length forms ----

  /** ToBitv of a BitvFixedUInt of n bytes. */
  function EncodeFixedUInt(n: nat, v: nat): Bytes
    requires 1 <= n <= 8
  {
    [INTEGER_POS + n - 1] + FixedBigEndian(v, n)
  }

  /** Any reader at least n bytes wide that has the value reads a fixed-length integer back. */
  lemma FixedUIntRoundTrip(n: nat, v: nat, t: IntType, rest: Bytes, nullValue: int)
    requires 1 <= n <= 8 && v < Pow256(n) && t.Valid() && n <= t.width
    ensures DecodeInt(t, EncodeFixedUInt(n, v) + rest, nullValue) == Out(Ok(v), rest) <==> t.Has(v)
  {
    FixedRoundTrip(v, n);
    DecodeTaggedBody(t, INTEGER_POS, NUMBER_0, NUMBER_NULL, EncodeFixedUInt(n, v) + rest, nullValue,
                     INTEGER_POS, FixedBigEndian(v, n), rest);
    WrapInRange(t, v);
  }

  /** The dynamic-length ToBitvFixedScale: the scale is kept, and a negative integer is handed on as its
      64-bit two's complement, not as its complement. */
  function EncodeFixedScaleDyn(t: IntType, scale: nat, v: int): Bytes
    requires t.Valid() && t.Has(v)
  {
    if v == 0 then [NUMBER_0]
    else if v == OrigNull(t) then [NUMBER_NULL]
    else
      Pow256Values();
      var u := UINT64.Wrap(v);
      WrapInRange(UINT64, v); FitsEight(u);
      EncodeDecBytes(u, scale, v < 0)
  }

  /** It is read back right exactly when the integer is not negative, or Null. */
  lemma FixedScaleDynIffNonNegative(t: IntType, scale: nat, v: int, rest: Bytes)
    requires t.Valid() && t.Has(v) && scale <= DEC_SCALE_MAX
    ensures DecodeDec(t, scale, EncodeFixedScaleDyn(t, scale, v) + rest) == Out(Ok(v), rest)
            <==> v >= 0 || v == OrigNull(t)
  {
    if v == 0 {
      assert ([NUMBER_0] + rest)[1..] == rest;
    } else if v == OrigNull(t) {
      assert ([NUMBER_NULL] + rest)[1..] == rest;
    } else if v > 0 {
      PositiveFixedScale(t, scale, v, rest);
    } else {
      NegativeFixedScale(t, scale, v, rest);
    }
  }

  lemma PositiveFixedScale(t: IntType, scale: nat, v: int, rest: Bytes)
    requires t.Valid() && t.Has(v) && v > 0 && v != OrigNull(t) && scale <= DEC_SCALE_MAX
    ensures DecodeDec(t, scale, EncodeFixedScaleDyn(t, scale, v) + rest) == Out(Ok(v), rest)
  {
    TypeInWide(t, v);
    WrapInRange(UINT64, v);
    DecBytesRoundTrip(v, scale, false, rest);
    PositiveStored(t, scale, DecodeNumber(EncodeDecBytes(v, scale, false) + rest).res.value, v);
  }

  lemma PositiveStored(t: IntType, scale: nat, r: NumR, v: int)
    requires t.Valid() && t.Has(v) && v > 0 && r.kind == Pos && r.scale == scale && r.Number() == v
    ensures Stored(t, r, scale) == Ok(v)
  {
    WrapInRange(t, v);
  }

  /** A negative integer v comes back as -1 - v. */
  lemma NegativeFixedScale(t: IntType, scale: nat, v: int, rest: Bytes)
    requires t.Valid() && t.Has(v) && v < 0 && v != OrigNull(t) && scale <= DEC_SCALE_MAX
    ensures DecodeDec(t, scale, EncodeFixedScaleDyn(t, scale, v) + rest) == Out(Ok(-1 - v), rest)
  {
    TypeInWide(t, v);
    NegativeReads(t, scale, v, rest);
    NegativeStored(t, scale, v);
  }

  lemma NegativeIsDecBytes(t: IntType, scale: nat, v: int)
    requires t.Valid() && t.Has(v) && v < 0 && v != OrigNull(t) && INT64.Min() <= v
    ensures var u := v + Pow256(8);
            && 0 <= u <= UINT64.Max() && |BigEndian(u)| <= 8 && UINT64.Wrap(u) == u
            && EncodeFixedScaleDyn(t, scale, v) == EncodeDecBytes(u, scale, true)
  {
    NegativeWraps(v);
    FitsEight(v + Pow256(8));
  }

  lemma NegativeReads(t: IntType, scale: nat, v: int, rest: Bytes)
    requires t.Valid() && t.Has(v) && v < 0 && v != OrigNull(t) && scale <= DEC_SCALE_MAX && INT64.Min() <= v
    ensures DecodeNumber(EncodeFixedScaleDyn(t, scale, v) + rest)
            == Out(Ok(NumR(Neg, scale, UINT64.Max() - (v + Pow256(8)))), rest)
  {
    NegativeIsDecBytes(t, scale, v);
    NegDecBytesRead(v + Pow256(8), scale, rest);
  }

  lemma NegDecBytesRead(u: nat, scale: nat, rest: Bytes)
    requires u <= UINT64.Max() && |BigEndian(u)| <= 8 && UINT64.Wrap(u) == u && scale < 32
    ensures DecodeNumber(EncodeDecBytes(u, scale, true) + rest) == Out(Ok(NumR(Neg, scale, UINT64.Max() - u)), rest)
  {
    var head, body := DecBytesShape(u, scale, true);
    DecodeDecimal(|body|, head, body, rest);
  }

  lemma NegativeWraps(v: int)
    requires INT64.Min() <= v < 0
    ensures UINT64.Wrap(v) == v + Pow256(8) <= UINT64.Max() && UINT64.Wrap(v + Pow256(8)) == v + Pow256(8)
  {
    Pow256Values();
    ModUnique(v, Pow256(8), -1, v + Pow256(8));
    WrapInRange(UINT64, v + Pow256(8));
  }

  lemma NegativeStored(t: IntType, scale: nat, v: int)
    requires t.Valid() && t.Has(v) && v < 0 && scale <= DEC_SCALE_MAX && INT64.Min() <= v
    ensures Stored(t, NumR(Neg, scale, UINT64.Max() - (v + Pow256(8))), scale) == Ok(-1 - v)
  {
    Pow256Values();
    WrapInRange(INT64, -1 - v);
    ModulusEven(t);
    WrapInRange(t, -1 - v);
  }

  function FixedLen(bits: nat): nat { 1 + (bits + 5) / 8 }

  function Abs(v: int): nat { if v < 0 then -v else v }

  /** ToBitvFixedScale for a given number of bits: |v| in a fixed number of bytes, the scale in the
      top five bits of the first, and 0x40 put over them when v is negative. */
  function EncodeFixedScale(bits: nat, scale: nat, v: int): Bytes
    requires 2 <= bits <= 64 && scale < 32 && Abs(v) < 4 * Pow256(FixedLen(bits) - 1)
  {
    var n := FixedLen(bits);
    var be := FixedBigEndian(Abs(v), n);
    FixedHead(Abs(v), n);
    var top := if v < 0 && scale / 8 % 2 == 0 then scale + 8 else scale;
    [if n == 1 then 0xff else DECIMAL + n - 2, be[0] + 8 * top] + be[1..]
  }

  lemma FixedHead(v: nat, n: nat)
    requires n > 0 && v < 4 * Pow256(n - 1)
    ensures FixedBigEndian(v, n)[0] < 4
  {
    PowMonotone(n - 1, n);
    FixedRoundTrip(v, n);
    var be := FixedBigEndian(v, n);
    assert be == [be[0]] + be[1..];
    FromBigEndianHead(be[0], be[1..]);
    MulMonotone(4, be[0], Pow256(n - 1));
  }

  lemma MulMonotone(a: nat, b: nat, p: nat)
    ensures a <= b ==> a * p <= b * p
  {
  }

  lemma HeadParts(low: nat, top: nat)
    requires low < 4 && top < 32
    ensures var h := low + 8 * top; h / 8 == top && h / 4 % 2 == 0 && h % 4 == low
  {
  }

  /** With 3 bits or more the reader finds |v|, and eight more decimals than v has when it is negative
      and its scale leaves that bit free. */
  lemma FixedScaleDecodes(bits: nat, scale: nat, v: int, rest: Bytes)
    requires 3 <= bits <= 64 && scale < 32 && Abs(v) < 4 * Pow256(FixedLen(bits) - 1) && Abs(v) <= UINT64.Max()
    ensures var top := if v < 0 && scale / 8 % 2 == 0 then scale + 8 else scale;
            DecodeNumber(EncodeFixedScale(bits, scale, v) + rest) == Out(Ok(NumR(Pos, top, Abs(v))), rest)
  {
    var n := FixedLen(bits);
    var top := if v < 0 && scale / 8 % 2 == 0 then scale + 8 else scale;
    FixedLenRange(bits);
    TopRange(scale);
    FixedHead(Abs(v), n);
    FixedReads(Abs(v), n);
    FixedScaleReads(n, FixedBigEndian(Abs(v), n), top, rest);
    WrapInRange(UINT64, Abs(v));
  }

  lemma FixedLenRange(bits: nat)
    requires 3 <= bits <= 64
    ensures 2 <= FixedLen(bits) <= 9
  {
  }

  lemma TopRange(scale: nat)
    requires scale < 32
    ensures scale / 8 % 2 == 0 ==> scale + 8 < 32
  {
  }

  lemma FixedReads(v: nat, n: nat)
    requires n > 0 && v < 4 * Pow256(n - 1)
    ensures FromBigEndian(FixedBigEndian(v, n)) == v
  {
    assert Pow256(n) == 256 * Pow256(n - 1);
    FixedRoundTrip(v, n);
  }

  lemma FixedScaleReads(n: nat, be: Bytes, top: nat, rest: Bytes)
    requires 2 <= n <= 9 && |be| == n && be[0] < 4 && top < 32
    ensures DecodeNumber([DECIMAL + n - 2, be[0] + 8 * top] + be[1..] + rest)
            == Out(Ok(NumR(Pos, top, UINT64.Wrap(FromBigEndian(be)))), rest)
  {
    HeadParts(be[0], top);
    DecodeDecimal(n - 1, be[0] + 8 * top, be[1..], rest);
    ConsTail(be);
  }

  /** It is read back right exactly when at least 3 bits are asked for (2 bits leave no byte for the
      length) and the value is not negative. */
  lemma FixedScaleIffNonNegative(bits: nat, scale: nat, v: int, rest: Bytes)
    requires 2 <= bits <= 64 && scale < 32 && Abs(v) < 4 * Pow256(FixedLen(bits) - 1) && Abs(v) <= UINT64.Max()
    ensures DecodeNumber(EncodeFixedScale(bits, scale, v) + rest) == Out(Ok(NumR(Pos, scale, v)), rest)
            <==> bits >= 3 && v >= 0
  {
    if bits >= 3 {
      FixedScaleDecodes(bits, scale, v, rest);
    } else {
      assert EncodeFixedScale(bits, scale, v)[0] == 0xff;
    }
  }
}
