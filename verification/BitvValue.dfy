/**
 Bitv of whole values: the overloads of ToBitv and BitvTo for every kind of field, nested to any
 depth. A schema is the C++ type that selects the overload.
*/
module BitvValue {
  import opened Wrappers
  import opened Bytes
  import opened BitvNumber
  import opened BitvDecimal
  import opened BitvBytes

  datatype Schema =
    | Bool
    | Char
    | Int(t: CInt)
    | Dec(d: CInt, scale: nat)
    | DynBytes                              // std::string, ByteVector, fon9_Blob
    | FixedBytes(n: nat)                    // byte[n]
    | CharArray(n: nat)                     // char[n]
    | Pair(first: Schema, second: Schema)   // std::pair
    | FixedArray(count: nat, elem: Schema)  // T[count], no count is stored
    | Container(elem: Schema)               // std::vector, std::map, ...
    | Record(fields: seq<Schema>)           // the argument list of an archive

  datatype Value = VBool(b: bool) | VByte(c: Byte) | VInt(v: int) | VBytes(bs: Bytes) | VSeq(vs: seq<Value>)

  predicate WellTyped(s: Schema, v: Value)
    decreases v, 1
  {
    match s
    case Bool => v.VBool?
    case Char => v.VByte?
    case Int(t) => v.VInt? && t.Has(v.v)
    case Dec(t, scale) => v.VInt? && t.Has(v.v) && scale <= DEC_SCALE_MAX
    case DynBytes => v.VBytes? && |v.bs| <= MAX_BYTE_ARRAY
    case FixedBytes(n) => v.VBytes? && |v.bs| == n <= MAX_BYTE_ARRAY
    case CharArray(n) => v.VBytes? && |v.bs| == n <= MAX_BYTE_ARRAY && n > 0
    case Pair(s1, s2) => v.VSeq? && |v.vs| == 2 && WellTyped(s1, v.vs[0]) && WellTyped(s2, v.vs[1])
    case FixedArray(n, e) => v.VSeq? && |v.vs| == n && forall i | 0 <= i < n :: WellTyped(e, v.vs[i])
    case Container(e) => v.VSeq? && |v.vs| <= UINT64.Max() && forall i | 0 <= i < |v.vs| :: WellTyped(e, v.vs[i])
    case Record(fs) => v.VSeq? && FieldsTyped(fs, v.vs)
  }

  predicate FieldsTyped(fs: seq<Schema>, vs: seq<Value>)
    decreases vs, 0
  {
    |fs| == |vs| && forall i | 0 <= i < |vs| :: WellTyped(fs[i], vs[i])
  }

  // ---- Encoding ----

  function EncodeCount(n: nat): Bytes
    requires n <= UINT64.Max()
  {
    if n == 0 then [CONTAINER_EMPTY] else FitsEight(n); EncodeTagged(n, CONTAINER)
  }

  function Encode(s: Schema, v: Value): Bytes
    requires WellTyped(s, v)
    decreases v, 1
  {
    match s
    case Bool => EncodeBool(v.b)
    case Char => EncodeChar(v.c)
    case Int(t) => TypeInWide(t, v.v); EncodeInt(v.v)
    case Dec(t, scale) => EncodeDecimal(t, scale, v.v)
    case DynBytes => EncodeBytes(v.bs)
    case FixedBytes(_) => EncodeBytes(v.bs)
    case CharArray(n) => EncodeBytes(if v.bs[n - 1] == 0 then v.bs[..n - 1] else v.bs)
    case Pair(s1, s2) => Encode(s1, v.vs[0]) + Encode(s2, v.vs[1])
    case FixedArray(_, e) => EncodeAll(e, v.vs)
    case Container(e) => EncodeCount(|v.vs|) + EncodeAll(e, v.vs)
    case Record(fs) => EncodeFields(fs, v.vs)
  }

  /** The elements one after the other. */
  function EncodeAll(e: Schema, vs: seq<Value>): Bytes
    requires forall i | 0 <= i < |vs| :: WellTyped(e, vs[i])
    decreases vs, 0
  {
    if vs == [] then [] else Encode(e, vs[0]) + EncodeAll(e, vs[1..])
  }

  function EncodeFields(fs: seq<Schema>, vs: seq<Value>): Bytes
    requires FieldsTyped(fs, vs)
    decreases vs, 0
  {
    if fs == [] then [] else Encode(fs[0], vs[0]) + EncodeFields(fs[1..], vs[1..])
  }

  // ---- Decoding ----

  /** BitvToContainerElementCount. */
  function DecodeCount(buf: Bytes): (o: Out<int>)
    ensures o.res.Ok? ==> 0 <= o.res.value <= UINT64.Max()
  {
    Pow256Values();
    DecodeIntAux(UINT64, CONTAINER, CONTAINER_EMPTY, CONTAINER_EMPTY, buf, 0)
  }

  function AsInt(o: Out<int>): Out<Value> {
    match o case Out(Ok(v), rest) => Out(Ok(VInt(v)), rest) case Out(Err(e), rest) => Out(Err(e), rest)
  }

  function AsBytes(o: Out<Bytes>): Out<Value> {
    match o case Out(Ok(bs), rest) => Out(Ok(VBytes(bs)), rest) case Out(Err(e), rest) => Out(Err(e), rest)
  }

  function AsSeq(o: Out<seq<Value>>): Out<Value> {
    match o case Out(Ok(vs), rest) => Out(Ok(VSeq(vs)), rest) case Out(Err(e), rest) => Out(Err(e), rest)
  }

  /** The element x in front of the elements still to be read. */
  function Push(x: Value, o: Out<seq<Value>>): Out<seq<Value>> {
    match o case Out(Ok(vs), rest) => Out(Ok([x] + vs), rest) case Out(Err(e), rest) => Out(Err(e), rest)
  }

  /** BitvTo into a variable of the given type; a number tagged as Null reads as `0` here, where the
      source keeps what the variable held before. */
  function Decode(s: Schema, buf: Bytes): Out<Value>
    decreases s, 0, 0
  {
    match s
    case Bool =>
      (match DecodeBool(buf)
       case Out(Ok(b), rest) => Out(Ok(VBool(b)), rest)
       case Out(Err(e), rest) => Out(Err(e), rest))
    case Char =>
      (match DecodeChar(buf)
       case Out(Ok(c), rest) => Out(Ok(VByte(c)), rest)
       case Out(Err(e), rest) => Out(Err(e), rest))
    case Int(t) => AsInt(DecodeInt(t, buf, 0))
    case Dec(t, scale) => AsInt(DecodeDec(t, scale, buf))
    case DynBytes => AsBytes(DecodeBytes(buf))
    case FixedBytes(n) => AsBytes(DecodeFixedBytes(n, buf))
    case CharArray(n) => AsBytes(DecodeFixedBytes(n, buf))
    case Pair(s1, s2) =>
      var o1 := Decode(s1, buf);
      (match o1.res
       case Err(e) => Out(Err(e), o1.rest)
       case Ok(x) =>
         match Decode(s2, o1.rest)
         case Out(Ok(y), rest) => Out(Ok(VSeq([x, y])), rest)
         case Out(Err(e), rest) => Out(Err(e), rest))
    case FixedArray(n, e) => AsSeq(DecodeAll(e, n, buf))
    case Container(e) =>
      var c := DecodeCount(buf);
      (match c.res
       case Err(e) => Out(Err(e), c.rest)
       case Ok(n) => AsSeq(DecodeAll(e, n, c.rest)))
    case Record(fs) => AsSeq(DecodeFields(fs, buf))
  }

  function DecodeAll(e: Schema, n: nat, buf: Bytes): Out<seq<Value>>
    decreases e, 1, n
  {
    if n == 0 then Out(Ok([]), buf)
    else
      var o := Decode(e, buf);
      match o.res
      case Err(err) => Out(Err(err), o.rest)
      case Ok(x) => Push(x, DecodeAll(e, n - 1, o.rest))
  }

  function DecodeFields(fs: seq<Schema>, buf: Bytes): Out<seq<Value>>
    decreases fs, 1, 0
  {
    if fs == [] then Out(Ok([]), buf)
    else
      var o := Decode(fs[0], buf);
      match o.res
      case Err(err) => Out(Err(err), o.rest)
      case Ok(x) => Push(x, DecodeFields(fs[1..], o.rest))
  }

  // ---- Round trip ----

  /** Every value of the first type is read back unchanged by the second. */
  predicate Widens(s: Schema, w: Schema)
    decreases s
  {
    s == w ||
    match (s, w)
    case (Int(t), Int(u)) => u.Min() <= t.Min() && t.Max() <= u.Max()
    case (FixedBytes(n), DynBytes) => true
    case (FixedBytes(n), CharArray(m)) => n == m
    case (CharArray(n), FixedBytes(m)) => n == m
    case (Pair(s1, s2), Pair(w1, w2)) => Widens(s1, w1) && Widens(s2, w2)
    case (FixedArray(n, e), FixedArray(m, f)) => n == m && Widens(e, f)
    case (Container(e), Container(f)) => Widens(e, f)
    case (Record(fs), Record(gs)) => |fs| == |gs| && forall i | 0 <= i < |fs| :: Widens(fs[i], gs[i])
    case _ => false
  }

  lemma CountRoundTrip(n: nat, rest: Bytes)
    requires n <= UINT64.Max()
    ensures DecodeCount(EncodeCount(n) + rest) == Out(Ok(n), rest)
  {
    if n == 0 {
      assert ([CONTAINER_EMPTY] + rest)[1..] == rest;
    } else {
      FitsEight(n);
      DecodeTagged(UINT64, CONTAINER, CONTAINER_EMPTY, CONTAINER_EMPTY, CONTAINER, n, rest, 0);
      WrapInRange(UINT64, n);
    }
  }

  lemma CharArrayRoundTrip(bs: Bytes, n: nat, rest: Bytes)
    requires |bs| == n <= MAX_BYTE_ARRAY && n > 0
    ensures DecodeFixedBytes(n, EncodeBytes(if bs[n - 1] == 0 then bs[..n - 1] else bs) + rest) == Out(Ok(bs), rest)
  {
    if bs[n - 1] == 0 {
      FixedBytesRoundTrip(bs[..n - 1], n, rest);
      assert bs[..n - 1] + Zeros(1) == bs;
    } else {
      FixedBytesRoundTrip(bs, n, rest);
      assert bs + Zeros(0) == bs;
    }
  }

  predicate IsLeaf(s: Schema) {
    !(s.Pair? || s.FixedArray? || s.Container? || s.Record?)
  }

  lemma IntLeafRoundTrip(s: Schema, w: Schema, v: Value, rest: Bytes)
    requires s.Int? && WellTyped(s, v) && Widens(s, w)
    ensures Decode(w, Encode(s, v) + rest) == Out(Ok(v), rest)
  {
    TypeInWide(s.t, v.v);
    IntRoundTrip(w.t, v.v, rest, 0);
  }

  lemma DecLeafRoundTrip(s: Schema, w: Schema, v: Value, rest: Bytes)
    requires s.Dec? && WellTyped(s, v) && Widens(s, w)
    ensures Decode(w, Encode(s, v) + rest) == Out(Ok(v), rest)
  {
    match s case Dec(t, scale) => DecimalRoundTrip(t, scale, v.v, rest);
  }

  lemma FixedLeafRoundTrip(s: Schema, w: Schema, v: Value, rest: Bytes)
    requires s.FixedBytes? && WellTyped(s, v) && Widens(s, w)
    ensures Decode(w, Encode(s, v) + rest) == Out(Ok(v), rest)
  {
    BytesRoundTrip(v.bs, rest);
    FixedBytesRoundTrip(v.bs, s.n, rest);
    AppendNothing(v.bs);
  }

  lemma LeafRoundTrip(s: Schema, w: Schema, v: Value, rest: Bytes)
    requires IsLeaf(s) && WellTyped(s, v) && Widens(s, w)
    ensures Decode(w, Encode(s, v) + rest) == Out(Ok(v), rest)
  {
    match s
    case Bool => BoolRoundTrip(v.b, rest);
    case Char => CharRoundTrip(v.c, rest);
    case Int(_) => IntLeafRoundTrip(s, w, v, rest);
    case Dec(_, _) => DecLeafRoundTrip(s, w, v, rest);
    case DynBytes => BytesRoundTrip(v.bs, rest);
    case FixedBytes(_) => FixedLeafRoundTrip(s, w, v, rest);
    case CharArray(n) => CharArrayRoundTrip(v.bs, n, rest);
  }

  /** The compositional round trip: whatever follows, decoding an encoded value with its own type or a
      wider one gives the value and leaves exactly what follows. */
  lemma {:induction false} RoundTrip(s: Schema, w: Schema, v: Value, rest: Bytes)
    requires WellTyped(s, v) && Widens(s, w)
    ensures Decode(w, Encode(s, v) + rest) == Out(Ok(v), rest)
    decreases v, 1
  {
    if IsLeaf(s) {
      LeafRoundTrip(s, w, v, rest);
    } else {
      match s
      case Pair(s1, s2) =>
        AppendAssoc(Encode(s1, v.vs[0]), Encode(s2, v.vs[1]), rest);
        RoundTrip(s1, w.first, v.vs[0], Encode(s2, v.vs[1]) + rest);
        RoundTrip(s2, w.second, v.vs[1], rest);
        assert [v.vs[0], v.vs[1]] == v.vs;
      case FixedArray(_, e) => RoundTripAll(e, w.elem, v.vs, rest);
      case Container(e) =>
        AppendAssoc(EncodeCount(|v.vs|), EncodeAll(e, v.vs), rest);
        CountRoundTrip(|v.vs|, EncodeAll(e, v.vs) + rest);
        RoundTripAll(e, w.elem, v.vs, rest);
      case Record(fs) => RoundTripFields(fs, w.fields, v.vs, rest);
    }
  }

  lemma {:induction false} RoundTripAll(e: Schema, w: Schema, vs: seq<Value>, rest: Bytes)
    requires (forall i | 0 <= i < |vs| :: WellTyped(e, vs[i])) && Widens(e, w)
    ensures DecodeAll(w, |vs|, EncodeAll(e, vs) + rest) == Out(Ok(vs), rest)
    decreases vs, 0
  {
    if vs == [] {
      assert [] + rest == rest;
    } else {
      AppendAssoc(Encode(e, vs[0]), EncodeAll(e, vs[1..]), rest);
      RoundTrip(e, w, vs[0], EncodeAll(e, vs[1..]) + rest);
      RoundTripAll(e, w, vs[1..], rest);
      ConsTail(vs);
    }
  }

  lemma {:induction false} RoundTripFields(fs: seq<Schema>, ws: seq<Schema>, vs: seq<Value>, rest: Bytes)
    requires FieldsTyped(fs, vs) && |fs| == |ws| && forall i | 0 <= i < |fs| :: Widens(fs[i], ws[i])
    ensures DecodeFields(ws, EncodeFields(fs, vs) + rest) == Out(Ok(vs), rest)
    decreases vs, 0
  {
    if fs == [] {
      assert [] + rest == rest;
    } else {
      AppendAssoc(Encode(fs[0], vs[0]), EncodeFields(fs[1..], vs[1..]), rest);
      RoundTrip(fs[0], ws[0], vs[0], EncodeFields(fs[1..], vs[1..]) + rest);
      RoundTripFields(fs[1..], ws[1..], vs[1..], rest);
      ConsTail(vs);
    }
  }

  // ---- Truncation ----

  /** What every decoder says of a buffer that ends too soon. */
  predicate Starves<T>(o: Out<T>) {
    o.res == Err(NeedsMore)
  }

  lemma TaggedStarves(t: CInt, pos: Byte, zero: Byte, nil: Byte, tag: Byte, u: nat, k: nat)
    requires |BigEndian(u)| <= t.width
    requires pos == INTEGER_POS || pos == CONTAINER
    requires tag == pos || (tag == INTEGER_NEG && t.signed)
    requires k < |EncodeTagged(u, tag)|
    ensures Starves(DecodeIntAux(t, pos, zero, nil, EncodeTagged(u, tag)[..k], 0))
  {
    var n := |BigEndian(u)|;
    if k > 0 {
      assert EncodeTagged(u, tag)[..k][0] == tag + n - 1;
      assert (tag + n - 1) - (tag + n - 1) % 8 == tag && (tag + n - 1) % 8 + 1 == n;
    }
  }

  lemma IntStarves(t: CInt, v: int, k: nat)
    requires t.Has(v) && INT64.Min() <= v <= UINT64.Max() && k < |EncodeInt(v)|
    ensures Starves(DecodeInt(t, EncodeInt(v)[..k], 0))
  {
    FitsWidth(t, v);
    if v > 0 {
      TaggedStarves(t, INTEGER_POS, NUMBER_0, NUMBER_NULL, INTEGER_POS, v, k);
    } else if v < 0 {
      TaggedStarves(t, INTEGER_POS, NUMBER_0, NUMBER_NULL, INTEGER_NEG, -v - 1, k);
    }
  }

  lemma TagStarves(enc: Bytes, tag: Byte, n: nat, k: nat)
    requires 1 <= n <= 8 && 0 < k < |enc| && enc[0] == tag + n - 1
    requires ((tag == INTEGER_POS || tag == INTEGER_NEG) && |enc| == n + 1) || (tag == DECIMAL && |enc| == n + 2)
    ensures Starves(DecodeNumber(enc[..k]))
  {
    assert enc[..k][0] == enc[0];
    assert enc[0] - enc[0] % 8 == tag && enc[0] % 8 + 1 == n;
  }

  lemma NumberStarves(v: int, scale: nat, k: nat)
    requires INT64.Min() <= v <= UINT64.Max() && k < |EncodeDec(v, scale)|
    ensures Starves(DecodeNumber(EncodeDec(v, scale)[..k]))
  {
    StripKeepsNumber(v, scale);
    Pow256Values();
    var (v', s') := Strip(v, scale);
    if v != 0 && k > 0 {
      var u := if v' < 0 then -v' - 1 else v';
      FitsEight(u);
      if s' == 0 {
        TagStarves(EncodeDec(v, scale), if v' < 0 then INTEGER_NEG else INTEGER_POS, |BigEndian(u)|, k);
      } else {
        var head, body := DecBytesShape(u, s', v' < 0);
        TagStarves(EncodeDec(v, scale), DECIMAL, |body|, k);
      }
    }
  }

  lemma BytesStarve(bs: Bytes, n: nat, k: nat)
    requires |bs| <= MAX_BYTE_ARRAY && k < |EncodeBytes(bs)|
    ensures Starves(DecodeBytes(EncodeBytes(bs)[..k])) && Starves(DecodeFixedBytes(n, EncodeBytes(bs)[..k]))
  {
    PopSizeIncremental(bs, k);
  }

  lemma LeafStarves(s: Schema, v: Value, k: nat)
    requires IsLeaf(s) && WellTyped(s, v) && k < |Encode(s, v)|
    ensures Starves(Decode(s, Encode(s, v)[..k]))
  {
    match s
    case Bool =>
    case Char =>
    case Int(t) => TypeInWide(t, v.v); IntStarves(t, v.v, k);
    case Dec(t, scale) =>
      if v.v != OrigNull(t) {
        TypeInWide(t, v.v);
        NumberStarves(v.v, scale, k);
      }
    case DynBytes => BytesStarve(v.bs, 0, k);
    case FixedBytes(n) => BytesStarve(v.bs, n, k);
    case CharArray(n) => BytesStarve(if v.bs[n - 1] == 0 then v.bs[..n - 1] else v.bs, n, k);
  }

  /** Of two encodings in a row, a cut either starves the first, or leaves it whole and cuts the second. */
  lemma CutOfTwo(a: Bytes, b: Bytes, k: nat)
    requires k < |a + b|
    ensures k < |a| ==> (a + b)[..k] == a[..k]
    ensures k >= |a| ==> (a + b)[..k] == a + b[..k - |a|] && k - |a| < |b|
  {
  }

  /** No strict prefix of an encoding decodes to anything: the reader always asks for more. */
  lemma {:induction false} TruncationDetected(s: Schema, v: Value, k: nat)
    requires WellTyped(s, v) && k < |Encode(s, v)|
    ensures Starves(Decode(s, Encode(s, v)[..k]))
    decreases v, 1
  {
    if IsLeaf(s) {
      LeafStarves(s, v, k);
    } else {
      match s
      case Pair(s1, s2) =>
        var a, b := Encode(s1, v.vs[0]), Encode(s2, v.vs[1]);
        CutOfTwo(a, b, k);
        if k < |a| {
          TruncationDetected(s1, v.vs[0], k);
        } else {
          RoundTrip(s1, s1, v.vs[0], b[..k - |a|]);
          TruncationDetected(s2, v.vs[1], k - |a|);
        }
      case FixedArray(_, e) => AllTruncated(e, v.vs, k);
      case Container(e) =>
        var a, b := EncodeCount(|v.vs|), EncodeAll(e, v.vs);
        CutOfTwo(a, b, k);
        if k < |a| {
          CountStarves(|v.vs|, k);
        } else {
          CountRoundTrip(|v.vs|, b[..k - |a|]);
          AllTruncated(e, v.vs, k - |a|);
        }
      case Record(fs) => FieldsTruncated(fs, v.vs, k);
    }
  }

  lemma CountStarves(n: nat, k: nat)
    requires n <= UINT64.Max() && k < |EncodeCount(n)|
    ensures Starves(DecodeCount(EncodeCount(n)[..k]))
  {
    if n > 0 {
      FitsEight(n);
      TaggedStarves(UINT64, CONTAINER, CONTAINER_EMPTY, CONTAINER_EMPTY, CONTAINER, n, k);
    }
  }

  lemma {:induction false} AllTruncated(e: Schema, vs: seq<Value>, k: nat)
    requires (forall i | 0 <= i < |vs| :: WellTyped(e, vs[i])) && k < |EncodeAll(e, vs)|
    ensures Starves(DecodeAll(e, |vs|, EncodeAll(e, vs)[..k]))
    decreases vs, 0
  {
    var a, b := Encode(e, vs[0]), EncodeAll(e, vs[1..]);
    CutOfTwo(a, b, k);
    if k < |a| {
      TruncationDetected(e, vs[0], k);
      FirstStarves(e, |vs|, a[..k]);
    } else {
      RoundTrip(e, e, vs[0], b[..k - |a|]);
      AllTruncated(e, vs[1..], k - |a|);
      LaterStarves(e, |vs|, a + b[..k - |a|], vs[0], b[..k - |a|]);
    }
  }

  lemma FirstStarves(e: Schema, n: nat, buf: Bytes)
    requires n > 0 && Starves(Decode(e, buf))
    ensures Starves(DecodeAll(e, n, buf))
  {
  }

  lemma LaterStarves(e: Schema, n: nat, buf: Bytes, x: Value, rest: Bytes)
    requires n > 0 && Decode(e, buf) == Out(Ok(x), rest) && Starves(DecodeAll(e, n - 1, rest))
    ensures Starves(DecodeAll(e, n, buf))
  {
  }

  lemma {:induction false} FieldsTruncated(fs: seq<Schema>, vs: seq<Value>, k: nat)
    requires FieldsTyped(fs, vs) && k < |EncodeFields(fs, vs)|
    ensures Starves(DecodeFields(fs, EncodeFields(fs, vs)[..k]))
    decreases vs, 0
  {
    var a, b := Encode(fs[0], vs[0]), EncodeFields(fs[1..], vs[1..]);
    CutOfTwo(a, b, k);
    if k < |a| {
      TruncationDetected(fs[0], vs[0], k);
    } else {
      RoundTrip(fs[0], fs[0], vs[0], b[..k - |a|]);
      FieldsTruncated(fs[1..], vs[1..], k - |a|);
    }
  }
}
