/**
 Archives: fields are saved last one first into a buffer that grows at its front, so a record reads
 first field first. Adding fields at the end of a record, or putting a version in front of it, keeps
 old data readable.
*/
module BitvArchive {
  import opened Wrappers
  import opened Bytes
  import opened BitvNumber
  import opened BitvDecimal
  import opened BitvBytes
  import opened BitvValue

  /** T{} of each type. */
  function Default(s: Schema): Value
    decreases s
  {
    match s
    case Bool => VBool(false)
    case Char => VByte(0)
    case Int(_) => VInt(0)
    case Dec(_, _) => VInt(0)
    case DynBytes => VBytes([])
    case FixedBytes(n) => VBytes(Zeros(n))
    case CharArray(n) => VBytes(Zeros(n))
    case Pair(s1, s2) => VSeq([Default(s1), Default(s2)])
    case FixedArray(n, e) => VSeq(seq(n, i => Default(e)))
    case Container(_) => VSeq([])
    case Record(fs) => VSeq(Defaults(fs))
  }

  /** The value a missing field is cleared to is false, zero, no bytes or no elements: what one byte stands for. */
  lemma DefaultIsNothing(s: Schema)
    requires s.Bool? || s.Char? || s.Int? || s.DynBytes? || s.Container? || (s.Dec? && s.scale <= DEC_SCALE_MAX)
    ensures WellTyped(s, Default(s))
    ensures Encode(s, Default(s)) == [match s
                                      case Bool => 0xf2
                                      case Char => 0xf1
                                      case Int(_) => 0xf0
                                      case Dec(_, _) => 0xf0
                                      case DynBytes => 0xf8
                                      case _ => 0xfa]
  {
    match s
    case Int(t) => ModulusEven(t);
    case Dec(t, scale) =>
      ModulusEven(t);
      StripZero(scale);
    case _ =>
  }

  /** The types the library compiles for: arrays and scales within their limits. */
  predicate Declarable(s: Schema) {
    match s
    case Dec(_, scale) => scale <= DEC_SCALE_MAX
    case FixedBytes(n) => n <= MAX_BYTE_ARRAY
    case CharArray(n) => 0 < n <= MAX_BYTE_ARRAY
    case Pair(s1, s2) => Declarable(s1) && Declarable(s2)
    case FixedArray(_, e) => Declarable(e)
    case Container(e) => Declarable(e)
    case Record(fs) => forall i | 0 <= i < |fs| :: Declarable(fs[i])
    case _ => true
  }

  /** No bit is set anywhere in the value. */
  predicate Blank(v: Value) {
    match v
    case VBool(b) => !b
    case VByte(c) => c == 0
    case VInt(n) => n == 0
    case VBytes(bs) => forall i | 0 <= i < |bs| :: bs[i] == 0
    case VSeq(vs) => forall i | 0 <= i < |vs| :: Blank(vs[i])
  }

  /** However its type is nested, a missing field is cleared to a value of that type with no bit set. */
  lemma {:induction false} DefaultIsBlank(s: Schema)
    requires Declarable(s)
    ensures WellTyped(s, Default(s)) && Blank(Default(s))
    decreases s
  {
    match s
    case Int(t) => ModulusEven(t);
    case Dec(t, _) => ModulusEven(t);
    case Pair(s1, s2) =>
      DefaultIsBlank(s1);
      DefaultIsBlank(s2);
    case FixedArray(_, e) => DefaultIsBlank(e);
    case Record(fs) =>
      forall i | 0 <= i < |fs|
        ensures WellTyped(fs[i], Default(fs[i])) && Blank(Default(fs[i]))
      {
        DefaultIsBlank(fs[i]);
      }
    case _ =>
  }

  function Defaults(fs: seq<Schema>): (vs: seq<Value>)
    ensures |vs| == |fs| && forall i | 0 <= i < |fs| :: vs[i] == Default(fs[i])
    decreases fs
  {
    if fs == [] then [] else [Default(fs[0])] + Defaults(fs[1..])
  }

  /** InArchiveClearBack::Load: a field is read while there is data and cleared once there is none. A
      nested record is loaded by the same archive, field by field. */
  function LoadClearBack(s: Schema, buf: Bytes): Out<Value>
    decreases s, 1
  {
    if s.Record? then AsSeq(LoadFields(s.fields, buf))
    else if buf == [] then Out(Ok(Default(s)), buf)
    else Decode(s, buf)
  }

  function LoadFields(fs: seq<Schema>, buf: Bytes): Out<seq<Value>>
    decreases fs, 0
  {
    if fs == [] then Out(Ok([]), buf)
    else
      var o := LoadClearBack(fs[0], buf);
      match o.res
      case Err(e) => Out(Err(e), o.rest)
      case Ok(x) => Push(x, LoadFields(fs[1..], o.rest))
  }

  /** Only default values are encoded by no bytes at all: empty records and arrays of nothing. */
  lemma {:induction false} NoBytesIsDefault(s: Schema, v: Value)
    requires WellTyped(s, v) && Encode(s, v) == []
    ensures v == Default(s)
    decreases v, 1
  {
    match s
    case Pair(s1, s2) =>
      NoBytesIsDefault(s1, v.vs[0]);
      NoBytesIsDefault(s2, v.vs[1]);
      assert v.vs == [v.vs[0], v.vs[1]];
    case FixedArray(_, e) => NoBytesAll(e, v.vs);
    case Record(fs) => NoBytesFields(fs, v.vs);
    case _ =>
  }

  lemma {:induction false} NoBytesAll(e: Schema, vs: seq<Value>)
    requires (forall i | 0 <= i < |vs| :: WellTyped(e, vs[i])) && EncodeAll(e, vs) == []
    ensures vs == seq(|vs|, i => Default(e))
    decreases vs, 0
  {
    if vs != [] {
      NoBytesIsDefault(e, vs[0]);
      NoBytesAll(e, vs[1..]);
      assert vs == [vs[0]] + vs[1..];
    }
  }

  lemma {:induction false} NoBytesFields(fs: seq<Schema>, vs: seq<Value>)
    requires FieldsTyped(fs, vs) && EncodeFields(fs, vs) == []
    ensures vs == Defaults(fs)
    decreases vs, 0
  {
    if fs != [] {
      NoBytesIsDefault(fs[0], vs[0]);
      NoBytesFields(fs[1..], vs[1..]);
      assert vs == [vs[0]] + vs[1..];
    }
  }

  lemma {:induction false} LoadRoundTrip(s: Schema, v: Value, rest: Bytes)
    requires WellTyped(s, v)
    ensures LoadClearBack(s, Encode(s, v) + rest) == Out(Ok(v), rest)
    decreases v, 1
  {
    if s.Record? {
      LoadPrefix(s.fields, [], v.vs, rest);
      assert s.fields + [] == s.fields && v.vs + Defaults([]) == v.vs;
    } else if Encode(s, v) + rest == [] {
      NoBytesIsDefault(s, v);
    } else {
      RoundTrip(s, s, v, rest);
    }
  }

  /** Data written with the fields fs, read with the fields fs and then gs: the old fields are restored
      and, with no data left, the new ones cleared. */
  lemma {:induction false} LoadPrefix(fs: seq<Schema>, gs: seq<Schema>, vs: seq<Value>, rest: Bytes)
    requires FieldsTyped(fs, vs) && (gs == [] || rest == [])
    ensures LoadFields(fs + gs, EncodeFields(fs, vs) + rest) == Out(Ok(vs + Defaults(gs)), rest)
    decreases vs, 0
  {
    if fs == [] {
      assert fs + gs == gs && vs + Defaults(gs) == Defaults(gs) && [] + rest == rest;
      LoadNothing(gs, rest);
    } else {
      LoadRoundTrip(fs[0], vs[0], EncodeFields(fs[1..], vs[1..]) + rest);
      LoadPrefix(fs[1..], gs, vs[1..], rest);
      LoadPrefixStep(fs, gs, vs, rest);
    }
  }

  lemma LoadPrefixStep(fs: seq<Schema>, gs: seq<Schema>, vs: seq<Value>, rest: Bytes)
    requires FieldsTyped(fs, vs) && fs != []
    requires var tail := EncodeFields(fs[1..], vs[1..]) + rest;
             && LoadClearBack(fs[0], Encode(fs[0], vs[0]) + tail) == Out(Ok(vs[0]), tail)
             && LoadFields(fs[1..] + gs, tail) == Out(Ok(vs[1..] + Defaults(gs)), rest)
    ensures LoadFields(fs + gs, EncodeFields(fs, vs) + rest) == Out(Ok(vs + Defaults(gs)), rest)
  {
    var tail := EncodeFields(fs[1..], vs[1..]) + rest;
    LoadOneMore(fs[0], fs[1..] + gs, Encode(fs[0], vs[0]) + tail, vs[0], tail, vs[1..] + Defaults(gs), rest);
    AppendAssoc(Encode(fs[0], vs[0]), EncodeFields(fs[1..], vs[1..]), rest);
    ConsAppend(fs, gs);
    ConsAppend(vs, Defaults(gs));
  }

  lemma LoadOneMore(f: Schema, fs: seq<Schema>, buf: Bytes, x: Value, mid: Bytes, xs: seq<Value>, rest: Bytes)
    requires LoadClearBack(f, buf) == Out(Ok(x), mid) && LoadFields(fs, mid) == Out(Ok(xs), rest)
    ensures LoadFields([f] + fs, buf) == Out(Ok([x] + xs), rest)
  {
    assert ([f] + fs)[1..] == fs;
  }

  lemma {:induction false} LoadNothing(gs: seq<Schema>, rest: Bytes)
    requires gs == [] || rest == []
    ensures LoadFields(gs, rest) == Out(Ok(Defaults(gs)), rest)
    decreases gs, 0
  {
    if gs != [] {
      if gs[0].Record? {
        LoadNothing(gs[0].fields, rest);
      }
      LoadNothing(gs[1..], rest);
    }
  }

  // ---- Versions ----

  /** CompositeVer saves the fields of the version's layout, then the version in front of them. */
  function EncodeVersioned(layouts: int -> Schema, ver: int, v: Value): Bytes
    requires UINT32.Has(ver) && WellTyped(layouts(ver), v)
  {
    TypeInWide(UINT32, ver);
    EncodeInt(ver) + Encode(layouts(ver), v)
  }

  /** It loads the version first, and with it the layout. */
  function DecodeVersioned(layouts: int -> Schema, buf: Bytes): Out<(int, Value)> {
    var o := DecodeInt(UINT32, buf, 0);
    match o.res
    case Err(e) => Out(Err(e), o.rest)
    case Ok(ver) =>
      match Decode(layouts(ver), o.rest)
      case Out(Ok(v), rest) => Out(Ok((ver, v)), rest)
      case Out(Err(e), rest) => Out(Err(e), rest)
  }

  /** Whatever the versions' layouts, the reader finds the writer's version and fields. */
  lemma VersionedRoundTrip(layouts: int -> Schema, ver: int, v: Value, rest: Bytes)
    requires UINT32.Has(ver) && WellTyped(layouts(ver), v)
    ensures DecodeVersioned(layouts, EncodeVersioned(layouts, ver, v) + rest) == Out(Ok((ver, v)), rest)
  {
    TypeInWide(UINT32, ver);
    var body := Encode(layouts(ver), v) + rest;
    assert EncodeVersioned(layouts, ver, v) + rest == EncodeInt(ver) + body;
    IntRoundTrip(UINT32, ver, body, 0);
    RoundTrip(layouts(ver), layouts(ver), v, rest);
  }
}
