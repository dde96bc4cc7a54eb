/**
 The first byte of every form, and that it tells the types apart: which first bytes each reader takes, and
 that it refuses what a writer of another family wrote.
*/
module BitvTags {
  import opened Wrappers
  import opened Bytes
  import opened BitvNumber
  import opened BitvDecimal
  import opened BitvBytes
  import opened BitvValue

  // ---- What each reader takes ----

  /** A byte of one of the tags that hold a length in their low three bits. */
  predicate Tagged(b: Byte, tag: Byte) { tag <= b < tag + 8 }

  lemma TagOf(b: Byte, tag: Byte)
    requires tag % 8 == 0
    ensures b - b % 8 == tag <==> Tagged(b, tag)
  {
  }

  /** A reader of integers takes positive and negative ones, zero and Null, and refuses anything else. */
  lemma IntFirstByte(t: IntType, buf: Bytes, nullValue: int)
    requires t.Valid() && buf != []
    ensures DecodeInt(t, buf, nullValue) == Out(Err(TypeNotMatch), buf)
            <==> !Tagged(buf[0], 0x90) && !Tagged(buf[0], 0xa0) && buf[0] != 0xf0 && buf[0] != 0xf9
    ensures buf[0] == 0xf0 ==> DecodeInt(t, buf, nullValue) == Out(Ok(0), buf[1..])
    ensures buf[0] == 0xf9 ==> DecodeInt(t, buf, nullValue) == Out(Ok(nullValue), buf[1..])
    ensures Tagged(buf[0], 0xa0) && !t.signed ==> DecodeInt(t, buf, nullValue) == Out(Err(SignedError), buf)
  {
    TagOf(buf[0], 0x90);
    TagOf(buf[0], 0xa0);
  }

  /** A reader of decimals also takes those. */
  lemma NumberFirstByte(buf: Bytes)
    requires buf != []
    ensures DecodeNumber(buf) == Out(Err(TypeNotMatch), buf)
            <==> !Tagged(buf[0], 0x90) && !Tagged(buf[0], 0xa0) && !Tagged(buf[0], 0xb0)
                 && buf[0] != 0xf0 && buf[0] != 0xf9
    ensures buf[0] == 0xf0 ==> DecodeNumber(buf) == Out(Ok(NumR(Zero, 0, 0)), buf[1..])
    ensures buf[0] == 0xf9 ==> DecodeNumber(buf) == Out(Ok(NumR(Null, 0, 0)), buf[1..])
  {
    TagOf(buf[0], 0x90);
    TagOf(buf[0], 0xa0);
    TagOf(buf[0], 0xb0);
  }

  /** A reader of a container's count takes a count or none; a negative integer is refused for its sign. */
  lemma CountFirstByte(buf: Bytes)
    requires buf != []
    ensures DecodeCount(buf) == Out(Err(TypeNotMatch), buf)
            <==> !Tagged(buf[0], 0x88) && !Tagged(buf[0], 0xa0) && buf[0] != 0xfa
    ensures buf[0] == 0xfa ==> DecodeCount(buf) == Out(Ok(0), buf[1..])
    ensures Tagged(buf[0], 0xa0) ==> DecodeCount(buf) == Out(Err(SignedError), buf)
  {
    TagOf(buf[0], 0x88);
    TagOf(buf[0], 0xa0);
  }

  /** A reader of bytes takes a short length, a long one, or none at all. */
  lemma SizeFirstByte(buf: Bytes)
    requires buf != []
    ensures PeekSize(buf) == BadType <==> !(buf[0] < 0x88) && buf[0] != 0xf8
    ensures buf[0] == 0xf8 ==> PeekSize(buf) == Ready(1, 0)
  {
    TagOf(buf[0], 0x80);
  }

  lemma CharFirstByte(buf: Bytes)
    requires buf != []
    ensures DecodeChar(buf) == Out(Err(TypeNotMatch), buf) <==> buf[0] != 0 && buf[0] != 0xf1
    ensures buf[0] == 0xf1 ==> DecodeChar(buf) == Out(Ok(0), buf[1..])
  {
  }

  lemma BoolFirstByte(buf: Bytes)
    requires buf != []
    ensures DecodeBool(buf)
         == if buf[0] == 0xfb then Out(Ok(true), buf[1..]) else if buf[0] == 0xf2 then Out(Ok(false), buf[1..])
            else Out(Err(TypeNotMatch), buf)
  {
  }

  /** A character that is 0 takes one byte, any other two. */
  lemma CharSize(c: Byte)
    ensures |EncodeChar(c)| == if c == 0 then 1 else 2
  {
  }

  /** Nothing at all takes one byte: zero, no bytes, no elements. */
  lemma NothingTakesOneByte()
    ensures EncodeInt(0) == [0xf0] && EncodeSize(0) == [0xf8] && EncodeCount(0) == [0xfa] && EncodeChar(0) == [0xf1]
  {
    Pow256Values();
  }

  // ---- Families ----

  /** Bool; numbers; characters and bytes; containers. What has no tag of its own has no family. */
  datatype Family = Truths | Numbers | Texts | Lists

  function FamilyOf(s: Schema): Option<Family> {
    match s
    case Bool => Some(Truths)
    case Int(_) => Some(Numbers)
    case Dec(_, _) => Some(Numbers)
    case Char => Some(Texts)
    case DynBytes => Some(Texts)
    case FixedBytes(_) => Some(Texts)
    case CharArray(_) => Some(Texts)
    case Container(_) => Some(Lists)
    case _ => None
  }

  predicate Belongs(b: Byte, f: Family) {
    match f
    case Truths => b == 0xf2 || b == 0xfb
    case Numbers => Tagged(b, 0x90) || Tagged(b, 0xa0) || Tagged(b, 0xb0) || b == 0xf0 || b == 0xf9
    case Texts => b < 0x88 || b == 0xf1 || b == 0xf8
    case Lists => Tagged(b, 0x88) || b == 0xfa
  }

  lemma OneFamily(b: Byte, f: Family, g: Family)
    requires Belongs(b, f) && Belongs(b, g)
    ensures f == g
  {
  }

  lemma IntWrites(v: int)
    requires INT64.Min() <= v <= UINT64.Max()
    ensures EncodeInt(v) != [] && Belongs(EncodeInt(v)[0], Numbers)
  {
    Pow256Values();
    if v > 0 { FitsEight(v); }
    if v < 0 { FitsEight(-v - 1); }
  }

  lemma DecWrites(v: int, scale: nat)
    requires INT64.Min() <= v <= UINT64.Max()
    ensures EncodeDec(v, scale) != [] && Belongs(EncodeDec(v, scale)[0], Numbers)
  {
    StripKeepsNumber(v, scale);
    Pow256Values();
    var v' := Strip(v, scale).0;
    IntWrites(v');
    if v' < 0 { var _, _ := DecBytesShape(-v' - 1, Strip(v, scale).1, true); }
    else { var _, _ := DecBytesShape(v', Strip(v, scale).1, false); }
  }

  lemma SizeWrites(n: nat)
    requires n <= MAX_BYTE_ARRAY
    ensures EncodeSize(n) != [] && Belongs(EncodeSize(n)[0], Texts)
  {
    if n > 0x80 { var _, _ := SizeShape(n); }
  }

  lemma CountWrites(n: nat)
    requires n <= UINT64.Max()
    ensures EncodeCount(n) != [] && Belongs(EncodeCount(n)[0], Lists)
  {
    FitsEight(n);
  }

  /** What a writer of a family writes begins with a byte of that family. */
  lemma WritesFamily(s: Schema, v: Value)
    requires WellTyped(s, v) && FamilyOf(s).Some?
    ensures Encode(s, v) != [] && Belongs(Encode(s, v)[0], FamilyOf(s).value)
  {
    match s
    case Bool =>
    case Char =>
    case Int(t) =>
      TypeInWide(t, v.v);
      IntWrites(v.v);
    case Dec(t, scale) =>
      TypeInWide(t, v.v);
      DecWrites(v.v, scale);
    case DynBytes => SizeWrites(|v.bs|);
    case FixedBytes(_) => SizeWrites(|v.bs|);
    case CharArray(n) => SizeWrites(if v.bs[n - 1] == 0 then n - 1 else n);
    case Container(_) => CountWrites(|v.vs|);
  }

  /** A reader refuses what begins with a byte of another family, and takes nothing. */
  lemma ReadsFamily(w: Schema, buf: Bytes)
    requires FamilyOf(w).Some? && buf != [] && !Belongs(buf[0], FamilyOf(w).value)
    ensures Decode(w, buf) == Out(Err(if w.Container? && Tagged(buf[0], 0xa0) then SignedError else TypeNotMatch), buf)
  {
    match w
    case Bool => BoolFirstByte(buf);
    case Char => CharFirstByte(buf);
    case Int(t) => IntFirstByte(t, buf, 0);
    case Dec(_, _) => NumberFirstByte(buf);
    case DynBytes => SizeFirstByte(buf);
    case FixedBytes(_) => SizeFirstByte(buf);
    case CharArray(_) => SizeFirstByte(buf);
    case Container(_) => CountFirstByte(buf);
  }

  /** Whatever a type of one family has written, a type of another refuses to read, leaving every byte. */
  lemma FamiliesAreTold(s: Schema, v: Value, w: Schema, rest: Bytes)
    requires WellTyped(s, v) && FamilyOf(s).Some? && FamilyOf(w).Some? && FamilyOf(s) != FamilyOf(w)
    ensures var o := Decode(w, Encode(s, v) + rest);
            && o.rest == Encode(s, v) + rest
            && o.res == Err(if w.Container? && Tagged(Encode(s, v)[0], 0xa0) then SignedError else TypeNotMatch)
  {
    WritesFamily(s, v);
    var b := Encode(s, v)[0];
    assert (Encode(s, v) + rest)[0] == b;
    if Belongs(b, FamilyOf(w).value) { OneFamily(b, FamilyOf(s).value, FamilyOf(w).value); }
    ReadsFamily(w, Encode(s, v) + rest);
  }
}
