/**
 The encoders and decoders of Bitv as the source runs them: loops that pack, strip and unpack numbers,
 encoders that put every value in front of what is already there, and decoders that take bytes from a
 queue. Each is tied to the function of the format it computes.
*/
module BitvStreams {
  import opened Wrappers
  import opened Bytes
  import opened Buffers
  import opened BitvNumber
  import opened BitvDecimal
  import opened BitvBytes
  import opened BitvValue

  // ---- Loops over numbers ----

  /** PackBigEndianRev: the lowest byte first, each one in front of the last. */
  method PackBigEndianRev(v: nat) returns (out: Bytes)
    ensures out == BigEndian(v)
  {
    out := [v % 256];
    var value: nat := v / 256;
    while value != 0
      invariant BigEndian(v) == (if value == 0 then out else BigEndian(value) + out)
      decreases value
    {
      ghost var more := if value < 256 then [] else BigEndian(value / 256);
      AppendAssoc(more, [value % 256], out);
      assert BigEndian(value) == more + [value % 256];
      out := [value % 256] + out;
      value := value / 256;
    }
  }

  /** GetPackedBigEndian<T>: shift and add, in the width of T. */
  method GetPackedBigEndian(t: CInt, bs: Bytes) returns (v: int)
    requires 1 <= |bs| <= t.width
    ensures v == t.Wrap(FromBigEndian(bs))
  {
    v := t.Wrap(bs[0]);
    FromBigEndianOne(bs[0]);
    assert bs[..1] == [bs[0]];
    var i := 1;
    while i < |bs|
      invariant 1 <= i <= |bs|
      invariant v == t.Wrap(FromBigEndian(bs[..i]))
    {
      assert bs[..i + 1][..i] == bs[..i];
      WrapShift(t, FromBigEndian(bs[..i]), bs[i]);
      v := t.Wrap(v * 256 + bs[i]);
      i := i + 1;
    }
    assert bs[..|bs|] == bs;
  }

  lemma WrapShift(t: CInt, x: int, b: int)
    ensures t.Wrap(t.Wrap(x) * 256 + b) == t.Wrap(x * 256 + b)
  {
    var m := t.Modulus();
    var y := t.Wrap(x);
    DivMod(x, m);
    var q := if x % m <= t.Max() then x / m else x / m + 1;
    assert x == q * m + y by { Distribute(x / m, q, m); }
    SameMod(y * 256 + b, x * 256 + b, 256 * q, m);
  }

  lemma SameMod(a: int, c: int, k: int, m: nat)
    requires m > 0 && c == a + k * m
    ensures a % m == c % m
  {
    DivMod(a, m);
    Distribute(a / m, -k, m);
    ModUnique(c, m, a / m + k, a % m);
  }

  /** BitvAdjustScale. */
  method AdjustScale(v: int, scale: nat) returns (v': int, s': nat)
    ensures (v', s') == Strip(v, scale)
  {
    v', s' := v, scale;
    if s' == 0 {
      return;
    }
    while true
      invariant s' > 0 && Strip(v', s') == Strip(v, scale)
      decreases s'
    {
      if 0 <= v' <= 0x3ff {
        return;
      }
      if s' == 1 || v' % 100 != 0 {
        break;
      }
      v' := v' / 100;
      s' := s' - 2;
      if s' == 0 {
        return;
      }
    }
    if v' % 10 == 0 {
      v', s' := v' / 10, s' - 1;
    }
  }

  // ---- Encoders ----

  method IntToBitvNoZero(rbuf: RevBuffer, v: nat, tag: Byte)
    requires |BigEndian(v)| <= 8 && tag % 8 == 0
    modifies rbuf
    ensures rbuf.data == EncodeTagged(v, tag) + old(rbuf.data)
  {
    var be := PackBigEndianRev(v);
    rbuf.Put([tag + |be| - 1] + be);
  }

  method IntToBitv(rbuf: RevBuffer, v: int)
    requires INT64.Min() <= v <= UINT64.Max()
    modifies rbuf
    ensures rbuf.data == EncodeInt(v) + old(rbuf.data)
  {
    Pow256Values();
    if v == 0 {
      rbuf.Put([NUMBER_0]);
    } else if v > 0 {
      FitsEight(v);
      IntToBitvNoZero(rbuf, v, INTEGER_POS);
    } else {
      FitsEight(-v - 1);
      IntToBitvNoZero(rbuf, -v - 1, INTEGER_NEG);
    }
  }

  /** The DecToBitv that is told the sign: pack, merge the head into the first byte or put it in front,
      then the tag. */
  method DecBytesToBitv(rbuf: RevBuffer, v: nat, scale: nat, neg: bool)
    requires |BigEndian(v)| <= 8
    modifies rbuf
    ensures rbuf.data == EncodeDecBytes(v, scale, neg) + old(rbuf.data)
  {
    var head := scale * 8 % 256;
    if neg {
      head := head + 4;
    }
    var out := PackBigEndianRev(v);
    var n := |out|;
    HeadByte(scale, neg, if n > 1 && out[0] < 4 then out[0] else 0);
    if n > 1 && out[0] < 4 {
      out := [head + out[0]] + out[1..];
      n := n - 1;
    } else {
      out := [head] + out;
    }
    var tag := DECIMAL + n - 1;
    assert [tag] + out == EncodeDecBytes(v, scale, neg);
    rbuf.Put([tag] + out);
  }

  method DecToBitv(rbuf: RevBuffer, v: int, scale: nat)
    requires INT64.Min() <= v <= UINT64.Max()
    modifies rbuf
    ensures rbuf.data == EncodeDec(v, scale) + old(rbuf.data)
  {
    StripKeepsNumber(v, scale);
    Pow256Values();
    if v == 0 {
      rbuf.Put([NUMBER_0]);
      return;
    }
    var v', s' := AdjustScale(v, scale);
    if s' == 0 {
      IntToBitv(rbuf, v');
    } else if v' < 0 {
      FitsEight(-v' - 1);
      DecBytesToBitv(rbuf, -v' - 1, s', true);
    } else {
      FitsEight(v');
      DecBytesToBitv(rbuf, v', s', false);
    }
  }

  /** ByteArraySizeToBitvT; it throws when the length is too big. */
  method SizeToBitv(rbuf: RevBuffer, n: nat) returns (ok: bool)
    modifies rbuf
    ensures ok == (n <= MAX_BYTE_ARRAY)
    ensures rbuf.data == if ok then EncodeSize(n) + old(rbuf.data) else old(rbuf.data)
  {
    if n > MAX_BYTE_ARRAY {
      return false;
    }
    ok := true;
    if n == 0 {
      rbuf.Put([BYTE_ARRAY_EMPTY]);
    } else if n <= 0x80 {
      rbuf.Put([n - 1]);
    } else {
      Pow256Values();
      BigEndianLength(n - 129, 4);
      var out := PackBigEndianRev(n - 129);
      if |out| > 1 && out[0] == 1 {
        out := [1 + BYTE_ARRAY + (|out| - 2) * 2] + out[1..];
      } else {
        out := [BYTE_ARRAY + (|out| - 1) * 2] + out;
      }
      rbuf.Put(out);
    }
  }

  /** It throws when the array is too long, before anything is put. */
  method ByteArrayToBitv(rbuf: RevBuffer, bs: Bytes) returns (ok: bool)
    modifies rbuf
    ensures ok == (|bs| <= MAX_BYTE_ARRAY)
    ensures rbuf.data == if ok then EncodeBytes(bs) + old(rbuf.data) else old(rbuf.data)
  {
    if |bs| > MAX_BYTE_ARRAY {
      return false;
    }
    AppendAssoc(EncodeSize(|bs|), bs, rbuf.data);
    rbuf.Put(bs);
    ok := SizeToBitv(rbuf, |bs|);
  }

  method LeafToBitv(rbuf: RevBuffer, s: Schema, v: Value)
    requires IsLeaf(s) && WellTyped(s, v)
    modifies rbuf
    ensures rbuf.data == Encode(s, v) + old(rbuf.data)
  {
    match s
    case Bool => rbuf.Put(EncodeBool(v.b));
    case Char => rbuf.Put(EncodeChar(v.c));
    case Int(t) =>
      TypeInWide(t, v.v);
      IntToBitv(rbuf, v.v);
    case Dec(t, scale) =>
      TypeInWide(t, v.v);
      if v.v == OrigNull(t) {
        rbuf.Put([NUMBER_NULL]);
      } else {
        DecToBitv(rbuf, v.v, scale);
      }
    case CharArray(n) => var _ := ByteArrayToBitv(rbuf, if v.bs[n - 1] == 0 then v.bs[..n - 1] else v.bs);
    case DynBytes => var _ := ByteArrayToBitv(rbuf, v.bs);
    case FixedBytes(_) => var _ := ByteArrayToBitv(rbuf, v.bs);
  }

  /** ToBitv: a pair its second half first, a container its last element first and its count last, a
      record its last field first. */
  method ToBitv(rbuf: RevBuffer, s: Schema, v: Value)
    requires WellTyped(s, v)
    modifies rbuf
    ensures rbuf.data == Encode(s, v) + old(rbuf.data)
    decreases v, 1
  {
    if IsLeaf(s) {
      LeafToBitv(rbuf, s, v);
    } else if s.Pair? {
      AppendAssoc(Encode(s.first, v.vs[0]), Encode(s.second, v.vs[1]), rbuf.data);
      ToBitv(rbuf, s.second, v.vs[1]);
      ToBitv(rbuf, s.first, v.vs[0]);
    } else if s.FixedArray? {
      ElementsToBitv(rbuf, s.elem, v.vs);
    } else if s.Container? {
      AppendAssoc(EncodeCount(|v.vs|), EncodeAll(s.elem, v.vs), rbuf.data);
      ElementsToBitv(rbuf, s.elem, v.vs);
      if |v.vs| == 0 {
        rbuf.Put([CONTAINER_EMPTY]);
      } else {
        FitsEight(|v.vs|);
        IntToBitvNoZero(rbuf, |v.vs|, CONTAINER);
      }
    } else {
      SerializeOut(rbuf, s.fields, v.vs);
    }
  }

  method ElementsToBitv(rbuf: RevBuffer, e: Schema, vs: seq<Value>)
    requires forall i | 0 <= i < |vs| :: WellTyped(e, vs[i])
    modifies rbuf
    ensures rbuf.data == EncodeAll(e, vs) + old(rbuf.data)
    decreases vs, 0
  {
    var i := |vs|;
    while i > 0
      invariant 0 <= i <= |vs|
      invariant rbuf.data == EncodeAll(e, vs[i..]) + old(rbuf.data)
    {
      i := i - 1;
      EncodeAllAt(e, vs, i, old(rbuf.data));
      ToBitv(rbuf, e, vs[i]);
    }
    assert vs[0..] == vs;
  }

  lemma EncodeAllAt(e: Schema, vs: seq<Value>, i: nat, rest: Bytes)
    requires i < |vs| && forall j | 0 <= j < |vs| :: WellTyped(e, vs[j])
    ensures EncodeAll(e, vs[i..]) + rest == Encode(e, vs[i]) + (EncodeAll(e, vs[i + 1..]) + rest)
  {
    assert vs[i..][1..] == vs[i + 1..];
    AppendAssoc(Encode(e, vs[i]), EncodeAll(e, vs[i + 1..]), rest);
  }

  /** SerializeOut over an argument list: everything behind the first argument, then the first. */
  method SerializeOut(rbuf: RevBuffer, fs: seq<Schema>, vs: seq<Value>)
    requires FieldsTyped(fs, vs)
    modifies rbuf
    ensures rbuf.data == EncodeFields(fs, vs) + old(rbuf.data)
    decreases vs, 0
  {
    if fs != [] {
      AppendAssoc(Encode(fs[0], vs[0]), EncodeFields(fs[1..], vs[1..]), rbuf.data);
      SerializeOut(rbuf, fs[1..], vs[1..]);
      ToBitv(rbuf, fs[0], vs[0]);
    }
  }

  // ---- Decoders ----

  /** BitvToIntAux. */
  method BitvToIntAux(buf: DcQueue, t: CInt, pos: Byte, zero: Byte, nil: Byte, nullValue: int) returns (r: Result<int, Error>)
    requires buf.Valid()
    modifies buf
    ensures buf.Valid()
    ensures Out(r, buf.Contents()) == DecodeIntAux(t, pos, zero, nil, old(buf.Contents()), nullValue)
  {
    var p := buf.Peek1();
    if p.None? {
      return Err(NeedsMore);
    }
    var tag := p.value - p.value % 8;
    if tag == pos || tag == INTEGER_NEG {
      if tag != pos && !t.signed {
        return Err(SignedError);
      }
      var n := p.value % 8 + 1;
      if n > t.width {
        return Err(Overflow);
      }
      var num := buf.Peek(n + 1);
      if num.None? {
        return Err(NeedsMore);
      }
      assert num.value[1..] == buf.Contents()[1..n + 1];
      var v := GetPackedBigEndian(t, num.value[1..]);
      buf.PopConsumed(n + 1);
      return Ok(if tag == INTEGER_NEG then t.Wrap(-v - 1) else v);
    }
    if p.value == zero {
      buf.PopConsumed(1);
      return Ok(0);
    }
    if p.value == nil {
      buf.PopConsumed(1);
      return Ok(nullValue);
    }
    return Err(TypeNotMatch);
  }

  /** BitvToNumber. */
  method BitvToNumber(buf: DcQueue) returns (r: Result<NumR, Error>)
    requires buf.Valid()
    modifies buf
    ensures buf.Valid() && Out(r, buf.Contents()) == DecodeNumber(old(buf.Contents()))
  {
    var p := buf.Peek1();
    if p.None? {
      return Err(NeedsMore);
    }
    var tag, n := p.value - p.value % 8, p.value % 8 + 1;
    if tag == INTEGER_POS || tag == INTEGER_NEG {
      var num := buf.Peek(n + 1);
      if num.None? {
        return Err(NeedsMore);
      }
      assert num.value[1..] == buf.Contents()[1..n + 1];
      var v := GetPackedBigEndian(UINT64, num.value[1..]);
      buf.PopConsumed(n + 1);
      return Ok(if tag == INTEGER_POS then NumR(Pos, 0, v) else NumR(Neg, 0, UINT64.Max() - v));
    }
    if tag == DECIMAL {
      var num := buf.Peek(n + 2);
      if num.None? {
        return Err(NeedsMore);
      }
      var head, body := num.value[1], num.value[2..];
      assert body == buf.Contents()[2..n + 2] && head == buf.Contents()[1];
      var v := UnpackBehind(head % 4, body);
      buf.PopConsumed(n + 2);
      var kind := if head / 4 % 2 == 1 then Neg else Pos;
      return Ok(NumR(kind, head / 8, if kind == Neg then UINT64.Max() - v else v));
    }
    if p.value == NUMBER_0 {
      buf.PopConsumed(1);
      return Ok(NumR(Zero, 0, 0));
    }
    if p.value == NUMBER_NULL {
      buf.PopConsumed(1);
      return Ok(NumR(Null, 0, 0));
    }
    return Err(TypeNotMatch);
  }

  /** The two lent bits, then byte after byte shifted in behind them. */
  method UnpackBehind(low: Byte, body: Bytes) returns (v: int)
    ensures v == UINT64.Wrap(FromBigEndian([low] + body))
  {
    v := low;
    FromBigEndianOne(low);
    Pow256Values();
    assert [low] + body[..0] == [low];
    for i := 0 to |body|
      invariant v == UINT64.Wrap(FromBigEndian([low] + body[..i]))
    {
      assert ([low] + body[..i + 1])[..i + 1] == [low] + body[..i];
      WrapShift(UINT64, FromBigEndian([low] + body[..i]), body[i]);
      v := UINT64.Wrap(v * 256 + body[i]);
    }
    assert body[..|body|] == body;
  }

  /** BitvToDec. */
  method BitvToDec(buf: DcQueue, t: CInt, scale: nat) returns (r: Result<int, Error>)
    requires buf.Valid()
    modifies buf
    ensures buf.Valid() && Out(r, buf.Contents()) == DecodeDec(t, scale, old(buf.Contents()))
  {
    var n := BitvToNumber(buf);
    if n.Err? {
      return Err(n.error);
    }
    match n.value.kind
    case Null => return Ok(OrigNull(t));
    case Zero => return Ok(0);
    case _ => return Stored(t, n.value, scale);
  }

  /** PeekBitvByteArraySize. */
  method PeekByteArraySize(buf: DcQueue) returns (p: Peek)
    requires buf.Valid()
    ensures p == PeekSize(buf.Contents())
  {
    var b := buf.Peek1();
    if b.None? {
      return NeedsMoreHead;
    }
    if b.value < 0x80 {
      var enough := buf.IsSizeEnough(b.value + 2);
      return if enough then Ready(1, b.value + 1) else NeedsMoreData(b.value + 1);
    }
    if b.value == BYTE_ARRAY_EMPTY {
      return Ready(1, 0);
    }
    if !IsLongTag(b.value) {
      return BadType;
    }
    var n := SizeWidth(b.value);
    var num := buf.Peek(n + 1);
    if num.None? {
      return NeedsMoreHead;
    }
    assert num.value[1..] == buf.Contents()[1..n + 1];
    var size := GetPackedBigEndian(UINT32, num.value[1..]);
    FromBigEndianBound(num.value[1..]);
    PowMonotone(n, 4);
    WrapInRange(UINT32, FromBigEndian(num.value[1..]));
    size := size + TopBit(b.value) + 129;
    var enough := buf.IsSizeEnough(size + n + 1);
    return if enough then Ready(n + 1, size) else NeedsMoreData(size);
  }

  /** PopBitvByteArraySize. */
  method PopByteArraySize(buf: DcQueue) returns (r: Result<(bool, nat), Error>)
    requires buf.Valid()
    modifies buf
    ensures buf.Valid() && Out(r, buf.Contents()) == PopSize(old(buf.Contents()))
  {
    var p := PeekByteArraySize(buf);
    match p
    case Ready(header, size) =>
      buf.PopConsumed(header);
      return Ok((true, size));
    case NeedsMoreHead => return Ok((false, 0));
    case NeedsMoreData(size) => return Ok((false, size));
    case BadType => return Err(TypeNotMatch);
  }

  /** BitvToStrAppend into an empty string: block by block until the array is complete. */
  method BitvToStr(buf: DcQueue) returns (r: Result<Bytes, Error>)
    requires buf.Valid()
    modifies buf
    ensures buf.Valid() && Out(r, buf.Contents()) == DecodeBytes(old(buf.Contents()))
  {
    var p := PopByteArraySize(buf);
    if p.Err? {
      return Err(p.error);
    }
    if !p.value.0 {
      return Err(NeedsMore);
    }
    var left, dst := p.value.1, [];
    ghost var was := buf.Contents();
    while left > 0
      invariant buf.Valid() && 0 <= left <= |buf.Contents()|
      invariant |dst| + left == p.value.1 <= |was|
      invariant dst + buf.Contents() == was
    {
      var blk := if |buf.cur| > left then buf.cur[..left] else buf.cur;
      assert blk == buf.Contents()[..|blk|];
      TakeOver(dst, buf.Contents(), |blk|);
      dst := dst + blk;
      buf.PopConsumed(|blk|);
      left := left - |blk|;
    }
    assert dst == was[..|dst|] && buf.Contents() == was[|dst|..];
    return Ok(dst);
  }

  lemma TakeOver(a: Bytes, b: Bytes, n: nat)
    requires n <= |b|
    ensures (a + b[..n]) + b[n..] == a + b
  {
  }

  /** BitvToByteArray. */
  method BitvToByteArray(buf: DcQueue, n: nat) returns (r: Result<Bytes, Error>)
    requires buf.Valid()
    modifies buf
    ensures buf.Valid() && Out(r, buf.Contents()) == DecodeFixedBytes(n, old(buf.Contents()))
  {
    var p := PopByteArraySize(buf);
    if p.Err? {
      return Err(p.error);
    }
    if !p.value.0 {
      return Err(NeedsMore);
    }
    var size := p.value.1;
    if n < size {
      return Err(OutOfRange);
    }
    var bs := buf.Read(size);
    return Ok(bs + Zeros(n - size));
  }

  method BitvToChar(buf: DcQueue) returns (r: Result<Byte, Error>)
    requires buf.Valid()
    modifies buf
    ensures buf.Valid() && Out(r, buf.Contents()) == DecodeChar(old(buf.Contents()))
  {
    var p := buf.Peek1();
    if p.None? {
      return Err(NeedsMore);
    }
    if p.value == CHAR_0 {
      buf.PopConsumed(1);
      return Ok(0);
    }
    if p.value != 0 {
      return Err(TypeNotMatch);
    }
    var two := buf.Peek(2);
    if two.None? {
      return Err(NeedsMore);
    }
    buf.PopConsumed(2);
    return Ok(two.value[1]);
  }

  method BitvToBool(buf: DcQueue) returns (r: Result<bool, Error>)
    requires buf.Valid()
    modifies buf
    ensures buf.Valid() && Out(r, buf.Contents()) == DecodeBool(old(buf.Contents()))
  {
    var p := buf.Peek1();
    if p.None? {
      return Err(NeedsMore);
    }
    if p.value != BOOL_TRUE && p.value != BOOL_FALSE {
      return Err(TypeNotMatch);
    }
    buf.PopConsumed(1);
    return Ok(p.value == BOOL_TRUE);
  }

  method LeafBitvTo(buf: DcQueue, s: Schema) returns (r: Result<Value, Error>)
    requires buf.Valid() && IsLeaf(s)
    modifies buf
    ensures buf.Valid() && Out(r, buf.Contents()) == Decode(s, old(buf.Contents()))
  {
    match s {
      case Bool =>
        var b := BitvToBool(buf);
        r := if b.Ok? then Ok(VBool(b.value)) else Err(b.error);
      case Char =>
        var c := BitvToChar(buf);
        r := if c.Ok? then Ok(VByte(c.value)) else Err(c.error);
      case Int(t) =>
        var i := BitvToIntAux(buf, t, INTEGER_POS, NUMBER_0, NUMBER_NULL, 0);
        r := if i.Ok? then Ok(VInt(i.value)) else Err(i.error);
      case Dec(t, scale) =>
        var d := BitvToDec(buf, t, scale);
        r := if d.Ok? then Ok(VInt(d.value)) else Err(d.error);
      case DynBytes =>
        var bs := BitvToStr(buf);
        r := if bs.Ok? then Ok(VBytes(bs.value)) else Err(bs.error);
      case FixedBytes(n) =>
        var bs := BitvToByteArray(buf, n);
        r := if bs.Ok? then Ok(VBytes(bs.value)) else Err(bs.error);
      case CharArray(n) =>
        var bs := BitvToByteArray(buf, n);
        r := if bs.Ok? then Ok(VBytes(bs.value)) else Err(bs.error);
    }
  }

  /** BitvTo. */
  method BitvTo(buf: DcQueue, s: Schema) returns (r: Result<Value, Error>)
    requires buf.Valid()
    modifies buf
    ensures buf.Valid() && Out(r, buf.Contents()) == Decode(s, old(buf.Contents()))
    decreases s, 0
  {
    if IsLeaf(s) {
      r := LeafBitvTo(buf, s);
    } else if s.Pair? {
      var x := BitvTo(buf, s.first);
      if x.Err? {
        return Err(x.error);
      }
      var y := BitvTo(buf, s.second);
      return if y.Ok? then Ok(VSeq([x.value, y.value])) else Err(y.error);
    } else if s.FixedArray? {
      var vs := BitvToElements(buf, s.elem, s.count);
      return if vs.Ok? then Ok(VSeq(vs.value)) else Err(vs.error);
    } else if s.Container? {
      var n := BitvToIntAux(buf, UINT64, CONTAINER, CONTAINER_EMPTY, CONTAINER_EMPTY, 0);
      if n.Err? {
        return Err(n.error);
      }
      var vs := BitvToElements(buf, s.elem, n.value);
      return if vs.Ok? then Ok(VSeq(vs.value)) else Err(vs.error);
    } else {
      var vs := SerializeIn(buf, s.fields);
      return if vs.Ok? then Ok(VSeq(vs.value)) else Err(vs.error);
    }
  }

  /** The elements already read, in front of those still to be read. */
  function PushAll(done: seq<Value>, o: Out<seq<Value>>): Out<seq<Value>> {
    match o case Out(Ok(vs), rest) => Out(Ok(done + vs), rest) case Out(Err(e), rest) => Out(Err(e), rest)
  }

  /** BitvToContainer and BitvToArray: one element at a time, each behind the last. */
  method BitvToElements(buf: DcQueue, e: Schema, n: nat) returns (r: Result<seq<Value>, Error>)
    requires buf.Valid()
    modifies buf
    ensures buf.Valid() && Out(r, buf.Contents()) == DecodeAll(e, n, old(buf.Contents()))
    decreases e, 1
  {
    var c, left := [], n;
    ghost var all := DecodeAll(e, n, buf.Contents());
    assert all == PushAll([], all) by {
      if all.res.Ok? {
        assert [] + all.res.value == all.res.value;
      }
    }
    while left > 0
      invariant buf.Valid() && all == PushAll(c, DecodeAll(e, left, buf.Contents()))
    {
      var x := BitvTo(buf, e);
      if x.Err? {
        return Err(x.error);
      }
      PushOne(c, x.value, DecodeAll(e, left - 1, buf.Contents()));
      c := c + [x.value];
      left := left - 1;
    }
    assert c + [] == c;
    return Ok(c);
  }

  lemma PushOne(c: seq<Value>, x: Value, o: Out<seq<Value>>)
    ensures PushAll(c, Push(x, o)) == PushAll(c + [x], o)
  {
    if o.res.Ok? {
      AppendAssoc(c, [x], o.res.value);
    }
  }

  /** SerializeIn over an argument list: the first argument, then everything behind it. */
  method SerializeIn(buf: DcQueue, fs: seq<Schema>) returns (r: Result<seq<Value>, Error>)
    requires buf.Valid()
    modifies buf
    ensures buf.Valid() && Out(r, buf.Contents()) == DecodeFields(fs, old(buf.Contents()))
    decreases fs, 1
  {
    if fs == [] {
      return Ok([]);
    }
    var x := BitvTo(buf, fs[0]);
    if x.Err? {
      return Err(x.error);
    }
    var xs := SerializeIn(buf, fs[1..]);
    return if xs.Ok? then Ok([x.value] + xs.value) else Err(xs.error);
  }

  /** End to end: what ToBitv puts in front of other data, cut into memory nodes in any way, BitvTo takes
      out again as the same or a wider type, leaving exactly the other data. */
  method SendAndReceive(s: Schema, w: Schema, v: Value, rest: Bytes, cuts: seq<Bytes>)
    returns (r: Result<Value, Error>, left: Bytes)
    requires WellTyped(s, v) && Widens(s, w) && Flatten(cuts) == Encode(s, v) + rest
    ensures r == Ok(v) && left == rest
  {
    var rbuf := new RevBuffer();
    rbuf.Put(rest);
    AppendNothing(rest);
    ToBitv(rbuf, s, v);
    assert rbuf.data == Flatten(cuts);
    var buf := new DcQueue(cuts);
    RoundTrip(s, w, v, rest);
    r := BitvTo(buf, w);
    left := buf.Contents();
  }
}
