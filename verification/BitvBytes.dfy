/**
 Byte arrays in Bitv: a length below 129 is its own tag byte; a longer one is stored less 129 in one
 to four bytes, and when its leading byte would be 1 that bit is moved into the tag.
*/
module BitvBytes {
  import opened Wrappers
  import opened Bytes
  import opened BitvNumber

  const MAX_BYTE_ARRAY := 0xffff_fffa

  /** ByteArraySizeToBitvT_AboveX80, for the packed length. */
  function LongHeader(be: Bytes): (h: Bytes)
    requires 1 <= |be| <= 4
    ensures 1 <= |h| <= 5
  {
    if |be| > 1 && be[0] == 1 then [1 + BYTE_ARRAY + (|be| - 2) * 2] + be[1..]
    else [BYTE_ARRAY + (|be| - 1) * 2] + be
  }

  /** ByteArraySizeToBitvT. */
  function EncodeSize(n: nat): (h: Bytes)
    requires n <= MAX_BYTE_ARRAY
    ensures 1 <= |h| <= 5
  {
    if n == 0 then [BYTE_ARRAY_EMPTY]
    else if n <= 0x80 then [n - 1]
    else
      Pow256Values(); BigEndianLength(n - 129, 4);
      LongHeader(BigEndian(n - 129))
  }

  /** ByteArrayToBitv. */
  function EncodeBytes(bs: Bytes): Bytes
    requires |bs| <= MAX_BYTE_ARRAY
  {
    EncodeSize(|bs|) + bs
  }

  datatype Peek = NeedsMoreHead | NeedsMoreData(size: nat) | Ready(header: nat, size: nat) | BadType

  /** How many bytes hold the length, and whether the tag holds its top bit. */
  function SizeWidth(tag: Byte): nat { tag / 2 % 4 + 1 }

  function TopBit(tag: Byte): nat { if tag % 2 == 1 then Pow256(SizeWidth(tag)) else 0 }

  predicate IsLongTag(tag: Byte) { tag - tag % 8 == BYTE_ARRAY }

  /** PeekBitvByteArraySize: when it says Ready, the header and all the data are in the buffer. */
  function PeekSize(buf: Bytes): (p: Peek)
    ensures p.Ready? ==> 1 <= p.header && p.header + p.size <= |buf|
    ensures p.NeedsMoreData? ==> p.size > 0
  {
    if buf == [] then NeedsMoreHead
    else if buf[0] < 0x80 then
      if |buf| < buf[0] + 2 then NeedsMoreData(buf[0] + 1) else Ready(1, buf[0] + 1)
    else if buf[0] == BYTE_ARRAY_EMPTY then Ready(1, 0)
    else if !IsLongTag(buf[0]) then BadType
    else
      var n := SizeWidth(buf[0]);
      if |buf| < n + 1 then NeedsMoreHead
      else
        var size := FromBigEndian(buf[1..n + 1]) + TopBit(buf[0]) + 129;
        if |buf| < size + n + 1 then NeedsMoreData(size) else Ready(n + 1, size)
  }

  /** PopBitvByteArraySize: whether the whole array is there, and its length; on false the length is
      the true one or, when not even the header is there, 0. */
  function PopSize(buf: Bytes): (out: Out<(bool, nat)>)
    ensures out.res.Ok? && out.res.value.0 ==> out.res.value.1 <= |out.rest| < |buf|
    ensures !(out.res.Ok? && out.res.value.0) ==> out.rest == buf
  {
    match PeekSize(buf)
    case BadType => Out(Err(TypeNotMatch), buf)
    case NeedsMoreHead => Out(Ok((false, 0)), buf)
    case NeedsMoreData(size) => Out(Ok((false, size)), buf)
    case Ready(header, size) => Out(Ok((true, size)), buf[header..])
  }

  lemma SizeTagParts(low: nat, n: nat)
    requires low < 2 && 1 <= n <= 4
    ensures var h := low + BYTE_ARRAY + (n - 1) * 2;
            0x80 <= h < 0x88 && IsLongTag(h) && SizeWidth(h) == n && TopBit(h) == (if low == 1 then Pow256(n) else 0)
  {
  }

  /** A long header: a tag that says how many bytes follow, and together they spell the length. */
  lemma LongHeaderShape(be: Bytes) returns (h: Byte, body: Bytes)
    requires 1 <= |be| <= 4
    ensures LongHeader(be) == [h] + body && 0x80 <= h < 0x88 && IsLongTag(h) && SizeWidth(h) == |body|
    ensures FromBigEndian(body) + TopBit(h) == FromBigEndian(be)
  {
    if |be| > 1 && be[0] == 1 {
      SizeTagParts(1, |be| - 1);
      h, body := 1 + BYTE_ARRAY + (|be| - 2) * 2, be[1..];
      assert be == [1] + body;
      FromBigEndianHead(1, body);
    } else {
      SizeTagParts(0, |be|);
      h, body := BYTE_ARRAY + (|be| - 1) * 2, be;
    }
  }

  lemma SizeShape(n: nat) returns (h: Byte, body: Bytes)
    requires 0x80 < n <= MAX_BYTE_ARRAY
    ensures EncodeSize(n) == [h] + body && 0x80 <= h < 0x88 && IsLongTag(h) && SizeWidth(h) == |body|
    ensures FromBigEndian(body) + TopBit(h) + 129 == n
  {
    Pow256Values();
    BigEndianLength(n - 129, 4);
    BigEndianRoundTrip(n - 129);
    h, body := LongHeaderShape(BigEndian(n - 129));
  }

  lemma PeekLong(h: Byte, body: Bytes, data: Bytes)
    requires 0x80 <= h < 0x88 && IsLongTag(h) && SizeWidth(h) == |body|
    ensures var size := FromBigEndian(body) + TopBit(h) + 129;
            PeekSize([h] + body + data) ==
            if |data| < size then NeedsMoreData(size) else Ready(|body| + 1, size)
  {
    SliceOfAppend([h], body, data);
  }

  /** The reader sees the header's own length and the length it stands for as soon as the header is
      there, and counts the data it still waits for exactly. */
  lemma PeekSeesSize(n: nat, data: Bytes)
    requires n <= MAX_BYTE_ARRAY
    ensures PeekSize(EncodeSize(n) + data) ==
            if |data| < n then NeedsMoreData(n) else Ready(|EncodeSize(n)|, n)
  {
    if n > 0x80 {
      var h, body := SizeShape(n);
      PeekLong(h, body, data);
    } else if n > 0 {
      assert (EncodeSize(n) + data)[0] == n - 1;
    }
  }

  /** With part of the header missing the reader asks for the header. */
  lemma PeekPartialHeader(n: nat, k: nat)
    requires n <= MAX_BYTE_ARRAY && k < |EncodeSize(n)|
    ensures PeekSize(EncodeSize(n)[..k]) == NeedsMoreHead
  {
    if k > 0 {
      var h, body := SizeShape(n);
    }
  }

  /** Incremental reading: on any strict prefix of an encoded array PopBitvByteArraySize returns false,
      leaves the buffer alone, and reports 0 or the true length; on the whole it takes the header. */
  lemma PopSizeIncremental(bs: Bytes, k: nat)
    requires |bs| <= MAX_BYTE_ARRAY && k <= |EncodeBytes(bs)|
    ensures var enc := EncodeBytes(bs);
            PopSize(enc[..k]) ==
            if k < |enc| then Out(Ok((false, if k < |EncodeSize(|bs|)| then 0 else |bs|)), enc[..k])
            else Out(Ok((true, |bs|)), bs)
  {
    var enc, h := EncodeBytes(bs), EncodeSize(|bs|);
    if k < |h| {
      PeekPartialHeader(|bs|, k);
      assert enc[..k] == h[..k];
    } else {
      assert enc[..k] == h + bs[..k - |h|];
      PeekSeesSize(|bs|, bs[..k - |h|]);
      assert bs[..|bs|] == bs;
    }
  }

  /** BitvToStrAppend: the bytes of an array of any length. */
  function DecodeBytes(buf: Bytes): Out<Bytes> {
    var p := PopSize(buf);
    match p.res
    case Err(e) => Out(Err(e), p.rest)
    case Ok((ready, size)) =>
      if !ready then Out(Err(NeedsMore), p.rest)
      else Out(Ok(p.rest[..size]), p.rest[size..])
  }

  function Zeros(n: nat): (z: Bytes)
    ensures |z| == n && forall i :: 0 <= i < n ==> z[i] == 0
  {
    seq(n, i => 0)
  }

  /** BitvToByteArray into n bytes: a shorter array is filled up with zeros, a longer one refused after
      its header has been taken. */
  function DecodeFixedBytes(n: nat, buf: Bytes): Out<Bytes> {
    var p := PopSize(buf);
    match p.res
    case Err(e) => Out(Err(e), p.rest)
    case Ok((ready, size)) =>
      if !ready then Out(Err(NeedsMore), p.rest)
      else if n < size then Out(Err(OutOfRange), p.rest)
      else Out(Ok(p.rest[..size] + Zeros(n - size)), p.rest[size..])
  }

  lemma PopWhole(bs: Bytes, rest: Bytes)
    requires |bs| <= MAX_BYTE_ARRAY
    ensures PopSize(EncodeBytes(bs) + rest) == Out(Ok((true, |bs|)), bs + rest)
  {
    var h := EncodeSize(|bs|);
    assert EncodeBytes(bs) + rest == h + (bs + rest);
    PeekSeesSize(|bs|, bs + rest);
  }

  lemma BytesRoundTrip(bs: Bytes, rest: Bytes)
    requires |bs| <= MAX_BYTE_ARRAY
    ensures DecodeBytes(EncodeBytes(bs) + rest) == Out(Ok(bs), rest)
  {
    PopWhole(bs, rest);
    assert (bs + rest)[..|bs|] == bs && (bs + rest)[|bs|..] == rest;
  }

  /** Into n bytes: all of them and zeros behind, exactly when they fit. */
  lemma FixedBytesRoundTrip(bs: Bytes, n: nat, rest: Bytes)
    requires |bs| <= MAX_BYTE_ARRAY
    ensures DecodeFixedBytes(n, EncodeBytes(bs) + rest) ==
            if |bs| <= n then Out(Ok(bs + Zeros(n - |bs|)), rest) else Out(Err(OutOfRange), bs + rest)
  {
    PopWhole(bs, rest);
    assert (bs + rest)[..|bs|] == bs && (bs + rest)[|bs|..] == rest;
  }

  // ---- One char, one bool ----

  function EncodeChar(c: Byte): Bytes {
    if c == 0 then [CHAR_0] else [0, c]
  }

  function DecodeChar(buf: Bytes): Out<Byte> {
    if buf == [] then Out(Err(NeedsMore), buf)
    else if buf[0] == CHAR_0 then Out(Ok(0), buf[1..])
    else if buf[0] != 0 then Out(Err(TypeNotMatch), buf)
    else if |buf| < 2 then Out(Err(NeedsMore), buf)
    else Out(Ok(buf[1]), buf[2..])
  }

  function EncodeBool(b: bool): Bytes {
    [if b then BOOL_TRUE else BOOL_FALSE]
  }

  function DecodeBool(buf: Bytes): Out<bool> {
    if buf == [] then Out(Err(NeedsMore), buf)
    else if buf[0] == BOOL_TRUE then Out(Ok(true), buf[1..])
    else if buf[0] == BOOL_FALSE then Out(Ok(false), buf[1..])
    else Out(Err(TypeNotMatch), buf)
  }

  lemma CharRoundTrip(c: Byte, rest: Bytes)
    ensures DecodeChar(EncodeChar(c) + rest) == Out(Ok(c), rest)
  {
    assert (EncodeChar(c) + rest)[|EncodeChar(c)|..] == rest;
  }

  lemma BoolRoundTrip(b: bool, rest: Bytes)
    ensures DecodeBool(EncodeBool(b) + rest) == Out(Ok(b), rest)
  {
    assert (EncodeBool(b) + rest)[1..] == rest;
  }
}
