/**
 Base64 (section 4 of RFC 4648) as the library encodes and decodes it: into a caller's buffer, with
 white space allowed anywhere in what is decoded. Shifts and masks are written as divisions and
 remainders by powers of two.
*/
module Base64 {
  import opened Wrappers
  import opened Bytes

  datatype Error = BadMessage | NoBuffer

  type Sextet = v: int | 0 <= v < 64

  const PAD: Byte := 61
  const INVALID := 127
  const U32 := 0x1_0000_0000

  /** chB64Enc. */
  function Digit(v: Sextet): Byte {
    if v < 26 then 65 + v else if v < 52 then 97 + (v - 26) else if v < 62 then 48 + (v - 52)
    else if v == 62 then 43 else 47
  }

  /** chB64Dec: 64 for the pad, INVALID for anything that is not a digit. */
  function Value(b: Byte): nat {
    if 65 <= b <= 90 then b - 65 else if 97 <= b <= 122 then b - 97 + 26 else if 48 <= b <= 57 then b - 48 + 52
    else if b == 43 then 62 else if b == 47 then 63 else if b == PAD then 64 else INVALID
  }

  predicate IsSpace(b: Byte) { b == 32 || 9 <= b <= 13 }

  // ---- Encoding ----

  function EncodeLength(n: nat): nat { (n / 3 + if n % 3 != 0 then 1 else 0) * 4 }

  function Code(vs: seq<Sextet>): (s: Bytes)
    ensures |s| == |vs|
  {
    if vs == [] then [] else [Digit(vs[0])] + Code(vs[1..])
  }

  /** Three bytes as four sextets. */
  function Parts(c1: Byte, c2: Byte, c3: Byte): (vs: seq<Sextet>)
    ensures |vs| == 4
  {
    [c1 / 4, c1 % 4 * 16 + c2 / 16, c2 % 16 * 4 + c3 / 64, c3 % 64]
  }

  /** Whole groups of three bytes. */
  function Full(src: Bytes): (s: Bytes)
    requires |src| % 3 == 0
    ensures |s| % 4 == 0
  {
    var n := |src|;
    if n == 0 then [] else Full(src[..n - 3]) + Code(Parts(src[n - 3], src[n - 2], src[n - 1]))
  }

  function Tail(src: Bytes): (s: Bytes)
    requires |src| < 3
    ensures |s| == if src == [] then 0 else 4
  {
    if |src| == 0 then [] else if |src| == 1 then Code(Parts(src[0], 0, 0)[..2]) + [PAD, PAD]
    else Code(Parts(src[0], src[1], 0)[..3]) + [PAD]
  }

  function Encode(src: Bytes): Bytes {
    var n := |src| - |src| % 3;
    Full(src[..n]) + Tail(src[n..])
  }

  lemma {:induction false} FullSize(src: Bytes, k: nat)
    requires |src| == 3 * k
    ensures |Full(src)| == 4 * k
  {
    if k > 0 { FullSize(src[..3 * (k - 1)], k - 1); }
  }

  lemma EncodeSize(src: Bytes)
    ensures |Encode(src)| == EncodeLength(|src|)
  {
    FullSize(src[..|src| - |src| % 3], |src| / 3);
  }

  lemma {:induction false} CodeAt(vs: seq<Sextet>, i: nat)
    requires i < |vs|
    ensures Code(vs)[i] == Digit(vs[i])
  {
    if i > 0 { CodeAt(vs[1..], i - 1); }
  }

  lemma FullGrows(src: Bytes, i: nat)
    requires i % 3 == 0 && i + 3 <= |src|
    ensures Full(src[..i + 3]) == Full(src[..i]) + Code(Parts(src[i], src[i + 1], src[i + 2]))
  {
    assert src[..i + 3][..i] == src[..i];
  }

  lemma CodeOf(a: Sextet, vs: seq<Sextet>)
    ensures Code([a] + vs) == [Digit(a)] + Code(vs)
  {
    assert ([a] + vs)[1..] == vs;
  }

  lemma Code4(a: Sextet, b: Sextet, c: Sextet, d: Sextet)
    ensures Code([a, b, c, d]) == [Digit(a), Digit(b), Digit(c), Digit(d)]
    ensures Code([a, b, c]) == [Digit(a), Digit(b), Digit(c)] && Code([a, b]) == [Digit(a), Digit(b)]
  {
    assert [a, b, c, d] == [a] + ([b] + ([c] + ([d] + [])));
    assert [a, b, c] == [a] + ([b] + ([c] + [])) && [a, b] == [a] + ([b] + []);
    CodeOf(d, []); CodeOf(c, [d]); CodeOf(b, [c, d]); CodeOf(a, [b, c, d]);
    CodeOf(c, []); CodeOf(b, [c]); CodeOf(a, [b, c]);
    CodeOf(b, []); CodeOf(a, [b]);
  }

  method Put4(dst: array<Byte>, o: nat, a: Byte, b: Byte, c: Byte, d: Byte)
    requires o + 4 <= dst.Length
    modifies dst
    ensures dst[..o + 4] == old(dst[..o]) + [a, b, c, d]
    ensures dst[o + 4..] == old(dst[o + 4..])
  {
    dst[o], dst[o + 1], dst[o + 2], dst[o + 3] := a, b, c, d;
  }

  method PutGroup(dst: array<Byte>, o: nat, c1: Byte, c2: Byte, c3: Byte)
    requires o + 4 <= dst.Length
    modifies dst
    ensures dst[..o + 4] == old(dst[..o]) + Code(Parts(c1, c2, c3))
    ensures dst[o + 4..] == old(dst[o + 4..])
  {
    Put4(dst, o, Digit(c1 / 4), Digit(c1 % 4 * 16 + c2 / 16), Digit(c2 % 16 * 4 + c3 / 64), Digit(c3 % 64));
    Code4(c1 / 4, c1 % 4 * 16 + c2 / 16, c2 % 16 * 4 + c3 / 64, c3 % 64);
  }

  lemma Plus3(i: nat)
    requires i % 3 == 0
    ensures (i + 3) % 3 == 0
  {
  }

  lemma Within3(i: nat, n: nat)
    requires i % 3 == 0 && n % 3 == 0 && i < n
    ensures i + 3 <= n
  {
  }

  method EncodeGroups(dst: array<Byte>, src: Bytes, n3: nat) returns (o: nat)
    requires n3 % 3 == 0 && n3 <= |src| && 4 * n3 <= 3 * dst.Length
    modifies dst
    ensures 3 * o == 4 * n3 && dst[..o] == Full(src[..n3]) && dst[o..] == old(dst[o..])
  {
    var i := 0;
    o := 0;
    while i < n3
      invariant i <= n3 && i % 3 == 0 && 3 * o == 4 * i
      invariant dst[..o] == Full(src[..i])
      invariant dst[o..] == old(dst[o..])
    {
      Plus3(i);
      Within3(i, n3);
      ghost var mid := dst[o..];
      PutGroup(dst, o, src[i], src[i + 1], src[i + 2]);
      FullGrows(src, i);
      assert mid[4..] == old(dst[o + 4..]);
      i, o := i + 3, o + 4;
    }
  }

  method EncodeTail(dst: array<Byte>, o: nat, src: Bytes)
    requires |src| < 3 && o + |Tail(src)| <= dst.Length
    modifies dst
    ensures dst[..o + |Tail(src)|] == old(dst[..o]) + Tail(src)
    ensures dst[o + |Tail(src)|..] == old(dst[o + |Tail(src)|..])
  {
    if 0 < |src| {
      var c1 := src[0];
      if 1 < |src| {
        var c2 := src[1];
        Put4(dst, o, Digit(c1 / 4), Digit(c1 % 4 * 16 + c2 / 16), Digit(c2 % 16 * 4), PAD);
        Code4(c1 / 4, c1 % 4 * 16 + c2 / 16, c2 % 16 * 4, 0);
        assert Parts(c1, c2, 0)[..3] == [c1 / 4, c1 % 4 * 16 + c2 / 16, c2 % 16 * 4];
      } else {
        Put4(dst, o, Digit(c1 / 4), Digit(c1 % 4 * 16), PAD, PAD);
        Code4(c1 / 4, c1 % 4 * 16, 0, 0);
        assert Parts(c1, 0, 0)[..2] == [c1 / 4, c1 % 4 * 16];
      }
    }
  }

  lemma DropDrop(s: Bytes, i: nat, j: nat)
    requires i + j <= |s|
    ensures s[i..][j..] == s[i + j..]
  {
  }

  method EncodeAll(dst: array<Byte>, src: Bytes)
    requires |Encode(src)| <= dst.Length
    modifies dst
    ensures dst[..|Encode(src)|] == Encode(src)
    ensures dst[|Encode(src)|..] == old(dst[|Encode(src)|..])
  {
    var n3 := |src| - |src| % 3;
    Thirds(|src|);
    FullSize(src[..n3], |src| / 3);
    var o := EncodeGroups(dst, src, n3);
    ghost var mid, tail := dst[..], |Tail(src[n3..])|;
    assert |Encode(src)| == o + tail;
    EncodeTail(dst, o, src[n3..]);
    assert dst[o + tail..] == mid[o + tail..] == old(dst[o + tail..]) by {
      DropDrop(mid, o, tail);
      DropDrop(old(dst[..]), o, tail);
    }
  }

  lemma Thirds(n: nat)
    ensures n - n % 3 == 3 * (n / 3) && (n - n % 3) % 3 == 0
  {
  }

  method Base64Encode(dst: array<Byte>, src: Bytes) returns (r: Result<nat, Error>)
    modifies dst
    ensures r.Ok? <==> EncodeLength(|src|) <= dst.Length
    ensures r.Err? ==> r.error == NoBuffer && dst[..] == old(dst[..])
    ensures r.Ok? ==>
              && r.value == EncodeLength(|src|) && dst[..r.value] == Encode(src)
              && (r.value < dst.Length ==> dst[r.value] == 0 && dst[r.value + 1..] == old(dst[r.value + 1..]))
  {
    var size := |src|;
    if size == 0 {
      EncodeSize(src);
      if dst.Length > 0 { dst[0] := 0; }
      return Ok(0);
    }
    var need := EncodeLength(size);
    if dst.Length < need { return Err(NoBuffer); }
    EncodeSize(src);
    EncodeAll(dst, src);
    if dst.Length > need { dst[need] := 0; }
    return Ok(need);
  }

  // ---- Decoding ----

  /** `tails` is 3 less the pads seen; `value` is never reset, so it holds what its 32 bits can. */
  datatype Progress = Progress(tails: nat, value: nat, count: nat, out: Bytes)

  const AT_START := Progress(3, 0, 0, [])

  /** The bytes that a group of four makes of the accumulator. */
  function Made(value: nat, tails: nat): (bs: Bytes)
    ensures |bs| == if tails < 3 then tails else 3
  {
    var all: Bytes := [value / 0x10000 % 256, value / 0x100 % 256, value % 256];
    all[..if tails < 3 then tails else 3]
  }

  /** Behind a digit or a pad: every fourth one completes a group. */
  function Push(p: Progress, cap: nat): Result<Progress, Error> {
    if p.count + 1 != 4 then Ok(p.(count := p.count + 1))
    else if |p.out| + p.tails > cap then Err(NoBuffer)
    else Ok(p.(count := 0, out := p.out + Made(p.value, p.tails)))
  }

  function Step(p: Progress, b: Byte, cap: nat): Result<Progress, Error> {
    if IsSpace(b) then Ok(p)
    else
      var v := Value(b);
      if v == INVALID then Err(BadMessage)
      else if v < 64 then
        if p.tails != 3 then Err(BadMessage) else Push(p.(value := p.value * 64 % U32 + v), cap)
      else if p.tails <= 1 then Err(BadMessage)
      else Push(p.(tails := p.tails - 1, value := p.value * 64 % U32), cap)
  }

  function Scan(src: Bytes, cap: nat): Result<Progress, Error> {
    if src == [] then Ok(AT_START)
    else match Scan(src[..|src| - 1], cap)
      case Err(e) => Err(e)
      case Ok(p) => Step(p, src[|src| - 1], cap)
  }

  function Decode(src: Bytes, cap: nat): Result<Bytes, Error> {
    match Scan(src, cap)
    case Err(e) => Err(e)
    case Ok(p) => if p.count != 0 then Err(BadMessage) else Ok(p.out)
  }

  lemma {:induction false} ErrorsStay(src: Bytes, i: nat, cap: nat)
    requires i <= |src| && Scan(src[..i], cap).Err?
    ensures Scan(src, cap) == Scan(src[..i], cap)
  {
    if i == |src| {
      assert src[..i] == src;
    } else {
      assert src[..|src| - 1][..i] == src[..i];
      ErrorsStay(src[..|src| - 1], i, cap);
    }
  }

  method PutMade(dst: array<Byte>, o: nat, value: nat, tails: nat)
    requires o + tails <= dst.Length && tails <= 3
    modifies dst
    ensures dst[..o + tails] == old(dst[..o]) + Made(value, tails)
    ensures dst[o + tails..] == old(dst[o + tails..])
  {
    if tails > 0 { dst[o] := value / 0x10000 % 256; }
    if tails > 1 { dst[o + 1] := value / 0x100 % 256; }
    if tails > 2 { dst[o + 2] := value % 256; }
  }

  /** One turn of the loop, for a character that is not white space: the new tails, value, count and end. */
  method DecodeChar(dst: array<Byte>, b: Byte, tails: nat, value: nat, count: nat, o: nat)
      returns (r: Result<(nat, nat, nat, nat), Error>)
    requires !IsSpace(b) && tails <= 3 && o <= dst.Length
    modifies dst
    ensures match Step(Progress(tails, value, count, old(dst[..o])), b, dst.Length)
            case Err(e) => r == Err(e) && dst[..] == old(dst[..])
            case Ok(p) => r.Ok? && var (tails', value', count', o') := r.value;
                          && tails' <= 3 && o <= o' <= dst.Length && p == Progress(tails', value', count', dst[..o'])
                          && dst[o'..] == old(dst[o'..])
  {
    var v, tails', value' := Value(b), tails, 0;
    if v == INVALID { return Err(BadMessage); }
    if v < 64 {
      if tails != 3 { return Err(BadMessage); }
      value' := value * 64 % U32 + v;
    } else {
      if tails <= 1 { return Err(BadMessage); }
      tails' := tails - 1;
      value' := value * 64 % U32;
    }
    if count + 1 != 4 { return Ok((tails', value', count + 1, o)); }
    if o + tails' > dst.Length { return Err(NoBuffer); }
    PutMade(dst, o, value', tails');
    return Ok((tails', value', 0, o + tails'));
  }

  method Base64Decode(dst: array<Byte>, src: Bytes) returns (r: Result<nat, Error>)
    modifies dst
    ensures match Decode(src, dst.Length)
            case Err(e) => r == Err(e)
            case Ok(out) => r == Ok(|out|) && |out| <= dst.Length && dst[..|out|] == out
                            && dst[|out|..] == old(dst[|out|..])
  {
    var tails: nat, value: nat, count: nat, o: nat := 3, 0, 0, 0;
    for i := 0 to |src|
      invariant o <= dst.Length && tails <= 3
      invariant Scan(src[..i], dst.Length) == Ok(Progress(tails, value, count, dst[..o]))
      invariant dst[o..] == old(dst[o..])
    {
      assert src[..i + 1][..i] == src[..i];
      if IsSpace(src[i]) { continue; }
      ghost var mid := dst[..];
      var one := DecodeChar(dst, src[i], tails, value, count, o);
      match one {
        case Err(e) =>
          ErrorsStay(src, i + 1, dst.Length);
          return Err(e);
        case Ok((tails', value', count', o')) =>
          assert dst[o'..] == mid[o'..] == old(dst[o'..]) by { DropDrop(mid, o, o' - o); DropDrop(old(dst[..]), o, o' - o); }
          tails, value, count, o := tails', value', count', o';
      }
    }
    assert src[..|src|] == src;
    if count != 0 { return Err(BadMessage); }
    return Ok(o);
  }

  // ---- The length before decoding ----

  /** The most that a text of n characters can decode to. */
  function DecodeLength(n: nat): nat { 6 * (n / 8) + (6 * (n % 8) + 7) / 8 }

  datatype Counted = Counted(digits: nat, tails: nat)

  function Count(src: Bytes): Option<Counted> {
    if src == [] then Some(Counted(0, 0))
    else match Count(src[..|src| - 1])
      case None => None
      case Some(c) =>
        var b := src[|src| - 1];
        if IsSpace(b) then Some(c)
        else if Value(b) == INVALID then None
        else if Value(b) < 64 then if c.tails != 0 then None else Some(c.(digits := c.digits + 1))
        else if c.tails + 1 > 2 then None
        else Some(Counted(c.digits + 1, c.tails + 1))
  }

  lemma {:induction false} NoneStays(src: Bytes, i: nat)
    requires i <= |src| && Count(src[..i]).None?
    ensures Count(src).None?
  {
    if i == |src| {
      assert src[..i] == src;
    } else {
      assert src[..|src| - 1][..i] == src[..i];
      NoneStays(src[..|src| - 1], i);
    }
  }

  method Base64DecodeLength(src: Bytes) returns (r: Result<int, Error>)
    ensures match Count(src)
            case None => r == Err(BadMessage)
            case Some(c) => r == Ok(DecodeLength(c.digits) - c.tails)
  {
    var digits, tails := 0, 0;
    for i := 0 to |src|
      invariant Count(src[..i]) == Some(Counted(digits, tails))
    {
      assert src[..i + 1][..i] == src[..i];
      var b := src[i];
      if IsSpace(b) { continue; }
      if Value(b) == INVALID {
        NoneStays(src, i + 1);
        return Err(BadMessage);
      }
      if Value(b) < 64 {
        if tails != 0 {
          NoneStays(src, i + 1);
          return Err(BadMessage);
        }
      } else {
        tails := tails + 1;
        if tails > 2 {
          NoneStays(src, i + 1);
          return Err(BadMessage);
        }
      }
      digits := digits + 1;
    }
    assert src[..|src|] == src;
    return Ok(DecodeLength(digits) - tails);
  }
}
