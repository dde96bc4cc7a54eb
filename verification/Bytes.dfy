/** Bytes, and the big-endian numbers that Endian.hpp packs into them. */
module Bytes {

  type Byte = b: int | 0 <= b < 256
  type Bytes = seq<Byte>

  function Pow256(n: nat): (p: nat)
    ensures p > 0
  {
    if n == 0 then 1 else 256 * Pow256(n - 1)
  }

  /** The value of a big-endian number: GetPackedBigEndian with a wide enough result. */
  function FromBigEndian(bs: Bytes): nat {
    if bs == [] then 0 else 256 * FromBigEndian(bs[..|bs| - 1]) + bs[|bs| - 1]
  }

  /** The fewest big-endian bytes, at least one, that hold v: PackBigEndianRev. */
  function BigEndian(v: nat): (bs: Bytes)
    ensures bs != []
  {
    if v < 256 then [v] else BigEndian(v / 256) + [v % 256]
  }

  lemma {:induction false} BigEndianRoundTrip(v: nat)
    ensures FromBigEndian(BigEndian(v)) == v
  {
    if v >= 256 {
      BigEndianRoundTrip(v / 256);
      assert BigEndian(v)[..|BigEndian(v)| - 1] == BigEndian(v / 256);
    } else {
      assert BigEndian(v)[..0] == [];
      assert FromBigEndian([]) == 0;
    }
  }

  lemma {:induction false} FromBigEndianBound(bs: Bytes)
    ensures FromBigEndian(bs) < Pow256(|bs|)
  {
    if bs != [] {
      FromBigEndianBound(bs[..|bs| - 1]);
    }
  }

  lemma {:induction false} FromBigEndianAppend(a: Bytes, b: Bytes)
    ensures FromBigEndian(a + b) == FromBigEndian(a) * Pow256(|b|) + FromBigEndian(b)
  {
    if b == [] {
      assert a + b == a;
    } else {
      var b' := b[..|b| - 1];
      FromBigEndianAppend(a, b');
      assert (a + b)[..|a + b| - 1] == a + b';
      MulAssoc(FromBigEndian(a), Pow256(|b'|));
    }
  }

  lemma MulAssoc(x: nat, p: nat)
    ensures 256 * (x * p) == x * (256 * p)
  {
  }

  lemma FromBigEndianOne(b: Byte)
    ensures FromBigEndian([b]) == b
  {
    assert [b][..0] == [];
    assert FromBigEndian([]) == 0;
  }

  /** The first byte counts for itself times the weight of its place. */
  lemma FromBigEndianHead(h: Byte, t: Bytes)
    ensures FromBigEndian([h] + t) == h * Pow256(|t|) + FromBigEndian(t)
  {
    FromBigEndianAppend([h], t);
    FromBigEndianOne(h);
  }

  /** n bytes are enough exactly when the value is below 256 to the n. */
  lemma {:induction false} BigEndianLength(v: nat, n: nat)
    requires n > 0
    ensures |BigEndian(v)| <= n <==> v < Pow256(n)
  {
    if v < 256 {
      PowMonotone(1, n);
    } else if n == 1 {
      assert Pow256(1) == 256;
    } else {
      BigEndianLength(v / 256, n - 1);
    }
  }

  lemma {:induction false} PowMonotone(m: nat, n: nat)
    requires m <= n
    ensures Pow256(m) <= Pow256(n)
  {
    if m < n {
      PowMonotone(m, n - 1);
    }
  }

  /** No leading zero byte, except for the number 0 itself. */
  lemma {:induction false} BigEndianHead(v: nat)
    ensures BigEndian(v)[0] == 0 ==> v == 0 && BigEndian(v) == [0]
  {
    if v >= 256 {
      BigEndianHead(v / 256);
    }
  }

  lemma Pow256Values()
    ensures Pow256(1) == 0x100 && Pow256(2) == 0x1_0000
    ensures Pow256(4) == 0x1_0000_0000 && Pow256(8) == 0x1_0000_0000_0000_0000
  {
    assert Pow256(2) == 256 * Pow256(1);
    assert Pow256(3) == 256 * Pow256(2);
    assert Pow256(4) == 256 * Pow256(3);
    assert Pow256(5) == 256 * Pow256(4);
    assert Pow256(6) == 256 * Pow256(5);
    assert Pow256(7) == 256 * Pow256(6);
    assert Pow256(8) == 256 * Pow256(7);
  }

  // ---- Fixed lengths ----

  /** Exactly n big-endian bytes: ToBitvFixedRev, PutBigEndian. */
  function FixedBigEndian(v: nat, n: nat): (bs: Bytes)
    ensures |bs| == n
  {
    if n == 0 then [] else FixedBigEndian(v / 256, n - 1) + [v % 256]
  }

  lemma {:induction false} FixedRoundTrip(v: nat, n: nat)
    ensures FromBigEndian(FixedBigEndian(v, n)) == v <==> v < Pow256(n)
  {
    var bs := FixedBigEndian(v, n);
    FromBigEndianBound(bs);
    if n > 0 && v < Pow256(n) {
      FixedRoundTrip(v / 256, n - 1);
      assert bs[..|bs| - 1] == FixedBigEndian(v / 256, n - 1);
    }
  }

  // ---- C integer types ----

  /** An integer type of the C program: 1, 2, 4 or 8 bytes wide. */
  datatype IntType = IntType(signed: bool, width: nat) {
    predicate Valid() { width in {1, 2, 4, 8} }
    function Modulus(): nat { Pow256(width) }
    function Min(): int { if signed then -(Modulus() / 2) else 0 }
    function Max(): int { if signed then Modulus() / 2 - 1 else Modulus() - 1 }
    predicate Has(x: int) { Min() <= x <= Max() }

    /** Conversion to the type: the value of the type that is equal to x modulo its size. */
    function Wrap(x: int): (r: int) {
      var u := x % Modulus();
      if u <= Max() then u else u - Modulus()
    }
  }

  /** The widths C has. */
  type CInt = t: IntType | t.Valid() witness IntType(true, 8)

  const INT64 := IntType(true, 8)
  const UINT64 := IntType(false, 8)
  const UINT32 := IntType(false, 4)

  lemma ModulusEven(t: IntType)
    requires t.Valid()
    ensures t.Modulus() == 2 * (t.Modulus() / 2) && t.Modulus() >= 256
    ensures t.Max() - t.Min() + 1 == t.Modulus() && t.Min() <= 0 < t.Max()
  {
    Pow256Values();
  }

  lemma WrapInRange(t: IntType, x: int)
    requires t.Valid()
    ensures t.Has(t.Wrap(x))
    ensures t.Has(x) ==> t.Wrap(x) == x
  {
    ModulusEven(t);
    if t.Has(x) {
      var m := t.Modulus();
      if x < 0 {
        ModUnique(x, m, -1, x + m);
      } else {
        ModUnique(x, m, 0, x);
      }
    }
  }

  lemma ModUnique(x: int, m: nat, q: int, r: int)
    requires m > 0 && 0 <= r < m && x == q * m + r
    ensures x % m == r
  {
    var q', r' := x / m, x % m;
    var d := q - q';
    assert x == q' * m + r' by { DivMod(x, m); }
    assert d * m == r' - r by { Distribute(q, q', m); }
    if d > 0 {
      MulAtLeast(d, m);
    } else if d < 0 {
      MulAtLeast(-d, m);
    }
  }

  lemma DivMod(x: int, m: nat)
    requires m > 0
    ensures x == (x / m) * m + x % m
  {
  }

  lemma Distribute(a: int, b: int, m: int)
    ensures (a - b) * m == a * m - b * m
  {
  }

  lemma MulAtLeast(d: int, m: nat)
    requires d > 0
    ensures d * m >= m
  {
  }
}
