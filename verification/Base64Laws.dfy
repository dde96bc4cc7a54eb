/** What Base64Decode accepts and returns, exactly, and how far it undoes Base64Encode. */
module Base64Laws {
  import opened Wrappers
  import opened Bytes
  import opened Base64

  // ---- A reference reading of a text without white space ----

  /** Tab, line feed, vertical tab, form feed, carriage return and blank. */
  predicate White(b: Byte) { b == 9 || b == 10 || b == 11 || b == 12 || b == 13 || b == 32 }

  /** The text without white space. */
  function Strip(src: Bytes): Bytes {
    if src == [] then []
    else Strip(src[..|src| - 1]) + if White(src[|src| - 1]) then [] else [src[|src| - 1]]
  }

  /** Table 1 of RFC 4648: the capital letters, the small ones, the decimal digits, plus and slash. */
  function TableChar(v: Sextet): char {
    if v < 26 then 'A' + v as char
    else if v < 52 then 'a' + (v - 26) as char
    else if v < 62 then '0' + (v - 52) as char
    else ['+', '/'][v - 62]
  }

  /** A digit is the character at its place in the table, no other character has a value, and '=' pads. */
  lemma DigitsAreTable(v: Sextet, b: Byte)
    ensures Digit(v) == TableChar(v) as int
    ensures Value(b) == v <==> b == TableChar(v) as int
    ensures b == '=' as int <==> Value(b) == 64
    ensures Value(b) <= 64 || Value(b) == INVALID
  {
  }

  /** How many pads the text ends with. */
  function Pads(s: Bytes): (n: nat)
    ensures n <= |s|
  {
    if s == [] || s[|s| - 1] != PAD then 0 else 1 + Pads(s[..|s| - 1])
  }

  ghost predicate NoSpace(s: Bytes) { forall b <- s :: !White(b) }

  ghost predicate Digits(s: Bytes) { forall b <- s :: Value(b) < 64 }

  /** Digits, then at most two pads. */
  ghost predicate Fair(s: Bytes) { Pads(s) <= 2 && Digits(s[..|s| - Pads(s)]) }

  ghost predicate Well(s: Bytes) { Fair(s) && |s| % 4 == 0 }

  function Weight(b: Byte): Sextet { if Value(b) < 64 then Value(b) else 0 }

  /** The number that the text is in base 64, a pad counting 0. */
  function Number(s: Bytes): nat {
    if s == [] then 0 else 64 * Number(s[..|s| - 1]) + Weight(s[|s| - 1])
  }

  /** The bytes of one group. */
  function Last(g: Bytes): Bytes { Made(Number(g), if Pads(g) > 3 then 0 else 3 - Pads(g)) }

  /** Four characters make three bytes, less one for each pad. */
  function Meaning(s: Bytes): Bytes
    requires |s| % 4 == 0
  {
    var n := |s|;
    if n == 0 then []
    else Meaning(s[..n - 4]) + Last(s[n - 4..])
  }

  // ---- Decoding agrees with the reference ----

  lemma ValuesOfPad(b: Byte)
    ensures b == PAD <==> Value(b) == 64
    ensures Value(b) <= 64 || Value(b) == INVALID
    ensures White(b) ==> Value(b) == INVALID
    ensures IsSpace(b) <==> White(b)
  {
  }

  /** One more character on a fair text. */
  lemma AddFair(s: Bytes, b: Byte)
    ensures Pads(s + [b]) == if b == PAD then Pads(s) + 1 else 0
    ensures Fair(s + [b]) <==>
            Fair(s) && ((Value(b) < 64 && Pads(s) == 0) || (b == PAD && Pads(s) < 2))
  {
    AddPads(s, b);
    if b == PAD { AddPadFair(s); } else { AddDigitFair(s, b); }
  }

  lemma AddPads(s: Bytes, b: Byte)
    ensures Pads(s + [b]) == if b == PAD then Pads(s) + 1 else 0
  {
    assert (s + [b])[..|s|] == s;
  }

  lemma AddPadFair(s: Bytes)
    ensures Fair(s + [PAD]) <==> Fair(s) && Pads(s) < 2
  {
    var t := s + [PAD];
    AddPads(s, PAD);
    assert t[..|t| - Pads(t)] == s[..|s| - Pads(s)];
  }

  lemma AddDigitFair(s: Bytes, b: Byte)
    requires b != PAD
    ensures Fair(s + [b]) <==> Fair(s) && Value(b) < 64 && Pads(s) == 0
  {
    var t := s + [b];
    AddPads(s, b);
    assert t[..|t|] == t && s[..|s|] == s && b in t;
    assert forall c <- s :: c in t;
    if Digits(t) {
      assert Digits(s);
      DigitsHaveNoPads(s);
    }
  }

  lemma DigitsHaveNoPads(s: Bytes)
    requires Digits(s)
    ensures Pads(s) == 0
  {
    if s != [] { assert s[|s| - 1] in s; }
  }

  lemma AddNumber(s: Bytes, b: Byte)
    ensures Number(s + [b]) == 64 * Number(s) + Weight(b)
  {
    assert (s + [b])[..|s|] == s;
  }

  lemma ShiftWraps(n: nat, v: Sextet)
    ensures (n % U32) * 64 % U32 + v == (64 * n + v) % U32
  {
    var q, r := n / U32, n % U32;
    DivMod(n, U32);
    assert n == q * U32 + r;
    var q', r' := r / 0x400_0000, r % 0x400_0000;
    assert r == q' * 0x400_0000 + r';
    assert r * 64 == q' * U32 + r' * 64;
    ModUnique(r * 64, U32, q', r' * 64);
    assert 64 * n + v == (64 * q + q') * U32 + (r' * 64 + v);
    ModUnique(64 * n + v, U32, 64 * q + q', r' * 64 + v);
  }

  lemma NumberOf4(s: Bytes, g: Bytes)
    requires |g| == 4
    ensures Number(s + g) == (((Number(s) * 64 + Weight(g[0])) * 64 + Weight(g[1])) * 64 + Weight(g[2])) * 64 + Weight(g[3])
  {
    var a := s + [g[0]];
    var b := a + [g[1]];
    var c := b + [g[2]];
    assert s + g == c + [g[3]];
    AddNumber(s, g[0]); AddNumber(a, g[1]); AddNumber(b, g[2]); AddNumber(c, g[3]);
  }

  lemma NumberAppend4(s: Bytes, g: Bytes)
    requires |g| == 4
    ensures Number(s + g) == Number(s) * 0x100_0000 + Number(g)
    ensures Number(g) < 0x100_0000
  {
    NumberOf4(s, g);
    NumberOf4([], g);
    assert [] + g == g;
  }

  lemma LowBytes(hi: nat, group: nat)
    requires group < 0x100_0000
    ensures (hi * 0x100_0000 + group) / 0x10000 % 256 == group / 0x10000 % 256
    ensures (hi * 0x100_0000 + group) / 0x100 % 256 == group / 0x100 % 256
    ensures (hi * 0x100_0000 + group) % 256 == group % 256
  {
    LowByte(hi, group, 0x10000, 0x100);
    LowByte(hi, group, 0x100, 0x10000);
    LowByte(hi, group, 1, 0x100_0000);
  }

  lemma LowByte(hi: nat, group: nat, d: nat, k: nat)
    requires (d, k) in [(0x10000, 0x100), (0x100, 0x10000), (1, 0x100_0000)]
    ensures (hi * 0x100_0000 + group) / d % 256 == group / d % 256
  {
    assert (hi * 0x100_0000 + group) / d == hi * k + group / d;
  }

  /** What is left of earlier groups in the accumulator is shifted beyond the three bytes that count. */
  lemma OldGroupsDoNotLeak(older: nat, group: nat, tails: nat)
    requires group < 0x100_0000
    ensures Made((older * 0x100_0000 + group) % U32, tails) == Made(group, tails)
  {
    var hi := older % 256;
    assert older * 0x100_0000 + group == (older / 256) * U32 + (hi * 0x100_0000 + group) by { DivMod(older, 256); }
    ModUnique(older * 0x100_0000 + group, U32, older / 256, hi * 0x100_0000 + group);
    LowBytes(hi, group);
  }

  lemma {:induction false} PadsOfEnd(s: Bytes, n: nat)
    requires Pads(s) < n <= |s|
    ensures Pads(s[|s| - n..]) == Pads(s)
  {
    var g := s[|s| - n..];
    assert g[|g| - 1] == s[|s| - 1];
    if s[|s| - 1] == PAD {
      PadsOfEnd(s[..|s| - 1], n - 1);
      assert s[..|s| - 1][|s| - n..] == g[..|g| - 1];
    }
  }

  /** The whole groups of a text. */
  function Groups(s: Bytes): (g: Bytes)
    ensures |g| % 4 == 0
  {
    s[..|s| - |s| % 4]
  }

  function Whole(s: Bytes): Bytes { Meaning(Groups(s)) }

  /** The decoder's state behind a prefix whose characters, white space apart, are `s`. */
  ghost predicate Follows(s: Bytes, p: Progress, cap: nat) {
    && Fair(s) && p.tails == 3 - Pads(s) && p.count == |s| % 4 && p.value == Number(s) % U32
    && p.out == Whole(s) && |p.out| <= cap
  }

  lemma MeaningOfGroup(h: Bytes, g: Bytes)
    requires |h| % 4 == 0 && |g| == 4
    ensures Meaning(h + g) == Meaning(h) + Last(g)
  {
    assert (h + g)[..|h|] == h && (h + g)[|h|..] == g;
  }

  /** The last character of a group: the group, and what is in front of it. */
  lemma Grouped(s: Bytes, b: Byte) returns (h: Bytes, g: Bytes)
    requires |s| % 4 == 3
    ensures |g| == 4 && s + [b] == h + g && Groups(s) == h && Groups(s + [b]) == h + g
  {
    h, g := s[..|s| - 3], s[|s| - 3..] + [b];
    var t := s + [b];
    assert t == h + g && |t| % 4 == 0;
    assert t[..|t|] == t;
  }

  lemma GroupsStay(s: Bytes, b: Byte)
    requires |s| % 4 != 3
    ensures Groups(s + [b]) == Groups(s)
  {
    assert (|s| + 1) % 4 == |s| % 4 + 1;
  }

  lemma WholeGrows(s: Bytes, b: Byte)
    ensures |Whole(s)| <= |Whole(s + [b])|
    ensures |s| % 4 != 3 ==> Whole(s + [b]) == Whole(s)
  {
    if |s| % 4 == 3 {
      var h, g := Grouped(s, b);
      MeaningOfGroup(h, g);
    } else {
      GroupsStay(s, b);
    }
  }

  /** The accumulator makes the bytes of the last group. */
  lemma AccumulatorMakes(h: Bytes, g: Bytes, value: nat, tails: nat)
    requires |g| == 4 && Pads(h + g) <= 2 && tails == 3 - Pads(h + g) && value == Number(h + g) % U32
    ensures Made(value, tails) == Last(g)
  {
    NumberAppend4(h, g);
    OldGroupsDoNotLeak(Number(h), Number(g), tails);
    PadsOfEnd(h + g, 4);
    assert (h + g)[|h|..] == g;
  }

  lemma PushCompletes(s: Bytes, b: Byte, value: nat, tails: nat)
    requires |s| % 4 == 3 && Pads(s + [b]) <= 2 && tails == 3 - Pads(s + [b]) && value == Number(s + [b]) % U32
    ensures Whole(s + [b]) == Whole(s) + Made(value, tails)
  {
    var h, g := Grouped(s, b);
    MeaningOfGroup(h, g);
    AccumulatorMakes(h, g, value, tails);
  }

  lemma Mod4(n: nat)
    ensures (n + 1) % 4 == if n % 4 == 3 then 0 else n % 4 + 1
  {
  }

  lemma PushFollows(s: Bytes, b: Byte, p: Progress, cap: nat)
    requires Fair(s + [b]) && p.tails == 3 - Pads(s + [b]) && p.value == Number(s + [b]) % U32
    requires p.count == |s| % 4 && p.out == Whole(s) && |p.out| <= cap
    ensures match Push(p, cap)
            case Ok(p') => Follows(s + [b], p', cap)
            case Err(e) => e == NoBuffer && |Whole(s + [b])| > cap
  {
    Mod4(|s|);
    if p.count == 3 {
      PushCompletes(s, b, p.value, p.tails);
      var made := Made(p.value, p.tails);
      assert Push(p, cap) == if |p.out| + p.tails > cap then Err(NoBuffer) else Ok(p.(count := 0, out := p.out + made));
    } else {
      GroupsStay(s, b);
    }
  }

  lemma StepFollows(s: Bytes, b: Byte, p: Progress, cap: nat)
    requires Follows(s, p, cap) && !IsSpace(b)
    ensures match Step(p, b, cap)
            case Ok(p') => Follows(s + [b], p', cap)
            case Err(BadMessage) => !Fair(s + [b])
            case Err(NoBuffer) => |Whole(s + [b])| > cap
  {
    ValuesOfPad(b);
    AddFair(s, b);
    AddNumber(s, b);
    ShiftWraps(Number(s), Weight(b));
    if Fair(s + [b]) {
      PushFollows(s, b, p.(tails := 3 - Pads(s + [b]), value := Number(s + [b]) % U32), cap);
    }
  }

  /** What a scan has found agrees with the text it has seen. */
  ghost predicate Agrees(r: Result<Progress, Error>, s: Bytes, cap: nat) {
    match r
    case Ok(p) => Follows(s, p, cap)
    case Err(BadMessage) => !Fair(s)
    case Err(NoBuffer) => |Whole(s)| > cap
  }

  lemma TakenAgrees(r: Result<Progress, Error>, s: Bytes, b: Byte, cap: nat)
    requires Agrees(r, s, cap) && !IsSpace(b)
    ensures Agrees(if r.Ok? then Step(r.value, b, cap) else r, s + [b], cap)
  {
    match r
    case Ok(p) => StepFollows(s, b, p, cap);
    case Err(BadMessage) => AddFair(s, b);
    case Err(NoBuffer) => WholeGrows(s, b);
  }

  lemma {:induction false} ScanFollows(src: Bytes, cap: nat)
    ensures Agrees(Scan(src, cap), Strip(src), cap)
  {
    if src != [] {
      var src', b := src[..|src| - 1], src[|src| - 1];
      ScanFollows(src', cap);
      AppendNothing(Strip(src'));
      ValuesOfPad(b);
      if !White(b) { TakenAgrees(Scan(src', cap), Strip(src'), b, cap); }
    }
  }

  /** Decoding succeeds if and only if what is left without white space is a multiple of four characters,
      digits and then at most two pads, and its bytes fit; and then those are the bytes returned. A text
      that is well formed but too long is told from a bad one. */
  lemma DecodeIff(src: Bytes, cap: nat)
    ensures Decode(src, cap).Ok? <==> Well(Strip(src)) && |Meaning(Strip(src))| <= cap
    ensures Decode(src, cap).Ok? ==> Decode(src, cap).value == Meaning(Strip(src))
    ensures Well(Strip(src)) && |Meaning(Strip(src))| > cap ==> Decode(src, cap) == Err(NoBuffer)
  {
    var r, s := Scan(src, cap), Strip(src);
    ScanFollows(src, cap);
    ScannedMeans(r, s, cap);
  }

  lemma ScannedMeans(r: Result<Progress, Error>, s: Bytes, cap: nat)
    requires Agrees(r, s, cap)
    ensures match r
            case Ok(p) => (Well(s) <==> p.count == 0) && (Well(s) ==> p.out == Meaning(s) && |Meaning(s)| <= cap)
            case Err(BadMessage) => !Well(s)
            case Err(NoBuffer) => Well(s) ==> |Meaning(s)| > cap
  {
    assert s[..|s|] == s;
  }

  // ---- The scanned length ----

  /** The length computed for n characters is the fewest bytes that hold their six bits each. */
  lemma LengthHoldsBits(n: nat)
    ensures 6 * n <= 8 * DecodeLength(n) < 6 * n + 8
  {
    var q, r := n / 8, n % 8;
    assert n == 8 * q + r;
  }

  lemma {:induction false} CountFollows(src: Bytes)
    ensures match Count(src)
            case None => !Fair(Strip(src))
            case Some(c) => Fair(Strip(src)) && c == Counted(|Strip(src)|, Pads(Strip(src)))
  {
    if src != [] {
      var src', b := src[..|src| - 1], src[|src| - 1];
      CountFollows(src');
      ValuesOfPad(b);
      AppendNothing(Strip(src'));
      if !IsSpace(b) { AddFair(Strip(src'), b); }
    }
  }

  lemma {:induction false} MeaningLength(s: Bytes)
    requires Well(s)
    ensures |Meaning(s)| == |s| / 4 * 3 - Pads(s)
  {
    var n := |s|;
    if n > 0 {
      PadsOfEnd(s, 4);
      FrontOfWell(s);
      MeaningLength(s[..n - 4]);
    }
  }

  lemma FrontOfWell(s: Bytes)
    requires Well(s) && s != []
    ensures Well(s[..|s| - 4]) && Pads(s[..|s| - 4]) == 0
  {
    var front := s[..|s| - 4];
    forall b <- front
      ensures Value(b) < 64
    {
      var i :| 0 <= i < |front| && front[i] == b;
      assert s[..|s| - Pads(s)][i] == b;
    }
    DigitsHaveNoPads(front);
    assert front[..|front|] == front;
  }

  /** The scanned length of a text that decodes is the number of bytes it decodes to, so a buffer of that
      size is enough; scanning refuses exactly the texts with a wrong character or a pad too many. */
  lemma ScannedLengthSuffices(src: Bytes)
    ensures Count(src).Some? <==> Fair(Strip(src))
    ensures Well(Strip(src)) ==>
              && Count(src).Some?
              && var c := Count(src).value; var size := DecodeLength(c.digits) - c.tails;
              && size >= 0 && Decode(src, size).Ok? && |Decode(src, size).value| == size
  {
    CountFollows(src);
    if Well(Strip(src)) {
      ScannedSize(Strip(src));
      DecodeIff(src, |Meaning(Strip(src))|);
    }
  }

  lemma ScannedSize(s: Bytes)
    requires Well(s)
    ensures DecodeLength(|s|) - Pads(s) == |Meaning(s)|
  {
    MeaningLength(s);
    LengthOfGroups(|s| / 4);
  }

  lemma LengthOfGroups(k: nat)
    ensures DecodeLength(4 * k) == 3 * k
  {
    if k % 2 == 0 {
      assert 4 * k == 8 * (k / 2);
    } else {
      assert 4 * k == 8 * (k / 2) + 4;
    }
  }

  // ---- Encoding, then decoding ----

  lemma Number4(g: Bytes, w0: Sextet, w1: Sextet, w2: Sextet, w3: Sextet)
    requires |g| == 4 && Weight(g[0]) == w0 && Weight(g[1]) == w1 && Weight(g[2]) == w2 && Weight(g[3]) == w3
    ensures Number(g) == ((w0 * 64 + w1) * 64 + w2) * 64 + w3
  {
    NumberOf4([], g);
    assert [] + g == g;
  }

  lemma Bytes3(a: Byte, b: Byte, c: Byte, tails: nat)
    requires tails <= 3
    ensures Made(a * 0x10000 + b * 0x100 + c, tails) == [a, b, c][..tails]
  {
    var n := a * 0x10000 + b * 0x100 + c;
    assert n / 0x10000 == a && n / 0x100 == a * 256 + b;
  }

  /** The three bytes of four sextets. */
  function Joined(w0: Sextet, w1: Sextet, w2: Sextet, w3: Sextet): (bs: Bytes)
    ensures |bs| == 3
  {
    [w0 * 4 + w1 / 16, w1 % 16 * 16 + w2 / 4, w2 % 4 * 64 + w3]
  }

  lemma MadeIsJoined(w0: Sextet, w1: Sextet, w2: Sextet, w3: Sextet, tails: nat)
    requires tails <= 3
    ensures Made(((w0 * 64 + w1) * 64 + w2) * 64 + w3, tails) == Joined(w0, w1, w2, w3)[..tails]
  {
    var a, b, c := w0 * 4 + w1 / 16, w1 % 16 * 16 + w2 / 4, w2 % 4 * 64 + w3;
    assert w1 == w1 / 16 * 16 + w1 % 16 && w2 == w2 / 4 * 4 + w2 % 4;
    Bytes3(a, b, c, tails);
  }

  /** The bytes of a group, from the weights of its characters. */
  lemma LastIsJoined(g: Bytes, w0: Sextet, w1: Sextet, w2: Sextet, w3: Sextet)
    requires |g| == 4 && Weight(g[0]) == w0 && Weight(g[1]) == w1 && Weight(g[2]) == w2 && Weight(g[3]) == w3
    requires Pads(g) <= 2
    ensures Last(g) == Joined(w0, w1, w2, w3)[..3 - Pads(g)]
  {
    Number4(g, w0, w1, w2, w3);
    MadeIsJoined(w0, w1, w2, w3, 3 - Pads(g));
  }

  lemma JoinedParts(c1: Byte, c2: Byte, c3: Byte)
    ensures var vs := Parts(c1, c2, c3); Joined(vs[0], vs[1], vs[2], vs[3]) == [c1, c2, c3]
  {
    JoinBytes(c1, c2);
    JoinLowBytes(c2, c3);
  }

  lemma JoinBytes(c1: Byte, c2: Byte)
    ensures c1 / 4 * 4 + (c1 % 4 * 16 + c2 / 16) / 16 == c1
    ensures (c1 % 4 * 16 + c2 / 16) % 16 == c2 / 16
  {
  }

  lemma JoinLowBytes(c2: Byte, c3: Byte)
    ensures (c2 / 16) * 16 + (c2 % 16 * 4 + c3 / 64) / 4 == c2
    ensures (c2 % 16 * 4 + c3 / 64) % 4 * 64 + c3 % 64 == c3
  {
  }

  lemma PartsJoined(w0: Sextet, w1: Sextet, w2: Sextet, w3: Sextet)
    ensures var bs := Joined(w0, w1, w2, w3); Parts(bs[0], bs[1], bs[2]) == [w0, w1, w2, w3]
  {
    DivMod(w1, 16);
    DivMod(w2, 4);
    PartsOf(w0, w1 / 16, w1 % 16, w2 / 4, w2 % 4, w3);
  }

  lemma PartsOf(w0: Sextet, a: nat, b: nat, c: nat, d: nat, w3: Sextet)
    requires a < 4 && b < 16 && c < 16 && d < 4
    ensures Parts(w0 * 4 + a, b * 16 + c, d * 64 + w3) == [w0, a * 16 + b, c * 4 + d, w3]
  {
    Parted(w0, a, 4);
    Parted(b, c, 16);
    Parted(d, w3, 64);
  }

  lemma Parted(hi: nat, lo: nat, k: nat)
    requires k in [4, 16, 64] && lo < k
    ensures (hi * k + lo) / k == hi && (hi * k + lo) % k == lo
  {
  }

  lemma ValueOfDigit(v: Sextet)
    ensures Value(Digit(v)) == v && !White(Digit(v))
  {
  }

  lemma DigitOfValue(b: Byte)
    requires Value(b) < 64
    ensures Digit(Value(b)) == b
  {
  }

  lemma {:induction false} CodeReads(vs: seq<Sextet>)
    ensures Digits(Code(vs)) && NoSpace(Code(vs))
    ensures forall i | 0 <= i < |vs| :: Weight(Code(vs)[i]) == vs[i]
  {
    if vs != [] {
      CodeReads(vs[1..]);
      ValueOfDigit(vs[0]);
    }
  }

  lemma GroupMeans(vs: seq<Sextet>)
    requires |vs| == 4
    ensures Last(Code(vs)) == Joined(vs[0], vs[1], vs[2], vs[3])
  {
    CodeReads(vs);
    DigitsHaveNoPads(Code(vs));
    LastIsJoined(Code(vs), vs[0], vs[1], vs[2], vs[3]);
  }

  lemma OnePadMeans(vs: seq<Sextet>)
    requires |vs| == 3
    ensures Pads(Code(vs) + [PAD]) == 1 && Last(Code(vs) + [PAD]) == Joined(vs[0], vs[1], vs[2], 0)[..2]
  {
    CodeReads(vs);
    DigitsHaveNoPads(Code(vs));
    AddPads(Code(vs), PAD);
    LastIsJoined(Code(vs) + [PAD], vs[0], vs[1], vs[2], 0);
  }

  lemma TwoPadsMean(vs: seq<Sextet>)
    requires |vs| == 2
    ensures Pads(Code(vs) + [PAD, PAD]) == 2 && Last(Code(vs) + [PAD, PAD]) == Joined(vs[0], vs[1], 0, 0)[..1]
  {
    CodeReads(vs);
    DigitsHaveNoPads(Code(vs));
    AddPads(Code(vs), PAD);
    AddPads(Code(vs) + [PAD], PAD);
    assert Code(vs) + [PAD] + [PAD] == Code(vs) + [PAD, PAD];
    LastIsJoined(Code(vs) + [PAD, PAD], vs[0], vs[1], 0, 0);
  }

  /** The encoded tail is digits and then pads, and means the bytes it was made of. */
  lemma TailMeans(src: Bytes)
    requires 0 < |src| < 3
    ensures Last(Tail(src)) == src && Pads(Tail(src)) == 3 - |src| && Digits(Tail(src)[..1 + |src|])
    ensures NoSpace(Tail(src))
  {
    if |src| == 1 { TailOfByteMeans(src[0]); } else { TailOfBytesMeans(src[0], src[1]); }
    assert src == if |src| == 1 then [src[0]] else [src[0], src[1]];
  }

  lemma TailOfByteMeans(c1: Byte)
    ensures var t := Tail([c1]); Last(t) == [c1] && Pads(t) == 2 && Digits(t[..2]) && NoSpace(t)
  {
    var vs := Parts(c1, 0, 0)[..2];
    TwoPadsMean(vs);
    CodeReads(vs);
    JoinBytes(c1, 0);
    assert Tail([c1]) == Code(vs) + [PAD, PAD];
    CodeEnds(vs, [PAD, PAD]);
  }

  lemma TailOfBytesMeans(c1: Byte, c2: Byte)
    ensures var t := Tail([c1, c2]); Last(t) == [c1, c2] && Pads(t) == 1 && Digits(t[..3]) && NoSpace(t)
  {
    var vs := Parts(c1, c2, 0)[..3];
    OnePadMeans(vs);
    CodeReads(vs);
    JoinedPair(c1, c2);
    TailOfPair(c1, c2);
    CodeEnds(vs, [PAD]);
    PadIsNoSpace(Code(vs));
  }

  lemma JoinedPair(c1: Byte, c2: Byte)
    ensures var vs := Parts(c1, c2, 0); Joined(vs[0], vs[1], vs[2], 0)[..2] == [c1, c2]
  {
    JoinBytes(c1, c2);
    JoinLowBytes(c2, 0);
  }

  lemma PadIsNoSpace(s: Bytes)
    requires NoSpace(s)
    ensures NoSpace(s + [PAD])
  {
  }

  lemma TailOfPair(c1: Byte, c2: Byte)
    ensures Tail([c1, c2]) == Code(Parts(c1, c2, 0)[..3]) + [PAD]
  {
  }

  lemma CodeEnds(vs: seq<Sextet>, pads: Bytes)
    ensures (Code(vs) + pads)[..|vs|] == Code(vs)
  {
  }

  lemma GroupIs(c1: Byte, c2: Byte, c3: Byte)
    ensures var g := Code(Parts(c1, c2, c3)); Last(g) == [c1, c2, c3] && Digits(g) && NoSpace(g)
  {
    GroupMeans(Parts(c1, c2, c3));
    CodeReads(Parts(c1, c2, c3));
    JoinedParts(c1, c2, c3);
  }

  lemma JoinMeans(h: Bytes, g: Bytes, a: Bytes, l: Bytes)
    requires |h| % 4 == 0 && |g| == 4 && Meaning(h) == a && Last(g) == l
    requires Digits(h) && Digits(g) && NoSpace(h) && NoSpace(g)
    ensures Meaning(h + g) == a + l && Digits(h + g) && NoSpace(h + g)
  {
    MeaningOfGroup(h, g);
  }

  lemma {:induction false} FullMeans(src: Bytes)
    requires |src| % 3 == 0
    ensures Meaning(Full(src)) == src && Digits(Full(src)) && NoSpace(Full(src))
  {
    var n := |src|;
    if n > 0 {
      var a, c1, c2, c3 := src[..n - 3], src[n - 3], src[n - 2], src[n - 1];
      assert src == a + [c1, c2, c3];
      FullMeans(a);
      GroupIs(c1, c2, c3);
      JoinMeans(Full(a), Code(Parts(c1, c2, c3)), a, [c1, c2, c3]);
    }
  }

  lemma DigitsThenTail(h: Bytes, t: Bytes)
    requires Digits(h) && |t| == 4 && Pads(t) <= 2 && Digits(t[..4 - Pads(t)]) && |h| % 4 == 0
    ensures Well(h + t)
  {
    FairThenTail(h, t, Pads(t));
    Plus4(|h|);
  }

  lemma Plus4(n: nat)
    requires n % 4 == 0
    ensures (n + 4) % 4 == 0
  {
  }

  lemma FairThenTail(h: Bytes, t: Bytes, pads: nat)
    requires Digits(h) && |t| == 4 && Pads(t) == pads <= 2 && Digits(t[..4 - pads])
    ensures Fair(h + t)
  {
    PadsAppend(h, t);
    TakeAppend(h, t, 4 - pads);
    DigitsAppend(h, t[..4 - pads]);
    FairIs(h + t, pads, h + t[..4 - pads]);
  }

  lemma FairIs(s: Bytes, pads: nat, body: Bytes)
    requires Pads(s) == pads <= 2 && s[..|s| - pads] == body && Digits(body)
    ensures Fair(s)
  {
  }

  lemma DigitsAppend(h: Bytes, t: Bytes)
    requires Digits(h) && Digits(t)
    ensures Digits(h + t)
  {
  }

  lemma TakeAppend(h: Bytes, t: Bytes, k: nat)
    requires k <= |t|
    ensures (h + t)[..|h| + k] == h + t[..k]
  {
  }

  lemma {:induction false} PadsAppend(h: Bytes, t: Bytes)
    requires Pads(t) < |t|
    ensures Pads(h + t) == Pads(t)
  {
    assert (h + t)[|h + t| - 1] == t[|t| - 1];
    if t[|t| - 1] == PAD {
      PadsAppend(h, t[..|t| - 1]);
      assert (h + t)[..|h + t| - 1] == h + t[..|t| - 1];
    }
  }

  lemma EncodeOfParts(a: Bytes, b: Bytes)
    requires |a| % 3 == 0 && |b| < 3
    ensures Encode(a + b) == Full(a) + Tail(b)
  {
    WholeGroups(a, b);
    EncodeAt(a + b, |a|, a, b);
  }

  lemma WholeGroups(a: Bytes, b: Bytes)
    requires |a| % 3 == 0 && |b| < 3
    ensures |a + b| - |a + b| % 3 == |a|
  {
    Mod3(|a|, |b|);
  }

  lemma EncodeAt(src: Bytes, n: nat, a: Bytes, b: Bytes)
    requires n <= |src| && |src| - |src| % 3 == n && n % 3 == 0 && |b| < 3 && |a| == n && src == a + b
    ensures Encode(src) == Full(a) + Tail(b)
  {
    CutAt(a, b);
  }

  lemma CutAt(a: Bytes, b: Bytes)
    ensures (a + b)[..|a|] == a && (a + b)[|a|..] == b
  {
  }

  lemma Mod3(m: nat, k: nat)
    requires m % 3 == 0 && k < 3
    ensures (m + k) % 3 == k
  {
  }

  /** The encoding of any bytes is well formed and means them. */
  lemma EncodingMeans(src: Bytes)
    ensures Well(Encode(src)) && Meaning(Encode(src)) == src && NoSpace(Encode(src))
  {
    var n := |src| - |src| % 3;
    assert src == src[..n] + src[n..];
    PartsMean(src[..n], src[n..]);
  }

  lemma PartsMean(a: Bytes, b: Bytes)
    requires |a| % 3 == 0 && |b| < 3
    ensures Well(Encode(a + b)) && Meaning(Encode(a + b)) == a + b && NoSpace(Encode(a + b))
  {
    EncodeOfParts(a, b);
    FullMeans(a);
    var h, t := Full(a), Tail(b);
    if b == [] {
      DigitsHaveNoPads(h);
      AppendNothing(h);
      AppendNothing(a);
      assert h[..|h|] == h;
    } else {
      TailMeans(b);
      MeaningOfGroup(h, t);
      DigitsThenTail(h, t);
    }
  }

  lemma {:induction false} StripLeaves(s: Bytes)
    requires NoSpace(s)
    ensures Strip(s) == s
  {
    if s != [] {
      assert s[|s| - 1] in s;
      StripLeaves(s[..|s| - 1]);
    }
  }

  /** Decoding what was encoded, with white space inserted anywhere or nowhere, gives back the bytes in any
      buffer that holds them. */
  lemma DecodeEncoded(src: Bytes, text: Bytes, cap: nat)
    requires Strip(text) == Encode(src) && |src| <= cap
    ensures Decode(text, cap) == Ok(src)
    ensures Decode(Encode(src), cap) == Ok(src)
  {
    EncodingMeans(src);
    StripLeaves(Encode(src));
    DecodeIff(text, cap);
    DecodeIff(Encode(src), cap);
  }

  // ---- Decoding, then encoding ----

  /** The bits of the last digit that no byte is made of; the decoder does not look at them. */
  predicate SpareBitsZero(s: Bytes)
    requires |s| % 4 == 0
  {
    && (Pads(s) == 1 ==> Weight(s[|s| - 2]) % 4 == 0)
    && (Pads(s) == 2 ==> Weight(s[|s| - 3]) % 16 == 0)
  }

  lemma {:induction false} CodeOfWeights(s: Bytes, vs: seq<Sextet>)
    requires |s| == |vs| && Digits(s) && forall i | 0 <= i < |s| :: Weight(s[i]) == vs[i]
    ensures Code(vs) == s
  {
    if s != [] {
      assert s[0] in s;
      DigitOfValue(s[0]);
      forall b <- s[1..]
        ensures Value(b) < 64
      {
        assert b in s;
      }
      CodeOfWeights(s[1..], vs[1..]);
      ConsTail(s);
    }
  }

  lemma GroupOfLast(g: Bytes)
    requires |g| == 4 && Digits(g)
    ensures |Last(g)| == 3 && Code(Parts(Last(g)[0], Last(g)[1], Last(g)[2])) == g
  {
    var w0, w1, w2, w3 := Weight(g[0]), Weight(g[1]), Weight(g[2]), Weight(g[3]);
    DigitsHaveNoPads(g);
    LastIsJoined(g, w0, w1, w2, w3);
    PartsJoined(w0, w1, w2, w3);
    CodeOfWeights(g, [w0, w1, w2, w3]);
  }

  lemma FullExtends(m: Bytes, l: Bytes, h: Bytes, g: Bytes)
    requires |m| % 3 == 0 && |l| == 3 && Full(m) == h && Code(Parts(l[0], l[1], l[2])) == g
    ensures |m + l| % 3 == 0 && Full(m + l) == h + g
  {
    FullAppend(m, l);
  }

  lemma {:induction false} FullOfMeaning(s: Bytes)
    requires |s| % 4 == 0 && Digits(s)
    ensures |Meaning(s)| % 3 == 0 && Full(Meaning(s)) == s
  {
    var n := |s|;
    if n > 0 {
      var h, g := s[..n - 4], s[n - 4..];
      assert s == h + g;
      FullOfMeaning(h);
      GroupOfLast(g);
      FullExtends(Meaning(h), Last(g), h, g);
      MeaningOfGroup(h, g);
    }
  }

  lemma FullAppend(m: Bytes, l: Bytes)
    requires |m| % 3 == 0 && |l| == 3
    ensures Full(m + l) == Full(m) + Code(Parts(l[0], l[1], l[2]))
  {
    assert (m + l)[..|m|] == m;
  }

  lemma TailOfTwo(w0: Sextet, w1: Sextet, w2: Sextet)
    ensures Tail(Joined(w0, w1, w2, 0)[..2]) == Code([w0, w1, w2 / 4 * 4]) + [PAD]
  {
    Parted(w2 / 4, 0, 4);
    PartsJoined(w0, w1, w2 / 4 * 4, 0);
    var bs := Joined(w0, w1, w2 / 4 * 4, 0);
    assert Joined(w0, w1, w2, 0)[..2] == [bs[0], bs[1]] && bs[2] == 0;
    assert Parts(bs[0], bs[1], 0)[..3] == [w0, w1, w2 / 4 * 4];
  }

  lemma TailOfOne(w0: Sextet, w1: Sextet)
    ensures Tail(Joined(w0, w1, 0, 0)[..1]) == Code([w0, w1 / 16 * 16]) + [PAD, PAD]
  {
    Parted(w1 / 16, 0, 16);
    PartsJoined(w0, w1 / 16 * 16, 0, 0);
    var bs := Joined(w0, w1 / 16 * 16, 0, 0);
    assert Joined(w0, w1, 0, 0)[..1] == [bs[0]] && bs[1] == 0 && bs[2] == 0;
    assert Parts(bs[0], 0, 0)[..2] == [w0, w1 / 16 * 16];
  }

  lemma CodeDiffers(vs: seq<Sextet>, vs': seq<Sextet>, pads: Bytes)
    requires |vs| == |vs'|
    ensures Code(vs) + pads == Code(vs') + pads <==> vs == vs'
  {
    CodeReads(vs);
    CodeReads(vs');
    if Code(vs) + pads == Code(vs') + pads {
      assert Code(vs) == (Code(vs) + pads)[..|vs|] == Code(vs');
    }
  }

  lemma TailOfOnePad(g: Bytes)
    requires |g| == 4 && Pads(g) == 1 && Digits(g[..3])
    ensures |Last(g)| == 2 && (Tail(Last(g)) == g <==> Weight(g[2]) % 4 == 0)
  {
    var w0, w1, w2 := Weight(g[0]), Weight(g[1]), Weight(g[2]);
    assert g[3] == PAD && g == g[..3] + [PAD];
    LastIsJoined(g, w0, w1, w2, 0);
    CodeOfWeights(g[..3], [w0, w1, w2]);
    TailOfTwo(w0, w1, w2);
    CodeDiffers([w0, w1, w2 / 4 * 4], [w0, w1, w2], [PAD]);
    assert [w0, w1, w2 / 4 * 4][2] == w2 / 4 * 4;
  }

  lemma TailOfTwoPads(g: Bytes)
    requires |g| == 4 && Pads(g) == 2 && Digits(g[..2])
    ensures |Last(g)| == 1 && (Tail(Last(g)) == g <==> Weight(g[1]) % 16 == 0)
  {
    var w0, w1 := Weight(g[0]), Weight(g[1]);
    assert g[3] == PAD && g[2] == PAD && g == g[..2] + [PAD, PAD];
    LastIsJoined(g, w0, w1, 0, 0);
    CodeOfWeights(g[..2], [w0, w1]);
    TailOfOne(w0, w1);
    CodeDiffers([w0, w1 / 16 * 16], [w0, w1], [PAD, PAD]);
    assert [w0, w1 / 16 * 16][1] == w1 / 16 * 16;
  }

  lemma TailOfLast(g: Bytes)
    requires |g| == 4 && 0 < Pads(g) <= 2 && Digits(g[..4 - Pads(g)])
    ensures |Last(g)| == 3 - Pads(g) && (Tail(Last(g)) == g <==> SpareBitsZero(g))
  {
    if Pads(g) == 1 { TailOfOnePad(g); } else { TailOfTwoPads(g); }
  }

  lemma DigitsOfEnd(s: Bytes)
    requires Well(s) && s != []
    ensures Digits(s[|s| - 4..][..4 - Pads(s)])
  {
    var k := |s| - Pads(s);
    assert forall b <- s[|s| - 4..][..4 - Pads(s)] :: b in s[..k];
  }

  lemma AppendInjective(h: Bytes, a: Bytes, b: Bytes)
    ensures h + a == h + b <==> a == b
  {
    if h + a == h + b { assert (h + a)[|h|..] == a && (h + b)[|h|..] == b; }
  }

  lemma FullRebuilds(s: Bytes)
    requires |s| % 4 == 0 && Digits(s)
    ensures Encode(Meaning(s)) == s
  {
    FullOfMeaning(s);
    AppendNothing(Meaning(s));
    EncodeOfParts(Meaning(s), []);
    AppendNothing(s);
  }

  lemma PartsRebuild(h: Bytes, g: Bytes)
    requires |h| % 4 == 0 && Digits(h) && |g| == 4 && 0 < Pads(g) <= 2 && Digits(g[..4 - Pads(g)])
    ensures Encode(Meaning(h + g)) == h + g <==> SpareBitsZero(g)
  {
    FullOfMeaning(h);
    TailOfLast(g);
    MeaningOfGroup(h, g);
    EncodeOfParts(Meaning(h), Last(g));
    AppendInjective(h, Tail(Last(g)), g);
  }

  /** Encoding the bytes of a well-formed text gives back the text if and only if its spare bits are 0. */
  lemma EncodeDecodedIff(s: Bytes)
    requires Well(s)
    ensures Encode(Meaning(s)) == s <==> SpareBitsZero(s)
  {
    if Pads(s) == 0 {
      assert s[..|s|] == s;
      FullRebuilds(s);
    } else {
      var h, g := s[..|s| - 4], s[|s| - 4..];
      assert s == h + g;
      FrontOfWell(s);
      assert h[..|h|] == h;
      PadsOfEnd(s, 4);
      DigitsOfEnd(s);
      PartsRebuild(h, g);
    }
  }
}
