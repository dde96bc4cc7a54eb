/** The parser and the printers as they fill fixed-size character buffers piece by piece. */
module CombIdBuffers {
  import opened Wrappers
  import opened CombId
  import opened Memory

  /** A character array that carries its length. */
  class CharAryL {
    const chars: array<char>
    var len: nat

    ghost predicate Valid() reads this { len <= chars.Length }

    ghost function Text(): string
      requires Valid()
      reads this, chars
    {
      chars[..len]
    }

    constructor (capacity: nat)
      ensures Valid() && fresh(chars) && chars.Length == capacity && Text() == ""
    {
      chars := new char[capacity];
      len := 0;
    }

    /** memcpy into the array; the length stays. */
    method CopyAt(at: nat, src: string)
      requires at + |src| <= chars.Length
      modifies chars
      ensures chars[..] == Patched(old(chars[..]), at, src)
    {
      Memcpy(chars, at, src);
    }

    method ForceLen(n: nat)
      requires Valid()
      modifies `len
      ensures Valid() && len == (if n < chars.Length then n else chars.Length)
    {
      len := if n < chars.Length then n else chars.Length;
    }

    method CopyFrom(src: string)
      requires Valid()
      modifies this, chars
      ensures Valid() && Text() == if |src| < chars.Length then src else src[..chars.Length]
    {
      ForceLen(|src|);
      CopyAt(0, src[..len]);
      assert chars[..len] == src[..len];
    }

    method Clear()
      requires Valid()
      modifies `len
      ensures Valid() && Text() == ""
    {
      len := 0;
    }
  }

  const LEG_SIZE := 20
  const SYMBOL_SIZE := 40

  // ---- Pieces written one after the other, in any order ----

  lemma Two(s: string, a: string, b: string)
    requires |a| + |b| <= |s|
    ensures Patched(Patched(s, 0, a), |a|, b)[..|a| + |b|] == a + b
  {
  }

  lemma Three(s: string, a: string, b: string, c: string)
    requires |a| + |b| + |c| <= |s|
    ensures Patched(Patched(Patched(s, 0, a), |a|, b), |a| + |b|, c)[..|a| + |b| + |c|] == a + b + c
    ensures Patched(Patched(Patched(s, |a|, b), 0, a), |a| + |b|, c)[..|a| + |b| + |c|] == a + b + c
    ensures Patched(Patched(Patched(s, |a| + |b|, c), 0, a), |a|, b)[..|a| + |b| + |c|] == a + b + c
  {
    var s1 := Patched(Patched(s, |a| + |b|, c), 0, a);
    assert s1[|a| + |b|..][..|c|] == c;
    assert Patched(s1, |a|, b) == a + b + s1[|a| + |b|..];
  }

  // ---- Printers ----

  /** The text is leg, separator and tail. */
  method Write3(symb: CharAryL, a: string, sep: char, c: string)
    requires symb.Valid() && |a| + 1 + |c| <= symb.chars.Length
    modifies symb, symb.chars
    ensures symb.Valid() && symb.Text() == a + [sep] + c
  {
    symb.ForceLen(|a| + 1 + |c|);
    ghost var s := symb.chars[..];
    symb.CopyAt(0, a);
    symb.CopyAt(|a|, [sep]);
    symb.CopyAt(|a| + 1, c);
    Three(s, a, [sep], c);
  }

  method FutMakeCombSymbolId(symb: CharAryL, leg1: string, leg2: string, op: CombOp) returns (ok: bool)
    requires symb.Valid() && symb.chars.Length == SYMBOL_SIZE
    modifies symb, symb.chars
    ensures symb.Valid() && ok == FutPrint(leg1, leg2, op).Some?
    ensures symb.Text() == if ok then FutPrint(leg1, leg2, op).value else ""
  {
    symb.Clear();
    if op != TimeSpread { return false; }
    if |leg1| != |leg2| { return false; }
    ghost var s := symb.chars[..];
    if |leg1| == 5 {
      symb.CopyAt(0, leg1);
      symb.CopyAt(5, "/");
      if leg1[..3] == leg2[..3] {
        symb.CopyAt(6, leg2[3..]);
        symb.ForceLen(8);
        Three(s, leg1, "/", leg2[3..]);
      } else {
        symb.CopyAt(6, leg2);
        symb.ForceLen(11);
        Three(s, leg1, "/", leg2);
      }
      return true;
    }
    if |leg1| == 10 {
      if leg1[..8] != leg2[..8] { return false; }
      Write3(symb, leg1, '/', leg2[8..]);
      return true;
    }
    return false;
  }

  /** The layouts of legs that differ in their last two characters only. The separator is written first. */
  method MakeSameBut2(symb: CharAryL, leg1: string, leg2: string, sep: char) returns (ok: bool)
    requires symb.Valid() && symb.chars.Length == SYMBOL_SIZE && symb.len == 0
    requires |leg1| == |leg2| && (|leg1| == 10 || |leg1| == 15)
    modifies symb, symb.chars
    ensures symb.Valid() && ok == SameBut2(leg1, leg2, sep).Some?
    ensures symb.Text() == if ok then SameBut2(leg1, leg2, sep).value else ""
  {
    var n := |leg1|;
    ghost var s := symb.chars[..];
    symb.CopyAt(n, [sep]);
    if leg1[..n - 2] != leg2[..n - 2] { return false; }
    symb.ForceLen(n + 3);
    symb.CopyAt(0, leg1);
    symb.CopyAt(n + 1, leg2[n - 2..]);
    Three(s, leg1, [sep], leg2[n - 2..]);
    return true;
  }

  method MakeShortTimeSpread(symb: CharAryL, leg1: string, leg2: string) returns (ok: bool)
    requires symb.Valid() && symb.chars.Length == SYMBOL_SIZE && symb.len == 0
    requires |leg1| == |leg2| == 10
    modifies symb, symb.chars
    ensures symb.Valid() && ok == OptPrint(leg1, leg2, TimeSpread).Some?
    ensures symb.Text() == if ok then OptPrint(leg1, leg2, TimeSpread).value else ""
  {
    if leg1[3..8] != leg2[3..8] { return false; }
    ghost var s := symb.chars[..];
    if leg1[..3] == leg2[..3] {
      symb.ForceLen(13);
      symb.CopyAt(11, leg2[8..]);
      symb.CopyAt(0, leg1);
      symb.CopyAt(10, "/");
      Three(s, leg1, "/", leg2[8..]);
    } else {
      symb.ForceLen(16);
      symb.CopyAt(11, leg2[..3]);
      symb.CopyAt(14, leg2[8..]);
      symb.CopyAt(0, leg1);
      symb.CopyAt(10, "/");
      assert symb.Text() == leg1 + "/" + leg2[..3] + leg2[8..];
    }
    return true;
  }

  method OptMakeCombSymbolId(symb: CharAryL, leg1: string, leg2: string, op: CombOp) returns (ok: bool)
    requires symb.Valid() && symb.chars.Length == SYMBOL_SIZE
    modifies symb, symb.chars
    ensures symb.Valid() && ok == OptPrint(leg1, leg2, op).Some?
    ensures symb.Text() == if ok then OptPrint(leg1, leg2, op).value else ""
  {
    symb.Clear();
    var n := |leg1|;
    if n != |leg2| || (n != 10 && n != 15) { return false; }
    match op {
      case Single => return false;
      case PriceSpread =>
        var k := if n == 10 then 3 else 8;
        if leg1[n - 2..] != leg2[n - 2..] || leg1[..k] != leg2[..k] { return false; }
        Write3(symb, leg1[..n - 2], '/', leg2[k..]);
        return true;
      case TimeSpread =>
        if n == 10 { ok := MakeShortTimeSpread(symb, leg1, leg2); } else { ok := MakeSameBut2(symb, leg1, leg2, '/'); }
      case Straddle => ok := MakeSameBut2(symb, leg1, leg2, ':');
      case Strangle =>
        var k := if n == 10 then 3 else 8;
        if leg1[..k] != leg2[..k] { return false; }
        Write3(symb, leg1, ':', leg2[k..]);
        return true;
      case ConversionReversals => ok := MakeSameBut2(symb, leg1, leg2, '-');
    }
  }

  // ---- The parser ----

  class ExgCombSymbId {
    const legId1: CharAryL
    const legId2: CharAryL
    var side: CombSide
    var op: CombOp

    ghost predicate Valid()
      reads this, legId1, legId2
    {
      && legId1 != legId2 && legId1.chars != legId2.chars && legId1.Valid() && legId2.Valid()
      && legId1.chars.Length == LEG_SIZE && legId2.chars.Length == LEG_SIZE
    }

    ghost function View(): Comb
      requires Valid()
      reads this, legId1, legId2, legId1.chars, legId2.chars
    {
      Comb(legId1.Text(), legId2.Text(), side, op)
    }

    constructor ()
      ensures Valid() && fresh(legId1) && fresh(legId2) && fresh(legId1.chars) && fresh(legId2.chars)
    {
      legId1 := new CharAryL(LEG_SIZE);
      legId2 := new CharAryL(LEG_SIZE);
      side, op := NoSide, Single;
    }

    /** A leg made of two pieces of the id. */
    method Piece2(leg: CharAryL, a: string, b: string)
      requires leg.Valid() && |a| + |b| <= leg.chars.Length
      modifies leg, leg.chars
      ensures leg.Valid() && leg.Text() == a + b
    {
      ghost var s := leg.chars[..];
      leg.ForceLen(|a| + |b|);
      leg.CopyAt(0, a);
      leg.CopyAt(|a|, b);
      Two(s, a, b);
    }

    method Piece3(leg: CharAryL, a: string, b: string, c: string)
      requires leg.Valid() && |a| + |b| + |c| <= leg.chars.Length
      modifies leg, leg.chars
      ensures leg.Valid() && leg.Text() == a + b + c
    {
      ghost var s := leg.chars[..];
      leg.ForceLen(|a| + |b| + |c|);
      leg.CopyAt(0, a);
      leg.CopyAt(|a|, b);
      leg.CopyAt(|a| + |b|, c);
      Three(s, a, b, c);
    }

    method ParseOpAt10(id: string, combOp: CombOp) returns (ok: bool)
      requires Valid() && |id| >= 13
      modifies this, legId1, legId2, legId1.chars, legId2.chars
      ensures Valid() && ok == ParseAt10(id, combOp).Some?
      ensures ok ==> View() == ParseAt10(id, combOp).value
    {
      op := combOp;
      if |id| == 13 {
        Piece2(legId2, id[..8], id[11..]);
      } else if |id| == 16 {
        Piece3(legId2, id[11..14], id[3..8], id[14..]);
      } else if |id| == 18 {
        Piece2(legId2, id[..3], id[11..]);
      } else {
        return false;
      }
      legId1.CopyFrom(id[..10]);
      side := if id[10] == ':' then SameSide else SideIsLeg2;
      return true;
    }

    method ParseLongId(id: string) returns (ok: bool)
      requires Valid() && |id| >= 13 && View() == Comb("", "", NoSide, Single)
      modifies this, legId1, legId2, legId1.chars, legId2.chars
      ensures Valid() && ok == ParseLong(id).Some?
      ensures ok ==> View() == ParseLong(id).value
    {
      var n := |id|;
      if n == 15 {
        legId1.CopyFrom(id);
        return true;
      } else if n == 16 {
        if id[8] != '/' { return false; }
        Piece2(legId1, id[..8], id[14..]);
        Piece2(legId2, id[..3], id[9..]);
        op, side := PriceSpread, SideIsLeg2;
        return true;
      } else if n == 21 {
        if id[13] != '/' { return false; }
        Piece2(legId1, id[..13], id[19..]);
        Piece2(legId2, id[..8], id[14..]);
        op, side := PriceSpread, SideIsLeg2;
        return true;
      } else if n == 23 {
        if id[15] != ':' { return false; }
        legId1.CopyFrom(id[..15]);
        Piece2(legId2, id[..8], id[16..]);
        op, side := Strangle, SameSide;
        return true;
      } else if n == 18 {
        match OpAt15(id[15]) {
          case None => return false;
          case Some(o) => op := o;
        }
        legId1.CopyFrom(id[..15]);
        Piece2(legId2, id[..13], id[16..]);
        side := if id[15] == ':' then SameSide else SideIsLeg2;
        return true;
      }
      return false;
    }

    method ParseId(id: string) returns (ok: bool)
      requires Valid()
      modifies this, legId1, legId2, legId1.chars, legId2.chars
      ensures Valid() && ok == Parse(id).Some?
      ensures ok ==> View() == Parse(id).value
    {
      legId1.Clear();
      legId2.Clear();
      side, op := NoSide, Single;
      var n := |id|;
      if n < 13 {
        if (n == 8 || n == 11) && id[5] == '/' {
          legId1.CopyFrom(id[..5]);
          if n == 11 { legId2.CopyFrom(id[6..]); } else { Piece2(legId2, id[..3], id[6..]); }
          op, side := TimeSpread, SideIsLeg2;
        } else {
          legId1.CopyFrom(id);
        }
        return true;
      }
      if id[10] == '/' {
        ok := ParseOpAt10(id, TimeSpread);
      } else if id[10] == '-' {
        ok := ParseOpAt10(id, ConversionReversals);
      } else if id[10] == ':' {
        if n != 13 && n != 18 { return false; }
        ok := ParseOpAt10(id, if n == 13 then Straddle else Strangle);
      } else {
        ok := ParseLongId(id);
      }
    }
  }
}
