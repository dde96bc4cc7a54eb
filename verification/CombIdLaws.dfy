/** How far parser and printers of combined ids undo each other, exactly. */
module CombIdLaws {
  import opened Wrappers
  import opened CombId

  function SideRule(op: CombOp): CombSide {
    if op == Straddle || op == Strangle then SameSide else SideIsLeg2
  }

  // ---- Pieces of strings ----

  lemma Pieces3(a: string, b: string, c: string)
    ensures var s := a + b + c;
            && s[..|a|] == a && s[|a|..|a| + |b|] == b && s[|a| + |b|..] == c && s[|a|..] == b + c
  {
  }

  lemma Split(s: string, i: nat)
    requires i <= |s|
    ensures s == s[..i] + s[i..]
  {
  }

  lemma Split3(s: string, i: nat, j: nat)
    requires i <= j <= |s|
    ensures s == s[..i] + s[i..j] + s[j..]
  {
  }

  // ---- Printing, then parsing ----

  /** What the printed legs must avoid: a separator where the parser looks for one. */
  predicate Unambiguous(leg1: string, leg2: string, op: CombOp) {
    if |leg1| == 15 then !Separator(leg1[10])
    else |leg1| == 10 == |leg2| && op == PriceSpread ==> !Separator(leg2[4])
  }

  lemma FutPrintParse(leg1: string, leg2: string, op: CombOp)
    requires FutPrint(leg1, leg2, op).Some?
    ensures Parse(FutPrint(leg1, leg2, op).value) == Some(Comb(leg1, leg2, SideRule(op), op))
  {
    var id := FutPrint(leg1, leg2, op).value;
    if |leg1| == 5 {
      Split(leg2, 3);
      if leg1[..3] == leg2[..3] {
        Pieces3(leg1, "/", leg2[3..]);
        assert id[..3] == leg1[..3];
      } else {
        Pieces3(leg1, "/", leg2);
      }
    } else {
      Pieces3(leg1, "/", leg2[8..]);
      Split(leg2, 8);
      assert id[..8] == leg1[..8];
    }
  }

  /** The layouts of legs that differ in their last two characters only. */
  lemma SameBut2Parse(leg1: string, leg2: string, op: CombOp, sep: char)
    requires |leg1| == |leg2| && (|leg1| == 10 || |leg1| == 15) && SameBut2(leg1, leg2, sep).Some?
    requires (op, sep) in [(TimeSpread, '/'), (Straddle, ':'), (ConversionReversals, '-')]
    ensures Parse(SameBut2(leg1, leg2, sep).value) == Some(Comb(leg1, leg2, SideRule(op), op))
            <==> |leg1| == 10 || !Separator(leg1[10])
  {
    var id, n := SameBut2(leg1, leg2, sep).value, |leg1|;
    Pieces3(leg1, [sep], leg2[n - 2..]);
    Split(leg2, n - 2);
    assert id[..n - 2] == leg1[..n - 2];
    assert id[10] == if n == 10 then sep else leg1[10];
  }

  lemma PriceSpreadParse(leg1: string, leg2: string)
    requires OptPrint(leg1, leg2, PriceSpread).Some?
    ensures Parse(OptPrint(leg1, leg2, PriceSpread).value) == Some(Comb(leg1, leg2, SideIsLeg2, PriceSpread))
            <==> Unambiguous(leg1, leg2, PriceSpread)
  {
    var id := OptPrint(leg1, leg2, PriceSpread).value;
    if |leg1| == 10 {
      Pieces3(leg1[..8], "/", leg2[3..]);
      Split(leg1, 8);
      Split(leg2, 3);
      assert id[10] == leg2[4];
      assert id[..3] == leg1[..3];
      assert id[14..] == leg2[8..];
    } else {
      Pieces3(leg1[..13], "/", leg2[8..]);
      Split(leg1, 13);
      Split(leg2, 8);
      assert id[10] == leg1[10];
      assert id[..8] == leg1[..8];
      assert id[19..] == leg2[13..];
    }
  }

  lemma WeeklyTimeSpreadParse(leg1: string, leg2: string)
    requires |leg1| == |leg2| == 10 && leg1[3..8] == leg2[3..8]
    ensures Parse(leg1 + "/" + leg2[..3] + leg2[8..]) == Some(Comb(leg1, leg2, SideIsLeg2, TimeSpread))
  {
    var id := leg1 + "/" + leg2[..3] + leg2[8..];
    assert id[..10] == leg1 && id[11..14] == leg2[..3] && id[14..] == leg2[8..];
    assert id[3..8] == leg1[3..8];
    Split3(leg2, 3, 8);
  }

  lemma TimeSpreadParse(leg1: string, leg2: string)
    requires OptPrint(leg1, leg2, TimeSpread).Some?
    ensures Parse(OptPrint(leg1, leg2, TimeSpread).value) == Some(Comb(leg1, leg2, SideIsLeg2, TimeSpread))
            <==> Unambiguous(leg1, leg2, TimeSpread)
  {
    if |leg1| == 15 || leg1[..3] == leg2[..3] {
      if |leg1| == 10 { 
        Split(leg1[..8], 3);
        Split(leg2[..8], 3);
        assert leg1[..8][..3] == leg1[..3] && leg1[..8][3..] == leg1[3..8];
        assert leg2[..8][..3] == leg2[..3] && leg2[..8][3..] == leg2[3..8];
      }
      SameBut2Parse(leg1, leg2, TimeSpread, '/');
    } else {
      WeeklyTimeSpreadParse(leg1, leg2);
    }
  }

  lemma StrangleParse(leg1: string, leg2: string)
    requires OptPrint(leg1, leg2, Strangle).Some?
    ensures Parse(OptPrint(leg1, leg2, Strangle).value) == Some(Comb(leg1, leg2, SameSide, Strangle))
            <==> Unambiguous(leg1, leg2, Strangle)
  {
    var id, n := OptPrint(leg1, leg2, Strangle).value, if |leg1| == 10 then 3 else 8;
    Pieces3(leg1, ":", leg2[n..]);
    Split(leg2, n);
    assert id[..n] == leg1[..n];
    assert id[10] == if |leg1| == 10 then ':' else leg1[10];
  }

  /** Parsing a printed option combination gives back the legs, the operation and its side rule if and
      only if no separator sits where the parser looks for one first. */
  lemma OptPrintParseIff(leg1: string, leg2: string, op: CombOp)
    requires OptPrint(leg1, leg2, op).Some?
    ensures Parse(OptPrint(leg1, leg2, op).value) == Some(Comb(leg1, leg2, SideRule(op), op))
            <==> Unambiguous(leg1, leg2, op)
  {
    match op
    case PriceSpread => PriceSpreadParse(leg1, leg2);
    case TimeSpread => TimeSpreadParse(leg1, leg2);
    case Straddle => SameBut2Parse(leg1, leg2, op, ':');
    case Strangle => StrangleParse(leg1, leg2);
    case ConversionReversals => SameBut2Parse(leg1, leg2, op, '-');
  }

  /** Printed by either printer. */
  predicate Printed(id: string, leg1: string, leg2: string, op: CombOp) {
    FutPrint(leg1, leg2, op) == Some(id) || OptPrint(leg1, leg2, op) == Some(id)
  }

  predicate Plain(leg: string) { forall ch <- leg :: IsAlnum(ch) || ch == ' ' }

  lemma PlainIsUnambiguous(leg1: string, leg2: string, op: CombOp)
    requires Plain(leg1) && Plain(leg2)
    ensures Unambiguous(leg1, leg2, op)
  {
    if |leg1| == 15 { assert leg1[10] in leg1; }
    if |leg2| == 10 { assert leg2[4] in leg2; }
  }

  /** Legs of letters, digits and spaces come back, so no two combinations of such legs, futures or
      options, print the same id. */
  lemma PlainPrintParse(id: string, leg1: string, leg2: string, op: CombOp)
    requires Plain(leg1) && Plain(leg2) && Printed(id, leg1, leg2, op)
    ensures Parse(id) == Some(Comb(leg1, leg2, SideRule(op), op))
  {
    PlainIsUnambiguous(leg1, leg2, op);
    if FutPrint(leg1, leg2, op) == Some(id) {
      FutPrintParse(leg1, leg2, op);
    } else {
      OptPrintParseIff(leg1, leg2, op);
    }
  }

  lemma PrintingIsInjective(id: string, leg1: string, leg2: string, op: CombOp,
                            leg1': string, leg2': string, op': CombOp)
    requires Plain(leg1) && Plain(leg2) && Printed(id, leg1, leg2, op)
    requires Plain(leg1') && Plain(leg2') && Printed(id, leg1', leg2', op')
    ensures leg1 == leg1' && leg2 == leg2' && op == op'
  {
    PlainPrintParse(id, leg1, leg2, op);
    PlainPrintParse(id, leg1', leg2', op');
  }

  // ---- Parsing, then printing ----

  /** The combinations the parser accepts although no option printer makes them: a two-character
      layout spelt with the three product characters repeated, and two layouts of other operations. */
  predicate OptCanonical(id: string) {
    && |id| >= 13
    && (|id| == 16 && id[10] == '/' ==> id[11..14] != id[..3])
    && !(|id| == 16 && id[10] == '-')
    && !(|id| == 18 && (id[10] == '/' || id[10] == '-'))
  }

  predicate FutCanonical(id: string) {
    || |id| == 8
    || (|id| == 11 && id[6..9] != id[..3])
    || (|id| == 13 && id[10] == '/')
  }

  lemma At10Print(id: string)
    requires |id| >= 13 && Separator(id[10]) && Parse(id).Some?
    ensures var c := Parse(id).value; OptPrint(c.leg1, c.leg2, c.op) == Some(id) <==> OptCanonical(id)
  {
    var c := Parse(id).value;
    Split3(id, 10, 11);
    assert id[10..11] == [id[10]];
    assert c.leg1[..8] == id[..8] && c.leg1[..3] == id[..3] && c.leg1[3..8] == id[3..8];
    if |id| == 13 {
      assert c.leg2[..8] == id[..8] && c.leg2[8..] == id[11..] && c.leg2[..3] == id[..3] && c.leg2[3..8] == id[3..8];
    } else if |id| == 16 {
      assert c.leg2[..3] == id[11..14] && c.leg2[3..8] == id[3..8] && c.leg2[8..] == id[14..];
      Split(id[11..], 3);
      if id[10] == '/' && id[11..14] != id[..3] { assert id[..10] + "/" + id[11..14] + id[14..] == id; }
    } else {
      assert c.leg2[..3] == id[..3] && c.leg2[3..] == id[11..];
    }
  }

  lemma LongPrint(id: string)
    requires |id| >= 13 && !Separator(id[10]) && Parse(id).Some? && Parse(id).value.op != Single
    ensures var c := Parse(id).value; OptPrint(c.leg1, c.leg2, c.op) == Some(id)
  {
    var c := Parse(id).value;
    if |id| == 16 {
      assert c.leg1[..8] == id[..8] && c.leg1[8..] == id[14..] && c.leg1[..3] == id[..3];
      assert c.leg2[..3] == id[..3] && c.leg2[3..] == id[9..] && c.leg2[8..] == id[14..];
      assert id == id[..8] + "/" + id[9..];
    } else if |id| == 21 {
      assert c.leg1[..13] == id[..13] && c.leg1[13..] == id[19..] && c.leg1[..8] == id[..8];
      assert c.leg2[..8] == id[..8] && c.leg2[8..] == id[14..] && c.leg2[13..] == id[19..];
      assert id == id[..13] + "/" + id[14..];
    } else if |id| == 23 {
      assert c.leg1[..8] == id[..8] && c.leg2[..8] == id[..8] && c.leg2[8..] == id[16..];
      assert id == id[..15] + ":" + id[16..];
    } else {
      assert c.leg1[..13] == id[..13] && c.leg2[..13] == id[..13] && c.leg2[13..] == id[16..];
      assert id == id[..15] + [id[15]] + id[16..];
    }
  }

  /** Printing a parsed combination as an option rebuilds the same id if and only if it is canonical. */
  lemma OptParsePrintIff(id: string)
    requires Parse(id).Some? && Parse(id).value.op != Single
    ensures var c := Parse(id).value; OptPrint(c.leg1, c.leg2, c.op) == Some(id) <==> OptCanonical(id)
  {
    if |id| >= 13 {
      if Separator(id[10]) { At10Print(id); } else { LongPrint(id); }
    }
  }

  /** Every id accepted as a price spread, straddle or strangle is rebuilt. */
  lemma SpreadsRebuild(id: string)
    requires Parse(id).Some? && Parse(id).value.op in {PriceSpread, Straddle, Strangle}
    ensures var c := Parse(id).value; OptPrint(c.leg1, c.leg2, c.op) == Some(id)
  {
    OptParsePrintIff(id);
  }

  /** The same for the futures printer. */
  lemma FutParsePrintIff(id: string)
    requires Parse(id).Some? && Parse(id).value.op != Single
    ensures var c := Parse(id).value; FutPrint(c.leg1, c.leg2, c.op) == Some(id) <==> FutCanonical(id)
  {
    var c := Parse(id).value;
    if |id| == 8 {
      assert c.leg1[..3] == id[..3] && c.leg2[..3] == id[..3] && c.leg2[3..] == id[6..];
      assert id == id[..5] + "/" + id[6..];
    } else if |id| == 11 {
      assert c.leg1[..3] == id[..3] && c.leg2[..3] == id[6..9];
      assert id == id[..5] + "/" + id[6..];
    } else if |id| == 13 {
      assert c.leg1[..8] == id[..8] && c.leg2[..8] == id[..8] && c.leg2[8..] == id[11..];
      assert id == id[..10] + [id[10]] + id[11..];
    }
  }

  // ---- Every accepted id ----

  /** An id with nothing where the layouts of combinations have their separators: short, or as long as a long
      option leg. */
  predicate LooksSingle(id: string) {
    || (|id| < 13 && !((|id| == 8 || |id| == 11) && id[5] == '/'))
    || (|id| == 15 && !Separator(id[10]))
  }

  /** Exactly such ids are accepted as a single leg, which is then the whole id. */
  lemma SingleIff(id: string)
    ensures LooksSingle(id) <==> Parse(id).Some? && Parse(id).value.op == Single
    ensures LooksSingle(id) ==>
              var c := Parse(id).value; c.leg1 == id && c.leg2 == "" && c.side == NoSide
  {
  }

  /** The separator of each operation. */
  function SeparatorOf(op: CombOp): char {
    match op
    case Straddle => ':'
    case Strangle => ':'
    case ConversionReversals => '-'
    case _ => '/'
  }

  /** How the characters of a combination's id are those of its legs: what the id spells out, and what the
      second leg shares with the first, which the id leaves out. */
  predicate Spells(id: string, c: Comb) {
    var a, b, sep := c.leg1, c.leg2, [SeparatorOf(c.op)];
    && c.op != Single && c.side == SideRule(c.op) && |a| == |b|
    && match |id|
       case 8 => |a| == 5 && id == a + sep + b[3..] && b[..3] == a[..3] && c.op == TimeSpread
       case 11 => |a| == 5 && id == a + sep + b && c.op == TimeSpread
       case 13 => |a| == 10 && id == a + sep + b[8..] && b[..8] == a[..8] && c.op in {TimeSpread, Straddle, ConversionReversals}
       case 16 =>
         && |a| == 10
         && if c.op == PriceSpread then id == a[..8] + sep + b[3..] && b[..3] == a[..3] && b[8..] == a[8..]
            else id == a + sep + b[..3] + b[8..] && b[3..8] == a[3..8] && c.op in {TimeSpread, ConversionReversals}
       case 18 =>
         if |a| == 10 then id == a + sep + b[3..] && b[..3] == a[..3] && c.op in {TimeSpread, Strangle, ConversionReversals}
         else |a| == 15 && id == a + sep + b[13..] && b[..13] == a[..13] && c.op in {TimeSpread, Straddle, ConversionReversals}
       case 21 => |a| == 15 && id == a[..13] + sep + b[8..] && b[..8] == a[..8] && b[13..] == a[13..] && c.op == PriceSpread
       case 23 => |a| == 15 && id == a + sep + b[8..] && b[..8] == a[..8] && c.op == Strangle
       case _ => false
  }

  /** Every id accepted as a combination spells out its legs, its operation and its side. */
  lemma CombinationSpells(id: string)
    requires Parse(id).Some? && Parse(id).value.op != Single
    ensures Spells(id, Parse(id).value)
  {
    if |id| < 13 {
      ShortSpells(id);
    } else if Separator(id[10]) {
      At10Spells(id);
    } else {
      LongSpells(id);
    }
  }

  lemma ShortSpells(id: string)
    requires |id| < 13 && Parse(id).Some? && Parse(id).value.op != Single
    ensures Spells(id, Parse(id).value)
  {
    var c := Parse(id).value;
    Split3(id, 5, 6);
    assert id[5..6] == "/";
    if |id| == 8 { assert c.leg2[3..] == id[6..] && c.leg2[..3] == id[..3] == c.leg1[..3]; }
  }

  lemma At10Of16(id: string)
    requires |id| == 16 && (id[10] == '/' || id[10] == '-')
    ensures Spells(id, Parse(id).value)
  {
    var c := Parse(id).value;
    assert c.leg1[3..8] == id[3..8];
    assert c.leg2[..3] == id[11..14] && c.leg2[3..8] == id[3..8] && c.leg2[8..] == id[14..];
    assert id == id[..10] + [id[10]] + id[11..14] + id[14..];
  }

  lemma At10Spells(id: string)
    requires |id| >= 13 && Separator(id[10]) && Parse(id).Some?
    ensures Spells(id, Parse(id).value)
  {
    if |id| == 16 {
      At10Of16(id);
    } else {
      var c := Parse(id).value;
      assert id == id[..10] + [id[10]] + id[11..];
      assert c.leg1[..8] == id[..8] && c.leg1[..3] == id[..3];
      if |id| == 13 {
        assert c.leg2[..8] == id[..8] && c.leg2[8..] == id[11..];
      } else {
        assert c.leg2[..3] == id[..3] && c.leg2[3..] == id[11..];
      }
    }
  }

  lemma LongSpells(id: string)
    requires |id| >= 13 && !Separator(id[10]) && Parse(id).Some? && Parse(id).value.op != Single
    ensures Spells(id, Parse(id).value)
  {
    var c := Parse(id).value;
    if |id| == 16 {
      assert c.leg1[..8] == id[..8] && c.leg1[8..] == id[14..] && c.leg1[..3] == id[..3];
      assert c.leg2[..3] == id[..3] && c.leg2[3..] == id[9..] && c.leg2[8..] == id[14..];
      assert id == id[..8] + "/" + id[9..];
    } else if |id| == 21 {
      assert c.leg1[..13] == id[..13] && c.leg1[13..] == id[19..] && c.leg1[..8] == id[..8];
      assert c.leg2[..8] == id[..8] && c.leg2[8..] == id[14..] && c.leg2[13..] == id[19..];
      assert id == id[..13] + "/" + id[14..];
    } else if |id| == 23 {
      assert c.leg1[..8] == id[..8] && c.leg2[..8] == id[..8] && c.leg2[8..] == id[16..];
      assert id == id[..15] + ":" + id[16..];
    } else {
      assert c.leg1[..13] == id[..13] && c.leg2[..13] == id[..13] && c.leg2[13..] == id[16..];
      assert id == id[..15] + [id[15]] + id[16..];
    }
  }

  /** The first separator the parser looks for is where the layout has it. */
  predicate LaidOut(id: string) {
    match |id|
    case 8 => id[5] == '/'
    case 11 => id[5] == '/'
    case 13 => Separator(id[10])
    case 16 => id[10] == '/' || id[10] == '-' || (id[10] != ':' && id[8] == '/')
    case 18 => Separator(id[10]) || Separator(id[15])
    case 21 => !Separator(id[10]) && id[13] == '/'
    case 23 => !Separator(id[10]) && id[15] == ':'
    case _ => false
  }

  /** Exactly the ids that are laid out like that are accepted as combinations. */
  lemma CombinationIff(id: string)
    ensures Parse(id).Some? && Parse(id).value.op != Single <==> LaidOut(id)
  {
  }

  // ---- Short or long ----

  /** A letter or a decimal digit, by its code. */
  predicate LetterOrDigit(ch: char) {
    var code := ch as int;
    48 <= code < 58 || 65 <= code < 91 || 97 <= code < 123
  }

  /** A printed option id is reported short exactly when its legs are short, but for short strangles, whose
      length is also that of long ids: there the eighth character of the second leg must be alphanumeric. */
  lemma OptTypeIff(leg1: string, leg2: string, op: CombOp)
    requires OptPrint(leg1, leg2, op).Some?
    ensures (OptCheckSymbolType(OptPrint(leg1, leg2, op).value, true) == ShortText <==> |leg1| == 10)
            <==> (op == Strangle && |leg1| == 10 ==> LetterOrDigit(leg2[7]))
  {
    var id := OptPrint(leg1, leg2, op).value;
    if |leg1| == 10 && op == Strangle {
      assert id[15] == leg2[7];
    } else if |leg1| == 15 && |id| == 18 {
      assert id[15] in {'/', ':', '-'};
    }
  }

  lemma FutType(leg1: string, leg2: string, op: CombOp)
    requires FutPrint(leg1, leg2, op).Some?
    ensures FutCheckSymbolType(FutPrint(leg1, leg2, op).value, true) == ShortText <==> |leg1| == 5
  {
  }

  /** What decides for any other text: a futures id is short up to the length of a leg, or of a combination of
      two short legs; an option id up to the length of a short leg, or of the shortest combination of long
      ones, where the character behind a long leg tells the two apart. */
  lemma TypeByLength(id: string)
    ensures FutCheckSymbolType(id, false) == ShortText <==> |id| < 6
    ensures FutCheckSymbolType(id, true) == ShortText <==> |id| < 5 + 1 + 5 + 1
    ensures OptCheckSymbolType(id, false) == ShortText <==> |id| < 11
    ensures OptCheckSymbolType(id, true) == ShortText
            <==> |id| < 15 + 1 + 2 || (|id| == 15 + 1 + 2 && LetterOrDigit(id[15]))
  {
  }
}
