/**
 The ids of combined symbols: one parser and two printers, over many layouts that share lengths and
 separators. Short futures legs have 5 characters, long ones 10; short option legs 10, long ones 15.
*/
module CombId {
  import opened Wrappers

  datatype CombOp = Single | PriceSpread | TimeSpread | Straddle | Strangle | ConversionReversals

  datatype CombSide = NoSide | SameSide | SideIsLeg2

  datatype Comb = Comb(leg1: string, leg2: string, side: CombSide, op: CombOp)

  datatype SymbolType = ShortText | LongText

  // ---- Printing ----

  function FutPrint(leg1: string, leg2: string, op: CombOp): Option<string> {
    if op != TimeSpread || |leg1| != |leg2| then None
    else if |leg1| == 5 then
      if leg1[..3] == leg2[..3] then Some(leg1 + "/" + leg2[3..]) else Some(leg1 + "/" + leg2)
    else if |leg1| == 10 && leg1[..8] == leg2[..8] then Some(leg1 + "/" + leg2[8..])
    else None
  }

  /** Two legs that differ in their last two characters only. */
  function SameBut2(leg1: string, leg2: string, sep: char): Option<string>
    requires |leg1| == |leg2| >= 2
  {
    if leg1[..|leg1| - 2] == leg2[..|leg1| - 2] then Some(leg1 + [sep] + leg2[|leg1| - 2..]) else None
  }

  function OptPrint(leg1: string, leg2: string, op: CombOp): Option<string> {
    if |leg1| != |leg2| || (|leg1| != 10 && |leg1| != 15) then None
    else
      match op
      case Single => None
      case PriceSpread =>
        if |leg1| == 10 then
          if leg1[8..] == leg2[8..] && leg1[..3] == leg2[..3] then Some(leg1[..8] + "/" + leg2[3..]) else None
        else if leg1[13..] == leg2[13..] && leg1[..8] == leg2[..8] then Some(leg1[..13] + "/" + leg2[8..])
        else None
      case TimeSpread =>
        if |leg1| == 10 then
          if leg1[3..8] != leg2[3..8] then None
          else if leg1[..3] == leg2[..3] then Some(leg1 + "/" + leg2[8..])
          else Some(leg1 + "/" + leg2[..3] + leg2[8..])
        else SameBut2(leg1, leg2, '/')
      case Straddle => SameBut2(leg1, leg2, ':')
      case Strangle =>
        if |leg1| == 10 then if leg1[..3] == leg2[..3] then Some(leg1 + ":" + leg2[3..]) else None
        else if leg1[..8] == leg2[..8] then Some(leg1 + ":" + leg2[8..]) else None
      case ConversionReversals => SameBut2(leg1, leg2, '-')
  }

  // ---- Parsing ----

  predicate Separator(ch: char) { ch == '/' || ch == '-' || ch == ':' }

  function SideOf(ch: char): CombSide { if ch == ':' then SameSide else SideIsLeg2 }

  /** An id with a separator at place 10: legs of 10 characters. */
  function ParseAt10(id: string, op: CombOp): Option<Comb>
    requires |id| >= 13
  {
    if |id| == 13 then Some(Comb(id[..10], id[..8] + id[11..], SideOf(id[10]), op))
    else if |id| == 16 then Some(Comb(id[..10], id[11..14] + id[3..8] + id[14..], SideOf(id[10]), op))
    else if |id| == 18 then Some(Comb(id[..10], id[..3] + id[11..], SideOf(id[10]), op))
    else None
  }

  function OpAt15(ch: char): Option<CombOp> {
    if ch == '/' then Some(TimeSpread) else if ch == ':' then Some(Straddle)
    else if ch == '-' then Some(ConversionReversals) else None
  }

  /** Any other id of 13 characters or more. */
  function ParseLong(id: string): Option<Comb>
    requires |id| >= 13
  {
    if |id| == 15 then Some(Comb(id, "", NoSide, Single))
    else if |id| == 16 && id[8] == '/' then
      Some(Comb(id[..8] + id[14..], id[..3] + id[9..], SideIsLeg2, PriceSpread))
    else if |id| == 21 && id[13] == '/' then
      Some(Comb(id[..13] + id[19..], id[..8] + id[14..], SideIsLeg2, PriceSpread))
    else if |id| == 23 && id[15] == ':' then Some(Comb(id[..15], id[..8] + id[16..], SameSide, Strangle))
    else if |id| == 18 && OpAt15(id[15]).Some? then
      Some(Comb(id[..15], id[..13] + id[16..], SideOf(id[15]), OpAt15(id[15]).value))
    else None
  }

  function Parse(id: string): Option<Comb> {
    if |id| < 13 then
      if |id| == 8 && id[5] == '/' then Some(Comb(id[..5], id[..3] + id[6..], SideIsLeg2, TimeSpread))
      else if |id| == 11 && id[5] == '/' then Some(Comb(id[..5], id[6..], SideIsLeg2, TimeSpread))
      else Some(Comb(id, "", NoSide, Single))
    else
      match id[10]
      case '/' => ParseAt10(id, TimeSpread)
      case '-' => ParseAt10(id, ConversionReversals)
      case ':' => if |id| == 13 then ParseAt10(id, Straddle) else if |id| == 18 then ParseAt10(id, Strangle) else None
      case _ => ParseLong(id)
  }

  // ---- Short or long ----

  predicate IsAlnum(ch: char) { '0' <= ch <= '9' || 'A' <= ch <= 'Z' || 'a' <= ch <= 'z' }

  function FutCheckSymbolType(id: string, isComb: bool): SymbolType {
    if |id| <= (if isComb then 11 else 5) then ShortText else LongText
  }

  function OptCheckSymbolType(id: string, isComb: bool): SymbolType {
    if !isComb then if |id| <= 10 then ShortText else LongText
    else if |id| < 18 then ShortText
    else if |id| > 18 then LongText
    else if IsAlnum(id[15]) then ShortText
    else LongText
  }
}
