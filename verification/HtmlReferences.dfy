/**
 Character references: a text in which any character is written by name or by number is
 decoded back, and an `&` that leads no reference stays an `&`.
 */
module HtmlReferences {
  import opened Wrappers
  import opened Text
  import opened HtmlEntities
  import Utf8

  // ---------------------------------------------------------------- one reference

  /** What may stand between `&` and `;` so that the `;` is in the window. */
  predicate Short(entity: string) {
    |entity| <= 30 && IsAsciiText(entity) && forall i | 0 <= i < |entity| :: entity[i] != ';'
  }

  lemma SemicolonIs(e: string, entity: string)
    requires Short(entity) && e == "&" + entity + ";"
    ensures OccursAt(e, ";", |entity| + 1) && forall j: nat | j < |entity| + 1 :: !OccursAt(e, ";", j)
  {
    forall j: nat | j < |entity| + 1
      ensures !OccursAt(e, ";", j)
    {
      assert e[j..j + 1][0] == e[j];
      assert j > 0 ==> e[j] == entity[j - 1];
    }
    assert e[|entity| + 1..|entity| + 2] == ";";
  }

  /** At a reference: its character if it has one, and otherwise the `&` itself. */
  lemma AtReference(entity: string, rest: string)
    requires Short(entity)
    ensures var s := "&" + entity + ";" + rest;
      AtAmpersand(s) ==
        if CutAt(s, WINDOW).None? then Panic
        else if Entity(entity).Some? then Piece(Entity(entity).value, |entity| + 2) else Piece('&', 1)
  {
    hide Entity, OccursAt, CutAt;
    var e := "&" + entity + ";";
    var s := e + rest;
    assert s == "&" + entity + ";" + rest;
    CutCoversAscii(e, rest, WINDOW);
    if CutAt(s, WINDOW).Some? {
      var w := CutAt(s, WINDOW).value;
      var semicolon := |entity| + 1;
      SemicolonIs(e, entity);
      assert s[..w][..semicolon + 1] == e[..semicolon + 1];
      FindIsStable(e, s[..w], ";", semicolon);
      assert s[1..semicolon] == entity;
    }
  }

  /** A reference decodes to its character. */
  lemma DecodedReference(entity: string, c: char, rest: string)
    requires Short(entity) && Entity(entity) == Some(c)
    ensures var s := "&" + entity + ";" + rest;
      Decoded(s) == if CutAt(s, WINDOW).None? then None else Prepend([c], Decoded(rest))
  {
    hide AtAmpersand, Entity, CutAt;
    var s := "&" + entity + ";" + rest;
    AtReference(entity, rest);
    assert s[|entity| + 2..] == rest;
  }

  /** An `&` that leads an unknown reference stays as it is. */
  lemma UnknownStaysLiteral(entity: string, rest: string)
    requires Short(entity) && Entity(entity).None?
    ensures var s := "&" + entity + ";" + rest;
      Decoded(s) == if CutAt(s, WINDOW).None? then None else Prepend("&", Decoded(s[1..]))
  {
    hide AtAmpersand, Entity, CutAt;
    AtReference(entity, rest);
  }

  /** So does one without a `;` in its window. */
  lemma AmpersandStaysLiteral(s: string)
    requires s != "" && s[0] == '&' && CutAt(s, WINDOW).Some?
    requires forall k: nat :: !OccursAt(s[..CutAt(s, WINDOW).value], ";", k)
    ensures Decoded(s) == Prepend("&", Decoded(s[1..]))
  {
    hide Entity, OccursAt, CutAt;
  }

  // ---------------------------------------------------------------- names

  /** The named references the campus pages use. */
  const NAMES: seq<(string, char)> := [
    ("amp", '&'), ("lt", '<'), ("gt", '>'), ("quot", '"'), ("apos", '\''), ("nbsp", ' '),
    ("hellip", '\U{2026}'), ("middot", '\U{B7}')]

  lemma NamesAreKnown(i: nat)
    requires i < |NAMES|
    ensures Short(NAMES[i].0) && Entity(NAMES[i].0) == Some(NAMES[i].1)
  {
  }

  /** Nothing else is a reference, but for the numeric ones. */
  lemma EntityExactly(entity: string, c: char)
    ensures Entity(entity) == Some(c) <==> (entity, c) in NAMES || NumericEntity(entity) == Some(c)
  {
    hide NumericEntity, Short;
    if (entity, c) in NAMES {
      var i :| 0 <= i < |NAMES| && NAMES[i] == (entity, c);
      NamesAreKnown(i);
    }
    NameIsNoNumber(entity);
    assert NAMES[0] == ("amp", '&') && NAMES[1] == ("lt", '<') && NAMES[2] == ("gt", '>') && NAMES[3] == ("quot", '"');
    assert NAMES[4] == ("apos", '\'') && NAMES[5] == ("nbsp", ' ');
    assert NAMES[6] == ("hellip", '\U{2026}') && NAMES[7] == ("middot", '\U{B7}');
  }

  lemma NameIsNoNumber(entity: string)
    ensures entity in {"amp", "lt", "gt", "quot", "apos", "nbsp", "hellip", "middot"} ==> NumericEntity(entity) == None
  {
  }

  // ---------------------------------------------------------------- numbers

  lemma Regrouped(a: string, b: string, c: string, d: string)
    ensures a + (b + (c + d)) == a + b + c + d
  {
  }

  /**
   A reference that starts with `#` is, but for an `x` of either case and one plus sign, a numeral: it
   stands for the character with that number, and anything else stands for nothing.
   */
  lemma NumberExactly(entity: string, c: char) returns (mark: string, sign: string, digits: string)
    requires entity != "" && entity[0] == '#'
    ensures entity == "#" + mark + sign + digits && mark in {"", "x", "X"} && sign in {"", "+"}
    ensures mark == "" && sign == "" && digits != "" ==> digits[0] != 'x' && digits[0] != 'X'
    ensures sign == "" && digits != "" ==> digits[0] != '+'
    ensures var radix := if mark == "" then 10 else 16;
            NumericEntity(entity) == Some(c) <==> IsNumeral(digits, radix) && ValueOf(digits, radix) == c as int
  {
    hide ParseUnsigned, ValueOf, IsNumeral;
    var number := entity[1..];
    mark := if number != "" && (number[0] == 'x' || number[0] == 'X') then number[..1] else "";
    assert mark != "" ==> mark == [number[0]];
    var signed := number[|mark|..];
    sign, digits := UnsignedExactly(signed, if mark == "" then 10 else 16, U32_LIMIT);
    assert number == mark + signed && entity == "#" + number;
    Regrouped("#", mark, sign, digits);
  }

  function PowerOf(base: nat, k: nat): nat {
    if k == 0 then 1 else base * PowerOf(base, k - 1)
  }

  lemma {:induction false} DecimalIsShort(n: nat, k: nat)
    requires 0 < k && n < PowerOf(10, k)
    ensures |Decimal(n)| <= k
  {
    if n >= 10 {
      DecimalIsShort(n / 10, k - 1);
    }
  }

  function HexDigit(d: nat): char
    requires d < 16
  {
    if d < 10 then '0' + d as char else 'a' + (d - 10) as char
  }

  function Hex(n: nat): (s: string)
    ensures s != "" && forall i | 0 <= i < |s| :: '0' <= s[i] <= '9' || 'a' <= s[i] <= 'f'
  {
    if n < 16 then [HexDigit(n)] else Hex(n / 16) + [HexDigit(n % 16)]
  }

  lemma {:induction false} HexReadsBack(n: nat)
    ensures DigitsValue(Hex(n), 16) == Some(n)
  {
    var s := Hex(n);
    if n < 16 {
      assert s[..0] == "";
    } else {
      HexReadsBack(n / 16);
      assert s[..|s| - 1] == Hex(n / 16);
    }
  }

  lemma {:induction false} HexIsShort(n: nat, k: nat)
    requires 0 < k && n < PowerOf(16, k)
    ensures |Hex(n)| <= k
  {
    if n >= 16 {
      HexIsShort(n / 16, k - 1);
    }
  }

  lemma CodePointsAreShort(n: nat)
    requires n < 0x11_0000
    ensures |Decimal(n)| <= 7 && |Hex(n)| <= 6
  {
    assert PowerOf(10, 7) == 10_000_000 by {
      assert PowerOf(10, 3) == 1000;
      assert PowerOf(10, 5) == 100_000;
    }
    assert PowerOf(16, 6) == 0x100_0000 by {
      assert PowerOf(16, 3) == 4096;
    }
    DecimalIsShort(n, 7);
    HexIsShort(n, 6);
  }

  /** A decimal reference is its code point, if that is one. */
  lemma DecimalReference(n: nat)
    requires n < 0x11_0000
    ensures Short("#" + Decimal(n))
    ensures Entity("#" + Decimal(n)) == if Utf8.IsScalar(n) then Some(n as char) else None
  {
    hide Decimal, ParseUnsigned;
    CodePointsAreShort(n);
    ParseOfDecimal(n, U32_LIMIT);
    var entity := "#" + Decimal(n);
    assert entity[1..] == Decimal(n);
    assert forall i | 0 <= i < |Decimal(n)| :: Decimal(n)[i] in Decimal(n);
    assert Decimal(n)[0] in Decimal(n);
    NumbersAreNoNames(entity);
  }

  lemma NumbersAreNoNames(entity: string)
    requires entity != "" && entity[0] == '#'
    ensures Entity(entity) == NumericEntity(entity)
  {
  }

  /** So is a hexadecimal one. */
  lemma HexReference(n: nat)
    requires n < 0x11_0000
    ensures Short("#x" + Hex(n))
    ensures Entity("#x" + Hex(n)) == if Utf8.IsScalar(n) then Some(n as char) else None
  {
    hide Hex;
    CodePointsAreShort(n);
    HexReadsBack(n);
    var entity := "#x" + Hex(n);
    assert entity[1..] == "x" + Hex(n) && entity[1..][1..] == Hex(n);
    NumbersAreNoNames(entity);
  }

  // ---------------------------------------------------------------- whole texts

  /** How a character is written. */
  datatype Way = Literal | ByName(index: nat) | ByDecimal | ByHex

  predicate Fits(c: char, way: Way) {
    match way
    case Literal => c != '&'
    case ByName(index) => index < |NAMES| && NAMES[index].1 == c
    case _ => true
  }

  function EntityOf(c: char, way: Way): string
    requires Fits(c, way) && !way.Literal?
  {
    match way
    case ByName(index) => NAMES[index].0
    case ByDecimal => "#" + Decimal(c as int)
    case ByHex => "#x" + Hex(c as int)
  }

  function SpellChar(c: char, way: Way): string
    requires Fits(c, way)
  {
    if way.Literal? then [c] else "&" + EntityOf(c, way) + ";"
  }

  predicate AllFit(t: string, ways: seq<Way>) {
    |ways| == |t| && forall i | 0 <= i < |t| :: Fits(t[i], ways[i])
  }

  /** The text with each character written its own way. */
  function SpellText(t: string, ways: seq<Way>): string
    requires AllFit(t, ways)
  {
    if t == "" then "" else SpellChar(t[0], ways[0]) + SpellText(t[1..], ways[1..])
  }

  lemma EntityOfChar(c: char, way: Way)
    requires Fits(c, way) && !way.Literal?
    ensures Short(EntityOf(c, way)) && Entity(EntityOf(c, way)) == Some(c)
  {
    hide Entity, Short;
    match way
    case ByName(index) => NamesAreKnown(index);
    case ByDecimal => DecimalReference(c as int);
    case ByHex => HexReference(c as int);
  }

  lemma AlignedHead(s: string, n: nat)
    requires n <= |s| && WindowsAligned(s)
    ensures WindowsAligned(s[n..])
    ensures s != "" && s[0] == '&' ==> CutAt(s, WINDOW).Some?
  {
    assert s[0..] == s;
    forall i | 0 <= i < |s[n..]| && s[n..][i] == '&'
      ensures CutAt(s[n..][i..], WINDOW).Some?
    {
      assert s[n..][i..] == s[n + i..] && s[n + i] == '&';
    }
  }

  lemma SpelledChar(c: char, way: Way, rest: string)
    requires Fits(c, way) && (way.Literal? || CutAt(SpellChar(c, way) + rest, WINDOW).Some?)
    ensures Decoded(SpellChar(c, way) + rest) == Prepend([c], Decoded(rest))
  {
    hide Decoded, CutAt, EntityOf, Short, Entity;
    if way.Literal? {
      DecodedPlain([c], rest);
    } else {
      EntityOfChar(c, way);
      DecodedReference(EntityOf(c, way), c, rest);
    }
  }

  lemma SpelledStarts(c: char, way: Way, rest: string)
    requires Fits(c, way) && !way.Literal?
    ensures var s := SpellChar(c, way) + rest; s != "" && s[0] == '&'
  {
    hide EntityOf;
  }

  /**
   Decoding gives a text back, whichever characters of it were written by name or by number, as
   long as no window ends inside a character.
   */
  lemma {:induction false} DecodeUndoesSpelling(t: string, ways: seq<Way>)
    requires AllFit(t, ways) && WindowsAligned(SpellText(t, ways))
    ensures Decoded(SpellText(t, ways)) == Some(t)
  {
    hide Decoded, CutAt, WindowsAligned, SpellChar, SpellText, Fits;
    if |t| == 0 {
      SpellNothing(t, ways);
      DecodeNothing();
    } else {
      SpellFirst(t, ways);
      var head, rest := SpellChar(t[0], ways[0]), SpellText(t[1..], ways[1..]);
      assert (head + rest)[|head|..] == rest;
      AlignedHead(head + rest, |head|);
      DecodeUndoesSpelling(t[1..], ways[1..]);
      if !ways[0].Literal? {
        SpelledStarts(t[0], ways[0], rest);
      }
      SpelledChar(t[0], ways[0], rest);
      assert t == [t[0]] + t[1..];
    }
  }

  lemma SpellNothing(t: string, ways: seq<Way>)
    requires |t| == 0 && AllFit(t, ways)
    ensures t == "" && SpellText(t, ways) == ""
  {
  }

  lemma SpellFirst(t: string, ways: seq<Way>)
    requires |t| > 0 && AllFit(t, ways)
    ensures AllFit(t[1..], ways[1..]) && Fits(t[0], ways[0])
    ensures SpellText(t, ways) == SpellChar(t[0], ways[0]) + SpellText(t[1..], ways[1..])
  {
    hide Fits, SpellChar;
  }
}
