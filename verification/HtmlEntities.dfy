/**
 White-space collapsing and entity decoding of visible text.

 The decoder looks for `;` in the first 32 bytes after `&`.  That cut is made on
 bytes, so it can fall inside a multi-byte character; the source then panics.
 Here that outcome is `None`.
 */
module HtmlEntities {
  import opened Wrappers
  import opened Text
  import Utf8

  // ------------------------------------------------------------ collapsing

  /** `split_whitespace`: the maximal runs of characters that are not white space. */
  function Words(s: string): (words: seq<string>)
    ensures s != "" && !IsWhitespace(s[|s| - 1]) ==> words != []
    decreases |s|
  {
    if s == "" then []
    else
      var before, last := s[..|s| - 1], s[|s| - 1];
      var words := Words(before);
      if IsWhitespace(last) then words
      else if before == "" || IsWhitespace(before[|before| - 1]) then words + [[last]]
      else words[..|words| - 1] + [words[|words| - 1] + [last]]
  }

  /** The words of a text, separated by one space each. */
  function Collapsed(s: string): string {
    Join(Words(s), ' ')
  }

  /** Whether a character after `before` starts a word of its own. */
  predicate StartsWord(before: string) {
    |before| == 0 || IsWhitespace(before[|before| - 1])
  }

  /** The words after one more character: the same, one more, or a longer last one. */
  function GrownWords(words: seq<string>, before: string, c: char): seq<string> {
    if IsWhitespace(c) then words
    else if StartsWord(before) || |words| == 0 then words + [[c]]
    else words[..|words| - 1] + [words[|words| - 1] + [c]]
  }

  /** The collapsed text after one more character. */
  function GrownText(text: string, words: seq<string>, before: string, c: char): string {
    if IsWhitespace(c) then text
    else if StartsWord(before) && |words| > 0 then text + " " + [c]
    else text + [c]
  }

  /** `collapse_whitespace`. */
  method CollapseWhitespace(value: string) returns (out: string)
    ensures out == Collapsed(value)
  {
    hide Words, Join, IsWhitespace;
    out := "";
    var pendingSpace := false;
    assert value[..0] == "";
    NoWords();
    for i := 0 to |value|
      invariant out == Collapsed(value[..i])
      invariant out == "" <==> |Words(value[..i])| == 0
      invariant pendingSpace <==> out != "" && i > 0 && IsWhitespace(value[i - 1])
    {
      var character := value[i];
      CollapsedSnoc(value[..i], character);
      assert value[..i + 1] == value[..i] + [character];
      if IsWhitespace(character) {
        pendingSpace := out != "";
      } else {
        if pendingSpace {
          out := out + " ";
          pendingSpace := false;
        }
        out := out + [character];
      }
    }
    assert value[..|value|] == value;
  }

  lemma NoWords()
    ensures Words("") == [] && Join([], ' ') == ""
  {
  }

  lemma WordsUnfold(s: string)
    requires |s| > 0
    ensures var before := s[..|s| - 1];
      && Words(s) == GrownWords(Words(before), before, s[|s| - 1])
      && (!StartsWord(before) ==> |Words(before)| > 0)
  {
    hide IsWhitespace;
  }

  lemma WordsSnoc(before: string, c: char)
    ensures Words(before + [c]) == GrownWords(Words(before), before, c)
    ensures !StartsWord(before) ==> |Words(before)| > 0
  {
    hide Words, GrownWords, StartsWord;
    var s := before + [c];
    assert s[..|s| - 1] == before;
    WordsUnfold(s);
  }

  lemma JoinNewWord(words: seq<string>, c: char)
    ensures Join(words + [[c]], ' ') == if |words| > 0 then Join(words, ' ') + " " + [c] else Join(words, ' ') + [c]
  {
    hide Join;
    JoinSnoc(words, [c], ' ');
    if |words| == 0 {
      NoWords();
      assert words == [];
    }
  }

  lemma JoinLongerWord(front: seq<string>, word: string, c: char)
    ensures Join(front + [word + [c]], ' ') == Join(front + [word], ' ') + [c]
  {
    hide Join;
    JoinSnoc(front, word, ' ');
    JoinSnoc(front, word + [c], ' ');
    var text := Join(front, ' ') + [' '];
    assert text + (word + [c]) == text + word + [c];
  }

  lemma JoinLongerLast(words: seq<string>, c: char)
    requires |words| > 0
    ensures Join(words[..|words| - 1] + [words[|words| - 1] + [c]], ' ') == Join(words, ' ') + [c]
  {
    hide Join;
    var front, last := words[..|words| - 1], words[|words| - 1];
    JoinLongerWord(front, last, c);
    assert words == front + [last];
  }

  lemma JoinGrown(words: seq<string>, before: string, c: char)
    requires StartsWord(before) || |words| > 0
    ensures Join(GrownWords(words, before, c), ' ') == GrownText(Join(words, ' '), words, before, c)
  {
    hide Join, IsWhitespace, StartsWord;
    if !IsWhitespace(c) {
      if StartsWord(before) || |words| == 0 {
        JoinNewWord(words, c);
      } else {
        JoinLongerLast(words, c);
      }
    }
  }

  /** One more character: a new word, a longer last word, or nothing. */
  lemma CollapsedSnoc(before: string, c: char)
    ensures Collapsed(before + [c]) == GrownText(Collapsed(before), Words(before), before, c)
    ensures Words(before + [c]) == GrownWords(Words(before), before, c)
  {
    hide Words, Join, GrownWords, GrownText, StartsWord;
    WordsSnoc(before, c);
    JoinGrown(Words(before), before, c);
  }

  predicate IsWord(w: string) {
    w != "" && forall i | 0 <= i < |w| :: !IsWhitespace(w[i])
  }

  lemma GrownAreWords(words: seq<string>, before: string, c: char)
    requires forall w | w in words :: IsWord(w)
    ensures forall w | w in GrownWords(words, before, c) :: IsWord(w)
  {
    hide IsWhitespace, StartsWord;
    forall w | w in GrownWords(words, before, c)
      ensures IsWord(w)
    {
      if w !in words {
        assert w == [c] || w == words[|words| - 1] + [c];
        assert |words| > 0 ==> words[|words| - 1] in words;
      }
    }
  }

  lemma {:induction false} WordsAreWords(s: string)
    ensures forall w | w in Words(s) :: IsWord(w)
    decreases |s|
  {
    hide Words, GrownWords, IsWord, StartsWord;
    if |s| == 0 {
      NoWords();
      assert s == "";
    } else {
      var before, last := s[..|s| - 1], s[|s| - 1];
      WordsAreWords(before);
      WordsSnoc(before, last);
      GrownAreWords(Words(before), before, last);
      assert s == before + [last];
    }
  }

  /** Appending a character never looks back beyond the previous one. */
  lemma GrownBehind(prior: seq<string>, words: seq<string>, a: string, b: string, c: char)
    requires StartsWord(a) == StartsWord(b) && (StartsWord(b) || |words| > 0)
    ensures GrownWords(prior + words, a, c) == prior + GrownWords(words, b, c)
  {
    hide IsWhitespace, StartsWord;
    OneMore(prior, words, [c]);
    if |words| > 0 {
      var all, front, last := prior + words, words[..|words| - 1], words[|words| - 1];
      assert all[..|all| - 1] == prior + front && all[|all| - 1] == last;
      OneMore(prior, front, last + [c]);
    }
  }

  lemma OneMore(prior: seq<string>, words: seq<string>, last: string)
    ensures prior + (words + [last]) == prior + words + [last]
  {
  }

  lemma {:induction false} WordsAcrossSpace(a: string, space: char, b: string)
    requires IsWhitespace(space)
    ensures Words(a + [space] + b) == Words(a) + Words(b)
    decreases |b|
  {
    hide Words, GrownWords, IsWhitespace;
    if |b| == 0 {
      WordsSnoc(a, space);
      NoWords();
      assert b == "" && a + [space] + b == a + [space];
      SpaceAddsNothing(Words(a), a, space);
    } else {
      var front, last := b[..|b| - 1], b[|b| - 1];
      var before := a + [space] + front;
      WordsAcrossSpace(a, space, front);
      assert b == front + [last] && a + [space] + b == before + [last];
      WordsSnoc(before, last);
      WordsSnoc(front, last);
      assert StartsWord(before) == StartsWord(front) by {
        assert |front| > 0 ==> before[|before| - 1] == front[|front| - 1];
      }
      GrownBehind(Words(a), Words(front), before, front, last);
    }
  }

  lemma SpaceAddsNothing(words: seq<string>, before: string, space: char)
    requires IsWhitespace(space)
    ensures GrownWords(words, before, space) == words + []
  {
  }

  lemma {:induction false} WordsOfWord(w: string)
    requires IsWord(w)
    ensures Words(w) == [w]
    decreases |w|
  {
    var front, last := w[..|w| - 1], w[|w| - 1];
    assert w == front + [last];
    WordsSnoc(front, last);
    if front != "" {
      WordsOfWord(front);
    }
  }

  lemma {:induction false} WordsOfJoin(words: seq<string>)
    requires forall w | w in words :: IsWord(w)
    ensures Words(Join(words, ' ')) == words
  {
    if words != [] {
      assert words[0] in words;
      WordsOfWord(words[0]);
      WordsOfJoin(words[1..]);
      if |words| > 1 {
        WordsAcrossSpace(words[0], ' ', Join(words[1..], ' '));
      }
      assert words == [words[0]] + words[1..];
    }
  }

  /** Collapsing keeps the words of a text and is idempotent. */
  lemma CollapsedKeepsWords(s: string)
    ensures Words(Collapsed(s)) == Words(s)
    ensures Collapsed(Collapsed(s)) == Collapsed(s)
  {
    WordsAreWords(s);
    WordsOfJoin(Words(s));
  }

  // ------------------------------------------------------------ entities

  const WINDOW: nat := 32

  /** How many characters the first `budget` bytes of `s` hold; `None` if they end inside one. */
  function CutAt(s: string, budget: nat): (k: Option<nat>)
    ensures k.Some? ==> k.value <= |s|
  {
    if s == "" || budget == 0 then Some(0)
    else
      var n := |Utf8.EncodeChar(s[0])|;
      if n > budget then None
      else
        match CutAt(s[1..], budget - n)
        case None => None
        case Some(k) => Some(k + 1)
  }

  /** `decode_numeric_entity`. */
  function NumericEntity(entity: string): Option<char> {
    if entity == "" || entity[0] != '#' then None
    else
      var digits := entity[1..];
      var code :=
        if digits != "" && (digits[0] == 'x' || digits[0] == 'X')
        then ParseUnsigned(digits[1..], 16, U32_LIMIT)
        else ParseUnsigned(digits, 10, U32_LIMIT);
      if code.Some? && Utf8.IsScalar(code.value) then Some(code.value as char) else None
  }

  function Entity(entity: string): Option<char> {
    if entity == "amp" then Some('&')
    else if entity == "lt" then Some('<')
    else if entity == "gt" then Some('>')
    else if entity == "quot" then Some('"')
    else if entity == "apos" then Some('\'')
    else if entity == "nbsp" then Some(' ')
    else if entity == "hellip" then Some('\U{2026}')
    else if entity == "middot" then Some('\U{B7}')
    else NumericEntity(entity)
  }

  /** What the decoder does at an `&`: emit a character and skip `len`, or panic. */
  datatype Piece = Piece(c: char, len: nat) | Panic

  function AtAmpersand(s: string): (p: Piece)
    requires s != "" && s[0] == '&'
    ensures p.Piece? ==> 0 < p.len <= |s|
  {
    match CutAt(s, WINDOW)
    case None => Panic
    case Some(w) =>
      match Find(s[..w], ";")
      case None => Piece('&', 1)
      case Some(semicolon) =>
        if semicolon == 0 then Piece('&', 1)
        else
          match Entity(s[1..semicolon])
          case None => Piece('&', 1)
          case Some(c) => Piece(c, semicolon + 1)
  }

  function Prepend(prefix: string, r: Option<string>): Option<string> {
    match r
    case None => None
    case Some(text) => Some(prefix + text)
  }

  function Decoded(s: string): Option<string>
    decreases |s|
  {
    if s == "" then Some("")
    else if s[0] != '&' then Prepend([s[0]], Decoded(s[1..]))
    else
      match AtAmpersand(s)
      case Panic => None
      case Piece(c, len) => Prepend([c], Decoded(s[len..]))
  }

  lemma {:induction false} DecodedPlain(plain: string, rest: string)
    requires '&' !in plain
    ensures Decoded(plain + rest) == Prepend(plain, Decoded(rest))
  {
    hide AtAmpersand;
    if plain == "" {
      assert plain + rest == rest;
      assert Decoded(rest).Some? ==> "" + Decoded(rest).value == Decoded(rest).value;
    } else {
      DecodedPlain(plain[1..], rest);
      assert (plain + rest)[1..] == plain[1..] + rest;
      assert plain == [plain[0]] + plain[1..];
      assert Decoded(rest).Some? ==>
          [plain[0]] + (plain[1..] + Decoded(rest).value) == plain + Decoded(rest).value;
    }
  }

  lemma PrependTwice(a: string, b: string, r: Option<string>)
    ensures Prepend(a, Prepend(b, r)) == Prepend(a + b, r)
  {
    assert r.Some? ==> a + (b + r.value) == a + b + r.value;
  }

  /** `decode_entities`. */
  method DecodeEntities(value: string) returns (r: Option<string>)
    ensures r == Decoded(value)
  {
    hide AtAmpersand;
    var out := "";
    var remainder := value;
    assert Decoded(value) == Prepend("", Decoded(value)) by {
      assert Decoded(value).Some? ==> "" + Decoded(value).value == Decoded(value).value;
    }
    while true
      invariant Decoded(value) == Prepend(out, Decoded(remainder))
      decreases |remainder|
    {
      var position := Find(remainder, "&");
      if position.None? {
        break;
      }
      var plain := remainder[..position.value];
      PlainUpTo(remainder, position);
      DecodedPlain(plain, remainder[position.value..]);
      assert remainder == plain + remainder[position.value..];
      PrependTwice(out, plain, Decoded(remainder[position.value..]));
      out := out + plain;
      remainder := remainder[position.value..];
      var piece := AtAmpersand(remainder);
      if piece.Panic? {
        return None;
      }
      PrependTwice(out, [piece.c], Decoded(remainder[piece.len..]));
      out := out + [piece.c];
      remainder := remainder[piece.len..];
    }
    PlainUpTo(remainder, None);
    DecodedPlain(remainder, "");
    assert remainder + "" == remainder;
    assert out + (remainder + "") == out + remainder;
    return Some(out + remainder);
  }

  lemma PlainUpTo(s: string, position: Option<nat>)
    requires position == Find(s, "&")
    ensures position.Some? ==> position.value < |s| && s[position.value] == '&' && '&' !in s[..position.value]
    ensures position.None? ==> '&' !in s
  {
    forall i: nat | i < |s| && s[i] == '&'
      ensures OccursAt(s, "&", i)
    {
      assert s[i..i + 1] == ['&'];
    }
    if position.Some? {
      assert s[position.value..position.value + 1][0] == '&';
    }
  }

  // ------------------------------------------------------------ when the source panics

  /** At every `&`, the 32-byte window ends between two characters. */
  ghost predicate WindowsAligned(s: string) {
    forall i | 0 <= i < |s| && s[i] == '&' :: CutAt(s[i..], WINDOW).Some?
  }

  lemma {:induction false} DigitsLackAmpersand(s: string, radix: nat)
    requires (radix == 10 || radix == 16) && DigitsValue(s, radix).Some?
    ensures '&' !in s
    decreases |s|
  {
    if s != "" {
      DigitsLackAmpersand(s[..|s| - 1], radix);
    }
  }

  lemma NumberLacksAmpersand(s: string, radix: nat, limit: nat)
    requires (radix == 10 || radix == 16) && ParseUnsigned(s, radix, limit).Some?
    ensures '&' !in s
  {
    hide DigitsValue;
    DigitsLackAmpersand(if s[0] == '+' then s[1..] else s, radix);
  }

  lemma EntityLacksAmpersand(entity: string)
    requires Entity(entity).Some?
    ensures '&' !in entity
  {
    hide ParseUnsigned;
    if NumericEntity(entity).Some? {
      var digits := entity[1..];
      if digits != "" && (digits[0] == 'x' || digits[0] == 'X') {
        NumberLacksAmpersand(digits[1..], 16, U32_LIMIT);
      } else {
        NumberLacksAmpersand(digits, 10, U32_LIMIT);
      }
    }
  }

  /** What the decoder skips at an `&` holds no other `&`. */
  lemma SkipsNoAmpersand(s: string)
    requires s != "" && s[0] == '&' && AtAmpersand(s).Piece?
    ensures forall i | 0 < i < AtAmpersand(s).len :: s[i] != '&'
  {
    hide Entity, CutAt;
    var len := AtAmpersand(s).len;
    if len > 1 {
      var entity := s[1..len - 1];
      var w := CutAt(s, WINDOW).value;
      assert s[..w][len - 1..len] == ";";
      EntityLacksAmpersand(entity);
      assert forall i | 0 < i < len - 1 :: s[i] == entity[i - 1];
    }
  }

  lemma AlignedTail(s: string, k: nat)
    requires k <= |s|
    ensures WindowsAligned(s) <==>
      (forall i | 0 <= i < k && s[i] == '&' :: CutAt(s[i..], WINDOW).Some?) && WindowsAligned(s[k..])
  {
    hide CutAt;
    var t := s[k..];
    forall i | 0 <= i < |t|
      ensures t[i] == s[k + i] && t[i..] == s[k + i..]
    {
    }
    if WindowsAligned(t) {
      forall i | k <= i < |s| && s[i] == '&'
        ensures CutAt(s[i..], WINDOW).Some?
      {
        assert t[i - k] == '&' && t[i - k..] == s[i..];
      }
    }
  }

  /** Decoding a text returns exactly when no 32-byte window of it splits a character; otherwise the source panics. */
  lemma {:induction false} PanicExactly(s: string)
    ensures Decoded(s).Some? <==> WindowsAligned(s)
    decreases |s|
  {
    hide CutAt, AtAmpersand, WindowsAligned;
    if s == "" {
      NothingIsAligned();
    } else if s[0] != '&' {
      AlignedTail(s, 1);
      PanicExactly(s[1..]);
    } else {
      assert s[0..] == s;
      PanicsAtCut(s);
      if AtAmpersand(s).Piece? {
        var len := AtAmpersand(s).len;
        SkipsNoAmpersand(s);
        AlignedTail(s, len);
        PanicExactly(s[len..]);
      } else {
        AlignedTail(s, 1);
      }
    }
  }

  lemma NothingIsAligned()
    ensures WindowsAligned("")
  {
  }

  lemma PanicsAtCut(s: string)
    requires s != "" && s[0] == '&'
    ensures AtAmpersand(s).Panic? <==> CutAt(s, WINDOW).None?
  {
    hide CutAt, Entity;
  }

  // ------------------------------------------------------------ escaping

  function EntityName(c: char): (r: Option<string>)
    ensures r.Some? ==> 0 < |r.value| < 8 && forall i | 0 <= i < |r.value| :: 'a' <= r.value[i] <= 'z'
    ensures r.Some? ==> Entity(r.value) == Some(c)
    ensures c == '&' ==> r.Some?
  {
    if c == '&' then Some("amp")
    else if c == '<' then Some("lt")
    else if c == '>' then Some("gt")
    else if c == '"' then Some("quot")
    else if c == '\'' then Some("apos")
    else None
  }

  function EscapeChar(c: char): string {
    match EntityName(c)
    case Some(name) => "&" + name + ";"
    case None => [c]
  }

  function Escape(t: string): string {
    if t == "" then "" else EscapeChar(t[0]) + Escape(t[1..])
  }

  predicate IsAsciiText(s: string) {
    forall i | 0 <= i < |s| :: IsAscii(s[i])
  }

  lemma NoCut(rest: string, budget: nat)
    ensures CutAt(rest, budget) == match CutAt(rest, budget) case None => None case Some(k) => Some(k)
  {
  }

  lemma CutOneByte(s: string, budget: nat)
    requires |s| > 0 && budget > 0 && IsAscii(s[0])
    ensures CutAt(s, budget) == match CutAt(s[1..], budget - 1) case None => None case Some(k) => Some(k + 1)
  {
  }

  lemma {:induction false} CutCoversAscii(ascii: string, rest: string, budget: nat)
    requires |ascii| <= budget && IsAsciiText(ascii)
    ensures CutAt(ascii + rest, budget) ==
      match CutAt(rest, budget - |ascii|) case None => None case Some(k) => Some(|ascii| + k)
  {
    hide CutAt;
    if |ascii| == 0 {
      assert ascii + rest == rest;
      NoCut(rest, budget);
    } else {
      var s := ascii + rest;
      CutCoversAscii(ascii[1..], rest, budget - 1);
      assert s[1..] == ascii[1..] + rest && s[0] == ascii[0];
      CutOneByte(s, budget);
    }
  }

  lemma AtEscape(name: string, c: char, rest: string)
    requires |name| < 8 && forall i | 0 <= i < |name| :: 'a' <= name[i] <= 'z'
    requires Entity(name) == Some(c)
    ensures var s := "&" + name + ";" + rest;
      AtAmpersand(s) == if CutAt(s, WINDOW).Some? then Piece(c, |name| + 2) else Panic
  {
    hide Entity;
    var e := "&" + name + ";";
    var s := e + rest;
    assert s == "&" + name + ";" + rest;
    CutCoversAscii(e, rest, WINDOW);
    if CutAt(s, WINDOW).Some? {
      var w := CutAt(s, WINDOW).value;
      var semicolon := |name| + 1;
      assert s[..w][..semicolon + 1] == e;
      assert e[semicolon..semicolon + 1] == ";";
      forall j: nat | j < semicolon
        ensures !OccursAt(e, ";", j)
      {
        assert e[j..j + 1][0] == e[j];
        assert j > 0 ==> e[j] == name[j - 1];
      }
      FindIsStable(e, s[..w], ";", semicolon);
      assert s[1..semicolon] == name;
    }
  }

  /** One escaped character is decoded back, unless its window splits a character. */
  lemma DecodedEscapeChar(c: char, rest: string)
    ensures var s := EscapeChar(c) + rest;
      Decoded(s) ==
        if EntityName(c).Some? && CutAt(s, WINDOW).None? then None
        else Prepend([c], Decoded(rest))
  {
    hide AtAmpersand, Entity, EntityName;
    var s := EscapeChar(c) + rest;
    assert s[|EscapeChar(c)|..] == rest;
    match EntityName(c) {
      case Some(name) => AtEscape(name, c, rest);
      case None =>
    }
  }

  lemma AlignedEscapeChar(c: char, rest: string)
    ensures var s := EscapeChar(c) + rest;
      WindowsAligned(s) <==> (EntityName(c).Some? ==> CutAt(s, WINDOW).Some?) && WindowsAligned(rest)
  {
    hide Entity, EntityName, CutAt;
    var head := EscapeChar(c);
    var s := head + rest;
    assert s[|head|..] == rest && s[0..] == s;
    AlignedTail(s, |head|);
    assert forall i | 0 < i < |head| :: s[i] != '&';
    assert s[0] == '&' <==> EntityName(c).Some?;
  }

  lemma {:induction false} AlignedEscapeDecodes(t: string)
    requires WindowsAligned(Escape(t))
    ensures Decoded(Escape(t)) == Some(t)
  {
    hide Decoded, CutAt, EscapeChar, WindowsAligned;
    if t == "" {
      DecodeNothing();
    } else {
      var rest := Escape(t[1..]);
      AlignedEscapeChar(t[0], rest);
      AlignedEscapeDecodes(t[1..]);
      DecodedEscapeChar(t[0], rest);
      assert t == [t[0]] + t[1..];
    }
  }

  /** So decoding undoes the escaping of `& < > " '` exactly where the source does not panic. */
  lemma DecodeUndoesEscape(t: string)
    ensures Decoded(Escape(t)) == if WindowsAligned(Escape(t)) then Some(t) else None
  {
    hide Decoded, WindowsAligned, Escape;
    PanicExactly(Escape(t));
    if WindowsAligned(Escape(t)) {
      AlignedEscapeDecodes(t);
    }
  }

  lemma DecodeNothing()
    ensures Decoded("") == Some("") && WindowsAligned("")
  {
  }

  lemma {:induction false} CutOfAscii(s: string, budget: nat)
    requires IsAsciiText(s)
    ensures CutAt(s, budget).Some?
  {
    if s != "" && budget > 0 {
      CutOfAscii(s[1..], budget - 1);
    }
  }

  lemma {:induction false} EscapeOfAscii(t: string)
    requires IsAsciiText(t)
    ensures IsAsciiText(Escape(t))
  {
    if t != "" {
      EscapeOfAscii(t[1..]);
    }
  }

  /** On ASCII the decoder undoes the escaping of every text. */
  lemma DecodeUndoesEscapeOfAscii(t: string)
    requires IsAsciiText(t)
    ensures Decoded(Escape(t)) == Some(t)
  {
    DecodeUndoesEscape(t);
    EscapeOfAscii(t);
    var s := Escape(t);
    forall i | 0 <= i < |s| && s[i] == '&'
      ensures CutAt(s[i..], WINDOW).Some?
    {
      CutOfAscii(s[i..], WINDOW);
    }
  }

  const HAN: char := '\U{4E2D}'

  function HanText(n: nat): (s: string)
    ensures |s| == n && forall i | 0 <= i < n :: s[i] == HAN
  {
    if n == 0 then "" else [HAN] + HanText(n - 1)
  }

  /** A `<` followed by ten or more Chinese characters: the 32nd byte lies inside one. */
  lemma DecodeCanPanic(n: nat)
    requires n >= 10
    ensures Decoded(Escape("<" + HanText(n))) == None
  {
    var tail := HanText(n);
    assert ("<" + tail)[1..] == tail;
    EscapeOfHan(tail);
    CutOfHan(tail, 28);
    CutCoversAscii("&lt;", tail, WINDOW);
    assert EscapeChar('<') == "&lt;";
    DecodedEscapeChar('<', tail);
  }

  lemma {:induction false} EscapeOfHan(s: string)
    requires forall i | 0 <= i < |s| :: s[i] == HAN
    ensures Escape(s) == s
  {
    if s != "" {
      EscapeOfHan(s[1..]);
    }
  }

  lemma {:induction false} CutOfHan(s: string, budget: nat)
    requires forall i | 0 <= i < |s| :: s[i] == HAN
    requires budget < 3 * |s| && budget % 3 != 0
    ensures CutAt(s, budget).None?
  {
    assert |Utf8.EncodeChar(HAN)| == 3;
    if budget >= 3 {
      CutOfHan(s[1..], budget - 3);
    }
  }
}
