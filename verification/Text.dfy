/**
 Character classes and string operations of the Rust standard library that the
 adapters rely on.  Text is a sequence of Unicode scalar values.
 */
module Text {
  import opened Wrappers

  /** `u8::is_ascii_whitespace`: vertical tab is not in this class. */
  predicate IsAsciiWhitespace(c: char) {
    c == ' ' || c == '\t' || c == '\n' || c == '\U{0C}' || c == '\r'
  }

  /** `char::is_whitespace`: the Unicode White_Space property. */
  predicate IsWhitespace(c: char) {
    || '\t' <= c <= '\r'
    || c == ' '
    || c == '\U{85}'
    || c == '\U{A0}'
    || c == '\U{1680}'
    || '\U{2000}' <= c <= '\U{200A}'
    || c == '\U{2028}'
    || c == '\U{2029}'
    || c == '\U{202F}'
    || c == '\U{205F}'
    || c == '\U{3000}'
  }

  /** `char::is_control`. */
  predicate IsControl(c: char) {
    c <= '\U{1F}' || '\U{7F}' <= c <= '\U{9F}'
  }

  predicate IsLowerOrDigit(c: char) {
    'a' <= c <= 'z' || '0' <= c <= '9'
  }

  predicate IsAscii(c: char) {
    c <= '\U{7F}'
  }

  function LowerChar(c: char): char {
    if 'A' <= c <= 'Z' then c + 32 as char else c
  }

  /** `str::to_ascii_lowercase`. */
  function Lower(s: string): string {
    seq(|s|, i requires 0 <= i < |s| => LowerChar(s[i]))
  }

  /** `eq_ignore_ascii_case`. */
  predicate EqIgnoreCase(a: string, b: string) {
    |a| == |b| && forall i | 0 <= i < |a| :: LowerChar(a[i]) == LowerChar(b[i])
  }

  /** A tag name as the adapters write it: a non-empty lowercase constant. */
  predicate IsTagName(name: string) {
    name != "" && forall c | c in name :: IsLowerOrDigit(c)
  }

  /** `pattern` is a substring of `s` starting at `k`. */
  predicate OccursAt(s: string, pattern: string, k: nat) {
    k + |pattern| <= |s| && s[k..k + |pattern|] == pattern
  }

  /** `str::find`, resumed at `from`. */
  function FindFrom(s: string, pattern: string, from: nat): (r: Option<nat>)
    requires from <= |s|
    ensures r.Some? ==> from <= r.value && OccursAt(s, pattern, r.value)
    ensures r.Some? ==> forall k: nat | from <= k < r.value :: !OccursAt(s, pattern, k)
    ensures r.None? ==> forall k: nat | from <= k :: !OccursAt(s, pattern, k)
    decreases |s| - from
  {
    if OccursAt(s, pattern, from) then Some(from)
    else if from == |s| then None
    else FindFrom(s, pattern, from + 1)
  }

  function Find(s: string, pattern: string): (r: Option<nat>)
    ensures r.Some? ==> OccursAt(s, pattern, r.value)
    ensures r.Some? ==> forall k: nat | k < r.value :: !OccursAt(s, pattern, k)
    ensures r.None? ==> forall k: nat :: !OccursAt(s, pattern, k)
  {
    FindFrom(s, pattern, 0)
  }

  /** Whether a pattern occurs is decided by the characters up to its end. */
  lemma OccursInPrefix(s: string, t: string, pattern: string, j: nat, cut: nat)
    requires j + |pattern| <= cut <= |s| && cut <= |t| && s[..cut] == t[..cut]
    ensures OccursAt(t, pattern, j) <==> OccursAt(s, pattern, j)
  {
    assert s[..cut][j..j + |pattern|] == s[j..j + |pattern|];
    assert t[..cut][j..j + |pattern|] == t[j..j + |pattern|];
  }

  /** The first occurrence is determined by the characters up to its end. */
  lemma FindIsStable(s: string, t: string, pattern: string, k: nat)
    requires OccursAt(s, pattern, k)
    requires forall j: nat | j < k :: !OccursAt(s, pattern, j)
    requires k + |pattern| <= |t| && s[..k + |pattern|] == t[..k + |pattern|]
    ensures Find(t, pattern) == Some(k)
  {
    assert k + |pattern| <= |s|;
    forall j: nat | j <= k
      ensures OccursAt(t, pattern, j) <==> OccursAt(s, pattern, j)
    {
      OccursInPrefix(s, t, pattern, j, k + |pattern|);
    }
    hide OccursAt;
  }

  predicate Contains(s: string, pattern: string) {
    Find(s, pattern).Some?
  }

  /** `str::trim`. */
  function TrimStart(s: string): (r: string)
    ensures r != "" ==> !IsWhitespace(r[0])
    ensures |r| <= |s| && r == s[|s| - |r|..]
    ensures forall i | 0 <= i < |s| - |r| :: IsWhitespace(s[i])
  {
    if s != "" && IsWhitespace(s[0]) then TrimStart(s[1..]) else s
  }

  function TrimEnd(s: string): (r: string)
    ensures r != "" ==> !IsWhitespace(r[|r| - 1])
    ensures |r| <= |s| && r == s[..|r|]
    ensures forall i | |r| <= i < |s| :: IsWhitespace(s[i])
  {
    if s != "" && IsWhitespace(s[|s| - 1]) then TrimEnd(s[..|s| - 1]) else s
  }

  function Trim(s: string): (r: string)
    ensures r != "" ==> !IsWhitespace(r[0]) && !IsWhitespace(r[|r| - 1])
  {
    TrimEnd(TrimStart(s))
  }

  predicate AllWhitespace(s: string) {
    forall i | 0 <= i < |s| :: IsWhitespace(s[i])
  }

  predicate IsTrimmed(s: string) {
    |s| > 0 ==> !IsWhitespace(s[0]) && !IsWhitespace(s[|s| - 1])
  }

  lemma {:induction false} TrimStartSkips(before: string, s: string)
    requires AllWhitespace(before) && (|s| > 0 ==> !IsWhitespace(s[0]))
    ensures TrimStart(before + s) == s
  {
    if |before| == 0 {
      assert before + s == s;
    } else {
      TrimStartSkips(before[1..], s);
      assert (before + s)[1..] == before[1..] + s;
    }
  }

  lemma {:induction false} TrimEndSkips(s: string, after: string)
    requires AllWhitespace(after) && (|s| > 0 ==> !IsWhitespace(s[|s| - 1]))
    ensures TrimEnd(s + after) == s
  {
    if |after| == 0 {
      assert s + after == s;
    } else {
      TrimEndSkips(s, after[..|after| - 1]);
      assert (s + after)[..|s + after| - 1] == s + after[..|after| - 1];
    }
  }

  /** What is left of a text inside white space is the text, if it neither starts nor ends with any. */
  lemma TrimInside(before: string, s: string, after: string)
    requires AllWhitespace(before) && IsTrimmed(s) && AllWhitespace(after)
    ensures Trim(before + s + after) == s
  {
    hide IsWhitespace;
    if |s| == 0 {
      assert before + s + after == before + after + s;
      TrimStartSkips(before + after, s);
    } else {
      assert before + s + after == before + (s + after);
      TrimStartSkips(before, s + after);
      TrimEndSkips(s, after);
    }
  }

  /** Every text is its trimmed form inside white space. */
  lemma TrimLeaves(s: string) returns (before: string, after: string)
    ensures AllWhitespace(before) && IsTrimmed(Trim(s)) && AllWhitespace(after) && s == before + Trim(s) + after
  {
    hide IsWhitespace, TrimStart, TrimEnd;
    var rest := TrimStart(s);
    var inner := TrimEnd(rest);
    assert Trim(s) == inner;
    before, after := s[..|s| - |rest|], rest[|inner|..];
    assert rest == inner + after && s == before + rest;
    assert before + (inner + after) == before + inner + after;
  }

  // ------------------------------------------------------------ split and join

  /** `str::split` on one character: always at least one piece. */
  function Split(s: string, sep: char): (pieces: seq<string>)
    ensures |pieces| > 0
  {
    if s == "" then [""]
    else
      var rest := Split(s[1..], sep);
      if s[0] == sep then [""] + rest
      else [[s[0]] + rest[0]] + rest[1..]
  }

  function Join(pieces: seq<string>, sep: char): string {
    if |pieces| == 0 then ""
    else if |pieces| == 1 then pieces[0]
    else pieces[0] + [sep] + Join(pieces[1..], sep)
  }

  lemma {:induction false} SplitPiece(a: string, b: string, sep: char)
    requires sep !in a
    ensures Split(a + [sep] + b, sep) == [a] + Split(b, sep)
    ensures Split(a, sep) == [a]
  {
    if a == "" {
      assert a + [sep] + b == [sep] + b;
      assert ([sep] + b)[1..] == b;
    } else {
      SplitPiece(a[1..], b, sep);
      assert (a + [sep] + b)[1..] == a[1..] + [sep] + b;
      assert a == [a[0]] + a[1..];
    }
  }

  /** Splitting undoes joining when no piece holds the separator. */
  lemma {:induction false} SplitOfJoin(pieces: seq<string>, sep: char)
    requires |pieces| > 0
    requires forall p | p in pieces :: sep !in p
    ensures Split(Join(pieces, sep), sep) == pieces
  {
    assert pieces[0] in pieces;
    if |pieces| == 1 {
      SplitPiece(pieces[0], "", sep);
    } else {
      SplitOfJoin(pieces[1..], sep);
      SplitPiece(pieces[0], Join(pieces[1..], sep), sep);
      assert pieces == [pieces[0]] + pieces[1..];
    }
  }

  /** Joining undoes splitting, always. */
  lemma {:induction false} JoinOfSplit(s: string, sep: char)
    ensures Join(Split(s, sep), sep) == s
    ensures forall p | p in Split(s, sep) :: sep !in p
  {
    if s != "" {
      JoinOfSplit(s[1..], sep);
      var rest := Split(s[1..], sep);
      assert rest[0] in rest;
      if s[0] == sep {
        assert Split(s, sep)[1..] == rest;
        assert s == [sep] + s[1..];
      } else {
        var all := Split(s, sep);
        assert all[1..] == rest[1..];
        assert s == [s[0]] + s[1..];
        if |rest| > 1 {
          assert Join(all, sep) == [s[0]] + (rest[0] + [sep] + Join(rest[1..], sep));
        }
      }
    }
  }

  /** Appending one more joined piece. */
  lemma {:induction false} JoinSnoc(pieces: seq<string>, last: string, sep: char)
    ensures Join(pieces + [last], sep) == if |pieces| == 0 then last else Join(pieces, sep) + [sep] + last
  {
    if |pieces| == 0 {
    } else if |pieces| == 1 {
      assert (pieces + [last])[1..] == [last];
    } else {
      JoinSnoc(pieces[1..], last, sep);
      assert (pieces + [last])[1..] == pieces[1..] + [last];
    }
  }

  // ---------------------------------------------------------- decimal and radix

  const U32_LIMIT: nat := 0x1_0000_0000
  const U128_LIMIT: nat := 0x1_0000_0000_0000_0000_0000_0000_0000_0000

  function DigitChar(d: nat): char
    requires d < 10
  {
    '0' + d as char
  }

  /** `char::to_digit` for radix 10 and 16. */
  function DigitValue(c: char, radix: nat): (r: Option<nat>)
    requires radix == 10 || radix == 16
    ensures r.Some? ==> r.value < radix
  {
    if '0' <= c <= '9' then Some((c - '0') as nat)
    else if radix == 16 && 'a' <= c <= 'f' then Some((c - 'a') as nat + 10)
    else if radix == 16 && 'A' <= c <= 'F' then Some((c - 'A') as nat + 10)
    else None
  }

  /** Decimal rendering, as `ToString` does it for unsigned integers. */
  function Decimal(n: nat): (s: string)
    ensures s != "" && forall c | c in s :: '0' <= c <= '9'
  {
    if n < 10 then [DigitChar(n)] else Decimal(n / 10) + [DigitChar(n % 10)]
  }

  function DigitsValue(s: string, radix: nat): Option<nat>
    requires radix == 10 || radix == 16
    decreases |s|
  {
    if s == "" then Some(0)
    else
      match DigitsValue(s[..|s| - 1], radix)
      case None => None
      case Some(high) =>
        match DigitValue(s[|s| - 1], radix)
        case None => None
        case Some(low) => Some(high * radix + low)
  }

  /**
   Unsigned `from_str_radix`: one leading `+` is allowed, at least one digit is
   required, and a value at or above `limit` overflows.
   */
  function ParseUnsigned(s: string, radix: nat, limit: nat): Option<nat>
    requires radix == 10 || radix == 16
  {
    var digits := if s != "" && s[0] == '+' then s[1..] else s;
    if digits == "" then None
    else
      match DigitsValue(digits, radix)
      case None => None
      case Some(n) => if n < limit then Some(n) else None
  }

  predicate IsDigit(c: char, radix: nat) {
    '0' <= c <= '9' || (radix == 16 && ('a' <= c <= 'f' || 'A' <= c <= 'F'))
  }

  predicate AllDigits(s: string, radix: nat) {
    forall i | 0 <= i < |s| :: IsDigit(s[i], radix)
  }

  /** One or more digits; letters in either case. */
  predicate IsNumeral(s: string, radix: nat) {
    |s| > 0 && AllDigits(s, radix)
  }

  function DigitOf(c: char): nat
    requires IsDigit(c, 16)
  {
    if c <= '9' then c as int - '0' as int
    else if c <= 'F' then c as int - 'A' as int + 10
    else c as int - 'a' as int + 10
  }

  function ValueOf(s: string, radix: nat): nat
    requires radix <= 16 && AllDigits(s, radix)
  {
    if |s| == 0 then 0 else ValueOf(s[..|s| - 1], radix) * radix + DigitOf(s[|s| - 1])
  }

  lemma {:induction false} DigitsExactly(s: string, radix: nat)
    requires radix == 10 || radix == 16
    ensures DigitsValue(s, radix) == if AllDigits(s, radix) then Some(ValueOf(s, radix)) else None
  {
    if |s| > 0 {
      DigitsExactly(s[..|s| - 1], radix);
      DigitExactly(s[|s| - 1], radix);
      assert AllDigits(s, radix) <==> AllDigits(s[..|s| - 1], radix) && IsDigit(s[|s| - 1], radix);
    }
  }

  lemma DigitExactly(c: char, radix: nat)
    requires radix == 10 || radix == 16
    ensures DigitValue(c, radix) == if IsDigit(c, radix) then Some(DigitOf(c)) else None
  {
  }

  /** But for one plus sign, a number below the limit is a numeral, and anything else is none. */
  lemma UnsignedExactly(s: string, radix: nat, limit: nat) returns (sign: string, digits: string)
    requires radix == 10 || radix == 16
    ensures s == sign + digits && sign in {"", "+"} && (sign == "" && digits != "" ==> digits[0] != '+')
    ensures ParseUnsigned(s, radix, limit) ==
            if IsNumeral(digits, radix) && ValueOf(digits, radix) < limit then Some(ValueOf(digits, radix)) else None
  {
    hide DigitsValue, ValueOf, AllDigits;
    sign := if s != "" && s[0] == '+' then s[..1] else "";
    assert sign != "" ==> sign == [s[0]];
    digits := s[|sign|..];
    DigitsExactly(digits, radix);
  }

  lemma {:induction false} DecimalValue(n: nat)
    ensures DigitsValue(Decimal(n), 10) == Some(n)
  {
    if n < 10 {
      assert [DigitChar(n)][..0] == "";
    } else {
      DecimalValue(n / 10);
      var s := Decimal(n);
      assert s[..|s| - 1] == Decimal(n / 10);
    }
  }

  /** Rendering then parsing returns the number, below the type's limit. */
  lemma {:induction false} ParseOfDecimal(n: nat, limit: nat)
    ensures ParseUnsigned(Decimal(n), 10, limit) == if n < limit then Some(n) else None
  {
    DecimalValue(n);
    assert Decimal(n)[0] in Decimal(n);
  }
}
