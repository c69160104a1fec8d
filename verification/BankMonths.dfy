/** The month headings of a payroll page: which texts name a month, and which month they name. */
module BankMonths {
  import opened Wrappers
  import opened Text

  const MONTH_HEADING_SUFFIX := "银行代发结果"

  /** `strip_suffix`. */
  function StripSuffix(s: string, suffix: string): Option<string> {
    if |suffix| <= |s| && s[|s| - |suffix|..] == suffix then Some(s[..|s| - |suffix|]) else None
  }

  /** `rsplit_once`. */
  function SplitLast(s: string, sep: char): Option<(string, string)> {
    if |s| == 0 then None
    else if s[|s| - 1] == sep then Some((s[..|s| - 1], ""))
    else
      match SplitLast(s[..|s| - 1], sep)
      case None => None
      case Some(parts) => Some((parts.0, parts.1 + [s[|s| - 1]]))
  }

  /** 1 to `width` ASCII digits. */
  predicate IsNumber(s: string, width: nat) {
    0 < |s| <= width && forall i | 0 <= i < |s| :: '0' <= s[i] <= '9'
  }

  function Month(year: string, month: string): string {
    year + "年" + month + "月"
  }

  /** The year and the month before the final `月`. */
  function MonthOf(head: string): Option<string> {
    match SplitLast(head, '年')
    case None => None
    case Some(parts) =>
      var year, month := Trim(parts.0), Trim(parts.1);
      if IsNumber(year, 4) && IsNumber(month, 2) then Some(Month(year, month)) else None
  }

  /** `month_from_heading`. */
  function MonthFromHeading(text: string): Option<string> {
    match StripSuffix(Trim(text), MONTH_HEADING_SUFFIX)
    case None => None
    case Some(head) =>
      match StripSuffix(Trim(head), "月")
      case None => None
      case Some(rest) => MonthOf(rest)
  }

  lemma TrimNothing(s: string)
    requires |s| > 0 && !IsWhitespace(s[0]) && !IsWhitespace(s[|s| - 1])
    ensures Trim(s) == s
  {
  }

  lemma StripAppended(s: string, suffix: string)
    ensures StripSuffix(s + suffix, suffix) == Some(s)
  {
  }

  lemma {:induction false} SplitAtLast(a: string, sep: char, b: string)
    requires forall i | 0 <= i < |b| :: b[i] != sep
    ensures SplitLast(a + [sep] + b, sep) == Some((a, b))
    decreases |b|
  {
    var s := a + [sep] + b;
    if |b| == 0 {
      assert s[..|s| - 1] == a;
    } else {
      var front := b[..|b| - 1];
      SplitAtLast(a, sep, front);
      assert s[..|s| - 1] == a + [sep] + front && b == front + [s[|s| - 1]];
    }
  }

  lemma NumberIsTrimmed(s: string, width: nat)
    requires IsNumber(s, width)
    ensures Trim(s) == s && forall i | 0 <= i < |s| :: s[i] != '年'
  {
    TrimNothing(s);
  }

  lemma MonthOfNumbers(year: string, month: string)
    requires IsNumber(year, 4) && IsNumber(month, 2)
    ensures MonthOf(year + "年" + month) == Some(Month(year, month))
  {
    hide Trim;
    NumberIsTrimmed(year, 4);
    NumberIsTrimmed(month, 2);
    SplitAtLast(year, '年', month);
  }

  lemma {:induction false} SplitLastExactly(s: string, sep: char)
    ensures SplitLast(s, sep).None? ==> sep !in s
    ensures SplitLast(s, sep).Some? ==>
              s == SplitLast(s, sep).value.0 + [sep] + SplitLast(s, sep).value.1 && sep !in SplitLast(s, sep).value.1
    decreases |s|
  {
    if |s| > 0 && s[|s| - 1] != sep {
      SplitLastExactly(s[..|s| - 1], sep);
      assert s == s[..|s| - 1] + [s[|s| - 1]];
    }
  }

  /** Every heading the service writes names its month. */
  lemma HeadingNamesItsMonth(year: string, month: string)
    requires IsNumber(year, 4) && IsNumber(month, 2)
    ensures MonthFromHeading(Month(year, month) + MONTH_HEADING_SUFFIX) == Some(Month(year, month))
  {
    hide Trim, MonthOf, StripSuffix;
    var head := Month(year, month);
    assert head[|head| - 1] == '月' && !IsWhitespace('月') && head[0] == year[0];
    assert MONTH_HEADING_SUFFIX[|MONTH_HEADING_SUFFIX| - 1] == '果';
    TrimNothing(head);
    TrimNothing(head + MONTH_HEADING_SUFFIX);
    StripAppended(head, MONTH_HEADING_SUFFIX);
    StripAppended(year + "年" + month, "月");
    MonthOfNumbers(year, month);
  }

  /** White space that may stand in a heading. */
  datatype Gaps = Gaps(first: string, year: string, mark: string, month: string, suffix: string, last: string)
  {
    predicate Valid() {
      && AllWhitespace(first) && AllWhitespace(year) && AllWhitespace(mark)
      && AllWhitespace(month) && AllWhitespace(suffix) && AllWhitespace(last)
    }
  }

  function Dated(year: string, month: string, gaps: Gaps): string {
    year + gaps.year + "年" + (gaps.mark + month + gaps.month)
  }

  /** The heading of a month, with white space wherever some may stand. */
  function Heading(year: string, month: string, gaps: Gaps): string {
    gaps.first + (Dated(year, month, gaps) + "月" + gaps.suffix + "银行代发结果") + gaps.last
  }

  lemma DatedIsRead(year: string, month: string, gaps: Gaps)
    requires IsNumber(year, 4) && IsNumber(month, 2) && gaps.Valid()
    ensures MonthOf(Dated(year, month, gaps)) == Some(Month(year, month))
  {
    hide Trim;
    var after := gaps.mark + month + gaps.month;
    assert forall i | 0 <= i < |after| :: after[i] != '年' by {
      assert !IsWhitespace('年');
    }
    SplitAtLast(year + gaps.year, '年', after);
    TrimInside("", year, gaps.year);
    assert "" + year + gaps.year == year + gaps.year;
    TrimInside(gaps.mark, month, gaps.month);
  }

  /** A heading names its month whatever white space stands in it, before, between and behind its parts. */
  lemma HeadingIsRead(year: string, month: string, gaps: Gaps)
    requires IsNumber(year, 4) && IsNumber(month, 2) && gaps.Valid()
    ensures MonthFromHeading(Heading(year, month, gaps)) == Some(Month(year, month))
  {
    hide Trim, MonthOf, StripSuffix;
    var dated := Dated(year, month, gaps);
    var head := dated + "月";
    assert head[0] == year[0] && !IsWhitespace('月') && !IsWhitespace('果');
    TrimInside(gaps.first, head + gaps.suffix + "银行代发结果", gaps.last);
    StripAppended(head + gaps.suffix, MONTH_HEADING_SUFFIX);
    TrimInside("", head, gaps.suffix);
    assert "" + head + gaps.suffix == head + gaps.suffix;
    StripAppended(dated, "月");
    DatedIsRead(year, month, gaps);
  }

  /** A text from which a year and a month are read is both in this form. */
  lemma DatedExactly(rest: string) returns (year: string, month: string, before: string, gaps: Gaps)
    requires MonthOf(rest).Some?
    ensures IsNumber(year, 4) && IsNumber(month, 2) && MonthOf(rest) == Some(Month(year, month))
    ensures AllWhitespace(before) && gaps.Valid() && gaps.first == gaps.suffix == gaps.last == ""
    ensures rest == before + Dated(year, month, gaps)
  {
    hide Trim, IsNumber, AllWhitespace;
    SplitLastExactly(rest, '年');
    var parts := SplitLast(rest, '年').value;
    year, month := Trim(parts.0), Trim(parts.1);
    var front, behind := TrimLeaves(parts.0);
    var mark, last := TrimLeaves(parts.1);
    NoWhitespace();
    before, gaps := front, Gaps("", behind, mark, last, "", "");
    assert front + year + behind + "年" + (mark + month + last) == front + (year + behind + "年" + (mark + month + last));
  }

  lemma NoWhitespace()
    ensures AllWhitespace("")
  {
  }

  /** Nothing else names a month: a text that does is the heading of a year and a month with such white space. */
  lemma HeadingExactly(text: string) returns (year: string, month: string, gaps: Gaps)
    requires MonthFromHeading(text).Some?
    ensures IsNumber(year, 4) && IsNumber(month, 2) && MonthFromHeading(text) == Some(Month(year, month))
    ensures gaps.Valid() && text == Heading(year, month, gaps)
  {
    hide Trim, IsNumber, AllWhitespace, MonthOf, Dated;
    var first, last := TrimLeaves(text);
    var head := StripSuffix(Trim(text), MONTH_HEADING_SUFFIX).value;
    StripLeaves(Trim(text), MONTH_HEADING_SUFFIX);
    var middle, suffix := TrimLeaves(head);
    var rest := StripSuffix(Trim(head), "月").value;
    StripLeaves(Trim(head), "月");
    var before, inner;
    year, month, before, inner := DatedExactly(rest);
    WhitespaceJoins(first, middle, before);
    gaps := inner.(first := first + middle + before, suffix := suffix, last := last);
    DatedIgnores(year, month, inner, gaps);
    var dated := Dated(year, month, gaps);
    assert first + (middle + (before + dated + "月") + suffix + MONTH_HEADING_SUFFIX) + last ==
        first + middle + before + (dated + "月" + suffix + MONTH_HEADING_SUFFIX) + last;
  }

  lemma DatedIgnores(year: string, month: string, gaps: Gaps, other: Gaps)
    requires gaps.year == other.year && gaps.mark == other.mark && gaps.month == other.month
    ensures Dated(year, month, gaps) == Dated(year, month, other)
  {
  }

  lemma StripLeaves(s: string, suffix: string)
    ensures StripSuffix(s, suffix).Some? ==> s == StripSuffix(s, suffix).value + suffix
  {
  }

  lemma WhitespaceJoins(a: string, b: string, c: string)
    requires AllWhitespace(a) && AllWhitespace(b) && AllWhitespace(c)
    ensures AllWhitespace(a + b + c)
  {
  }

  /**
   Whatever text was recognized, its month is a year of one to four digits and a month of one or two,
   and the service's own heading for that month is recognized as the same.
   */
  lemma MonthIsCanonical(text: string)
    requires MonthFromHeading(text).Some?
    ensures exists year, month :: IsNumber(year, 4) && IsNumber(month, 2)
                                  && MonthFromHeading(text).value == Month(year, month)
    ensures MonthFromHeading(MonthFromHeading(text).value + MONTH_HEADING_SUFFIX) == MonthFromHeading(text)
  {
    hide Trim, StripSuffix, IsNumber, Month;
    var rest := StripSuffix(Trim(StripSuffix(Trim(text), MONTH_HEADING_SUFFIX).value), "月").value;
    var parts := SplitLast(rest, '年').value;
    HeadingNamesItsMonth(Trim(parts.0), Trim(parts.1));
  }
}
