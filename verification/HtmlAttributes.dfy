/**
 The attribute list of a start tag: the scanner's parser, its specification on
 suffixes, and the proof that every printed list is read back.
 */
module HtmlAttributes {
  import opened Text

  type Attribute = (string, string)

  /** What each inner loop of the parser runs up to. */
  datatype Stop = NameEnd | NonSpace | BareValueEnd | Quote(mark: char)

  predicate Ends(stop: Stop, c: char) {
    match stop
    case NameEnd => IsAsciiWhitespace(c) || c == '=' || c == '/' || c == '>'
    case NonSpace => !IsAsciiWhitespace(c)
    case BareValueEnd => IsAsciiWhitespace(c) || c == '/' || c == '>'
    case Quote(mark) => c == mark
  }

  /** How many characters precede the first one that stops the loop. */
  function Until(s: string, stop: Stop): (n: nat)
    ensures n <= |s| && (n < |s| ==> Ends(stop, s[n]))
    ensures forall i | 0 <= i < n :: !Ends(stop, s[i])
  {
    if s == "" || Ends(stop, s[0]) then 0
    else
      var n := Until(s[1..], stop);
      assert forall i | 0 < i <= n :: s[i] == s[1..][i - 1];
      n + 1
  }

  lemma UntilIs(s: string, stop: Stop, n: nat)
    requires n <= |s| && (n < |s| ==> Ends(stop, s[n]))
    requires forall i | 0 <= i < n :: !Ends(stop, s[i])
    ensures Until(s, stop) == n
  {
  }

  /** The value that starts `s`, and how many characters it takes. */
  function Value(s: string): (r: (string, nat))
    requires s != ""
    ensures r.1 <= |s|
  {
    if s[0] == '"' || s[0] == '\'' then
      var n := Until(s[1..], Quote(s[0]));
      (s[1..1 + n], if n + 2 <= |s| then n + 2 else |s|)
    else
      var n := Until(s, BareValueEnd);
      (s[..n], n)
  }

  /** What stands after a name: an `=` and a value, or nothing. */
  datatype Tail = NoValue | CutOff | Valued(value: string, len: nat)

  /** `s` follows the attribute name. */
  function AfterName(s: string): (t: Tail)
    ensures t.Valued? ==> 0 < t.len <= |s|
  {
    var spaces := Until(s, NonSpace);
    if spaces == |s| || s[spaces] != '=' then NoValue
    else
      var start := spaces + 1 + Until(s[spaces + 1..], NonSpace);
      if start == |s| then CutOff
      else
        var value := Value(s[start..]);
        Valued(value.0, start + value.1)
  }

  /** What one round of the parser's loop finds, and how many characters it takes. */
  datatype Round = Round(found: seq<Attribute>, len: nat)

  function RoundAt(s: string): (r: Round)
    requires |s| > 0
    ensures 0 < r.len <= |s|
  {
    if IsAsciiWhitespace(s[0]) || s[0] == '/' then Round([], 1)
    else
      var n := Until(s, NameEnd);
      if n == 0 then Round([], 1)
      else
        match AfterName(s[n..])
        case NoValue => Round([(s[..n], "")], n)
        case CutOff => Round([(s[..n], "")], |s|)
        case Valued(value, len) => Round([(s[..n], value)], n + len)
  }

  function Attributes(s: string): seq<Attribute>
    decreases |s|
  {
    if |s| == 0 then [] else RoundAt(s).found + Attributes(s[RoundAt(s).len..])
  }

  // ---------------------------------------------------------------- the loops

  method ScanUntil(source: string, from: nat, stop: Stop) returns (index: nat)
    requires from <= |source|
    ensures index == from + Until(source[from..], stop)
  {
    index := from;
    while index < |source| && !Ends(stop, source[index])
      invariant from <= index <= |source|
      invariant forall i | from <= i < index :: !Ends(stop, source[i])
    {
      index := index + 1;
    }
    UntilIs(source[from..], stop, index - from);
  }

  method ReadValue(source: string, from: nat) returns (value: string, cursor: nat)
    requires from < |source|
    ensures from <= cursor && (value, cursor - from) == Value(source[from..])
  {
    var first := source[from];
    if first == '"' || first == '\'' {
      var end := ScanUntil(source, from + 1, Quote(first));
      assert source[from..][1..] == source[from + 1..];
      value := source[from + 1..end];
      assert source[from..][1..end - from] == value;
      cursor := if end + 1 < |source| then end + 1 else |source|;
    } else {
      cursor := ScanUntil(source, from, BareValueEnd);
      value := source[from..cursor];
      assert source[from..][..cursor - from] == value;
    }
  }

  /** The part of the loop body after the name: white space, `=`, white space, value. */
  method ReadAfterName(source: string, index: nat) returns (tail: Tail)
    requires index <= |source|
    ensures tail == AfterName(source[index..])
  {
    hide Until, Value;
    ghost var s := source[index..];
    var cursor := ScanUntil(source, index, NonSpace);
    if cursor >= |source| || source[cursor] != '=' {
      return NoValue;
    }
    cursor := cursor + 1;
    assert s[cursor - index..] == source[cursor..];
    cursor := ScanUntil(source, cursor, NonSpace);
    if cursor >= |source| {
      return CutOff;
    }
    assert s[cursor - index..] == source[cursor..];
    var value, end := ReadValue(source, cursor);
    return Valued(value, end - index);
  }

  /** One round of the parser's loop, on the text that is left. */
  lemma AttributeRound(attrs: seq<Attribute>, s: string)
    requires |s| > 0
    ensures attrs + Attributes(s) == attrs + RoundAt(s).found + Attributes(s[RoundAt(s).len..])
  {
    hide RoundAt;
  }

  lemma NoAttributes(attrs: seq<Attribute>, s: string)
    requires |s| == 0
    ensures Attributes(s) == [] && attrs + Attributes(s) == attrs
  {
  }

  /** `parse_attributes`. */
  method ParseAttributes(source: string) returns (attrs: seq<Attribute>)
    ensures attrs == Attributes(source)
  {
    hide Until, AfterName, Attributes, Ends, IsAsciiWhitespace;
    attrs := [];
    var index := 0;
    assert source[0..] == source;
    while index < |source|
      invariant index <= |source|
      invariant Attributes(source) == attrs + Attributes(source[index..])
    {
      ghost var s, start := source[index..], index;
      AttributeRound(attrs, s);
      assert s[RoundAt(s).len..] == source[start + RoundAt(s).len..];
      if IsAsciiWhitespace(source[index]) || source[index] == '/' {
        index := index + 1;
        continue;
      }
      var nameStart := index;
      index := ScanUntil(source, index, NameEnd);
      if index == nameStart {
        index := index + 1;
        continue;
      }
      var key := source[nameStart..index];
      assert s[..index - start] == key && s[index - start..] == source[index..];
      var tail := ReadAfterName(source, index);
      match tail {
        case NoValue =>
          attrs := attrs + [(key, "")];
        case CutOff =>
          attrs := attrs + [(key, "")];
          index := |source|;
        case Valued(value, len) =>
          attrs := attrs + [(key, value)];
          index := index + len;
      }
    }
    NoAttributes(attrs, source[index..]);
  }

  // ------------------------------------------------------------ printing back

  /** How a value is written: in quotes, bare, or not at all. */
  datatype Look = Double | Single | Bare | Absent

  /** An attribute and its spelling: the white space before the name and around the `=`. */
  datatype Spelled = Spelled(key: string, value: string, look: Look, lead: string, left: string, right: string)

  function PairOf(a: Spelled): Attribute {
    (a.key, a.value)
  }

  function Pairs(attrs: seq<Spelled>): (pairs: seq<Attribute>)
    ensures |pairs| == |attrs| && forall i | 0 <= i < |attrs| :: pairs[i] == PairOf(attrs[i])
  {
    if attrs == [] then [] else [PairOf(attrs[0])] + Pairs(attrs[1..])
  }

  function Written(value: string, look: Look): string {
    match look
    case Double => "\"" + value + "\""
    case Single => "'" + value + "'"
    case Bare => value
    case Absent => ""
  }

  function PrintTail(a: Spelled): string {
    if a.look.Absent? then "" else a.left + "=" + a.right + Written(a.value, a.look)
  }

  function PrintAttribute(a: Spelled): string {
    a.lead + a.key + PrintTail(a)
  }

  function PrintAttributes(attrs: seq<Spelled>): string {
    if attrs == [] then "" else PrintAttribute(attrs[0]) + PrintAttributes(attrs[1..])
  }

  /** ASCII white space only. */
  predicate Blank(s: string) {
    forall i | 0 <= i < |s| :: IsAsciiWhitespace(s[i])
  }

  predicate PrintableName(key: string) {
    key != "" && forall i | 0 <= i < |key| :: !Ends(NameEnd, key[i])
  }

  predicate BareValue(value: string) {
    && value != "" && value[0] != '"' && value[0] != '\''
    && forall i | 0 <= i < |value| :: !Ends(BareValueEnd, value[i])
  }

  /** Each look can hold the values without its own end; one that is absent reads as empty. */
  predicate Holds(look: Look, value: string) {
    match look
    case Double => '"' !in value
    case Single => '\'' !in value
    case Bare => BareValue(value)
    case Absent => value == ""
  }

  predicate PrintableAttribute(a: Spelled) {
    && PrintableName(a.key) && Holds(a.look, a.value)
    && Blank(a.lead) && Blank(a.left) && Blank(a.right)
  }

  predicate InQuotes(look: Look) {
    look.Double? || look.Single?
  }

  /** White space is needed before each attribute, except behind a quoted value. */
  predicate Apart(quoted: bool, attrs: seq<Spelled>)
    decreases attrs
  {
    attrs == [] || ((quoted || attrs[0].lead != "") && Apart(InQuotes(attrs[0].look), attrs[1..]))
  }

  predicate PrintableAttributes(attrs: seq<Spelled>) {
    (forall a | a in attrs :: PrintableAttribute(a)) && Apart(false, attrs)
  }

  /** What may follow an attribute: nothing, white space or a slash. */
  predicate Separated(rest: string) {
    rest == "" || IsAsciiWhitespace(rest[0]) || rest[0] == '/'
  }

  /** And after white space, no `=`. */
  predicate NoValueAhead(rest: string) {
    var n := Until(rest, NonSpace);
    n == |rest| || rest[n] != '='
  }

  /** What may follow this attribute: anything behind a closing quote. */
  predicate MayFollow(a: Spelled, rest: string) {
    InQuotes(a.look) || (Separated(rest) && NoValueAhead(rest))
  }

  lemma UntilBlank(blank: string, rest: string)
    requires Blank(blank) && (rest == "" || !IsAsciiWhitespace(rest[0]))
    ensures Until(blank + rest, NonSpace) == |blank|
  {
    UntilIs(blank + rest, NonSpace, |blank|);
  }

  lemma ReadQuotedValue(mark: char, value: string, rest: string)
    requires (mark == '"' || mark == '\'') && mark !in value
    ensures Value([mark] + value + [mark] + rest) == (value, |value| + 2)
  {
    var body := value + [mark] + rest;
    var s := [mark] + value + [mark] + rest;
    assert s[1..] == body;
    forall i | 0 <= i < |value|
      ensures body[i] != mark
    {
      assert value[i] in value;
    }
    UntilIs(body, Quote(mark), |value|);
    assert s[1..1 + |value|] == value;
  }

  lemma ReadBareValue(value: string, rest: string)
    requires BareValue(value) && Separated(rest)
    ensures Value(value + rest) == (value, |value|)
  {
    var s := value + rest;
    UntilIs(s, BareValueEnd, |value|);
    assert s[..|value|] == value;
  }

  lemma ReadWritten(value: string, look: Look, rest: string)
    requires !look.Absent? && Holds(look, value) && (InQuotes(look) || Separated(rest))
    ensures var s := Written(value, look) + rest;
      s != "" && !IsAsciiWhitespace(s[0]) && Value(s) == (value, |Written(value, look)|)
  {
    hide Value;
    match look
    case Double => ReadQuotedValue('"', value, rest);
    case Single => ReadQuotedValue('\'', value, rest);
    case Bare => ReadBareValue(value, rest);
    case Absent =>
  }

  lemma ReadPrintedTail(a: Spelled, rest: string)
    requires PrintableAttribute(a) && !a.look.Absent? && (InQuotes(a.look) || Separated(rest))
    ensures AfterName(PrintTail(a) + rest) == Valued(a.value, |PrintTail(a)|)
  {
    hide Value, Until, Written;
    var written := Written(a.value, a.look) + rest;
    ReadWritten(a.value, a.look, rest);
    UntilBlank(a.right, written);
    var afterEquals := a.right + written;
    UntilBlank(a.left, "=" + afterEquals);
    var s := PrintTail(a) + rest;
    assert s == a.left + ("=" + afterEquals);
    assert s[|a.left| + 1..] == afterEquals && s[|a.left| + 1 + |a.right|..] == written;
  }

  lemma ReadPrintedName(key: string, tail: string)
    requires PrintableName(key) && (tail == "" || Ends(NameEnd, tail[0]))
    ensures Until(key + tail, NameEnd) == |key|
    ensures !IsAsciiWhitespace(key[0]) && key[0] != '/'
  {
    UntilIs(key + tail, NameEnd, |key|);
  }

  /** What follows the name of a printed attribute: its value, or none. */
  lemma AfterPrintedName(a: Spelled, rest: string)
    requires PrintableAttribute(a) && MayFollow(a, rest)
    ensures var tail := PrintTail(a) + rest;
      && (tail == "" || Ends(NameEnd, tail[0]))
      && AfterName(tail) == if a.look.Absent? then NoValue else Valued(a.value, |PrintTail(a)|)
  {
    hide Value, Until;
    if a.look.Absent? {
      assert PrintTail(a) + rest == rest;
    } else {
      hide AfterName;
      ReadPrintedTail(a, rest);
      var tail := PrintTail(a) + rest;
      assert tail[0] == if a.left == "" then '=' else a.left[0];
    }
  }

  /** A round that finds a name, and what it makes of the text after it. */
  lemma NamedRound(key: string, tail: string)
    requires PrintableName(key) && (tail == "" || Ends(NameEnd, tail[0]))
    ensures key + tail != ""
    ensures RoundAt(key + tail) ==
            match AfterName(tail)
            case NoValue => Round([(key, "")], |key|)
            case CutOff => Round([(key, "")], |key| + |tail|)
            case Valued(value, len) => Round([(key, value)], |key| + len)
  {
    hide Until, AfterName;
    ReadPrintedName(key, tail);
    var s := key + tail;
    assert s[..|key|] == key && s[|key|..] == tail && s[0] == key[0];
  }

  /** One round reads a printed attribute. */
  lemma PrintedRound(a: Spelled, rest: string)
    requires PrintableAttribute(a) && MayFollow(a, rest)
    ensures var s := a.key + PrintTail(a) + rest;
      && s != "" && RoundAt(s) == Round([PairOf(a)], |s| - |rest|) && s[|s| - |rest|..] == rest
  {
    hide Until, AfterName, MayFollow, RoundAt, PrintableName, Ends;
    var tail := PrintTail(a) + rest;
    AfterPrintedName(a, rest);
    NamedRound(a.key, tail);
    assert a.look.Absent? ==> a.value == "" && PrintTail(a) == "";
    assert a.key + PrintTail(a) + rest == a.key + tail;
  }

  /** White space, and what cannot start a name, are skipped one by one. */
  lemma {:induction false} ReadNothing(s: string, rest: string)
    requires forall i | 0 <= i < |s| :: Ends(NameEnd, s[i])
    ensures Attributes(s + rest) == Attributes(rest)
  {
    if |s| == 0 {
      assert s + rest == rest;
    } else {
      ReadNothing(s[1..], rest);
      assert (s + rest)[1..] == s[1..] + rest;
      AttributeRound([], s + rest);
      assert [] + Attributes(s + rest) == Attributes(s + rest);
      assert [] + [] + Attributes(s[1..] + rest) == Attributes(s[1..] + rest);
    }
  }

  lemma ReadOneAttribute(a: Spelled, rest: string)
    requires PrintableAttribute(a) && MayFollow(a, rest)
    ensures Attributes(PrintAttribute(a) + rest) == [PairOf(a)] + Attributes(rest)
  {
    hide RoundAt, Attributes, PrintableName, Holds, PrintTail, MayFollow;
    var s := a.key + PrintTail(a) + rest;
    ReadNothing(a.lead, s);
    assert PrintAttribute(a) + rest == a.lead + s;
    PrintedRound(a, rest);
    AttributeRound([], s);
    assert forall found: seq<Attribute> :: [] + found == found;
  }

  /** Behind the attributes: white space and perhaps a slash. */
  predicate TagTail(tail: string) {
    Blank(tail) || (tail[|tail| - 1] == '/' && Blank(tail[..|tail| - 1]))
  }

  lemma TailSeparates(tail: string)
    requires TagTail(tail)
    ensures Separated(tail) && NoValueAhead(tail)
    ensures forall i | 0 <= i < |tail| :: IsAsciiWhitespace(tail[i]) || tail[i] == '/'
  {
    if !Blank(tail) {
      var blank := tail[..|tail| - 1];
      assert tail == blank + "/";
      UntilBlank(blank, "/");
      assert forall i | 0 <= i < |blank| :: tail[i] == blank[i];
    } else {
      assert tail == tail + "";
      UntilBlank(tail, "");
    }
  }

  lemma NextSeparates(a: Spelled, rest: string)
    requires PrintableAttribute(a) && a.lead != ""
    ensures Separated(PrintAttribute(a) + rest) && NoValueAhead(PrintAttribute(a) + rest)
  {
    hide Until;
    var after := a.key + PrintTail(a) + rest;
    UntilBlank(a.lead, after);
    assert PrintAttribute(a) + rest == a.lead + after;
    assert after[0] == a.key[0] && Ends(NameEnd, '=');
  }

  lemma {:induction false} ReadJoined(quoted: bool, attrs: seq<Spelled>, tail: string)
    requires (forall a | a in attrs :: PrintableAttribute(a)) && Apart(quoted, attrs) && TagTail(tail)
    ensures var s := PrintAttributes(attrs) + tail;
      Attributes(s) == Pairs(attrs) && (quoted || (Separated(s) && NoValueAhead(s)))
    decreases attrs
  {
    hide PrintableAttribute, TagTail, Separated, NoValueAhead, PrintAttribute, PairOf, Attributes;
    if |attrs| == 0 {
      TailSeparates(tail);
      ReadNothing(tail, "");
      NoAttributes([], "");
      assert "" + tail == tail && tail + "" == tail;
    } else {
      var rest := PrintAttributes(attrs[1..]) + tail;
      ReadJoined(InQuotes(attrs[0].look), attrs[1..], tail);
      ReadOneAttribute(attrs[0], rest);
      if attrs[0].lead != "" {
        NextSeparates(attrs[0], rest);
      }
      assert PrintAttributes(attrs) + tail == PrintAttribute(attrs[0]) + rest;
    }
  }

  /** `parse_attributes` recovers every printed list, whichever way each value is written. */
  lemma ReadPrintedAttributes(attrs: seq<Spelled>, tail: string)
    requires PrintableAttributes(attrs) && TagTail(tail)
    ensures Attributes(PrintAttributes(attrs) + tail) == Pairs(attrs)
  {
    hide PrintableAttribute, TagTail, Separated, NoValueAhead, PrintAttribute, PairOf, Attributes, Apart;
    ReadJoined(false, attrs, tail);
  }

  // ---------------------------------------------------------------- cut off

  /** A name with an `=` and nothing more has the empty value. */
  lemma CutOffIsEmpty(key: string, left: string, right: string)
    requires PrintableName(key) && Blank(left) && Blank(right)
    ensures Attributes(key + left + "=" + right) == [(key, "")]
  {
    hide Until, RoundAt, Attributes;
    var tail := left + "=" + right;
    var s := key + tail;
    assert key + left + "=" + right == s;
    assert right == right + "";
    UntilBlank(right, "");
    assert tail == left + ("=" + right);
    UntilBlank(left, "=" + right);
    assert tail[|left| + 1..] == right && tail[0] == if left == "" then '=' else left[0];
    assert AfterName(tail) == CutOff;
    NamedRound(key, tail);
    EndsHere(s, (key, ""));
  }

  /** A quote that is never closed holds the rest of the tag. */
  lemma UnfinishedQuoteHoldsTheRest(key: string, left: string, right: string, mark: char, value: string)
    requires PrintableName(key) && Blank(left) && Blank(right) && (mark == '"' || mark == '\'') && mark !in value
    ensures Attributes(key + left + "=" + right + [mark] + value) == [(key, value)]
  {
    hide RoundAt, Attributes, PrintableName, AfterName;
    var written := [mark] + value;
    var tail := left + ("=" + (right + written));
    assert key + left + "=" + right + [mark] + value == key + tail;
    assert tail[0] == if left == "" then '=' else left[0];
    UnfinishedTail(left, right, mark, value);
    NamedRound(key, tail);
    EndsHere(key + tail, (key, value));
  }

  lemma UnfinishedTail(left: string, right: string, mark: char, value: string)
    requires Blank(left) && Blank(right) && (mark == '"' || mark == '\'') && mark !in value
    ensures var tail := left + ("=" + (right + ([mark] + value)));
            AfterName(tail) == Valued(value, |tail|)
  {
    hide Until, Value;
    var written := [mark] + value;
    var tail := left + ("=" + (right + written));
    UntilBlank(right, written);
    UntilBlank(left, "=" + (right + written));
    assert tail[|left| + 1..] == right + written && tail[|left| + 1 + |right|..] == written;
    UnfinishedValue(mark, value);
  }

  lemma UnfinishedValue(mark: char, value: string)
    requires (mark == '"' || mark == '\'') && mark !in value
    ensures Value([mark] + value) == (value, |value| + 1)
  {
    var s := [mark] + value;
    assert s[1..] == value;
    UntilIs(value, Quote(mark), |value|);
    assert s[1..1 + |value|] == value;
  }

  lemma EndsHere(s: string, found: Attribute)
    requires s != "" && RoundAt(s) == Round([found], |s|)
    ensures Attributes(s) == [found]
  {
    hide RoundAt;
    AttributeRound([], s);
    NoAttributes([], s[|s|..]);
    assert [] + Attributes(s) == Attributes(s) && [] + [found] + [] == [found];
  }
}
