/**
 Elements of a page: finding the next one, parsing the slice it occupies, and
 collecting the outermost elements of one name.
 */
module HtmlElements {
  import opened Wrappers
  import opened Text
  import opened HtmlTags
  import opened HtmlClose
  import opened HtmlAttributes
  import opened HtmlEntities
  import Utf8

  const MAX_ELEMENTS: nat := 16_384
  const MAX_ELEMENT_BYTES: nat := 1024 * 1024

  datatype RawElement = RawElement(name: string, attrs: seq<Attribute>, outer: string, inner: string) {

    /** The value of the first attribute of that name. */
    function Attr(key: string): Option<string> {
      FirstValue(attrs, key)
    }
  }

  function FirstValue(attrs: seq<Attribute>, key: string): Option<string> {
    if attrs == [] then None
    else if attrs[0].0 == key then Some(attrs[0].1)
    else FirstValue(attrs[1..], key)
  }

  /** `normalize_text`; `None` where the decoder panics. */
  function Normalized(value: string): Option<string> {
    Decoded(Collapsed(value))
  }

  function NormalizedAttributes(attrs: seq<Attribute>): Option<seq<Attribute>> {
    if attrs == [] then Some([])
    else
      match (Normalized(attrs[0].1), NormalizedAttributes(attrs[1..]))
      case (Some(value), Some(rest)) => Some([(Lower(attrs[0].0), value)] + rest)
      case _ => None
  }

  // ---------------------------------------------------------------- specification

  /** A text that starts with `<name` and a tag delimiter. */
  predicate BeginsElement(s: string, name: string) {
    s != "" && s[0] == '<' && StartsWithTagName(s[1..], name)
  }

  /** How many characters the search for a start tag passes over at the head; 0 at a start tag. */
  function PassOver(s: string, name: string): (len: nat)
    requires s != ""
    ensures len <= |s|
    ensures len == 0 ==> BeginsElement(s, name)
  {
    if s[0] != '<' then 1
    else if "<!--" <= s then CommentEnd(s)
    else if "</" <= s then 2
    else if StartsWithTagName(s[1..], name) then 0
    else 1
  }

  /** Whether a start tag whose source is `tag` has no content. */
  predicate Childless(name: string, tag: string) {
    IsVoid(name) || SelfClosing(tag)
  }

  /** Where the element that starts `s` ends. */
  function ElementEnd(s: string, name: string): (r: Result<nat, ScanError>)
    ensures r.Ok? ==> 0 < r.value <= |s|
  {
    match TagEnd(s)
    case None => Err(Unbalanced("element start tag"))
    case Some(k) =>
      if Childless(name, s[..k + 1]) then Ok(k + 1)
      else
        match MatchingClose(s[k + 1..], name, 1)
        case Err(error) => Err(error)
        case Ok(None) => Err(Unbalanced("element close tag"))
        case Ok(Some(close)) => Ok(k + 1 + close.end)
  }

  /** The text between the start tag and the matching close in `s`. */
  function InnerText(s: string, name: string): string
    requires ElementEnd(s, name).Ok?
  {
    match TagEnd(s)
    case None => ""
    case Some(k) =>
      if Childless(name, s[..k + 1]) then ""
      else
        match MatchingClose(s[k + 1..], name, 1)
        case Ok(Some(close)) => s[k + 1..][..close.start]
        case _ => ""
  }

  function NextElement(s: string, name: string): (r: SpanResult)
    ensures r.Ok? && r.value.Some? ==> r.value.value.start < r.value.value.end <= |s|
    decreases |s|
  {
    if s == "" then Ok(None)
    else
      var len := PassOver(s, name);
      if len > 0 then Shift(NextElement(s[len..], name), len)
      else
        match ElementEnd(s, name)
        case Err(error) => Err(error)
        case Ok(end) => Ok(Some(Span(0, end)))
  }

  /** `parse_element`, for a slice that begins with `<name`. */
  function ParseElement(name: string, source: string): Result<RawElement, ScanError>
    requires IsTagName(name) && BeginsElement(source, name)
  {
    if Utf8.Len(source) > MAX_ELEMENT_BYTES then Err(TooLarge("element size"))
    else
      match TagEnd(source)
      case None => Err(Unbalanced("element start tag"))
      case Some(k) =>
        NameHasNoTagEnd(source, 1, name, k);
        match NormalizedAttributes(Attributes(source[1 + |name|..k]))
        case None => Err(SplitCharacter)
        case Some(attrs) =>
          if Childless(name, source[..k + 1]) then Ok(RawElement(name, attrs, source, ""))
          else
            match MatchingClose(source[k + 1..], name, 1)
            case Err(error) => Err(error)
            case Ok(None) => Err(Unbalanced("element close tag"))
            case Ok(Some(close)) =>
              if k + 1 + close.end != |source| then Err(Unbalanced("element boundary"))
              else Ok(RawElement(name, attrs, source, source[k + 1..k + 1 + close.start]))
  }

  type Elements = Result<seq<RawElement>, ScanError>

  function PrependElements(found: seq<RawElement>, r: Elements): Elements {
    match r
    case Ok(rest) => Ok(found + rest)
    case Err(_) => r
  }

  /** The scan loop on the text that is left, after `count` elements. */
  function ScanFrom(s: string, name: string, count: nat, context: string): Elements
    requires IsTagName(name)
    decreases |s|
  {
    match NextElement(s, name)
    case Err(error) => Err(error)
    case Ok(None) => Ok([])
    case Ok(Some(span)) =>
      NextElementBegins(s, name);
      match ParseElement(name, s[span.start..span.end])
      case Err(error) => Err(error)
      case Ok(element) =>
        if count + 1 > MAX_ELEMENTS then Err(TooLarge(context))
        else PrependElements([element], ScanFrom(s[span.end..], name, count + 1, context))
  }

  // ---------------------------------------------------------------- two passes agree

  /** A found range starts at a start tag and is the element that starts there. */
  lemma {:induction false} NextElementFinds(s: string, name: string, span: Span)
    requires NextElement(s, name) == Ok(Some(span))
    ensures BeginsElement(s[span.start..], name)
    ensures ElementEnd(s[span.start..], name) == Ok(span.end - span.start)
    decreases |s|
  {
    hide PassOver, ElementEnd, BeginsElement;
    var len := PassOver(s, name);
    if len > 0 {
      hide Shift;
      ShiftInverse(NextElement(s[len..], name), len, span);
      NextElementFinds(s[len..], name, Span(span.start - len, span.end - len));
      assert s[len..][span.start - len..] == s[span.start..];
    } else {
      assert s[0..] == s;
    }
  }

  lemma NextElementBegins(s: string, name: string)
    requires IsTagName(name)
    requires NextElement(s, name).Ok? && NextElement(s, name).value.Some?
    ensures var span := NextElement(s, name).value.value;
      BeginsElement(s[span.start..span.end], name)
  {
    hide NextElement, ElementEnd, IsTagName;
    var span := NextElement(s, name).value.value;
    NextElementFinds(s, name, span);
    SliceBegins(s[span.start..], name, span.end - span.start);
    assert s[span.start..][..span.end - span.start] == s[span.start..span.end];
  }

  lemma SliceBegins(s: string, name: string, end: nat)
    requires IsTagName(name) && BeginsElement(s, name) && ElementEnd(s, name) == Ok(end)
    ensures BeginsElement(s[..end], name)
    ensures var k := TagEnd(s).value; k + 1 <= end && |name| < k && TagEnd(s[..end]) == Some(k)
  {
    hide StartsWithTagName, TagEnd, MatchingClose, IsVoid;
    var k := TagEnd(s).value;
    NameHasNoTagEnd(s, 1, name, k);
    assert s[..end][..k + 1] == s[..k + 1];
    TagEndOfPrefix(s, s[..end], k);
    assert s[..end][1..] == s[1..][..end - 1];
    TagNameOfPrefix(s[1..], s[..end][1..], name);
  }

  /** The matching close is found at the same place in the slice. */
  lemma SliceCloses(s: string, name: string, end: nat)
    requires IsTagName(name) && BeginsElement(s, name) && ElementEnd(s, name) == Ok(end)
    requires !Childless(name, s[..TagEnd(s).value + 1])
    ensures var k := TagEnd(s).value;
      && k + 1 <= end
      && MatchingClose(s[..end][k + 1..], name, 1) == MatchingClose(s[k + 1..], name, 1)
      && MatchingClose(s[k + 1..], name, 1).Ok? && MatchingClose(s[k + 1..], name, 1).value.Some?
      && MatchingClose(s[k + 1..], name, 1).value.value.end == end - (k + 1)
  {
    hide BeginsElement, IsTagName, TagEnd, MatchingClose, Childless;
    var k := TagEnd(s).value;
    var close := MatchingClose(s[k + 1..], name, 1).value.value;
    MatchingCloseOfPrefix(s[k + 1..], end - (k + 1), name, 1, close);
    assert s[..end][k + 1..] == s[k + 1..][..end - (k + 1)];
  }

  /**
   The second pass, on the slice alone, finds the same tag end and the same close:
   it never reports an unbalanced element, and its inner text is the text between
   the tag end and the close of the full page.
   */
  lemma TwoPassesAgree(s: string, name: string, end: nat)
    requires IsTagName(name) && BeginsElement(s, name) && ElementEnd(s, name) == Ok(end)
    ensures BeginsElement(s[..end], name)
    ensures
      match ParseElement(name, s[..end])
      case Err(error) =>
        error == (if Utf8.Len(s[..end]) > MAX_ELEMENT_BYTES then TooLarge("element size") else SplitCharacter)
      case Ok(element) => element.outer == s[..end] && element.inner == InnerText(s, name)
  {
    hide BeginsElement, IsTagName, TagEnd, MatchingClose, Childless, Attributes, NormalizedAttributes, Utf8.Len;
    SliceBegins(s, name, end);
    var k := TagEnd(s).value;
    var source := s[..end];
    assert source[..k + 1] == s[..k + 1];
    if Childless(name, s[..k + 1]) {
      assert end == k + 1;
    } else {
      SliceCloses(s, name, end);
      hide ElementEnd;
      var close := MatchingClose(s[k + 1..], name, 1).value.value;
      assert source[k + 1..k + 1 + close.start] == s[k + 1..][..close.start];
    }
  }

  // ---------------------------------------------------------------- the loops

  method NextElementIn(body: string, from: nat, name: string) returns (r: SpanResult)
    requires from <= |body|
    ensures r == Shift(NextElement(body[from..], name), from)
  {
    hide StartsWithTagName, TagEnd, CommentEnd, SelfClosing, IsVoid, NextElement, ElementEnd, Shift, MatchingClose;
    var index := from;
    while index < |body|
      invariant from <= index <= |body|
      invariant Shift(NextElement(body[from..], name), from) == Shift(NextElement(body[index..], name), index)
    {
      var rest := body[index..];
      NextElementRound(body, index, name);
      if rest[0] != '<' {
        index := index + 1;
      } else if "<!--" <= rest {
        index := index + CommentEnd(rest);
      } else if "</" <= rest {
        index := index + 2;
      } else if StartsWithTagName(rest[1..], name) {
        r := ElementIn(body, index, name);
        return;
      } else {
        index := index + 1;
      }
    }
    NextElementRound(body, index, name);
    return Ok(None);
  }

  /** One round of the search, in the coordinates of the whole text. */
  lemma NextElementRound(body: string, index: nat, name: string)
    requires index <= |body|
    ensures
      var s := body[index..];
      var here := Shift(NextElement(s, name), index);
      if s == "" then here == Ok(None)
      else
        var len := PassOver(s, name);
        if len > 0 then here == Shift(NextElement(body[index + len..], name), index + len)
        else
          match ElementEnd(s, name)
          case Err(error) => here == Err(error)
          case Ok(end) => here == Ok(Some(Span(index, index + end)))
  {
    hide PassOver, ElementEnd;
    var s := body[index..];
    if s != "" {
      assert s[PassOver(s, name)..] == body[index + PassOver(s, name)..];
    }
  }

  /** The end of the element that starts at `index`. */
  method ElementIn(body: string, index: nat, name: string) returns (r: SpanResult)
    requires index < |body|
    ensures r == match ElementEnd(body[index..], name)
                 case Err(error) => Err(error)
                 case Ok(end) => Ok(Some(Span(index, index + end)))
  {
    hide TagEnd, MatchingClose, IsVoid;
    ghost var s := body[index..];
    var openEnd := FindTagEnd(body, index);
    if openEnd.None? {
      return Err(Unbalanced("element start tag"));
    }
    var next := openEnd.value + 1;
    assert s[..next - index] == body[index..next] && s[next - index..] == body[next..];
    if IsVoid(name) || SelfClosing(body[index..next]) {
      return Ok(Some(Span(index, next)));
    }
    var close := FindMatchingClose(body, next, name);
    match close {
      case Err(error) => return Err(error);
      case Ok(None) => return Err(Unbalanced("element close tag"));
      case Ok(Some(span)) => return Ok(Some(Span(index, span.end)));
    }
  }

  function PrependAttributes(out: seq<Attribute>, r: Option<seq<Attribute>>): Option<seq<Attribute>> {
    match r
    case None => None
    case Some(rest) => Some(out + rest)
  }

  lemma NormalizedRound(parsed: seq<Attribute>, i: nat, out: seq<Attribute>)
    requires i < |parsed|
    ensures PrependAttributes(out, NormalizedAttributes(parsed[i..])) ==
      match Normalized(parsed[i].1)
      case None => None
      case Some(value) =>
        PrependAttributes(out + [(Lower(parsed[i].0), value)], NormalizedAttributes(parsed[i + 1..]))
  {
    hide Normalized;
    assert parsed[i..][1..] == parsed[i + 1..];
    var rest := NormalizedAttributes(parsed[i + 1..]);
    var value := Normalized(parsed[i].1);
    assert value.Some? && rest.Some? ==>
        out + ([(Lower(parsed[i].0), value.value)] + rest.value) ==
            out + [(Lower(parsed[i].0), value.value)] + rest.value;
  }

  method NormalizeAttributes(parsed: seq<Attribute>) returns (attrs: Option<seq<Attribute>>)
    ensures attrs == NormalizedAttributes(parsed)
  {
    hide Decoded, Collapsed;
    var out: seq<Attribute> := [];
    assert parsed[0..] == parsed;
    assert NormalizedAttributes(parsed).Some? ==>
        [] + NormalizedAttributes(parsed).value == NormalizedAttributes(parsed).value;
    for i := 0 to |parsed|
      invariant NormalizedAttributes(parsed) == PrependAttributes(out, NormalizedAttributes(parsed[i..]))
    {
      NormalizedRound(parsed, i, out);
      var collapsed := CollapseWhitespace(parsed[i].1);
      var value := DecodeEntities(collapsed);
      if value.None? {
        return None;
      }
      out := out + [(Lower(parsed[i].0), value.value)];
    }
    assert parsed[|parsed|..] == [] && out + [] == out;
    assert NormalizedAttributes([]) == Some([]);
    return Some(out);
  }

  method Parse(name: string, source: string) returns (r: Result<RawElement, ScanError>)
    requires IsTagName(name) && BeginsElement(source, name)
    ensures r == ParseElement(name, source)
  {
    hide BeginsElement, IsTagName, TagEnd, MatchingClose, IsVoid, Attributes, NormalizedAttributes, Utf8.Encode;
    if Utf8.Len(source) > MAX_ELEMENT_BYTES {
      return Err(TooLarge("element size"));
    }
    var openEnd := FindTagEnd(source, 0);
    assert source[0..] == source;
    if openEnd.None? {
      return Err(Unbalanced("element start tag"));
    }
    var k := openEnd.value;
    NameLengthBound(name, source, k);
    var parsed := ParseAttributes(source[1 + |name|..k]);
    var attrs := NormalizeAttributes(parsed);
    if attrs.None? {
      return Err(SplitCharacter);
    }
    if IsVoid(name) || SelfClosing(source[..k + 1]) {
      return Ok(RawElement(name, attrs.value, source, ""));
    }
    var close := FindMatchingClose(source, k + 1, name);
    match close {
      case Err(error) => return Err(error);
      case Ok(None) => return Err(Unbalanced("element close tag"));
      case Ok(Some(span)) =>
        if span.end != |source| {
          return Err(Unbalanced("element boundary"));
        }
        return Ok(RawElement(name, attrs.value, source, source[k + 1..span.start]));
    }
  }

  lemma NameLengthBound(name: string, source: string, k: nat)
    requires IsTagName(name) && BeginsElement(source, name) && TagEnd(source) == Some(k)
    ensures |name| < k < |source|
  {
    NameHasNoTagEnd(source, 1, name, k);
  }

  /** One round of the scan loop, in the coordinates of the whole text. */
  function ScanRound(body: string, index: nat, name: string, context: string, found: seq<RawElement>): Elements
    requires IsTagName(name) && index <= |body|
  {
    match NextElement(body[index..], name)
    case Err(error) => Err(error)
    case Ok(None) => Ok(found)
    case Ok(Some(span)) =>
      NextElementBegins(body[index..], name);
      var start, end := index + span.start, index + span.end;
      assert body[start..end] == body[index..][span.start..span.end];
      match ParseElement(name, body[start..end])
      case Err(error) => Err(error)
      case Ok(element) =>
        if |found| + 1 > MAX_ELEMENTS then Err(TooLarge(context))
        else PrependElements(found + [element], ScanFrom(body[end..], name, |found| + 1, context))
  }

  lemma ScanRoundIsScan(body: string, index: nat, name: string, context: string, found: seq<RawElement>)
    requires IsTagName(name) && index <= |body|
    ensures PrependElements(found, ScanFrom(body[index..], name, |found|, context)) ==
            ScanRound(body, index, name, context, found)
  {
    hide NextElement, ParseElement, IsTagName, BeginsElement;
    var s := body[index..];
    match NextElement(s, name) {
      case Err(_) =>
      case Ok(None) => assert found + [] == found;
      case Ok(Some(span)) =>
        NextElementBegins(s, name);
        assert body[index + span.start..index + span.end] == s[span.start..span.end];
        assert s[span.end..] == body[index + span.end..];
        var r := ParseElement(name, s[span.start..span.end]);
        if r.Ok? {
          PrependTwiceElements(found, [r.value], ScanFrom(s[span.end..], name, |found| + 1, context));
        }
    }
  }

  /** `scan` and `direct_children` share this loop; only the limit's message differs. */
  method Collect(body: string, name: string, context: string) returns (r: Elements)
    requires IsTagName(name)
    ensures r == ScanFrom(body, name, 0, context)
  {
    hide NextElement, ParseElement, IsTagName, BeginsElement, ScanFrom;
    var found: seq<RawElement> := [];
    var index := 0;
    assert body[0..] == body;
    PrependNothing(ScanFrom(body, name, 0, context));
    while true
      invariant index <= |body|
      invariant ScanFrom(body, name, 0, context) ==
        PrependElements(found, ScanFrom(body[index..], name, |found|, context))
      decreases |body| - index
    {
      ScanRoundIsScan(body, index, name, context, found);
      NextElementSlice(body, index, name);
      var next := NextElementIn(body, index, name);
      match next {
        case Err(error) => return Err(error);
        case Ok(None) => return Ok(found);
        case Ok(Some(span)) =>
          var element := Parse(name, body[span.start..span.end]);
          if element.Err? {
            return Err(element.error);
          }
          found := found + [element.value];
          if |found| > MAX_ELEMENTS {
            return Err(TooLarge(context));
          }
          index := span.end;
      }
    }
  }

  lemma NextElementSlice(body: string, index: nat, name: string)
    requires IsTagName(name) && index <= |body|
    ensures var r := NextElement(body[index..], name);
      r.Ok? && r.value.Some? ==>
        BeginsElement(body[index + r.value.value.start..index + r.value.value.end], name)
  {
    hide NextElement, IsTagName, BeginsElement;
    var r := NextElement(body[index..], name);
    if r.Ok? && r.value.Some? {
      NextElementBegins(body[index..], name);
      assert body[index..][r.value.value.start..r.value.value.end] ==
             body[index + r.value.value.start..index + r.value.value.end];
    }
  }

  lemma PrependNothing(r: Elements)
    ensures PrependElements([], r) == r
  {
    assert r.Ok? ==> [] + r.value == r.value;
  }

  lemma PrependTwiceElements(a: seq<RawElement>, b: seq<RawElement>, r: Elements)
    ensures PrependElements(a, PrependElements(b, r)) == PrependElements(a + b, r)
  {
    assert r.Ok? ==> a + (b + r.value) == a + b + r.value;
  }

  /** `scan`. */
  method Scan(body: string, name: string) returns (r: Elements)
    requires IsTagName(name)
    ensures r == ScanFrom(body, name, 0, "element count")
  {
    r := Collect(body, name, "element count");
  }

  /** `direct_children`: the same loop as `scan`. */
  method DirectChildren(container: string, name: string) returns (r: Elements)
    requires IsTagName(name)
    ensures r == ScanFrom(container, name, 0, "child element count")
  {
    r := Collect(container, name, "child element count");
  }

  // ---------------------------------------------------------------- ranges of a scan

  /** The ranges a scan visits, from `base` on. */
  function Ranges(s: string, name: string, base: nat): seq<Span>
    decreases |s|
  {
    match NextElement(s, name)
    case Ok(Some(span)) =>
      [Span(base + span.start, base + span.end)] + Ranges(s[span.end..], name, base + span.end)
    case _ => []
  }

  ghost predicate Increasing(ranges: seq<Span>, from: nat, to: nat) {
    && (forall i | 0 <= i < |ranges| :: from <= ranges[i].start < ranges[i].end <= to)
    && (forall i, j | 0 <= i < j < |ranges| :: ranges[i].end <= ranges[j].start)
  }

  lemma {:induction false} RangesIncrease(s: string, name: string, base: nat)
    ensures Increasing(Ranges(s, name, base), base, base + |s|)
    decreases |s|
  {
    hide NextElement, Increasing;
    match NextElement(s, name) {
      case Ok(Some(span)) =>
        RangesIncrease(s[span.end..], name, base + span.end);
        IncreasingCons(Span(base + span.start, base + span.end), Ranges(s[span.end..], name, base + span.end), base,
            base + |s|);
      case _ =>
        NothingIncreases(base, base + |s|);
    }
  }

  lemma IncreasingCons(first: Span, rest: seq<Span>, from: nat, to: nat)
    requires from <= first.start < first.end <= to && Increasing(rest, first.end, to)
    ensures Increasing([first] + rest, from, to)
  {
    var ranges := [first] + rest;
    assert forall i | 0 < i < |ranges| :: ranges[i] == rest[i - 1];
  }

  lemma NothingIncreases(from: nat, to: nat)
    ensures Increasing([], from, to)
  {
  }

  /** An element scanned from `text`: its source is that range, its inner text the range between its tags. */
  ghost predicate ElementOf(text: string, name: string, range: Span, element: RawElement) {
    && range.start < range.end <= |text|
    && BeginsElement(text[range.start..], name)
    && ElementEnd(text[range.start..], name) == Ok(range.end - range.start)
    && element.name == name
    && element.outer == text[range.start..range.end]
    && element.inner == InnerText(text[range.start..], name)
  }

  lemma ScannedElement(text: string, base: nat, name: string, span: Span)
    requires IsTagName(name) && base <= |text|
    requires NextElement(text[base..], name) == Ok(Some(span))
    ensures BeginsElement(text[base..][span.start..span.end], name)
    ensures var r := ParseElement(name, text[base..][span.start..span.end]);
      r.Ok? ==> ElementOf(text, name, Span(base + span.start, base + span.end), r.value)
  {
    hide NextElement, ElementEnd, BeginsElement, IsTagName, InnerText, ParseElement;
    var s := text[base..];
    NextElementFinds(s, name, span);
    var at := s[span.start..];
    assert at == text[base + span.start..];
    TwoPassesAgree(at, name, span.end - span.start);
    assert at[..span.end - span.start] == s[span.start..span.end] == text[base + span.start..base + span.end];
    ParsedName(name, s[span.start..span.end]);
  }

  lemma ParsedName(name: string, source: string)
    requires IsTagName(name) && BeginsElement(source, name)
    ensures ParseElement(name, source).Ok? ==> ParseElement(name, source).value.name == name
  {
    hide BeginsElement, IsTagName, TagEnd, MatchingClose, IsVoid, Attributes, NormalizedAttributes, Utf8.Encode;
  }

  /**
   A scan that succeeds returns one element for each of its ranges, in order; the
   ranges are disjoint and increasing; and at most `MAX_ELEMENTS` are returned.
   */
  lemma {:induction false} ScanReturnsItsRanges(
        text: string, base: nat, name: string, count: nat, context: string, found: seq<RawElement>)
    requires IsTagName(name) && base <= |text| && count <= MAX_ELEMENTS
    requires ScanFrom(text[base..], name, count, context) == Ok(found)
    ensures var ranges := Ranges(text[base..], name, base);
      && |ranges| == |found| && count + |found| <= MAX_ELEMENTS
      && Increasing(ranges, base, |text|)
      && forall i | 0 <= i < |found| :: ElementOf(text, name, ranges[i], found[i])
    decreases |text| - base
  {
    hide NextElement, ParseElement, ElementOf, IsTagName, BeginsElement;
    var s := text[base..];
    RangesIncrease(s, name, base);
    match NextElement(s, name) {
      case Ok(Some(span)) =>
        ScannedElement(text, base, name, span);
        var next := base + span.end;
        assert s[span.end..] == text[next..];
        ScanReturnsItsRanges(text, next, name, count + 1, context, found[1..]);
        var ranges := Ranges(s, name, base);
        var rest := Ranges(text[next..], name, next);
        assert ranges == [Span(base + span.start, next)] + rest;
        forall i | 0 <= i < |found|
          ensures ElementOf(text, name, ranges[i], found[i])
        {
          if i > 0 {
            assert ranges[i] == rest[i - 1] && found[i] == found[1..][i - 1];
          }
        }
      case _ =>
    }
  }

  // ---------------------------------------------------------------- when a scan panics

  /** Every value of the list can be decoded: no 32-byte window of its collapsed text splits a character. */
  ghost predicate AttributesAligned(attrs: seq<Attribute>) {
    forall i | 0 <= i < |attrs| :: WindowsAligned(Collapsed(attrs[i].1))
  }

  lemma {:induction false} NormalizedExactly(attrs: seq<Attribute>)
    ensures NormalizedAttributes(attrs).Some? <==> AttributesAligned(attrs)
  {
    hide WindowsAligned, Decoded, Collapsed;
    if attrs != [] {
      PanicExactly(Collapsed(attrs[0].1));
      NormalizedExactly(attrs[1..]);
      assert forall i | 0 < i < |attrs| :: attrs[i] == attrs[1..][i - 1];
    }
  }

  /** An element of supported size with a finished start tag, one of whose values cannot be decoded. */
  ghost predicate PanicsAt(source: string, name: string) {
    && Utf8.Len(source) <= MAX_ELEMENT_BYTES && TagEnd(source).Some?
    && var k := TagEnd(source).value;
    1 + |name| <= k && !AttributesAligned(Attributes(source[1 + |name|..k]))
  }

  /** Parsing a slice panics in the source exactly when one of its attribute values does. */
  lemma ParsePanicsExactly(name: string, source: string)
    requires IsTagName(name) && BeginsElement(source, name)
    ensures ParseElement(name, source) == Err(SplitCharacter) <==> PanicsAt(source, name)
  {
    hide AttributesAligned, NormalizedAttributes, Attributes, MatchingClose, BeginsElement, IsTagName, TagEnd,
        Childless, Utf8.Len;
    if TagEnd(source).Some? {
      var k := TagEnd(source).value;
      NameLengthBound(name, source, k);
      NormalizedExactly(Attributes(source[1 + |name|..k]));
      CloseNeverPanics(source[k + 1..], name);
    }
  }

  lemma CloseNeverPanics(s: string, name: string)
    ensures MatchingClose(s, name, 1).Err? ==> MatchingClose(s, name, 1).error.Unbalanced?
  {
    hide MatchingClose;
  }

  ghost predicate ParsesAt(source: string, name: string)
    requires IsTagName(name)
  {
    BeginsElement(source, name) && ParseElement(name, source).Ok?
  }

  /** The sources of the elements a scan visits, in order: the slices of its ranges. */
  function Visited(s: string, name: string): seq<string>
    decreases |s|
  {
    match NextElement(s, name)
    case Ok(Some(span)) => [s[span.start..span.end]] + Visited(s[span.end..], name)
    case _ => []
  }

  lemma {:induction false} VisitedAreRanges(text: string, base: nat, name: string)
    requires base <= |text|
    ensures var ranges, sources := Ranges(text[base..], name, base), Visited(text[base..], name);
      && |ranges| == |sources|
      && forall i | 0 <= i < |ranges| ::
           ranges[i].start <= ranges[i].end <= |text| && sources[i] == text[ranges[i].start..ranges[i].end]
    decreases |text| - base
  {
    hide NextElement;
    var s := text[base..];
    match NextElement(s, name) {
      case Ok(Some(span)) =>
        var next := base + span.end;
        assert s[span.end..] == text[next..];
        VisitedAreRanges(text, next, name);
        assert s[span.start..span.end] == text[base + span.start..next];
      case _ =>
    }
  }

  /** The first source that does not parse is `sources[k]`, and it panics. */
  ghost predicate FirstPanic(sources: seq<string>, name: string, k: nat)
    requires IsTagName(name)
  {
    k < |sources| && PanicsAt(sources[k], name) && forall i | 0 <= i < k :: ParsesAt(sources[i], name)
  }

  /** The count is still within the limit when the first panic comes. */
  ghost predicate PanicsBeforeLimit(sources: seq<string>, name: string, count: nat)
    requires IsTagName(name)
  {
    exists k: nat :: FirstPanic(sources, name, k) && count + k <= MAX_ELEMENTS
  }

  lemma {:induction false} SearchNeverPanics(s: string, name: string)
    ensures NextElement(s, name).Err? ==> NextElement(s, name).error.Unbalanced?
    decreases |s|
  {
    hide TagEnd, MatchingClose, Childless, PassOver;
    if s != "" && PassOver(s, name) > 0 {
      SearchNeverPanics(s[PassOver(s, name)..], name);
    }
  }

  lemma PanicsCons(first: string, rest: seq<string>, name: string, count: nat)
    requires IsTagName(name) && count <= MAX_ELEMENTS
    requires PanicsAt(first, name) ==> !ParsesAt(first, name)
    ensures PanicsBeforeLimit([first] + rest, name, count) <==>
      PanicsAt(first, name) || (ParsesAt(first, name) && count < MAX_ELEMENTS &&
          PanicsBeforeLimit(rest, name, count + 1))
  {
    hide PanicsAt, ParsesAt, IsTagName;
    var sources := [first] + rest;
    if PanicsAt(first, name) {
      assert FirstPanic(sources, name, 0);
    }
    if ParsesAt(first, name) && count < MAX_ELEMENTS && PanicsBeforeLimit(rest, name, count + 1) {
      var k: nat :| FirstPanic(rest, name, k) && count + 1 + k <= MAX_ELEMENTS;
      assert FirstPanic(sources, name, k + 1);
    }
    if PanicsBeforeLimit(sources, name, count) && !PanicsAt(first, name) {
      var k: nat :| FirstPanic(sources, name, k) && count + k <= MAX_ELEMENTS;
      assert sources[0] == first && k > 0;
      forall i | 0 <= i < k - 1
        ensures ParsesAt(rest[i], name)
      {
        assert rest[i] == sources[i + 1];
      }
      assert FirstPanic(rest, name, k - 1);
    }
  }

  /**
   A scan panics in the source exactly when the first of its elements that does not
   parse holds an attribute value that cannot be decoded, and comes within the limit.
   */
  lemma {:induction false} ScanPanicsExactly(s: string, name: string, count: nat, context: string)
    requires IsTagName(name) && count <= MAX_ELEMENTS
    ensures ScanFrom(s, name, count, context) == Err(SplitCharacter) <==>
            PanicsBeforeLimit(Visited(s, name), name, count)
    decreases |s|
  {
    hide NextElement, ParseElement, PanicsAt, IsTagName, BeginsElement, PanicsBeforeLimit;
    SearchNeverPanics(s, name);
    match NextElement(s, name) {
      case Ok(Some(span)) =>
        var first, rest := s[span.start..span.end], s[span.end..];
        NextElementBegins(s, name);
        ParsePanicsExactly(name, first);
        PanicsCons(first, Visited(rest, name), name, count);
        if count < MAX_ELEMENTS {
          ScanPanicsExactly(rest, name, count + 1, context);
        }
      case _ =>
        NothingPanics(name, count);
    }
  }

  lemma NothingPanics(name: string, count: nat)
    requires IsTagName(name)
    ensures !PanicsBeforeLimit([], name, count)
  {
  }

  /** An attribute is looked up by its first occurrence. */
  lemma AttrIsFirst(attrs: seq<Attribute>, key: string)
    ensures FirstValue(attrs, key).Some? <==> exists i :: 0 <= i < |attrs| && attrs[i].0 == key
    ensures forall i | 0 <= i < |attrs| && attrs[i].0 == key && (forall j | 0 <= j < i :: attrs[j].0 != key) ::
        FirstValue(attrs, key) == Some(attrs[i].1)
  {
    if attrs != [] {
      AttrIsFirst(attrs[1..], key);
      assert forall i | 0 < i < |attrs| :: attrs[i] == attrs[1..][i - 1];
      forall i | 0 <= i < |attrs| && attrs[i].0 == key && (forall j | 0 <= j < i :: attrs[j].0 != key)
        ensures FirstValue(attrs, key) == Some(attrs[i].1)
      {
        if i > 0 {
          assert attrs[0].0 != key;
          assert forall j | 0 <= j < i - 1 :: attrs[1..][j] == attrs[j + 1];
        }
      }
    }
  }
}
