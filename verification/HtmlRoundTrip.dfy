/**
 `scan(print(forest))` returns exactly the outermost elements of the name, in
 document order, each with its own printed children as inner text.
 */
module HtmlRoundTrip {
  import opened Wrappers
  import opened Text
  import opened HtmlTags
  import opened HtmlClose
  import opened HtmlAttributes
  import opened HtmlElements
  import opened HtmlForest
  import Utf8

  lemma ShiftTwice(r: SpanResult, a: nat, b: nat)
    ensures Shift(Shift(r, a), b) == Shift(r, a + b)
  {
  }

  // ------------------------------------------------------ the depth counter skips forests

  /** The depth counter passes over `t`, whatever follows it. */
  ghost predicate ClosePasses(t: string, rest: string, name: string, depth: nat)
    requires depth > 0
  {
    MatchingClose(t + rest, name, depth) == Shift(MatchingClose(rest, name, depth), |t|)
  }

  lemma ClosePassesConcat(a: string, b: string, rest: string, name: string, depth: nat)
    requires depth > 0
    requires ClosePasses(a, b + rest, name, depth) && ClosePasses(b, rest, name, depth)
    ensures ClosePasses(a + b, rest, name, depth)
  {
    hide MatchingClose;
    assert a + b + rest == a + (b + rest);
    ShiftTwice(MatchingClose(rest, name, depth), |b|, |a|);
  }

  lemma ClosePassesToken(t: string, rest: string, name: string, depth: nat)
    requires depth > 0 && t != ""
    requires HeadToken(t + rest, name) == Skip(|t|)
    ensures ClosePasses(t, rest, name, depth)
  {
    hide HeadToken;
    assert (t + rest)[|t|..] == rest;
  }

  lemma {:induction false} ClosePassesPlain(t: string, rest: string, name: string, depth: nat)
    requires depth > 0 && Lacks(t, '<')
    ensures ClosePasses(t, rest, name, depth)
  {
    if t == "" {
      assert t + rest == rest;
      ShiftZero(MatchingClose(rest, name, depth));
    } else {
      assert t == t[..1] + t[1..];
      ClosePassesPlain(t[1..], rest, name, depth);
      PlainHead(t[..1], t[1..] + rest, name);
      ClosePassesToken(t[..1], t[1..] + rest, name, depth);
      ClosePassesConcat(t[..1], t[1..], rest, name, depth);
    }
  }

  lemma ShiftZero(r: SpanResult)
    ensures Shift(r, 0) == r
  {
  }

  lemma PlainHead(c: string, rest: string, name: string)
    requires |c| == 1 && c[0] != '<'
    ensures HeadToken(c + rest, name) == Skip(1) && PassOver(c + rest, name) == 1
  {
  }

  lemma CommentHead(text: string, rest: string, name: string)
    requires CommentText(text)
    ensures var s := "<!--" + text + "-->";
      HeadToken(s + rest, name) == Skip(|s|) && PassOver(s + rest, name) == |s|
  {
    hide StartsWithTagName, TagEnd;
    var s := "<!--" + text + "-->";
    assert OccursAt(s, "-->", 4 + |text|);
    FindIsStable(s, s + rest, "-->", 4 + |text|);
  }

  /** Start tags of another name, and void tags of this one, are passed over. */
  lemma ClosePassesTag(m: string, tag: Tag, attrs: seq<Spelled>, rest: string, name: string, depth: nat)
    requires depth > 0 && TagOf(tag, m) && IsTagName(name) && TagAttributes(attrs)
    requires m == name ==> IsVoid(name)
    ensures ClosePasses(StartTag(tag, attrs), rest, name, depth)
  {
    hide StartsWithTagName, IsTagName, IsVoid, TagAttributes, StartTag, Spells;
    var s := StartTag(tag, attrs);
    ElementHead(m, tag, attrs, rest);
    TagBodyLacks(m, tag, attrs);
    StartTagIsNotEmpty(tag, attrs);
    assert s == s[..1] + s[1..] && s + rest == s[..1] + (s[1..] + rest);
    ClosePassesToken(s[..1], s[1..] + rest, name, depth);
    ClosePassesPlain(s[1..], rest, name, depth);
    ClosePassesConcat(s[..1], s[1..], rest, name, depth);
  }

  lemma StartTagIsNotEmpty(tag: Tag, attrs: seq<Spelled>)
    ensures StartTag(tag, attrs) != "" && StartTag(tag, attrs)[0] == '<' && |CloseTag(tag)| > 2
  {
  }

  lemma CloseTagHead(m: string, tag: Tag, rest: string, name: string)
    requires TagOf(tag, m) && IsTagName(name)
    ensures var s := CloseTag(tag) + rest;
      && "</" <= s && !("<!--" <= s) && (StartsWithTagName(s[2..], name) <==> m == name)
      && TagEnd(s) == Some(|CloseTag(tag)| - 1)
  {
    hide StartsWithTagName, TagEnd, Spells, IsTagName;
    var s := CloseTag(tag) + rest;
    var after := tag.gap + ">" + rest;
    assert s[2..] == tag.close + after;
    NamesMatch(tag.close, m, after, name);
    assert s[1] == '/';
    SpellingLacks(tag.close, m);
    BlankLacks(tag.gap);
    var body := "</" + tag.close + tag.gap;
    OutsideText(body);
    TagEndIs(s, body);
  }

  lemma ClosePassesCloseTag(m: string, tag: Tag, rest: string, name: string, depth: nat)
    requires depth > 0 && TagOf(tag, m) && IsTagName(name) && m != name
    ensures ClosePasses(CloseTag(tag), rest, name, depth)
  {
    hide StartsWithTagName, TagEnd, IsTagName, Spells, CloseTag;
    var s := CloseTag(tag);
    CloseTagHead(m, tag, rest, name);
    TagBodyLacks(m, tag, []);
    StartTagIsNotEmpty(tag, []);
    assert s == s[..2] + s[2..] && s + rest == s[..2] + (s[2..] + rest);
    ClosePassesToken(s[..2], s[2..] + rest, name, depth);
    ClosePassesPlain(s[2..], rest, name, depth);
    ClosePassesConcat(s[..2], s[2..], rest, name, depth);
  }

  /** A start tag of the name deepens the level, its close tag restores it. */
  lemma OwnStartTag(name: string, tag: Tag, attrs: seq<Spelled>, rest: string, depth: nat)
    requires depth > 0 && TagOf(tag, name) && TagAttributes(attrs) && !Hollow(name, tag)
    ensures MatchingClose(StartTag(tag, attrs) + rest, name, depth) ==
            Shift(MatchingClose(rest, name, depth + 1), |StartTag(tag, attrs)|)
  {
    hide StartsWithTagName, TagEnd, IsTagName, IsVoid, SelfClosing, StartTag, Spells, Hollow;
    var t := StartTag(tag, attrs);
    var s := t + rest;
    HollowExactly(name, tag);
    ElementHead(name, tag, attrs, rest);
    StartTagEnds(name, tag, attrs, rest);
    SelfClosesExactly(name, tag, attrs);
    StartTagIsNotEmpty(tag, attrs);
    assert s[..|t|] == t && s[|t|..] == rest;
    assert HeadToken(s, name) == Open(|t|);
    hide HeadToken;
  }

  /** A start tag that closes itself leaves the level as it is. */
  lemma OwnHollowTag(name: string, tag: Tag, attrs: seq<Spelled>, rest: string, depth: nat)
    requires depth > 0 && TagOf(tag, name) && TagAttributes(attrs) && !IsVoid(name) && tag.slash
    ensures ClosePasses(StartTag(tag, attrs), rest, name, depth)
  {
    hide StartsWithTagName, TagEnd, IsTagName, IsVoid, SelfClosing, StartTag, Spells;
    var t := StartTag(tag, attrs);
    var s := t + rest;
    ElementHead(name, tag, attrs, rest);
    StartTagEnds(name, tag, attrs, rest);
    SelfClosesExactly(name, tag, attrs);
    StartTagIsNotEmpty(tag, attrs);
    assert s[..|t|] == t;
    assert HeadToken(s, name) == Skip(|t|);
    ClosePassesToken(t, rest, name, depth);
  }

  lemma OwnCloseTag(name: string, tag: Tag, rest: string, depth: nat)
    requires depth > 0 && TagOf(tag, name)
    ensures var t := CloseTag(tag);
      MatchingClose(t + rest, name, depth) ==
        if depth == 1 then Ok(Some(Span(0, |t|)))
        else Shift(MatchingClose(rest, name, depth - 1), |t|)
  {
    hide StartsWithTagName, TagEnd, IsTagName, Spells, CloseTag;
    var t := CloseTag(tag);
    var s := t + rest;
    CloseTagHead(name, tag, rest, name);
    StartTagIsNotEmpty(tag, []);
    assert s[|t|..] == rest;
    assert HeadToken(s, name) == Close(|t|);
    hide HeadToken;
  }

  /** A printed forest is balanced: the level after it is the level before it. */
  lemma {:induction false} ClosePassesForest(forest: seq<Node>, rest: string, name: string, depth: nat)
    requires depth > 0 && IsTagName(name) && Printable(forest)
    ensures ClosePasses(Print(forest), rest, name, depth)
    decreases forest, 0
  {
    hide ClosePasses;
    if forest == [] {
      ClosePassesPlain("", rest, name, depth);
    } else {
      ClosePassesNode(forest[0], Print(forest[1..]) + rest, name, depth);
      ClosePassesForest(forest[1..], rest, name, depth);
      ClosePassesConcat(PrintNode(forest[0]), Print(forest[1..]), rest, name, depth);
    }
  }

  lemma {:induction false} ClosePassesNode(node: Node, rest: string, name: string, depth: nat)
    requires depth > 0 && IsTagName(name) && PrintableNode(node)
    ensures ClosePasses(PrintNode(node), rest, name, depth)
    decreases node, 1
  {
    match node {
      case Text(text) =>
        ClosePassesPlain(text, rest, name, depth);
      case Comment(text) =>
        CommentHead(text, rest, name);
        ClosePassesToken(PrintNode(node), rest, name, depth);
      case Element(m, tag, attrs, children) =>
        var start, inner, end := StartTag(tag, attrs), Print(children), CloseTag(tag);
        HollowExactly(m, tag);
        if Hollow(m, tag) {
          if m != name || IsVoid(m) {
            ClosePassesTag(m, tag, attrs, rest, name, depth);
          } else {
            OwnHollowTag(m, tag, attrs, rest, depth);
          }
          assert PrintNode(node) == start + "" == start;
        } else if m != name {
          hide ClosePasses;
          ClosePassesTag(m, tag, attrs, inner + end + rest, name, depth);
          ClosePassesForest(children, end + rest, name, depth);
          ClosePassesCloseTag(m, tag, rest, name, depth);
          ClosePassesConcat(inner, end, rest, name, depth);
          ClosePassesConcat(start, inner + end, rest, name, depth);
          assert PrintNode(node) == start + (inner + end);
        } else {
          ClosePassesForest(children, end + rest, name, depth + 1);
          ClosePassesOwn(m, tag, attrs, inner, rest, depth);
        }
    }
  }

  lemma ClosePassesOwn(name: string, tag: Tag, attrs: seq<Spelled>, inner: string, rest: string, depth: nat)
    requires depth > 0 && TagOf(tag, name) && TagAttributes(attrs) && !Hollow(name, tag)
    requires ClosePasses(inner, CloseTag(tag) + rest, name, depth + 1)
    ensures ClosePasses(StartTag(tag, attrs) + (inner + CloseTag(tag)), rest, name, depth)
  {
    hide MatchingClose, Shift, StartTag, CloseTag, IsTagName, Hollow, TagAttributes, TagOf;
    var start, end := StartTag(tag, attrs), CloseTag(tag);
    OwnStartTag(name, tag, attrs, inner + (end + rest), depth);
    OwnCloseTag(name, tag, rest, depth + 1);
    assert start + (inner + end) + rest == start + (inner + (end + rest));
    ShiftTwice(MatchingClose(rest, name, depth), |end|, |inner|);
    ShiftTwice(MatchingClose(rest, name, depth), |end| + |inner|, |start|);
  }

  // ------------------------------------------------------ the scan passes over the rest

  /** The search for start tags passes over `t`, whatever follows it. */
  ghost predicate ScanPasses(t: string, rest: string, name: string, count: nat, context: string)
    requires IsTagName(name)
  {
    ScanFrom(t + rest, name, count, context) == ScanFrom(rest, name, count, context)
  }

  /** What a scan makes of one element's source and of the text after it. */
  function AfterElement(source: string, after: string, name: string, count: nat, context: string): Elements
    requires IsTagName(name) && BeginsElement(source, name)
  {
    match ParseElement(name, source)
    case Err(error) => Err(error)
    case Ok(element) =>
      if count + 1 > MAX_ELEMENTS then Err(TooLarge(context))
      else PrependElements([element], ScanFrom(after, name, count + 1, context))
  }

  lemma ScanUnfolds(s: string, name: string, count: nat, context: string, span: Span)
    requires IsTagName(name) && NextElement(s, name) == Ok(Some(span))
    ensures BeginsElement(s[span.start..span.end], name)
    ensures ScanFrom(s, name, count, context) ==
            AfterElement(s[span.start..span.end], s[span.end..], name, count, context)
  {
    hide NextElement, ParseElement, BeginsElement, IsTagName;
    NextElementBegins(s, name);
  }

  lemma ScanPassesHead(t: string, rest: string, name: string, count: nat, context: string)
    requires IsTagName(name) && t != "" && PassOver(t + rest, name) == |t|
    ensures ScanPasses(t, rest, name, count, context)
  {
    hide PassOver, ParseElement, BeginsElement, IsTagName;
    var s := t + rest;
    assert s[|t|..] == rest;
    var next := NextElement(rest, name);
    assert NextElement(s, name) == Shift(next, |t|);
    hide NextElement;
    match next {
      case Ok(Some(span)) =>
        hide ScanFrom, AfterElement;
        ScanUnfolds(rest, name, count, context, span);
        ScanUnfolds(s, name, count, context, Span(span.start + |t|, span.end + |t|));
        assert s[span.start + |t|..span.end + |t|] == rest[span.start..span.end];
        assert s[span.end + |t|..] == rest[span.end..];
      case _ =>
    }
  }

  lemma {:induction false} ScanPassesPlain(t: string, rest: string, name: string, count: nat, context: string)
    requires IsTagName(name) && Lacks(t, '<')
    ensures ScanPasses(t, rest, name, count, context)
  {
    hide ScanFrom, IsTagName;
    if t == "" {
      assert t + rest == rest;
    } else {
      PlainHead(t[..1], t[1..] + rest, name);
      ScanPassesHead(t[..1], t[1..] + rest, name, count, context);
      ScanPassesPlain(t[1..], rest, name, count, context);
      assert t[..1] + (t[1..] + rest) == t + rest;
    }
  }

  lemma ScanPassesTag(
      m: string, tag: Tag, attrs: seq<Spelled>, rest: string, name: string, count: nat, context: string)
    requires TagOf(tag, m) && IsTagName(name) && TagAttributes(attrs) && m != name
    ensures ScanPasses(StartTag(tag, attrs), rest, name, count, context)
  {
    hide StartsWithTagName, IsTagName, ScanFrom, TagAttributes, StartTag, Spells;
    var s := StartTag(tag, attrs);
    ElementHead(m, tag, attrs, rest);
    TagBodyLacks(m, tag, attrs);
    StartTagIsNotEmpty(tag, attrs);
    assert s[..1] + (s[1..] + rest) == s + rest;
    ScanPassesHead(s[..1], s[1..] + rest, name, count, context);
    ScanPassesPlain(s[1..], rest, name, count, context);
  }

  lemma ScanPassesCloseTag(m: string, tag: Tag, rest: string, name: string, count: nat, context: string)
    requires TagOf(tag, m) && IsTagName(name)
    ensures ScanPasses(CloseTag(tag), rest, name, count, context)
  {
    hide StartsWithTagName, TagEnd, IsTagName, ScanFrom, CloseTag, Spells;
    var s := CloseTag(tag);
    CloseTagHead(m, tag, rest, name);
    TagBodyLacks(m, tag, []);
    StartTagIsNotEmpty(tag, []);
    assert s[..2] + (s[2..] + rest) == s + rest;
    ScanPassesHead(s[..2], s[2..] + rest, name, count, context);
    ScanPassesPlain(s[2..], rest, name, count, context);
  }

  // ------------------------------------------------------ one element of the name

  lemma PrintedElementEnds(node: Node, rest: string)
    requires node.Element? && PrintableNode(node)
    ensures ElementEnd(PrintNode(node) + rest, node.name) == Ok(|PrintNode(node)|)
    ensures InnerText(PrintNode(node) + rest, node.name) == Print(node.children)
  {
    var Element(name, tag, attrs, children) := node;
    var start, inner, end := StartTag(tag, attrs), Print(children), CloseTag(tag);
    if Hollow(name, tag) {
      PrintNothing();
      HollowElementEnds(name, tag, attrs, rest);
      assert PrintNode(node) == start + "" == start;
    } else {
      ClosePassesForest(children, end + rest, name, 1);
      FilledElementEnds(name, tag, attrs, inner, rest);
      assert PrintNode(node) == start + (inner + end);
    }
  }

  lemma HollowElementEnds(name: string, tag: Tag, attrs: seq<Spelled>, rest: string)
    requires TagOf(tag, name) && TagAttributes(attrs) && Hollow(name, tag)
    ensures var s := StartTag(tag, attrs) + rest;
      ElementEnd(s, name) == Ok(|StartTag(tag, attrs)|) && InnerText(s, name) == ""
  {
    hide TagEnd, IsTagName, IsVoid, SelfClosing, StartTag, TagOf, TagAttributes, Hollow;
    var start := StartTag(tag, attrs);
    HollowExactly(name, tag);
    StartTagEnds(name, tag, attrs, rest);
    SelfClosesExactly(name, tag, attrs);
    StartTagIsNotEmpty(tag, attrs);
    assert (start + rest)[..|start|] == start;
  }

  lemma FilledElementEnds(name: string, tag: Tag, attrs: seq<Spelled>, inner: string, rest: string)
    requires TagOf(tag, name) && TagAttributes(attrs) && !Hollow(name, tag)
    requires ClosePasses(inner, CloseTag(tag) + rest, name, 1)
    ensures var printed := StartTag(tag, attrs) + (inner + CloseTag(tag));
      && ElementEnd(printed + rest, name) == Ok(|printed|)
      && InnerText(printed + rest, name) == inner
  {
    hide TagEnd, TagOf, IsVoid, SelfClosing, TagAttributes, StartTag, CloseTag, MatchingClose, Hollow;
    var start, end := StartTag(tag, attrs), CloseTag(tag);
    HollowExactly(name, tag);
    StartTagEnds(name, tag, attrs, inner + (end + rest));
    SelfClosesExactly(name, tag, attrs);
    StartTagIsNotEmpty(tag, attrs);
    OwnCloseTag(name, tag, rest, 1);
    ElementOfParts(name, start, inner, end + rest, |end|);
    assert start + (inner + end) + rest == start + (inner + (end + rest));
  }

  lemma ElementOfParts(name: string, tag: string, inner: string, after: string, closeLength: nat)
    requires TagEnd(tag + (inner + after)) == Some(|tag| - 1) && tag != ""
    requires !IsVoid(name) && !SelfClosing(tag)
    requires MatchingClose(inner + after, name, 1) == Ok(Some(Span(|inner|, |inner| + closeLength)))
    ensures var s := tag + (inner + after);
      ElementEnd(s, name) == Ok(|tag| + |inner| + closeLength) && InnerText(s, name) == inner
  {
    hide TagEnd, IsVoid, SelfClosing, MatchingClose;
    var s := tag + (inner + after);
    assert s[..|tag|] == tag && s[|tag|..] == inner + after;
    assert s[|tag|..][..|inner|] == inner;
  }

  lemma PrintNothing()
    ensures Print([]) == ""
  {
  }

  lemma PrintedAttributes(node: Node)
    requires node.Element? && PrintableNode(node)
    ensures var s, end := PrintNode(node), |StartTag(node.tag, node.attrs)| - 1;
      && TagEnd(s) == Some(end) && 1 + |node.name| <= end
      && Attributes(s[1 + |node.name|..end]) == Pairs(node.attrs)
  {
    hide TagEnd, Attributes, StartTag, CloseTag, Print, Pairs, Hollow, TagOf, TagAttributes, Printable;
    var Element(name, tag, attrs, children) := node;
    var rest := if Hollow(name, tag) then "" else Print(children) + CloseTag(tag);
    assert PrintNode(node) == StartTag(tag, attrs) + rest;
    StartTagAttributes(name, tag, attrs, rest);
  }

  lemma StartTagAttributes(name: string, tag: Tag, attrs: seq<Spelled>, rest: string)
    requires TagOf(tag, name) && TagAttributes(attrs)
    ensures var s, end := StartTag(tag, attrs) + rest, |StartTag(tag, attrs)| - 1;
      && TagEnd(s) == Some(end) && 1 + |name| <= end
      && Attributes(s[1 + |name|..end]) == Pairs(attrs)
  {
    hide TagEnd, IsTagName, Attributes, StartTag, TagTail, TagEndText, PrintAttributes, TagAttributes,
        PrintableAttributes, Pairs;
    StartTagEnds(name, tag, attrs, rest);
    TagEndTextLacks(tag);
    TagAttributesArePrintable(attrs);
    ReadPrintedAttributes(attrs, TagEndText(tag));
    StartTagParts(name, tag, attrs, rest);
  }

  lemma TagAttributesArePrintable(attrs: seq<Spelled>)
    requires TagAttributes(attrs)
    ensures PrintableAttributes(attrs)
  {
    hide PrintableAttribute, Apart;
    forall a | a in attrs
      ensures PrintableAttribute(a)
    {
      assert TagAttribute(a);
    }
  }

  /** Between the name and the `>` stands the attribute list with its tail. */
  lemma StartTagParts(name: string, tag: Tag, attrs: seq<Spelled>, rest: string)
    requires |tag.open| == |name|
    ensures var s, end := StartTag(tag, attrs) + rest, |StartTag(tag, attrs)| - 1;
      1 + |name| <= end && s[1 + |name|..end] == PrintAttributes(attrs) + TagEndText(tag)
  {
    hide PrintAttributes, TagEndText;
    var head, middle := "<" + tag.open, PrintAttributes(attrs) + TagEndText(tag);
    assert StartTag(tag, attrs) + rest == head + middle + (">" + rest);
  }

  lemma PrintedElementBegins(node: Node, rest: string)
    requires node.Element? && PrintableNode(node)
    ensures BeginsElement(PrintNode(node) + rest, node.name) && IsTagName(node.name)
  {
    hide StartsWithTagName, PrintNode, StartTag, Spells, TagAttributes, Printable, IsTagName;
    var printed, start := PrintNode(node), StartTag(node.tag, node.attrs);
    PrintedElementStarts(node);
    StartTagIsNotEmpty(node.tag, node.attrs);
    var s := printed + rest;
    assert s == start + (printed[|start|..] + rest);
    ElementHead(node.name, node.tag, node.attrs, printed[|start|..] + rest);
    assert StartsWithTagName(s[1..], node.name) && s != "";
  }

  /** What begins an element and ends it is the next element. */
  lemma ElementIsNext(s: string, name: string, end: nat)
    requires BeginsElement(s, name) && ElementEnd(s, name) == Ok(end) && !("<!--" <= s) && !("</" <= s)
    ensures NextElement(s, name) == Ok(Some(Span(0, end)))
  {
    hide StartsWithTagName, ElementEnd;
    assert PassOver(s, name) == 0;
  }

  lemma PrintedElementIsTag(node: Node, rest: string)
    requires node.Element? && PrintableNode(node)
    ensures !("<!--" <= PrintNode(node) + rest) && !("</" <= PrintNode(node) + rest)
  {
    hide StartsWithTagName, PrintNode, StartTag, Spells, TagAttributes, Printable, IsTagName;
    var printed, start := PrintNode(node), StartTag(node.tag, node.attrs);
    PrintedElementStarts(node);
    assert printed + rest == start + (printed[|start|..] + rest);
    ElementHead(node.name, node.tag, node.attrs, printed[|start|..] + rest);
  }

  lemma PrintedElementParses(node: Node, rest: string)
    requires node.Element? && PrintableNode(node)
    ensures BeginsElement(PrintNode(node), node.name)
    ensures ParseElement(node.name, PrintNode(node)) == Scanned(node)
    ensures NextElement(PrintNode(node) + rest, node.name) == Ok(Some(Span(0, |PrintNode(node)|)))
  {
    hide BeginsElement, TagEnd, Attributes, InnerText, PrintNode, PrintableNode, Pairs, IsTagName, ElementEnd,
        NextElement,
        ParseElement, NormalizedAttributes, Utf8.Len;
    var name, printed := node.name, PrintNode(node);
    var s := printed + rest;
    PrintedElementBegins(node, rest);
    PrintedElementIsTag(node, rest);
    PrintedElementEnds(node, rest);
    assert s[..|printed|] == printed;
    PrintedAttributes(node);
    TwoPassesAgree(s, name, |printed|);
    ElementIsNext(s, name, |printed|);
    ParseTakesAttributes(name, printed, Pairs(node.attrs));
    if Utf8.Len(printed) > MAX_ELEMENT_BYTES {
      OversizeIsRefused(name, printed);
    }
  }

  lemma OversizeIsRefused(name: string, source: string)
    requires IsTagName(name) && BeginsElement(source, name) && Utf8.Len(source) > MAX_ELEMENT_BYTES
    ensures ParseElement(name, source) == Err(TooLarge("element size"))
  {
    hide BeginsElement, IsTagName;
  }

  lemma PrintedElementStarts(node: Node)
    requires node.Element?
    ensures StartTag(node.tag, node.attrs) <= PrintNode(node)
  {
    hide StartTag, CloseTag, Print;
  }

  /** What a parse returns depends on the attributes only where it takes them. */
  lemma ParseTakesAttributes(name: string, source: string, attrs: seq<Attribute>)
    requires IsTagName(name) && BeginsElement(source, name)
    requires TagEnd(source).Some? && 1 + |name| <= TagEnd(source).value
    requires Attributes(source[1 + |name|..TagEnd(source).value]) == attrs
    ensures var r := ParseElement(name, source);
      Utf8.Len(source) <= MAX_ELEMENT_BYTES ==>
        && (NormalizedAttributes(attrs).None? ==> r == Err(SplitCharacter))
        && (NormalizedAttributes(attrs).Some? ==>
             r != Err(SplitCharacter) && (r.Ok? ==>
                 r.value.attrs == NormalizedAttributes(attrs).value && r.value.name == name))
  {
    hide BeginsElement, TagEnd, IsVoid, Attributes, MatchingClose, NormalizedAttributes, Utf8.Encode;
  }

  // ------------------------------------------------------ the round trip

  lemma {:induction false} OutermostAreElements(forest: seq<Node>, name: string)
    ensures AllElements(Outermost(forest, name))
    ensures forall node | node in Outermost(forest, name) :: node.name == name
    decreases forest, 0
  {
    if forest != [] {
      OutermostAreElements(forest[1..], name);
      match forest[0] {
        case Element(m, _, _, children) =>
          if m != name {
            OutermostAreElements(children, name);
          }
        case _ =>
      }
    }
  }

  lemma {:induction false} ThenConcat(
        a: seq<Node>, b: seq<Node>, middle: string, rest: string, name: string, count: nat, context: string)
    requires IsTagName(name) && AllElements(a) && AllElements(b)
    requires forall k: nat :: ScanFrom(middle, name, k, context) == ScannedThen(b, rest, name, k, context)
    ensures AllElements(a + b)
    ensures ScannedThen(a, middle, name, count, context) == ScannedThen(a + b, rest, name, count, context)
  {
    hide Scanned, ScanFrom, IsTagName;
    if a == [] {
      assert a + b == b;
    } else {
      ThenConcat(a[1..], b, middle, rest, name, count + 1, context);
      assert (a + b)[1..] == a[1..] + b;
    }
  }

  lemma {:induction false} ScanOfPrint(forest: seq<Node>, rest: string, name: string, count: nat, context: string)
    requires IsTagName(name) && Printable(forest)
    ensures AllElements(Outermost(forest, name))
    ensures ScanFrom(Print(forest) + rest, name, count, context) ==
            ScannedThen(Outermost(forest, name), rest, name, count, context)
    decreases forest, 0
  {
    hide ScanFrom, Scanned, IsTagName, PrintNode, PrintableNode, OutermostIn, ScannedThen;
    OutermostAreElements(forest, name);
    if |forest| == 0 {
      NothingScanned(rest, name, count, context);
      assert forest == [] && Print(forest) + rest == rest;
    } else {
      var first, others := forest[0], forest[1..];
      var middle := Print(others) + rest;
      NodeIsElements(first, name);
      OutermostAreElements(others, name);
      ScanOfNode(first, middle, name, count, context);
      forall k: nat
        ensures ScanFrom(middle, name, k, context) == ScannedThen(Outermost(others, name), rest, name, k, context)
      {
        ScanOfPrint(others, rest, name, k, context);
      }
      ThenConcat(OutermostIn(first, name), Outermost(others, name), middle, rest, name, count, context);
      assert Print(forest) + rest == PrintNode(first) + middle;
    }
  }

  lemma NothingScanned(rest: string, name: string, count: nat, context: string)
    requires IsTagName(name)
    ensures ScanFrom(rest, name, count, context) == ScannedThen([], rest, name, count, context)
  {
    hide ScanFrom;
  }

  lemma NodeIsElements(node: Node, name: string)
    ensures AllElements(OutermostIn(node, name))
  {
    OutermostAreElements([node], name);
    assert OutermostIn(node, name) + [] == OutermostIn(node, name) && [node][1..] == [];
  }

  lemma {:induction false} ScanOfNode(node: Node, rest: string, name: string, count: nat, context: string)
    requires IsTagName(name) && PrintableNode(node) && AllElements(OutermostIn(node, name))
    ensures ScanFrom(PrintNode(node) + rest, name, count, context) ==
            ScannedThen(OutermostIn(node, name), rest, name, count, context)
    decreases node, 1
  {
    match node {
      case Text(text) =>
        ScanPassesPlain(text, rest, name, count, context);
      case Comment(text) =>
        CommentHead(text, rest, name);
        ScanPassesHead(PrintNode(node), rest, name, count, context);
      case Element(m, tag, attrs, children) =>
        if m == name {
          ScanOfOwnElement(node, rest, count, context);
        } else {
          hide ScanFrom, Scanned, IsTagName, Spells;
          var start, inner, end := StartTag(tag, attrs), Print(children), CloseTag(tag);
          var after := if Hollow(m, tag) then rest else end + rest;
          assert PrintNode(node) + rest == start + (inner + after) by {
            if Hollow(m, tag) {
              assert children == [] && inner == "";
            }
          }
          ScanPassesTag(m, tag, attrs, inner + after, name, count, context);
          ScanOfPrint(children, after, name, count, context);
          forall k: nat
            ensures ScanFrom(after, name, k, context) == ScannedThen([], rest, name, k, context)
          {
            ScanPassesCloseTag(m, tag, rest, name, k, context);
          }
          ThenConcat(Outermost(children, name), [], after, rest, name, count, context);
          assert Outermost(children, name) + [] == Outermost(children, name);
        }
    }
  }

  lemma ScanOfOwnElement(node: Node, rest: string, count: nat, context: string)
    requires node.Element? && PrintableNode(node)
    ensures ScanFrom(PrintNode(node) + rest, node.name, count, context) ==
            ScannedThen([node], rest, node.name, count, context)
  {
    PrintedElementParses(node, rest);
    hide NextElement, ParseElement, BeginsElement, IsTagName, PrintNode, Scanned, Printable;
    var s := PrintNode(node) + rest;
    assert s[0..|PrintNode(node)|] == PrintNode(node) && s[|PrintNode(node)|..] == rest;
    assert [node][1..] == [];
  }

  /**
   Scanning what was printed returns the outermost elements of the name, in
   document order, or the first limit or decoding failure among them.
   */
  lemma PrintScanRoundTrip(forest: seq<Node>, name: string, context: string)
    requires IsTagName(name) && Printable(forest)
    ensures AllElements(Outermost(forest, name))
    ensures ScanFrom(Print(forest), name, 0, context) == ScannedThen(Outermost(forest, name), "", name, 0, context)
    ensures ScanFrom("", name, 0, context) == Ok([])
  {
    ScanOfPrint(forest, "", name, 0, context);
    assert Print(forest) + "" == Print(forest);
  }

  /** The same, read off element by element, when no limit is met and every value decodes. */
  lemma {:induction false} ScannedElements(nodes: seq<Node>, name: string, count: nat, context: string)
    requires IsTagName(name) && AllElements(nodes) && count + |nodes| <= MAX_ELEMENTS
    requires forall node | node in nodes :: Scanned(node).Ok?
    ensures var r := ScannedThen(nodes, "", name, count, context);
      r.Ok? && |r.value| == |nodes| && forall i | 0 <= i < |nodes| :: Scanned(nodes[i]) == Ok(r.value[i])
  {
    hide Scanned, IsTagName;
    if nodes != [] {
      ScannedElements(nodes[1..], name, count + 1, context);
      assert nodes[0] in nodes;
    } else {
      assert NextElement("", name) == Ok(None);
    }
  }

  lemma ScanReadsBack(forest: seq<Node>, name: string, context: string)
    requires IsTagName(name) && Printable(forest)
    requires var nodes := Outermost(forest, name);
      |nodes| <= MAX_ELEMENTS && forall node | node in nodes :: node.Element? && Scanned(node).Ok?
    ensures var nodes := Outermost(forest, name);
      var r := ScanFrom(Print(forest), name, 0, context);
      && r.Ok? && |r.value| == |nodes|
      && forall i | 0 <= i < |nodes| ::
           && nodes[i].Element? && r.value[i].name == name
           && r.value[i].inner == Print(nodes[i].children)
           && r.value[i].outer == PrintNode(nodes[i])
           && NormalizedAttributes(Pairs(nodes[i].attrs)) == Some(r.value[i].attrs)
  {
    hide ScanFrom, IsTagName, Printable;
    var nodes := Outermost(forest, name);
    PrintScanRoundTrip(forest, name, context);
    OutermostAreElements(forest, name);
    ScannedElements(nodes, name, 0, context);
    var r := ScanFrom(Print(forest), name, 0, context);
    forall i | 0 <= i < |nodes|
      ensures nodes[i].Element? && nodes[i].name == name && Scanned(nodes[i]) == Ok(r.value[i])
    {
      assert nodes[i] in nodes;
    }
  }
}
