/**
 The scanner against a printer that escapes: text and attribute values may hold
 any character, and a scan gives every value back, collapsed.
 */
module HtmlEscaping {
  import opened Wrappers
  import opened Text
  import opened HtmlTags
  import opened HtmlAttributes
  import opened HtmlEntities
  import opened HtmlElements
  import opened HtmlForest
  import opened HtmlRoundTrip
  import opened HtmlNesting
  import Utf8

  // ---------------------------------------------------------------- escaping and collapsing

  lemma EscapeNothing(s: string)
    requires |s| == 0
    ensures Escape(s) == ""
  {
  }

  lemma EscapeHead(s: string)
    requires |s| > 0
    ensures Escape(s) == EscapeChar(s[0]) + Escape(s[1..])
  {
  }

  lemma {:induction false} EscapeConcat(a: string, b: string)
    ensures Escape(a + b) == Escape(a) + Escape(b)
  {
    hide Escape, EscapeChar;
    if |a| == 0 {
      EscapeNothing(a);
      assert a + b == b;
    } else {
      EscapeConcat(a[1..], b);
      assert (a + b)[1..] == a[1..] + b;
      EscapeHead(a);
      EscapeHead(a + b);
    }
  }

  lemma EscapeOne(c: char)
    ensures Escape([c]) == EscapeChar(c)
  {
    hide EscapeChar;
    assert [c][1..] == "" && EscapeChar(c) + "" == EscapeChar(c);
  }

  lemma EscapeSnoc(s: string, c: char)
    ensures Escape(s + [c]) == Escape(s) + EscapeChar(c)
  {
    hide Escape, EscapeChar;
    EscapeConcat(s, [c]);
    EscapeOne(c);
  }

  /** White space is kept; anything else becomes characters that are no white space. */
  lemma EscapeCharIsWord(c: char)
    ensures if IsWhitespace(c) then EscapeChar(c) == [c] else IsWord(EscapeChar(c))
  {
    assert IsWhitespace(c) ==> EntityName(c).None?;
  }

  /** The text after a word was appended to it. */
  function WithWord(text: string, spaced: bool, w: string): string {
    if spaced then text + " " + w else text + w
  }

  /** The word is one of its own after white space, and lengthens the last one otherwise. */
  lemma {:induction false} AppendWord(before: string, w: string)
    requires IsWord(w)
    ensures Collapsed(before + w) == WithWord(Collapsed(before), StartsWord(before) && |Words(before)| > 0, w)
    ensures |Words(before + w)| == |Words(before)| + if StartsWord(before) then 1 else 0
    ensures !StartsWord(before + w)
    decreases |w|
  {
    hide Words, Collapsed, IsWhitespace;
    var front, c := w[..|w| - 1], w[|w| - 1];
    assert w == front + [c] && before + w == before + front + [c];
    CollapsedSnoc(before + front, c);
    WordsSnoc(before + front, c);
    if |front| == 0 {
      assert before + front == before && w == [c];
    } else {
      AppendWord(before, front);
      LongerWord(Collapsed(before), StartsWord(before) && |Words(before)| > 0, front, c);
    }
  }

  lemma LongerWord(text: string, spaced: bool, w: string, c: char)
    ensures WithWord(text, spaced, w) + [c] == WithWord(text, spaced, w + [c])
  {
    assert text + (w + [c]) == text + w + [c];
    assert text + " " + (w + [c]) == text + " " + w + [c];
  }

  lemma EscapeWithWord(text: string, spaced: bool, c: char)
    ensures Escape(WithWord(text, spaced, [c])) == WithWord(Escape(text), spaced, EscapeChar(c))
  {
    hide Escape, EscapeChar;
    EscapeSnoc(text, c);
    EscapeSnoc(text, ' ');
    EscapeSnoc(text + " ", c);
    EscapeCharIsWord(' ');
  }

  lemma NothingCollapsed(v: string)
    requires |v| == 0
    ensures Collapsed(v) == "" && Escape(v) == "" && |Words(v)| == 0
  {
  }

  /** Escaping and collapsing commute. */
  lemma {:induction false} CollapsedEscape(v: string)
    ensures Collapsed(Escape(v)) == Escape(Collapsed(v))
    ensures |Words(Escape(v))| == |Words(v)| && StartsWord(Escape(v)) == StartsWord(v)
    decreases |v|
  {
    hide Words, Collapsed, EscapeChar, IsWhitespace;
    if |v| == 0 {
      NothingCollapsed(v);
    } else {
      hide Escape;
      var front, c := v[..|v| - 1], v[|v| - 1];
      assert v == front + [c];
      CollapsedEscape(front);
      EscapeSnoc(front, c);
      EscapeCharIsWord(c);
      CollapsedSnoc(front, c);
      if IsWhitespace(c) {
        CollapsedSnoc(Escape(front), c);
      } else {
        AppendWord(front, [c]);
        AppendWord(Escape(front), EscapeChar(c));
        EscapeWithWord(Collapsed(front), StartsWord(front) && |Words(front)| > 0, c);
      }
    }
  }

  /** The scanner reads an escaped value as the collapsed original, or panics on it. */
  lemma EscapedValueReadsBack(v: string)
    ensures Normalized(Escape(v)) == if WindowsAligned(Escape(Collapsed(v))) then Some(Collapsed(v)) else None
    ensures Normalized(Escape(v)) == Some(v) <==> v == Collapsed(v) && WindowsAligned(Escape(v))
  {
    hide Escape, Decoded, Collapsed, WindowsAligned;
    CollapsedEscape(v);
    DecodeUndoesEscape(Collapsed(v));
  }

  // ---------------------------------------------------------------- escaped attributes

  function EscapedAttributes(attrs: seq<Spelled>): (r: seq<Spelled>)
    ensures |r| == |attrs|
  {
    if attrs == [] then [] else [attrs[0].(value := Escape(attrs[0].value))] + EscapedAttributes(attrs[1..])
  }

  /** What the scanner makes of the attributes. */
  function ReadAttributes(attrs: seq<Spelled>): seq<Attribute> {
    if attrs == [] then [] else [(Lower(attrs[0].key), Collapsed(attrs[0].value))] + ReadAttributes(attrs[1..])
  }

  /** No escaped value makes the decoder panic. */
  ghost predicate Carried(attrs: seq<Spelled>) {
    forall a | a in attrs :: WindowsAligned(Escape(Collapsed(a.value)))
  }

  /** The spelling of one attribute, apart from a quoted value: any characters may be in quotes. */
  predicate NamedAttribute(a: Spelled) {
    && PrintableName(a.key) && Lacks(a.key, '<')
    && Blank(a.lead) && Blank(a.left) && Blank(a.right)
    && (a.look.Bare? ==> BareValue(Escape(a.value)) && Tame(Escape(a.value)))
    && (a.look.Absent? ==> a.value == "")
  }

  predicate AllNamedAttributes(attrs: seq<Spelled>) {
    forall a | a in attrs :: NamedAttribute(a)
  }

  predicate NamedAttributes(attrs: seq<Spelled>) {
    AllNamedAttributes(attrs) && Apart(false, attrs)
  }

  lemma {:induction false} EscapeLacks(v: string)
    ensures Lacks(Escape(v), '<') && '"' !in Escape(v) && '\'' !in Escape(v)
    ensures Escape(v) == "" <==> v == ""
  {
    if v != "" {
      EscapeLacks(v[1..]);
    }
  }

  lemma EscapedIsPrintable(a: Spelled)
    ensures TagAttribute(a.(value := Escape(a.value))) <==> NamedAttribute(a)
  {
    hide PrintableName, BareValue, Tame, Escape, Blank;
    EscapeLacks(a.value);
  }

  lemma AttributesCons(first: Spelled, others: seq<Spelled>)
    ensures AllTagAttributes([first] + others) <==> TagAttribute(first) && AllTagAttributes(others)
    ensures AllNamedAttributes([first] + others) <==> NamedAttribute(first) && AllNamedAttributes(others)
  {
    hide TagAttribute, NamedAttribute;
    var attrs := [first] + others;
    assert first in attrs;
    assert forall a | a in others :: a in attrs;
    assert forall a | a in attrs :: a == first || a in others;
  }

  lemma {:induction false} AllEscapedArePrintable(attrs: seq<Spelled>)
    ensures AllTagAttributes(EscapedAttributes(attrs)) <==> AllNamedAttributes(attrs)
  {
    if attrs != [] {
      hide AllTagAttributes, AllNamedAttributes, TagAttribute, NamedAttribute, Escape;
      EscapedIsPrintable(attrs[0]);
      AllEscapedArePrintable(attrs[1..]);
      AttributesCons(attrs[0].(value := Escape(attrs[0].value)), EscapedAttributes(attrs[1..]));
      AttributesCons(attrs[0], attrs[1..]);
      assert attrs == [attrs[0]] + attrs[1..];
    }
  }

  lemma {:induction false} EscapedStayApart(quoted: bool, attrs: seq<Spelled>)
    ensures Apart(quoted, EscapedAttributes(attrs)) <==> Apart(quoted, attrs)
    decreases attrs
  {
    hide Escape;
    if attrs != [] {
      EscapedStayApart(InQuotes(attrs[0].look), attrs[1..]);
      assert EscapedAttributes(attrs)[1..] == EscapedAttributes(attrs[1..]);
    }
  }

  /** With values escaped, only names and spellings decide whether a list can be printed. */
  lemma EscapedArePrintable(attrs: seq<Spelled>)
    ensures TagAttributes(EscapedAttributes(attrs)) <==> NamedAttributes(attrs)
  {
    hide AllTagAttributes, AllNamedAttributes, Apart, EscapedAttributes;
    AllEscapedArePrintable(attrs);
    EscapedStayApart(false, attrs);
  }

  /** Every list comes back, with names in lower case and values collapsed, or the source panics. */
  lemma {:induction false} EscapedAttributesReadBack(attrs: seq<Spelled>)
    ensures NormalizedAttributes(Pairs(EscapedAttributes(attrs))) ==
            if Carried(attrs) then Some(ReadAttributes(attrs)) else None
  {
    hide Escape, Normalized, Collapsed, Lower, WindowsAligned;
    if attrs != [] {
      EscapedValueReadsBack(attrs[0].value);
      EscapedAttributesReadBack(attrs[1..]);
      assert attrs == [attrs[0]] + attrs[1..];
      assert EscapedAttributes(attrs)[1..] == EscapedAttributes(attrs[1..]);
      assert Pairs(EscapedAttributes(attrs))[1..] == Pairs(EscapedAttributes(attrs[1..]));
    }
  }

  // ---------------------------------------------------------------- escaped forests

  function EscapedNode(node: Node): (r: Node)
    ensures r.Element? <==> node.Element?
    decreases node, 1
  {
    match node
    case Text(text) => Node.Text(Escape(text))
    case Comment(text) => node
    case Element(name, tag, attrs, children) => Element(name, tag, EscapedAttributes(attrs), Escaped(children))
  }

  function Escaped(forest: seq<Node>): (r: seq<Node>)
    ensures |r| == |forest| && forall i | 0 <= i < |forest| :: r[i] == EscapedNode(forest[i])
    decreases forest, 0
  {
    if forest == [] then [] else [EscapedNode(forest[0])] + Escaped(forest[1..])
  }

  /** Text and attribute values may hold anything; names and comments are as for `Printable`. */
  predicate Named(forest: seq<Node>)
    decreases forest, 0
  {
    forest == [] || (NamedNode(forest[0]) && Named(forest[1..]))
  }

  predicate NamedNode(node: Node)
    decreases node, 1
  {
    match node
    case Text(_) => true
    case Comment(text) => CommentText(text)
    case Element(name, tag, attrs, children) =>
      TagOf(tag, name) && NamedAttributes(attrs) && (Hollow(name, tag) ==> children == []) && Named(children)
  }

  lemma {:induction false} NamedNodeIsPrintable(node: Node)
    ensures PrintableNode(EscapedNode(node)) <==> NamedNode(node)
    decreases node, 1
  {
    hide TagAttributes, NamedAttributes, EscapedAttributes, CommentText, TagOf, Hollow, Lacks, Escape;
    match node
    case Text(text) => EscapeLacks(text);
    case Comment(_) =>
    case Element(_, _, attrs, children) =>
      EscapedArePrintable(attrs);
      NamedIsPrintable(children);
  }

  lemma {:induction false} NamedIsPrintable(forest: seq<Node>)
    ensures Printable(Escaped(forest)) <==> Named(forest)
    decreases forest, 0
  {
    if forest != [] {
      NamedNodeIsPrintable(forest[0]);
      NamedIsPrintable(forest[1..]);
      assert Escaped(forest)[1..] == Escaped(forest[1..]);
    }
  }

  lemma EscapedConcat(a: seq<Node>, b: seq<Node>)
    ensures Escaped(a + b) == Escaped(a) + Escaped(b)
  {
    hide EscapedNode;
  }

  lemma {:induction false} OutermostInEscaped(node: Node, name: string)
    ensures OutermostIn(EscapedNode(node), name) == Escaped(OutermostIn(node, name))
    decreases node, 1
  {
    match node
    case Element(m, _, _, children) => OutermostOfEscaped(children, name);
    case _ =>
  }

  /** Escaping changes no nesting. */
  lemma {:induction false} OutermostOfEscaped(forest: seq<Node>, name: string)
    ensures Outermost(Escaped(forest), name) == Escaped(Outermost(forest, name))
    decreases forest, 0
  {
    if forest != [] {
      OutermostInEscaped(forest[0], name);
      OutermostOfEscaped(forest[1..], name);
      assert Escaped(forest)[1..] == Escaped(forest[1..]);
      EscapedConcat(OutermostIn(forest[0], name), Outermost(forest[1..], name));
    }
  }

  /** The content of an outermost element is itself well named. */
  lemma {:induction false} NamedInside(forest: seq<Node>, name: string, node: Node)
    requires Named(forest) && node in Outermost(forest, name)
    ensures node.Element? && Named(node.children)
    decreases forest, 0
  {
    hide NamedAttributes, IsTagName, CommentText;
    if node in OutermostIn(forest[0], name) {
      NamedInsideNode(forest[0], name, node);
    } else {
      NamedInside(forest[1..], name, node);
    }
  }

  lemma {:induction false} NamedInsideNode(top: Node, name: string, node: Node)
    requires NamedNode(top) && node in OutermostIn(top, name)
    ensures node.Element? && Named(node.children)
    decreases top, 1
  {
    hide NamedAttributes, IsTagName, CommentText;
    if top.name != name {
      NamedInside(top.children, name, node);
    }
  }

  /** A node whose escaped print is of supported size and makes no decoder panic. */
  ghost predicate Returnable(node: Node) {
    node.Element? && Utf8.Len(PrintNode(EscapedNode(node))) <= MAX_ELEMENT_BYTES && Carried(node.attrs)
  }

  lemma ReturnableExactly(node: Node)
    requires node.Element?
    ensures Readable(EscapedNode(node)) <==> Returnable(node)
  {
    hide Carried, AttributesAligned, PrintNode, Utf8.Len;
    EscapedAttributesReadBack(node.attrs);
    NormalizedExactly(Pairs(EscapedAttributes(node.attrs)));
  }

  /**
   Scanning the escaped print of any forest gives the attributes of its outermost
   elements back, whatever characters their values hold.
   */
  lemma ScanReadsEscaped(forest: seq<Node>, name: string, context: string)
    requires IsTagName(name) && Named(forest) && |Outermost(forest, name)| <= MAX_ELEMENTS
    requires forall node | node in Outermost(forest, name) :: Returnable(node)
    ensures var r, nodes := ScanFrom(Print(Escaped(forest)), name, 0, context), Outermost(forest, name);
      && r.Ok? && |r.value| == |nodes|
      && forall i | 0 <= i < |nodes| ::
           && nodes[i].Element? && r.value[i].name == name
           && r.value[i].attrs == ReadAttributes(nodes[i].attrs)
           && r.value[i].inner == Print(Escaped(nodes[i].children))
  {
    hide ScanFrom, IsTagName, Print, Outermost, Readable, Printable, NormalizedAttributes, Scanned;
    NamedIsPrintable(forest);
    OutermostOfEscaped(forest, name);
    var page, nodes := Escaped(forest), Outermost(forest, name);
    forall node | node in Outermost(page, name)
      ensures node.Element? && Scanned(node).Ok?
    {
      var i :| 0 <= i < |nodes| && node == EscapedNode(nodes[i]);
      assert nodes[i] in nodes;
      ReturnableExactly(nodes[i]);
      ScannedExactly(node);
    }
    ScanReadsBack(page, name, context);
    forall i | 0 <= i < |nodes|
      ensures nodes[i].Element? && Outermost(page, name)[i] == EscapedNode(nodes[i])
      ensures NormalizedAttributes(Pairs(EscapedAttributes(nodes[i].attrs))) == Some(ReadAttributes(nodes[i].attrs))
    {
      assert nodes[i] in nodes;
      EscapedAttributesReadBack(nodes[i].attrs);
    }
  }
}
