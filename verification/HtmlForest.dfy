/**
 The scanner against a printer: an element forest that is printed as HTML is read
 back element by element.
 */
module HtmlForest {
  import opened Wrappers
  import opened Text
  import opened HtmlTags
  import opened HtmlClose
  import opened HtmlAttributes
  import opened HtmlElements
  import Utf8

  /**
   How the tags of an element are spelled: the name in any case in the start and in the close
   tag, white space before the `>`, and whether the start tag closes itself.
   */
  datatype Tag = Tag(open: string, space: string, slash: bool, close: string, gap: string)

  datatype Node =
    | Text(text: string)
    | Comment(text: string)
    | Element(name: string, tag: Tag, attrs: seq<Spelled>, children: seq<Node>)

  /** The usual spelling. */
  function Plain(name: string): Tag {
    Tag(name, "", false, name, "")
  }

  // ---------------------------------------------------------------- the printer

  function TagEndText(tag: Tag): string {
    tag.space + if tag.slash then "/" else ""
  }

  function StartTag(tag: Tag, attrs: seq<Spelled>): string {
    "<" + tag.open + PrintAttributes(attrs) + TagEndText(tag) + ">"
  }

  function CloseTag(tag: Tag): string {
    "</" + tag.close + tag.gap + ">"
  }

  /** Void elements and those whose tag closes itself have no close tag; all others have one. */
  predicate Hollow(name: string, tag: Tag) {
    || tag.slash
    || name in {"area", "base", "br", "col", "embed", "hr", "img", "input", "link", "meta", "param", "source", "track",
                "wbr"}
  }

  lemma HollowExactly(name: string, tag: Tag)
    ensures Hollow(name, tag) <==> IsVoid(name) || tag.slash
  {
  }

  function PrintNode(node: Node): string
    decreases node, 1
  {
    match node
    case Text(text) => text
    case Comment(text) => "<!--" + text + "-->"
    case Element(name, tag, attrs, children) =>
      StartTag(tag, attrs) + (if Hollow(name, tag) then "" else Print(children) + CloseTag(tag))
  }

  function Print(forest: seq<Node>): string
    decreases forest, 0
  {
    if forest == [] then "" else PrintNode(forest[0]) + Print(forest[1..])
  }

  // ---------------------------------------------------------------- printable forests

  predicate Lacks(s: string, c: char) {
    forall i | 0 <= i < |s| :: s[i] != c
  }

  /** The comment ends at its printed end and not before. */
  predicate CommentText(text: string) {
    forall k: nat | k < 4 + |text| :: !OccursAt("<!--" + text + "-->", "-->", k)
  }

  /** In a bare value no quote follows an `=`, and none ends it. */
  predicate Tame(value: string) {
    && (forall i | 0 < i < |value| && (value[i] == '"' || value[i] == '\'') :: value[i - 1] != '=')
    && (value != "" ==> value[|value| - 1] != '=')
  }

  predicate TagAttribute(a: Spelled) {
    PrintableAttribute(a) && Lacks(a.key, '<') && Lacks(a.value, '<') && (a.look.Bare? ==> Tame(a.value))
  }

  predicate AllTagAttributes(attrs: seq<Spelled>) {
    forall a | a in attrs :: TagAttribute(a)
  }

  predicate TagAttributes(attrs: seq<Spelled>) {
    AllTagAttributes(attrs) && Apart(false, attrs)
  }

  /** The name in some case. */
  predicate Spells(s: string, name: string) {
    |s| == |name| && Lower(s) == name
  }

  predicate TagOf(tag: Tag, name: string) {
    IsTagName(name) && Spells(tag.open, name) && Spells(tag.close, name) && Blank(tag.space) && Blank(tag.gap)
  }

  predicate Printable(forest: seq<Node>)
    decreases forest, 0
  {
    forest == [] || (PrintableNode(forest[0]) && Printable(forest[1..]))
  }

  predicate PrintableNode(node: Node)
    decreases node, 1
  {
    match node
    case Text(text) => Lacks(text, '<')
    case Comment(text) => CommentText(text)
    case Element(name, tag, attrs, children) =>
      TagOf(tag, name) && TagAttributes(attrs) && (Hollow(name, tag) ==> children == []) && Printable(children)
  }

  // ---------------------------------------------------------------- what a scan should return

  /** The elements of one name that lie in no other element of that name, in document order. */
  function OutermostIn(node: Node, name: string): seq<Node>
    decreases node, 1
  {
    match node
    case Element(m, _, _, children) => if m == name then [node] else Outermost(children, name)
    case _ => []
  }

  function Outermost(forest: seq<Node>, name: string): seq<Node>
    decreases forest, 0
  {
    if forest == [] then [] else OutermostIn(forest[0], name) + Outermost(forest[1..], name)
  }

  /** The element a scan makes of a node: its own printed children are the inner text. */
  function Scanned(node: Node): Result<RawElement, ScanError>
    requires node.Element?
  {
    if Utf8.Len(PrintNode(node)) > MAX_ELEMENT_BYTES then Err(TooLarge("element size"))
    else
      match NormalizedAttributes(Pairs(node.attrs))
      case None => Err(SplitCharacter)
      case Some(attrs) => Ok(RawElement(node.name, attrs, PrintNode(node), Print(node.children)))
  }

  predicate AllElements(nodes: seq<Node>) {
    forall node | node in nodes :: node.Element?
  }

  /** The result for these nodes, followed by whatever a scan makes of `rest`. */
  function ScannedThen(nodes: seq<Node>, rest: string, name: string, count: nat, context: string): Elements
    requires IsTagName(name) && AllElements(nodes)
  {
    if nodes == [] then ScanFrom(rest, name, count, context)
    else
      match Scanned(nodes[0])
      case Err(error) => Err(error)
      case Ok(element) =>
        if count + 1 > MAX_ELEMENTS then Err(TooLarge(context))
        else PrependElements([element], ScannedThen(nodes[1..], rest, name, count + 1, context))
  }

  // ---------------------------------------------------------------- start tags

  /** From `state`, no `>` of `t` ends a tag. */
  ghost predicate NoEndIn(state: TagState, t: string) {
    forall j: nat | j < |t| && t[j] == '>' :: Run(state, t[..j]).quote.Some?
  }

  lemma NoEndConcat(state: TagState, a: string, b: string)
    requires NoEndIn(state, a) && NoEndIn(Run(state, a), b)
    ensures NoEndIn(state, a + b) && Run(state, a + b) == Run(Run(state, a), b)
  {
    RunConcat(state, a, b);
    var t := a + b;
    forall j: nat | j < |t| && t[j] == '>'
      ensures Run(state, t[..j]).quote.Some?
    {
      if j < |a| {
        assert t[..j] == a[..j];
      } else {
        assert t[..j] == a + b[..j - |a|];
        RunConcat(state, a, b[..j - |a|]);
      }
    }
  }

  lemma {:induction false} RunPlain(t: string)
    requires Lacks(t, '=')
    ensures Run(OUTSIDE, t) == OUTSIDE
    decreases |t|
  {
    if t != "" {
      RunPlain(t[..|t| - 1]);
    }
  }

  lemma {:induction false} RunQuoted(state: TagState, mark: char, t: string)
    requires state.quote == Some(mark) && mark !in t
    ensures Run(state, t).quote == Some(mark)
    decreases |t|
  {
    if t != "" {
      assert t[|t| - 1] in t;
      RunQuoted(state, mark, t[..|t| - 1]);
    }
  }

  lemma RunChar(state: TagState, c: char)
    ensures Run(state, [c]) == Step(state, c)
    ensures c != '>' ==> NoEndIn(state, [c])
  {
    assert [c][..0] == "" && [c][..|[c]| - 1] == "";
  }

  lemma {:induction false} RunBlank(state: TagState, t: string)
    requires Blank(t)
    requires state.quote.None?
    ensures Run(state, t) == state
    decreases |t|
  {
    if t != "" {
      RunBlank(state, t[..|t| - 1]);
    }
  }

  lemma BlankLacks(t: string)
    requires Blank(t)
    ensures Lacks(t, '>') && Lacks(t, '=') && Lacks(t, '<') && Lacks(t, '/')
  {
  }

  lemma NameLacks(key: string)
    requires PrintableName(key)
    ensures Lacks(key, '=') && Lacks(key, '>') && Lacks(key, '/')
  {
    forall i | 0 <= i < |key|
      ensures key[i] != '=' && key[i] != '>' && key[i] != '/'
    {
      assert !Ends(NameEnd, key[i]);
    }
  }

  /** Inside a bare value no quote opens, and after it none would. */
  lemma {:induction false} RunBare(state: TagState, value: string)
    requires state.quote.None? && BareValue(value) && Tame(value)
    ensures Run(state, value) == OUTSIDE
  {
    RunBarePrefix(state, value, |value|);
    assert value[..|value|] == value;
  }

  lemma {:induction false} RunBarePrefix(state: TagState, value: string, k: nat)
    requires state.quote.None? && BareValue(value) && Tame(value) && k <= |value|
    ensures Run(state, value[..k]).quote.None?
    ensures k > 0 ==> Run(state, value[..k]).afterEquals == (value[k - 1] == '=')
    decreases k
  {
    if k > 0 {
      RunBarePrefix(state, value, k - 1);
      assert value[..k][..k - 1] == value[..k - 1] && value[..k][k - 1] == value[k - 1];
      assert !Ends(BareValueEnd, value[k - 1]);
    }
  }

  lemma StepFacts()
    ensures Step(OUTSIDE, '=') == TagState(None, true)
    ensures forall c | c == '"' || c == '\'' :: Step(TagState(None, true), c).quote == Some(c)
  {
  }

  lemma QuoteCloses(state: TagState, mark: char)
    requires state.quote == Some(mark) && (mark == '"' || mark == '\'')
    ensures Step(state, mark) == OUTSIDE
  {
  }

  lemma PlainHasNoEnd(state: TagState, t: string)
    requires Lacks(t, '>')
    ensures NoEndIn(state, t)
  {
  }

  lemma QuotedHasNoEnd(state: TagState, mark: char, t: string)
    requires state.quote == Some(mark) && mark !in t
    ensures NoEndIn(state, t)
  {
    forall j: nat | j < |t|
      ensures Run(state, t[..j]).quote.Some?
    {
      assert mark !in t[..j];
      RunQuoted(state, mark, t[..j]);
    }
  }

  /** From behind the `=`, a written value leads back outside. */
  lemma QuotedKeepsOutside(mark: char, value: string)
    requires (mark == '"' || mark == '\'') && mark !in value
    ensures var s, ready := [mark] + value + [mark], TagState(None, true);
            Run(ready, s) == OUTSIDE && NoEndIn(ready, s)
  {
    hide Run, NoEndIn, Step;
    var ready := TagState(None, true);
    StepFacts();
    RunChar(ready, mark);
    var quoted := Step(ready, mark);
    RunQuoted(quoted, mark, value);
    QuotedHasNoEnd(quoted, mark, value);
    NoEndConcat(ready, [mark], value);
    RunChar(Run(quoted, value), mark);
    QuoteCloses(Run(quoted, value), mark);
    NoEndConcat(ready, [mark] + value, [mark]);
  }

  lemma WrittenKeepsOutside(value: string, look: Look)
    requires !look.Absent? && Holds(look, value) && (look.Bare? ==> Tame(value))
    ensures var s, ready := Written(value, look), TagState(None, true);
            Run(ready, s) == OUTSIDE && NoEndIn(ready, s)
  {
    hide Run, NoEndIn, Step;
    match look
    case Double => QuotedKeepsOutside('"', value);
    case Single => QuotedKeepsOutside('\'', value);
    case Bare =>
      RunBare(TagState(None, true), value);
      BareLacks(value);
      PlainHasNoEnd(TagState(None, true), value);
    case Absent =>
  }

  lemma BareLacks(value: string)
    requires BareValue(value)
    ensures Lacks(value, '>') && Lacks(value, '/')
  {
    forall i | 0 <= i < |value|
      ensures value[i] != '>' && value[i] != '/'
    {
      assert !Ends(BareValueEnd, value[i]);
    }
  }

  /** A text without `=` and `>` stays outside. */
  lemma OutsideText(t: string)
    requires Lacks(t, '=') && Lacks(t, '>')
    ensures Run(OUTSIDE, t) == OUTSIDE && NoEndIn(OUTSIDE, t)
  {
    RunPlain(t);
    PlainHasNoEnd(OUTSIDE, t);
  }

  lemma LacksConcat(a: string, b: string, c: char)
    requires Lacks(a, c) && Lacks(b, c)
    ensures Lacks(a + b, c)
  {
  }

  lemma TailKeepsOutside(a: Spelled)
    requires TagAttribute(a)
    ensures Run(OUTSIDE, PrintTail(a)) == OUTSIDE && NoEndIn(OUTSIDE, PrintTail(a))
  {
    if a.look.Absent? {
      OutsideText("");
    } else {
      hide Run, NoEndIn, Step, Written;
      var ready := TagState(None, true);
      BlankLacks(a.left);
      BlankLacks(a.right);
      OutsideText(a.left);
      StepFacts();
      RunChar(OUTSIDE, '=');
      NoEndConcat(OUTSIDE, a.left, "=");
      RunBlank(ready, a.right);
      PlainHasNoEnd(ready, a.right);
      NoEndConcat(OUTSIDE, a.left + "=", a.right);
      WrittenKeepsOutside(a.value, a.look);
      NoEndConcat(OUTSIDE, a.left + "=" + a.right, Written(a.value, a.look));
    }
  }

  lemma AttributeKeepsOutside(a: Spelled)
    requires TagAttribute(a)
    ensures Run(OUTSIDE, PrintAttribute(a)) == OUTSIDE && NoEndIn(OUTSIDE, PrintAttribute(a))
  {
    hide Run, NoEndIn, Step, PrintTail;
    BlankLacks(a.lead);
    NameLacks(a.key);
    LacksConcat(a.lead, a.key, '=');
    LacksConcat(a.lead, a.key, '>');
    OutsideText(a.lead + a.key);
    TailKeepsOutside(a);
    NoEndConcat(OUTSIDE, a.lead + a.key, PrintTail(a));
  }

  lemma {:induction false} AttributesKeepOutside(attrs: seq<Spelled>)
    requires AllTagAttributes(attrs)
    ensures Run(OUTSIDE, PrintAttributes(attrs)) == OUTSIDE && NoEndIn(OUTSIDE, PrintAttributes(attrs))
  {
    hide TagAttribute, PrintAttribute;
    if attrs != [] {
      AttributeKeepsOutside(attrs[0]);
      AttributesKeepOutside(attrs[1..]);
      NoEndConcat(OUTSIDE, PrintAttribute(attrs[0]), PrintAttributes(attrs[1..]));
    }
  }

  lemma TagEndTextLacks(tag: Tag)
    requires Blank(tag.space)
    ensures Lacks(TagEndText(tag), '=') && Lacks(TagEndText(tag), '>') && Lacks(TagEndText(tag), '<')
    ensures TagTail(TagEndText(tag))
  {
    BlankLacks(tag.space);
    if tag.slash {
      var t := TagEndText(tag);
      assert t[..|t| - 1] == tag.space;
    }
  }

  /** A name in any case holds none of the characters that mean something in a tag. */
  lemma SpellingLacks(s: string, name: string)
    requires IsTagName(name) && Spells(s, name)
    ensures Lacks(s, '=') && Lacks(s, '>') && Lacks(s, '<') && Lacks(s, '/') && s != ""
    ensures forall i | 0 <= i < |s| :: !IsWhitespace(s[i]) && s[i] != '!' && s[i] != '"' && s[i] != '\''
  {
    forall i | 0 <= i < |s|
      ensures LowerChar(s[i]) == name[i] && IsLowerOrDigit(name[i])
    {
      assert Lower(s)[i] == LowerChar(s[i]);
      assert name[i] in name;
    }
  }

  /** A printed start tag ends where it was printed to end. */
  lemma StartTagEnds(name: string, tag: Tag, attrs: seq<Spelled>, rest: string)
    requires TagOf(tag, name) && TagAttributes(attrs)
    ensures TagEnd(StartTag(tag, attrs) + rest) == Some(|StartTag(tag, attrs)| - 1)
  {
    hide TagEnd, Run, Step, NoEndIn, Spells, IsTagName, AllTagAttributes, TagEndText;
    SpellingLacks(tag.open, name);
    var head, list, tail := "<" + tag.open, PrintAttributes(attrs), TagEndText(tag);
    OutsideText(head);
    AttributesKeepOutside(attrs);
    NoEndConcat(OUTSIDE, head, list);
    TagEndTextLacks(tag);
    OutsideText(tail);
    NoEndConcat(OUTSIDE, head + list, tail);
    var body := head + list + tail;
    var s := StartTag(tag, attrs) + rest;
    assert s == body + ">" + rest;
    TagEndIs(s, body);
  }

  lemma TagEndIs(s: string, body: string)
    requires |body| < |s| && s[..|body|] == body && s[|body|] == '>'
    requires Run(OUTSIDE, body) == OUTSIDE && NoEndIn(OUTSIDE, body)
    ensures TagEnd(s) == Some(|body|)
  {
    assert EndsAt(s, |body|);
    forall j: nat | j < |body|
      ensures !EndsAt(s, j)
    {
      assert s[..j] == body[..j] && s[j] == body[j];
    }
  }

  /** A printed tag name, in whatever case, is recognized by its own name only. */
  lemma NamesMatch(open: string, m: string, after: string, name: string)
    requires IsTagName(m) && IsTagName(name) && Spells(open, m)
    requires after != "" && Delimiter(after[0])
    ensures StartsWithTagName(open + after, name) <==> m == name
  {
    var s := open + after;
    SpellingLacks(open, m);
    assert forall i | 0 <= i < |m| :: LowerChar(open[i]) == Lower(open)[i] == m[i];
    if |name| < |m| {
      assert s[|name|] == open[|name|];
    } else if |name| > |m| {
      LetterIsNoDelimiter(name, |m|);
      assert |s| > |name| ==> s[..|name|][|m|] == after[0];
    } else {
      assert s[..|name|] == open;
      forall i | 0 <= i < |name|
        ensures LowerChar(name[i]) == name[i]
      {
        LetterIsNoDelimiter(name, i);
      }
      if StartsWithTagName(s, name) {
        assert forall i | 0 <= i < |m| :: m[i] == name[i];
      }
    }
  }

  lemma LetterIsNoDelimiter(name: string, i: nat)
    requires IsTagName(name) && i < |name|
    ensures LowerChar(name[i]) == name[i]
    ensures forall c | Delimiter(c) :: LowerChar(c) != name[i]
  {
    assert name[i] in name;
  }

  /** What follows the name in a printed start tag starts with a delimiter. */
  lemma AfterNameDelimits(name: string, tag: Tag, attrs: seq<Spelled>, rest: string)
    requires TagOf(tag, name) && TagAttributes(attrs)
    ensures var after := PrintAttributes(attrs) + TagEndText(tag) + ">" + rest;
      after != "" && Delimiter(after[0])
  {
    var after := PrintAttributes(attrs) + TagEndText(tag) + ">" + rest;
    if attrs != [] {
      assert TagAttribute(attrs[0]);
      assert after[0] == attrs[0].lead[0];
    } else if tag.space != "" {
      assert after[0] == tag.space[0];
    }
  }

  /** The head of a printed element: what follows `<`. */
  lemma ElementHead(name: string, tag: Tag, attrs: seq<Spelled>, rest: string)
    requires TagOf(tag, name) && TagAttributes(attrs)
    ensures var s := StartTag(tag, attrs) + rest;
      && s[0] == '<' && !("<!--" <= s) && !("</" <= s)
      && forall n | IsTagName(n) :: StartsWithTagName(s[1..], n) <==> name == n
  {
    hide StartsWithTagName, Spells, TagAttributes, TagEndText, IsTagName, PrintAttributes, Delimiter;
    var s := StartTag(tag, attrs) + rest;
    SpellingLacks(tag.open, name);
    assert s[1] == tag.open[0];
    var after := PrintAttributes(attrs) + TagEndText(tag) + ">" + rest;
    AfterNameDelimits(name, tag, attrs, rest);
    assert s[1..] == tag.open + after;
    forall n | IsTagName(n)
      ensures StartsWithTagName(s[1..], n) <==> name == n
    {
      NamesMatch(tag.open, name, after, n);
    }
  }

  lemma TailLacks(a: Spelled)
    requires TagAttribute(a)
    ensures Lacks(PrintAttribute(a), '<')
  {
    BlankLacks(a.lead);
    BlankLacks(a.left);
    BlankLacks(a.right);
  }

  lemma {:induction false} AttributesLack(attrs: seq<Spelled>)
    requires AllTagAttributes(attrs)
    ensures Lacks(PrintAttributes(attrs), '<')
  {
    hide TagAttribute, PrintAttribute;
    if attrs != [] {
      AttributesLack(attrs[1..]);
      TailLacks(attrs[0]);
    }
  }

  /** After its first character, a printed tag holds no `<`. */
  lemma TagBodyLacks(name: string, tag: Tag, attrs: seq<Spelled>)
    requires TagOf(tag, name) && TagAttributes(attrs)
    ensures Lacks(StartTag(tag, attrs)[1..], '<') && Lacks(CloseTag(tag)[2..], '<')
  {
    hide Spells, AllTagAttributes, TagEndText, PrintAttributes;
    AttributesLack(attrs);
    SpellingLacks(tag.open, name);
    SpellingLacks(tag.close, name);
    TagEndTextLacks(tag);
    BlankLacks(tag.gap);
    assert StartTag(tag, attrs)[1..] == tag.open + PrintAttributes(attrs) + TagEndText(tag) + ">";
    assert CloseTag(tag)[2..] == tag.close + tag.gap + ">";
  }

  /** A start tag closes itself exactly when it was printed to. */
  lemma SelfClosesExactly(name: string, tag: Tag, attrs: seq<Spelled>)
    requires TagOf(tag, name) && TagAttributes(attrs)
    ensures SelfClosing(StartTag(tag, attrs)) <==> tag.slash
  {
    hide PrintAttribute, AllTagAttributes, IsTagName, Spells, Blank;
    var s := StartTag(tag, attrs);
    assert s[|s| - 2..] == [s[|s| - 2], '>'];
    BlankLacks(tag.space);
    if tag.slash {
      assert s[|s| - 2] == '/';
    } else if tag.space != "" {
      assert s[|s| - 2] == tag.space[|tag.space| - 1];
    } else if attrs != [] {
      AttributesEndInNoSlash(attrs);
      assert s[|s| - 2] == PrintAttributes(attrs)[|PrintAttributes(attrs)| - 1];
    } else {
      SpellingLacks(tag.open, name);
      assert s[|s| - 2] == tag.open[|tag.open| - 1];
    }
  }

  lemma AttributeEndsInNoSlash(a: Spelled)
    requires TagAttribute(a)
    ensures var s := PrintAttribute(a); s != "" && s[|s| - 1] != '/'
  {
    NameLacks(a.key);
    if a.look.Bare? {
      BareLacks(a.value);
    }
  }

  lemma {:induction false} AttributesEndInNoSlash(attrs: seq<Spelled>)
    requires attrs != [] && AllTagAttributes(attrs)
    ensures var s := PrintAttributes(attrs); s != "" && s[|s| - 1] != '/'
  {
    hide TagAttribute, PrintAttribute;
    AttributeEndsInNoSlash(attrs[0]);
    if |attrs| > 1 {
      AttributesEndInNoSlash(attrs[1..]);
    }
  }
}
