/**
 The visible text of a fragment: the loop that drops tags, and what it makes of a
 page that was printed with its text escaped.
 */
module HtmlText {
  import opened Wrappers
  import opened Text
  import opened HtmlTags
  import opened HtmlClose
  import opened HtmlAttributes
  import opened HtmlEntities
  import opened HtmlElements
  import opened HtmlForest
  import opened HtmlRoundTrip
  import opened HtmlNesting
  import opened HtmlEscaping

  // ---------------------------------------------------------------- tag names

  /** `trim_start_matches('/')`. */
  function DropSlashes(s: string): (r: string)
    ensures r != "" ==> r[0] != '/'
  {
    if s != "" && s[0] == '/' then DropSlashes(s[1..]) else s
  }

  /** `trim_end_matches('/')`. */
  function DropLastSlashes(s: string): (r: string)
    ensures r != "" ==> r[|r| - 1] != '/'
  {
    if s != "" && s[|s| - 1] == '/' then DropLastSlashes(s[..|s| - 1]) else s
  }

  /** `tag_name`, for a tag without its angle brackets. */
  function TagName(source: string): string {
    var words := Words(DropSlashes(source));
    if |words| == 0 then "" else Lower(DropLastSlashes(words[0]))
  }

  /** Whether a tag without its angle brackets ends in a slash, white space aside. */
  predicate EndsInSlash(source: string) {
    var t := TrimEnd(source);
    t != "" && t[|t| - 1] == '/'
  }

  predicate BreaksLine(name: string) {
    name in {"br", "p", "div", "tr", "td", "th", "li", "ul", "ol", "table", "h1", "h2", "h3", "h4", "h5", "h6"}
  }

  /** Elements whose content is not text. */
  predicate Dropped(name: string) {
    name == "script" || name == "style" || name == "template" || name == "noscript"
  }

  // ---------------------------------------------------------------- specification

  /** What a `<` stands for: a text and a number of characters, or the end of all text. */
  datatype Markup = Markup(text: string, len: nat) | Unfinished

  /** Past an opening tag whose content is dropped: to its close, or to the end without one. */
  function DroppedAt(s: string, end: nat, name: string): (m: Markup)
    requires end < |s|
    ensures m.Markup? && end < m.len <= |s|
  {
    match MatchingClose(s[end + 1..], name, 1)
    case Ok(Some(close)) => Markup(" ", end + 1 + close.end)
    case _ => Markup(" ", |s|)
  }

  function TagAt(s: string): (m: Markup)
    requires |s| > 0 && s[0] == '<'
    ensures m.Markup? ==> 0 < m.len <= |s|
  {
    match TagEnd(s)
    case None => Unfinished
    case Some(end) =>
      var name := TagName(s[1..end]);
      var closing, selfClosing := "</" <= s, IsVoid(name) || EndsInSlash(s[1..end]);
      if !closing && !selfClosing && Dropped(name) then DroppedAt(s, end, name)
      else Markup(if (closing || selfClosing) && BreaksLine(name) then " " else "", end + 1)
  }

  function MarkupAt(s: string): (m: Markup)
    requires |s| > 0 && s[0] == '<'
    ensures m.Markup? ==> 0 < m.len <= |s|
  {
    if "<!--" <= s then Markup("", CommentEnd(s)) else TagAt(s)
  }

  /** The text between the tags. */
  function RawText(s: string): string
    decreases |s|
  {
    if |s| == 0 then ""
    else if s[0] != '<' then [s[0]] + RawText(s[1..])
    else
      match MarkupAt(s)
      case Unfinished => ""
      case Markup(text, len) => text + RawText(s[len..])
  }

  /** The visible text; `None` where the decoder panics. */
  function TextOf(s: string): Option<string> {
    Normalized(RawText(s))
  }

  // ---------------------------------------------------------------- the loop

  lemma {:induction false} RawTextPlain(plain: string, rest: string)
    requires Lacks(plain, '<')
    ensures RawText(plain + rest) == plain + RawText(rest)
  {
    hide MarkupAt;
    if |plain| == 0 {
      assert plain + rest == rest;
    } else {
      RawTextPlain(plain[1..], rest);
      assert (plain + rest)[1..] == plain[1..] + rest;
      assert plain == [plain[0]] + plain[1..];
      assert [plain[0]] + (plain[1..] + RawText(rest)) == plain + RawText(rest);
    }
  }

  lemma RawTextMarkup(out: string, s: string)
    requires |s| > 0 && s[0] == '<'
    ensures var m := MarkupAt(s);
            out + RawText(s) == if m.Unfinished? then out else out + m.text + RawText(s[m.len..])
  {
    hide MarkupAt;
    var m := MarkupAt(s);
    if m.Unfinished? {
      assert out + "" == out;
    } else {
      assert out + (m.text + RawText(s[m.len..])) == out + m.text + RawText(s[m.len..]);
    }
  }

  /** Where the text before the next `<` of a fragment ends. */
  function NextTag(fragment: string, index: nat): (next: nat)
    requires index < |fragment| && fragment[index] != '<'
    ensures index < next <= |fragment| && Lacks(fragment[index..next], '<')
  {
    var rest := fragment[index..];
    match Find(rest, "<")
    case None =>
      assert forall i | 0 <= i < |rest| :: !OccursAt(rest, "<", i) && rest[i..i + 1] == [rest[i]];
      |fragment|
    case Some(offset) =>
      assert forall i | 0 <= i < offset :: !OccursAt(rest, "<", i) && rest[i..i + 1] == [rest[i]];
      index + offset
  }

  lemma RawTextSegment(out: string, fragment: string, index: nat, next: nat)
    requires index <= next <= |fragment| && Lacks(fragment[index..next], '<')
    ensures out + RawText(fragment[index..]) == out + fragment[index..next] + RawText(fragment[next..])
  {
    hide RawText;
    var plain, rest := fragment[index..next], fragment[next..];
    RawTextPlain(plain, rest);
    assert fragment[index..] == plain + rest;
    assert out + (plain + RawText(rest)) == out + plain + RawText(rest);
  }

  lemma NoText(out: string, s: string)
    requires |s| == 0
    ensures RawText(s) == "" && out + RawText(s) == out
  {
  }

  /** The loop body from a `<` on. */
  method ReadMarkup(fragment: string, index: nat) returns (m: Markup)
    requires index < |fragment| && fragment[index] == '<'
    ensures m == MarkupAt(fragment[index..])
  {
    hide TagEnd, TagName, EndsInSlash, IsVoid, BreaksLine, MatchingClose, CommentEnd;
    ghost var s := fragment[index..];
    if "<!--" <= fragment[index..] {
      return Markup("", CommentEnd(fragment[index..]));
    }
    var tagEnd := FindTagEnd(fragment, index);
    if tagEnd.None? {
      return Unfinished;
    }
    var end := tagEnd.value;
    var source := fragment[index + 1..end];
    assert s[1..end - index] == source && s[end - index + 1..] == fragment[end + 1..];
    var name := TagName(source);
    var closing := "</" <= fragment[index..];
    var selfClosing := IsVoid(name) || EndsInSlash(source);
    if !closing && !selfClosing && Dropped(name) {
      var close := FindMatchingClose(fragment, end + 1, name);
      match close {
        case Ok(Some(span)) => return Markup(" ", span.end - index);
        case _ => return Markup(" ", |fragment| - index);
      }
    }
    var text := "";
    if selfClosing && !closing && BreaksLine(name) {
      text := " ";
    }
    if closing && BreaksLine(name) {
      text := " ";
    }
    return Markup(text, end + 1 - index);
  }

  /** `normalize_text`. */
  method NormalizeText(value: string) returns (r: Option<string>)
    ensures r == Normalized(value)
  {
    hide Collapsed, Decoded;
    var collapsed := CollapseWhitespace(value);
    r := DecodeEntities(collapsed);
  }

  /** `element_text`. */
  method ElementText(fragment: string) returns (r: Option<string>)
    ensures r == TextOf(fragment)
  {
    hide RawText, MarkupAt, Find, Lacks, Normalized;
    var out := "";
    var index := 0;
    assert fragment[0..] == fragment && "" + RawText(fragment) == RawText(fragment);
    while index < |fragment|
      invariant index <= |fragment|
      invariant RawText(fragment) == out + RawText(fragment[index..])
    {
      if fragment[index] != '<' {
        var next := NextTag(fragment, index);
        RawTextSegment(out, fragment, index, next);
        out := out + fragment[index..next];
        index := next;
        continue;
      }
      RawTextMarkup(out, fragment[index..]);
      var markup := ReadMarkup(fragment, index);
      if markup.Unfinished? {
        break;
      }
      out := out + markup.text;
      assert fragment[index..][markup.len..] == fragment[index + markup.len..];
      index := index + markup.len;
    }
    if index == |fragment| {
      NoText(out, fragment[index..]);
    }
    assert RawText(fragment) == out;
    r := NormalizeText(out);
  }

  // ---------------------------------------------------------------- printed pages

  /** The text a node contributes: what its tags mean, and what stands between them. */
  function Flat(node: Node): string
    decreases node, 1
  {
    match node
    case Text(text) => text
    case Comment(_) => ""
    case Element(name, tag, _, children) =>
      var space := if BreaksLine(name) then " " else "";
      if Hollow(name, tag) then space else if Dropped(name) then " " else FlatForest(children) + space
  }

  function FlatForest(forest: seq<Node>): string
    decreases forest, 0
  {
    if |forest| == 0 then "" else Flat(forest[0]) + FlatForest(forest[1..])
  }

  lemma NoSlashToDrop(s: string)
    requires Lacks(s, '/')
    ensures DropSlashes(s) == s && DropLastSlashes(s) == s
  {
  }

  /** The first word of a tag is its name, in whatever case, perhaps with a slash at its end. */
  lemma TagNameIs(open: string, after: string, name: string)
    requires IsTagName(name) && Spells(open, name)
    requires after == "" || after == "/" || IsAsciiWhitespace(after[0])
    ensures TagName(open + after) == name
  {
    hide Words, IsTagName, IsWhitespace, DropLastSlashes;
    SpellingLacks(open, name);
    NoSlashToDrop(open);
    FirstWord(open, after);
    assert (open + after)[0] == open[0];
    assert DropSlashes(open + after) == open + after;
    DropOneSlash(open);
  }

  lemma DropOneSlash(s: string)
    requires Lacks(s, '/')
    ensures DropLastSlashes(s + "/") == s && DropLastSlashes(s) == s
  {
    NoSlashToDrop(s);
    assert (s + "/")[..|s|] == s;
  }

  lemma FirstWord(open: string, after: string)
    requires open != "" && forall i | 0 <= i < |open| :: !IsWhitespace(open[i])
    requires after == "" || after == "/" || IsAsciiWhitespace(after[0])
    ensures var words := Words(open + after);
      |words| > 0 && words[0] == if after == "/" then open + "/" else open
  {
    hide Words, IsWhitespace;
    SlashIsNoSpace();
    if after == "" {
      assert open + after == open;
      WordsOfWord(open);
    } else if after == "/" {
      WordsOfWord(open + after);
    } else {
      BlankIsWhitespace(after[0]);
      assert open + after == open + [after[0]] + after[1..];
      WordsAcrossSpace(open, after[0], after[1..]);
      WordsOfWord(open);
    }
  }

  lemma SlashIsNoSpace()
    ensures !IsWhitespace('/')
  {
  }

  lemma BlankIsWhitespace(c: char)
    requires IsAsciiWhitespace(c)
    ensures IsWhitespace(c)
  {
  }

  /** Every slash has something visible behind it. */
  ghost predicate SlashFollowed(s: string) {
    forall i | 0 <= i < |s| && s[i] == '/' :: exists j :: i < j < |s| && !IsWhitespace(s[j])
  }

  lemma SlashFollowedConcat(a: string, b: string)
    requires SlashFollowed(a) && SlashFollowed(b)
    ensures SlashFollowed(a + b)
  {
    hide IsWhitespace;
    var s := a + b;
    forall i | 0 <= i < |s| && s[i] == '/'
      ensures exists j :: i < j < |s| && !IsWhitespace(s[j])
    {
      if i < |a| {
        assert a[i] == '/';
        var j :| i < j < |a| && !IsWhitespace(a[j]);
        assert !IsWhitespace(s[j]);
      } else {
        assert b[i - |a|] == '/';
        var j :| i - |a| < j < |b| && !IsWhitespace(b[j]);
        assert !IsWhitespace(s[|a| + j]);
      }
    }
  }

  lemma FollowedEndsInNoSlash(s: string)
    requires SlashFollowed(s)
    ensures !EndsInSlash(s)
  {
    hide IsWhitespace;
    var t := TrimEnd(s);
    assert t != "" ==> s[|t| - 1] == t[|t| - 1];
  }

  lemma WrittenFollowed(value: string, look: Look)
    requires Holds(look, value)
    ensures SlashFollowed(Written(value, look))
  {
    match look
    case Double => QuotedFollowed('"', value);
    case Single => QuotedFollowed('\'', value);
    case Bare => BareLacks(value);
    case Absent =>
  }

  lemma QuotedFollowed(mark: char, value: string)
    requires mark == '"' || mark == '\''
    ensures SlashFollowed([mark] + value + [mark])
  {
    var s := [mark] + value + [mark];
    assert !IsWhitespace(s[|s| - 1]);
  }

  lemma AttributeFollowed(a: Spelled)
    requires TagAttribute(a)
    ensures SlashFollowed(PrintAttribute(a))
  {
    hide IsWhitespace, SlashFollowed, Written, Holds;
    NameLacks(a.key);
    BlankLacks(a.lead);
    BlankLacks(a.left);
    BlankLacks(a.right);
    NoSlashFollowed(a.lead + a.key);
    if a.look.Absent? {
      assert PrintAttribute(a) == a.lead + a.key;
    } else {
      WrittenFollowed(a.value, a.look);
      NoSlashFollowed(a.left + "=" + a.right);
      SlashFollowedConcat(a.left + "=" + a.right, Written(a.value, a.look));
      SlashFollowedConcat(a.lead + a.key, PrintTail(a));
    }
  }

  lemma NoSlashFollowed(s: string)
    requires Lacks(s, '/')
    ensures SlashFollowed(s)
  {
  }

  lemma {:induction false} AttributesFollowed(attrs: seq<Spelled>)
    requires AllTagAttributes(attrs)
    ensures SlashFollowed(PrintAttributes(attrs))
  {
    hide SlashFollowed, PrintAttribute, TagAttribute;
    if attrs == [] {
      NoSlashFollowed("");
    } else {
      AttributeFollowed(attrs[0]);
      AttributesFollowed(attrs[1..]);
      SlashFollowedConcat(PrintAttribute(attrs[0]), PrintAttributes(attrs[1..]));
    }
  }

  /** Inside the brackets of a printed start tag. */
  function TagSource(tag: Tag, attrs: seq<Spelled>): string {
    tag.open + (PrintAttributes(attrs) + TagEndText(tag))
  }

  lemma StartTagSource(name: string, tag: Tag, attrs: seq<Spelled>)
    requires TagOf(tag, name) && TagAttributes(attrs)
    ensures TagName(TagSource(tag, attrs)) == name
    ensures EndsInSlash(TagSource(tag, attrs)) <==> tag.slash
  {
    hide TagName, EndsInSlash, IsTagName, Spells, SlashFollowed, PrintAttributes, AllTagAttributes;
    AfterNameIs(tag, attrs);
    TagNameIs(tag.open, PrintAttributes(attrs) + TagEndText(tag), name);
    if tag.slash {
      SlashEnds(tag.open + PrintAttributes(attrs) + tag.space);
      assert TagSource(tag, attrs) == tag.open + PrintAttributes(attrs) + tag.space + "/";
    } else {
      SpellingLacks(tag.open, name);
      BlankLacks(tag.space);
      NoSlashFollowed(tag.open);
      NoSlashFollowed(tag.space);
      AttributesFollowed(attrs);
      SlashFollowedConcat(PrintAttributes(attrs), tag.space);
      SlashFollowedConcat(tag.open, PrintAttributes(attrs) + tag.space);
      assert TagEndText(tag) == tag.space;
      FollowedEndsInNoSlash(TagSource(tag, attrs));
    }
  }

  lemma SlashEnds(s: string)
    ensures EndsInSlash(s + "/")
  {
    SlashIsNoSpace();
    assert TrimEnd(s + "/") == s + "/";
  }

  lemma AfterNameIs(tag: Tag, attrs: seq<Spelled>)
    requires TagAttributes(attrs) && Blank(tag.space)
    ensures var after := PrintAttributes(attrs) + TagEndText(tag);
      after == "" || after == "/" || IsAsciiWhitespace(after[0])
  {
    var after := PrintAttributes(attrs) + TagEndText(tag);
    if attrs != [] {
      assert TagAttribute(attrs[0]);
      assert after[0] == attrs[0].lead[0];
    } else if tag.space != "" {
      assert after[0] == tag.space[0];
    } else {
      assert after == if tag.slash then "/" else "";
    }
  }

  lemma SourceOfStartTag(tag: Tag, attrs: seq<Spelled>, rest: string)
    ensures var t := StartTag(tag, attrs); (t + rest)[1..|t| - 1] == TagSource(tag, attrs) && (t + rest)[0] == '<'
  {
    hide PrintAttributes, TagEndText;
    assert StartTag(tag, attrs) + rest == "<" + TagSource(tag, attrs) + (">" + rest);
  }

  /** At a printed start tag. */
  lemma AtStartTag(name: string, tag: Tag, attrs: seq<Spelled>, rest: string)
    requires TagOf(tag, name) && TagAttributes(attrs)
    ensures var t := StartTag(tag, attrs); var s := t + rest;
      && s[0] == '<' && |t| > 0
      && MarkupAt(s) == if !Hollow(name, tag) && Dropped(name) then DroppedAt(s, |t| - 1, name)
                        else Markup(if Hollow(name, tag) && BreaksLine(name) then " " else "", |t|)
  {
    hide TagEnd, TagName, EndsInSlash, IsVoid, Dropped, BreaksLine, TagOf, DroppedAt, TagAttributes, StartTag,
        TagSource, Hollow;
    var t := StartTag(tag, attrs);
    HollowExactly(name, tag);
    StartTagIsNotEmpty(tag, attrs);
    ElementHead(name, tag, attrs, rest);
    StartTagEnds(name, tag, attrs, rest);
    StartTagSource(name, tag, attrs);
    SourceOfStartTag(tag, attrs, rest);
  }

  /** Past a printed tag whose content is text. */
  lemma RawTextTag(name: string, tag: Tag, attrs: seq<Spelled>, rest: string)
    requires TagOf(tag, name) && TagAttributes(attrs) && (Hollow(name, tag) || !Dropped(name))
    ensures RawText(StartTag(tag, attrs) + rest) ==
            (if Hollow(name, tag) && BreaksLine(name) then " " else "") + RawText(rest)
  {
    hide MarkupAt, RawText, StartTag, Hollow, Dropped, BreaksLine, TagOf, TagAttributes;
    var t := StartTag(tag, attrs);
    AtStartTag(name, tag, attrs, rest);
    RawTextMarkup("", t + rest);
    assert (t + rest)[|t|..] == rest;
    EmptyPrefix(RawText(t + rest), if Hollow(name, tag) && BreaksLine(name) then " " else "");
  }

  lemma EmptyPrefix(a: string, b: string)
    ensures "" + a == a && "" + b == b
  {
  }

  lemma CloseTagSource(name: string, tag: Tag)
    requires TagOf(tag, name)
    ensures TagName("/" + tag.close + tag.gap) == name
  {
    hide Words, IsTagName, Spells, IsWhitespace, DropLastSlashes;
    SpellingLacks(tag.close, name);
    TagNameIs(tag.close, tag.gap, name);
    var inner := tag.close + tag.gap;
    assert ("/" + tag.close + tag.gap)[1..] == inner;
    assert inner[0] == tag.close[0];
    assert DropSlashes(inner) == inner && DropSlashes("/" + tag.close + tag.gap) == inner;
  }

  /** Past a printed close tag. */
  lemma RawTextCloseTag(name: string, tag: Tag, rest: string)
    requires TagOf(tag, name)
    ensures RawText(CloseTag(tag) + rest) == (if BreaksLine(name) then " " else "") + RawText(rest)
  {
    hide RawText, TagEnd, TagName, EndsInSlash, IsVoid, Dropped, BreaksLine, IsTagName, Spells, StartsWithTagName;
    var t := CloseTag(tag);
    var s := t + rest;
    CloseTagHead(name, tag, rest, name);
    CloseTagSource(name, tag);
    assert s[1..|t| - 1] == "/" + tag.close + tag.gap && s[|t|..] == rest;
    RawTextMarkup("", s);
    EmptyPrefix(RawText(s), if BreaksLine(name) then " " else "");
  }

  lemma RawTextComment(text: string, rest: string)
    requires CommentText(text)
    ensures RawText("<!--" + text + "-->" + rest) == RawText(rest)
  {
    hide RawText, TagAt;
    var s := "<!--" + text + "-->";
    assert OccursAt(s, "-->", 4 + |text|);
    FindIsStable(s, s + rest, "-->", 4 + |text|);
    assert (s + rest)[|s|..] == rest;
    RawTextMarkup("", s + rest);
    EmptyPrefix(RawText(s + rest), "");
  }

  /** A printed element whose content is dropped is one space, whatever it holds. */
  lemma RawTextDropped(name: string, tag: Tag, attrs: seq<Spelled>, children: seq<Node>, rest: string)
    requires TagOf(tag, name) && TagAttributes(attrs) && !Hollow(name, tag) && Dropped(name) && Printable(children)
    ensures RawText(StartTag(tag, attrs) + (Print(children) + (CloseTag(tag) + rest))) == " " + RawText(rest)
  {
    hide RawText, MatchingClose, StartTag, CloseTag, Print, Printable, Hollow, Dropped, IsTagName, Spells,
        TagAttributes,
        MarkupAt;
    var start, inner, end := StartTag(tag, attrs), Print(children), CloseTag(tag);
    var after := inner + (end + rest);
    var s := start + after;
    AtStartTag(name, tag, attrs, after);
    ClosePassesForest(children, end + rest, name, 1);
    OwnCloseTag(name, tag, rest, 1);
    assert s[|start|..] == after && s[|start| + |inner| + |end|..] == rest;
    RawTextMarkup("", s);
    EmptyPrefix(RawText(s), " ");
  }

  lemma JoinTexts(a: string, b: string, c: string)
    ensures a + (b + c) == a + b + c
  {
  }

  lemma RawTextElement(node: Node, rest: string)
    requires node.Element? && PrintableNode(node) && !Hollow(node.name, node.tag) && !Dropped(node.name)
    requires RawText(Print(node.children) + (CloseTag(node.tag) + rest)) ==
             FlatForest(node.children) + RawText(CloseTag(node.tag) + rest)
    ensures RawText(PrintNode(node) + rest) == Flat(node) + RawText(rest)
  {
    hide RawText, StartTag, CloseTag, Print, Printable, FlatForest, Hollow, Dropped, BreaksLine,
        TagOf, TagAttributes;
    var inner, end := Print(node.children), CloseTag(node.tag);
    RawTextTag(node.name, node.tag, node.attrs, inner + (end + rest));
    RawTextCloseTag(node.name, node.tag, rest);
    assert PrintNode(node) + rest == StartTag(node.tag, node.attrs) + (inner + (end + rest));
    EmptyPrefix(RawText(inner + (end + rest)), "");
    JoinTexts(FlatForest(node.children), if BreaksLine(node.name) then " " else "", RawText(rest));
  }

  lemma {:induction false} RawTextOfNode(node: Node, rest: string)
    requires PrintableNode(node)
    ensures RawText(PrintNode(node) + rest) == Flat(node) + RawText(rest)
    decreases node, 1
  {
    hide RawText, Hollow, Dropped, BreaksLine, TagOf, TagAttributes, CommentText, Lacks, StartTag, CloseTag;
    match node {
      case Text(text) =>
        RawTextPlain(text, rest);
      case Comment(text) =>
        RawTextComment(text, rest);
        EmptyPrefix(RawText(rest), "");
      case Element(name, tag, attrs, children) =>
        var start, inner, end := StartTag(tag, attrs), Print(children), CloseTag(tag);
        if Hollow(name, tag) {
          RawTextTag(name, tag, attrs, rest);
          assert PrintNode(node) == start + "" == start;
        } else if Dropped(name) {
          RawTextDropped(name, tag, attrs, children, rest);
          assert PrintNode(node) + rest == start + (inner + (end + rest));
        } else {
          RawTextOfPrint(children, end + rest);
          RawTextElement(node, rest);
        }
    }
  }

  /** The loop reads the text of every printed forest. */
  lemma {:induction false} RawTextOfPrint(forest: seq<Node>, rest: string)
    requires Printable(forest)
    ensures RawText(Print(forest) + rest) == FlatForest(forest) + RawText(rest)
    decreases forest, 0
  {
    hide RawText, PrintNode, Flat, PrintableNode;
    if |forest| == 0 {
      EmptyPrefix(rest, RawText(rest));
    } else {
      RawTextOfNode(forest[0], Print(forest[1..]) + rest);
      RawTextOfPrint(forest[1..], rest);
      JoinTexts(PrintNode(forest[0]), Print(forest[1..]), rest);
      JoinTexts(Flat(forest[0]), FlatForest(forest[1..]), RawText(rest));
    }
  }

  // ---------------------------------------------------------------- escaped pages

  lemma EscapeSpace()
    ensures Escape(" ") == " " && Escape("") == ""
  {
    EscapeOne(' ');
  }

  lemma {:induction false} FlatOfEscapedNode(node: Node)
    ensures Flat(EscapedNode(node)) == Escape(Flat(node))
    decreases node, 1
  {
    hide Escape, Hollow, Dropped, BreaksLine;
    EscapeSpace();
    match node
    case Text(_) =>
    case Comment(_) =>
    case Element(name, _, _, children) =>
      FlatOfEscaped(children);
      EscapeConcat(FlatForest(children), if BreaksLine(name) then " " else "");
  }

  lemma {:induction false} FlatOfEscaped(forest: seq<Node>)
    ensures FlatForest(Escaped(forest)) == Escape(FlatForest(forest))
    decreases forest, 0
  {
    hide Escape, EscapedNode, Flat;
    EscapeSpace();
    if |forest| > 0 {
      FlatOfEscapedNode(forest[0]);
      FlatOfEscaped(forest[1..]);
      EscapeConcat(Flat(forest[0]), FlatForest(forest[1..]));
      assert Escaped(forest)[1..] == Escaped(forest[1..]);
    }
  }

  /**
   The visible text of a page that was printed escaped is the text of its nodes,
   collapsed; and the source panics on it exactly when that text cannot be decoded.
   */
  lemma TextOfEscapedPage(forest: seq<Node>)
    requires Named(forest)
    ensures var text := Collapsed(FlatForest(forest));
            TextOf(Print(Escaped(forest))) == if WindowsAligned(Escape(text)) then Some(text) else None
  {
    hide RawText, Escape, Normalized, Collapsed, WindowsAligned, Print, Printable, Named;
    NamedIsPrintable(forest);
    var page := Print(Escaped(forest));
    RawTextOfPrint(Escaped(forest), "");
    NoText(FlatForest(Escaped(forest)), "");
    assert page + "" == page;
    FlatOfEscaped(forest);
    EscapedValueReadsBack(FlatForest(forest));
  }

  // ---------------------------------------------------------------- neighbours

  /** An element that ends its line: neighbouring cells, rows, headings and paragraphs. */
  predicate Block(node: Node) {
    && node.Element? && !node.tag.slash
    && node.name in {"p", "div", "tr", "td", "th", "li", "ul", "ol", "table", "h1", "h2", "h3", "h4", "h5", "h6"}
  }

  function WordsOfBlocks(blocks: seq<Node>): seq<string>
    requires forall i | 0 <= i < |blocks| :: Block(blocks[i])
  {
    if |blocks| == 0 then []
    else
      assert Block(blocks[0]);
      Words(FlatForest(blocks[0].children)) + WordsOfBlocks(blocks[1..])
  }

  /** Adjacent cells do not run together: the words are those of each cell, in order. */
  lemma {:induction false} BlocksStayApart(blocks: seq<Node>)
    requires forall i | 0 <= i < |blocks| :: Block(blocks[i])
    ensures Words(FlatForest(blocks)) == WordsOfBlocks(blocks)
  {
    hide Words, IsWhitespace;
    if |blocks| == 0 {
      NoWords();
    } else {
      hide Block, BreaksLine, IsVoid, Dropped;
      var text, rest := FlatForest(blocks[0].children), FlatForest(blocks[1..]);
      FlatOfBlock(blocks[0]);
      assert FlatForest(blocks) == text + [' '] + rest;
      SpaceIsWhitespace();
      WordsAcrossSpace(text, ' ', rest);
      BlocksStayApart(blocks[1..]);
    }
  }

  lemma FlatOfBlock(block: Node)
    requires Block(block)
    ensures Flat(block) == FlatForest(block.children) + " "
  {
  }

  lemma SpaceIsWhitespace()
    ensures IsWhitespace(' ')
  {
  }

  /** Any other element runs on: inline markup adds nothing to the text of its children. */
  lemma InlineRunsOn(node: Node)
    requires node.Element? && !node.tag.slash && !IsVoid(node.name)
    requires node.name !in {"p", "div", "tr", "td", "th", "li", "ul", "ol", "table", "h1", "h2", "h3", "h4", "h5", "h6",
                            "script", "style", "template", "noscript"}
    ensures Flat(node) == FlatForest(node.children)
  {
    assert node.name != "br";
    assert FlatForest(node.children) + "" == FlatForest(node.children);
  }

  /** A line break is one space, and a script nothing but one. */
  lemma BreakIsSpace(node: Node)
    requires node.Element? && (node.name == "br" ||
            (!node.tag.slash && node.name in {"script", "style", "template", "noscript"}))
    ensures Flat(node) == " "
  {
  }

  // ---------------------------------------------------------------- unclosed scripts

  /** The text starts with a whole start tag of a dropped element that does not close itself. */
  predicate OpensDropped(s: string) {
    && |s| > 0 && s[0] == '<' && !("<!--" <= s) && !("</" <= s)
    && TagEnd(s).Some?
    && Dropped(TagName(s[1..TagEnd(s).value])) && !EndsInSlash(s[1..TagEnd(s).value])
  }

  /** Past the opening tag of a dropped element: what follows its close, or nothing at all. */
  lemma DroppedExactly(s: string)
    requires OpensDropped(s)
    ensures var end := TagEnd(s).value;
            var r := MatchingClose(s[end + 1..], TagName(s[1..end]), 1);
            RawText(s) == if r.Ok? && r.value.Some? then " " + RawText(s[end + 1..][r.value.value.end..]) else " "
  {
    hide RawText, MatchingClose, EndsInSlash, TagName;
    var end := TagEnd(s).value;
    var r := MatchingClose(s[end + 1..], TagName(s[1..end]), 1);
    RawTextMarkup("", s);
    EmptyPrefix(RawText(s), " ");
    if r.Ok? && r.value.Some? {
      assert s[end + 1 + r.value.value.end..] == s[end + 1..][r.value.value.end..];
    } else {
      NoText(" ", s[|s|..]);
    }
  }

  lemma AtScript(text: string)
    ensures var s := "<script>" + text;
            OpensDropped(s) && TagEnd(s) == Some(7) && s[8..] == text && TagName(s[1..7]) == "script"
  {
    hide TagEnd, TagName, EndsInSlash;
    var s := "<script>" + text;
    assert IsTagName("script") && TagAttributes([]);
    PlainSpells("script");
    var tag := Plain("script");
    assert PrintAttributes([]) == "" && StartTag(tag, []) == "<script>" && TagSource(tag, []) == "script";
    StartTagEnds("script", tag, [], text);
    StartTagSource("script", tag, []);
    assert s[1..7] == "script" && s[1] == 's';
  }

  /** A script that is never closed hides all text after it. */
  lemma UnclosedScriptHidesText(text: string)
    requires Lacks(text, '<')
    ensures TextOf("<script>" + text) == Some("")
  {
    hide RawText, MatchingClose, Normalized, OpensDropped, TagEnd, TagName;
    AtScript(text);
    DroppedExactly("<script>" + text);
    ClosePassesPlain(text, "", "script", 1);
    assert text + "" == text;
    NothingClosed("script");
    BlankText();
  }

  lemma NothingClosed(name: string)
    ensures MatchingClose("", name, 1) == Ok(None)
  {
  }

  lemma BlankText()
    ensures Normalized(" ") == Some("")
  {
    WordsSnoc("", ' ');
    NoWords();
    DecodeNothing();
    assert "" + [' '] == " ";
  }
}
