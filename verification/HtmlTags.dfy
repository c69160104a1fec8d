/**
 The lexical level of the bounded HTML scanner: where a tag ends, where a comment
 ends, and whether a tag name starts here.

 Specifications speak about a suffix of the page (the text from the position the
 scanner stands at); the methods are the scanner's index loops.
 */
module HtmlTags {
  import opened Wrappers
  import opened Text

  // ------------------------------------------------------------ the end of a tag

  /** What `find_tag_end` remembers between two characters. */
  datatype TagState = TagState(quote: Option<char>, afterEquals: bool)

  const OUTSIDE := TagState(None, false)

  /** A quote opens a value only directly after `=`, white space aside. */
  function Step(state: TagState, c: char): TagState {
    var quote :=
      match state.quote
      case Some(delimiter) => if c == delimiter then None else state.quote
      case None => if (c == '"' || c == '\'') && state.afterEquals then Some(c) else None;
    TagState(quote, if IsAsciiWhitespace(c) then state.afterEquals else c == '=')
  }

  function Run(state: TagState, s: string): TagState
    decreases |s|
  {
    if s == "" then state else Step(Run(state, s[..|s| - 1]), s[|s| - 1])
  }

  lemma {:induction false} RunConcat(state: TagState, a: string, b: string)
    ensures Run(state, a + b) == Run(Run(state, a), b)
    decreases |b|
  {
    if b == "" {
      assert a + b == a;
    } else {
      var whole := a + b;
      assert whole[..|whole| - 1] == a + b[..|b| - 1];
      RunConcat(state, a, b[..|b| - 1]);
    }
  }

  /** `s[k]` is a `>` outside every quoted value of the tag that starts at 0. */
  predicate EndsAt(s: string, k: nat) {
    k < |s| && s[k] == '>' && Run(OUTSIDE, s[..k]).quote.None?
  }

  ghost predicate IsTagEnd(s: string, r: Option<nat>) {
    match r
    case Some(k) => EndsAt(s, k) && forall j: nat | j < k :: !EndsAt(s, j)
    case None => forall j: nat | j < |s| :: !EndsAt(s, j)
  }

  function TagEndFrom(s: string, k: nat): (r: Option<nat>)
    requires k <= |s| && forall j: nat | j < k :: !EndsAt(s, j)
    ensures IsTagEnd(s, r)
    decreases |s| - k
  {
    if k == |s| then None else if EndsAt(s, k) then Some(k) else TagEndFrom(s, k + 1)
  }

  /** The first unquoted `>`. */
  function TagEnd(s: string): (r: Option<nat>)
    ensures IsTagEnd(s, r)
  {
    TagEndFrom(s, 0)
  }

  method FindTagEnd(body: string, start: nat) returns (r: Option<nat>)
    requires start <= |body|
    ensures r == match TagEnd(body[start..]) case None => None case Some(k) => Some(start + k)
  {
    ghost var s := body[start..];
    var index := start;
    var quote: Option<char> := None;
    var afterEquals := false;
    while index < |body|
      invariant start <= index <= |body|
      invariant TagState(quote, afterEquals) == Run(OUTSIDE, s[..index - start])
      invariant forall j: nat | j < index - start :: !EndsAt(s, j)
    {
      var c := body[index];
      assert c == s[index - start];
      match quote {
        case Some(delimiter) =>
          if c == delimiter {
            quote := None;
          }
        case None =>
          if (c == '"' || c == '\'') && afterEquals {
            quote := Some(c);
          } else if c == '>' {
            assert EndsAt(s, index - start);
            return Some(index);
          }
      }
      if !IsAsciiWhitespace(c) {
        afterEquals := c == '=';
      }
      assert s[..index + 1 - start][..index - start] == s[..index - start];
      index := index + 1;
    }
    return None;
  }

  /** The end of a tag is decided by the characters up to it. */
  lemma TagEndOfPrefix(s: string, t: string, k: nat)
    requires k < |s| && k < |t| && s[..k + 1] == t[..k + 1]
    requires TagEnd(s) == Some(k)
    ensures TagEnd(t) == Some(k)
  {
    assert s[k] == s[..k + 1][k] == t[..k + 1][k] == t[k];
    forall j: nat | j <= k
      ensures EndsAt(t, j) <==> EndsAt(s, j)
    {
      assert s[..j] == s[..k + 1][..j] == t[..k + 1][..j] == t[..j];
      assert s[j] == s[..k + 1][j] == t[..k + 1][j] == t[j];
    }
  }

  // ---------------------------------------------------------------- tag heads

  function Delimiter(c: char): bool {
    IsWhitespace(c) || c == '>' || c == '/'
  }

  /** `starts_with_tag_name`. */
  predicate StartsWithTagName(rest: string, name: string) {
    |name| < |rest| && EqIgnoreCase(rest[..|name|], name) && Delimiter(rest[|name|])
  }

  predicate IsVoid(name: string) {
    name in {"area", "base", "br", "col", "embed", "hr", "img", "input", "link", "meta",
             "param", "source", "track", "wbr"}
  }

  /** `skip_comment`, for a text that starts with `<!--`. */
  function CommentEnd(s: string): (end: nat)
    ensures end <= |s|
    ensures s != "" ==> end > 0
  {
    match Find(s, "-->")
    case Some(offset) => offset + 3
    case None => |s|
  }

  /** A comment ends just past its first `-->`, or with the text when there is none. */
  lemma CommentEndsExactly(s: string)
    ensures (exists k: nat :: OccursAt(s, "-->", k)) ==>
              && CommentEnd(s) >= 3 && OccursAt(s, "-->", CommentEnd(s) - 3)
              && forall k: nat | k < CommentEnd(s) - 3 :: !OccursAt(s, "-->", k)
    ensures (forall k: nat :: !OccursAt(s, "-->", k)) ==> CommentEnd(s) == |s|
  {
    hide OccursAt;
    if Find(s, "-->").Some? {
      assert OccursAt(s, "-->", Find(s, "-->").value);
    }
  }

  /** The tag source up to and including `>` ends in `/>`; `>` is not white space, so the trim is idle. */
  predicate SelfClosing(tag: string) {
    |tag| >= 2 && tag[|tag| - 2..] == "/>"
  }

  /** No `>` can hide inside the matched name. */
  lemma NameHasNoTagEnd(s: string, at: nat, name: string, k: nat)
    requires IsTagName(name) && 0 < at <= |s|
    requires forall i | 0 <= i < at :: s[i] != '>'
    requires StartsWithTagName(s[at..], name)
    requires TagEnd(s) == Some(k)
    ensures k >= at + |name|
  {
    var rest := s[at..];
    forall i | at <= i < at + |name|
      ensures s[i] != '>'
    {
      var j := i - at;
      assert LowerChar(rest[..|name|][j]) == LowerChar(name[j]);
      assert name[j] in name;
    }
  }

  /** Whether a name starts here is decided by the name and one more character. */
  lemma TagNameOfPrefix(s: string, t: string, name: string)
    requires |t| <= |s| && t == s[..|t|]
    ensures StartsWithTagName(t, name) ==> StartsWithTagName(s, name)
    ensures |name| < |t| && StartsWithTagName(s, name) ==> StartsWithTagName(t, name)
  {
    if |name| < |t| {
      assert t[..|name|] == s[..|name|];
      assert t[|name|] == s[|name|];
    }
  }
}
