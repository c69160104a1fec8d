/**
 Finding the close tag of an open element: the same-name depth counter of the
 scanner, refined to a level over the comment-skipping token stream.
 */
module HtmlClose {
  import opened Wrappers
  import opened Text
  import opened HtmlTags

  datatype ScanError = TooLarge(context: string) | Unbalanced(context: string) | SplitCharacter

  /** A half-open range of the scanned text. */
  datatype Span = Span(start: nat, end: nat)

  type SpanResult = Result<Option<Span>, ScanError>

  function Shift(r: SpanResult, offset: nat): SpanResult {
    match r
    case Ok(Some(span)) => Ok(Some(Span(span.start + offset, span.end + offset)))
    case _ => r
  }

  // ---------------------------------------------------------------- tokens

  /**
   What stands at the head of a non-empty text, as far as one element name is
   concerned.  `Torn` is a tag of that name that never ends.
   */
  datatype Token = Skip(len: nat) | Open(len: nat) | Close(len: nat) | Torn(what: string)

  function HeadToken(s: string, name: string): (t: Token)
    requires s != ""
    ensures !t.Torn? ==> 0 < t.len <= |s|
  {
    if s[0] != '<' then Skip(1)
    else if "<!--" <= s then Skip(CommentEnd(s))
    else if "</" <= s then
      if StartsWithTagName(s[2..], name) then
        match TagEnd(s)
        case None => Torn("element close tag")
        case Some(k) => Close(k + 1)
      else Skip(2)
    else if StartsWithTagName(s[1..], name) && !IsVoid(name) then
      match TagEnd(s)
      case None => Torn("element start tag")
      case Some(k) => if SelfClosing(s[..k + 1]) then Skip(k + 1) else Open(k + 1)
    else Skip(1)
  }

  function Tokens(s: string, name: string): seq<Token>
    decreases |s|
  {
    if s == "" then []
    else
      var t := HeadToken(s, name);
      if t.Torn? then [t] else [t] + Tokens(s[t.len..], name)
  }

  function Weight(t: Token): int {
    match t
    case Open(_) => 1
    case Close(_) => -1
    case _ => 0
  }

  /** Opens minus closes. */
  function Level(ts: seq<Token>): int {
    if ts == [] then 0 else Weight(ts[0]) + Level(ts[1..])
  }

  function Width(ts: seq<Token>): nat {
    if ts == [] then 0 else (if ts[0].Torn? then 0 else ts[0].len) + Width(ts[1..])
  }

  /** From `depth` open elements, token `k` is the first to bring the level to zero. */
  ghost predicate ClosesAt(ts: seq<Token>, depth: nat, k: nat) {
    && k < |ts| && ts[k].Close?
    && depth + Level(ts[..k + 1]) == 0
    && StaysOpen(ts, depth, k)
  }

  ghost predicate StaysOpen(ts: seq<Token>, depth: nat, upTo: nat)
    requires upTo <= |ts|
  {
    forall j: nat | j <= upTo :: depth + Level(ts[..j]) > 0
  }

  /** The scanner's own recursion: where the element opened `depth` levels up closes. */
  function MatchingClose(s: string, name: string, depth: nat): (r: SpanResult)
    requires depth > 0
    ensures r.Ok? && r.value.Some? ==> r.value.value.start < r.value.value.end <= |s|
    ensures r.Err? ==> r.error.Unbalanced?
    decreases |s|
  {
    if s == "" then Ok(None)
    else
      match HeadToken(s, name)
      case Torn(what) => Err(Unbalanced(what))
      case Skip(len) => Shift(MatchingClose(s[len..], name, depth), len)
      case Open(len) => Shift(MatchingClose(s[len..], name, depth + 1), len)
      case Close(len) =>
        if depth == 1 then Ok(Some(Span(0, len)))
        else Shift(MatchingClose(s[len..], name, depth - 1), len)
  }

  /** The meaning of a result in terms of the token stream alone. */
  ghost predicate BalancedResult(ts: seq<Token>, depth: nat, r: SpanResult) {
    match r
    case Ok(Some(span)) =>
      exists k: nat :: ClosesAt(ts, depth, k) && span == Span(Width(ts[..k]), Width(ts[..k + 1]))
    case Ok(None) =>
      (forall t | t in ts :: !t.Torn?) && StaysOpen(ts, depth, |ts|)
    case Err(error) =>
      |ts| > 0 && ts[|ts| - 1].Torn? && error == Unbalanced(ts[|ts| - 1].what) && StaysOpen(ts, depth, |ts|)
  }

  lemma PrefixOfCons(t: Token, rest: seq<Token>, j: nat)
    requires 0 < j <= |rest| + 1
    ensures Level(([t] + rest)[..j]) == Weight(t) + Level(rest[..j - 1])
    ensures Width(([t] + rest)[..j]) == (if t.Torn? then 0 else t.len) + Width(rest[..j - 1])
  {
    assert ([t] + rest)[..j][1..] == rest[..j - 1];
  }

  lemma StaysOpenCons(t: Token, rest: seq<Token>, depth: nat, next: nat, upTo: nat)
    requires depth > 0 && next == depth + Weight(t) && upTo <= |rest|
    ensures StaysOpen([t] + rest, depth, upTo + 1) <==> StaysOpen(rest, next, upTo)
  {
    forall j: nat | 0 < j <= upTo + 1
      ensures depth + Level(([t] + rest)[..j]) == next + Level(rest[..j - 1])
    {
      PrefixOfCons(t, rest, j);
    }
    assert ([t] + rest)[..0] == [];
    if StaysOpen([t] + rest, depth, upTo + 1) {
      forall j: nat | j <= upTo
        ensures next + Level(rest[..j]) > 0
      {
        assert depth + Level(([t] + rest)[..j + 1]) > 0;
      }
    }
  }

  /** One step of the recursion keeps the declarative meaning. */
  lemma BalancedCons(t: Token, rest: seq<Token>, depth: nat, next: nat, r: SpanResult)
    requires depth > 0 && next > 0 && next == depth + Weight(t) && !t.Torn?
    requires BalancedResult(rest, next, r)
    ensures BalancedResult([t] + rest, depth, Shift(r, t.len))
  {
    var ts := [t] + rest;
    match r {
      case Ok(Some(span)) =>
        var k: nat :| ClosesAt(rest, next, k) && span == Span(Width(rest[..k]), Width(rest[..k + 1]));
        StaysOpenCons(t, rest, depth, next, k);
        PrefixOfCons(t, rest, k + 1);
        PrefixOfCons(t, rest, k + 2);
        assert ClosesAt(ts, depth, k + 1);
      case Ok(None) =>
        StaysOpenCons(t, rest, depth, next, |rest|);
      case Err(_) =>
        StaysOpenCons(t, rest, depth, next, |rest|);
    }
  }

  lemma TornAtOnce(t: Token, depth: nat)
    requires t.Torn? && depth > 0
    ensures BalancedResult([t], depth, Err(Unbalanced(t.what)))
  {
    forall j: nat | j <= 1
      ensures Level([t][..j]) == 0
    {
      assert [t][..j] == if j == 0 then [] else [t];
    }
  }

  lemma ClosedAtOnce(t: Token, rest: seq<Token>)
    requires t.Close?
    ensures BalancedResult([t] + rest, 1, Ok(Some(Span(0, t.len))))
  {
    var ts := [t] + rest;
    assert ts[..0] == [];
    PrefixOfCons(t, rest, 1);
    assert rest[..0] == [];
    assert ClosesAt(ts, 1, 0);
  }

  /**
   The depth counter returns the first close at which opens minus closes reaches
   zero; nothing, exactly when there is none and every tag of the name ends; and
   an error, exactly when an endless tag comes first.
   */
  lemma {:induction false} MatchingCloseIsFirstBalance(s: string, name: string, depth: nat)
    requires depth > 0
    ensures BalancedResult(Tokens(s, name), depth, MatchingClose(s, name, depth))
    decreases |s|
  {
    hide HeadToken;
    if s == "" {
    } else {
      var t := HeadToken(s, name);
      if t.Torn? {
        TornAtOnce(t, depth);
      } else {
        var rest := Tokens(s[t.len..], name);
        assert Tokens(s, name) == [t] + rest;
        var next := depth + Weight(t);
        if next > 0 {
          MatchingCloseIsFirstBalance(s[t.len..], name, next);
          BalancedCons(t, rest, depth, next, MatchingClose(s[t.len..], name, next));
        } else {
          ClosedAtOnce(t, rest);
        }
      }
    }
  }

  lemma FoundMeansClosed(ts: seq<Token>, depth: nat, r: SpanResult)
    requires BalancedResult(ts, depth, r) && r.Ok? && r.value.Some?
    ensures !StaysOpen(ts, depth, |ts|)
  {
    var k: nat :| ClosesAt(ts, depth, k) && r.value.value == Span(Width(ts[..k]), Width(ts[..k + 1]));
    assert depth + Level(ts[..k + 1]) == 0;
  }

  /** The three outcomes exclude each other, so the token stream decides the result. */
  lemma BalancedResultIsUnique(ts: seq<Token>, depth: nat, r1: SpanResult, r2: SpanResult)
    requires BalancedResult(ts, depth, r1) && BalancedResult(ts, depth, r2)
    ensures r1 == r2
  {
    if |ts| > 0 {
      assert ts[|ts| - 1] in ts;
    }
    if r1.Ok? && r1.value.Some? {
      FoundMeansClosed(ts, depth, r1);
    }
    if r2.Ok? && r2.value.Some? {
      FoundMeansClosed(ts, depth, r2);
      if r1.Ok? && r1.value.Some? {
        var k: nat :| ClosesAt(ts, depth, k) && r1.value.value == Span(Width(ts[..k]), Width(ts[..k + 1]));
        var m: nat :| ClosesAt(ts, depth, m) && r2.value.value == Span(Width(ts[..m]), Width(ts[..m + 1]));
        assert depth + Level(ts[..k + 1]) == 0 && depth + Level(ts[..m + 1]) == 0;
        assert k == m;
      }
    }
  }

  // ---------------------------------------------------------------- the loop

  /** Where the search stands: what is left of it, in the coordinates of the whole text. */
  function CloseFrom(body: string, index: nat, name: string, depth: nat): SpanResult
    requires index <= |body| && depth > 0
  {
    Shift(MatchingClose(body[index..], name, depth), index)
  }

  lemma Advance(body: string, index: nat, name: string, depth: nat)
    requires index < |body| && depth > 0
    ensures
      match HeadToken(body[index..], name)
      case Torn(what) => CloseFrom(body, index, name, depth) == Err(Unbalanced(what))
      case Skip(len) => CloseFrom(body, index, name, depth) == CloseFrom(body, index + len, name, depth)
      case Open(len) => CloseFrom(body, index, name, depth) == CloseFrom(body, index + len, name, depth + 1)
      case Close(len) =>
        CloseFrom(body, index, name, depth) ==
        if depth == 1 then Ok(Some(Span(index, index + len)))
        else CloseFrom(body, index + len, name, depth - 1)
  {
    hide HeadToken;
    var t := HeadToken(body[index..], name);
    if !t.Torn? {
      assert body[index..][t.len..] == body[index + t.len..];
    }
  }

  lemma NothingLeft(body: string, name: string, depth: nat)
    requires depth > 0
    ensures CloseFrom(body, |body|, name, depth) == Ok(None)
  {
    assert body[|body|..] == "";
  }

  method FindMatchingClose(body: string, from: nat, name: string) returns (r: SpanResult)
    requires from <= |body|
    ensures r == CloseFrom(body, from, name, 1)
  {
    hide StartsWithTagName, TagEnd, CommentEnd, SelfClosing, IsVoid, MatchingClose, CloseFrom;
    var index, depth := from, 1;
    while index < |body|
      invariant from <= index <= |body| && depth > 0
      invariant CloseFrom(body, from, name, 1) == CloseFrom(body, index, name, depth)
    {
      Advance(body, index, name, depth);
      var rest := body[index..];
      if rest[0] != '<' {
        index := index + 1;
      } else if "<!--" <= rest {
        index := index + CommentEnd(rest);
      } else if "</" <= rest {
        if StartsWithTagName(rest[2..], name) {
          var closeEnd := FindTagEnd(body, index);
          if closeEnd.None? {
            return Err(Unbalanced("element close tag"));
          }
          depth := depth - 1;
          if depth == 0 {
            return Ok(Some(Span(index, closeEnd.value + 1)));
          }
          index := closeEnd.value + 1;
        } else {
          index := index + 2;
        }
      } else if StartsWithTagName(rest[1..], name) && !IsVoid(name) {
        var openEnd := FindTagEnd(body, index);
        if openEnd.None? {
          return Err(Unbalanced("element start tag"));
        }
        if !SelfClosing(rest[..openEnd.value + 1 - index]) {
          depth := depth + 1;
        }
        index := openEnd.value + 1;
      } else {
        index := index + 1;
      }
    }
    NothingLeft(body, name, depth);
    return Ok(None);
  }

  // ------------------------------------------------------------ slice invariance

  lemma PrefixTail(s: string, t: string, k: nat)
    requires k <= |t| <= |s| && t == s[..|t|]
    ensures t[k..] == s[k..][..|t| - k]
  {
  }

  /** A token that ends inside a prefix of the text is the same token there. */
  lemma HeadTokenOfPrefix(s: string, t: string, name: string)
    requires IsTagName(name) && s != ""
    requires |t| <= |s| && t == s[..|t|]
    requires var token := HeadToken(s, name);
      !token.Torn? && token.len <= |t| && (token.Skip? ==> token.len < |t|)
    ensures t != "" && HeadToken(t, name) == HeadToken(s, name)
  {
    hide StartsWithTagName, TagEnd, SelfClosing, IsVoid, Find;
    var token := HeadToken(s, name);
    if s[0] == '<' {
      if "<!--" <= s {
        var offset := Find(s, "-->");
        assert offset.Some?;
        assert s[..offset.value + 3] == t[..offset.value + 3];
        FindIsStable(s, t, "-->", offset.value);
      } else {
        assert !("<!--" <= t);
        if "</" <= s {
          assert "</" <= t;
          PrefixTail(s, t, 2);
          TagNameOfPrefix(s[2..], t[2..], name);
          if StartsWithTagName(s[2..], name) {
            NameHasNoTagEnd(s, 2, name, TagEnd(s).value);
            TagEndOfPrefix(s, t, TagEnd(s).value);
          }
        } else {
          assert !("</" <= t);
          PrefixTail(s, t, 1);
          TagNameOfPrefix(s[1..], t[1..], name);
          if StartsWithTagName(s[1..], name) && !IsVoid(name) {
            NameHasNoTagEnd(s, 1, name, TagEnd(s).value);
            TagEndOfPrefix(s, t, TagEnd(s).value);
            assert s[..TagEnd(s).value + 1] == t[..TagEnd(s).value + 1];
          }
        }
      }
    }
  }

  /** `span` is found at the head, or in what follows the head token. */
  ghost predicate ClosesHere(s: string, name: string, depth: nat, span: Span)
    requires depth > 0
  {
    && s != ""
    && var token := HeadToken(s, name);
      && !token.Torn?
      && if depth + Weight(token) == 0 then span == Span(0, token.len)
         else
           && token.len <= span.start <= span.end
           && MatchingClose(s[token.len..], name, depth + Weight(token))
              == Ok(Some(Span(span.start - token.len, span.end - token.len)))
  }

  lemma ShiftInverse(r: SpanResult, offset: nat, span: Span)
    ensures Shift(r, offset) == Ok(Some(span)) <==>
      offset <= span.start && offset <= span.end && r == Ok(Some(Span(span.start - offset, span.end - offset)))
  {
  }

  lemma CloseStep(s: string, name: string, depth: nat, span: Span)
    requires depth > 0
    ensures MatchingClose(s, name, depth) == Ok(Some(span)) <==> ClosesHere(s, name, depth, span)
  {
    hide HeadToken, Shift;
    if s != "" {
      match HeadToken(s, name) {
        case Torn(_) =>
        case Skip(len) => ShiftInverse(MatchingClose(s[len..], name, depth), len, span);
        case Open(len) => ShiftInverse(MatchingClose(s[len..], name, depth + 1), len, span);
        case Close(len) =>
          if depth > 1 {
            ShiftInverse(MatchingClose(s[len..], name, depth - 1), len, span);
          }
      }
    }
  }

  /** Cutting the text at or after the matching close does not move the close. */
  lemma {:induction false} MatchingCloseOfPrefix(s: string, cut: nat, name: string, depth: nat, span: Span)
    requires IsTagName(name) && depth > 0 && cut <= |s|
    requires MatchingClose(s, name, depth) == Ok(Some(span)) && span.end <= cut
    ensures MatchingClose(s[..cut], name, depth) == Ok(Some(span))
    decreases |s|
  {
    hide HeadToken, MatchingClose;
    CloseStep(s, name, depth, span);
    var token := HeadToken(s, name);
    var len := token.len;
    HeadTokenOfPrefix(s, s[..cut], name);
    if depth + Weight(token) > 0 {
      MatchingCloseOfPrefix(s[len..], cut - len, name, depth + Weight(token), Span(span.start - len, span.end - len));
      assert s[..cut][len..] == s[len..][..cut - len];
    }
    CloseStep(s[..cut], name, depth, span);
  }
}
