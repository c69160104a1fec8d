/**
 The validator of the one route that is not a constant: the form page a list row
 names.
 */
module AssessmentRoutes {
  import opened Wrappers
  import opened Text
  import opened PercentCoding
  import Utf8

  const MAX_ROUTE_BYTES: nat := 512
  const SLASH: Utf8.Byte := 0x2F
  const DOT: Utf8.Byte := 0x2E
  const BACKSLASH: Utf8.Byte := 0x5C

  predicate HasControl(s: string) {
    exists i :: 0 <= i < |s| && IsControl(s[i])
  }

  predicate HasChar(s: string, c: char) {
    exists i :: 0 <= i < |s| && s[i] == c
  }

  /** A `%` that two hexadecimal digits do not follow. */
  predicate BrokenEscapeAt(s: string, i: nat) {
    i < |s| && s[i] == '%' && (i + 2 >= |s| || HexValue(s[i + 1]).None? || HexValue(s[i + 2]).None?)
  }

  predicate InvalidPercentEncoding(s: string) {
    exists i: nat :: i < |s| && BrokenEscapeAt(s, i)
  }

  /** Bytes that may not be written as an escape: dot, slash, backslash, controls. */
  predicate Forbidden(b: Utf8.Byte) {
    b == DOT || b == SLASH || b == BACKSLASH || b <= 0x1F || b == 0x7F
  }

  predicate EncodedEscapeAt(s: string, i: nat) {
    && i + 3 <= |s| && s[i] == '%'
    && HexValue(s[i + 1]).Some? && HexValue(s[i + 2]).Some?
    && Forbidden(HexValue(s[i + 1]).value * 16 + HexValue(s[i + 2]).value)
  }

  /** `path_contains_encoded_escape`. */
  predicate ContainsEncodedEscape(s: string) {
    exists i: nat :: i < |s| && EncodedEscapeAt(s, i)
  }

  predicate ValidRelativePath(path: string) {
    && path != "" && path[0] == '/'
    && Utf8.Len(path) <= MAX_ROUTE_BYTES
    && !Contains(path, "://")
    && !HasChar(path, '?') && !HasChar(path, '#') && !HasChar(path, '\\')
    && !Contains(path, "..")
    && !HasControl(path)
    && !InvalidPercentEncoding(path)
    && !ContainsEncodedEscape(path)
  }

  /** `str::split_once`. */
  function SplitOnce(s: string, sep: char): (r: Option<(string, string)>)
    ensures r.Some? ==> s == r.value.0 + [sep] + r.value.1 && !HasChar(r.value.0, sep)
    ensures r.None? ==> !HasChar(s, sep)
  {
    if s == "" then None
    else if s[0] == sep then Some(("", s[1..]))
    else
      match SplitOnce(s[1..], sep)
      case None =>
        assert forall i | 0 <= i < |s| :: i > 0 ==> s[i] == s[1..][i - 1];
        None
      case Some((a, b)) => Some(([s[0]] + a, b))
  }

  predicate ValidQuery(query: string) {
    query != "" && !HasControl(query) && !InvalidPercentEncoding(query) && !ContainsEncodedEscape(query)
  }

  /** `route_parts`. */
  function RouteParts(route: string): Option<(string, Option<string>)> {
    if || route == "" || route[0] != '/'
       || Utf8.Len(route) > MAX_ROUTE_BYTES
       || Contains(route, "://")
       || HasChar(route, '#') || HasChar(route, '\\')
       || HasControl(route)
    then None
    else
      var (path, query) :=
        match SplitOnce(route, '?')
        case Some((path, query)) => (path, Some(query))
        case None => (route, None);
      if !ValidRelativePath(path) then None
      else if query.Some? && !ValidQuery(query.value) then None
      else Some((path, query))
  }

  // ---------------------------------------------------------------- segments

  function SplitBytes(bytes: seq<Utf8.Byte>, sep: Utf8.Byte): (pieces: seq<seq<Utf8.Byte>>)
    ensures |pieces| > 0
  {
    if bytes == [] then [[]]
    else
      var rest := SplitBytes(bytes[1..], sep);
      if bytes[0] == sep then [[]] + rest else [[bytes[0]] + rest[0]] + rest[1..]
  }

  function DecodeAll(pieces: seq<string>): Option<seq<seq<Utf8.Byte>>> {
    if pieces == [] then Some([])
    else
      match (DecodeToBytes(pieces[0]), DecodeAll(pieces[1..]))
      case (Some(first), Some(rest)) => Some([first] + rest)
      case _ => None
  }

  predicate SafelyEncoded(s: string) {
    !InvalidPercentEncoding(s) && !ContainsEncodedEscape(s)
  }

  lemma SafeTail(s: string, k: nat)
    requires SafelyEncoded(s) && k <= |s|
    ensures SafelyEncoded(s[k..])
  {
    var t := s[k..];
    forall i: nat | i < |t|
      ensures !BrokenEscapeAt(t, i) && !EncodedEscapeAt(t, i)
    {
      assert !BrokenEscapeAt(s, k + i) && !EncodedEscapeAt(s, k + i);
    }
  }

  lemma SafeHead(s: string)
    requires SafelyEncoded(s) && s != "" && s[0] == '%'
    ensures |s| >= 3 && HexValue(s[1]).Some? && HexValue(s[2]).Some?
    ensures !Forbidden(HexValue(s[1]).value * 16 + HexValue(s[2]).value)
  {
    assert !BrokenEscapeAt(s, 0) && !EncodedEscapeAt(s, 0);
  }

  /** Putting decoded bytes other than a separator in front of the first piece. */
  lemma {:induction false} SplitBytesPrefix(prefix: seq<Utf8.Byte>, rest: seq<Utf8.Byte>, sep: Utf8.Byte)
    requires forall i | 0 <= i < |prefix| :: prefix[i] != sep
    ensures var pieces := SplitBytes(rest, sep);
      SplitBytes(prefix + rest, sep) == [prefix + pieces[0]] + pieces[1..]
  {
    if prefix == [] {
      assert prefix + rest == rest;
      var pieces := SplitBytes(rest, sep);
      assert [] + pieces[0] == pieces[0] && [pieces[0]] + pieces[1..] == pieces;
    } else {
      SplitBytesPrefix(prefix[1..], rest, sep);
      assert (prefix + rest)[1..] == prefix[1..] + rest;
      var pieces := SplitBytes(rest, sep);
      assert [prefix[0]] + (prefix[1..] + pieces[0]) == prefix + pieces[0];
    }
  }

  lemma {:induction false} SplitPrefix(prefix: string, rest: string, sep: char)
    requires forall i | 0 <= i < |prefix| :: prefix[i] != sep
    ensures var pieces := Split(rest, sep);
      Split(prefix + rest, sep) == [prefix + pieces[0]] + pieces[1..]
  {
    if prefix == "" {
      assert prefix + rest == rest;
      var pieces := Split(rest, sep);
      assert "" + pieces[0] == pieces[0] && [pieces[0]] + pieces[1..] == pieces;
    } else {
      SplitPrefix(prefix[1..], rest, sep);
      assert (prefix + rest)[1..] == prefix[1..] + rest;
      var pieces := Split(rest, sep);
      assert [prefix[0]] + (prefix[1..] + pieces[0]) == prefix + pieces[0];
    }
  }

  /** What one escape or one character of a safely encoded text decodes to. */
  lemma HeadBytes(s: string) returns (len: nat, bytes: seq<Utf8.Byte>)
    requires SafelyEncoded(s) && s != "" && s[0] != '/'
    ensures 0 < len <= |s| && bytes != []
    ensures forall i | 0 <= i < len :: s[i] != '/'
    ensures forall i | 0 <= i < |bytes| :: bytes[i] != SLASH
    ensures forall t :: DecodeToBytes(s[..len] + t) ==
              match DecodeToBytes(t) case None => None case Some(rest) => Some(bytes + rest)
    ensures bytes[0] == DOT <==> s[0] == '.'
    ensures s[0] == '.' ==> len == 1 && bytes == [DOT]
  {
    if s[0] == '%' {
      SafeHead(s);
      len, bytes := 3, [HexValue(s[1]).value * 16 + HexValue(s[2]).value];
      forall t
        ensures DecodeToBytes(s[..3] + t) ==
                match DecodeToBytes(t) case None => None case Some(rest) => Some(bytes + rest)
      {
        assert (s[..3] + t)[3..] == t;
      }
    } else {
      len, bytes := 1, Utf8.EncodeChar(s[0]);
      forall t
        ensures DecodeToBytes(s[..1] + t) ==
                match DecodeToBytes(t) case None => None case Some(rest) => Some(bytes + rest)
      {
        assert (s[..1] + t)[1..] == t;
      }
      forall i | 0 <= i < |bytes|
        ensures bytes[i] != SLASH
      {
        assert bytes[i] in bytes;
      }
      assert bytes[0] in bytes;
    }
  }

  lemma DecodeAllCons(first: string, rest: seq<string>)
    requires DecodeToBytes(first).Some? && DecodeAll(rest).Some?
    ensures DecodeAll([first] + rest) == Some([DecodeToBytes(first).value] + DecodeAll(rest).value)
  {
    hide DecodeToBytes;
    assert ([first] + rest)[1..] == rest;
  }

  lemma CommutesEmpty()
    ensures DecodeToBytes("") == Some([])
    ensures DecodeAll(Split("", '/')) == Some(SplitBytes([], SLASH))
  {
    DecodeAllCons("", []);
    assert [""] + [] == Split("", '/');
  }

  lemma CommutesAtSlash(rest: string)
    requires DecodeToBytes(rest).Some?
    requires DecodeAll(Split(rest, '/')) == Some(SplitBytes(DecodeToBytes(rest).value, SLASH))
    ensures DecodeToBytes("/" + rest).Some?
    ensures DecodeAll(Split("/" + rest, '/')) == Some(SplitBytes(DecodeToBytes("/" + rest).value, SLASH))
  {
    var s := "/" + rest;
    assert s[1..] == rest;
    var bytes := DecodeToBytes(rest).value;
    assert DecodeToBytes(s) == Some([SLASH] + bytes);
    assert ([SLASH] + bytes)[1..] == bytes;
    DecodeAllCons("", Split(rest, '/'));
  }

  lemma CommutesWithinPiece(head: string, bytes: seq<Utf8.Byte>, rest: string)
    requires DecodeToBytes(rest).Some?
    requires DecodeAll(Split(rest, '/')) == Some(SplitBytes(DecodeToBytes(rest).value, SLASH))
    requires forall i | 0 <= i < |head| :: head[i] != '/'
    requires forall i | 0 <= i < |bytes| :: bytes[i] != SLASH
    requires forall t :: DecodeToBytes(head + t) ==
               match DecodeToBytes(t) case None => None case Some(tail) => Some(bytes + tail)
    ensures DecodeToBytes(head + rest).Some?
    ensures DecodeAll(Split(head + rest, '/')) == Some(SplitBytes(DecodeToBytes(head + rest).value, SLASH))
  {
    SplitPrefix(head, rest, '/');
    SplitBytesPrefix(bytes, DecodeToBytes(rest).value, SLASH);
    var pieces := Split(rest, '/');
    DecodeAllAt(pieces, 0);
    assert pieces == [pieces[0]] + pieces[1..];
    DecodeAllCons(pieces[0], pieces[1..]);
    hide DecodeToBytes, Split, SplitBytes;
    DecodeAllCons(head + pieces[0], pieces[1..]);
  }

  /** Decoding commutes with splitting on `/`. */
  lemma {:induction false} DecodeCommutesWithSplit(s: string)
    requires SafelyEncoded(s)
    ensures DecodeToBytes(s).Some?
    ensures DecodeAll(Split(s, '/')) == Some(SplitBytes(DecodeToBytes(s).value, SLASH))
    decreases |s|
  {
    hide DecodeToBytes, Split, SplitBytes, DecodeAll, SafelyEncoded;
    if s == "" {
      CommutesEmpty();
    } else if s[0] == '/' {
      SafeTail(s, 1);
      DecodeCommutesWithSplit(s[1..]);
      CommutesAtSlash(s[1..]);
      assert s == "/" + s[1..];
    } else {
      var len, bytes := HeadBytes(s);
      SafeTail(s, len);
      DecodeCommutesWithSplit(s[len..]);
      CommutesWithinPiece(s[..len], bytes, s[len..]);
      assert s == s[..len] + s[len..];
    }
  }

  /** Only the text `..` decodes to two dots. */
  lemma {:induction false} DotsAreLiteral(s: string, dots: nat)
    requires SafelyEncoded(s) && (forall i | 0 <= i < |s| :: s[i] != '/')
    requires DecodeToBytes(s) == Some(seq(dots, _ => DOT))
    ensures s == seq(dots, _ => '.')
    decreases |s|
  {
    if s == "" {
    } else {
      var len, bytes := HeadBytes(s);
      SafeTail(s, len);
      assert s == s[..len] + s[len..];
      var rest := DecodeToBytes(s[len..]);
      assert rest.Some? && bytes + rest.value == seq(dots, _ => DOT);
      assert (bytes + rest.value)[0] == bytes[0];
      assert rest.value == seq(dots - 1, _ => DOT) by {
        assert rest.value == (bytes + rest.value)[1..];
      }
      DotsAreLiteral(s[1..], dots - 1);
    }
  }

  /** A piece of `s` between slashes, safely encoded like `s` itself. */
  ghost predicate SafeSegment(s: string, piece: string) {
    && SafelyEncoded(piece)
    && (forall i | 0 <= i < |piece| :: piece[i] != '/')
    && exists k: nat :: OccursAt(s, piece, k)
  }

  lemma {:induction false} SegmentsAreSafe(whole: string, before: string, s: string)
    requires SafelyEncoded(whole) && whole == before + s
    ensures forall piece | piece in Split(s, '/') :: SafeSegment(whole, piece)
    decreases |s|
  {
    hide SafelyEncoded, Split;
    match SplitOnce(s, '/') {
      case None =>
        SplitWhole(s);
        SafeTail(whole, |before|);
        assert whole[|before|..] == s;
        assert OccursAt(whole, s, |before|);
      case Some((first, rest)) =>
        SplitAtSlash(first, rest);
        assert s == first + ("/" + rest);
        assert whole == before + first + "/" + rest;
        SegmentsAreSafe(whole, before + first + "/", rest);
        SafePiece(before, first, rest);
        assert OccursAt(whole, first, |before|);
    }
  }

  lemma SplitWhole(s: string)
    requires forall i | 0 <= i < |s| :: s[i] != '/'
    ensures Split(s, '/') == [s]
  {
    SplitPrefix(s, "", '/');
    assert s + "" == s;
  }

  lemma SplitAtSlash(first: string, rest: string)
    requires forall i | 0 <= i < |first| :: first[i] != '/'
    ensures Split(first + ("/" + rest), '/') == [first] + Split(rest, '/')
  {
    var tail := "/" + rest;
    assert tail[1..] == rest;
    assert Split(tail, '/') == [""] + Split(rest, '/');
    SplitPrefix(first, tail, '/');
    assert first + "" == first;
    assert ([""] + Split(rest, '/'))[1..] == Split(rest, '/');
  }

  lemma SafePiece(before: string, piece: string, rest: string)
    requires SafelyEncoded(before + piece + "/" + rest)
    ensures SafelyEncoded(piece)
  {
    var s := before + piece + "/" + rest;
    forall i: nat | i < |piece|
      ensures !BrokenEscapeAt(piece, i) && !EncodedEscapeAt(piece, i)
    {
      var j := |before| + i;
      assert s[j] == piece[i] && s[|before| + |piece|] == '/';
      assert i + 1 < |piece| ==> s[j + 1] == piece[i + 1];
      assert i + 2 < |piece| ==> s[j + 2] == piece[i + 2];
      assert !BrokenEscapeAt(s, j) && !EncodedEscapeAt(s, j);
    }
  }

  /**
   An accepted route is its path and its optional query put together again; the
   path decodes, decoding commutes with splitting it into segments, and no decoded
   segment is `..`.
   */
  lemma AcceptedRouteKeepsSegments(route: string)
    requires RouteParts(route).Some?
    ensures
      var (path, query) := RouteParts(route).value;
      && route == path + (if query.Some? then "?" + query.value else "")
      && DecodeToBytes(path).Some?
      && DecodeAll(Split(path, '/')) == Some(SplitBytes(DecodeToBytes(path).value, SLASH))
      && forall segment | segment in SplitBytes(DecodeToBytes(path).value, SLASH) :: segment != [DOT, DOT]
  {
    hide SafelyEncoded, InvalidPercentEncoding, ContainsEncodedEscape, Contains, HasControl, HasChar, Utf8.Len,
        ValidQuery;
    var (path, query) := RouteParts(route).value;
    PartsRebuild(route);
    assert ValidRelativePath(path);
    SafePath(path);
    DecodeCommutesWithSplit(path);
    assert path == "" + path;
    SegmentsAreSafe(path, "", path);
    var pieces := Split(path, '/');
    var segments := SplitBytes(DecodeToBytes(path).value, SLASH);
    forall i | 0 <= i < |segments|
      ensures segments[i] != [DOT, DOT]
    {
      DecodeAllAt(pieces, i);
      assert pieces[i] in pieces;
      NoDotDot(path, pieces[i]);
    }
  }

  lemma SafePath(path: string)
    requires ValidRelativePath(path)
    ensures SafelyEncoded(path) && !Contains(path, "..")
  {
  }

  lemma NoDotDot(path: string, piece: string)
    requires SafeSegment(path, piece) && !Contains(path, "..")
    ensures DecodeToBytes(piece) != Some([DOT, DOT])
  {
    LiteralDotDot(piece);
  }

  lemma LiteralDotDot(piece: string)
    requires SafelyEncoded(piece) && forall i | 0 <= i < |piece| :: piece[i] != '/'
    ensures DecodeToBytes(piece) == Some([DOT, DOT]) ==> piece == ".."
  {
    if DecodeToBytes(piece) == Some([DOT, DOT]) {
      assert [DOT, DOT] == seq(2, _ => DOT);
      DotsAreLiteral(piece, 2);
    }
  }

  lemma PartsRebuild(route: string)
    requires RouteParts(route).Some?
    ensures var (path, query) := RouteParts(route).value;
      route == path + (if query.Some? then "?" + query.value else "")
  {
    hide ValidRelativePath, ValidQuery, Contains, HasControl, HasChar;
    assert SplitOnce(route, '?').None? ==> route + "" == route;
  }

  lemma {:induction false} DecodeAllAt(pieces: seq<string>, i: nat)
    requires DecodeAll(pieces).Some? && i < |DecodeAll(pieces).value|
    ensures |DecodeAll(pieces).value| == |pieces|
    ensures DecodeToBytes(pieces[i]) == Some(DecodeAll(pieces).value[i])
  {
    if pieces != [] {
      if i > 0 {
        DecodeAllAt(pieces[1..], i - 1);
      } else if |pieces| > 1 {
        assert DecodeAll(pieces[1..]).Some?;
        DecodeAllLength(pieces[1..]);
      }
    }
  }

  lemma {:induction false} DecodeAllLength(pieces: seq<string>)
    requires DecodeAll(pieces).Some?
    ensures |DecodeAll(pieces).value| == |pieces|
  {
    if pieces != [] {
      DecodeAllLength(pieces[1..]);
    }
  }

  /** The safe characters of a decoded path: escapes add no separator, dot or control byte. */
  lemma {:induction false} EscapesAddNothingForbidden(s: string, i: nat)
    requires SafelyEncoded(s) && DecodeToBytes(s).Some? && i < |DecodeToBytes(s).value|
    requires Forbidden(DecodeToBytes(s).value[i])
    ensures exists k :: 0 <= k < |s| && s[k] as int == DecodeToBytes(s).value[i]
    decreases |s|
  {
    hide SafelyEncoded, Forbidden, DecodeToBytes;
    var b := DecodeToBytes(s).value[i];
    assert |s| > 0 by {
      DecodeNothing();
      assert |s| == 0 ==> s == "";
    }
    if s[0] == '%' {
      EscapeDecodes(s);
      SafeTail(s, 3);
      EscapesAddNothingForbidden(s[3..], i - 1);
      FoundInTail(s, 3, b);
    } else {
      CharDecodes(s);
      var bytes := Utf8.EncodeChar(s[0]);
      if i < |bytes| {
        LiteralByte(s[0], i);
      } else {
        SafeTail(s, 1);
        EscapesAddNothingForbidden(s[1..], i - |bytes|);
        FoundInTail(s, 1, b);
      }
    }
  }

  lemma EscapeDecodes(s: string)
    requires SafelyEncoded(s) && |s| > 0 && s[0] == '%' && DecodeToBytes(s).Some?
    ensures |s| >= 3 && DecodeToBytes(s[3..]).Some? && |DecodeToBytes(s).value| == 1 + |DecodeToBytes(s[3..]).value|
    ensures !Forbidden(DecodeToBytes(s).value[0])
    ensures forall j | 0 < j < |DecodeToBytes(s).value| ::
            DecodeToBytes(s).value[j] == DecodeToBytes(s[3..]).value[j - 1]
  {
    hide SafelyEncoded, Forbidden;
    SafeHead(s);
  }

  lemma CharDecodes(s: string)
    requires |s| > 0 && s[0] != '%' && DecodeToBytes(s).Some?
    ensures DecodeToBytes(s[1..]).Some?
    ensures DecodeToBytes(s).value == Utf8.EncodeChar(s[0]) + DecodeToBytes(s[1..]).value
  {
    hide Utf8.EncodeChar;
  }

  /** A byte of a character that is a forbidden byte is the character itself. */
  lemma LiteralByte(c: char, i: nat)
    requires i < |Utf8.EncodeChar(c)| && Forbidden(Utf8.EncodeChar(c)[i])
    ensures c as int == Utf8.EncodeChar(c)[i]
  {
    hide Utf8.EncodeChar;
    assert Utf8.EncodeChar(c)[i] in Utf8.EncodeChar(c);
  }

  lemma FoundInTail(s: string, from: nat, b: int)
    requires from <= |s| && exists k :: 0 <= k < |s[from..]| && s[from..][k] as int == b
    ensures exists k :: 0 <= k < |s| && s[k] as int == b
  {
    var k :| 0 <= k < |s[from..]| && s[from..][k] as int == b;
    assert s[k + from] as int == b;
  }

  /** The shortest route there is. */
  lemma SlashIsRoute()
    ensures RouteParts("/") == Some(("/", None))
  {
    assert !Contains("/", "://") && !Contains("/", "..");
    assert SplitOnce("", '?') == None;
    assert SplitOnce("/", '?') == None;
    assert Utf8.Len("/") == 1 by {
      assert Utf8.Encode("/") == [0x2F];
    }
  }

  // ---------------------------------------------------------------- which routes are accepted

  predicate IsHexDigit(c: char) {
    '0' <= c <= '9' || 'a' <= c <= 'f' || 'A' <= c <= 'F'
  }

  /** The value of two hexadecimal digits, in either case. */
  function EscapedByte(high: char, low: char): nat
    requires IsHexDigit(high) && IsHexDigit(low)
  {
    HexValue(high).value * 16 + HexValue(low).value
  }

  /** Every `%` leads an escape, and none stands for a dot, a slash, a backslash or a control byte. */
  predicate Escaped(s: string) {
    forall i | 0 <= i < |s| && s[i] == '%' ::
      && i + 2 < |s| && IsHexDigit(s[i + 1]) && IsHexDigit(s[i + 2])
      && var byte := EscapedByte(s[i + 1], s[i + 2]);
         byte > 0x1F && byte != 0x2E && byte != 0x2F && byte != 0x5C && byte != 0x7F
  }

  /** What is wrong at a `%`, and nothing is wrong elsewhere. */
  predicate WrongAt(s: string, i: nat) {
    && i < |s| && s[i] == '%'
    && !(&& i + 2 < |s| && IsHexDigit(s[i + 1]) && IsHexDigit(s[i + 2])
         && var byte := EscapedByte(s[i + 1], s[i + 2]);
            byte > 0x1F && byte != 0x2E && byte != 0x2F && byte != 0x5C && byte != 0x7F)
  }

  lemma WrongExactly(s: string, i: nat)
    ensures WrongAt(s, i) <==> i < |s| && (BrokenEscapeAt(s, i) || EncodedEscapeAt(s, i))
  {
    hide Forbidden;
    if i + 2 < |s| && IsHexDigit(s[i + 1]) && IsHexDigit(s[i + 2]) {
      ForbiddenBytes(HexValue(s[i + 1]).value * 16 + HexValue(s[i + 2]).value);
    }
  }

  lemma EscapedExactly(s: string)
    ensures Escaped(s) <==> SafelyEncoded(s)
  {
    forall i: nat
      ensures WrongAt(s, i) <==> i < |s| && (BrokenEscapeAt(s, i) || EncodedEscapeAt(s, i))
    {
      WrongExactly(s, i);
    }
    EscapedIsNeverWrong(s);
    hide BrokenEscapeAt, EncodedEscapeAt, WrongAt, Escaped;
    if InvalidPercentEncoding(s) {
      var i: nat :| i < |s| && BrokenEscapeAt(s, i);
      assert WrongAt(s, i);
    }
    if ContainsEncodedEscape(s) {
      var i: nat :| i < |s| && EncodedEscapeAt(s, i);
      assert WrongAt(s, i);
    }
  }

  lemma EscapedIsNeverWrong(s: string)
    ensures Escaped(s) <==> forall i: nat :: !WrongAt(s, i)
  {
    if !Escaped(s) {
      var i :| 0 <= i < |s| && s[i] == '%' && WrongAt(s, i);
    }
  }

  lemma ForbiddenBytes(b: nat)
    requires b < 256
    ensures Forbidden(b) <==> b <= 0x1F || b == 0x2E || b == 0x2F || b == 0x5C || b == 0x7F
  {
  }

  /** No escape reaches across a character that is no digit of one. */
  lemma EscapedConcat(a: string, c: char, b: string)
    requires !IsHexDigit(c) && c != '%'
    ensures Escaped(a + [c] + b) <==> Escaped(a) && Escaped(b)
  {
    hide IsHexDigit, EscapedByte;
    var s := a + [c] + b;
    EscapedIsNeverWrong(s);
    EscapedIsNeverWrong(a);
    EscapedIsNeverWrong(b);
    forall i: nat
      ensures i < |a| ==> (WrongAt(s, i) <==> WrongAt(a, i))
      ensures WrongAt(b, i) <==> WrongAt(s, |a| + 1 + i)
    {
      WrongInHalves(a, c, b, i);
    }
    hide WrongAt, Escaped;
    if i: nat :| WrongAt(s, i) {
      CharIsNotWrong(a, c, b, i);
      if i > |a| {
        var k: nat := i - |a| - 1;
        assert WrongAt(b, k) by { assert |a| + 1 + k == i; }
      }
    }
    if i: nat :| WrongAt(a, i) {
      WrongIsInside(a, i);
      assert WrongAt(s, i);
    }
    if i: nat :| WrongAt(b, i) {
      assert WrongAt(s, |a| + 1 + i);
    }
  }

  lemma WrongIsInside(s: string, i: nat)
    ensures WrongAt(s, i) ==> i < |s|
  {
  }

  lemma CharIsNotWrong(a: string, c: char, b: string, i: nat)
    requires c != '%'
    ensures WrongAt(a + [c] + b, i) ==> i != |a|
  {
  }

  lemma WrongInHalves(a: string, c: char, b: string, i: nat)
    requires !IsHexDigit(c) && c != '%'
    ensures i < |a| ==> (WrongAt(a + [c] + b, i) <==> WrongAt(a, i))
    ensures WrongAt(b, i) <==> WrongAt(a + [c] + b, |a| + 1 + i)
  {
    hide IsHexDigit, EscapedByte;
    var s := a + [c] + b;
    assert forall k | 0 <= k < |a| :: s[k] == a[k];
    assert s[|a|] == c;
    forall k: nat | k < |b|
      ensures s[|a| + 1 + k] == b[k]
    {
    }
    if i < |b| {
      assert s[|a| + 1 + i] == b[i];
      assert i + 1 < |b| ==> s[|a| + 1 + (i + 1)] == b[i + 1];
      assert i + 2 < |b| ==> s[|a| + 1 + (i + 2)] == b[i + 2];
    }
  }

  /** Where the query of a route begins: at its first `?`, or nowhere. */
  predicate QueryAt(route: string, q: nat) {
    q <= |route| && (q < |route| ==> route[q] == '?') && forall i | 0 <= i < q :: route[i] != '?'
  }

  /** A route a caller could have checked by looking at its characters. */
  ghost predicate Acceptable(route: string, q: nat)
    requires QueryAt(route, q)
  {
    && route != "" && route[0] == '/' && Utf8.Len(route) <= 512
    && (forall k: nat :: !OccursAt(route, "://", k))
    && (forall i | 0 <= i < |route| :: route[i] != '#' && route[i] != '\\' && !IsControl(route[i]))
    && Escaped(route)
    && (forall k: nat | k + 2 <= q :: !OccursAt(route, "..", k))
    && q != |route| - 1
  }

  lemma SplitAtQuery(route: string, q: nat)
    requires QueryAt(route, q)
    ensures SplitOnce(route, '?') == if q < |route| then Some((route[..q], route[q + 1..])) else None
  {
    var r := SplitOnce(route, '?');
    if r.Some? {
      var (a, b) := r.value;
      assert route[|a|] == '?';
      assert forall i | 0 <= i < |a| :: a[i] == route[i] && a[i] != '?';
      assert q == |a| && route[..q] == a && route[q + 1..] == b;
    } else if q < |route| {
      assert HasChar(route, '?');
    }
  }

  lemma PartIsShorter(a: string, b: string)
    ensures Utf8.Len(a) <= Utf8.Len(a + b)
  {
    Utf8.EncodeConcat(a, b);
  }

  lemma OccursInPart(s: string, pattern: string, q: nat, k: nat)
    requires q <= |s| && k + |pattern| <= q
    ensures OccursAt(s[..q], pattern, k) <==> OccursAt(s, pattern, k)
  {
    assert s[..q][k..k + |pattern|] == s[k..k + |pattern|];
  }

  lemma ContainsExactly(s: string, pattern: string)
    ensures Contains(s, pattern) <==> exists k: nat :: OccursAt(s, pattern, k)
  {
    hide OccursAt;
    if Find(s, pattern).Some? {
      assert OccursAt(s, pattern, Find(s, pattern).value);
    }
  }

  /** The path of a route, checked by itself. */
  lemma PathExactly(route: string, q: nat)
    requires QueryAt(route, q) && q > 0 && route[0] == '/' && Utf8.Len(route) <= 512
    requires forall k: nat :: !OccursAt(route, "://", k)
    requires forall i | 0 <= i < |route| :: route[i] != '#' && route[i] != '\\' && !IsControl(route[i])
    ensures ValidRelativePath(route[..q]) <==>
            Escaped(route[..q]) && forall k: nat | k + 2 <= q :: !OccursAt(route, "..", k)
  {
    hide Escaped, OccursAt, Utf8.Len, IsControl, InvalidPercentEncoding, ContainsEncodedEscape, Find;
    var path := route[..q];
    EscapedExactly(path);
    PartIsShorter(path, route[q..]);
    assert route == path + route[q..];
    ContainsExactly(path, "://");
    ContainsExactly(path, "..");
    forall k: nat
      ensures !OccursAt(path, "://", k)
      ensures OccursAt(path, "..", k) <==> k + 2 <= q && OccursAt(route, "..", k)
    {
      OutOfRange(path, "://", k);
      OutOfRange(path, "..", k);
      if k + 3 <= q {
        OccursInPart(route, "://", q, k);
      }
      if k + 2 <= q {
        OccursInPart(route, "..", q, k);
      }
    }
    assert path[0] == '/' && forall i | 0 <= i < q :: path[i] == route[i];
  }

  lemma OutOfRange(s: string, pattern: string, k: nat)
    ensures OccursAt(s, pattern, k) ==> k + |pattern| <= |s|
  {
  }

  lemma QueryExactly(route: string, q: nat)
    requires QueryAt(route, q) && q < |route|
    requires forall i | 0 <= i < |route| :: !IsControl(route[i])
    ensures ValidQuery(route[q + 1..]) <==> q != |route| - 1 && Escaped(route[q + 1..])
  {
    hide Escaped, IsControl, InvalidPercentEncoding, ContainsEncodedEscape;
    EscapedExactly(route[q + 1..]);
  }

  /**
   A route is accepted exactly when its characters say so, and then it is cut at its first `?`:
   path before, query after.
   */
  lemma RouteAcceptedExactly(route: string, q: nat)
    requires QueryAt(route, q)
    ensures RouteParts(route) ==
            if Acceptable(route, q) then Some((route[..q], if q < |route| then Some(route[q + 1..]) else None))
                else None
  {
    hide Escaped, Utf8.Len, IsControl, ValidRelativePath, ValidQuery, OccursAt, Find, SplitOnce;
    SplitAtQuery(route, q);
    ContainsExactly(route, "://");
    if route != "" && route[0] == '/' && Utf8.Len(route) <= 512 && (forall k: nat :: !OccursAt(route, "://", k))
       && forall i | 0 <= i < |route| :: route[i] != '#' && route[i] != '\\' && !IsControl(route[i]) {
      assert route[0] != '?';
      PathExactly(route, q);
      if q < |route| {
        QueryExactly(route, q);
        EscapedConcat(route[..q], '?', route[q + 1..]);
        assert route == route[..q] + ['?'] + route[q + 1..];
      } else {
        assert route[..q] == route;
      }
    }
  }
}
