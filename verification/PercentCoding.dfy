/**
 Percent-encoding of form components and its decoder.

 Two adapters keep two unreserved sets: the questionnaire body uses the set of
 `encodeURIComponent` (section 19.2.6.4 of ECMA-262), the payroll body the
 unreserved set of RFC 3986, section 2.3.
 */
module PercentCoding {
  import opened Wrappers
  import Utf8

  datatype Alphabet = UriComponent | Rfc3986

  predicate Alphanumeric(b: Utf8.Byte) {
    'A' as int <= b <= 'Z' as int || 'a' as int <= b <= 'z' as int || '0' as int <= b <= '9' as int
  }

  predicate Unreserved(alphabet: Alphabet, b: Utf8.Byte) {
    || Alphanumeric(b)
    || b == '-' as int || b == '_' as int || b == '.' as int || b == '~' as int
    || (alphabet.UriComponent?
        && (b == '!' as int || b == '*' as int || b == '\'' as int || b == '(' as int || b == ')' as int))
  }

  function HexChar(n: nat): char
    requires n < 16
  {
    if n < 10 then '0' + n as char else 'A' + (n - 10) as char
  }

  /** `hex_value`, and `is_ascii_hexdigit` when the result is present. */
  function HexValue(c: char): (r: Option<nat>)
    ensures r.Some? ==> r.value < 16
  {
    if '0' <= c <= '9' then Some((c - '0') as nat)
    else if 'a' <= c <= 'f' then Some((c - 'a') as nat + 10)
    else if 'A' <= c <= 'F' then Some((c - 'A') as nat + 10)
    else None
  }

  function EncodeByte(alphabet: Alphabet, b: Utf8.Byte): string {
    if Unreserved(alphabet, b) then [b as char] else ['%', HexChar(b / 16), HexChar(b % 16)]
  }

  function EncodeBytes(alphabet: Alphabet, bytes: seq<Utf8.Byte>): string {
    if bytes == [] then "" else EncodeByte(alphabet, bytes[0]) + EncodeBytes(alphabet, bytes[1..])
  }

  function EncodeText(alphabet: Alphabet, value: string): string {
    EncodeBytes(alphabet, Utf8.Encode(value))
  }

  /** Percent-decoding, RFC 3986 section 2.1; `None` for a broken escape. */
  function DecodeToBytes(s: string): Option<seq<Utf8.Byte>> {
    if s == "" then Some([])
    else if s[0] == '%' then
      if |s| < 3 || HexValue(s[1]).None? || HexValue(s[2]).None? then None
      else
        match DecodeToBytes(s[3..])
        case None => None
        case Some(rest) => Some([HexValue(s[1]).value * 16 + HexValue(s[2]).value] + rest)
    else
      match DecodeToBytes(s[1..])
      case None => None
      case Some(rest) => Some(Utf8.EncodeChar(s[0]) + rest)
  }

  function DecodeText(s: string): Option<string> {
    match DecodeToBytes(s)
    case None => None
    case Some(bytes) => Utf8.Decode(bytes)
  }

  /** The questionnaire's and the payroll's encoder loop. */
  method PercentEncode(alphabet: Alphabet, value: string) returns (out: string)
    ensures out == EncodeText(alphabet, value)
  {
    hide EncodeBytes, Unreserved, HexChar, Utf8.Encode;
    out := "";
    var bytes := Utf8.Encode(value);
    assert bytes[0..] == bytes;
    for i := 0 to |bytes|
      invariant EncodeBytes(alphabet, bytes) == out + EncodeBytes(alphabet, bytes[i..])
    {
      EncodeRound(alphabet, out, bytes[i..]);
      assert bytes[i..][1..] == bytes[i + 1..];
      var b := bytes[i];
      if Unreserved(alphabet, b) {
        out := out + [b as char];
      } else {
        out := out + ['%', HexChar(b / 16), HexChar(b % 16)];
      }
    }
    EncodeEnd(alphabet, out, bytes[|bytes|..]);
  }

  lemma EncodeRound(alphabet: Alphabet, out: string, bytes: seq<Utf8.Byte>)
    requires |bytes| > 0
    ensures out + EncodeBytes(alphabet, bytes) ==
            out + EncodeByte(alphabet, bytes[0]) + EncodeBytes(alphabet, bytes[1..])
  {
    hide EncodeByte;
  }

  lemma EncodeEnd(alphabet: Alphabet, out: string, bytes: seq<Utf8.Byte>)
    requires |bytes| == 0
    ensures out + EncodeBytes(alphabet, bytes) == out
  {
    hide EncodeByte;
  }

  lemma HexRoundTrip(n: nat)
    requires n < 16
    ensures HexValue(HexChar(n)) == Some(n)
  {
  }

  /** No separator of a form body survives encoding. */
  lemma {:induction false} EncodedAlphabet(alphabet: Alphabet, bytes: seq<Utf8.Byte>)
    ensures forall c | c in EncodeBytes(alphabet, bytes) ::
            c == '%' || (c as int < 128 && Unreserved(alphabet, c as int))
  {
    if bytes != [] {
      EncodedAlphabet(alphabet, bytes[1..]);
      var b := bytes[0];
      HexDigitIsAlphanumeric(b / 16);
      HexDigitIsAlphanumeric(b % 16);
    }
  }

  lemma HexDigitIsAlphanumeric(n: nat)
    requires n < 16
    ensures (HexChar(n) as int) < 128 && Alphanumeric(HexChar(n) as int)
  {
  }

  lemma {:induction false} DecodeBytesOfEncode(alphabet: Alphabet, bytes: seq<Utf8.Byte>)
    ensures DecodeToBytes(EncodeBytes(alphabet, bytes)) == Some(bytes)
  {
    hide DecodeToBytes, EncodeByte;
    if |bytes| == 0 {
      DecodeNothing();
    } else {
      var b, rest := bytes[0], bytes[1..];
      DecodeBytesOfEncode(alphabet, rest);
      DecodeOneByte(alphabet, b, EncodeBytes(alphabet, rest));
      assert bytes == [b] + rest;
    }
  }

  lemma DecodeNothing()
    ensures DecodeToBytes("") == Some([])
  {
  }

  lemma DecodeOneByte(alphabet: Alphabet, b: Utf8.Byte, tail: string)
    requires DecodeToBytes(tail).Some?
    ensures DecodeToBytes(EncodeByte(alphabet, b) + tail) == Some([b] + DecodeToBytes(tail).value)
  {
    hide HexChar, HexValue;
    if Unreserved(alphabet, b) {
      DecodeLiteral(b, tail);
    } else {
      HexRoundTrip(b / 16);
      HexRoundTrip(b % 16);
      DecodeEscape(HexChar(b / 16), HexChar(b % 16), tail);
    }
  }

  lemma DecodeLiteral(b: Utf8.Byte, tail: string)
    requires DecodeToBytes(tail).Some? && b < 0x80 && b as char != '%'
    ensures DecodeToBytes([b as char] + tail) == Some([b] + DecodeToBytes(tail).value)
  {
    DropHead([b as char], tail);
  }

  lemma DropHead(head: string, tail: string)
    ensures (head + tail)[|head|..] == tail
  {
  }

  lemma DecodeEscape(high: char, low: char, tail: string)
    requires DecodeToBytes(tail).Some? && HexValue(high).Some? && HexValue(low).Some?
    ensures DecodeToBytes(['%', high, low] + tail) ==
            Some([HexValue(high).value * 16 + HexValue(low).value] + DecodeToBytes(tail).value)
  {
    hide HexValue, Utf8.EncodeChar;
    var head := ['%', high, low];
    DropHead(head, tail);
    assert |head| == 3 && (head + tail)[1] == head[1] && (head + tail)[2] == head[2];
  }

  /** The decoder returns every text that was encoded, whichever alphabet was used. */
  lemma DecodeOfEncode(alphabet: Alphabet, value: string)
    ensures DecodeText(EncodeText(alphabet, value)) == Some(value)
  {
    DecodeBytesOfEncode(alphabet, Utf8.Encode(value));
    Utf8.DecodeOfEncode(value);
  }

  lemma EncodedTextHasNoSeparator(alphabet: Alphabet, value: string)
    ensures '&' !in EncodeText(alphabet, value) && '=' !in EncodeText(alphabet, value)
  {
    EncodedAlphabet(alphabet, Utf8.Encode(value));
  }

  // ---------------------------------------------------------------- what is written how

  /** Letters, digits and `-_.~`; for the questionnaire also `!*'()`. */
  predicate StaysAsIs(alphabet: Alphabet, c: char) {
    || 'a' <= c <= 'z' || 'A' <= c <= 'Z' || '0' <= c <= '9' || c == '-' || c == '_' || c == '.' || c == '~'
    || (alphabet.UriComponent? && (c == '!' || c == '*' || c == '\'' || c == '(' || c == ')'))
  }

  predicate UpperHex(c: char) {
    '0' <= c <= '9' || 'A' <= c <= 'F'
  }

  /** The text is made of characters that stay as they are and of escapes with upper-case digits. */
  predicate WellEncoded(alphabet: Alphabet, s: string) {
    s == "" ||
      if s[0] == '%' then |s| >= 3 && UpperHex(s[1]) && UpperHex(s[2]) && WellEncoded(alphabet, s[3..])
      else StaysAsIs(alphabet, s[0]) && WellEncoded(alphabet, s[1..])
  }

  lemma {:induction false} EncodedBytesAre(alphabet: Alphabet, bytes: seq<Utf8.Byte>)
    ensures WellEncoded(alphabet, EncodeBytes(alphabet, bytes))
  {
    if bytes != [] {
      EncodedBytesAre(alphabet, bytes[1..]);
      var piece, rest := EncodeByte(alphabet, bytes[0]), EncodeBytes(alphabet, bytes[1..]);
      assert (piece + rest)[|piece|..] == rest;
    }
  }

  /** One character is written as it is exactly when the alphabet has it. */
  lemma EncodedCharExactly(alphabet: Alphabet, c: char)
    ensures EncodeText(alphabet, [c]) == [c] <==> StaysAsIs(alphabet, c)
    ensures WellEncoded(alphabet, EncodeText(alphabet, [c]))
  {
    EncodedBytesAre(alphabet, Utf8.Encode([c]));
    var bytes := Utf8.EncodeChar(c);
    Utf8.EncodeHead([c]);
    assert [c][1..] == "" && Utf8.Encode("") == [];
    assert Utf8.Encode([c]) == bytes;
    if |bytes| == 1 && bytes[0] < 0x80 {
      assert bytes[1..] == [] && EncodeBytes(alphabet, bytes) == EncodeByte(alphabet, bytes[0]);
    } else {
      assert bytes[0] in bytes && bytes[0] >= 0x80;
      assert EncodeBytes(alphabet, bytes)[0] == '%';
    }
  }
}
