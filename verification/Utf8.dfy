/** UTF-8, the byte form of every Rust `str` (RFC 3629, section 3). */
module Utf8 {
  import opened Wrappers

  type Byte = n: nat | n < 256

  function EncodeChar(c: char): (bytes: seq<Byte>)
    ensures 1 <= |bytes| <= 4
    ensures (c as int < 0x80) ==> bytes == [c as int]
    ensures (c as int >= 0x80) ==> forall b | b in bytes :: b >= 0x80
  {
    var n := c as int;
    if n < 0x80 then [n]
    else if n < 0x800 then [0xC0 + n / 64, 0x80 + n % 64]
    else if n < 0x10000 then [0xE0 + n / 4096, 0x80 + n / 64 % 64, 0x80 + n % 64]
    else [0xF0 + n / 262144, 0x80 + n / 4096 % 64, 0x80 + n / 64 % 64, 0x80 + n % 64]
  }

  function Encode(s: string): (bytes: seq<Byte>)
    ensures |s| <= |bytes|
  {
    if s == "" then [] else EncodeChar(s[0]) + Encode(s[1..])
  }

  /** `str::len`. */
  function Len(s: string): nat {
    |Encode(s)|
  }

  predicate IsScalar(n: int) {
    0 <= n < 0xD800 || 0xE000 <= n < 0x11_0000
  }

  /** How many bytes the sequence led by `lead` has; 0 for a continuation byte. */
  function SequenceLength(lead: Byte): (n: nat)
    ensures n <= 4
  {
    if lead < 0x80 then 1
    else if lead < 0xC0 then 0
    else if lead < 0xE0 then 2
    else if lead < 0xF0 then 3
    else 4
  }

  /** The bits of `b` above its marker. */
  function Payload(b: Byte, marker: nat): int {
    b as int - marker
  }

  function CodePoint(bytes: seq<Byte>): int
    requires |bytes| > 0 && |bytes| == SequenceLength(bytes[0])
  {
    match |bytes|
    case 1 => bytes[0] as int
    case 2 => Payload(bytes[0], 0xC0) * 64 + Payload(bytes[1], 0x80)
    case 3 => Payload(bytes[0], 0xE0) * 4096 + Payload(bytes[1], 0x80) * 64 + Payload(bytes[2], 0x80)
    case _ =>
      Payload(bytes[0], 0xF0) * 262144 + Payload(bytes[1], 0x80) * 4096
      + Payload(bytes[2], 0x80) * 64 + Payload(bytes[3], 0x80)
  }

  /** A left inverse of `Encode`. */
  function Decode(bytes: seq<Byte>): Option<string> {
    if bytes == [] then Some("")
    else
      var n := SequenceLength(bytes[0]);
      if n == 0 || |bytes| < n then None
      else
        var code := CodePoint(bytes[..n]);
        match Decode(bytes[n..])
        case None => None
        case Some(rest) => if IsScalar(code) then Some([code as char] + rest) else None
  }

  lemma CodePointOfChar(c: char)
    ensures var b := EncodeChar(c); |b| == SequenceLength(b[0]) && CodePoint(b) == c as int && IsScalar(c as int)
  {
    var n := c as int;
    assert n == n / 64 * 64 + n % 64;
    assert n / 64 == n / 4096 * 64 + n / 64 % 64;
    assert n / 4096 == n / 262144 * 64 + n / 4096 % 64;
  }

  /** Every string survives encoding, so `Encode` is injective. */
  lemma {:induction false} DecodeOfEncode(s: string)
    ensures Decode(Encode(s)) == Some(s)
  {
    if s != "" {
      var head, tail := EncodeChar(s[0]), Encode(s[1..]);
      CodePointOfChar(s[0]);
      DecodeOfEncode(s[1..]);
      assert (head + tail)[..|head|] == head && (head + tail)[|head|..] == tail;
      assert s == [s[0]] + s[1..];
    }
  }

  lemma EncodeHead(s: string)
    requires |s| > 0
    ensures Encode(s) == EncodeChar(s[0]) + Encode(s[1..])
  {
  }

  lemma EncodeNothing(s: string)
    requires |s| == 0
    ensures Encode(s) == []
  {
  }

  lemma {:induction false} EncodeConcat(a: string, b: string)
    ensures Encode(a + b) == Encode(a) + Encode(b)
  {
    hide Encode, EncodeChar;
    if |a| == 0 {
      EncodeNothing(a);
      assert a + b == b;
    } else {
      EncodeConcat(a[1..], b);
      assert (a + b)[1..] == a[1..] + b;
      EncodeHead(a);
      EncodeHead(a + b);
    }
  }
}
