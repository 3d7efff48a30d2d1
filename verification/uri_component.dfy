/** `encodeURIComponent` and `decodeURIComponent` as section 19.2.6 of ECMA-262 defines
    them, over strings of Unicode scalar values: every character outside the unreserved
    set becomes the `%XX` escapes of its UTF-8 bytes, in upper-case hexadecimal. */
module UriComponent {
  import opened Wrappers

  /** The characters `encodeURIComponent` leaves alone: letters, digits and `-_.!~*'()`. */
  predicate Unreserved(c: char) {
    ('A' <= c <= 'Z') || ('a' <= c <= 'z') || ('0' <= c <= '9')
    || c == '-' || c == '_' || c == '.' || c == '!' || c == '~' || c == '*' || c == '\'' || c == '('
    || c == ')'
  }

  /** An upper-case hexadecimal digit. */
  function HexDigit(n: nat): (c: char)
    requires n < 16
  {
    if n < 10 then ('0' as int + n) as char else ('A' as int + n - 10) as char
  }

  /** The value of a hexadecimal digit of either case. */
  function HexValue(c: char): (v: Option<nat>)
    ensures v.Some? ==> v.value < 16
  {
    if '0' <= c <= '9' then Some(c as int - '0' as int)
    else if 'A' <= c <= 'F' then Some(c as int - 'A' as int + 10)
    else if 'a' <= c <= 'f' then Some(c as int - 'a' as int + 10)
    else None
  }

  lemma HexDigitValue(n: nat)
    requires n < 16
    ensures HexValue(HexDigit(n)) == Some(n)
    ensures '0' <= HexDigit(n) <= '9' || 'A' <= HexDigit(n) <= 'F'
  {
  }

  /** A byte as `%XX`. */
  function Escape(b: nat): (s: string)
    requires b < 256
    ensures |s| == 3 && s[0] == '%'
  {
    ['%', HexDigit(b / 16), HexDigit(b % 16)]
  }

  /** The byte a `%XX` at the head of `s` stands for. */
  function EscapedByte(s: string): (b: Option<nat>)
    ensures b.Some? ==> b.value < 256
  {
    if |s| >= 3 && s[0] == '%' && HexValue(s[1]).Some? && HexValue(s[2]).Some?
    then Some(HexValue(s[1]).value * 16 + HexValue(s[2]).value)
    else None
  }

  lemma EscapeRoundTrip(b: nat, rest: string)
    requires b < 256
    ensures EscapedByte(Escape(b) + rest) == Some(b)
  {
    HexDigitValue(b / 16);
    HexDigitValue(b % 16);
  }

  /** The UTF-8 encoding of a character's code point. */
  function Utf8(c: char): (bytes: seq<nat>)
    ensures 1 <= |bytes| <= 4
    ensures forall i :: 0 <= i < |bytes| ==> bytes[i] < 256
  {
    var cp := c as int;
    if cp < 0x80 then [cp]
    else if cp < 0x800 then [0xC0 + cp / 64, 0x80 + cp % 64]
    else if cp < 0x10000 then [0xE0 + cp / 4096, 0x80 + (cp / 64) % 64, 0x80 + cp % 64]
    else [0xF0 + cp / 262144, 0x80 + (cp / 4096) % 64, 0x80 + (cp / 64) % 64, 0x80 + cp % 64]
  }

  /** The escapes of a byte sequence, one after another. */
  function EscapeAll(bytes: seq<nat>): (s: string)
    requires forall i :: 0 <= i < |bytes| ==> bytes[i] < 256
    ensures |s| == 3 * |bytes|
  {
    if |bytes| == 0 then "" else Escape(bytes[0]) + EscapeAll(bytes[1..])
  }

  /** How one character is written. */
  function EncodeChar(c: char): string {
    if Unreserved(c) then [c] else EscapeAll(Utf8(c))
  }

  /** `encodeURIComponent(s)`. */
  function Encode(s: string): string {
    if |s| == 0 then "" else EncodeChar(s[0]) + Encode(s[1..])
  }

  /** What may appear in an encoded string. */
  predicate EncodedAlphabet(c: char) {
    Unreserved(c) || c == '%'
  }

  lemma {:induction false} EscapeAllAlphabet(bytes: seq<nat>)
    requires forall i :: 0 <= i < |bytes| ==> bytes[i] < 256
    ensures forall i :: 0 <= i < |EscapeAll(bytes)| ==> EncodedAlphabet(EscapeAll(bytes)[i])
  {
    if |bytes| > 0 {
      EscapeAllAlphabet(bytes[1..]);
      HexDigitValue(bytes[0] / 16);
      HexDigitValue(bytes[0] % 16);
      var e := Escape(bytes[0]);
      var r := EscapeAll(bytes[1..]);
      forall i | 0 <= i < |e + r| ensures EncodedAlphabet((e + r)[i]) {
        if i >= 3 { assert (e + r)[i] == r[i - 3]; }
      }
    }
  }

  /** The encoding holds nothing but unreserved characters and `%`: no space, `&`, `=`, `#`,
      `?` or `+`, whatever the input. */
  lemma {:induction false} EncodeAlphabet(s: string)
    ensures forall i :: 0 <= i < |Encode(s)| ==> EncodedAlphabet(Encode(s)[i])
  {
    if |s| > 0 {
      EncodeAlphabet(s[1..]);
      if !Unreserved(s[0]) {
        EscapeAllAlphabet(Utf8(s[0]));
      }
      var e := EncodeChar(s[0]);
      var r := Encode(s[1..]);
      forall i | 0 <= i < |e + r| ensures EncodedAlphabet((e + r)[i]) {
        if i >= |e| { assert (e + r)[i] == r[i - |e|]; }
      }
    }
  }

  /** The payload of a continuation byte `10xxxxxx` escaped at group `k` of `s`. */
  function Continuation(s: string, k: nat): Option<nat> {
    if 3 * k + 3 <= |s| then
      match EscapedByte(s[3 * k..])
      case Some(b) => if 0x80 <= b < 0xC0 then Some(b - 0x80) else None
      case None => None
    else None
  }

  /** A code point that names a character: not a surrogate, not past U+10FFFF. */
  predicate ScalarValue(cp: int) {
    (0 <= cp < 0xD800) || (0xE000 <= cp < 0x110000)
  }

  /** One escaped character at the head of `s` and how many characters of `s` it used:
      a lead byte, the continuation bytes it announces, and a code point that is in range
      for its length (no overlong form), not a surrogate, and at most U+10FFFF. */
  function DecodeEscaped(s: string): (r: Option<(char, nat)>)
    ensures r.Some? ==> 3 <= r.value.1 <= |s|
  {
    match EscapedByte(s)
    case None => None
    case Some(b) =>
      if b < 0x80 then Some((b as char, 3))
      else if 0xC0 <= b < 0xE0 then
        match Continuation(s, 1)
        case None => None
        case Some(p1) =>
          var cp := (b - 0xC0) * 64 + p1;
          if cp >= 0x80 then Some((cp as char, 6)) else None
      else if 0xE0 <= b < 0xF0 then
        match (Continuation(s, 1), Continuation(s, 2))
        case (Some(p1), Some(p2)) =>
          var cp := (b - 0xE0) * 4096 + p1 * 64 + p2;
          if cp >= 0x800 && ScalarValue(cp) then Some((cp as char, 9)) else None
        case _ => None
      else if 0xF0 <= b < 0xF8 then
        match (Continuation(s, 1), Continuation(s, 2), Continuation(s, 3))
        case (Some(p1), Some(p2), Some(p3)) =>
          var cp := (b - 0xF0) * 262144 + p1 * 4096 + p2 * 64 + p3;
          if 0x10000 <= cp < 0x110000 then Some((cp as char, 12)) else None
        case _ => None
      else None
  }

  /** `decodeURIComponent(s)`, or `None` where it throws a `URIError`. */
  function Decode(s: string): (r: Option<string>)
    decreases |s|
  {
    if |s| == 0 then Some("")
    else if s[0] != '%' then
      match Decode(s[1..])
      case Some(rest) => Some([s[0]] + rest)
      case None => None
    else
      match DecodeEscaped(s)
      case None => None
      case Some((c, used)) =>
        match Decode(s[used..])
        case Some(rest) => Some([c] + rest)
        case None => None
  }

  /** A `%` without two hexadecimal digits after it is an error. */
  lemma TruncatedEscapeRejected(s: string)
    requires |s| > 0 && s[0] == '%' && (|s| < 3 || HexValue(s[1]).None? || HexValue(s[2]).None?)
    ensures Decode(s).None?
  {
  }

  /** The overlong two-byte forms `%C0` and `%C1` never decode, whatever follows. */
  lemma OverlongRejected(s: string)
    requires EscapedByte(s).Some? && 0xC0 <= EscapedByte(s).value < 0xC2
    ensures DecodeEscaped(s).None?
  {
  }

  /** The arithmetic behind the three-byte and four-byte forms. */
  lemma DivideTwice(x: nat)
    ensures x / 4096 == (x / 64) / 64
    ensures x / 262144 == (x / 4096) / 64
  {
    var q := x / 64;
    assert x == 4096 * (q / 64) + 64 * (q % 64) + x % 64;
    var p := x / 4096;
    assert x == 262144 * (p / 64) + 4096 * (p % 64) + x % 4096;
  }

  /** Decoding the escapes of one encoded character gives that character back. */
  lemma DecodeEscapedChar(c: char, rest: string)
    requires !Unreserved(c)
    ensures DecodeEscaped(EncodeChar(c) + rest) == Some((c, |EncodeChar(c)|))
  {
    var cp := c as int;
    EscapedBytes(Utf8(c), rest);
    if cp < 0x80 {
    } else if cp < 0x800 {
      DecodeTwoBytes(c, rest);
    } else if cp < 0x10000 {
      DecodeThreeBytes(c, rest);
    } else {
      DecodeFourBytes(c, rest);
    }
  }

  lemma DecodeTwoBytes(c: char, rest: string)
    requires 0x80 <= c as int < 0x800
    requires forall k :: 0 <= k < |Utf8(c)| ==> EscapedByte((EscapeAll(Utf8(c)) + rest)[3 * k..]) == Some(Utf8(c)[k])
    ensures DecodeEscaped(EscapeAll(Utf8(c)) + rest) == Some((c, 6))
  {
    var cp := c as int;
    var s := EscapeAll(Utf8(c)) + rest;
    assert Continuation(s, 1) == Some(cp % 64);
  }

  lemma DecodeThreeBytes(c: char, rest: string)
    requires 0x800 <= c as int < 0x10000
    requires forall k :: 0 <= k < |Utf8(c)| ==> EscapedByte((EscapeAll(Utf8(c)) + rest)[3 * k..]) == Some(Utf8(c)[k])
    ensures DecodeEscaped(EscapeAll(Utf8(c)) + rest) == Some((c, 9))
  {
    var cp := c as int;
    var s := EscapeAll(Utf8(c)) + rest;
    DivideTwice(cp);
    assert Continuation(s, 1) == Some((cp / 64) % 64);
    assert Continuation(s, 2) == Some(cp % 64);
    assert cp == (cp / 4096) * 4096 + ((cp / 64) % 64) * 64 + cp % 64;
  }

  lemma DecodeFourBytes(c: char, rest: string)
    requires 0x10000 <= c as int
    requires forall k :: 0 <= k < |Utf8(c)| ==> EscapedByte((EscapeAll(Utf8(c)) + rest)[3 * k..]) == Some(Utf8(c)[k])
    ensures DecodeEscaped(EscapeAll(Utf8(c)) + rest) == Some((c, 12))
  {
    var cp := c as int;
    var s := EscapeAll(Utf8(c)) + rest;
    DivideTwice(cp);
    assert Continuation(s, 1) == Some((cp / 4096) % 64);
    assert Continuation(s, 2) == Some((cp / 64) % 64);
    assert Continuation(s, 3) == Some(cp % 64);
    assert cp == (cp / 262144) * 262144 + ((cp / 4096) % 64) * 4096 + ((cp / 64) % 64) * 64 + cp % 64;
  }

  /** Each escape in `EscapeAll(bytes) + rest` reads back as its byte. */
  lemma {:induction false} EscapedBytes(bytes: seq<nat>, rest: string)
    requires forall i :: 0 <= i < |bytes| ==> bytes[i] < 256
    ensures forall k :: 0 <= k < |bytes| ==> EscapedByte((EscapeAll(bytes) + rest)[3 * k..]) == Some(bytes[k])
  {
    if |bytes| > 0 {
      var tail := EscapeAll(bytes[1..]) + rest;
      EscapedBytes(bytes[1..], rest);
      assert EscapeAll(bytes) + rest == Escape(bytes[0]) + tail;
      EscapeRoundTrip(bytes[0], tail);
      forall k | 1 <= k < |bytes| ensures EscapedByte((EscapeAll(bytes) + rest)[3 * k..]) == Some(bytes[k]) {
        assert (EscapeAll(bytes) + rest)[3 * k..] == tail[3 * (k - 1)..];
        assert bytes[k] == bytes[1..][k - 1];
      }
    }
  }

  /** Decoding an encoding gives back the string: `decodeURIComponent` inverts
      `encodeURIComponent` on every string of characters. */
  lemma {:induction false} DecodeEncode(s: string)
    ensures Decode(Encode(s)) == Some(s)
  {
    if |s| > 0 {
      DecodeEncode(s[1..]);
      var e := EncodeChar(s[0]);
      var t := e + Encode(s[1..]);
      assert Encode(s) == t;
      if Unreserved(s[0]) {
        assert t[1..] == Encode(s[1..]);
      } else {
        DecodeEscapedChar(s[0], Encode(s[1..]));
        assert t[|e|..] == Encode(s[1..]);
        assert t[0] == '%';
      }
      assert [s[0]] + s[1..] == s;
    }
  }
}
