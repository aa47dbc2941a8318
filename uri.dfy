/** `encodeURIComponent`, with the UTF-8 encoding it escapes through, and
    the matching decoder that shows no two strings encode alike. */
module Uri {
  import opened Wrappers
  import opened Text

  /** The characters `encodeURIComponent` leaves as they are:
      `A-Z a-z 0-9 - _ . ! ~ * ' ( )`. */
  predicate IsUnreserved(c: char)
  {
    IsAsciiLower(c) || IsAsciiUpper(c) || IsAsciiDigit(c)
    || c == '-' || c == '_' || c == '.' || c == '!' || c == '~' || c == '*' || c == '\'' || c == '(' || c == ')'
  }

  predicate IsByte(b: nat) { b < 0x100 }

  predicate IsContinuation(b: nat) { 0x80 <= b < 0xC0 }

  /** The UTF-8 encoding of one Unicode scalar value. */
  function Utf8(c: char): (bs: seq<nat>)
    ensures 1 <= |bs| <= 4
    ensures forall i :: 0 <= i < |bs| ==> IsByte(bs[i])
    ensures forall i :: 1 <= i < |bs| ==> IsContinuation(bs[i])
    ensures |bs| == 1 <==> IsAscii(c)
  {
    var n := c as int;
    if n < 0x80 then [n]
    else if n < 0x800 then [0xC0 + n / 64, 0x80 + n % 64]
    else if n < 0x10000 then [0xE0 + n / 4096, 0x80 + n / 64 % 64, 0x80 + n % 64]
    else [0xF0 + n / 262144, 0x80 + n / 4096 % 64, 0x80 + n / 64 % 64, 0x80 + n % 64]
  }

  /** The UTF-8 encoding of a string. */
  function Utf8String(s: string): seq<nat>
  {
    if s == [] then [] else Utf8(s[0]) + Utf8String(s[1..])
  }

  predicate IsHexDigit(c: char)
  {
    IsAsciiDigit(c) || 'A' <= c <= 'F' || 'a' <= c <= 'f'
  }

  /** Upper-case hexadecimal digit, as `encodeURIComponent` writes it. */
  function HexDigit(d: nat): (c: char)
    requires d < 16
    ensures IsHexDigit(c) && IsUnreserved(c)
  {
    if d < 10 then ('0' as int + d) as char else ('A' as int + d - 10) as char
  }

  function HexValue(c: char): (d: nat)
    requires IsHexDigit(c)
    ensures d < 16
  {
    if IsAsciiDigit(c) then c as int - '0' as int
    else if 'A' <= c <= 'F' then c as int - 'A' as int + 10
    else c as int - 'a' as int + 10
  }

  /** `%XX` for each byte. */
  function Escape(bs: seq<nat>): (r: string)
    requires forall i :: 0 <= i < |bs| ==> IsByte(bs[i])
    ensures |r| == 3 * |bs|
    ensures forall i :: 0 <= i < |r| ==> IsUnreserved(r[i]) || r[i] == '%'
  {
    if bs == [] then []
    else
      assert IsByte(bs[0]);
      ['%', HexDigit(bs[0] / 16), HexDigit(bs[0] % 16)] + Escape(bs[1..])
  }

  function EncodeChar(c: char): (r: string)
    ensures forall i :: 0 <= i < |r| ==> IsUnreserved(r[i]) || r[i] == '%'
  {
    if IsUnreserved(c) then [c] else Escape(Utf8(c))
  }

  /** `encodeURIComponent(s)`. The output never contains `/`, so an encoded
      component cannot be mistaken for several path segments. */
  function EncodeURIComponent(s: string): (r: string)
    ensures forall i :: 0 <= i < |r| ==> IsUnreserved(r[i]) || r[i] == '%'
    ensures forall i :: 0 <= i < |r| ==> r[i] != '/'
  {
    FlatMapAlphabet(EncodeChar, c => IsUnreserved(c) || c == '%', s);
    FlatMap(EncodeChar, s)
  }

  /** A string made only of unreserved characters is its own encoding. */
  lemma EncodeUnreserved(s: string)
    requires forall i :: 0 <= i < |s| ==> IsUnreserved(s[i])
    ensures EncodeURIComponent(s) == s
  {
    FlatMapIdentity(EncodeChar, s);
  }

  // ---------------------------------------------------------------------
  // Decoding: the inverse of the encoder.

  /** Turns `%XX` escapes back into bytes; an ASCII character stands for its
      own byte. */
  function PercentDecode(e: string): Option<seq<nat>>
    decreases |e|
  {
    if e == [] then Some([])
    else if e[0] == '%' then
      if |e| >= 3 && IsHexDigit(e[1]) && IsHexDigit(e[2]) then
        match PercentDecode(e[3..])
        case None => None
        case Some(rest) => Some([HexValue(e[1]) * 16 + HexValue(e[2])] + rest)
      else None
    else if IsAscii(e[0]) then
      match PercentDecode(e[1..])
      case None => None
      case Some(rest) => Some([e[0] as int] + rest)
    else None
  }

  /** Length of the UTF-8 sequence a lead byte announces; 0 for a byte that
      cannot start one. */
  function SequenceLength(b: nat): nat
  {
    if b < 0x80 then 1
    else if 0xC2 <= b < 0xE0 then 2
    else if 0xE0 <= b < 0xF0 then 3
    else if 0xF0 <= b < 0xF5 then 4
    else 0
  }

  predicate IsScalarValue(n: int)
  {
    0 <= n < 0xD800 || 0xE000 <= n < 0x110000
  }

  /** The code point of one complete UTF-8 sequence, rejecting overlong
      forms, surrogates and values past U+10FFFF. */
  function DecodeSequence(bs: seq<nat>): Option<char>
  {
    if |bs| == 1 && bs[0] < 0x80 then Some(bs[0] as char)
    else if |bs| == 2 && IsContinuation(bs[1]) && 0xC0 <= bs[0] then
      var n := (bs[0] - 0xC0) * 64 + (bs[1] - 0x80);
      if 0x80 <= n < 0x800 then Some(n as char) else None
    else if |bs| == 3 && IsContinuation(bs[1]) && IsContinuation(bs[2]) && 0xE0 <= bs[0] then
      var n := (bs[0] - 0xE0) * 4096 + (bs[1] - 0x80) * 64 + (bs[2] - 0x80);
      if 0x800 <= n < 0x10000 && IsScalarValue(n) then Some(n as char) else None
    else if |bs| == 4 && IsContinuation(bs[1]) && IsContinuation(bs[2]) && IsContinuation(bs[3]) && 0xF0 <= bs[0] then
      var n := (bs[0] - 0xF0) * 262144 + (bs[1] - 0x80) * 4096 + (bs[2] - 0x80) * 64 + (bs[3] - 0x80);
      if 0x10000 <= n < 0x110000 then Some(n as char) else None
    else None
  }

  function Utf8Decode(bs: seq<nat>): Option<string>
    decreases |bs|
  {
    if bs == [] then Some([])
    else
      var k := SequenceLength(bs[0]);
      if k == 0 || k > |bs| then None
      else match DecodeSequence(bs[..k])
        case None => None
        case Some(c) =>
          match Utf8Decode(bs[k..])
          case None => None
          case Some(rest) => Some([c] + rest)
  }

  /** `decodeURIComponent` on the strings the encoder produces. */
  function DecodeURIComponent(e: string): Option<string>
  {
    match PercentDecode(e)
    case None => None
    case Some(bs) => Utf8Decode(bs)
  }

  lemma Split64(n: nat)
    ensures n == n / 64 * 64 + n % 64
    ensures n / 64 == n / 4096 * 64 + n / 64 % 64
    ensures n / 4096 == n / 262144 * 64 + n / 4096 % 64
  {
    var q := n / 64;
    assert q / 64 == n / 4096 by {
      assert n == q / 64 * 4096 + (q % 64 * 64 + n % 64);
      assert 0 <= q % 64 * 64 + n % 64 < 4096;
    }
    var p := n / 4096;
    assert p / 64 == n / 262144 by {
      assert n == p / 64 * 262144 + (p % 64 * 4096 + n % 4096);
      assert 0 <= p % 64 * 4096 + n % 4096 < 262144;
    }
  }

  /** Each character's UTF-8 sequence announces its own length and decodes
      back to the character. */
  lemma Utf8Char(c: char)
    ensures SequenceLength(Utf8(c)[0]) == |Utf8(c)|
    ensures DecodeSequence(Utf8(c)) == Some(c)
  {
    Split64(c as int);
  }

  lemma {:induction false} Utf8DecodeCons(c: char, rest: seq<nat>)
    ensures Utf8Decode(Utf8(c) + rest) == match Utf8Decode(rest) case None => None case Some(t) => Some([c] + t)
  {
    var bs := Utf8(c) + rest;
    Utf8Char(c);
    assert bs[..|Utf8(c)|] == Utf8(c);
    assert bs[|Utf8(c)|..] == rest;
  }

  /** Round trip: UTF-8 decoding undoes UTF-8 encoding. */
  lemma {:induction false} Utf8RoundTrip(s: string)
    ensures Utf8Decode(Utf8String(s)) == Some(s)
  {
    if s != [] {
      Utf8RoundTrip(s[1..]);
      Utf8DecodeCons(s[0], Utf8String(s[1..]));
      assert [s[0]] + s[1..] == s;
    }
  }

  lemma HexRoundTrip(b: nat)
    requires IsByte(b)
    ensures HexValue(HexDigit(b / 16)) * 16 + HexValue(HexDigit(b % 16)) == b
  {
  }

  lemma {:induction false} PercentDecodeEscape(bs: seq<nat>, rest: string)
    requires forall i :: 0 <= i < |bs| ==> IsByte(bs[i])
    ensures PercentDecode(Escape(bs) + rest) == match PercentDecode(rest) case None => None case Some(t) => Some(bs + t)
  {
    if bs != [] {
      var e := Escape(bs) + rest;
      assert IsByte(bs[0]);
      var hi, lo := HexDigit(bs[0] / 16), HexDigit(bs[0] % 16);
      assert e == ['%', hi, lo] + (Escape(bs[1..]) + rest);
      assert e[0] == '%' && e[1] == hi && e[2] == lo;
      assert e[3..] == Escape(bs[1..]) + rest;
      PercentDecodeEscape(bs[1..], rest);
      HexRoundTrip(bs[0]);
      match PercentDecode(rest) {
        case None =>
        case Some(t) => assert [bs[0]] + (bs[1..] + t) == bs + t;
      }
    } else {
      assert Escape(bs) + rest == rest;
      match PercentDecode(rest) {
        case None =>
        case Some(t) => assert bs + t == t;
      }
    }
  }

  lemma {:induction false} PercentDecodeChar(c: char, rest: string)
    ensures PercentDecode(EncodeChar(c) + rest) == match PercentDecode(rest) case None => None case Some(t) => Some(Utf8(c) + t)
  {
    if IsUnreserved(c) {
      assert ([c] + rest)[1..] == rest;
    } else {
      PercentDecodeEscape(Utf8(c), rest);
    }
  }

  /** Percent-decoding the encoder's output gives the UTF-8 bytes of the input. */
  lemma {:induction false} PercentDecodeEncode(s: string)
    ensures PercentDecode(EncodeURIComponent(s)) == Some(Utf8String(s))
  {
    if s != [] {
      PercentDecodeEncode(s[1..]);
      PercentDecodeChar(s[0], EncodeURIComponent(s[1..]));
    }
  }

  /** Round trip: decoding the encoding gives the original string back. */
  lemma DecodeEncode(s: string)
    ensures DecodeURIComponent(EncodeURIComponent(s)) == Some(s)
  {
    PercentDecodeEncode(s);
    Utf8RoundTrip(s);
  }

  /** Distinct strings have distinct encodings. */
  lemma EncodeInjective(a: string, b: string)
    requires EncodeURIComponent(a) == EncodeURIComponent(b)
    ensures a == b
  {
    DecodeEncode(a);
    DecodeEncode(b);
  }
}
