/**
 * `encodeURIComponent` as the client applies it to the user name it puts in the
 * connect path: unreserved characters stay, every other character becomes the
 * percent-escaped bytes of its UTF-8 encoding. A reference decoder undoes it, so
 * distinct names always give distinct encodings.
 */
module Uri {

  /** The characters `encodeURIComponent` leaves as they are. */
  predicate Unreserved(c: char) {
    || ('A' <= c <= 'Z') || ('a' <= c <= 'z') || ('0' <= c <= '9')
    || c == '-' || c == '_' || c == '.' || c == '!' || c == '~' || c == '*' || c == '\'' || c == '(' || c == ')'
  }

  predicate IsByte(b: int) { 0 <= b < 256 }

  /** The code points a Dafny `char` can hold: the Unicode scalar values. */
  predicate IsScalarValue(cp: int) {
    0 <= cp < 0xD800 || 0xE000 <= cp < 0x11_0000
  }

  /** The upper-case hexadecimal digit of `v`. */
  function HexDigit(v: int): (d: char)
    requires 0 <= v < 16
    ensures '0' <= d <= '9' || 'A' <= d <= 'F'
  {
    if v < 10 then ('0' as int + v) as char else ('A' as int + v - 10) as char
  }

  /** The high and low four bits of a byte. */
  function High(b: int): (v: int)
    requires IsByte(b)
    ensures 0 <= v < 16
  {
    b / 16
  }

  function Low(b: int): (v: int)
    requires IsByte(b)
    ensures 0 <= v < 16 && High(b) * 16 + v == b
  {
    b % 16
  }

  /** The value of a hexadecimal digit of either case (0 for any other character). */
  function HexValue(d: char): (v: int)
    ensures 0 <= v < 16
  {
    if '0' <= d <= '9' then d as int - '0' as int
    else if 'A' <= d <= 'F' then d as int - 'A' as int + 10
    else if 'a' <= d <= 'f' then d as int - 'a' as int + 10
    else 0
  }

  lemma HexValueOfDigit(v: int)
    requires 0 <= v < 16
    ensures HexValue(HexDigit(v)) == v
  {
  }

  /** How many bytes a UTF-8 sequence has, read from its first byte. */
  function Utf8Length(lead: int): (n: nat)
    ensures 1 <= n <= 4
  {
    if lead < 0xC0 then 1 else if lead < 0xE0 then 2 else if lead < 0xF0 then 3 else 4
  }

  /**
   * The UTF-8 encoding of one code point: the lead byte announces the length, and
   * each continuation byte carries six bits, most significant first.
   */
  function Utf8(c: char): (bytes: seq<int>)
    ensures 1 <= |bytes| <= 4
    ensures forall i :: 0 <= i < |bytes| ==> IsByte(bytes[i])
    ensures (c as int) < 0x80 <==> |bytes| == 1
    ensures Utf8Length(bytes[0]) == |bytes|
    ensures forall i :: 1 <= i < |bytes| ==> 0x80 <= bytes[i] < 0xC0
  {
    var cp := c as int;
    if cp < 0x80 then [cp]
    else if cp < 0x800 then [0xC0 + cp / 64, 0x80 + cp % 64]
    else if cp < 0x1_0000 then [0xE0 + cp / 64 / 64, 0x80 + cp / 64 % 64, 0x80 + cp % 64]
    else [0xF0 + cp / 64 / 64 / 64, 0x80 + cp / 64 / 64 % 64, 0x80 + cp / 64 % 64, 0x80 + cp % 64]
  }

  /** The code point a UTF-8 sequence of one to four bytes stands for. */
  function Utf8Value(bytes: seq<int>): int {
    if |bytes| == 1 then bytes[0]
    else if |bytes| == 2 then (bytes[0] - 0xC0) * 64 + (bytes[1] - 0x80)
    else if |bytes| == 3 then ((bytes[0] - 0xE0) * 64 + (bytes[1] - 0x80)) * 64 + (bytes[2] - 0x80)
    else if |bytes| == 4 then
      (((bytes[0] - 0xF0) * 64 + (bytes[1] - 0x80)) * 64 + (bytes[2] - 0x80)) * 64 + (bytes[3] - 0x80)
    else 0
  }

  /** Decoding the UTF-8 bytes of a character gives back its code point. */
  lemma Utf8RoundTrip(c: char)
    ensures Utf8Value(Utf8(c)) == c as int
  {
    var cp := c as int;
    assert cp == cp / 64 * 64 + cp % 64;
    assert cp / 64 == cp / 64 / 64 * 64 + cp / 64 % 64;
    assert cp / 64 / 64 == cp / 64 / 64 / 64 * 64 + cp / 64 / 64 % 64;
  }

  /** `%XY` for each byte, with upper-case hexadecimal digits. */
  function PercentEncode(bytes: seq<int>): (r: string)
    requires forall i :: 0 <= i < |bytes| ==> IsByte(bytes[i])
    ensures |r| == 3 * |bytes|
    ensures forall i :: 0 <= i < |bytes| ==>
      r[3 * i] == '%' && r[3 * i + 1] == HexDigit(High(bytes[i])) && r[3 * i + 2] == HexDigit(Low(bytes[i]))
    ensures '/' !in r
  {
    if bytes == [] then []
    else
      var head := ['%', HexDigit(High(bytes[0])), HexDigit(Low(bytes[0]))];
      var tail := PercentEncode(bytes[1..]);
      assert forall i :: 1 <= i < |bytes| ==> (head + tail)[3 * i] == tail[3 * (i - 1)];
      head + tail
  }

  /** The bytes of a run of `%XY` triples. */
  function PercentDecode(r: string): (bytes: seq<int>)
    decreases |r|
  {
    if |r| < 3 then [] else [HexValue(r[1]) * 16 + HexValue(r[2])] + PercentDecode(r[3..])
  }

  lemma {:induction false} PercentRoundTrip(bytes: seq<int>)
    requires forall i :: 0 <= i < |bytes| ==> IsByte(bytes[i])
    ensures PercentDecode(PercentEncode(bytes)) == bytes
  {
    if bytes != [] {
      var r := PercentEncode(bytes);
      HexValueOfDigit(High(bytes[0]));
      HexValueOfDigit(Low(bytes[0]));
      PercentRoundTrip(bytes[1..]);
      assert r[3..] == PercentEncode(bytes[1..]);
    }
  }

  /** One character as `encodeURIComponent` writes it. */
  function EncodeChar(c: char): (r: string)
    ensures '/' !in r && |r| >= 1
    ensures Unreserved(c) <==> r == [c]
  {
    if Unreserved(c) then [c] else PercentEncode(Utf8(c))
  }

  /**
   * `encodeURIComponent(s)`. The result never contains '/', so it always stays one
   * path segment, and it is empty exactly when `s` is.
   */
  function EncodeUriComponent(s: string): (r: string)
    ensures '/' !in r
    ensures |r| >= |s|
    ensures r == [] <==> s == []
  {
    if s == [] then [] else EncodeChar(s[0]) + EncodeUriComponent(s[1..])
  }

  /**
   * A reference `decodeURIComponent`: a `%XY` run announced by its first byte is read
   * as one UTF-8 character, anything else is kept. On malformed input, where
   * JavaScript throws `URIError`, it keeps the characters as they are.
   */
  function DecodeUriComponent(r: string): string
    decreases |r|
  {
    if r == [] then []
    else if r[0] != '%' || |r| < 3 then [r[0]] + DecodeUriComponent(r[1..])
    else
      var n := Utf8Length(HexValue(r[1]) * 16 + HexValue(r[2]));
      var cp := if |r| < 3 * n then -1 else Utf8Value(PercentDecode(r[..3 * n]));
      if IsScalarValue(cp) then [cp as char] + DecodeUriComponent(r[3 * n..])
      else [r[0]] + DecodeUriComponent(r[1..])
  }

  /** Decoding reads back exactly one encoded character and carries on after it. */
  lemma DecodeEncodedChar(c: char, rest: string)
    ensures DecodeUriComponent(EncodeChar(c) + rest) == [c] + DecodeUriComponent(rest)
  {
    var r := EncodeChar(c) + rest;
    if Unreserved(c) {
      assert r[1..] == rest;
    } else {
      var bytes := Utf8(c);
      var e := PercentEncode(bytes);
      HexValueOfDigit(High(bytes[0]));
      HexValueOfDigit(Low(bytes[0]));
      assert HexValue(r[1]) * 16 + HexValue(r[2]) == bytes[0];
      assert r[..3 * |bytes|] == e;
      PercentRoundTrip(bytes);
      Utf8RoundTrip(c);
      assert r[3 * |bytes|..] == rest;
    }
  }

  /** The decoder undoes `encodeURIComponent`. */
  lemma {:induction false} DecodeEncode(s: string)
    ensures DecodeUriComponent(EncodeUriComponent(s)) == s
  {
    if s != [] {
      DecodeEncodedChar(s[0], EncodeUriComponent(s[1..]));
      DecodeEncode(s[1..]);
      assert [s[0]] + s[1..] == s;
    }
  }

  /** Distinct names have distinct encodings. */
  lemma EncodeInjective(a: string, b: string)
    requires EncodeUriComponent(a) == EncodeUriComponent(b)
    ensures a == b
  {
    DecodeEncode(a);
    DecodeEncode(b);
  }

  /** A name made only of unreserved characters is sent as it is. */
  lemma {:induction false} UnreservedUnchanged(s: string)
    requires forall i :: 0 <= i < |s| ==> Unreserved(s[i])
    ensures EncodeUriComponent(s) == s
  {
    if s != [] {
      UnreservedUnchanged(s[1..]);
      assert [s[0]] + s[1..] == s;
    }
  }
}
