/**
 * The client's per-user bubble colour: a 32-bit wrapping string hash (`hashCode`),
 * a hue derived from it (`getRandomColor`), and a memo table (`getUserColor`).
 */
module ColorHash {

  const TwoTo31: int := 0x8000_0000
  const TwoTo32: int := 0x1_0000_0000

  /** A UTF-16 code unit, what `charCodeAt` returns. */
  type CodeUnit = x: int | 0 <= x < 0x1_0000

  predicate IsInt32(x: int) {
    -TwoTo31 <= x < TwoTo31
  }

  /** JavaScript's `x | 0`: wrap an integer into the signed 32-bit range. */
  function ToInt32(x: int): (r: int)
    ensures IsInt32(r)
    ensures (x - r) % TwoTo32 == 0
    ensures IsInt32(x) ==> r == x
  {
    (x + TwoTo31) % TwoTo32 - TwoTo31
  }

  /** `Math.imul`: the low 32 bits of the product, read as signed. */
  function Imul(a: int, b: int): (r: int)
    ensures IsInt32(r)
  {
    ToInt32(ToInt32(a) * ToInt32(b))
  }

  /** The UTF-16 code units of a string: one per character of the basic plane, a surrogate pair otherwise. */
  function Utf16(s: string): (units: seq<CodeUnit>)
    ensures |units| >= |s|
    ensures s == [] ==> units == []
  {
    if s == [] then []
    else
      var cp := s[0] as int;
      var head: seq<CodeUnit> :=
        if cp < 0x1_0000 then [cp]
        else [0xD800 + (cp - 0x1_0000) / 0x400, 0xDC00 + (cp - 0x1_0000) % 0x400];
      head + Utf16(s[1..])
  }

  /**
   * Reads UTF-16 code units back as characters: a high surrogate followed by a low
   * one is one supplementary character, a lone surrogate reads as U+FFFD, and any
   * other unit is the character it numbers.
   */
  function Utf16Decode(units: seq<CodeUnit>): string
    decreases |units|
  {
    if units == [] then []
    else if 0xD800 <= units[0] < 0xDC00 && |units| >= 2 && 0xDC00 <= units[1] < 0xE000 then
      [(0x1_0000 + (units[0] as int - 0xD800) * 0x400 + (units[1] as int - 0xDC00)) as char] + Utf16Decode(units[2..])
    else if 0xD800 <= units[0] < 0xE000 then ['\U{FFFD}'] + Utf16Decode(units[1..])
    else [units[0] as char] + Utf16Decode(units[1..])
  }

  /** Decoding the code units of one character gives it back and carries on after them. */
  lemma Utf16DecodeChar(s: string)
    requires s != []
    ensures Utf16Decode(Utf16(s)) == [s[0]] + Utf16Decode(Utf16(s[1..]))
  {
    var cp := s[0] as int;
    var units := Utf16(s);
    var rest := Utf16(s[1..]);
    if cp < 0x1_0000 {
      assert units[1..] == rest;
    } else {
      var q, r := (cp - 0x1_0000) / 0x400, (cp - 0x1_0000) % 0x400;
      assert cp - 0x1_0000 == q * 0x400 + r;
      assert units[2..] == rest;
    }
  }

  /** The code units of a string read back as the string: no two strings share them. */
  lemma {:induction false} Utf16RoundTrip(s: string)
    ensures Utf16Decode(Utf16(s)) == s
  {
    if s != [] {
      Utf16DecodeChar(s);
      Utf16RoundTrip(s[1..]);
      assert [s[0]] + s[1..] == s;
    }
  }

  /** The hash of a sequence of code units: `h = (imul(31, h) + unit) | 0` from `h = 0`. */
  function Hash(units: seq<CodeUnit>): (h: int)
    ensures IsInt32(h)
    ensures units == [] ==> h == 0
    decreases |units|
  {
    if units == [] then 0
    else ToInt32(Imul(31, Hash(units[..|units| - 1])) + units[|units| - 1])
  }

  /** `hashCode(str)`: one pass over the code units of `str`. */
  method HashCode(str: string) returns (h: int)
    ensures h == Hash(Utf16(str))
    ensures IsInt32(h)
  {
    var units := Utf16(str);
    h := 0;
    var i := 0;
    while i < |units|
      invariant 0 <= i <= |units|
      invariant h == Hash(units[..i])
    {
      assert units[..i + 1][..i] == units[..i];
      h := ToInt32(Imul(31, h) + units[i]);
      i := i + 1;
    }
    assert units[..i] == units;
  }

  /** The polynomial the hash approximates: sum of `units[k] * 31^(n-1-k)` over unbounded integers. */
  function Poly(units: seq<CodeUnit>): int
    decreases |units|
  {
    if units == [] then 0 else 31 * Poly(units[..|units| - 1]) + units[|units| - 1]
  }

  /** The multiple of 2^32 that `ToInt32` takes off. */
  lemma ToInt32Quotient(x: int) returns (k: int)
    ensures x - ToInt32(x) == TwoTo32 * k
  {
    k := (x + TwoTo31) / TwoTo32;
  }

  /** Numbers a multiple of 2^32 apart wrap to the same 32-bit value. */
  lemma ToInt32Congruent(x: int, y: int, k: int)
    requires x - y == TwoTo32 * k
    ensures ToInt32(x) == ToInt32(y)
  {
    var kx := ToInt32Quotient(x);
    var ky := ToInt32Quotient(y);
    // Both results lie in one window of width 2^32 and differ by a multiple of it.
    assert ToInt32(x) - ToInt32(y) == TwoTo32 * (k - kx + ky);
  }

  /** `imul(31, t)` for a 32-bit `t` is the wrapped product. */
  lemma ImulBy31(t: int)
    requires IsInt32(t)
    ensures Imul(31, t) == ToInt32(31 * t)
  {
  }

  /** The 32-bit hash is the polynomial hash reduced to the signed 32-bit range. */
  lemma {:induction false} HashIsPolynomialModulo(units: seq<CodeUnit>)
    ensures Hash(units) == ToInt32(Poly(units))
    decreases |units|
  {
    if units != [] {
      var prefix := units[..|units| - 1];
      var c := units[|units| - 1];
      HashIsPolynomialModulo(prefix);
      var p := Poly(prefix);
      var t := ToInt32(p);
      var k1 := ToInt32Quotient(p);
      var m := ToInt32(31 * t);
      var k2 := ToInt32Quotient(31 * t);
      ImulBy31(t);
      assert Hash(units) == ToInt32(m + c);
      assert Poly(units) == 31 * p + c;
      ToInt32Congruent(31 * p + c, m + c, 31 * k1 + k2);
    }
  }

  /** The hue `Math.floor(Math.abs(h) % 360)`. */
  function Hue(h: int): (r: int)
    ensures 0 <= r < 360
  {
    (if h < 0 then -h else h) % 360
  }

  /** The colour `hsl(<hue>, 70%, 85%)`. */
  datatype Color = Hsl(hue: int, saturation: int, lightness: int)

  /** The colour `getRandomColor` gives `user`: a function of the name alone. */
  function ColorOf(user: string): (c: Color)
    ensures 0 <= c.hue < 360 && c.saturation == 70 && c.lightness == 85
  {
    Hsl(Hue(Hash(Utf16(user))), 70, 85)
  }

  /** `getRandomColor(user)`. */
  method GetRandomColor(user: string) returns (c: Color)
    ensures c == ColorOf(user)
  {
    var h := HashCode(user);
    c := Hsl(Hue(h), 70, 85);
  }

  /** The `userColors` memo table. */
  class ColorCache {
    var colors: map<string, Color>

    /** Every cached colour is the one `getRandomColor` gives, so the table never changes an answer. */
    ghost predicate Valid()
      reads this
    {
      forall u :: u in colors ==> colors[u] == ColorOf(u)
    }

    constructor ()
      ensures Valid() && colors == map[]
    {
      colors := map[];
    }

    /** `getUserColor(user)`: compute and store on the first call, read back afterwards. */
    method GetUserColor(user: string) returns (c: Color)
      requires Valid()
      modifies this
      ensures Valid()
      ensures c == ColorOf(user)
      ensures user in colors && colors[user] == c
      ensures user in old(colors) ==> colors == old(colors)
      ensures user !in old(colors) ==> colors == old(colors)[user := c]
    {
      if user !in colors {
        var made := GetRandomColor(user);
        colors := colors[user := made];
      }
      c := colors[user];
    }
  }
}
