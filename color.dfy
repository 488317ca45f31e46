/** `hexToRgb`: a CSS hex colour, with or without its `#`, in three-digit or
    six-digit form, read as its red, green and blue channels. */
module Color {

  predicate IsHexDigit(c: char)
  {
    '0' <= c <= '9' || 'a' <= c <= 'f' || 'A' <= c <= 'F'
  }

  predicate AllHex(s: string)
  {
    forall i :: 0 <= i < |s| ==> IsHexDigit(s[i])
  }

  /** What `parseInt(_, 16)` reads one digit as; both cases are accepted. */
  function DigitValue(c: char): (v: nat)
    requires IsHexDigit(c)
    ensures v < 16
  {
    if '0' <= c <= '9' then c as int - '0' as int
    else if 'a' <= c <= 'f' then c as int - 'a' as int + 10
    else c as int - 'A' as int + 10
  }

  /** The lower-case digit for a value below 16. */
  function HexChar(v: nat): (c: char)
    requires v < 16
    ensures IsHexDigit(c) && DigitValue(c) == v
  {
    if v < 10 then ('0' as int + v) as char else ('a' as int + v - 10) as char
  }

  function Pow16(k: nat): (p: nat)
    ensures p >= 1
  {
    if k == 0 then 1 else 16 * Pow16(k - 1)
  }

  /** `parseInt(s, 16)` on a string of hex digits. */
  function ParseHex(s: string): (n: nat)
    requires AllHex(s)
    ensures n < Pow16(|s|)
  {
    if s == [] then 0
    else
      var m := ParseHex(s[..|s| - 1]);
      var d := DigitValue(s[|s| - 1]);
      assert m * 16 + d <= (Pow16(|s| - 1) - 1) * 16 + 15;
      m * 16 + d
  }

  /** `hex.replace('#', '')`: the first `#` is removed, any other is kept. */
  function StripHash(s: string): (r: string)
    ensures '#' !in s ==> r == s
    ensures '#' in s ==> |r| == |s| - 1
    ensures |s| > 0 && s[0] == '#' ==> r == s[1..]
  {
    if s == [] then []
    else if s[0] == '#' then s[1..]
    else [s[0]] + StripHash(s[1..])
  }

  /** The position of the first `#` and what `StripHash` keeps around it. */
  lemma {:induction false} FirstHash(s: string) returns (k: nat)
    requires '#' in s
    ensures k < |s| && s[k] == '#' && forall j :: 0 <= j < k ==> s[j] != '#'
    ensures StripHash(s) == s[..k] + s[k + 1..]
  {
    if s[0] == '#' {
      k := 0;
      assert s[..0] + s[1..] == s[1..];
    } else {
      var t := s[1..];
      assert '#' in t;
      var kt := FirstHash(t);
      k := kt + 1;
      var a, b := t[..kt], t[kt + 1..];
      assert StripHash(s) == [s[0]] + (a + b);
      assert s[..k] == [s[0]] + a;
      assert s[k + 1..] == b;
      assert [s[0]] + (a + b) == ([s[0]] + a) + b;
    }
  }

  /** The `#` that `StripHash` removes is the first one: the text before it
      and the text after it are kept. */
  lemma StripHashRemovesFirst(s: string)
    requires '#' in s
    ensures exists k :: 0 <= k < |s| && s[k] == '#' && '#' !in s[..k] && StripHash(s) == s[..k] + s[k + 1..]
  {
    var k := FirstHash(s);
    assert '#' !in s[..k];
  }

  /** The three-digit shorthand with every digit doubled; other lengths as they are. */
  function Expand(h: string): (e: string)
    ensures |h| == 3 ==> |e| == 6 && forall i :: 0 <= i < 6 ==> e[i] == h[i / 2]
    ensures |h| != 3 ==> e == h
  {
    if |h| == 3 then [h[0], h[0], h[1], h[1], h[2], h[2]] else h
  }

  /** The argument `hexToRgb` can read: one to seven hex digits after the
      `#`. Below 16^7 = 2^28 the value fits a signed 32-bit integer, so the
      `>>` and `&` of the source act as division and remainder. */
  predicate WellFormed(hex: string)
  {
    var h := StripHash(hex);
    1 <= |h| <= 7 && AllHex(h)
  }

  datatype Rgb = Rgb(r: int, g: int, b: int)

  /** `[(n >> 16) & 255, (n >> 8) & 255, n & 255]` of the parsed value. */
  function HexToRgb(hex: string): (c: Rgb)
    requires WellFormed(hex)
    ensures 0 <= c.r < 256 && 0 <= c.g < 256 && 0 <= c.b < 256
  {
    var h := Expand(StripHash(hex));
    assert AllHex(h);
    var n := ParseHex(h);
    Rgb((n / 65536) % 256, (n / 256) % 256, n % 256)
  }

  /** The six-digit form `#rrggbb` that a colour input yields for the channels. */
  function RgbToHex(c: Rgb): (hex: string)
    requires 0 <= c.r < 256 && 0 <= c.g < 256 && 0 <= c.b < 256
    ensures |hex| == 7 && hex[0] == '#' && AllHex(hex[1..])
  {
    "#" + [HexChar(c.r / 16), HexChar(c.r % 16), HexChar(c.g / 16), HexChar(c.g % 16),
           HexChar(c.b / 16), HexChar(c.b % 16)]
  }

  /** Shifting by 8 bits and masking 8 bits split `q * 256 + r`. */
  lemma Split256(q: int, r: int)
    requires 0 <= r < 256
    ensures (q * 256 + r) / 256 == q && (q * 256 + r) % 256 == r
  {
  }

  /** Shifting by 16 bits drops the low 16 bits of `q * 65536 + r`. */
  lemma Split65536(q: int, r: int)
    requires 0 <= r < 65536
    ensures (q * 65536 + r) / 65536 == q
  {
  }

  lemma Shift16(x: int, p: int, y: int, d: int)
    ensures (x * p + y) * 16 + d == x * (16 * p) + (y * 16 + d)
  {
  }

  /** Reading digits after digits: the value of a concatenation. */
  lemma {:induction false} ParseHexAppend(a: string, b: string)
    requires AllHex(a) && AllHex(b)
    ensures AllHex(a + b)
    ensures ParseHex(a + b) == ParseHex(a) * Pow16(|b|) + ParseHex(b)
  {
    assert AllHex(a + b);
    if b == [] {
      assert a + b == a;
    } else {
      var b' := b[..|b| - 1];
      assert (a + b)[..|a + b| - 1] == a + b';
      assert (a + b)[|a + b| - 1] == b[|b| - 1];
      ParseHexAppend(a, b');
      var x, p, y, d := ParseHex(a), Pow16(|b'|), ParseHex(b'), DigitValue(b[|b| - 1]);
      assert ParseHex(a + b) == ParseHex(a + b') * 16 + d;
      assert ParseHex(b) == y * 16 + d;
      assert Pow16(|b|) == 16 * p;
      Shift16(x, p, y, d);
    }
  }

  /** The value of two digits. */
  lemma ParsePair(x: char, y: char)
    requires IsHexDigit(x) && IsHexDigit(y)
    ensures ParseHex([x, y]) == 16 * DigitValue(x) + DigitValue(y)
  {
    assert [x, y][..1] == [x];
    assert [x][..0] == [];
  }

  /** Six digits read as three two-digit bytes, most significant first. */
  lemma ParseSix(h: string)
    requires |h| == 6 && AllHex(h)
    ensures ParseHex(h) == ((16 * DigitValue(h[0]) + DigitValue(h[1])) * 256 +
                            (16 * DigitValue(h[2]) + DigitValue(h[3]))) * 256 +
                           (16 * DigitValue(h[4]) + DigitValue(h[5]))
  {
    var p1, p2, p3 := [h[0], h[1]], [h[2], h[3]], [h[4], h[5]];
    assert AllHex(p1) && AllHex(p2) && AllHex(p3);
    assert h == p1 + p2 + p3;
    ParsePair(h[0], h[1]);
    ParsePair(h[2], h[3]);
    ParsePair(h[4], h[5]);
    assert Pow16(2) == 256;
    var v1, v2, v3 := ParseHex(p1), ParseHex(p2), ParseHex(p3);
    ParseHexAppend(p1, p2);
    var m := ParseHex(p1 + p2);
    assert m == v1 * 256 + v2;
    ParseHexAppend(p1 + p2, p3);
    assert ParseHex(h) == m * 256 + v3;
  }

  /** The shifts and masks of `hexToRgb` take three bytes apart again. */
  lemma Channels(v1: int, v2: int, v3: int)
    requires 0 <= v1 < 256 && 0 <= v2 < 256 && 0 <= v3 < 256
    ensures var n := (v1 * 256 + v2) * 256 + v3;
            (n / 65536) % 256 == v1 && (n / 256) % 256 == v2 && n % 256 == v3
  {
    var n := (v1 * 256 + v2) * 256 + v3;
    Split256(v1 * 256 + v2, v3);
    Split256(v1, v2);
    assert n == v1 * 65536 + (v2 * 256 + v3);
    Split65536(v1, v2 * 256 + v3);
    Split256(0, v1);
  }

  /** `#rrggbb`: each channel is the value of its two digits. */
  lemma HexToRgbSixDigits(hex: string)
    requires |hex| == 7 && hex[0] == '#' && AllHex(hex[1..])
    ensures WellFormed(hex)
    ensures HexToRgb(hex) == Rgb(16 * DigitValue(hex[1]) + DigitValue(hex[2]),
                                 16 * DigitValue(hex[3]) + DigitValue(hex[4]),
                                 16 * DigitValue(hex[5]) + DigitValue(hex[6]))
  {
    var h := hex[1..];
    assert StripHash(hex) == h && Expand(h) == h;
    ParseSix(h);
    Channels(16 * DigitValue(h[0]) + DigitValue(h[1]),
             16 * DigitValue(h[2]) + DigitValue(h[3]),
             16 * DigitValue(h[4]) + DigitValue(h[5]));
  }

  /** `#rgb` reads as `#rrggbb`: each channel is its digit times 17. */
  lemma HexToRgbThreeDigits(hex: string)
    requires |hex| == 4 && hex[0] == '#' && AllHex(hex[1..])
    ensures WellFormed(hex)
    ensures HexToRgb(hex) == Rgb(17 * DigitValue(hex[1]), 17 * DigitValue(hex[2]), 17 * DigitValue(hex[3]))
  {
    var h := hex[1..];
    assert StripHash(hex) == h;
    var e := Expand(h);
    var six := "#" + e;
    assert six[1..] == e && AllHex(e);
    HexToRgbSixDigits(six);
    assert e == [hex[1], hex[1], hex[2], hex[2], hex[3], hex[3]];
    assert StripHash(six) == e && Expand(e) == e;
    assert HexToRgb(hex) == HexToRgb(six);
  }

  /** What a colour input writes reads back as the same channels. */
  lemma RgbRoundTrip(c: Rgb)
    requires 0 <= c.r < 256 && 0 <= c.g < 256 && 0 <= c.b < 256
    ensures WellFormed(RgbToHex(c))
    ensures HexToRgb(RgbToHex(c)) == c
  {
    var hex := RgbToHex(c);
    HexToRgbSixDigits(hex);
  }
}
