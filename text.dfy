/** The string operations the list presenter relies on: lower-casing,
    substring search, single-character replacement and `escapeHtml`. */
module Text {

  /** `toLowerCase` on one character; only the ASCII letters are folded. */
  function LowerChar(c: char): char
  {
    if 'A' <= c <= 'Z' then (c as int + 32) as char else c
  }

  function Lower(s: string): (r: string)
    ensures |r| == |s|
    ensures forall i :: 0 <= i < |s| ==> r[i] == LowerChar(s[i])
  {
    if s == [] then [] else [LowerChar(s[0])] + Lower(s[1..])
  }

  /** The needle occurs in the haystack starting at position `i`. */
  predicate OccursAt(hay: string, needle: string, i: nat)
  {
    i + |needle| <= |hay| && hay[i..i + |needle|] == needle
  }

  /** `hay.includes(needle)`: the needle occurs somewhere in the haystack;
      the empty needle occurs everywhere. */
  function Includes(hay: string, needle: string): (b: bool)
    ensures b <==> exists i: nat :: OccursAt(hay, needle, i)
    decreases |hay|
  {
    if needle <= hay then
      assert OccursAt(hay, needle, 0);
      true
    else if hay == [] then
      assert forall i: nat :: !OccursAt(hay, needle, i);
      false
    else
      var found := Includes(hay[1..], needle);
      assert forall i: nat :: OccursAt(hay[1..], needle, i) <==> OccursAt(hay, needle, i + 1) by {
        forall i: nat ensures OccursAt(hay[1..], needle, i) <==> OccursAt(hay, needle, i + 1) {
          if i + 1 + |needle| <= |hay| {
            assert hay[1..][i..i + |needle|] == hay[i + 1..i + 1 + |needle|];
          }
        }
      }
      assert !OccursAt(hay, needle, 0);
      assert forall i: nat :: OccursAt(hay, needle, i) ==> i >= 1 && OccursAt(hay[1..], needle, i - 1);
      found
  }

  /** An occurrence survives lower-casing both strings. */
  lemma LowerOccurs(hay: string, needle: string, i: nat)
    requires OccursAt(hay, needle, i)
    ensures OccursAt(Lower(hay), Lower(needle), i)
  {
    var lh, ln := Lower(hay), Lower(needle);
    assert forall k :: 0 <= k < |needle| ==> lh[i..i + |needle|][k] == LowerChar(hay[i + k]) == LowerChar(needle[k]);
    assert lh[i..i + |needle|] == ln;
  }

  /** `s.replace(/c/g, rep)`: every occurrence of `c` becomes `rep`. */
  function ReplaceAll(s: string, c: char, rep: string): (r: string)
    ensures c !in rep ==> c !in r
    ensures forall d :: d in r ==> (d in s && d != c) || d in rep
  {
    if s == [] then [] else (if s[0] == c then rep else [s[0]]) + ReplaceAll(s[1..], c, rep)
  }

  lemma {:induction false} ReplaceAllAppend(a: string, b: string, c: char, rep: string)
    ensures ReplaceAll(a + b, c, rep) == ReplaceAll(a, c, rep) + ReplaceAll(b, c, rep)
  {
    if a == [] {
      assert a + b == b;
    } else {
      var head := if a[0] == c then rep else [a[0]];
      assert (a + b)[0] == a[0] && (a + b)[1..] == a[1..] + b;
      ReplaceAllAppend(a[1..], b, c, rep);
      calc {
        ReplaceAll(a + b, c, rep);
        head + ReplaceAll(a[1..] + b, c, rep);
        head + (ReplaceAll(a[1..], c, rep) + ReplaceAll(b, c, rep));
        (head + ReplaceAll(a[1..], c, rep)) + ReplaceAll(b, c, rep);
      }
    }
  }

  lemma {:induction false} ReplaceAllAbsent(s: string, c: char, rep: string)
    requires c !in s
    ensures ReplaceAll(s, c, rep) == s
  {
    if s != [] {
      ReplaceAllAbsent(s[1..], c, rep);
    }
  }

  /** Replacing a character by one character keeps every position: each
      occurrence of `c` reads `d`, everything else is kept. */
  lemma {:induction false} ReplaceAllByChar(s: string, c: char, d: char)
    ensures |ReplaceAll(s, c, [d])| == |s|
    ensures forall i :: 0 <= i < |s| ==> ReplaceAll(s, c, [d])[i] == if s[i] == c then d else s[i]
  {
    if s != [] {
      ReplaceAllByChar(s[1..], c, d);
    }
  }

  /** `escapeHtml`: `&` is replaced first, then `<`, then `>`. */
  function EscapeHtml(s: string): (r: string)
    ensures '<' !in r && '>' !in r
  {
    ReplaceAll(ReplaceAll(ReplaceAll(s, '&', "&amp;"), '<', "&lt;"), '>', "&gt;")
  }

  /** The entity one character is written as. */
  function EscapeChar(c: char): string
  {
    if c == '&' then "&amp;" else if c == '<' then "&lt;" else if c == '>' then "&gt;" else [c]
  }

  /** The character-by-character reference for `EscapeHtml`. */
  function EscapeEach(s: string): string
  {
    if s == [] then [] else EscapeChar(s[0]) + EscapeEach(s[1..])
  }

  lemma EscapeHtmlAppend(a: string, b: string)
    ensures EscapeHtml(a + b) == EscapeHtml(a) + EscapeHtml(b)
  {
    ReplaceAllAppend(a, b, '&', "&amp;");
    var a1, b1 := ReplaceAll(a, '&', "&amp;"), ReplaceAll(b, '&', "&amp;");
    ReplaceAllAppend(a1, b1, '<', "&lt;");
    var a2, b2 := ReplaceAll(a1, '<', "&lt;"), ReplaceAll(b1, '<', "&lt;");
    ReplaceAllAppend(a2, b2, '>', "&gt;");
  }

  lemma EscapeHtmlChar(x: char)
    ensures EscapeHtml([x]) == EscapeChar(x)
  {
    assert ReplaceAll([x], '&', "&amp;") == (if x == '&' then "&amp;" else [x]) + ReplaceAll([], '&', "&amp;");
    if x == '&' {
      assert ReplaceAll([x], '&', "&amp;") == "&amp;";
      ReplaceAllAbsent("&amp;", '<', "&lt;");
      ReplaceAllAbsent("&amp;", '>', "&gt;");
    } else {
      assert ReplaceAll([x], '<', "&lt;") == (if x == '<' then "&lt;" else [x]) + ReplaceAll([], '<', "&lt;");
      assert ReplaceAll([x], '&', "&amp;") == [x];
      if x == '<' {
        assert ReplaceAll([x], '<', "&lt;") == "&lt;";
        ReplaceAllAbsent("&lt;", '>', "&gt;");
      } else {
        assert ReplaceAll([x], '>', "&gt;") == (if x == '>' then "&gt;" else [x]) + ReplaceAll([], '>', "&gt;");
      }
    }
  }

  /** The three passes of `escapeHtml` escape each character exactly once:
      because `&` goes first, the `&` of `&lt;` and `&gt;` is never escaped again. */
  lemma {:induction false} EscapeHtmlPerChar(s: string)
    ensures EscapeHtml(s) == EscapeEach(s)
  {
    if s == [] {
      assert EscapeHtml(s) == [];
    } else {
      assert s == [s[0]] + s[1..];
      EscapeHtmlAppend([s[0]], s[1..]);
      EscapeHtmlChar(s[0]);
      EscapeHtmlPerChar(s[1..]);
    }
  }

  /** The browser's decoding of the three entities `escapeHtml` writes. */
  function UnescapeHtml(s: string): string
    decreases |s|
  {
    if s == [] then []
    else if |s| >= 5 && s[..5] == "&amp;" then "&" + UnescapeHtml(s[5..])
    else if |s| >= 4 && s[..4] == "&lt;" then "<" + UnescapeHtml(s[4..])
    else if |s| >= 4 && s[..4] == "&gt;" then ">" + UnescapeHtml(s[4..])
    else [s[0]] + UnescapeHtml(s[1..])
  }

  lemma {:induction false} UnescapeEach(s: string)
    ensures UnescapeHtml(EscapeEach(s)) == s
  {
    if s != [] {
      var x, t := s[0], s[1..];
      var e := EscapeEach(s);
      assert e == EscapeChar(x) + EscapeEach(t);
      UnescapeEach(t);
      if x == '&' {
        assert e[..5] == "&amp;" && e[5..] == EscapeEach(t);
      } else if x == '<' {
        assert !(|e| >= 5 && e[..5] == "&amp;") by { if |e| >= 5 { assert e[..5][1] == e[1] == 'l'; } }
        assert e[..4] == "&lt;" && e[4..] == EscapeEach(t);
      } else if x == '>' {
        assert !(|e| >= 5 && e[..5] == "&amp;") by { if |e| >= 5 { assert e[..5][1] == e[1] == 'g'; } }
        assert e[..4] != "&lt;" by { assert e[..4][1] == e[1] == 'g'; }
        assert e[..4] == "&gt;" && e[4..] == EscapeEach(t);
      } else {
        assert e[0] == x && e[1..] == EscapeEach(t);
        assert |e| < 5 || e[..5][0] != '&';
        assert |e| < 4 || e[..4][0] != '&';
      }
      assert s == [x] + t;
    }
  }

  /** What `escapeHtml` writes into the page reads back, once the browser
      decodes the entities, as the original text. */
  lemma EscapeRoundTrip(s: string)
    ensures UnescapeHtml(EscapeHtml(s)) == s
  {
    EscapeHtmlPerChar(s);
    UnescapeEach(s);
  }

  /** Escaping yields the empty string exactly for the empty string, which
      is what the `|| 'Untitled'` fallback of a row title tests. */
  lemma EscapeEmpty(s: string)
    ensures EscapeHtml(s) == "" <==> s == ""
  {
    EscapeHtmlPerChar(s);
    if s != [] {
      assert |EscapeChar(s[0])| >= 1;
    }
  }
}
