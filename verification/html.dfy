/**
  Python's `html.escape(s, quote=True)` (the default, and the only form
  blog/build.py uses): `&`, `<`, `>`, `"` and `'` become character
  references, every other character is kept.
 */
module Html {

  /** Characters that may not appear unescaped in text or in a quoted attribute. */
  predicate IsSpecial(c: char) {
    c == '&' || c == '<' || c == '>' || c == '"' || c == '\''
  }

  /**
    Characters that cannot open a tag, close one, or end an attribute value.
    `&` is allowed: after escaping it only starts a character reference.
   */
  predicate IsInert(c: char) {
    c != '<' && c != '>' && c != '"' && c != '\''
  }

  predicate AllInert(s: string) {
    forall k :: 0 <= k < |s| ==> IsInert(s[k])
  }

  function EscapeChar(c: char): (r: string)
    ensures AllInert(r) && |r| > 0
    ensures !IsSpecial(c) <==> r == [c]
  {
    match c
    case '&' => "&amp;"
    case '<' => "&lt;"
    case '>' => "&gt;"
    case '"' => "&quot;"
    case '\'' => "&#x27;"
    case _ => [c]
  }

  /** `html.escape(s)`. */
  function Escape(s: string): (r: string)
    ensures AllInert(r)
    ensures |r| >= |s|
    ensures (forall k :: 0 <= k < |s| ==> !IsSpecial(s[k])) ==> r == s
  {
    if |s| == 0 then ""
    else
      var r := EscapeChar(s[0]) + Escape(s[1..]);
      assert forall k :: |EscapeChar(s[0])| <= k < |r| ==> r[k] == Escape(s[1..])[k - |EscapeChar(s[0])|];
      r
  }

  lemma {:induction false} EscapeAppend(a: string, b: string)
    ensures Escape(a + b) == Escape(a) + Escape(b)
    decreases |a|
  {
    if |a| > 0 {
      assert (a + b)[0] == a[0] && (a + b)[1..] == a[1..] + b;
      EscapeAppend(a[1..], b);
      assert Escape(a + b) == EscapeChar(a[0]) + Escape(a[1..] + b);
    } else {
      assert a + b == b;
    }
  }

  /** The inverse of `Escape`: reads the five references back, one at a time, left to right. */
  function Unescape(s: string): string
    decreases |s|
  {
    if |s| == 0 then ""
    else if s[0] != '&' then [s[0]] + Unescape(s[1..])
    else if |s| >= 5 && s[1] == 'a' && s[2] == 'm' && s[3] == 'p' && s[4] == ';' then "&" + Unescape(s[5..])
    else if |s| >= 4 && s[1] == 'l' && s[2] == 't' && s[3] == ';' then "<" + Unescape(s[4..])
    else if |s| >= 4 && s[1] == 'g' && s[2] == 't' && s[3] == ';' then ">" + Unescape(s[4..])
    else if |s| >= 6 && s[1] == 'q' && s[2] == 'u' && s[3] == 'o' && s[4] == 't' && s[5] == ';' then
      "\"" + Unescape(s[6..])
    else if |s| >= 6 && s[1] == '#' && s[2] == 'x' && s[3] == '2' && s[4] == '7' && s[5] == ';' then
      "'" + Unescape(s[6..])
    else "&" + Unescape(s[1..])
  }

  lemma UnescapeAfterEscapeChar(c: char, rest: string)
    ensures Unescape(EscapeChar(c) + rest) == [c] + Unescape(rest)
  {
    var e := EscapeChar(c);
    var t := e + rest;
    assert t[|e|..] == rest;
    assert forall k :: 0 <= k < |e| ==> t[k] == e[k];
  }

  /** Escaping loses nothing: unescaping the escaped text gives the text back. */
  lemma {:induction false} UnescapeEscape(s: string)
    ensures Unescape(Escape(s)) == s
    decreases |s|
  {
    if |s| > 0 {
      UnescapeAfterEscapeChar(s[0], Escape(s[1..]));
      UnescapeEscape(s[1..]);
      assert s == [s[0]] + s[1..];
    }
  }

  /** Two texts with the same escape are the same text. */
  lemma EscapeInjective(a: string, b: string)
    requires Escape(a) == Escape(b)
    ensures a == b
  {
    UnescapeEscape(a);
    UnescapeEscape(b);
  }

  /** The characters that spell the five references after their `&`. */
  predicate InReference(c: char) {
    c == 'a' || c == 'm' || c == 'p' || c == 'l' || c == 'g' || c == 't' || c == 'q' || c == 'u'
    || c == 'o' || c == '#' || c == 'x' || c == '2' || c == '7' || c == ';'
  }

  /** Escaping introduces no character other than the five specials' replacements. */
  lemma {:induction false} EscapeAvoids(x: string, d: char)
    requires d !in x && !IsSpecial(d) && !InReference(d)
    ensures d !in Escape(x)
    decreases |x|
  {
    if |x| > 0 {
      EscapeAvoids(x[1..], d);
      assert d !in EscapeChar(x[0]);
      assert Escape(x) == EscapeChar(x[0]) + Escape(x[1..]);
    }
  }
}
