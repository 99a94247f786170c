/**
  Python `str` helpers that the Markdown engine of blog/build.py relies on:
  `str.isspace`, `strip`/`rstrip`, `startswith`, `splitlines`, `"\n".join`
  and decimal rendering of naturals. Strings are `seq<char>` of Unicode
  scalar values, like Python 3 `str`.
 */
module Text {

  /** The characters Python's `str.isspace` accepts (and so `str.strip` removes). */
  predicate IsSpace(c: char) {
    var n := c as int;
    || (9 <= n <= 13)          // \t \n \v \f \r
    || (28 <= n <= 32)         // \x1c .. \x1f, space
    || n == 0x85 || n == 0xA0 || n == 0x1680
    || (0x2000 <= n <= 0x200A)
    || n == 0x2028 || n == 0x2029 || n == 0x202F || n == 0x205F || n == 0x3000
  }

  /** The line boundaries Python's `str.splitlines` breaks on. */
  predicate IsLineBreak(c: char) {
    var n := c as int;
    || (10 <= n <= 13)         // \n \v \f \r
    || (28 <= n <= 30)         // \x1c \x1d \x1e
    || n == 0x85 || n == 0x2028 || n == 0x2029
  }

  lemma LineBreakIsSpace(c: char)
    ensures IsLineBreak(c) ==> IsSpace(c)
  {
  }

  predicate AllSpace(s: string) {
    forall k :: 0 <= k < |s| ==> IsSpace(s[k])
  }

  predicate StartsWith(s: string, prefix: string) {
    |prefix| <= |s| && s[..|prefix|] == prefix
  }

  /** Index of the first `c` at or after `i`, or `|s|`. */
  function IndexOf(s: string, c: char, i: nat): (j: nat)
    requires i <= |s|
    ensures i <= j <= |s|
    ensures j < |s| ==> s[j] == c
    ensures forall k :: i <= k < j ==> s[k] != c
    decreases |s| - i
  {
    if i == |s| || s[i] == c then i else IndexOf(s, c, i + 1)
  }

  lemma IndexOfFound(s: string, c: char, i: nat, j: nat)
    requires i <= j < |s| && s[j] == c
    requires forall k :: i <= k < j ==> s[k] != c
    ensures IndexOf(s, c, i) == j
    decreases j - i
  {
    if i < j {
      IndexOfFound(s, c, i + 1, j);
    }
  }


  /** `s.lstrip()`: the suffix left after dropping leading whitespace. */
  function LStrip(s: string): (r: string)
    ensures |r| <= |s| && r == s[|s| - |r|..]
    ensures AllSpace(s[..|s| - |r|])
    ensures |r| == 0 || !IsSpace(r[0])
  {
    if |s| > 0 && IsSpace(s[0]) then
      var r := LStrip(s[1..]);
      assert s[..|s| - |r|] == [s[0]] + s[1..][..|s| - 1 - |r|];
      r
    else s
  }

  /** `s.rstrip()`: the prefix left after dropping trailing whitespace. */
  function RStrip(s: string): (r: string)
    ensures |r| <= |s| && r == s[..|r|]
    ensures AllSpace(s[|r|..])
    ensures |r| == 0 || !IsSpace(r[|r| - 1])
  {
    if |s| > 0 && IsSpace(s[|s| - 1]) then
      var r := RStrip(s[..|s| - 1]);
      assert s[|r|..] == s[..|s| - 1][|r|..] + [s[|s| - 1]];
      r
    else s
  }

  /** Number of leading whitespace characters `strip` removes. */
  function LeadingSpace(s: string): nat {
    |s| - |LStrip(s)|
  }

  /**
    `s.strip()`: the infix left after dropping whitespace at both ends; only
    whitespace is dropped.
   */
  function Strip(s: string): (r: string)
    ensures LeadingSpace(s) + |r| <= |s|
    ensures r == s[LeadingSpace(s)..LeadingSpace(s) + |r|]
    ensures AllSpace(s[..LeadingSpace(s)]) && AllSpace(s[LeadingSpace(s) + |r|..])
    ensures |r| == 0 || (!IsSpace(r[0]) && !IsSpace(r[|r| - 1]))
  {
    var l := LStrip(s);
    var r := RStrip(l);
    var k := LeadingSpace(s);
    assert s[k..] == l;
    assert s[k..k + |r|] == l[..|r|];
    assert s[k + |r|..] == l[|r|..];
    r
  }

  /** Stripping a string whose last character is not whitespace keeps that character. */
  lemma StripKeepsLastNonSpace(s: string)
    requires |s| > 0 && !IsSpace(s[|s| - 1])
    ensures |Strip(s)| > 0 && Strip(s)[|Strip(s)| - 1] == s[|s| - 1]
  {
    var l := LStrip(s);
    assert |l| > 0;
    assert l[|l| - 1] == s[|s| - 1];
    assert RStrip(l) == l;
  }

  /** Index of the first line boundary at or after `i`, or `|s|`. */
  function NextBreak(s: string, i: nat): (j: nat)
    requires i <= |s|
    ensures i <= j <= |s|
    ensures j < |s| ==> IsLineBreak(s[j])
    ensures forall k :: i <= k < j ==> !IsLineBreak(s[k])
    decreases |s| - i
  {
    if i == |s| || IsLineBreak(s[i]) then i else NextBreak(s, i + 1)
  }

  predicate NoBreak(s: string) {
    forall k :: 0 <= k < |s| ==> !IsLineBreak(s[k])
  }

  /**
    `s.splitlines()`: lines without their terminators; `\r\n` counts as one
    terminator and a final terminator does not start an empty last line.
   */
  function SplitLines(s: string): (lines: seq<string>)
    ensures forall k :: 0 <= k < |lines| ==> NoBreak(lines[k])
    ensures |s| > 0 <==> |lines| > 0
    decreases |s|
  {
    if |s| == 0 then []
    else
      var j := NextBreak(s, 0);
      if j == |s| then [s]
      else
        var next := if s[j] == '\r' && j + 1 < |s| && s[j + 1] == '\n' then j + 2 else j + 1;
        [s[..j]] + SplitLines(s[next..])
  }

  /** What `splitlines` drops after a line: `\r\n`, or any single line boundary. */
  predicate IsTerminator(e: string) {
    e == "\r\n" || (|e| == 1 && IsLineBreak(e[0]))
  }

  /** A first line `a` with its terminator `e` at the front of `s`, as `splitlines` cuts it. */
  predicate FirstLineOf(s: string, a: string, e: string) {
    && NoBreak(a)
    && (IsTerminator(e) || (e == "" && a != "" && |a| == |s|))
    && StartsWith(s, a + e)
    && (e == "\r" ==> !StartsWith(s[|a| + 1..], "\n"))
  }

  /**
    `lines`, each followed by its terminator in `ends`, spell `s` the way
    `splitlines` cuts it: no line holds a boundary, a `\r` is one terminator
    only when no `\n` follows it, and only a last, non-empty line may go
    without a terminator.
   */
  predicate LinesOf(s: string, lines: seq<string>, ends: seq<string>)
    decreases |lines|
  {
    && |lines| == |ends|
    && (|lines| == 0 ==> s == "")
    && (|lines| > 0 ==>
          && FirstLineOf(s, lines[0], ends[0])
          && LinesOf(s[|lines[0]| + |ends[0]|..], lines[1..], ends[1..]))
  }

  /** The terminators `splitlines` drops, one per line; "" after a last line that has none. */
  function LineEnds(s: string): (ends: seq<string>)
    decreases |s|
  {
    if |s| == 0 then []
    else
      var j := NextBreak(s, 0);
      if j == |s| then [""]
      else
        var next := if s[j] == '\r' && j + 1 < |s| && s[j + 1] == '\n' then j + 2 else j + 1;
        [s[j..next]] + LineEnds(s[next..])
  }

  /** The first line and terminator `SplitLines` and `LineEnds` take off a non-empty text. */
  predicate SplitsFirst(s: string, lines: seq<string>, ends: seq<string>) {
    && |lines| > 0 && |ends| > 0
    && |lines[0]| + |ends[0]| <= |s|
    && FirstLineOf(s, lines[0], ends[0])
    && lines[1..] == SplitLines(s[|lines[0]| + |ends[0]|..])
    && ends[1..] == LineEnds(s[|lines[0]| + |ends[0]|..])
  }

  lemma SplitFirstWhole(s: string)
    requires |s| > 0 && NextBreak(s, 0) == |s|
    ensures SplitsFirst(s, SplitLines(s), LineEnds(s))
  {
    assert SplitLines(s) == [s] && LineEnds(s) == [""];
    assert s + "" == s;
    assert s[|s|..] == [];
  }

  /** Where the first line of `s` ends, and where the next one starts. */
  function NextStart(s: string, j: nat): nat
    requires j < |s|
  {
    if s[j] == '\r' && j + 1 < |s| && s[j + 1] == '\n' then j + 2 else j + 1
  }

  lemma SplitUnfold(s: string, j: nat)
    requires j == NextBreak(s, 0) && j < |s|
    ensures SplitLines(s) == [s[..j]] + SplitLines(s[NextStart(s, j)..])
    ensures LineEnds(s) == [s[j..NextStart(s, j)]] + LineEnds(s[NextStart(s, j)..])
  {
  }

  lemma BreakCut(s: string, j: nat)
    requires j == NextBreak(s, 0) && j < |s|
    ensures FirstLineOf(s, s[..j], s[j..NextStart(s, j)])
  {
    var next := NextStart(s, j);
    BreakTerminator(s, j);
    assert s[..j] + s[j..next] == s[..next];
  }

  /** The boundary at `j` and, for `\r\n`, the `\n` after it form one terminator. */
  lemma BreakTerminator(s: string, j: nat)
    requires j < |s| && IsLineBreak(s[j])
    ensures IsTerminator(s[j..NextStart(s, j)])
    ensures s[j..NextStart(s, j)] == "\r" ==> !StartsWith(s[j + 1..], "\n")
  {
    if s[j] == '\r' && j + 1 < |s| && s[j + 1] == '\n' {
      assert s[j..j + 2] == "\r\n";
    } else {
      assert s[j..j + 1] == [s[j]];
    }
  }

  lemma SplitFirstBreak(s: string, j: nat)
    requires j == NextBreak(s, 0) && j < |s|
    ensures SplitsFirst(s, SplitLines(s), LineEnds(s))
  {
    var next := NextStart(s, j);
    SplitUnfold(s, j);
    BreakCut(s, j);
    SplitsFirstCons(s, next, SplitLines(s), LineEnds(s), s[..j], s[j..next]);
  }

  lemma SplitsFirstCons(s: string, next: nat, lines: seq<string>, ends: seq<string>, a: string, e: string)
    requires next == |a| + |e| <= |s|
    requires lines == [a] + SplitLines(s[next..]) && ends == [e] + LineEnds(s[next..])
    requires FirstLineOf(s, a, e)
    ensures SplitsFirst(s, lines, ends)
  {
    assert lines[0] == a && lines[1..] == SplitLines(s[next..]);
    assert ends[0] == e && ends[1..] == LineEnds(s[next..]);
  }

  lemma SplitFirst(s: string)
    requires |s| > 0
    ensures SplitsFirst(s, SplitLines(s), LineEnds(s))
  {
    var j := NextBreak(s, 0);
    if j < |s| {
      SplitFirstBreak(s, j);
    } else {
      SplitFirstWhole(s);
    }
  }

  /** The lines and terminators `splitlines` produces spell the text back. */
  lemma {:induction false} SplitLinesSpell(s: string)
    ensures LinesOf(s, SplitLines(s), LineEnds(s))
    decreases |s|
  {
    if |s| > 0 {
      SplitFirst(s);
      var lines, ends := SplitLines(s), LineEnds(s);
      var rest := s[|lines[0]| + |ends[0]|..];
      SplitLinesSpell(rest);
      assert LinesOf(rest, lines[1..], ends[1..]);
    }
  }

  /** What a cut at the front of `s` says about the characters of `s`. */
  lemma FirstLineFacts(s: string, a: string, e: string)
    requires FirstLineOf(s, a, e)
    ensures |a| + |e| <= |s| && a == s[..|a|]
    ensures forall k :: 0 <= k < |a| ==> !IsLineBreak(s[k])
    ensures |a| < |s| ==> IsLineBreak(s[|a|])
    ensures |e| == 0 <==> |a| == |s|
    ensures |e| <= 2 && (|e| > 0 ==> e[0] == s[|a|])
    ensures |e| == 2 ==> e == "\r\n" && s[|a| + 1] == '\n'
    ensures |a| + 1 < |s| && s[|a|] == '\r' && s[|a| + 1] == '\n' ==> e == "\r\n"
  {
    assert s[..|a + e|] == a + e;
    if |a| + 1 < |s| && s[|a|] == '\r' && s[|a| + 1] == '\n' {
      assert s[|a| + 1..][..1] == "\n";
    }
  }

  /** Two cuts of the same text agree on the first line. */
  lemma FirstLineUnique(s: string, a1: string, e1: string, a2: string, e2: string)
    requires FirstLineOf(s, a1, e1) && FirstLineOf(s, a2, e2)
    ensures a1 == a2
  {
    FirstLineFacts(s, a1, e1);
    FirstLineFacts(s, a2, e2);
    assert !(|a1| < |a2|);
    assert !(|a2| < |a1|);
  }

  /** ... and then on its terminator. */
  lemma TerminatorUnique(s: string, a: string, e1: string, e2: string)
    requires FirstLineOf(s, a, e1) && FirstLineOf(s, a, e2)
    ensures e1 == e2
  {
    FirstLineFacts(s, a, e1);
    FirstLineFacts(s, a, e2);
    assert |e1| == |e2|;
  }

  /** There is only one way to cut a text into lines as `splitlines` does. */
  lemma {:induction false} LinesOfUnique(s: string, l1: seq<string>, e1: seq<string>, l2: seq<string>, e2: seq<string>)
    requires LinesOf(s, l1, e1) && LinesOf(s, l2, e2)
    ensures l1 == l2 && e1 == e2
    decreases |l1|
  {
    if |l1| > 0 && |l2| > 0 {
      FirstLineUnique(s, l1[0], e1[0], l2[0], e2[0]);
      TerminatorUnique(s, l1[0], e1[0], e2[0]);
      var rest := s[|l1[0]| + |e1[0]|..];
      LinesOfUnique(rest, l1[1..], e1[1..], l2[1..], e2[1..]);
      assert l1 == [l1[0]] + l1[1..] && l2 == [l2[0]] + l2[1..];
      assert e1 == [e1[0]] + e1[1..] && e2 == [e2[0]] + e2[1..];
    }
  }

  /**
    `splitlines` characterised: `lines` is `SplitLines(s)` exactly when some
    terminators interleaved with `lines` spell `s` as `LinesOf` describes.
   */
  lemma SplitLinesIff(s: string, lines: seq<string>)
    ensures lines == SplitLines(s) <==> exists ends :: LinesOf(s, lines, ends)
  {
    SplitLinesSpell(s);
    if lines == SplitLines(s) {
      var ends := LineEnds(s);
      assert LinesOf(s, lines, ends);
      assert exists e :: LinesOf(s, lines, e);
    } else {
      forall ends | LinesOf(s, lines, ends) ensures false {
        LinesOfUnique(s, lines, ends, SplitLines(s), LineEnds(s));
      }
    }
  }

  /** The first line of a text that starts with a non-space character is that text's first row, never empty. */
  lemma FirstLineNonEmpty(s: string)
    requires |s| > 0 && !IsSpace(s[0])
    ensures |SplitLines(s)| > 0 && |SplitLines(s)[0]| > 0
  {
    LineBreakIsSpace(s[0]);
  }

  /** `sep.join(parts)`. */
  function Join(parts: seq<string>, sep: string): string {
    if |parts| == 0 then ""
    else if |parts| == 1 then parts[0]
    else parts[0] + sep + Join(parts[1..], sep)
  }

  /** A `\n` ends the first line; the remaining lines come from what follows it. */
  lemma SplitAtNewline(s: string, j: nat)
    requires j == NextBreak(s, 0) && j < |s| && s[j] == '\n'
    ensures SplitLines(s) == [s[..j]] + SplitLines(s[j + 1..])
  {
  }

  lemma CutAt(s: string, j: nat)
    requires j < |s| && s[j] == '\n'
    ensures s == s[..j] + "\n" + s[j + 1..]
  {
  }

  lemma JoinCons(first: string, rest: seq<string>, sep: string)
    requires |rest| > 0
    ensures Join([first] + rest, sep) == first + sep + Join(rest, sep)
  {
    assert ([first] + rest)[1..] == rest;
  }

  /**
    Splitting and re-joining with `\n` gives the text back when `\n` is its
    only line boundary and it does not end with one.
   */
  lemma {:induction false} JoinSplitLines(s: string)
    requires forall k :: 0 <= k < |s| ==> IsLineBreak(s[k]) ==> s[k] == '\n'
    requires |s| == 0 || s[|s| - 1] != '\n'
    ensures Join(SplitLines(s), "\n") == s
    decreases |s|
  {
    if |s| > 0 {
      var j := NextBreak(s, 0);
      if j < |s| {
        var rest := s[j + 1..];
        assert |rest| > 0 by { assert s[j] == '\n'; }
        assert forall k :: 0 <= k < |rest| ==> rest[k] == s[j + 1 + k];
        JoinSplitLines(rest);
        SplitAtNewline(s, j);
        JoinCons(s[..j], SplitLines(rest), "\n");
        CutAt(s, j);
      }
    }
  }

  function DigitChar(d: nat): (c: char)
    requires d < 10
    ensures IsDigit(c) && DigitValue(c) == d
  {
    ('0' as int + d) as char
  }

  function DigitValue(c: char): nat {
    if '0' <= c <= '9' then (c as int - '0' as int) as nat else 0
  }

  predicate IsDigit(c: char) {
    '0' <= c <= '9'
  }

  /** Value of a string of decimal digits. */
  function DecimalValue(s: string): nat {
    if |s| == 0 then 0 else 10 * DecimalValue(s[..|s| - 1]) + DigitValue(s[|s| - 1])
  }

  /** `str(n)`: decimal digits without leading zeros. */
  function NatToString(n: nat): (r: string)
    ensures |r| > 0 && (forall k :: 0 <= k < |r| ==> IsDigit(r[k]))
    ensures DecimalValue(r) == n
    ensures |r| > 1 ==> r[0] != '0'
  {
    if n < 10 then [DigitChar(n)]
    else
      var p := NatToString(n / 10);
      var r := p + [DigitChar(n % 10)];
      assert r[..|r| - 1] == p;
      r
  }

  /** `n` rendered with at least `width` digits, left-padded with zeros. */
  function PadNat(n: nat, width: nat): (r: string)
    ensures |r| >= width && (forall k :: 0 <= k < |r| ==> IsDigit(r[k]))
    ensures DecimalValue(r) == n
  {
    var d := NatToString(n);
    if |d| >= width then d else ZeroPrefix(width - |d|, d)
  }

  function ZeroPrefix(count: nat, s: string): (r: string)
    requires forall k :: 0 <= k < |s| ==> IsDigit(s[k])
    ensures |r| == count + |s| && (forall k :: 0 <= k < |r| ==> IsDigit(r[k]))
    ensures DecimalValue(r) == DecimalValue(s)
    decreases count
  {
    if count == 0 then s
    else
      var r := ZeroPrefix(count - 1, s);
      LeadingZero(r);
      ['0'] + r
  }

  lemma {:induction false} LeadingZero(s: string)
    ensures DecimalValue(['0'] + s) == DecimalValue(s)
    decreases |s|
  {
    if |s| > 0 {
      var t := ['0'] + s;
      assert t[..|t| - 1] == ['0'] + s[..|s| - 1];
      LeadingZero(s[..|s| - 1]);
    }
  }
}
