/**
  The inline formatter `render_inline` of blog/build.py: links become
  placeholders (their labels rendered recursively), the text is escaped,
  then code spans, bold and italic are substituted, and finally the
  placeholders are replaced by the anchors.

  The passes work on a sequence of segments rather than on a flat string:
  a segment is one character of text, one generated tag, or one link
  placeholder. Every generated tag and placeholder token of the source is a
  run of characters without `*` or a backtick, and the regular expressions
  of the later passes only ever test characters for being `*` or a
  backtick, so treating each of them as one opaque segment changes no match.
  The placeholder segment also encodes the source's assumption that user
  text never contains a `__LINKn__` token of its own.
 */
module Inline {
  import opened Text
  import opened Results
  import Html

  datatype Tag = Code | Strong | Em

  datatype Seg =
    | Char(c: char)
    | Open(tag: Tag)
    | Close(tag: Tag)
    | AnchorOpen(href: string)
    | AnchorClose
    | Placeholder(n: nat)

  function TagName(t: Tag): string {
    match t
    case Code => "code"
    case Strong => "strong"
    case Em => "em"
  }

  /** The opening tag of a link, which opens in a new tab. */
  function AnchorTag(href: string): string {
    "<a href=\"" + href + "\" target=\"_blank\" rel=\"noopener\">"
  }

  /** The characters a segment stands for in the output. */
  function SegText(x: Seg): string {
    match x
    case Char(c) => [c]
    case Open(t) => "<" + TagName(t) + ">"
    case Close(t) => "</" + TagName(t) + ">"
    case AnchorOpen(h) => AnchorTag(h)
    case AnchorClose => "</a>"
    case Placeholder(n) => "__LINK" + NatToString(n) + "__"
  }

  function Flatten(segs: seq<Seg>): string {
    if |segs| == 0 then "" else SegText(segs[0]) + Flatten(segs[1..])
  }

  function Chars(s: string): (r: seq<Seg>)
    ensures |r| == |s| && forall k :: 0 <= k < |s| ==> r[k] == Char(s[k])
  {
    seq(|s|, k requires 0 <= k < |s| => Char(s[k]))
  }

  /** Text and attribute characters are escaped; tags are fixed markup. */
  predicate Inert(x: Seg) {
    match x
    case Char(c) => Html.IsInert(c)
    case AnchorOpen(h) => Html.AllInert(h)
    case _ => true
  }

  predicate Escaped(segs: seq<Seg>) {
    forall k :: 0 <= k < |segs| ==> Inert(segs[k])
  }

  /** Rendered output: everything escaped and no placeholder left. */
  predicate Safe(segs: seq<Seg>) {
    Escaped(segs) && forall k :: 0 <= k < |segs| ==> !segs[k].Placeholder?
  }

  /** Text before escaping: only characters and placeholders. */
  predicate Plain(segs: seq<Seg>) {
    forall k :: 0 <= k < |segs| ==> segs[k].Char? || segs[k].Placeholder?
  }

  // ---------------------------------------------------------------- links

  /** The source text of a link with label `l` and url `u`. */
  function LinkText(l: string, u: string): string {
    "[" + l + "](" + u + ")"
  }

  lemma LinkTextSlices(t: string, i: nat, j: nat, k: nat)
    requires i < j && j + 1 < k < |t|
    requires t[i] == '[' && t[j] == ']' && t[j + 1] == '(' && t[k] == ')'
    ensures t[i..k + 1] == LinkText(t[i + 1..j], t[j + 2..k])
  {
    assert t[i..k + 1] == t[i..i + 1] + t[i + 1..j] + t[j..j + 2] + t[j + 2..k] + t[k..k + 1];
    assert t[i..i + 1] == "[";
    assert t[j..j + 2] == "](";
    assert t[k..k + 1] == ")";
  }

  /** A match of `LINK_RE` = `\[([^\]]+)\]\(([^)]+)\)` starting at `i`. */
  datatype LinkMatch = LinkMatch(text: string, url: string, end: nat)

  function LinkAt(t: string, i: nat): (r: Option<LinkMatch>)
    requires i <= |t|
    ensures r.Some? ==> i < r.value.end <= |t|
    ensures r.Some? ==> t[i..r.value.end] == LinkText(r.value.text, r.value.url)
    ensures r.Some? ==> |r.value.text| > 0 && |r.value.url| > 0
    ensures r.Some? ==> ']' !in r.value.text && ')' !in r.value.url
  {
    if i == |t| || t[i] != '[' then None
    else
      var j := IndexOf(t, ']', i + 1);
      if j == i + 1 || j + 1 >= |t| || t[j + 1] != '(' then None
      else
        var k := IndexOf(t, ')', j + 2);
        if k == j + 2 || k == |t| then None
        else
          LinkTextSlices(t, i, j, k);
          Some(LinkMatch(t[i + 1..j], t[j + 2..k], k + 1))
  }

  /** The text cut into literal characters and link matches. */
  datatype LinkChunk = Lit(c: char) | Link(text: string, url: string)

  /** `LINK_RE.sub` scanning: leftmost match first, resuming after it. */
  function ScanLinks(t: string, i: nat): (r: seq<LinkChunk>)
    requires i <= |t|
    ensures forall k :: 0 <= k < |r| ==> r[k].Link? ==> |r[k].text| < |t|
    ensures forall k :: 0 <= k < |r| ==> r[k].Link? ==> |r[k].text| > 0 && |r[k].url| > 0
    decreases |t| - i
  {
    if i == |t| then []
    else
      match LinkAt(t, i)
      case Some(m) =>
        assert |LinkText(m.text, m.url)| == |m.text| + |m.url| + 4;
        [Link(m.text, m.url)] + ScanLinks(t, m.end)
      case None => [Lit(t[i])] + ScanLinks(t, i + 1)
  }

  /** The source text a chunk sequence was cut from. */
  function LinkSource(cs: seq<LinkChunk>): string {
    if |cs| == 0 then ""
    else
      match cs[0]
      case Lit(c) => [c] + LinkSource(cs[1..])
      case Link(l, u) => LinkText(l, u) + LinkSource(cs[1..])
  }

  /** Cutting into links loses nothing: the chunks spell the text back. */
  lemma {:induction false} ScanLinksSource(t: string, i: nat)
    requires i <= |t|
    ensures LinkSource(ScanLinks(t, i)) == t[i..]
    decreases |t| - i
  {
    if i < |t| {
      match LinkAt(t, i)
      case Some(m) =>
        var rest := ScanLinks(t, m.end);
        calc {
          LinkSource(ScanLinks(t, i));
          { ScanLink(t, i); }
          LinkSource([Link(m.text, m.url)] + rest);
          { LinkSourceLink(m.text, m.url, rest); }
          LinkText(m.text, m.url) + LinkSource(rest);
          { ScanLinksSource(t, m.end); }
          t[i..m.end] + t[m.end..];
          t[i..];
        }
      case None =>
        var rest := ScanLinks(t, i + 1);
        calc {
          LinkSource(ScanLinks(t, i));
          { ScanLit(t, i); }
          LinkSource([Lit(t[i])] + rest);
          { LinkSourceLit(t[i], rest); }
          [t[i]] + LinkSource(rest);
          { ScanLinksSource(t, i + 1); }
          [t[i]] + t[i + 1..];
          t[i..];
        }
    }
  }

  lemma ScanLink(t: string, i: nat)
    requires i < |t| && LinkAt(t, i).Some?
    ensures var m := LinkAt(t, i).value;
      ScanLinks(t, i) == [Link(m.text, m.url)] + ScanLinks(t, m.end)
  {
  }

  lemma ScanLit(t: string, i: nat)
    requires i < |t| && LinkAt(t, i).None?
    ensures ScanLinks(t, i) == [Lit(t[i])] + ScanLinks(t, i + 1)
  {
  }

  lemma LinkSourceLink(l: string, u: string, rest: seq<LinkChunk>)
    ensures LinkSource([Link(l, u)] + rest) == LinkText(l, u) + LinkSource(rest)
  {
    assert ([Link(l, u)] + rest)[1..] == rest;
  }

  lemma LinkSourceLit(c: char, rest: seq<LinkChunk>)
    ensures LinkSource([Lit(c)] + rest) == [c] + LinkSource(rest)
  {
    assert ([Lit(c)] + rest)[1..] == rest;
  }

  function LinkCount(cs: seq<LinkChunk>): nat {
    if |cs| == 0 then 0 else (if cs[0].Link? then 1 else 0) + LinkCount(cs[1..])
  }

  /** `__LINKn__` tokens numbered in order of appearance, from `n`. */
  function WithPlaceholders(cs: seq<LinkChunk>, n: nat): (r: seq<Seg>)
    ensures |r| == |cs|
    ensures Plain(r)
    ensures forall k :: 0 <= k < |r| ==> r[k].Placeholder? ==> n <= r[k].n < n + LinkCount(cs)
  {
    if |cs| == 0 then []
    else
      match cs[0]
      case Lit(c) => [Char(c)] + WithPlaceholders(cs[1..], n)
      case Link(_, _) => [Placeholder(n)] + WithPlaceholders(cs[1..], n + 1)
  }

  /** `<a href="url" target="_blank" rel="noopener">label</a>` with the url attribute-escaped. */
  function Anchor(url: string, caption: seq<Seg>): seq<Seg> {
    [AnchorOpen(Html.Escape(url))] + caption + [AnchorClose]
  }

  // ---------------------------------------------------------------- spans

  /** `INLINE_CODE_RE`, `BOLD_RE` and `ITALIC_RE`. */
  datatype Rule = CodeRule | BoldRule | ItalicRule

  function Delimiter(rule: Rule): Seg {
    if rule == CodeRule then Char('`') else Char('*')
  }

  function Width(rule: Rule): nat {
    if rule == BoldRule then 2 else 1
  }

  function TagOf(rule: Rule): Tag {
    match rule
    case CodeRule => Code
    case BoldRule => Strong
    case ItalicRule => Em
  }

  function FindSeg(s: seq<Seg>, x: Seg, i: nat): (j: nat)
    requires i <= |s|
    ensures i <= j <= |s|
    ensures j < |s| ==> s[j] == x
    decreases |s| - i
  {
    if i == |s| || s[i] == x then i else FindSeg(s, x, i + 1)
  }

  /** `Width(rule)` delimiters starting at `i`. */
  predicate DelimsAt(rule: Rule, s: seq<Seg>, i: nat) {
    && i + Width(rule) <= |s|
    && s[i] == Delimiter(rule)
    && (rule == BoldRule ==> s[i + 1] == Delimiter(rule))
  }

  /**
    End of the content of a match starting at `i`, if one starts there:
    - code: `` `([^`]+)` ``;
    - bold: `\*\*([^*]+)\*\*`;
    - italic: `(?<!\*)\*([^*]+)\*(?!\*)`, whose look-behind and look-ahead
      read the whole string, including characters an earlier match consumed.
    The content is the non-empty run of non-delimiters after the opening
    delimiters, and the closing delimiters follow it directly.
   */
  function ContentEnd(rule: Rule, s: seq<Seg>, i: nat): (r: Option<nat>)
    requires i <= |s|
    ensures r.Some? ==> i + Width(rule) < r.value && r.value + Width(rule) <= |s|
  {
    var d := Delimiter(rule);
    var w := Width(rule);
    if !DelimsAt(rule, s, i) then None
    else if rule == ItalicRule && i > 0 && s[i - 1] == d then None
    else
      var j := FindSeg(s, d, i + w);
      if j == i + w || !DelimsAt(rule, s, j) then None
      else if rule == ItalicRule && j + 1 < |s| && s[j + 1] == d then None
      else Some(j)
  }

  /** The segments cut into kept segments and matched spans (content only). */
  datatype SpanChunk = Keep(seg: Seg) | Span(content: seq<Seg>)

  /** `RULE.sub` scanning: leftmost match first, resuming after it. */
  function ScanSpans(rule: Rule, s: seq<Seg>, i: nat): seq<SpanChunk>
    requires i <= |s|
    decreases |s| - i
  {
    if i == |s| then []
    else
      var e := ContentEnd(rule, s, i);
      if e.None? then [Keep(s[i])] + ScanSpans(rule, s, i + 1)
      else [Span(s[i + Width(rule)..e.value])] + ScanSpans(rule, s, e.value + Width(rule))
  }

  function Delims(rule: Rule): seq<Seg> {
    if rule == BoldRule then [Char('*'), Char('*')] else [Delimiter(rule)]
  }

  /** The segments a chunk sequence was cut from. */
  function SpanSource(rule: Rule, cs: seq<SpanChunk>): seq<Seg> {
    if |cs| == 0 then []
    else
      match cs[0]
      case Keep(x) => [x] + SpanSource(rule, cs[1..])
      case Span(c) => Delims(rule) + c + Delims(rule) + SpanSource(rule, cs[1..])
  }

  lemma DelimsAtSlice(rule: Rule, s: seq<Seg>, i: nat)
    requires DelimsAt(rule, s, i)
    ensures s[i..i + Width(rule)] == Delims(rule)
  {
  }

  /** A match has its delimiters on both sides of the content. */
  lemma ContentEndDelims(rule: Rule, s: seq<Seg>, i: nat, j: nat)
    requires i <= |s| && ContentEnd(rule, s, i) == Some(j)
    ensures DelimsAt(rule, s, i) && DelimsAt(rule, s, j)
  {
  }

  lemma SliceSplit(s: seq<Seg>, a: nat, b: nat, c: nat, d: nat)
    requires a <= b <= c <= d <= |s|
    ensures s[a..] == s[a..b] + s[b..c] + s[c..d] + s[d..]
  {
    var t := s[a..b] + s[b..c] + s[c..d] + s[d..];
    assert |t| == |s[a..]|;
    forall k | 0 <= k < |t|
      ensures t[k] == s[a..][k]
    {
      if k < b - a {
      } else if k < c - a {
      } else if k < d - a {
      } else {
      }
    }
  }

  lemma MatchSlices(rule: Rule, s: seq<Seg>, i: nat, j: nat)
    requires i + Width(rule) < j && DelimsAt(rule, s, i) && DelimsAt(rule, s, j)
    ensures s[i..] == Delims(rule) + s[i + Width(rule)..j] + Delims(rule) + s[j + Width(rule)..]
  {
    var w := Width(rule);
    DelimsAtSlice(rule, s, i);
    DelimsAtSlice(rule, s, j);
    SliceSplit(s, i, i + w, j, j + w);
  }

  lemma ScanSpan(rule: Rule, s: seq<Seg>, i: nat)
    requires i < |s| && ContentEnd(rule, s, i).Some?
    ensures var j := ContentEnd(rule, s, i).value;
      ScanSpans(rule, s, i) == [Span(s[i + Width(rule)..j])] + ScanSpans(rule, s, j + Width(rule))
  {
  }

  lemma SourceSpan(rule: Rule, cs: seq<SpanChunk>, c: seq<Seg>, rest: seq<SpanChunk>, tail: seq<Seg>, whole: seq<Seg>)
    requires cs == [Span(c)] + rest && SpanSource(rule, rest) == tail
    requires whole == Delims(rule) + c + Delims(rule) + tail
    ensures SpanSource(rule, cs) == whole
  {
    assert cs[1..] == rest;
  }

  lemma ScanKeep(rule: Rule, s: seq<Seg>, i: nat)
    requires i < |s| && ContentEnd(rule, s, i).None?
    ensures ScanSpans(rule, s, i) == [Keep(s[i])] + ScanSpans(rule, s, i + 1)
  {
  }

  lemma SourceKeep(rule: Rule, cs: seq<SpanChunk>, x: Seg, rest: seq<SpanChunk>, tail: seq<Seg>, whole: seq<Seg>)
    requires cs == [Keep(x)] + rest && SpanSource(rule, rest) == tail
    requires whole == [x] + tail
    ensures SpanSource(rule, cs) == whole
  {
    assert cs[1..] == rest;
  }

  /** The chunks cut from position `i` on spell the segments from `i` on. */
  predicate SpellsFrom(rule: Rule, s: seq<Seg>, i: nat)
    requires i <= |s|
  {
    SpanSource(rule, ScanSpans(rule, s, i)) == s[i..]
  }

  /** The segments of a match: delimiters, content, delimiters, then the rest. */
  lemma MatchSource(rule: Rule, s: seq<Seg>, i: nat)
    requires i < |s| && ContentEnd(rule, s, i).Some?
    ensures var j := ContentEnd(rule, s, i).value;
      s[i..] == Delims(rule) + s[i + Width(rule)..j] + Delims(rule) + s[j + Width(rule)..]
  {
    var j := ContentEnd(rule, s, i).value;
    ContentEndDelims(rule, s, i, j);
    MatchSlices(rule, s, i, j);
  }

  lemma SpanCaseSource(rule: Rule, s: seq<Seg>, i: nat)
    requires i < |s| && ContentEnd(rule, s, i).Some?
    requires SpellsFrom(rule, s, ContentEnd(rule, s, i).value + Width(rule))
    ensures SpellsFrom(rule, s, i)
  {
    var j := ContentEnd(rule, s, i).value;
    ScanSpan(rule, s, i);
    MatchSource(rule, s, i);
    SourceSpan(rule, ScanSpans(rule, s, i), s[i + Width(rule)..j], ScanSpans(rule, s, j + Width(rule)),
      s[j + Width(rule)..], s[i..]);
  }

  lemma KeepCaseSource(rule: Rule, s: seq<Seg>, i: nat)
    requires i < |s| && ContentEnd(rule, s, i).None?
    requires SpellsFrom(rule, s, i + 1)
    ensures SpellsFrom(rule, s, i)
  {
    ScanKeep(rule, s, i);
    assert s[i..] == [s[i]] + s[i + 1..];
    SourceKeep(rule, ScanSpans(rule, s, i), s[i], ScanSpans(rule, s, i + 1), s[i + 1..], s[i..]);
  }

  /** Cutting into spans loses nothing: the chunks spell the segments back. */
  lemma {:induction false} ScanSpansSource(rule: Rule, s: seq<Seg>, i: nat)
    requires i <= |s|
    ensures SpellsFrom(rule, s, i)
    decreases |s| - i
  {
    if i < |s| {
      if ContentEnd(rule, s, i).Some? {
        ScanSpansSource(rule, s, ContentEnd(rule, s, i).value + Width(rule));
        SpanCaseSource(rule, s, i);
      } else {
        ScanSpansSource(rule, s, i + 1);
        KeepCaseSource(rule, s, i);
      }
    }
  }

  /** A matched span becomes open tag, content, close tag; code content is escaped once more. */
  function RenderSpans(rule: Rule, cs: seq<SpanChunk>): seq<Seg> {
    if |cs| == 0 then []
    else
      match cs[0]
      case Keep(x) => [x] + RenderSpans(rule, cs[1..])
      case Span(c) =>
        var inner := if rule == CodeRule then EscapeSegs(c) else c;
        [Open(TagOf(rule))] + inner + [Close(TagOf(rule))] + RenderSpans(rule, cs[1..])
  }

  function ApplyRule(rule: Rule, s: seq<Seg>): seq<Seg> {
    RenderSpans(rule, ScanSpans(rule, s, 0))
  }

  // ---------------------------------------------------------------- escaping

  /** `html.escape` over the text characters; tags and placeholders contain nothing to escape. */
  function EscapeSegs(s: seq<Seg>): (r: seq<Seg>)
    ensures forall k :: 0 <= k < |r| ==> r[k].Char? ==> Html.IsInert(r[k].c)
    ensures forall k :: 0 <= k < |r| ==> !r[k].Char? ==> r[k] in s
  {
    if |s| == 0 then []
    else
      var head := if s[0].Char? then Chars(Html.EscapeChar(s[0].c)) else [s[0]];
      head + EscapeSegs(s[1..])
  }

  lemma EscapedAppend(a: seq<Seg>, b: seq<Seg>)
    ensures Escaped(a + b) <==> Escaped(a) && Escaped(b)
  {
    if Escaped(a) && Escaped(b) {
      forall k | 0 <= k < |a + b| ensures Inert((a + b)[k]) {
        if k >= |a| { assert (a + b)[k] == b[k - |a|]; }
      }
    }
    if Escaped(a + b) {
      forall k | 0 <= k < |a| ensures Inert(a[k]) {
        assert (a + b)[k] == a[k];
      }
      forall k | 0 <= k < |b| ensures Inert(b[k]) {
        assert (a + b)[k + |a|] == b[k];
      }
    }
  }

  lemma {:induction false} EscapeSegsEscaped(s: seq<Seg>)
    requires Escaped(s)
    ensures Escaped(EscapeSegs(s))
  {
    var r := EscapeSegs(s);
    forall k | 0 <= k < |r| ensures Inert(r[k]) {
      if !r[k].Char? {
        var q :| 0 <= q < |s| && s[q] == r[k];
      }
    }
  }

  /** Every segment of a matched chunk sequence comes from an escaped input. */
  lemma {:induction false} SpanSourceEscaped(rule: Rule, cs: seq<SpanChunk>)
    requires Escaped(SpanSource(rule, cs))
    ensures Escaped(RenderSpans(rule, cs))
    decreases |cs|
  {
    if |cs| > 0 {
      var rest := SpanSource(rule, cs[1..]);
      match cs[0]
      case Keep(x) =>
        EscapedAppend([x], rest);
        SpanSourceEscaped(rule, cs[1..]);
        EscapedAppend([x], RenderSpans(rule, cs[1..]));
      case Span(c) =>
        var d := Delims(rule);
        EscapedAppend(d + c + d, rest);
        EscapedAppend(d + c, d);
        EscapedAppend(d, c);
        SpanSourceEscaped(rule, cs[1..]);
        var inner := if rule == CodeRule then EscapeSegs(c) else c;
        if rule == CodeRule { EscapeSegsEscaped(c); }
        var t := [Open(TagOf(rule))];
        var u := [Close(TagOf(rule))];
        EscapedAppend(t, inner);
        EscapedAppend(t + inner, u);
        EscapedAppend(t + inner + u, RenderSpans(rule, cs[1..]));
    }
  }

  /** A substitution pass keeps the segments escaped. */
  lemma ApplyRuleEscaped(rule: Rule, s: seq<Seg>)
    requires Escaped(s)
    ensures Escaped(ApplyRule(rule, s))
  {
    ScanSpansSource(rule, s, 0);
    assert s[0..] == s;
    SpanSourceEscaped(rule, ScanSpans(rule, s, 0));
  }

  // ---------------------------------------------------------------- pipeline

  /** The code, bold and italic substitutions, in that order, on the escaped text. */
  function Markup(escaped: seq<Seg>): (r: seq<Seg>)
    requires Escaped(escaped)
    ensures Escaped(r)
  {
    var coded := ApplyRule(CodeRule, escaped);
    ApplyRuleEscaped(CodeRule, escaped);
    var bolded := ApplyRule(BoldRule, coded);
    ApplyRuleEscaped(BoldRule, coded);
    ApplyRuleEscaped(ItalicRule, bolded);
    ApplyRule(ItalicRule, bolded)
  }

  /**
    What restoring makes of one segment: placeholder `n` becomes the `n`-th
    anchor; a token with no anchor would stay as its text.
   */
  function RestoreSeg(x: Seg, table: seq<seq<Seg>>): (r: seq<Seg>)
    requires Inert(x)
    requires forall k :: 0 <= k < |table| ==> Safe(table[k])
    ensures Safe(r)
  {
    if !x.Placeholder? then [x]
    else if x.n < |table| then table[x.n]
    else
      var txt := "__LINK" + NatToString(x.n) + "__";
      assert forall k :: 0 <= k < |txt| ==>
        (txt[k] == '_' || txt[k] == 'L' || txt[k] == 'I' || txt[k] == 'N' || txt[k] == 'K' || IsDigit(txt[k]));
      Chars(txt)
  }

  /** `for token, anchor in placeholders.items(): escaped = escaped.replace(token, anchor)`. */
  function Restore(s: seq<Seg>, table: seq<seq<Seg>>): (r: seq<Seg>)
    requires Escaped(s)
    requires forall k :: 0 <= k < |table| ==> Safe(table[k])
    ensures Safe(r)
  {
    if |s| == 0 then []
    else
      var head := RestoreSeg(s[0], table);
      var rest := Restore(s[1..], table);
      EscapedAppend(head, rest);
      head + rest
  }

  /**
    `render_inline(text)` as segments. Every rendered label is itself safe,
    so the result is escaped text and generated tags only.
   */
  function RenderSegs(t: string): (r: seq<Seg>)
    ensures Safe(r)
    decreases |t|, 1
  {
    var cs := ScanLinks(t, 0);
    var table := Anchors(t, cs);
    var escaped := EscapeSegs(WithPlaceholders(cs, 0));
    assert Escaped(escaped);
    Restore(Markup(escaped), table)
  }

  /** The anchors of the links of `cs`, in order; each label rendered by `RenderSegs`. */
  function Anchors(t: string, cs: seq<LinkChunk>): (table: seq<seq<Seg>>)
    requires forall k :: 0 <= k < |cs| ==> cs[k].Link? ==> |cs[k].text| < |t|
    ensures |table| == LinkCount(cs)
    ensures forall k :: 0 <= k < |table| ==> Safe(table[k])
    decreases |t|, 0, |cs|
  {
    if |cs| == 0 then []
    else
      var rest := Anchors(t, cs[1..]);
      match cs[0]
      case Lit(_) => rest
      case Link(l, u) =>
        var a := Anchor(u, RenderSegs(l));
        AnchorSafe(u, RenderSegs(l));
        [a] + rest
  }

  /** An anchor around a safe caption is safe: its url is escaped. */
  lemma AnchorSafe(url: string, caption: seq<Seg>)
    requires Safe(caption)
    ensures Safe(Anchor(url, caption))
  {
    var open := [AnchorOpen(Html.Escape(url))];
    EscapedAppend(open, caption);
    EscapedAppend(open + caption, [AnchorClose]);
    var a := open + caption + [AnchorClose];
    forall k | 0 <= k < |a|
      ensures !a[k].Placeholder?
    {
      if 0 < k < |a| - 1 {
        assert a[k] == caption[k - 1];
      }
    }
  }

  /** `render_inline(text)`. */
  function RenderInline(t: string): string {
    Flatten(RenderSegs(t))
  }
}
