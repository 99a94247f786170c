/**
  What `render_inline` does to particular shapes of input: plain text is
  only escaped, emphasis and code spans wrap their content, an unmatched `*`
  stays literal, links with an empty part stay literal, and a link inside
  bold ends up whole inside `<strong>`.
 */
module InlineFacts {
  import opened Text
  import opened Results
  import Html
  import opened Inline

  // ---------------------------------------------------------------- helpers

  /** The first element and the rest of a concatenation with a non-empty left part. */
  lemma TailAppend<T>(a: seq<T>, b: seq<T>)
    requires |a| > 0
    ensures (a + b)[0] == a[0] && (a + b)[1..] == a[1..] + b
  {
  }

  lemma ConcatAssoc<T>(x: seq<T>, y: seq<T>, z: seq<T>)
    ensures x + (y + z) == (x + y) + z
  {
  }

  lemma {:induction false} FlattenAppend(a: seq<Seg>, b: seq<Seg>)
    ensures Flatten(a + b) == Flatten(a) + Flatten(b)
    decreases |a|
  {
    if |a| > 0 {
      TailAppend(a, b);
      FlattenAppend(a[1..], b);
      ConcatAssoc(SegText(a[0]), Flatten(a[1..]), Flatten(b));
    } else {
      assert a + b == b;
    }
  }

  lemma {:induction false} FlattenChars(x: string)
    ensures Flatten(Chars(x)) == x
    decreases |x|
  {
    if |x| > 0 {
      assert Chars(x)[1..] == Chars(x[1..]);
      FlattenChars(x[1..]);
    }
  }

  lemma CharsAppend(a: string, b: string)
    ensures Chars(a + b) == Chars(a) + Chars(b)
  {
  }

  /** What `EscapeSegs` makes of one segment. */
  function EscapeHead(x: Seg): seq<Seg> {
    if x.Char? then Chars(Html.EscapeChar(x.c)) else [x]
  }

  lemma EscapeSegsCons(s: seq<Seg>)
    requires |s| > 0
    ensures EscapeSegs(s) == EscapeHead(s[0]) + EscapeSegs(s[1..])
  {
  }

  lemma {:induction false} EscapeSegsAppend(a: seq<Seg>, b: seq<Seg>)
    ensures EscapeSegs(a + b) == EscapeSegs(a) + EscapeSegs(b)
    decreases |a|
  {
    if |a| > 0 {
      TailAppend(a, b);
      EscapeSegsCons(a);
      EscapeSegsCons(a + b);
      EscapeSegsAppend(a[1..], b);
      ConcatAssoc(EscapeHead(a[0]), EscapeSegs(a[1..]), EscapeSegs(b));
    } else {
      assert a + b == b;
    }
  }

  lemma {:induction false} EscapeSegsChars(x: string)
    ensures EscapeSegs(Chars(x)) == Chars(Html.Escape(x))
    decreases |x|
  {
    if |x| > 0 {
      assert Chars(x)[1..] == Chars(x[1..]);
      EscapeSegsChars(x[1..]);
      CharsAppend(Html.EscapeChar(x[0]), Html.Escape(x[1..]));
    }
  }

  /** No position of `t` starts a `LINK_RE` match. */
  predicate NoLinks(t: string) {
    forall i :: 0 <= i <= |t| ==> LinkAt(t, i).None?
  }

  lemma NoBracketNoLinks(t: string)
    requires '[' !in t
    ensures NoLinks(t)
  {
  }

  lemma {:induction false} ScanNoLinks(t: string, i: nat, n: nat)
    requires i <= |t| && NoLinks(t)
    ensures WithPlaceholders(ScanLinks(t, i), n) == Chars(t[i..])
    ensures LinkCount(ScanLinks(t, i)) == 0
    decreases |t| - i
  {
    if i < |t| {
      ScanNoLinks(t, i + 1, n);
      assert ScanLinks(t, i)[1..] == ScanLinks(t, i + 1);
      assert Chars(t[i..]) == [Char(t[i])] + Chars(t[i + 1..]);
    }
  }

  lemma RenderKeep(rule: Rule, cs: seq<SpanChunk>, x: Seg, rest: seq<SpanChunk>, tail: seq<Seg>, whole: seq<Seg>)
    requires cs == [Keep(x)] + rest && RenderSpans(rule, rest) == tail
    requires whole == [x] + tail
    ensures RenderSpans(rule, cs) == whole
  {
    assert cs[1..] == rest;
  }

  /** The pass renders the segments from position `i` on as they are. */
  predicate KeptFrom(rule: Rule, s: seq<Seg>, i: nat)
    requires i <= |s|
  {
    RenderSpans(rule, ScanSpans(rule, s, i)) == s[i..]
  }

  lemma KeepCaseKept(rule: Rule, s: seq<Seg>, i: nat)
    requires i < |s| && ContentEnd(rule, s, i).None?
    requires KeptFrom(rule, s, i + 1)
    ensures KeptFrom(rule, s, i)
  {
    ScanKeep(rule, s, i);
    assert s[i..] == [s[i]] + s[i + 1..];
    RenderKeep(rule, ScanSpans(rule, s, i), s[i], ScanSpans(rule, s, i + 1), s[i + 1..], s[i..]);
  }

  /** A pass leaves segments where no match can open unchanged. */
  lemma {:induction false} NoOpenKeeps(rule: Rule, s: seq<Seg>, i: nat)
    requires i <= |s|
    requires forall k :: i <= k < |s| ==> ContentEnd(rule, s, k).None?
    ensures KeptFrom(rule, s, i)
    decreases |s| - i
  {
    if i < |s| {
      NoOpenKeeps(rule, s, i + 1);
      KeepCaseKept(rule, s, i);
    }
  }

  /** A pass leaves segments without its delimiter unchanged. */
  lemma NoDelimIdentity(rule: Rule, s: seq<Seg>)
    requires Delimiter(rule) !in s
    ensures ApplyRule(rule, s) == s
  {
    forall k | 0 <= k < |s|
      ensures ContentEnd(rule, s, k).None?
    {
      assert s[k] != Delimiter(rule);
    }
    NoOpenKeeps(rule, s, 0);
    assert s[0..] == s;
  }

  lemma {:induction false} RestoreNoPlaceholders(s: seq<Seg>, table: seq<seq<Seg>>)
    requires Escaped(s) && forall k :: 0 <= k < |table| ==> Safe(table[k])
    requires forall k :: 0 <= k < |s| ==> !s[k].Placeholder?
    ensures Restore(s, table) == s
    decreases |s|
  {
    if |s| > 0 {
      RestoreNoPlaceholders(s[1..], table);
    }
  }

  lemma FindSegFound(s: seq<Seg>, x: Seg, i: nat, j: nat)
    requires i <= j < |s| && s[j] == x
    requires forall k :: i <= k < j ==> s[k] != x
    ensures FindSeg(s, x, i) == j
    decreases j - i
  {
    if i < j {
      FindSegFound(s, x, i + 1, j);
    }
  }

  /** Everything `FindSeg` steps over differs from what it looks for. */
  lemma {:induction false} FindSegSkips(s: seq<Seg>, x: Seg, i: nat)
    requires i <= |s|
    ensures forall k :: i <= k < FindSeg(s, x, i) ==> s[k] != x
    decreases |s| - i
  {
    if i < |s| && s[i] != x {
      FindSegSkips(s, x, i + 1);
    }
  }

  /**
    A match of `INLINE_CODE_RE`, `BOLD_RE` or `ITALIC_RE` at `i` whose content
    ends at `j`, read off the patterns: the opening delimiter, a non-empty run
    free of the delimiter character, the closing delimiter, and for italic no
    `*` directly before the opening star or after the closing one.
   */
  predicate RuleMatch(rule: Rule, s: seq<Seg>, i: nat, j: nat) {
    var d := Delimiter(rule);
    var w := Width(rule);
    && i + w < j && j + w <= |s|
    && s[i] == d && s[i + w - 1] == d
    && (forall k :: i + w <= k < j ==> s[k] != d)
    && s[j] == d && s[j + w - 1] == d
    && (rule == ItalicRule ==> (i == 0 || s[i - 1] != d) && (j + 1 == |s| || s[j + 1] != d))
  }

  lemma ContentEndMatches(rule: Rule, s: seq<Seg>, i: nat)
    requires i <= |s| && ContentEnd(rule, s, i).Some?
    ensures RuleMatch(rule, s, i, ContentEnd(rule, s, i).value)
  {
    FindSegSkips(s, Delimiter(rule), i + Width(rule));
  }

  lemma MatchContentEnd(rule: Rule, s: seq<Seg>, i: nat, j: nat)
    requires RuleMatch(rule, s, i, j)
    ensures ContentEnd(rule, s, i) == Some(j)
  {
    FindSegFound(s, Delimiter(rule), i + Width(rule), j);
  }

  /** `ContentEnd` finds exactly the matches the patterns describe. */
  lemma ContentEndIff(rule: Rule, s: seq<Seg>, i: nat, j: nat)
    requires i <= |s|
    ensures ContentEnd(rule, s, i) == Some(j) <==> RuleMatch(rule, s, i, j)
  {
    if ContentEnd(rule, s, i) == Some(j) {
      ContentEndMatches(rule, s, i);
    }
    if RuleMatch(rule, s, i, j) {
      MatchContentEnd(rule, s, i, j);
    }
  }

  lemma ScanSingleSpan(rule: Rule, c: seq<Seg>)
    requires |c| > 0 && Delimiter(rule) !in c
    ensures ScanSpans(rule, Delims(rule) + c + Delims(rule), 0) == [Span(c)]
  {
    var d := Delims(rule);
    var w := Width(rule);
    var s := d + c + d;
    assert |d| == w;
    assert DelimsAt(rule, s, 0);
    FindSegFound(s, Delimiter(rule), w, w + |c|);
    assert DelimsAt(rule, s, w + |c|);
    assert ContentEnd(rule, s, 0) == Some(w + |c|);
    assert s[w..w + |c|] == c;
    assert ScanSpans(rule, s, |s|) == [];
  }

  /** One delimited span and nothing else is rendered as one tagged element. */
  lemma SingleSpan(rule: Rule, c: seq<Seg>)
    requires |c| > 0 && Delimiter(rule) !in c
    ensures ApplyRule(rule, Delims(rule) + c + Delims(rule))
      == [Open(TagOf(rule))] + (if rule == CodeRule then EscapeSegs(c) else c) + [Close(TagOf(rule))]
  {
    ScanSingleSpan(rule, c);
    RenderOneSpan(rule, c);
  }

  lemma RenderOneSpan(rule: Rule, c: seq<Seg>)
    ensures RenderSpans(rule, [Span(c)])
      == [Open(TagOf(rule))] + (if rule == CodeRule then EscapeSegs(c) else c) + [Close(TagOf(rule))]
  {
    var cs := [Span(c)];
    assert cs[1..] == [];
    var inner := if rule == CodeRule then EscapeSegs(c) else c;
    assert RenderSpans(rule, cs) == [Open(TagOf(rule))] + inner + [Close(TagOf(rule))] + RenderSpans(rule, []);
  }

  lemma NoDelimInChars(x: string, d: char)
    requires d !in x
    ensures Char(d) !in Chars(x)
  {
  }

  /** Chars of escaped text are escaped segments. */
  lemma CharsEscaped(x: string)
    ensures Escaped(Chars(Html.Escape(x)))
  {
  }

  /** `render_inline` unfolded into its stages. */
  lemma RenderStages(t: string)
    ensures Escaped(EscapeSegs(WithPlaceholders(ScanLinks(t, 0), 0)))
      && RenderSegs(t) == Restore(Markup(EscapeSegs(WithPlaceholders(ScanLinks(t, 0), 0))), Anchors(t, ScanLinks(t, 0)))
  {
  }

  /** Without links, the text is escaped character by character and no anchor is made. */
  lemma NoLinkStages(t: string)
    requires NoLinks(t)
    ensures EscapeSegs(WithPlaceholders(ScanLinks(t, 0), 0)) == Chars(Html.Escape(t))
    ensures Anchors(t, ScanLinks(t, 0)) == []
  {
    ScanNoLinks(t, 0, 0);
    assert t[0..] == t;
    EscapeSegsChars(t);
  }

  /** Without links, rendering is the markup passes on the escaped characters. */
  lemma NoLinkRender(t: string)
    requires NoLinks(t)
    ensures Escaped(Chars(Html.Escape(t)))
      && RenderSegs(t) == Restore(Markup(Chars(Html.Escape(t))), [])
  {
    RenderStages(t);
    NoLinkStages(t);
  }

  /** Content free of both delimiters. */
  predicate Undelimited(c: seq<Seg>) {
    Char('*') !in c && Char('`') !in c
  }

  /** The markup passes on text holding none of their delimiters change nothing. */
  lemma MarkupPlain(s: seq<Seg>)
    requires Escaped(s)
    requires Undelimited(s)
    ensures Markup(s) == s
  {
    NoDelimIdentity(CodeRule, s);
    NoDelimIdentity(BoldRule, s);
    NoDelimIdentity(ItalicRule, s);
  }

  lemma MarkupSteps(s: seq<Seg>)
    requires Escaped(s)
    ensures Markup(s) == ApplyRule(ItalicRule, ApplyRule(BoldRule, ApplyRule(CodeRule, s)))
  {
  }

  /** The text of a tagged run of characters. */
  lemma FlattenWrap(tag: Tag, x: string)
    ensures Flatten([Open(tag)] + Chars(x) + [Close(tag)])
      == "<" + TagName(tag) + ">" + x + "</" + TagName(tag) + ">"
  {
    FlattenAppend([Open(tag)] + Chars(x), [Close(tag)]);
    FlattenAppend([Open(tag)], Chars(x));
    FlattenChars(x);
    assert Flatten([Close(tag)]) == SegText(Close(tag)) + Flatten([]);
    assert Flatten([Open(tag)]) == SegText(Open(tag)) + Flatten([]);
  }

  /** Escaping text wrapped in two non-special delimiter strings. */
  lemma EscapeWrapped(d: string, x: string)
    requires forall k :: 0 <= k < |d| ==> !Html.IsSpecial(d[k])
    ensures Html.Escape(d + x + d) == d + Html.Escape(x) + d
  {
    Html.EscapeAppend(d + x, d);
    Html.EscapeAppend(d, x);
  }

  // ---------------------------------------------------------------- shapes

  /** The markup and restore passes leave escaped plain text alone. */
  lemma PlainMarkup(t: string)
    requires '`' !in t && '*' !in t
    ensures Escaped(Chars(Html.Escape(t)))
    ensures Restore(Markup(Chars(Html.Escape(t))), []) == Chars(Html.Escape(t))
  {
    UndelimitedContent(t);
    CharsEscaped(t);
    PlainSegsFixed(Chars(Html.Escape(t)));
  }

  /** Characters free of both delimiters pass the markup and restore passes unchanged. */
  lemma PlainSegsFixed(c: seq<Seg>)
    requires Escaped(c) && Undelimited(c)
    requires forall k :: 0 <= k < |c| ==> c[k].Char?
    ensures Restore(Markup(c), []) == c
  {
    MarkupPlain(c);
    RestoreNoPlaceholders(c, []);
  }

  /** Text with no link, backtick or asterisk is only HTML-escaped. */
  lemma PlainTextSegs(t: string)
    requires NoLinks(t) && '`' !in t && '*' !in t
    ensures RenderSegs(t) == Chars(Html.Escape(t))
  {
    PlainMarkup(t);
    NoLinkRender(t);
  }

  lemma PlainTextIsEscaped(t: string)
    requires NoLinks(t) && '`' !in t && '*' !in t
    ensures RenderInline(t) == Html.Escape(t)
  {
    PlainTextSegs(t);
    FlattenChars(Html.Escape(t));
  }

  /** The delimiter of a rule as source text. */
  function DelimText(rule: Rule): (d: string)
    ensures Chars(d) == Delims(rule)
    ensures forall k :: 0 <= k < |d| ==> !Html.IsSpecial(d[k]) && d[k] != '['
  {
    match rule
    case CodeRule => "`"
    case BoldRule => "**"
    case ItalicRule => "*"
  }

  /** A delimited text with no link: its escaped characters are the delimiters around the escaped content. */
  lemma WrappedStages(rule: Rule, x: string, t: string)
    requires '[' !in x && t == DelimText(rule) + x + DelimText(rule)
    ensures NoLinks(t)
    ensures Chars(Html.Escape(t)) == Delims(rule) + Chars(Html.Escape(x)) + Delims(rule)
  {
    var d := DelimText(rule);
    assert '[' !in t by {
      assert forall k :: 0 <= k < |t| ==> t[k] in d || t[k] in x;
    }
    NoBracketNoLinks(t);
    EscapeWrapped(d, x);
    var e := Html.Escape(x);
    CharsAppend(d + e, d);
    CharsAppend(d, e);
  }


  lemma EscapedWrap(d: seq<Seg>, c: seq<Seg>)
    requires Escaped(d) && Escaped(c)
    ensures Escaped(d + c + d)
  {
    EscapedAppend(d, c);
    EscapedAppend(d + c, d);
  }

  lemma UndelimitedIdentity(rule: Rule, s: seq<Seg>)
    requires Undelimited(s)
    ensures ApplyRule(rule, s) == s
  {
    NoDelimIdentity(rule, s);
  }

  lemma UndelimitedWrap(tag: Tag, c: seq<Seg>)
    requires Undelimited(c)
    ensures Undelimited([Open(tag)] + c + [Close(tag)])
  {
  }

  /** Escaping a string without `*` and backticks introduces neither. */
  lemma UndelimitedContent(x: string)
    requires '*' !in x && '`' !in x
    ensures Undelimited(Chars(Html.Escape(x)))
  {
    var e := Html.Escape(x);
    Html.EscapeAvoids(x, '`');
    Html.EscapeAvoids(x, '*');
    NoDelimInChars(e, '`');
    NoDelimInChars(e, '*');
  }

  lemma BoldMarkup(c: seq<Seg>)
    requires |c| > 0 && Escaped(c) && Undelimited(c)
    ensures var s := Delims(BoldRule) + c + Delims(BoldRule);
      Escaped(s) && Markup(s) == [Open(Strong)] + c + [Close(Strong)]
  {
    var s := Delims(BoldRule) + c + Delims(BoldRule);
    EscapedWrap(Delims(BoldRule), c);
    NoDelimIdentity(CodeRule, s);
    SingleSpan(BoldRule, c);
    UndelimitedWrap(Strong, c);
    UndelimitedIdentity(ItalicRule, [Open(Strong)] + c + [Close(Strong)]);
    MarkupSteps(s);
  }

  lemma ItalicMarkup(c: seq<Seg>)
    requires |c| > 0 && Escaped(c) && Undelimited(c)
    ensures var s := Delims(ItalicRule) + c + Delims(ItalicRule);
      Escaped(s) && Markup(s) == [Open(Em)] + c + [Close(Em)]
  {
    var s := Delims(ItalicRule) + c + Delims(ItalicRule);
    EscapedWrap(Delims(ItalicRule), c);
    NoDelimIdentity(CodeRule, s);
    forall k | 0 <= k < |s|
      ensures ContentEnd(BoldRule, s, k).None?
    {
      if k + 1 < |s| {
        if k == 0 {
          assert s[1] == c[0];
        } else {
          assert s[k] == c[k - 1];
        }
      }
    }
    NoOpenKeeps(BoldRule, s, 0);
    assert s[0..] == s;
    SingleSpan(ItalicRule, c);
    MarkupSteps(s);
  }

  lemma CodeMarkup(c: seq<Seg>)
    requires |c| > 0 && Escaped(c) && Undelimited(c)
    requires Undelimited(EscapeSegs(c))
    ensures var s := Delims(CodeRule) + c + Delims(CodeRule);
      Escaped(s) && Markup(s) == [Open(Code)] + EscapeSegs(c) + [Close(Code)]
  {
    var s := Delims(CodeRule) + c + Delims(CodeRule);
    EscapedWrap(Delims(CodeRule), c);
    SingleSpan(CodeRule, c);
    var m := [Open(Code)] + EscapeSegs(c) + [Close(Code)];
    UndelimitedWrap(Code, EscapeSegs(c));
    UndelimitedIdentity(BoldRule, m);
    UndelimitedIdentity(ItalicRule, m);
    MarkupSteps(s);
  }

  /** A star that nothing closes stays a character through every pass. */
  lemma LoneStarMarkup(c: seq<Seg>)
    requires Escaped(c) && Undelimited(c)
    ensures var s := [Char('*')] + c;
      Escaped(s) && Markup(s) == s
  {
    var s := [Char('*')] + c;
    EscapedAppend([Char('*')], c);
    NoDelimIdentity(CodeRule, s);
    forall k | 0 <= k < |s|
      ensures ContentEnd(BoldRule, s, k).None? && ContentEnd(ItalicRule, s, k).None?
    {
      if k + 1 < |s| {
        assert s[k + 1] == c[k];
      }
      if k > 0 {
        assert s[k] == c[k - 1];
      } else {
        assert FindSeg(s, Char('*'), 1) == |s|;
      }
    }
    NoOpenKeeps(BoldRule, s, 0);
    NoOpenKeeps(ItalicRule, s, 0);
    assert s[0..] == s;
    MarkupSteps(s);
  }

  /** A delimited text with no link renders as the markup of its escaped characters. */
  lemma WrappedRender(rule: Rule, x: string, t: string)
    requires '*' !in x && '`' !in x && '[' !in x
    requires t == DelimText(rule) + x + DelimText(rule)
    ensures var s := Delims(rule) + Chars(Html.Escape(x)) + Delims(rule);
      Escaped(s) && RenderSegs(t) == Restore(Markup(s), [])
  {
    WrappedStages(rule, x, t);
    NoLinkRender(t);
  }

  lemma BoldSegs(x: string, t: string)
    requires |x| > 0 && '*' !in x && '`' !in x && '[' !in x
    requires t == "**" + x + "**"
    ensures RenderSegs(t) == [Open(Strong)] + Chars(Html.Escape(x)) + [Close(Strong)]
  {
    var c := Chars(Html.Escape(x));
    CharsEscaped(x);
    UndelimitedContent(x);
    BoldMarkup(c);
    RestoreWrapped(Strong, Html.Escape(x));
    WrappedRender(BoldRule, x, t);
  }

  lemma ItalicSegs(x: string, t: string)
    requires |x| > 0 && '*' !in x && '`' !in x && '[' !in x
    requires t == "*" + x + "*"
    ensures RenderSegs(t) == [Open(Em)] + Chars(Html.Escape(x)) + [Close(Em)]
  {
    var c := Chars(Html.Escape(x));
    CharsEscaped(x);
    UndelimitedContent(x);
    ItalicMarkup(c);
    RestoreWrapped(Em, Html.Escape(x));
    WrappedRender(ItalicRule, x, t);
  }

  /** Escaping the content once more in the code pass introduces no delimiter either. */
  lemma CodeContent(e: string)
    requires '*' !in e && '`' !in e
    ensures Undelimited(EscapeSegs(Chars(e)))
  {
    EscapeSegsChars(e);
    UndelimitedContent(e);
  }

  /** The markup passes on a code span: its content is escaped a second time. */
  lemma CodeSpanMarkup(x: string, e: string)
    requires |x| > 0 && '*' !in x && '`' !in x
    requires e == Html.Escape(x)
    ensures var s := Delims(CodeRule) + Chars(e) + Delims(CodeRule);
      Escaped(s) && Markup(s) == [Open(Code)] + Chars(Html.Escape(e)) + [Close(Code)]
  {
    assert '*' !in e && '`' !in e by {
      Html.EscapeAvoids(x, '`');
      Html.EscapeAvoids(x, '*');
    }
    assert Escaped(Chars(e)) by { CharsEscaped(x); }
    assert Undelimited(Chars(e)) by { UndelimitedContent(x); }
    CodeSpanText(e);
  }

  /** The same, for the already escaped content `e`. */
  lemma CodeSpanText(e: string)
    requires |e| > 0 && '*' !in e && '`' !in e
    requires Escaped(Chars(e)) && Undelimited(Chars(e))
    ensures var s := Delims(CodeRule) + Chars(e) + Delims(CodeRule);
      Escaped(s) && Markup(s) == [Open(Code)] + Chars(Html.Escape(e)) + [Close(Code)]
  {
    CodeContent(e);
    EscapeSegsChars(e);
    CodeMarkup(Chars(e));
  }

  lemma CodeSegs(x: string, t: string)
    requires |x| > 0 && '*' !in x && '`' !in x && '[' !in x
    requires t == "`" + x + "`"
    ensures RenderSegs(t) == [Open(Code)] + Chars(Html.Escape(Html.Escape(x))) + [Close(Code)]
  {
    CodeSegsVia(x, t, Html.Escape(x), Html.Escape(Html.Escape(x)));
  }

  /** A tagged run of escaped characters holds no placeholder, so restoring leaves it alone. */
  lemma RestoreWrapped(tag: Tag, y: string)
    requires Escaped(Chars(y))
    ensures Restore([Open(tag)] + Chars(y) + [Close(tag)], []) == [Open(tag)] + Chars(y) + [Close(tag)]
  {
    var c := Chars(y);
    var m := [Open(tag)] + c + [Close(tag)];
    assert forall k :: 0 < k < |m| - 1 ==> m[k] == c[k - 1];
    RestoreNoPlaceholders(m, []);
  }

  /** `CodeSegs` with the once and twice escaped content named. */
  lemma CodeSegsVia(x: string, t: string, e: string, e2: string)
    requires |x| > 0 && '*' !in x && '`' !in x && '[' !in x
    requires t == "`" + x + "`" && e == Html.Escape(x) && e2 == Html.Escape(e)
    ensures RenderSegs(t) == [Open(Code)] + Chars(e2) + [Close(Code)]
  {
    var s := Delims(CodeRule) + Chars(e) + Delims(CodeRule);
    var m := [Open(Code)] + Chars(e2) + [Close(Code)];
    CodeSpanMarkup(x, e);
    assert Markup(s) == m;
    CharsEscaped(e);
    RestoreWrapped(Code, e2);
    assert t == DelimText(CodeRule) + x + DelimText(CodeRule);
    WrappedRender(CodeRule, x, t);
  }

  /** The text of a rendering that is one tagged run of characters. */
  lemma RenderWrapped(t: string, tag: Tag, y: string)
    requires RenderSegs(t) == [Open(tag)] + Chars(y) + [Close(tag)]
    ensures RenderInline(t) == "<" + TagName(tag) + ">" + y + "</" + TagName(tag) + ">"
  {
    FlattenWrap(tag, y);
  }

  lemma TagTexts(y: string)
    ensures "<" + TagName(Strong) + ">" + y + "</" + TagName(Strong) + ">" == "<strong>" + y + "</strong>"
    ensures "<" + TagName(Em) + ">" + y + "</" + TagName(Em) + ">" == "<em>" + y + "</em>"
    ensures "<" + TagName(Code) + ">" + y + "</" + TagName(Code) + ">" == "<code>" + y + "</code>"
  {
  }

  /** `**x**` is `<strong>x</strong>` with `x` escaped. */
  lemma BoldWraps(x: string)
    requires |x| > 0 && '*' !in x && '`' !in x && '[' !in x
    ensures RenderInline("**" + x + "**") == "<strong>" + Html.Escape(x) + "</strong>"
  {
    var t := "**" + x + "**";
    BoldSegs(x, t);
    RenderWrapped(t, Strong, Html.Escape(x));
    TagTexts(Html.Escape(x));
  }

  /** `*x*` is `<em>x</em>` with `x` escaped. */
  lemma ItalicWraps(x: string)
    requires |x| > 0 && '*' !in x && '`' !in x && '[' !in x
    ensures RenderInline("*" + x + "*") == "<em>" + Html.Escape(x) + "</em>"
  {
    var t := "*" + x + "*";
    ItalicSegs(x, t);
    RenderWrapped(t, Em, Html.Escape(x));
    TagTexts(Html.Escape(x));
  }

  /** `` `x` `` is `<code>x</code>` with `x` escaped twice, as the source does. */
  lemma CodeEscapedTwice(x: string)
    requires |x| > 0 && '*' !in x && '`' !in x && '[' !in x
    ensures RenderInline("`" + x + "`") == "<code>" + Html.Escape(Html.Escape(x)) + "</code>"
  {
    var t := "`" + x + "`";
    CodeSegs(x, t);
    RenderWrapped(t, Code, Html.Escape(Html.Escape(x)));
    TagTexts(Html.Escape(Html.Escape(x)));
  }

  // ---------------------------------------------------------------- links

  /** A whole text that is one link scans as that link. */
  lemma LinkScan(l: string, u: string, t: string)
    requires |l| > 0 && |u| > 0 && ']' !in l && ')' !in u
    requires t == "[" + l + "](" + u + ")"
    ensures ScanLinks(t, 0) == [Link(l, u)]
  {
    var j := |l| + 1;
    var k := j + 2 + |u|;
    assert t[0] == '[' && t[j] == ']' && t[j + 1] == '(' && t[k] == ')';
    assert forall q :: 1 <= q < j ==> t[q] == l[q - 1];
    assert forall q :: j + 2 <= q < k ==> t[q] == u[q - j - 2];
    assert IndexOf(t, ']', 1) == j;
    assert IndexOf(t, ')', j + 2) == k;
    assert t[1..j] == l && t[j + 2..k] == u;
    assert LinkAt(t, 0) == Some(LinkMatch(l, u, |t|));
    assert ScanLinks(t, |t|) == [];
  }

  /**
    A link is replaced by its anchor, whose caption is the label rendered on
    its own; the emphasis passes never see the url.
   */
  lemma LinkSegs(l: string, u: string, t: string)
    requires |l| > 0 && |u| > 0 && ']' !in l && ')' !in u
    requires t == "[" + l + "](" + u + ")"
    ensures RenderSegs(t) == Anchor(u, RenderSegs(l))
  {
    LinkScan(l, u, t);
    var cs := ScanLinks(t, 0);
    assert cs[1..] == [];
    assert WithPlaceholders(cs, 0) == [Placeholder(0)];
    var table := Anchors(t, cs);
    assert table == [Anchor(u, RenderSegs(l))];
    PlaceholderMarkup();
    RestoreOne(table);
    RenderStages(t);
  }

  /** A lone placeholder passes escaping and the markup passes untouched. */
  lemma PlaceholderMarkup()
    ensures EscapeSegs([Placeholder(0)]) == [Placeholder(0)]
    ensures Escaped([Placeholder(0)]) && Markup([Placeholder(0)]) == [Placeholder(0)]
  {
    var p := [Placeholder(0)];
    assert EscapeSegs(p) == p;
    NoDelimIdentity(CodeRule, p);
    NoDelimIdentity(BoldRule, p);
    NoDelimIdentity(ItalicRule, p);
    MarkupSteps(p);
  }

  /** Placeholder 0 becomes the one anchor of the table. */
  lemma RestoreOne(table: seq<seq<Seg>>)
    requires |table| == 1 && Safe(table[0])
    ensures Restore([Placeholder(0)], table) == table[0]
  {
    assert Restore([Placeholder(0)], table) == table[0] + Restore([], table);
  }

  lemma AnchorText(u: string, caption: seq<Seg>)
    ensures Flatten(Anchor(u, caption))
      == SegText(AnchorOpen(Html.Escape(u))) + Flatten(caption) + SegText(AnchorClose)
  {
    var open := [AnchorOpen(Html.Escape(u))];
    FlattenAppend(open + caption, [AnchorClose]);
    FlattenAppend(open, caption);
    assert Flatten(open) == SegText(AnchorOpen(Html.Escape(u))) + Flatten([]);
    assert Flatten([AnchorClose]) == SegText(AnchorClose) + Flatten([]);
  }

  /** `[l](u)` is `<a href="u" target="_blank" rel="noopener">l</a>`, url escaped, label rendered. */
  lemma LinkRenders(l: string, u: string, t: string)
    requires |l| > 0 && |u| > 0 && ']' !in l && ')' !in u
    requires t == "[" + l + "](" + u + ")"
    ensures RenderInline(t) == AnchorTag(Html.Escape(u)) + RenderInline(l) + "</a>"
  {
    LinkSegs(l, u, t);
    AnchorRenders(l, u, t);
  }

  /** A text whose segments are one anchor renders as the anchor's tags around its caption. */
  lemma AnchorRenders(l: string, u: string, t: string)
    requires RenderSegs(t) == Anchor(u, RenderSegs(l))
    ensures RenderInline(t) == AnchorTag(Html.Escape(u)) + RenderInline(l) + "</a>"
  {
    AnchorFlat(u, RenderSegs(l), RenderSegs(t));
  }

  lemma AnchorFlat(u: string, c: seq<Seg>, r: seq<Seg>)
    requires r == Anchor(u, c)
    ensures Flatten(r) == AnchorTag(Html.Escape(u)) + Flatten(c) + "</a>"
  {
    AnchorText(u, c);
  }

  /** Only the first character may open a link: then `LinkAt` at the start decides. */
  lemma FirstBracketOnly(t: string)
    requires |t| > 0 && '[' !in t[1..] && LinkAt(t, 0).None?
    ensures NoLinks(t)
  {
    forall i | 0 < i < |t|
      ensures t[i] != '['
    {
      assert t[i] == t[1..][i - 1];
    }
  }

  /** `[](u)`: an empty label is no link, so the text is only escaped. */
  lemma EmptyLabelStaysLiteral(u: string, t: string)
    requires '[' !in u && '*' !in u && '`' !in u
    requires t == "[](" + u + ")"
    ensures RenderInline(t) == Html.Escape(t)
  {
    assert NoLinks(t) by {
      EmptyLabelNoMatch(u, t);
      assert t[1..] == "](" + u + ")";
      FirstBracketOnly(t);
    }
    assert '*' !in t && '`' !in t;
    PlainTextIsEscaped(t);
  }

  lemma EmptyLabelNoMatch(u: string, t: string)
    requires t == "[](" + u + ")"
    ensures LinkAt(t, 0).None?
  {
    assert t[1] == ']';
    assert IndexOf(t, ']', 1) == 1;
  }

  /** `[l]()`: an empty url is no link, so the text is only escaped. */
  lemma EmptyUrlStaysLiteral(l: string, t: string)
    requires '[' !in l && ']' !in l && '*' !in l && '`' !in l
    requires t == "[" + l + "]()"
    ensures RenderInline(t) == Html.Escape(t)
  {
    assert NoLinks(t) by {
      EmptyUrlNoMatch(l, t);
      assert t[1..] == l + "]()";
      FirstBracketOnly(t);
    }
    assert '*' !in t && '`' !in t;
    PlainTextIsEscaped(t);
  }

  lemma EmptyUrlNoMatch(l: string, t: string)
    requires ']' !in l && t == "[" + l + "]()"
    ensures LinkAt(t, 0).None?
  {
    var j := |l| + 1;
    assert t[j] == ']' && t[j + 1] == '(' && t[j + 2] == ')';
    assert forall q :: 1 <= q < j ==> t[q] == l[q - 1];
    assert IndexOf(t, ']', 1) == j;
    assert IndexOf(t, ')', j + 2) == j + 2;
  }

  // ---------------------------------------------------------------- unmatched

  lemma LoneStarStages(x: string, t: string)
    requires '[' !in x && t == "*" + x
    ensures NoLinks(t) && Chars(Html.Escape(t)) == [Char('*')] + Chars(Html.Escape(x))
  {
    assert '[' !in t by {
      assert forall k :: 1 <= k < |t| ==> t[k] == x[k - 1];
    }
    NoBracketNoLinks(t);
    Html.EscapeAppend("*", x);
    CharsAppend("*", Html.Escape(x));
  }

  lemma LoneStarSegs(x: string, t: string)
    requires '*' !in x && '`' !in x && '[' !in x
    requires t == "*" + x
    ensures RenderSegs(t) == [Char('*')] + Chars(Html.Escape(x))
  {
    var c := Chars(Html.Escape(x));
    CharsEscaped(x);
    UndelimitedContent(x);
    LoneStarMarkup(c);
    RestoreNoPlaceholders([Char('*')] + c, []);
    LoneStarStages(x, t);
    NoLinkRender(t);
  }

  /** A `*` with no partner stays a literal asterisk. */
  lemma LoneStarStaysLiteral(x: string)
    requires '*' !in x && '`' !in x && '[' !in x
    ensures RenderInline("*" + x) == "*" + Html.Escape(x)
  {
    var t := "*" + x;
    LoneStarSegs(x, t);
    FlattenAppend([Char('*')], Chars(Html.Escape(x)));
    FlattenChars(Html.Escape(x));
    assert Flatten([Char('*')]) == "*" + Flatten([]);
  }

  // ---------------------------------------------------------------- a link inside bold

  /** `LinkAt` at an opening bracket whose closing bracket, parenthesis and closing parenthesis are known. */
  lemma LinkAtFound(t: string, i: nat, j: nat, k: nat)
    requires i + 1 < j && j + 2 < k < |t|
    requires t[i] == '[' && t[j] == ']' && t[j + 1] == '(' && t[k] == ')'
    requires forall q :: i < q < j ==> t[q] != ']'
    requires forall q :: j + 1 < q < k ==> t[q] != ')'
    ensures LinkAt(t, i) == Some(LinkMatch(t[i + 1..j], t[j + 2..k], k + 1))
  {
    IndexOfFound(t, ']', i + 1, j);
    IndexOfFound(t, ')', j + 2, k);
  }

  /** The characters of a link's source text. */
  lemma LinkTextChars(l: string, u: string, a: string)
    requires a == "[" + l + "](" + u + ")"
    ensures |a| == |l| + |u| + 4
    ensures a[0] == '[' && a[|l| + 1] == ']' && a[|l| + 2] == '(' && a[|a| - 1] == ')'
    ensures forall q :: 0 <= q < |l| ==> a[q + 1] == l[q]
    ensures forall q :: 0 <= q < |u| ==> a[q + |l| + 3] == u[q]
  {
  }

  /** The characters of a text between two copies of a delimiter. */
  lemma WrapChars(d: string, a: string, t: string)
    requires t == d + a + d
    ensures |t| == |a| + 2 * |d|
    ensures forall q :: 0 <= q < |a| ==> t[q + |d|] == a[q]
    ensures forall q :: 0 <= q < |d| ==> t[q] == d[q] && t[q + |d| + |a|] == d[q]
  {
  }

  /** Where `LinkAt` finds the link inside `**[l](u)**`. */
  lemma BoldLinkAt(l: string, u: string, a: string, t: string)
    requires |l| > 0 && |u| > 0 && ']' !in l && ')' !in u
    requires a == "[" + l + "](" + u + ")" && t == "**" + a + "**"
    ensures |t| == |l| + |u| + 8
    ensures t[0] == '*' && t[1] == '*' && t[|t| - 2] == '*' && t[|t| - 1] == '*'
    ensures LinkAt(t, 2) == Some(LinkMatch(l, u, |t| - 2))
  {
    LinkTextChars(l, u, a);
    WrapChars("**", a, t);
    LinkInWrap(l, u, a, t);
  }

  /** The same, from the characters of `a` and of `t` alone. */
  lemma LinkInWrap(l: string, u: string, a: string, t: string)
    requires |l| > 0 && |u| > 0 && ']' !in l && ')' !in u
    requires |a| == |l| + |u| + 4 && |t| == |a| + 4
    requires a[0] == '[' && a[|l| + 1] == ']' && a[|l| + 2] == '(' && a[|a| - 1] == ')'
    requires forall q :: 0 <= q < |l| ==> a[q + 1] == l[q]
    requires forall q :: 0 <= q < |u| ==> a[q + |l| + 3] == u[q]
    requires forall q :: 0 <= q < |a| ==> t[q + 2] == a[q]
    ensures LinkAt(t, 2) == Some(LinkMatch(l, u, |t| - 2))
  {
    var j := |l| + 3;
    var k := |l| + |u| + 5;
    forall q | 2 < q < j ensures t[q] != ']' {
      assert t[q] == a[q - 2] == l[q - 3];
    }
    forall q | j + 1 < q < k ensures t[q] != ')' {
      assert t[q] == a[q - 2] == u[q - j - 2];
    }
    assert t[2] == a[0] && t[j] == a[j - 2] && t[j + 1] == a[j - 1] && t[k] == a[|a| - 1];
    LinkAtFound(t, 2, j, k);
    assert t[3..j] == l by {
      forall q | 0 <= q < |l| ensures t[3..j][q] == l[q] { assert t[q + 3] == a[q + 1]; }
    }
    assert t[j + 2..k] == u by {
      forall q | 0 <= q < |u| ensures t[j + 2..k][q] == u[q] { assert t[q + j + 2] == a[q + |l| + 3]; }
    }
  }

  /** The chunks of `**[l](u)**`: two stars, the link, and two stars. */
  function BoldLinkChunks(l: string, u: string): seq<LinkChunk> {
    [Lit('*'), Lit('*'), Link(l, u), Lit('*'), Lit('*')]
  }

  /** Two stars that end a text scan as two literal stars. */
  lemma ScanStarsAtEnd(t: string)
    requires |t| >= 2 && t[|t| - 2] == '*' && t[|t| - 1] == '*'
    ensures ScanLinks(t, |t| - 2) == [Lit('*'), Lit('*')]
  {
    var n := |t|;
    assert ScanLinks(t, n) == [];
    ScanLit(t, n - 1);
    ScanLit(t, n - 2);
  }

  /** Two stars that open a text scan as two literal stars before the rest. */
  lemma ScanStarsAtStart(t: string)
    requires |t| >= 2 && t[0] == '*' && t[1] == '*'
    ensures ScanLinks(t, 0) == [Lit('*'), Lit('*')] + ScanLinks(t, 2)
  {
    ScanLit(t, 1);
    ScanLit(t, 0);
    StarPairJoin(ScanLinks(t, 0), ScanLinks(t, 1), ScanLinks(t, 2));
  }

  lemma StarPairJoin(x: seq<LinkChunk>, y: seq<LinkChunk>, z: seq<LinkChunk>)
    requires x == [Lit('*')] + y && y == [Lit('*')] + z
    ensures x == [Lit('*'), Lit('*')] + z
  {
  }

  /** A known link at `i` is one chunk, and the scan resumes after it. */
  lemma ScanLinkTo(t: string, i: nat, l: string, u: string, e: nat)
    requires i < |t| && LinkAt(t, i) == Some(LinkMatch(l, u, e))
    ensures e <= |t| && ScanLinks(t, i) == [Link(l, u)] + ScanLinks(t, e)
  {
    ScanLink(t, i);
  }

  /** `**[l](u)**` cuts into two stars, the link, and two stars. */
  lemma BoldLinkScan(l: string, u: string, t: string)
    requires |t| == |l| + |u| + 8
    requires t[0] == '*' && t[1] == '*' && t[|t| - 2] == '*' && t[|t| - 1] == '*'
    requires LinkAt(t, 2) == Some(LinkMatch(l, u, |t| - 2))
    ensures ScanLinks(t, 0) == BoldLinkChunks(l, u)
  {
    ScanStarsAtEnd(t);
    ScanLinkTo(t, 2, l, u, |t| - 2);
    ScanStarsAtStart(t);
    BoldLinkChunksJoin(l, u, ScanLinks(t, 0), ScanLinks(t, 2), ScanLinks(t, |t| - 2));
  }

  /** Stars, then a link, then stars, make the chunks of `**[l](u)**`. */
  lemma BoldLinkChunksJoin(l: string, u: string, whole: seq<LinkChunk>, rest: seq<LinkChunk>, tail: seq<LinkChunk>)
    requires tail == [Lit('*'), Lit('*')]
    requires rest == [Link(l, u)] + tail
    requires whole == [Lit('*'), Lit('*')] + rest
    ensures whole == BoldLinkChunks(l, u)
  {
  }

  /** The placeholders of those chunks: the link becomes placeholder 0. */
  lemma BoldLinkPlaceholders(l: string, u: string)
    ensures WithPlaceholders(BoldLinkChunks(l, u), 0) == Delims(BoldRule) + [Placeholder(0)] + Delims(BoldRule)
  {
    var cs := BoldLinkChunks(l, u);
    var tail := [Lit('*'), Lit('*')];
    assert tail[1..] == [Lit('*')] && tail[1..][1..] == [];
    assert WithPlaceholders(tail, 1) == [Char('*'), Char('*')];
    var mid := [Link(l, u)] + tail;
    assert mid[1..] == tail;
    assert WithPlaceholders(mid, 0) == [Placeholder(0), Char('*'), Char('*')];
    assert cs[1..] == [Lit('*')] + mid && cs[1..][1..] == mid;
  }

  /** The anchor table of those chunks: the one anchor of the link. */
  lemma BoldLinkTable(l: string, u: string, t: string)
    requires |l| < |t|
    ensures Anchors(t, BoldLinkChunks(l, u)) == [Anchor(u, RenderSegs(l))]
  {
    var cs := BoldLinkChunks(l, u);
    var tail := [Lit('*'), Lit('*')];
    assert tail[1..] == [Lit('*')] && tail[1..][1..] == [];
    assert Anchors(t, tail) == [];
    var mid := [Link(l, u)] + tail;
    assert mid[1..] == tail;
    assert Anchors(t, mid) == [Anchor(u, RenderSegs(l))];
    assert cs[1..] == [Lit('*')] + mid && cs[1..][1..] == mid;
  }

  /** Escaping leaves `**` placeholder `**` as it is. */
  lemma StarsPlaceholderEscape()
    ensures var w := Delims(BoldRule) + [Placeholder(0)] + Delims(BoldRule);
      EscapeSegs(w) == w
  {
    var d := Delims(BoldRule);
    var p := [Placeholder(0)];
    EscapeSegsChars("**");
    assert Chars("**") == d;
    assert EscapeSegs(p) == p + EscapeSegs([]);
    EscapeSegsAppend(d + p, d);
    EscapeSegsAppend(d, p);
  }

  /** Restoring the placeholder inside the tags puts the anchor there. */
  lemma RestoreInside(tag: Tag, table: seq<seq<Seg>>)
    requires |table| == 1 && Safe(table[0])
    ensures Escaped([Open(tag), Placeholder(0), Close(tag)])
    ensures Restore([Open(tag), Placeholder(0), Close(tag)], table) == [Open(tag)] + table[0] + [Close(tag)]
  {
    var s := [Open(tag), Placeholder(0), Close(tag)];
    assert Escaped(s) by {
      forall k | 0 <= k < |s| ensures Inert(s[k]) { }
    }
    assert s[1..] == [Placeholder(0), Close(tag)];
    assert s[1..][1..] == [Close(tag)];
    assert Restore([Close(tag)], table) == [Close(tag)] + Restore([], table);
  }

  /**
    A link inside bold keeps its whole anchor inside `<strong>`: links are
    put back only after the emphasis passes, so those never see the url or
    the anchor markup.
   */
  lemma BoldLinkSegs(l: string, u: string, a: string, t: string)
    requires |l| < |t| && ScanLinks(t, 0) == BoldLinkChunks(l, u)
    requires RenderSegs(a) == Anchor(u, RenderSegs(l))
    ensures RenderSegs(t) == [Open(Strong)] + RenderSegs(a) + [Close(Strong)]
  {
    var p := [Placeholder(0)];
    var table := [Anchor(u, RenderSegs(l))];
    BoldLinkFront(l, u, t);
    StrongPlaceholder(table);
    StagesGive(t, Delims(BoldRule) + p + Delims(BoldRule), [Open(Strong)] + p + [Close(Strong)], table,
      [Open(Strong)] + table[0] + [Close(Strong)]);
  }

  /** The stages before the markup passes, for `**[l](u)**`. */
  lemma BoldLinkFront(l: string, u: string, t: string)
    requires |l| < |t| && ScanLinks(t, 0) == BoldLinkChunks(l, u)
    ensures var w := Delims(BoldRule) + [Placeholder(0)] + Delims(BoldRule);
      && WithPlaceholders(ScanLinks(t, 0), 0) == w && EscapeSegs(w) == w
      && Anchors(t, ScanLinks(t, 0)) == [Anchor(u, RenderSegs(l))]
  {
    BoldLinkPlaceholders(l, u);
    BoldLinkTable(l, u, t);
    StarsPlaceholderEscape();
  }

  /** The markup and restore passes on `**` placeholder `**`. */
  lemma StrongPlaceholder(table: seq<seq<Seg>>)
    requires |table| == 1 && Safe(table[0])
    ensures var p := [Placeholder(0)];
      var w := Delims(BoldRule) + p + Delims(BoldRule);
      var m := [Open(Strong)] + p + [Close(Strong)];
      && Escaped(w) && Markup(w) == m && Escaped(m)
      && Restore(m, table) == [Open(Strong)] + table[0] + [Close(Strong)]
  {
    var p := [Placeholder(0)];
    assert Escaped(p) && Undelimited(p);
    BoldMarkup(p);
    RestoreInside(Strong, table);
  }

  /** The stages of `RenderSegs`, each known, give its result. */
  lemma StagesGive(t: string, w: seq<Seg>, m: seq<Seg>, table: seq<seq<Seg>>, r: seq<Seg>)
    requires WithPlaceholders(ScanLinks(t, 0), 0) == w && EscapeSegs(w) == w
    requires Escaped(w) && Markup(w) == m && Escaped(m)
    requires Anchors(t, ScanLinks(t, 0)) == table
    requires forall k :: 0 <= k < |table| ==> Safe(table[k])
    requires Restore(m, table) == r
    ensures RenderSegs(t) == r
  {
    RenderStages(t);
  }

  lemma FlattenTagged(tag: Tag, x: seq<Seg>)
    ensures Flatten([Open(tag)] + x + [Close(tag)]) == SegText(Open(tag)) + Flatten(x) + SegText(Close(tag))
  {
    FlattenAppend([Open(tag)] + x, [Close(tag)]);
    FlattenAppend([Open(tag)], x);
    assert Flatten([Open(tag)]) == SegText(Open(tag)) + Flatten([]);
    assert Flatten([Close(tag)]) == SegText(Close(tag)) + Flatten([]);
  }

  /** Segments wrapped in `<strong>` render as the tags around their text. */
  lemma StrongRenders(a: string, t: string)
    requires RenderSegs(t) == [Open(Strong)] + RenderSegs(a) + [Close(Strong)]
    ensures RenderInline(t) == "<strong>" + RenderInline(a) + "</strong>"
  {
    StrongFlat(RenderSegs(a), RenderSegs(t));
  }

  lemma StrongFlat(c: seq<Seg>, r: seq<Seg>)
    requires r == [Open(Strong)] + c + [Close(Strong)]
    ensures Flatten(r) == "<strong>" + Flatten(c) + "</strong>"
  {
    FlattenTagged(Strong, c);
    assert SegText(Open(Strong)) == "<strong>";
    assert SegText(Close(Strong)) == "</strong>";
  }

  /** `**[l](u)**` is `<strong>` around the rendered link, whose anchor stays whole. */
  lemma BoldLink(l: string, u: string, a: string, t: string)
    requires |l| > 0 && |u| > 0 && ']' !in l && ')' !in u
    requires a == "[" + l + "](" + u + ")" && t == "**" + a + "**"
    ensures RenderInline(t) == "<strong>" + AnchorTag(Html.Escape(u)) + RenderInline(l) + "</a></strong>"
  {
    BoldLinkAt(l, u, a, t);
    BoldLinkScan(l, u, t);
    LinkSegs(l, u, a);
    BoldLinkSegs(l, u, a, t);
    StrongRenders(a, t);
    AnchorRenders(l, u, a);
    TagAround(AnchorTag(Html.Escape(u)), RenderInline(l));
  }

  /** Regrouping the text of a tagged anchor. */
  lemma TagAround(open: string, x: string)
    ensures "<strong>" + (open + x + "</a>") + "</strong>" == "<strong>" + open + x + "</a></strong>"
  {
  }

  // ---------------------------------------------------------------- code spans do not shield their content

  /** A substitution pass renders its chunks one after the other. */
  lemma {:induction false} RenderSpansAppend(rule: Rule, a: seq<SpanChunk>, b: seq<SpanChunk>)
    ensures RenderSpans(rule, a + b) == RenderSpans(rule, a) + RenderSpans(rule, b)
    decreases |a|
  {
    if |a| > 0 {
      TailAppend(a, b);
      RenderSpansCons(rule, a);
      RenderSpansCons(rule, a + b);
      RenderSpansAppend(rule, a[1..], b);
      ConcatAssoc(RenderChunk(rule, a[0]), RenderSpans(rule, a[1..]), RenderSpans(rule, b));
    } else {
      assert a + b == b;
    }
  }

  /** What a substitution pass makes of one chunk. */
  function RenderChunk(rule: Rule, ch: SpanChunk): seq<Seg> {
    match ch
    case Keep(x) => [x]
    case Span(c) => [Open(TagOf(rule))] + (if rule == CodeRule then EscapeSegs(c) else c) + [Close(TagOf(rule))]
  }

  lemma RenderSpansCons(rule: Rule, cs: seq<SpanChunk>)
    requires |cs| > 0
    ensures RenderSpans(rule, cs) == RenderChunk(rule, cs[0]) + RenderSpans(rule, cs[1..])
  {
  }

  /** `t` is `s` between the segments `x` and `y`, neither of them the rule's delimiter. */
  predicate Framed(rule: Rule, s: seq<Seg>, x: Seg, y: Seg, t: seq<Seg>) {
    && |t| == |s| + 2 && t[0] == x && t[|s| + 1] == y
    && (forall m :: 0 <= m < |s| ==> t[m + 1] == s[m])
    && x != Delimiter(rule) && y != Delimiter(rule)
  }

  lemma FramedConcat(rule: Rule, s: seq<Seg>, x: Seg, y: Seg)
    requires x != Delimiter(rule) && y != Delimiter(rule)
    ensures Framed(rule, s, x, y, [x] + s + [y])
  {
  }

  /** A match in `s` is the same match, one position on, in the framed `t`, and conversely. */
  lemma FramedMatch(rule: Rule, s: seq<Seg>, x: Seg, y: Seg, t: seq<Seg>, k: nat, j: nat)
    requires Framed(rule, s, x, y, t)
    ensures RuleMatch(rule, t, k + 1, j + 1) <==> RuleMatch(rule, s, k, j)
  {
    var d := Delimiter(rule);
    var w := Width(rule);
    if RuleMatch(rule, s, k, j) {
      forall q | k + 1 + w <= q < j + 1 ensures t[q] != d {
        assert t[q] == s[q - 1];
      }
    }
    if RuleMatch(rule, t, k + 1, j + 1) {
      forall q | k + w <= q < j ensures s[q] != d {
        assert s[q] == t[q + 1];
      }
    }
  }

  /** `ContentEnd` in the framed `t` is `ContentEnd` in `s`, one position on. */
  lemma FramedContentEnd(rule: Rule, s: seq<Seg>, x: Seg, y: Seg, t: seq<Seg>, k: nat)
    requires Framed(rule, s, x, y, t) && k <= |s|
    ensures ContentEnd(rule, s, k).None? ==> ContentEnd(rule, t, k + 1).None?
    ensures ContentEnd(rule, s, k).Some? ==> ContentEnd(rule, t, k + 1) == Some(ContentEnd(rule, s, k).value + 1)
  {
    if ContentEnd(rule, s, k).Some? {
      var j := ContentEnd(rule, s, k).value;
      ContentEndMatches(rule, s, k);
      FramedMatch(rule, s, x, y, t, k, j);
      MatchContentEnd(rule, t, k + 1, j + 1);
    } else if ContentEnd(rule, t, k + 1).Some? {
      var j := ContentEnd(rule, t, k + 1).value;
      ContentEndMatches(rule, t, k + 1);
      FramedMatch(rule, s, x, y, t, k, j - 1);
      MatchContentEnd(rule, s, k, j - 1);
      assert false;
    }
  }

  lemma FramedSlice(rule: Rule, s: seq<Seg>, x: Seg, y: Seg, t: seq<Seg>, a: nat, b: nat)
    requires Framed(rule, s, x, y, t) && a <= b <= |s|
    ensures t[a + 1..b + 1] == s[a..b]
  {
    forall q | 0 <= q < b - a ensures t[a + 1..b + 1][q] == s[a..b][q] {
      assert t[a + 1 + q] == s[a + q];
    }
  }

  lemma ScanSpanAt(rule: Rule, s: seq<Seg>, i: nat, j: nat)
    requires i < |s| && ContentEnd(rule, s, i) == Some(j)
    ensures j + Width(rule) <= |s| && ScanSpans(rule, s, i) == [Span(s[i + Width(rule)..j])] + ScanSpans(rule, s, j + Width(rule))
  {
    ScanSpan(rule, s, i);
  }

  lemma FramedKeepStep(rule: Rule, s: seq<Seg>, x: Seg, y: Seg, t: seq<Seg>, k: nat)
    requires Framed(rule, s, x, y, t) && k < |s| && ContentEnd(rule, s, k).None?
    ensures ScanSpans(rule, s, k) == [Keep(s[k])] + ScanSpans(rule, s, k + 1)
    ensures ScanSpans(rule, t, k + 1) == [Keep(s[k])] + ScanSpans(rule, t, k + 2)
  {
    FramedContentEnd(rule, s, x, y, t, k);
  }

  lemma FramedEnd(rule: Rule, s: seq<Seg>, x: Seg, y: Seg, t: seq<Seg>)
    requires Framed(rule, s, x, y, t)
    ensures ScanSpans(rule, t, |s| + 1) == [Keep(y)] && ScanSpans(rule, s, |s|) == []
  {
    assert ScanSpans(rule, t, |s| + 2) == [];
  }

  lemma ChunkJoin(c: SpanChunk, a: seq<SpanChunk>, b: seq<SpanChunk>, y: Seg)
    requires b == a + [Keep(y)]
    ensures [c] + b == ([c] + a) + [Keep(y)]
  {
  }

  /** Scanning the framed `t` from `k + 1` is scanning `s` from `k`, then keeping `y`. */
  predicate ScansFramed(rule: Rule, s: seq<Seg>, y: Seg, t: seq<Seg>, k: nat)
    requires k <= |s| && |t| == |s| + 2
  {
    ScanSpans(rule, t, k + 1) == ScanSpans(rule, s, k) + [Keep(y)]
  }

  lemma FramedSpanCase(rule: Rule, s: seq<Seg>, x: Seg, y: Seg, t: seq<Seg>, k: nat, j: nat)
    requires Framed(rule, s, x, y, t) && k < |s| && ContentEnd(rule, s, k) == Some(j)
    requires ScansFramed(rule, s, y, t, j + Width(rule))
    ensures ScansFramed(rule, s, y, t, k)
  {
    FramedSpanFacts(rule, s, x, y, t, k, j);
    SpanPair(rule, s, y, t, k, j);
  }

  /** A match in `s` is the same match, one place on, in the framed `t`. */
  lemma FramedSpanFacts(rule: Rule, s: seq<Seg>, x: Seg, y: Seg, t: seq<Seg>, k: nat, j: nat)
    requires Framed(rule, s, x, y, t) && k < |s| && ContentEnd(rule, s, k) == Some(j)
    ensures ContentEnd(rule, t, k + 1) == Some(j + 1)
    ensures t[k + Width(rule) + 1..j + 1] == s[k + Width(rule)..j]
  {
    FramedContentEnd(rule, s, x, y, t, k);
    FramedSlice(rule, s, x, y, t, k + Width(rule), j);
  }

  /**
    Where the scans of `s` at `k` and of `t` at `k + 1` match the same content,
    the frame property carries back from after the match.
   */
  lemma SpanPair(rule: Rule, s: seq<Seg>, y: Seg, t: seq<Seg>, k: nat, j: nat)
    requires |t| == |s| + 2 && k < |s| && ContentEnd(rule, s, k) == Some(j)
    requires ContentEnd(rule, t, k + 1) == Some(j + 1)
    requires t[k + Width(rule) + 1..j + 1] == s[k + Width(rule)..j]
    requires ScansFramed(rule, s, y, t, j + Width(rule))
    ensures ScansFramed(rule, s, y, t, k)
  {
    var c := s[k + Width(rule)..j];
    ScanSpanAt(rule, s, k, j);
    ScanSpanShifted(rule, t, k, j, c);
    ChunkJoin(Span(c), ScanSpans(rule, s, j + Width(rule)), ScanSpans(rule, t, j + Width(rule) + 1), y);
  }

  /** `ScanSpanAt` one position on, with the content named. */
  lemma ScanSpanShifted(rule: Rule, t: seq<Seg>, k: nat, j: nat, c: seq<Seg>)
    requires k + 1 < |t| && ContentEnd(rule, t, k + 1) == Some(j + 1)
    requires t[k + Width(rule) + 1..j + 1] == c
    ensures j + Width(rule) + 1 <= |t|
    ensures ScanSpans(rule, t, k + 1) == [Span(c)] + ScanSpans(rule, t, j + Width(rule) + 1)
  {
    ScanSpan(rule, t, k + 1);
    assert k + 1 + Width(rule) == k + Width(rule) + 1 && j + 1 + Width(rule) == j + Width(rule) + 1;
  }

  lemma FramedKeepCase(rule: Rule, s: seq<Seg>, x: Seg, y: Seg, t: seq<Seg>, k: nat)
    requires Framed(rule, s, x, y, t) && k < |s| && ContentEnd(rule, s, k).None?
    requires ScansFramed(rule, s, y, t, k + 1)
    ensures ScansFramed(rule, s, y, t, k)
  {
    FramedKeepStep(rule, s, x, y, t, k);
    ChunkJoin(Keep(s[k]), ScanSpans(rule, s, k + 1), ScanSpans(rule, t, k + 2), y);
  }

  /** Where the scan of `s` resumes after position `k`. */
  function NextScan(rule: Rule, s: seq<Seg>, k: nat): (n: nat)
    requires k < |s|
    ensures k < n <= |s|
  {
    match ContentEnd(rule, s, k)
    case Some(j) => j + Width(rule)
    case None => k + 1
  }

  /** One step of the scan keeps the frame property. */
  lemma FramedStep(rule: Rule, s: seq<Seg>, x: Seg, y: Seg, t: seq<Seg>, k: nat)
    requires Framed(rule, s, x, y, t) && k < |s|
    requires ScansFramed(rule, s, y, t, NextScan(rule, s, k))
    ensures ScansFramed(rule, s, y, t, k)
  {
    match ContentEnd(rule, s, k)
    case Some(j) =>
      assert NextScan(rule, s, k) == j + Width(rule);
      FramedSpanCase(rule, s, x, y, t, k, j);
    case None =>
      assert NextScan(rule, s, k) == k + 1;
      FramedKeepCase(rule, s, x, y, t, k);
  }

  lemma {:induction false} FramedScan(rule: Rule, s: seq<Seg>, x: Seg, y: Seg, t: seq<Seg>, k: nat)
    requires Framed(rule, s, x, y, t) && k <= |s|
    ensures ScansFramed(rule, s, y, t, k)
    decreases |s| - k
  {
    if k == |s| {
      FramedEnd(rule, s, x, y, t);
    } else {
      FramedScan(rule, s, x, y, t, NextScan(rule, s, k));
      FramedStep(rule, s, x, y, t, k);
    }
  }

  /** A pass over segments framed by two non-delimiters leaves the frame and works inside it. */
  lemma FramedApply(rule: Rule, s: seq<Seg>, x: Seg, y: Seg)
    requires x != Delimiter(rule) && y != Delimiter(rule)
    ensures ApplyRule(rule, [x] + s + [y]) == [x] + ApplyRule(rule, s) + [y]
  {
    var t := [x] + s + [y];
    FramedConcat(rule, s, x, y);
    FramedScan(rule, s, x, y, t, 0);
    FramedStart(rule, s, x, y, t);
    FramedRender(rule, x, y, ScanSpans(rule, s, 0), ScanSpans(rule, t, 0));
  }

  lemma FramedStart(rule: Rule, s: seq<Seg>, x: Seg, y: Seg, t: seq<Seg>)
    requires Framed(rule, s, x, y, t) && ScansFramed(rule, s, y, t, 0)
    ensures ScanSpans(rule, t, 0) == [Keep(x)] + (ScanSpans(rule, s, 0) + [Keep(y)])
  {
  }

  lemma FramedRender(rule: Rule, x: Seg, y: Seg, inner: seq<SpanChunk>, whole: seq<SpanChunk>)
    requires whole == [Keep(x)] + (inner + [Keep(y)])
    ensures RenderSpans(rule, whole) == [x] + RenderSpans(rule, inner) + [y]
  {
    RenderSpansAppend(rule, [Keep(x)], inner + [Keep(y)]);
    RenderSpansAppend(rule, inner, [Keep(y)]);
    assert RenderSpans(rule, [Keep(x)]) == [x] + RenderSpans(rule, []);
    assert RenderSpans(rule, [Keep(y)]) == [y] + RenderSpans(rule, []);
  }

  /** Escaping leaves the delimiters alone. */
  lemma EscapeDelims(rule: Rule)
    ensures EscapeSegs(Delims(rule)) == Delims(rule)
  {
    var d := Delims(rule);
    assert EscapeSegs(d[|d| - 1..]) == d[|d| - 1..];
    if rule == BoldRule {
      assert d[1..] == d[|d| - 1..];
    }
  }

  /** Escaping a non-empty segment sequence leaves it non-empty. */
  lemma EscapeSegsNonEmpty(c: seq<Seg>)
    requires |c| > 0
    ensures |EscapeSegs(c)| > 0
  {
    assert |Html.EscapeChar(if c[0].Char? then c[0].c else ' ')| > 0;
  }

  /** Escaping `**c**` escapes `c` alone. */
  lemma EscapeBoldWrap(c: seq<Seg>)
    ensures EscapeSegs(Delims(BoldRule) + c + Delims(BoldRule)) == Delims(BoldRule) + EscapeSegs(c) + Delims(BoldRule)
  {
    var db := Delims(BoldRule);
    EscapeSegsAppend(db + c, db);
    EscapeSegsAppend(db, c);
    EscapeDelims(BoldRule);
  }

  /** `**c**` is escaped, non-empty and holds no backtick when `c` is escaped and holds none. */
  lemma BoldWrapFacts(c: seq<Seg>)
    requires Escaped(c) && Undelimited(c)
    ensures var inner := Delims(BoldRule) + c + Delims(BoldRule);
      && |inner| > 0 && Escaped(inner) && Delimiter(CodeRule) !in inner
      && Escaped(Delims(CodeRule) + inner + Delims(CodeRule))
  {
    var db := Delims(BoldRule);
    var inner := db + c + db;
    EscapedWrap(db, c);
    EscapedWrap(Delims(CodeRule), inner);
    assert forall k :: 0 <= k < |inner| ==> inner[k] == Char('*') || inner[k] in c;
  }

  /** The backtick pass over `` `**c**` ``: one code span, whose content is escaped again. */
  lemma CodeBoldCodePass(c: seq<Seg>)
    requires |c| > 0 && Escaped(c) && Undelimited(c)
    ensures var s := Delims(CodeRule) + (Delims(BoldRule) + c + Delims(BoldRule)) + Delims(CodeRule);
      && Escaped(s)
      && ApplyRule(CodeRule, s)
        == [Open(Code)] + (Delims(BoldRule) + EscapeSegs(c) + Delims(BoldRule)) + [Close(Code)]
  {
    BoldWrapFacts(c);
    SingleSpan(CodeRule, Delims(BoldRule) + c + Delims(BoldRule));
    EscapeBoldWrap(c);
  }

  /** The bold pass over the code span: it works inside the code tags. */
  lemma CodeBoldBoldPass(c: seq<Seg>)
    requires |c| > 0 && Undelimited(c)
    ensures ApplyRule(BoldRule, [Open(Code)] + (Delims(BoldRule) + c + Delims(BoldRule)) + [Close(Code)])
      == [Open(Code)] + ([Open(Strong)] + c + [Close(Strong)]) + [Close(Code)]
  {
    FramedApply(BoldRule, Delims(BoldRule) + c + Delims(BoldRule), Open(Code), Close(Code));
    SingleSpan(BoldRule, c);
  }

  /**
    `INLINE_CODE_RE` runs first but its output is not shielded from the later
    passes: `**` inside a code span still becomes `<strong>`, around content
    escaped twice.
   */
  lemma CodeHoldsBold(c: seq<Seg>)
    requires |c| > 0 && Escaped(c) && Undelimited(c) && Undelimited(EscapeSegs(c))
    ensures var s := Delims(CodeRule) + (Delims(BoldRule) + c + Delims(BoldRule)) + Delims(CodeRule);
      && Escaped(s)
      && Markup(s) == [Open(Code)] + ([Open(Strong)] + EscapeSegs(c) + [Close(Strong)]) + [Close(Code)]
  {
    var s := Delims(CodeRule) + (Delims(BoldRule) + c + Delims(BoldRule)) + Delims(CodeRule);
    var m := [Open(Code)] + ([Open(Strong)] + EscapeSegs(c) + [Close(Strong)]) + [Close(Code)];
    CodeBoldCodePass(c);
    EscapeSegsNonEmpty(c);
    CodeBoldBoldPass(EscapeSegs(c));
    UndelimitedWrap(Strong, EscapeSegs(c));
    UndelimitedWrap(Code, [Open(Strong)] + EscapeSegs(c) + [Close(Strong)]);
    UndelimitedIdentity(ItalicRule, m);
    MarkupSteps(s);
  }

  /** The escaped characters of `` `**x**` ``: the four delimiters around the escaped content. */
  lemma CodeBoldStages(x: string, y: string, t: string)
    requires '[' !in x && y == "**" + x + "**" && t == "`" + y + "`"
    ensures NoLinks(t)
    ensures Chars(Html.Escape(t))
      == Delims(CodeRule) + (Delims(BoldRule) + Chars(Html.Escape(x)) + Delims(BoldRule)) + Delims(CodeRule)
  {
    WrappedStages(BoldRule, x, y);
    assert '[' !in y by {
      assert forall k :: 0 <= k < |y| ==> y[k] == '*' || y[k] in x;
    }
    WrappedStages(CodeRule, y, t);
  }

  /** The markup passes on the escaped characters of `` `**x**` ``. */
  lemma CodeBoldMarkupText(x: string, e: string)
    requires |x| > 0 && '*' !in x && '`' !in x && e == Html.Escape(x)
    ensures var s := Delims(CodeRule) + (Delims(BoldRule) + Chars(e) + Delims(BoldRule)) + Delims(CodeRule);
      && Escaped(s)
      && Markup(s) == [Open(Code)] + ([Open(Strong)] + Chars(Html.Escape(e)) + [Close(Strong)]) + [Close(Code)]
  {
    CharsEscaped(x);
    UndelimitedContent(x);
    assert '*' !in e && '`' !in e by {
      Html.EscapeAvoids(x, '`');
      Html.EscapeAvoids(x, '*');
    }
    CodeContent(e);
    CodeHoldsBold(Chars(e));
    EscapeSegsChars(e);
  }

  /** Restoring leaves a `<strong>` run of escaped characters inside `<code>` alone. */
  lemma RestoreCodeStrong(y: string)
    requires Escaped(Chars(y))
    ensures var m := [Open(Code)] + ([Open(Strong)] + Chars(y) + [Close(Strong)]) + [Close(Code)];
      Restore(m, []) == m
  {
    var c := Chars(y);
    var m := [Open(Code)] + ([Open(Strong)] + c + [Close(Strong)]) + [Close(Code)];
    assert forall k :: 1 < k < |m| - 2 ==> m[k] == c[k - 2];
    RestoreNoPlaceholders(m, []);
  }

  /** The segments of `` `**x**` ``. */
  lemma CodeBoldSegs(x: string, t: string)
    requires |x| > 0 && '*' !in x && '`' !in x && '[' !in x
    requires t == "`**" + x + "**`"
    ensures RenderSegs(t)
      == [Open(Code)] + ([Open(Strong)] + Chars(Html.Escape(Html.Escape(x))) + [Close(Strong)]) + [Close(Code)]
  {
    var e := Html.Escape(x);
    CodeBoldStages(x, "**" + x + "**", t);
    NoLinkRender(t);
    CodeBoldMarkupText(x, e);
    CharsEscaped(e);
    RestoreCodeStrong(Html.Escape(e));
  }

  /** The text of segments wrapped in `<code>`. */
  lemma CodeFlat(c: seq<Seg>, r: seq<Seg>)
    requires r == [Open(Code)] + c + [Close(Code)]
    ensures Flatten(r) == "<code>" + Flatten(c) + "</code>"
  {
    FlattenTagged(Code, c);
    assert SegText(Open(Code)) == "<code>";
    assert SegText(Close(Code)) == "</code>";
  }

  /** The text of a `<strong>` run inside a `<code>` element. */
  lemma CodeStrongFlat(y: string, r: seq<Seg>)
    requires r == [Open(Code)] + ([Open(Strong)] + Chars(y) + [Close(Strong)]) + [Close(Code)]
    ensures Flatten(r) == "<code><strong>" + y + "</strong></code>"
  {
    var inner := [Open(Strong)] + Chars(y) + [Close(Strong)];
    CodeFlat(inner, r);
    StrongFlat(Chars(y), inner);
    FlattenChars(y);
    TagNest(y);
  }

  /** String regrouping kept apart from `Flatten`, which is costly to unfold. */
  lemma TagNest(y: string)
    ensures "<code>" + ("<strong>" + y + "</strong>") + "</code>" == "<code><strong>" + y + "</strong></code>"
  {
  }

  /** `` `**x**` `` renders as `<code><strong>` around `x` escaped twice: the code span does not protect its content. */
  lemma CodeHoldsBoldText(x: string)
    requires |x| > 0 && '*' !in x && '`' !in x && '[' !in x
    ensures RenderInline("`**" + x + "**`") == "<code><strong>" + Html.Escape(Html.Escape(x)) + "</strong></code>"
  {
    var t := "`**" + x + "**`";
    CodeBoldSegs(x, t);
    CodeStrongFlat(Html.Escape(Html.Escape(x)), RenderSegs(t));
  }
}
