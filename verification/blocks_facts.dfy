/**
  Properties of `markdown_to_html`: the blank-collapsing pass against an
  independent reference, list markup that always balances, heading levels,
  fenced code kept verbatim, and the shape of the final text.
 */
module BlockFacts {
  import opened Text
  import Html
  import Inline
  import opened Results
  import opened Blocks

  // ---------------------------------------------------------------- collapse

  /** A part survives collapsing when it is not blank or follows a non-blank part of the input. */
  predicate KeepAt(ps: seq<Part>, i: nat)
    requires i < |ps|
  {
    !ps[i].Blank? || (i > 0 && !ps[i - 1].Blank?)
  }

  /** Reference for `Collapse`: the parts `KeepAt` selects, in order. */
  function CollapseRef(ps: seq<Part>): seq<Part>
    decreases |ps|
  {
    if |ps| == 0 then []
    else CollapseRef(ps[..|ps| - 1]) + (if KeepAt(ps, |ps| - 1) then [ps[|ps| - 1]] else [])
  }

  /** The collapsing loop selects exactly the parts `KeepAt` describes. */
  lemma {:induction false} CollapseIsRef(ps: seq<Part>)
    ensures Collapse(ps) == CollapseRef(ps)
    ensures (|Collapse(ps)| == 0 || Collapse(ps)[|Collapse(ps)| - 1].Blank?)
      <==> (|ps| == 0 || ps[|ps| - 1].Blank?)
    decreases |ps|
  {
    if |ps| > 0 {
      var p := ps[..|ps| - 1];
      CollapseIsRef(p);
      if |p| > 0 {
        assert ps[|ps| - 2] == p[|p| - 1];
      }
    }
  }

  /** The non-blank parts, in order. */
  function NonBlank(ps: seq<Part>): seq<Part>
    decreases |ps|
  {
    if |ps| == 0 then []
    else NonBlank(ps[..|ps| - 1]) + (if ps[|ps| - 1].Blank? then [] else [ps[|ps| - 1]])
  }

  lemma NonBlankSnoc(c: seq<Part>, p: Part)
    ensures NonBlank(c + [p]) == NonBlank(c) + (if p.Blank? then [] else [p])
  {
    assert (c + [p])[..|c|] == c;
  }

  /** Collapsing removes blank parts only: every other part stays, in order. */
  lemma {:induction false} CollapseKeepsContent(ps: seq<Part>)
    ensures NonBlank(Collapse(ps)) == NonBlank(ps)
    decreases |ps|
  {
    if |ps| > 0 {
      var p := ps[..|ps| - 1];
      CollapseKeepsContent(p);
      NonBlankSnoc(Collapse(p), ps[|ps| - 1]);
    }
  }

  /** Parts already collapsed are left alone. */
  lemma {:induction false} CollapseCollapsed(c: seq<Part>)
    requires Collapsed(c)
    ensures Collapse(c) == c
    decreases |c|
  {
    if |c| > 0 {
      var p := c[..|c| - 1];
      assert Collapsed(p) by {
        forall i | 0 < i < |p|
          ensures !(p[i - 1].Blank? && p[i].Blank?)
        {
          assert p[i - 1] == c[i - 1] && p[i] == c[i];
        }
      }
      CollapseCollapsed(p);
      if |p| > 0 {
        assert p[|p| - 1] == c[|c| - 2];
      }
      assert c == p + [c[|c| - 1]];
    }
  }

  /** Collapsing twice is collapsing once. */
  lemma CollapseIdempotent(ps: seq<Part>)
    ensures Collapse(Collapse(ps)) == Collapse(ps)
  {
    CollapseCollapsed(Collapse(ps));
  }

  // ---------------------------------------------------------------- lists

  /**
    One part read by a checker of list structure, from "a list is open" or
    not: `<ul>` only outside a list, `<li>` and `</ul>` only inside one, every
    other part only outside one. `None` once the structure is broken.
   */
  function Advance(open: Option<bool>, p: Part): Option<bool> {
    match open
    case None => None
    case Some(o) =>
      match p
      case ListOpen => if o then None else Some(true)
      case ListClose => if o then Some(false) else None
      case Item(_) => if o then Some(true) else None
      case _ => if o then None else Some(false)
  }

  /** The checker run over a part sequence; `Some(false)` means well-formed and closed. */
  function ListState(ps: seq<Part>): Option<bool>
    decreases |ps|
  {
    if |ps| == 0 then Some(false) else Advance(ListState(ps[..|ps| - 1]), ps[|ps| - 1])
  }

  lemma ListStateSnoc(ps: seq<Part>, p: Part)
    ensures ListState(ps + [p]) == Advance(ListState(ps), p)
  {
    assert (ps + [p])[..|ps|] == ps;
  }

  /** The loop state agrees with the parts emitted so far, and a code block never sits inside a list. */
  predicate Consistent(st: State) {
    ListState(st.parts) == Some(st.inList) && (st.inCode ==> !st.inList)
  }

  lemma CloseListConsistent(st: State)
    requires Consistent(st)
    ensures Consistent(CloseList(st)) && ListState(CloseList(st).parts) == Some(false)
  {
    if st.inList {
      ListStateSnoc(st.parts, ListClose);
    }
  }

  lemma FenceConsistent(st: State, stripped: string)
    requires Consistent(st) && IsFence(stripped)
    ensures Consistent(FenceLine(st, stripped))
  {
    CloseListConsistent(st);
    if st.inCode {
      ListStateSnoc(st.parts, Pre(st.codeLang, st.codeLines));
    }
  }

  lemma BlankConsistent(st: State)
    requires Consistent(st) && !st.inCode
    ensures Consistent(BlankLine(st))
  {
    CloseListConsistent(st);
    ListStateSnoc(CloseList(st).parts, Blank);
  }

  lemma BlockConsistent(st: State, p: Part)
    requires Consistent(st) && !st.inCode
    requires !p.Blank? && !p.ListOpen? && !p.ListClose?
    ensures Consistent(BlockLine(st, p))
  {
    if p.Item? {
      if !st.inList {
        ListStateSnoc(st.parts, ListOpen);
        ListStateSnoc(st.parts + [ListOpen], p);
      } else {
        ListStateSnoc(st.parts, p);
      }
    } else {
      CloseListConsistent(st);
      ListStateSnoc(CloseList(st).parts, p);
    }
  }

  lemma StepConsistent(st: State, rawLine: string)
    requires Consistent(st)
    ensures Consistent(Step(st, rawLine))
  {
    var stripped := StripLine(rawLine);
    if IsFence(stripped) {
      FenceConsistent(st, stripped);
    } else if st.inCode {
    } else if stripped == "" {
      BlankConsistent(st);
    } else {
      BlockConsistent(st, LinePart(stripped));
    }
  }

  lemma {:induction false} RunConsistent(st: State, lines: seq<string>)
    requires Consistent(st)
    ensures Consistent(Run(st, lines))
    decreases |lines|
  {
    if |lines| > 0 {
      StepConsistent(st, lines[0]);
      RunConsistent(Step(st, lines[0]), lines[1..]);
    }
  }

  /**
    `<ul>`, `<li>` and `</ul>` always come out well formed: lists never nest,
    items occur only inside a list, nothing else occurs inside one, and every
    list is closed.
   */
  lemma ListsWellFormed(md: string)
    ensures ListState(Parts(md)) == Some(false)
  {
    assert Consistent(Init);
    RunConsistent(Init, SplitLines(md));
    FinishConsistent(Run(Init, SplitLines(md)));
  }

  lemma FinishConsistent(st: State)
    requires Consistent(st)
    ensures ListState(Finish(st).parts) == Some(false)
  {
    CloseListConsistent(st);
    var s1 := CloseList(st);
    if s1.inCode {
      ListStateSnoc(s1.parts, Pre(s1.codeLang, s1.codeLines));
    }
  }

  function CountOf(ps: seq<Part>, x: Part): nat
    decreases |ps|
  {
    if |ps| == 0 then 0 else CountOf(ps[..|ps| - 1], x) + (if ps[|ps| - 1] == x then 1 else 0)
  }

  /** A well-formed part sequence opens one more list than it closes while a list is open. */
  lemma {:induction false} ListStateCounts(ps: seq<Part>)
    requires ListState(ps).Some?
    ensures CountOf(ps, ListOpen) == CountOf(ps, ListClose) + (if ListState(ps).value then 1 else 0)
    decreases |ps|
  {
    if |ps| > 0 {
      ListStateCounts(ps[..|ps| - 1]);
    }
  }

  /** As many `<ul>` as `</ul>` in every document. */
  lemma ListsBalanced(md: string)
    ensures CountOf(Parts(md), ListOpen) == CountOf(Parts(md), ListClose)
  {
    ListsWellFormed(md);
    ListStateCounts(Parts(md));
  }

  // ---------------------------------------------------------------- headings

  function Hashes(n: nat): (h: string)
    ensures |h| == n && forall k :: 0 <= k < n ==> h[k] == '#'
  {
    seq(n, _ => '#')
  }

  /** One to three `#` and a space make a heading of that level; the rest is rendered inline. */
  lemma HeadingLevel(n: nat, rest: string)
    requires 1 <= n <= 3
    ensures LinePart(Hashes(n) + " " + rest) == Heading(n, rest)
  {
    var s := Hashes(n) + " " + rest;
    assert s[n] == ' ';
    assert s[n + 1..] == rest;
    if n == 3 {
      assert s[..4] == "### ";
    } else if n == 2 {
      assert s[..3] == "## ";
    } else {
      assert s[..2] == "# ";
    }
  }

  /** Four `#` are no heading: the line is a paragraph, hashes included. */
  lemma FourHashesIsParagraph(rest: string)
    ensures LinePart("#### " + rest) == Para("#### " + rest)
  {
    var s := "#### " + rest;
    assert s[1] == '#' && s[2] == '#' && s[3] == '#';
    assert !StartsWith(s, "### ") by { assert s[..4][3] != "### "[3]; }
    assert !StartsWith(s, "## ") by { assert s[..3][2] != "## "[2]; }
    assert !StartsWith(s, "# ") by { assert s[..2][1] != "# "[1]; }
    assert !StartsWith(s, "- ") by { assert s[..2][0] != "- "[0]; }
  }

  /** `#` glued to the text is no heading either. */
  lemma HashWithoutSpaceIsParagraph(c: char, rest: string)
    requires c != ' ' && c != '#'
    ensures LinePart("#" + [c] + rest) == Para("#" + [c] + rest)
  {
    var s := "#" + [c] + rest;
    assert s[0] == '#' && s[1] == c;
    assert !StartsWith(s, "### ") by { if |s| >= 4 { assert s[..4][1] != "### "[1]; } }
    assert !StartsWith(s, "## ") by { if |s| >= 3 { assert s[..3][1] != "## "[1]; } }
    assert !StartsWith(s, "# ") by { assert s[..2][1] != "# "[1]; }
    assert !StartsWith(s, "- ") by { assert s[..2][0] != "- "[0]; }
  }

  /** `- ` starts a list item whose text is stripped before inline rendering. */
  lemma ItemLine(rest: string)
    ensures LinePart("- " + rest) == Item(Strip(rest))
  {
    var s := "- " + rest;
    assert s[0] == '-' && s[2..] == rest;
    assert !StartsWith(s, "### ") by { if |s| >= 4 { assert s[..4][0] != "### "[0]; } }
    assert !StartsWith(s, "## ") by { if |s| >= 3 { assert s[..3][0] != "## "[0]; } }
    assert !StartsWith(s, "# ") by { assert s[..2][0] != "# "[0]; }
    assert StartsWith(s, "- ") by { assert s[..2] == "- "; }
  }

  // ---------------------------------------------------------------- lists

  /** A `- ` line, once its whitespace is stripped. */
  predicate IsItemLine(rawLine: string) {
    StartsWith(StripLine(rawLine), "- ")
  }

  /** The text of the item a `- ` line holds: what follows the marker, stripped. */
  function ItemText(rawLine: string): string
    requires IsItemLine(rawLine)
  {
    Strip(StripLine(rawLine)[2..])
  }

  /** A `- ` line is neither blank nor a fence, and gives an item. */
  lemma ItemPart(rawLine: string)
    requires IsItemLine(rawLine)
    ensures var s := StripLine(rawLine); s != "" && !IsFence(s) && LinePart(s) == Item(ItemText(rawLine))
  {
    var s := StripLine(rawLine);
    assert s == "- " + s[2..];
    ItemLine(s[2..]);
    assert !IsFence(s) by { if |s| >= 3 { assert s[..3][0] != "```"[0]; } }
  }

  /** Inside a list, a `- ` line adds its item to that same list. */
  lemma ItemKeepsList(st: State, rawLine: string)
    requires !st.inCode && st.inList && IsItemLine(rawLine)
    ensures Step(st, rawLine) == st.(parts := st.parts + [Item(ItemText(rawLine))])
  {
    ItemPart(rawLine);
  }

  /** Outside a list, a `- ` line opens one and adds its item. */
  lemma ItemOpensList(st: State, rawLine: string)
    requires !st.inCode && !st.inList && IsItemLine(rawLine)
    ensures Step(st, rawLine) == st.(inList := true, parts := st.parts + [ListOpen] + [Item(ItemText(rawLine))])
  {
    ItemPart(rawLine);
  }

  predicate AllItemLines(lines: seq<string>) {
    forall k :: 0 <= k < |lines| ==> IsItemLine(lines[k])
  }

  /** The items of a run of `- ` lines, in order. */
  function Items(lines: seq<string>): (r: seq<Part>)
    requires AllItemLines(lines)
    ensures |r| == |lines|
  {
    if |lines| == 0 then []
    else
      AllItemLinesTail(lines);
      [Item(ItemText(lines[0]))] + Items(lines[1..])
  }

  lemma AllItemLinesTail(lines: seq<string>)
    requires |lines| > 0 && AllItemLines(lines)
    ensures AllItemLines(lines[1..])
  {
    assert forall k :: 0 <= k < |lines| - 1 ==> lines[1..][k] == lines[k + 1];
  }

  /** The first item line of a run inside a list, and the items of the rest. */
  lemma ItemsHead(st: State, lines: seq<string>)
    requires !st.inCode && st.inList && |lines| > 0 && AllItemLines(lines)
    ensures AllItemLines(lines[1..])
    ensures Run(st, lines) == Run(st.(parts := st.parts + [Item(ItemText(lines[0]))]), lines[1..])
    ensures Items(lines) == [Item(ItemText(lines[0]))] + Items(lines[1..])
  {
    AllItemLinesTail(lines);
    RunStep(st, lines);
    ItemKeepsList(st, lines[0]);
  }

  lemma ConsAppend<T>(a: seq<T>, x: T, b: seq<T>)
    ensures a + [x] + b == a + ([x] + b)
  {
  }

  /** Inside a list, consecutive `- ` lines all land in that list: no `<ul>` is closed or opened. */
  lemma {:induction false} ItemsKeepList(st: State, lines: seq<string>)
    requires !st.inCode && st.inList && AllItemLines(lines)
    ensures Run(st, lines) == st.(parts := st.parts + Items(lines))
    decreases |lines|
  {
    if |lines| == 0 {
      assert st.parts + Items(lines) == st.parts;
    } else {
      var item := Item(ItemText(lines[0]));
      ItemsHead(st, lines);
      ItemsKeepList(st.(parts := st.parts + [item]), lines[1..]);
      ConsAppend(st.parts, item, Items(lines[1..]));
    }
  }

  /** Consecutive `- ` lines outside a list share one `<ul>`: a single `ListOpen`, then their items. */
  lemma ItemsShareList(st: State, lines: seq<string>)
    requires !st.inCode && !st.inList && |lines| > 0 && AllItemLines(lines)
    ensures Run(st, lines) == st.(inList := true, parts := st.parts + [ListOpen] + Items(lines))
  {
    var s0 := st.(inList := true, parts := st.parts + [ListOpen]);
    RunStep(st, lines);
    ItemOpensList(st, lines[0]);
    ItemsHead(s0, lines);
    ItemsKeepList(s0, lines);
  }

  // ---------------------------------------------------------------- fences

  lemma {:induction false} RunAppend(st: State, a: seq<string>, b: seq<string>)
    ensures Run(st, a + b) == Run(Run(st, a), b)
    decreases |a|
  {
    if |a| > 0 {
      assert (a + b)[0] == a[0] && (a + b)[1..] == a[1..] + b;
      RunAppend(Step(st, a[0]), a[1..], b);
    } else {
      assert a + b == b;
    }
  }

  /** No line of `body` is a fence. */
  predicate NoFence(body: seq<string>) {
    forall k :: 0 <= k < |body| ==> !IsFence(StripLine(body[k]))
  }

  lemma CodeLine(st: State, rawLine: string)
    requires st.inCode && !IsFence(StripLine(rawLine))
    ensures Step(st, rawLine) == st.(codeLines := st.codeLines + [rawLine])
  {
  }

  lemma RunStep(st: State, lines: seq<string>)
    requires |lines| > 0
    ensures Run(st, lines) == Run(Step(st, lines[0]), lines[1..])
  {
  }

  lemma NoFenceTail(body: seq<string>)
    requires NoFence(body) && |body| > 0
    ensures NoFence(body[1..])
  {
    forall k | 0 <= k < |body| - 1
      ensures !IsFence(StripLine(body[1..][k]))
    {
      assert body[1..][k] == body[k + 1];
    }
  }

  lemma CodeLinesAppend(st: State, body: seq<string>)
    requires |body| > 0
    ensures st.(codeLines := st.codeLines + [body[0]]).(codeLines := st.codeLines + [body[0]] + body[1..])
      == st.(codeLines := st.codeLines + body)
  {
    assert st.codeLines + body == st.codeLines + [body[0]] + body[1..];
  }

  /** Inside a code block every non-fence line is collected verbatim, whitespace included. */
  lemma {:induction false} CodeBody(st: State, body: seq<string>)
    requires st.inCode && NoFence(body)
    ensures Run(st, body) == st.(codeLines := st.codeLines + body)
    decreases |body|
  {
    if |body| > 0 {
      RunStep(st, body);
      CodeLine(st, body[0]);
      NoFenceTail(body);
      CodeBody(st.(codeLines := st.codeLines + [body[0]]), body[1..]);
      CodeLinesAppend(st, body);
    }
  }

  /** The language of a fence line: what follows the backticks, stripped. */
  function FenceLang(open: string): string
    requires IsFence(StripLine(open))
  {
    Strip(StripLine(open)[3..])
  }

  /** The state once a fence line and a fence-free body have been read. */
  lemma OpenedBlock(st: State, open: string, body: seq<string>)
    requires !st.inCode && IsFence(StripLine(open)) && NoFence(body)
    ensures var r := Run(st, [open] + body);
      && r.inCode && !r.inList && r.parts == CloseList(st).parts
      && r.codeLang == FenceLang(open) && r.codeLines == body
  {
    var inBlock := CloseList(st).(inCode := true, codeLang := FenceLang(open), codeLines := []);
    FenceRun(st, open, body);
    EmptyBlockBody(inBlock, body);
  }

  lemma EmptyBlockBody(st: State, body: seq<string>)
    requires st.inCode && st.codeLines == [] && NoFence(body)
    ensures Run(st, body) == st.(codeLines := body)
  {
    CodeBody(st, body);
    assert st.codeLines + body == body;
  }

  lemma FenceRun(st: State, open: string, body: seq<string>)
    requires !st.inCode && IsFence(StripLine(open))
    ensures Run(st, [open] + body)
      == Run(CloseList(st).(inCode := true, codeLang := FenceLang(open), codeLines := []), body)
  {
    var lines := [open] + body;
    assert lines[0] == open && lines[1..] == body;
    RunStep(st, lines);
    FenceOpens(st, open);
  }

  lemma FenceOpens(st: State, open: string)
    requires !st.inCode && IsFence(StripLine(open))
    ensures Step(st, open) == CloseList(st).(inCode := true, codeLang := FenceLang(open), codeLines := [])
  {
  }

  /**
    A fenced block becomes one `<pre>` part holding the lines between the
    fences unchanged, tagged with the language of the opening fence; an open
    list is closed first.
   */
  lemma FencedBlock(st: State, open: string, body: seq<string>, close: string)
    requires !st.inCode && IsFence(StripLine(open)) && IsFence(StripLine(close)) && NoFence(body)
    ensures var r := Run(st, [open] + body + [close]);
      && !r.inCode && !r.inList
      && r.parts == CloseList(st).parts + [Pre(FenceLang(open), body)]
  {
    OpenedBlock(st, open, body);
    RunAppend(st, [open] + body, [close]);
    var s2 := Run(st, [open] + body);
    assert Run(s2, [close]) == Run(Step(s2, close), []);
  }

  /** A fence left open at the end of the text still yields its `<pre>` part, last. */
  lemma UnclosedFence(st: State, open: string, body: seq<string>)
    requires !st.inCode && IsFence(StripLine(open)) && NoFence(body)
    ensures Finish(Run(st, [open] + body)).parts == CloseList(st).parts + [Pre(FenceLang(open), body)]
  {
    OpenedBlock(st, open, body);
  }

  /** A code block without a language gets a bare `<code>`. */
  lemma PreWithoutLang(code: seq<string>)
    ensures PartHtml(Pre("", code)) == "<pre><code>" + Html.Escape(Join(code, "\n")) + "</code></pre>"
  {
    var e := Html.Escape(Join(code, "\n"));
    assert ClassAttr("") == "";
    assert "<pre><code" + "" + ">" == "<pre><code>";
    assert "<pre><code" + "" + ">" + e + "</code></pre>" == "<pre><code>" + e + "</code></pre>";
  }

  /** A language becomes an escaped `class="language-…"` attribute. */
  lemma PreWithLang(lang: string, code: seq<string>)
    requires lang != ""
    ensures PartHtml(Pre(lang, code))
      == "<pre><code class=\"language-" + Html.Escape(lang) + "\">" + Html.Escape(Join(code, "\n")) + "</code></pre>"
  {
    PreShape(lang, code);
    PreAttrText(Html.Escape(lang), Html.Escape(Join(code, "\n")));
  }

  /** String regrouping kept apart from `PartHtml`, which is costly to unfold. */
  lemma PreAttrText(l: string, e: string)
    ensures "<pre><code" + (" class=\"language-" + l + "\"") + ">" + e + "</code></pre>"
      == "<pre><code class=\"language-" + l + "\">" + e + "</code></pre>"
  {
  }

  lemma PreShape(lang: string, code: seq<string>)
    requires lang != ""
    ensures PartHtml(Pre(lang, code))
      == "<pre><code" + (" class=\"language-" + Html.Escape(lang) + "\"") + ">" + Html.Escape(Join(code, "\n")) + "</code></pre>"
  {
  }

  /**
    `h` reads back as a `<pre>` block of `code` tagged with `lang`: an escaped
    body that unescapes to the lines joined by `\n`, and an attribute that is
    absent exactly without a language and otherwise holds the language
    escaped.
   */
  predicate PreReads(h: string, lang: string, code: seq<string>, attr: string, a: string, e: string) {
    && h == "<pre><code" + attr + ">" + e + "</code></pre>"
    && Html.AllInert(e) && Html.Unescape(e) == Join(code, "\n")
    && (lang == "" <==> attr == "")
    && (lang != "" ==> attr == " class=\"language-" + a + "\"" && Html.AllInert(a) && Html.Unescape(a) == lang)
  }

  /** The HTML of a code block gives back its lines and its language. */
  lemma PreReadsBack(lang: string, code: seq<string>)
    ensures exists attr: string, a: string, e: string :: PreReads(PartHtml(Pre(lang, code)), lang, code, attr, a, e)
  {
    var e := Html.Escape(Join(code, "\n"));
    PreParts(lang, code);
    PreReadsOf(PartHtml(Pre(lang, code)), lang, code, ClassAttr(lang), Html.Escape(lang), e);
  }

  lemma PreParts(lang: string, code: seq<string>)
    ensures PartHtml(Pre(lang, code)) == "<pre><code" + ClassAttr(lang) + ">" + Html.Escape(Join(code, "\n")) + "</code></pre>"
  {
  }

  lemma PreReadsOf(h: string, lang: string, code: seq<string>, attr: string, a: string, e: string)
    requires e == Html.Escape(Join(code, "\n")) && a == Html.Escape(lang) && attr == ClassAttr(lang)
    requires h == "<pre><code" + attr + ">" + e + "</code></pre>"
    ensures PreReads(h, lang, code, attr, a, e)
  {
    Html.UnescapeEscape(Join(code, "\n"));
    Html.UnescapeEscape(lang);
  }

  // ---------------------------------------------------------------- output

  lemma JoinStartsWithFirst(parts: seq<string>, sep: string)
    requires |parts| > 0
    ensures StartsWith(Join(parts, sep), parts[0])
  {
  }

  /** The document never starts with a blank line: it is empty or starts with a tag. */
  lemma OutputStartsWithTag(md: string)
    ensures MarkdownToHtml(md) == "" || MarkdownToHtml(md)[0] == '<'
  {
    var cleaned := Collapse(Parts(md));
    var htmls := seq(|cleaned|, i requires 0 <= i < |cleaned| => PartHtml(cleaned[i]));
    if |cleaned| > 0 {
      JoinStartsWithFirst(htmls, "\n");
      assert htmls[0] == PartHtml(cleaned[0]);
    }
  }
}
