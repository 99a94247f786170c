/**
  `markdown_to_html` of blog/build.py: a line-by-line state machine that
  turns headings, `- ` list items, fenced code blocks, paragraphs and blank
  lines into HTML parts, followed by a pass that drops leading and repeated
  blank parts, and a final `"\n".join`.
 */
module Blocks {
  import opened Text
  import Html
  import Inline

  // ---------------------------------------------------------------- parts

  /**
    One entry of `html_parts`. Headings, items and paragraphs keep the
    Markdown text that `render_inline` turns into their content (rendering is
    a pure function, so it is applied when the part is written out); a code
    block keeps its language and its raw lines.
   */
  datatype Part =
    | Blank
    | ListOpen
    | ListClose
    | Heading(level: nat, text: string)
    | Item(text: string)
    | Para(text: string)
    | Pre(lang: string, code: seq<string>)

  /** ` class="language-<lang>"`, present only for a non-empty language. */
  function ClassAttr(lang: string): string {
    if lang == "" then "" else " class=\"language-" + Html.Escape(lang) + "\""
  }

  /** The HTML string of a part. */
  function PartHtml(p: Part): (r: string)
    ensures r == "" <==> p.Blank?
    ensures r != "" ==> r[0] == '<'
  {
    match p
    case Blank => ""
    case ListOpen => "<ul>"
    case ListClose => "</ul>"
    case Heading(n, s) => "<h" + NatToString(n) + ">" + Inline.RenderInline(s) + "</h" + NatToString(n) + ">"
    case Item(s) => "<li>" + Inline.RenderInline(s) + "</li>"
    case Para(s) => "<p>" + Inline.RenderInline(s) + "</p>"
    case Pre(lang, code) =>
      "<pre><code" + ClassAttr(lang) + ">" + Html.Escape(Join(code, "\n")) + "</code></pre>"
  }

  // ---------------------------------------------------------------- state

  /** The loop variables of `markdown_to_html`. */
  datatype State = State(
    inList: bool,
    inCode: bool,
    codeLang: string,
    codeLines: seq<string>,
    parts: seq<Part>)

  const Init := State(false, false, "", [], [])

  /** `close_list()`. */
  function CloseList(st: State): (r: State)
    ensures !r.inList && r.inCode == st.inCode && r.codeLang == st.codeLang && r.codeLines == st.codeLines
    ensures r.parts == st.parts + (if st.inList then [ListClose] else [])
  {
    if st.inList then st.(parts := st.parts + [ListClose], inList := false) else st
  }

  /** `close_code_block()`. */
  function CloseCode(st: State): (r: State)
    ensures !r.inCode && r.inList == st.inList
    ensures r.parts == st.parts + (if st.inCode then [Pre(st.codeLang, st.codeLines)] else [])
  {
    if st.inCode then
      st.(parts := st.parts + [Pre(st.codeLang, st.codeLines)], inCode := false, codeLines := [], codeLang := "")
    else st
  }

  /** `stripped.startswith("```")`. */
  predicate IsFence(stripped: string) {
    StartsWith(stripped, "```")
  }

  /** The part a line outside any code block adds, apart from list bookkeeping. */
  function LinePart(stripped: string): Part
    requires stripped != ""
  {
    if StartsWith(stripped, "### ") then Heading(3, stripped[4..])
    else if StartsWith(stripped, "## ") then Heading(2, stripped[3..])
    else if StartsWith(stripped, "# ") then Heading(1, stripped[2..])
    else if StartsWith(stripped, "- ") then Item(Strip(stripped[2..]))
    else Para(stripped)
  }

  /** A fence line: it closes the open code block, or closes any list and opens one. */
  function FenceLine(st: State, stripped: string): State
    requires IsFence(stripped)
  {
    if st.inCode then CloseCode(st)
    else CloseList(st).(inCode := true, codeLang := Strip(stripped[3..]), codeLines := [])
  }

  /** A non-blank line outside code: an item opens a list if needed, anything else closes it. */
  function BlockLine(st: State, p: Part): State {
    if p.Item? then
      var s1 := if st.inList then st else st.(parts := st.parts + [ListOpen], inList := true);
      s1.(parts := s1.parts + [p])
    else
      var s1 := CloseList(st);
      s1.(parts := s1.parts + [p])
  }

  /** A blank line outside code closes any list and leaves an empty part. */
  function BlankLine(st: State): State {
    var s1 := CloseList(st);
    s1.(parts := s1.parts + [Blank])
  }

  /** `raw_line.rstrip().strip()`. */
  function StripLine(rawLine: string): string {
    Strip(RStrip(rawLine))
  }

  /** One iteration of `for raw_line in lines`. */
  function Step(st: State, rawLine: string): State {
    var stripped := StripLine(rawLine);
    if IsFence(stripped) then FenceLine(st, stripped)
    else if st.inCode then st.(codeLines := st.codeLines + [rawLine])
    else if stripped == "" then BlankLine(st)
    else BlockLine(st, LinePart(stripped))
  }

  /** The loop over the lines, from state `st`. */
  function Run(st: State, lines: seq<string>): State
    decreases |lines|
  {
    if |lines| == 0 then st else Run(Step(st, lines[0]), lines[1..])
  }

  /** `close_list(); close_code_block()` after the loop. */
  function Finish(st: State): State {
    CloseCode(CloseList(st))
  }

  /** `html_parts` at the end of `markdown_to_html`, before blank collapsing. */
  function Parts(md: string): seq<Part> {
    Finish(Run(Init, SplitLines(md))).parts
  }

  // ---------------------------------------------------------------- collapse

  /** No blank part first, and no two blank parts in a row. */
  predicate Collapsed(c: seq<Part>) {
    && (|c| > 0 ==> !c[0].Blank?)
    && forall i :: 0 < i < |c| ==> !(c[i - 1].Blank? && c[i].Blank?)
  }

  /**
    The "remove consecutive blank lines" loop: a blank part is appended only
    when `cleaned` is non-empty and does not end in a blank part.
   */
  function Collapse(ps: seq<Part>): (c: seq<Part>)
    ensures Collapsed(c)
    ensures |c| <= |ps|
    decreases |ps|
  {
    if |ps| == 0 then []
    else
      var c := Collapse(ps[..|ps| - 1]);
      var p := ps[|ps| - 1];
      if p.Blank? && (|c| == 0 || c[|c| - 1].Blank?) then c else c + [p]
  }

  /** `"\n".join(cleaned)`, the result of `markdown_to_html`. */
  function MarkdownToHtml(md: string): string {
    var cleaned := Collapse(Parts(md));
    Join(seq(|cleaned|, i requires 0 <= i < |cleaned| => PartHtml(cleaned[i])), "\n")
  }
}
