# Markdown engine of the blog builder, in Dafny

This project models the Markdown-to-HTML engine of `blog/build.py`. The
engine has three parts, all pure string processing once a post's text is in
memory.

- **`parse_post`**, without the file read. The text is stripped and split by
  `FRONT_MATTER_RE` into a header and a body. The header lines become a
  key/value map, `title` and `date` are required, and `slug` and `summary`
  get defaults. The date goes through `strptime("%Y-%m-%d")` and is shown as
  "Month D, YYYY". Each exception the function raises is a constructor of
  `Posts.PostError`, in the order the code checks for them.
- **`render_inline`**. Five substitution passes run in a fixed order:
  1. `LINK_RE` turns each link into a `__LINKn__` placeholder and renders
     its label recursively.
  2. `html.escape` escapes the whole text.
  3. `INLINE_CODE_RE` handles code spans.
  4. `BOLD_RE` handles bold.
  5. `ITALIC_RE` handles italic.

  Then the placeholders are replaced by their anchors. The model works on a
  sequence of segments (`Inline.Seg`): text characters, generated tags and
  placeholders. Each pass is a left-to-right scan for the leftmost match,
  resuming after it, as `re.sub` does. `Inline.RenderInline` flattens the
  segments back to a string.
- **`markdown_to_html`**. A fold of the loop state (`in_list`, `in_code`,
  `code_lang`, `code_lines`, `html_parts`) over the lines from
  `splitlines()`. Then comes the pass that drops leading and repeated blank
  parts, and finally `"\n".join`.

Supporting modules:

- `Text`: Python's `isspace`, `strip`, `splitlines`, `join` and decimal digits.
- `Html`: `html.escape`, with an unescape function as its inverse.
- `Dates`: the `%Y-%m-%d` subset of `strptime`, and the display form.
- `FrontMatter`: the header regex and the header loop.
- `Results`: `Option` and `Result`.

The proofs about the engine live in `InlineFacts`, `LinkFacts` (how links
are numbered and their anchors put back) and `BlockFacts`.

The model keeps some behaviours of the code that idealised Markdown would
not have. Each one is proved.

- **Links need a non-empty label and URL.** `[](u)` and `[l]()` stay
  literal, escaped text (`InlineFacts.EmptyLabelStaysLiteral`,
  `InlineFacts.EmptyUrlStaysLiteral`).
- **Code-span content is escaped twice.** It is escaped once with the whole
  text and once more by the code pass (`InlineFacts.CodeEscapedTwice`).
- **Code spans do not shield their content from emphasis.** `` `**x**` ``
  becomes `<code><strong>…</strong></code>`
  (`InlineFacts.CodeHoldsBoldText`).
- **Links inside bold stay whole.** A link inside `**…**` keeps its anchor
  whole inside `<strong>`, because anchors are restored only after the
  emphasis passes (`InlineFacts.BoldLink`).
- **Unpadded dates are accepted.** `strptime` takes an unpadded month and
  day, and a space-padded day, but needs a four-digit year. It rejects
  impossible calendar dates.
- **The empty-body error cannot happen.** The `IndexError` on the first
  body line (line 41) is unreachable: the stripped text always ends in a
  non-space character, which the body keeps (`Posts.NeverEmptyBody`).
- **A missing field is not named.** `MissingRequiredField` does not say
  whether `title` or `date` is the one missing (`Posts.HeaderChecks`).
- **Code lines stay raw.** Lines inside a code block keep their trailing
  whitespace (`BlockFacts.CodeBody`).

## Model

| member | source | states |
|---|---|---|
| Text.Strip | blog/build.py:25 | the result is the input with only leading and trailing whitespace (Python's `isspace` set) removed, and it neither starts nor ends with whitespace |
| Text.SplitLinesIff | blog/build.py:81 | `splitlines` characterised: a list is the lines of a text exactly when the text is those lines, each followed by a terminator (`\r\n` as one, or a single line boundary; a `\r` alone only when no `\n` follows it), the last line possibly without one and then non-empty |
| Text.SplitLinesSpell | blog/build.py:81 | the lines, each with the terminator `splitlines` dropped after it, spell the whole text back, for every text |
| Text.LinesOfUnique | blog/build.py:81 | a text can be cut into lines and terminators in only one such way |
| Text.JoinSplitLines | blog/build.py:81 | for a text whose only boundary is `\n` and that does not end in one, joining its lines with `\n` gives the text back |
| Text.FirstLineNonEmpty | blog/build.py:41 | a text starting with a non-space character has a non-empty first line |
| Text.NatToString | blog/build.py:64 | decimal digits with no leading zero whose value is the number |
| Html.Escape | blog/build.py:71 | the result holds no `<`, `>`, `"` or `'` and is the input itself when the input has no special character |
| Html.UnescapeEscape | blog/build.py:71 | escaping loses nothing: reading the five references back gives the original text |
| Html.EscapeInjective | blog/build.py:71 | two texts with the same escaped form are equal |
| Html.EscapeAppend | blog/build.py:71 | escaping works character by character, so it distributes over concatenation |
| Dates.ParseDateWritten | blog/build.py:42 | every accepted string is a four-digit year, `-`, the month zero-padded or unpadded, `-`, and the day zero-padded, unpadded or space-padded, with nothing before or after |
| Dates.ParseDateIff | blog/build.py:42 | a string parses to a date exactly when the date is valid and the string is one of those written forms of it |
| Dates.ParseWrittenDate | blog/build.py:42 | a valid date written with a four-digit year, and a month and day that are zero-padded, unpadded or (day only) space-padded, parses back to itself |
| Dates.IsoRoundTrip | blog/build.py:42 | the zero-padded ISO form of a valid date parses back to that date |
| Dates.RejectedDates | blog/build.py:42 | 2023-02-29, month 13 and a two-digit year are all rejected |
| Dates.ExampleParses | blog/build.py:42 | "2024-03-05" parses to 5 March 2024 |
| Dates.ExampleDisplays | blog/build.py:46 | 5 March 2024 is shown as "March 5, 2024" |
| Dates.DisplayDateInjective | blog/build.py:46 | two different dates never share a display string |
| FrontMatter.SplitFrontMatter | blog/build.py:26-29 | on a match the text is `---\n` + header + `\n---\n` + body, with no earlier closing delimiter inside the header (the lazy group); no match exactly when the text does not start with `---\n` or has no later `\n---\n` |
| FrontMatter.SplitAssembled | blog/build.py:17 | a text built from a header with no closing delimiter in it splits back into that header and body |
| FrontMatter.ClassifySplitsAtFirstColon | blog/build.py:36-37 | a non-blank line splits at its first colon, and the key and value are stripped |
| FrontMatter.EntriesFailOnFirstMalformed | blog/build.py:31-37 | the header loop fails exactly when some line is malformed, and the error carries the first malformed line |
| FrontMatter.HeaderFailsOnFirstMalformed | blog/build.py:34-35 | for the header's lines, the loop fails exactly on a line without a colon, naming the first such line verbatim |
| FrontMatter.EntriesLastWins | blog/build.py:36-37 | the map holds exactly the keys some line defines, each with the value of the last line defining it |
| FrontMatter.HeaderLastWins | blog/build.py:31-37 | the same for the header's lines: a later duplicate key overwrites an earlier one |
| Posts.MissingFrontMatterIff | blog/build.py:26-28 | a post fails with `MissingFrontMatter` exactly when the stripped text does not match the front-matter pattern |
| Posts.MalformedLineIff | blog/build.py:34-35 | a post fails with a malformed-line error exactly when a header line lacks a colon, and the error names the first such line |
| Posts.HeaderChecks | blog/build.py:38-42 | once the header is read, a missing `title` or `date` fails, then an invalid date fails carrying the date string, and the post succeeds exactly when both fields exist and the date is valid |
| Posts.BuildChecks | blog/build.py:38-42 | the same checks on the steps after the header, when the body has a first line |
| Posts.NeverEmptyBody | blog/build.py:41 | the first-line default of the summary never fails: no post fails with `EmptyBody` |
| Posts.FirstBodyLineExists | blog/build.py:41 | the body of a split post always has a non-empty first line |
| Posts.BodyNotBlank | blog/build.py:25-29 | the body of a split post is never blank after stripping |
| Posts.PostFields | blog/build.py:40-57 | a parsed post has the title as written; the slug and summary from the header unless missing or empty, otherwise the file stem and the first body line; a valid date with its display form; and the stripped body rendered |
| Posts.BuildHeaderFields | blog/build.py:40-54 | the fields filled from the header: title, date and display date, and the slug or its stem default |
| Posts.BuildBodyFields | blog/build.py:41-56 | the fields filled from the body: the summary or its first-line default, and the rendered content |
| Inline.LinkAt | blog/build.py:21 | a link match covers `[label](url)` with a non-empty label free of `]` and a non-empty URL free of `)` |
| LinkFacts.ScanLinksLeftmost | blog/build.py:70 | the scan takes the leftmost match: each chunk starts where the ones before it end, a literal character sits where no link starts, and a link chunk is the match at its position, scanning resuming right after it |
| Inline.ScanLinksSource | blog/build.py:70 | cutting the text into links and literal characters loses nothing: the pieces spell the text back |
| LinkFacts.WithPlaceholdersAt | blog/build.py:63-64 | chunk `j` becomes segment `j`: a literal its own character, and a link with `k` links before it the placeholder `n + k` |
| Inline.ContentEnd | blog/build.py:18-20 | a match found at a position has content ending strictly after the opening delimiters and closing delimiters inside the text |
| InlineFacts.ContentEndIff | blog/build.py:18-20 | the matcher finds a span ending at `j` exactly when the pattern holds there: opening delimiters, non-empty content free of the delimiter character, closing delimiters, and for italic no `*` directly before or after |
| Inline.ScanSpansSource | blog/build.py:72-74 | each substitution pass cuts its input into kept segments and matches that spell the input back |
| Inline.ApplyRuleEscaped | blog/build.py:72-74 | a substitution pass keeps escaped input escaped |
| Inline.Markup | blog/build.py:71-74 | the code, bold and italic passes on escaped text leave it escaped |
| LinkFacts.RestoreAppend | blog/build.py:75-76 | putting anchors back works segment by segment, so it distributes over concatenation |
| LinkFacts.RestorePlaceholder | blog/build.py:75-76 | placeholder `n` is replaced by entry `n` of the anchor table |
| Inline.AnchorSafe | blog/build.py:66-67 | an anchor around a safe label is safe, because its URL is escaped |
| LinkFacts.AnchorsAt | blog/build.py:63-67 | the link with `k` links before it has its own anchor, label rendered and URL escaped, at entry `k` of the table |
| LinkFacts.RestoreChunks | blog/build.py:63-76 | once placeholders are numbered and escaped, putting the anchors back gives each character escaped and each link its own anchor, in the order of the chunks |
| LinkFacts.LinksInOrder | blog/build.py:60-77 | in a text without `*` or backticks, `render_inline` escapes each literal character and turns each link into its own anchor, in the place the link was written |
| LinkFacts.MarkupKeepsPlaceholders | blog/build.py:71-74 | the code, bold and italic substitutions keep every link placeholder, in order, neither dropping, adding nor reordering any |
| LinkFacts.LinksRestoredInOrder | blog/build.py:60-77 | with or without emphasis, the text reaching the restore loop holds the placeholders `0, 1, …` once each in the order the links were written, the anchor table has one entry per link, and entry `k` is the anchor of the link with `k` links before it |
| Inline.RenderSegs | blog/build.py:60-77 | the output is only escaped text and generated tags, with no placeholder left |
| InlineFacts.NoDelimIdentity | blog/build.py:72-74 | a pass leaves text without its delimiter unchanged |
| InlineFacts.PlainTextIsEscaped | blog/build.py:71 | text with no link, backtick or asterisk is only HTML-escaped |
| InlineFacts.SingleSpan | blog/build.py:72-74 | one delimited span and nothing else becomes one tagged element, and code content is escaped again |
| InlineFacts.BoldWraps | blog/build.py:73 | `**x**` renders as `<strong>` around the escaped `x` |
| InlineFacts.ItalicWraps | blog/build.py:74 | `*x*` renders as `<em>` around the escaped `x` |
| InlineFacts.CodeEscapedTwice | blog/build.py:71-72 | `` `x` `` renders as `<code>` around `x` escaped twice |
| InlineFacts.LoneStarStaysLiteral | blog/build.py:19-20 | a `*` that nothing closes stays a literal asterisk |
| InlineFacts.LinkSegs | blog/build.py:63-76 | a whole-text link becomes its anchor around the label rendered on its own, and the emphasis passes never see the URL |
| InlineFacts.LinkRenders | blog/build.py:63-67 | `[l](u)` renders as `<a href="u" target="_blank" rel="noopener">`, the URL attribute-escaped, the rendered label, then `</a>` |
| InlineFacts.EmptyLabelStaysLiteral | blog/build.py:21 | `[](u)` is no link: it is only escaped |
| InlineFacts.EmptyUrlStaysLiteral | blog/build.py:21 | `[l]()` is no link: it is only escaped |
| InlineFacts.BoldLinkSegs | blog/build.py:70-76 | a link inside bold keeps its whole anchor inside `<strong>` |
| InlineFacts.BoldLink | blog/build.py:73-76 | `**[l](u)**` renders as `<strong>` around the complete, unaltered anchor |
| InlineFacts.FramedApply | blog/build.py:73-74 | a pass over text framed by two non-delimiter segments keeps the frame and works only inside it |
| InlineFacts.CodeHoldsBold | blog/build.py:72-74 | after the code pass, the bold pass still matches `**` inside the `<code>` element |
| InlineFacts.CodeHoldsBoldText | blog/build.py:72-73 | `` `**x**` `` renders as `<code><strong>` around `x` escaped twice |
| BlockFacts.CloseListConsistent | blog/build.py:88-92 | closing a list keeps the state consistent with the parts and leaves no list open in them |
| Blocks.PartHtml | blog/build.py:122-142 | a part's HTML is empty exactly for a blank part, and otherwise starts with a tag |
| Blocks.Collapse | blog/build.py:145-150 | the result never starts with a blank part and never has two blank parts in a row |
| BlockFacts.CollapseIsRef | blog/build.py:146-150 | the loop keeps exactly the parts that are non-blank, or blank after a non-blank input part, in order |
| BlockFacts.CollapseKeepsContent | blog/build.py:146-150 | only blank parts are dropped: the non-blank parts are kept, in order |
| BlockFacts.CollapseCollapsed | blog/build.py:146-150 | parts that are already collapsed are left alone |
| BlockFacts.CollapseIdempotent | blog/build.py:146-150 | collapsing twice is collapsing once |
| BlockFacts.StepConsistent | blog/build.py:104-142 | each line keeps the state in agreement with the parts so far: the list flag matches an open `<ul>`, and a code block never sits inside a list |
| BlockFacts.RunConsistent | blog/build.py:104-142 | the same holds after any sequence of lines |
| BlockFacts.ListsWellFormed | blog/build.py:88-143 | in every document `<ul>` opens only outside a list, `<li>` and `</ul>` appear only inside one, nothing else appears inside one, and no list is left open at the end |
| BlockFacts.ListsBalanced | blog/build.py:135-143 | every document has as many `<ul>` as `</ul>` parts |
| BlockFacts.HeadingLevel | blog/build.py:126-134 | a line of one to three `#` and a space is a heading of that level whose text is the rest |
| BlockFacts.FourHashesIsParagraph | blog/build.py:126-142 | `#### ` does not start a heading: the line is a paragraph |
| BlockFacts.HashWithoutSpaceIsParagraph | blog/build.py:132-142 | `#` followed by a non-space, non-`#` character is a paragraph |
| BlockFacts.ItemLine | blog/build.py:135-139 | `- ` starts a list item whose text is the rest, stripped |
| BlockFacts.ItemKeepsList | blog/build.py:135-139 | inside a list, a `- ` line adds its item to the same list, opening and closing nothing |
| BlockFacts.ItemOpensList | blog/build.py:135-139 | outside a list, a `- ` line adds `<ul>` and then its item |
| BlockFacts.ItemsKeepList | blog/build.py:135-139 | inside a list, a run of `- ` lines adds exactly their items, in order, to that list |
| BlockFacts.ItemsShareList | blog/build.py:135-139 | outside a list, a run of `- ` lines gives one `<ul>` followed by all their items: consecutive items share one list |
| BlockFacts.CodeBody | blog/build.py:118-120 | inside a code block, fence-free lines are collected raw and interpret nothing |
| BlockFacts.OpenedBlock | blog/build.py:108-116 | an opening fence closes any open list and sets the language to the rest of the fence line, stripped |
| BlockFacts.FencedBlock | blog/build.py:108-120 | a fenced block becomes exactly one `<pre>` part holding the body lines unchanged, with the opening fence's language |
| BlockFacts.UnclosedFence | blog/build.py:143-144 | a fence still open at the end of the text yields its `<pre>` part, last |
| BlockFacts.PreReadsBack | blog/build.py:97-99 | the HTML of a code block is `<pre><code` + attribute + `>` + body + `</code></pre>`; the body holds no raw markup and unescapes to the lines joined by newlines; the attribute is empty exactly when there is no language, and otherwise is `class="language-…"` whose value holds no raw markup and unescapes to the language |
| BlockFacts.OutputStartsWithTag | blog/build.py:145-151 | the document is empty or starts with a tag, never with a blank line |

## Left out

- File and directory I/O are not modelled. This covers the template reads (lines 14-15), `read_text` (line 25), and `write_text` and `glob`. The post's text and the file's stem are parameters of `Posts.ParsePost`.
- `build_post`, `build_index` and `main` are not modelled: they are template substitution and printing around the engine.
- The `strftime("%-d")` try/except fallback (lines 43-48) is not modelled. `Dates.DisplayDate` states the intended result, a day without a leading zero, and does no platform detection.
- `script.js` is not modelled. It is browser interface code with no pure logic.
- User text containing a `__LINKn__`-like token is not modelled. Placeholders are segments of their own that no user text can spell, which assumes the input holds no such token.
- Dates.DisplayDate: pads the year to four digits. glibc's `strftime("%Y")` prints a year below 1000 without padding (`999`), so the display form of such a year is platform-dependent and the model fixes the padded one.
- LinkFacts.LinksInOrder: the whole output is given as an equation only for text without `*` or backticks. With emphasis, LinkFacts.LinksRestoredInOrder states that the placeholders reach the restore step unchanged and numbered in order. LinkFacts.AnchorsAt, LinkFacts.RestoreAppend and LinkFacts.RestorePlaceholder then say that each placeholder becomes its own link's anchor.
- Dates.ParseDate: reads `\d` as the ASCII digits only. Python's `re` also accepts other Unicode decimal digits.
- Posts.ParsePost: error messages are constructors of `PostError`, not formatted strings. Only the malformed line and the invalid date string, the parts a message carries, are kept.
- The dictionary order of `placeholders.items()` is not modelled. Placeholder `n` is restored from entry `n` of the anchor table, which gives the same text because the tokens are distinct.
