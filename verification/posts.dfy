/**
  `parse_post` of blog/build.py without the file read: the text of a post
  file and the file's stem in, a post record or the error Python would raise
  out.
 */
module Posts {
  import opened Text
  import opened Results
  import opened Dates
  import opened FrontMatter
  import Blocks

  /** The exceptions `parse_post` can raise, in the order it checks for them. */
  datatype PostError =
    | MissingFrontMatter
    | MalformedLine(line: string)
    | MissingRequiredField
    | EmptyBody
    | InvalidDate(value: string)

  /** The dictionary `parse_post` returns. */
  datatype Post = Post(
    slug: string,
    title: string,
    date: Date,
    displayDate: string,
    summary: string,
    contentHtml: string)

  /** `meta.get(key) or fallback`: the value unless it is missing or empty. */
  function GetOr(meta: map<string, string>, key: string, fallback: string): string {
    if key in meta && meta[key] != "" then meta[key] else fallback
  }

  /** `body.strip().splitlines()[0]`, or `EmptyBody` where Python raises `IndexError`. */
  function FirstBodyLine(body: string): Result<string, PostError> {
    var lines := SplitLines(Strip(body));
    if |lines| == 0 then Failure(EmptyBody) else Success(lines[0])
  }

  /** The summary: the `summary` field, or else the first line of the body. */
  function Summary(meta: map<string, string>, body: string): Result<string, PostError> {
    if "summary" in meta && meta["summary"] != "" then Success(meta["summary"])
    else FirstBodyLine(body)
  }

  /** The steps of `parse_post` after the header has been read. */
  function BuildPost(stem: string, meta: map<string, string>, body: string): Result<Post, PostError> {
    if "title" !in meta || "date" !in meta then Failure(MissingRequiredField)
    else
      var slug := GetOr(meta, "slug", stem);
      match Summary(meta, body)
      case Failure(e) => Failure(e)
      case Success(summary) =>
        match ParseDate(meta["date"])
        case None => Failure(InvalidDate(meta["date"]))
        case Some(d) =>
          Success(Post(slug, meta["title"], d, DisplayDate(d), summary,
                       Blocks.MarkdownToHtml(Strip(body))))
  }

  /** `parse_post(md_path)` for a file named `stem`.md holding `text`. */
  function ParsePost(stem: string, text: string): Result<Post, PostError> {
    var raw := Strip(text);
    match SplitFrontMatter(raw)
    case None => Failure(MissingFrontMatter)
    case Some((header, body)) =>
      match ParseHeader(SplitLines(header))
      case Failure(line) => Failure(MalformedLine(line))
      case Success(meta) => BuildPost(stem, meta, body)
  }

  // ---------------------------------------------------------------- facts

  /** The split front matter and the parsed header of a post text. */
  predicate Parsed(text: string, header: string, body: string, meta: map<string, string>) {
    SplitFrontMatter(Strip(text)) == Some((header, body)) && ParseHeader(SplitLines(header)) == Success(meta)
  }

  /**
    The body of a post is never blank: the text is stripped before the split,
    so it ends in a non-space character, which the body must hold since the
    closing `---` line ends in a line break.
   */
  lemma BodyNotBlank(text: string, header: string, body: string)
    requires SplitFrontMatter(Strip(text)) == Some((header, body))
    ensures |Strip(body)| > 0 && !IsSpace(Strip(body)[0])
  {
    var raw := Strip(text);
    assert raw == "---\n" + header + "\n---\n" + body;
    assert |raw| > 0 && !IsSpace(raw[|raw| - 1]);
    if |body| == 0 {
      assert false;
    }
    assert body[|body| - 1] == raw[|raw| - 1];
    StripKeepsLastNonSpace(body);
  }

  /** So the first-line default of the summary always exists and is never empty. */
  lemma FirstBodyLineExists(text: string, header: string, body: string)
    requires SplitFrontMatter(Strip(text)) == Some((header, body))
    ensures FirstBodyLine(body).Success? && FirstBodyLine(body).value != ""
  {
    BodyNotBlank(text, header, body);
    FirstLineNonEmpty(Strip(body));
  }

  /** With a header read, `ParsePost` is `BuildPost` on it. */
  lemma ParsedBuilds(stem: string, text: string, header: string, body: string, meta: map<string, string>)
    requires Parsed(text, header, body, meta)
    ensures ParsePost(stem, text) == BuildPost(stem, meta, body)
  {
  }

  /** `BuildPost` fails with `EmptyBody` only when the body has no first line. */
  lemma BuildEmptyBody(stem: string, meta: map<string, string>, body: string)
    ensures BuildPost(stem, meta, body) == Failure(EmptyBody) ==> FirstBodyLine(body).Failure?
  {
  }

  /** `IndexError` on the summary line cannot happen. */
  lemma NeverEmptyBody(stem: string, text: string)
    ensures ParsePost(stem, text) != Failure(EmptyBody)
  {
    match SplitFrontMatter(Strip(text))
    case None =>
    case Some((header, body)) =>
      match ParseHeader(SplitLines(header))
      case Failure(_) =>
      case Success(meta) =>
        FirstBodyLineExists(text, header, body);
        BuildEmptyBody(stem, meta, body);
        ParsedBuilds(stem, text, header, body, meta);
  }

  /** A text that does not match the front-matter pattern is rejected first, and only such a text. */
  lemma MissingFrontMatterIff(stem: string, text: string)
    ensures ParsePost(stem, text) == Failure(MissingFrontMatter) <==> SplitFrontMatter(Strip(text)).None?
  {
    match SplitFrontMatter(Strip(text))
    case None =>
    case Some((header, body)) =>
      match ParseHeader(SplitLines(header))
      case Failure(_) =>
      case Success(meta) =>
        ParsedBuilds(stem, text, header, body, meta);
        BuildNeverMissing(stem, meta, body);
  }

  /** Once the front matter is split, it is never reported missing. */
  lemma BuildNeverMissing(stem: string, meta: map<string, string>, body: string)
    ensures BuildPost(stem, meta, body) != Failure(MissingFrontMatter)
  {
  }

  /** A header line without a colon rejects the post, naming the first such line. */
  lemma MalformedLineIff(stem: string, text: string, header: string, body: string)
    requires SplitFrontMatter(Strip(text)) == Some((header, body))
    ensures var lines := SplitLines(header);
      var i := FirstMalformed(Classify(lines));
      && (ParsePost(stem, text).Failure? && ParsePost(stem, text).error.MalformedLine? <==> i < |lines|)
      && (i < |lines| ==> ParsePost(stem, text) == Failure(MalformedLine(lines[i])))
  {
    var lines := SplitLines(header);
    HeaderFailsOnFirstMalformed(lines);
    match ParseHeader(lines)
    case Failure(line) =>
      assert ParsePost(stem, text) == Failure(MalformedLine(line));
    case Success(meta) =>
      ParsedBuilds(stem, text, header, body, meta);
      BuildNeverMalformed(stem, meta, body);
  }

  /** Once the header is read, no line is reported as malformed. */
  lemma BuildNeverMalformed(stem: string, meta: map<string, string>, body: string)
    ensures !(BuildPost(stem, meta, body).Failure? && BuildPost(stem, meta, body).error.MalformedLine?)
  {
  }

  /** Once the header is read, `title` and `date` are required, then the date must be valid. */
  lemma HeaderChecks(stem: string, text: string, header: string, body: string, meta: map<string, string>)
    requires Parsed(text, header, body, meta)
    ensures ParsePost(stem, text) == Failure(MissingRequiredField) <==> "title" !in meta || "date" !in meta
    ensures ParsePost(stem, text).Failure? && ParsePost(stem, text).error.InvalidDate?
      <==> "title" in meta && "date" in meta && ParseDate(meta["date"]).None?
    ensures ParsePost(stem, text).Failure? && ParsePost(stem, text).error.InvalidDate?
      ==> ParsePost(stem, text).error.value == meta["date"]
    ensures ParsePost(stem, text).Success?
      <==> "title" in meta && "date" in meta && ParseDate(meta["date"]).Some?
  {
    ParsedBuilds(stem, text, header, body, meta);
    FirstBodyLineExists(text, header, body);
    BuildChecks(stem, meta, body);
  }

  /** The checks of `BuildPost` when the body has a first line. */
  lemma BuildChecks(stem: string, meta: map<string, string>, body: string)
    requires FirstBodyLine(body).Success?
    ensures var r := BuildPost(stem, meta, body);
      && (r == Failure(MissingRequiredField) <==> "title" !in meta || "date" !in meta)
      && (r.Failure? && r.error.InvalidDate? <==> "title" in meta && "date" in meta && ParseDate(meta["date"]).None?)
      && (r.Failure? && r.error.InvalidDate? ==> r.error.value == meta["date"])
      && (r.Success? <==> "title" in meta && "date" in meta && ParseDate(meta["date"]).Some?)
  {
  }

  /** The fields `BuildPost` fills from the header. */
  lemma BuildHeaderFields(stem: string, meta: map<string, string>, body: string)
    requires BuildPost(stem, meta, body).Success?
    ensures var p := BuildPost(stem, meta, body).value;
      && p.title == meta["title"]
      && ParseDate(meta["date"]) == Some(p.date) && ValidDate(p.date)
      && p.displayDate == DisplayDate(p.date)
      && ("slug" in meta && meta["slug"] != "" ==> p.slug == meta["slug"])
      && (("slug" !in meta || meta["slug"] == "") ==> p.slug == stem)
  {
  }

  /** The fields `BuildPost` fills from the body. */
  lemma BuildBodyFields(stem: string, meta: map<string, string>, body: string)
    requires BuildPost(stem, meta, body).Success?
    ensures var p := BuildPost(stem, meta, body).value;
      && ("summary" in meta && meta["summary"] != "" ==> p.summary == meta["summary"])
      && (("summary" !in meta || meta["summary"] == "") ==> p.summary == FirstBodyLine(body).value)
      && p.contentHtml == Blocks.MarkdownToHtml(Strip(body))
  {
  }

  /**
    The fields of a parsed post: the title as written, the slug and summary
    from the header unless missing or empty, else the file stem and the first
    body line; a valid date and its display form; the body rendered.
   */
  lemma PostFields(stem: string, text: string, header: string, body: string, meta: map<string, string>)
    requires Parsed(text, header, body, meta) && ParsePost(stem, text).Success?
    ensures var p := ParsePost(stem, text).value;
      && p.title == meta["title"]
      && ParseDate(meta["date"]) == Some(p.date) && ValidDate(p.date)
      && p.displayDate == DisplayDate(p.date)
      && ("slug" in meta && meta["slug"] != "" ==> p.slug == meta["slug"])
      && (("slug" !in meta || meta["slug"] == "") ==> p.slug == stem)
      && ("summary" in meta && meta["summary"] != "" ==> p.summary == meta["summary"])
      && (("summary" !in meta || meta["summary"] == "") ==> p.summary == SplitLines(Strip(body))[0])
      && p.summary != ""
      && p.contentHtml == Blocks.MarkdownToHtml(Strip(body))
  {
    ParsedBuilds(stem, text, header, body, meta);
    FirstBodyLineExists(text, header, body);
    BuildHeaderFields(stem, meta, body);
    BuildBodyFields(stem, meta, body);
  }
}
