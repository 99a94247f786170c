/**
  Front matter of a post (blog/build.py, `FRONT_MATTER_RE` and the header
  loop of `parse_post`): the stripped text must read
  `---\n<header>\n---\n<body>`, the header being the shortest such span,
  and every non-blank header line is a `key: value` pair.
 */
module FrontMatter {
  import opened Text
  import opened Results

  /** The closing delimiter `\n---\n` starts at index `k` of `s`. */
  predicate DelimAt(s: string, k: nat) {
    k + 5 <= |s| && s[k..k + 5] == "\n---\n"
  }

  /** First index at or after `k` where the closing delimiter starts, or `|s|`. */
  function FindDelim(s: string, k: nat): (j: nat)
    requires k <= |s|
    ensures k <= j <= |s|
    ensures j < |s| ==> DelimAt(s, j)
    ensures forall i :: k <= i < j ==> !DelimAt(s, i)
    decreases |s| - k
  {
    if k == |s| || DelimAt(s, k) then k else FindDelim(s, k + 1)
  }

  /**
    `FRONT_MATTER_RE.match(raw)` with `^---\n(.*?)\n---\n(.*)$` in DOTALL
    mode: `Some((header, body))` for the lazy (shortest) header, `None` when
    the pattern does not match.
   */
  function SplitFrontMatter(raw: string): (r: Option<(string, string)>)
    ensures r.Some? ==> raw == "---\n" + r.value.0 + "\n---\n" + r.value.1
    ensures r.Some? ==> forall k :: 4 <= k < 4 + |r.value.0| ==> !DelimAt(raw, k)
    ensures r.None? <==> !StartsWith(raw, "---\n") || forall k :: 4 <= k ==> !DelimAt(raw, k)
  {
    if !StartsWith(raw, "---\n") then None
    else
      var j := FindDelim(raw, 4);
      if j == |raw| then None
      else
        var header, body := raw[4..j], raw[j + 5..];
        assert raw == raw[..4] + raw[4..j] + raw[j..j + 5] + raw[j + 5..];
        Some((header, body))
  }

  /**
    The converse: a text assembled from a header that holds no earlier
    closing delimiter splits back into that header and that body.
   */
  lemma SplitAssembled(header: string, body: string)
    requires var raw := "---\n" + header + "\n---\n" + body;
      forall k :: 4 <= k < 4 + |header| ==> !DelimAt(raw, k)
    ensures SplitFrontMatter("---\n" + header + "\n---\n" + body) == Some((header, body))
  {
    var raw := "---\n" + header + "\n---\n" + body;
    assert raw[..4] == "---\n";
    assert DelimAt(raw, 4 + |header|) by {
      assert raw[4 + |header|..4 + |header| + 5] == "\n---\n";
    }
    var r := SplitFrontMatter(raw);
    assert r.Some?;
    assert |r.value.0| == |header|;
    assert r.value.0 == raw[4..4 + |header|] == header;
    assert r.value.1 == raw[4 + |header| + 5..] == body;
  }

  /** `not line.strip()`: the header loop skips such lines. */
  predicate IsBlank(line: string) {
    AllSpace(line)
  }

  /** How the header loop treats one line. */
  datatype HeaderLine = Skip | Malformed(line: string) | Pair(key: string, value: string)

  /**
    Blank lines are skipped, a line without a colon is malformed, and
    otherwise `key, value = line.split(":", 1)` is stripped on both sides.
   */
  function ClassifyLine(line: string): HeaderLine {
    if IsBlank(line) then Skip
    else
      var i := IndexOf(line, ':', 0);
      if i == |line| then Malformed(line)
      else Pair(Strip(line[..i]), Strip(line[i + 1..]))
  }

  /** A non-blank line splits at its first colon, whatever follows it. */
  lemma ClassifySplitsAtFirstColon(before: string, after: string)
    requires forall k :: 0 <= k < |before| ==> before[k] != ':'
    ensures var line := before + ":" + after;
      !IsBlank(line) && ClassifyLine(line) == Pair(Strip(before), Strip(after))
  {
    var line := before + ":" + after;
    assert line[|before|] == ':';
    assert !IsSpace(line[|before|]);
    IndexOfFound(line, ':', 0, |before|);
    assert line[..|before|] == before && line[|before| + 1..] == after;
  }

  /** The header loop over classified lines: first malformed line aborts, later pairs overwrite. */
  function ParseEntries(es: seq<HeaderLine>): (r: Result<map<string, string>, string>)
    decreases |es|
  {
    if |es| == 0 then Success(map[])
    else
      match ParseEntries(es[..|es| - 1])
      case Failure(e) => Failure(e)
      case Success(m) =>
        match es[|es| - 1]
        case Skip => Success(m)
        case Malformed(line) => Failure(line)
        case Pair(k, v) => Success(m[k := v])
  }

  function Classify(lines: seq<string>): (es: seq<HeaderLine>)
    ensures |es| == |lines| && forall i :: 0 <= i < |lines| ==> es[i] == ClassifyLine(lines[i])
  {
    seq(|lines|, i requires 0 <= i < |lines| => ClassifyLine(lines[i]))
  }

  /** The `for line in front_matter.splitlines()` loop of `parse_post`. */
  function ParseHeader(lines: seq<string>): Result<map<string, string>, string> {
    ParseEntries(Classify(lines))
  }

  /** Index of the first malformed entry, or `|es|`. */
  function FirstMalformed(es: seq<HeaderLine>): (i: nat)
    ensures i <= |es|
    ensures i < |es| ==> es[i].Malformed?
    ensures forall j :: 0 <= j < i ==> !es[j].Malformed?
  {
    if |es| == 0 then 0
    else if es[0].Malformed? then 0
    else 1 + FirstMalformed(es[1..])
  }

  lemma {:induction false} FirstMalformedPrefix(es: seq<HeaderLine>)
    requires |es| > 0
    ensures var p := es[..|es| - 1];
      FirstMalformed(es) == if FirstMalformed(p) < |p| then FirstMalformed(p)
        else if es[|es| - 1].Malformed? then |p| else |es|
    decreases |es|
  {
    var p := es[..|es| - 1];
    if |es| > 1 && !es[0].Malformed? {
      FirstMalformedPrefix(es[1..]);
      assert es[1..][..|es| - 2] == p[1..];
    }
  }

  /**
    Parsing fails exactly when some line is malformed, and the error carries
    the first malformed line.
   */
  lemma {:induction false} EntriesFailOnFirstMalformed(es: seq<HeaderLine>)
    ensures ParseEntries(es).Failure? <==> FirstMalformed(es) < |es|
    ensures ParseEntries(es).Failure? ==> ParseEntries(es).error == es[FirstMalformed(es)].line
    decreases |es|
  {
    if |es| > 0 {
      EntriesFailOnFirstMalformed(es[..|es| - 1]);
      FirstMalformedPrefix(es);
    }
  }

  /** The header fails exactly on a malformed line, naming the first one verbatim. */
  lemma HeaderFailsOnFirstMalformed(lines: seq<string>)
    ensures var i := FirstMalformed(Classify(lines));
      && (ParseHeader(lines).Failure? <==> i < |lines|)
      && (i < |lines| ==> ParseHeader(lines).error == lines[i])
      && (i < |lines| ==> !IsBlank(lines[i]) && forall k :: 0 <= k < |lines[i]| ==> lines[i][k] != ':')
  {
    EntriesFailOnFirstMalformed(Classify(lines));
  }

  /** Index of the last pair for `key`, or -1. */
  function LastPair(es: seq<HeaderLine>, key: string): (i: int)
    ensures -1 <= i < |es|
    ensures i >= 0 ==> es[i].Pair? && es[i].key == key
    ensures forall j :: i < j < |es| ==> !(es[j].Pair? && es[j].key == key)
    decreases |es|
  {
    if |es| == 0 then -1
    else if es[|es| - 1].Pair? && es[|es| - 1].key == key then |es| - 1
    else
      var p := es[..|es| - 1];
      assert forall j :: 0 <= j < |p| ==> p[j] == es[j];
      LastPair(p, key)
  }

  /**
    A parsed header holds exactly the keys some line defines, each with the
    value of the last line defining it.
   */
  lemma {:induction false} EntriesLastWins(es: seq<HeaderLine>, key: string)
    requires ParseEntries(es).Success?
    ensures key in ParseEntries(es).value <==> LastPair(es, key) >= 0
    ensures key in ParseEntries(es).value ==> ParseEntries(es).value[key] == es[LastPair(es, key)].value
    decreases |es|
  {
    if |es| > 0 {
      var p := es[..|es| - 1];
      EntriesLastWins(p, key);
      if LastPair(p, key) >= 0 {
        assert es[LastPair(p, key)] == p[LastPair(p, key)];
      }
    }
  }

  lemma HeaderLastWins(lines: seq<string>, key: string)
    requires ParseHeader(lines).Success?
    ensures var i := LastPair(Classify(lines), key);
      && (key in ParseHeader(lines).value <==> i >= 0)
      && (i >= 0 ==> ParseHeader(lines).value[key] == ClassifyLine(lines[i]).value)
  {
    EntriesLastWins(Classify(lines), key);
  }
}
