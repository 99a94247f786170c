/**
  How `render_inline` numbers links and puts their anchors back: the scan
  takes the leftmost match at every position, the k-th link becomes the k-th
  placeholder and the k-th entry of the anchor table, and each placeholder
  is replaced by its own entry, so the anchors come out where their links
  were written.
 */
module LinkFacts {
  import opened Text
  import Html
  import opened Inline
  import InlineFacts
  import opened Results

  // ---------------------------------------------------------------- scanning

  /** The source text of one chunk. */
  function ChunkText(c: LinkChunk): string {
    match c
    case Lit(ch) => [ch]
    case Link(l, u) => LinkText(l, u)
  }

  lemma LinkSourceCons(cs: seq<LinkChunk>)
    requires |cs| > 0
    ensures LinkSource(cs) == ChunkText(cs[0]) + LinkSource(cs[1..])
  {
  }

  /** Where chunk `k` of a scan that started at `i` begins in the text. */
  function ChunkStart(cs: seq<LinkChunk>, i: nat, k: nat): nat
    requires k <= |cs|
  {
    i + |LinkSource(cs[..k])|
  }

  /** Positions of the later chunks, counted from where the second chunk begins. */
  lemma ChunkStartCons(cs: seq<LinkChunk>, i: nat, next: nat, k: nat)
    requires 0 < k <= |cs| && next == i + |ChunkText(cs[0])|
    ensures ChunkStart(cs, i, k) == ChunkStart(cs[1..], next, k - 1)
  {
    assert cs[..k][0] == cs[0];
    assert cs[..k][1..] == cs[1..][..k - 1];
    LinkSourceCons(cs[..k]);
  }

  /** Where the scan resumes after the chunk at `i`. */
  function NextChunk(t: string, i: nat): (n: nat)
    requires i < |t|
    ensures i < n <= |t|
  {
    match LinkAt(t, i)
    case Some(m) => m.end
    case None => i + 1
  }

  /** The first chunk of a scan from `i`: the match at `i` if there is one, else the character. */
  lemma ScanHead(t: string, i: nat)
    requires i < |t|
    ensures var r := ScanLinks(t, i);
      && |r| > 0 && r[1..] == ScanLinks(t, NextChunk(t, i))
      && NextChunk(t, i) == i + |ChunkText(r[0])|
      && (r[0].Lit? ==> LinkAt(t, i).None? && r[0].c == t[i])
      && (r[0].Link? ==> LinkAt(t, i) == Some(LinkMatch(r[0].text, r[0].url, NextChunk(t, i))))
  {
    match LinkAt(t, i)
    case Some(m) =>
      ScanLink(t, i);
      assert |LinkText(m.text, m.url)| == m.end - i;
    case None =>
      ScanLit(t, i);
  }

  /**
    Chunk `k` of the scan `r` from `i` is what `LINK_RE.sub` finds there:
    it starts where the chunks before it end; a literal character sits
    where no link starts, and a link chunk is the match at its position,
    the next chunk starting right after that match.
   */
  predicate ChunkMatches(t: string, r: seq<LinkChunk>, i: nat, k: nat)
    requires k < |r|
  {
    var p := ChunkStart(r, i, k);
    && p < |t|
    && (r[k].Lit? ==> LinkAt(t, p).None? && r[k].c == t[p])
    && (r[k].Link? ==> LinkAt(t, p) == Some(LinkMatch(r[k].text, r[k].url, ChunkStart(r, i, k + 1))))
  }

  lemma ScanFirstChunk(t: string, i: nat)
    requires i < |t|
    ensures |ScanLinks(t, i)| > 0 && ChunkMatches(t, ScanLinks(t, i), i, 0)
  {
    var r := ScanLinks(t, i);
    ScanHead(t, i);
    ChunkStartCons(r, i, NextChunk(t, i), 1);
    assert r[..0] == [];
    assert r[1..][..0] == [];
  }

  /** What holds of chunk `k - 1` of the tail holds of chunk `k` of the whole scan. */
  lemma ChunkMatchesShift(t: string, r: seq<LinkChunk>, i: nat, next: nat, k: nat)
    requires 0 < k < |r| && next == i + |ChunkText(r[0])|
    requires ChunkMatches(t, r[1..], next, k - 1)
    ensures ChunkMatches(t, r, i, k)
  {
    ChunkStartCons(r, i, next, k);
    ChunkStartCons(r, i, next, k + 1);
    assert r[k] == r[1..][k - 1];
  }

  /** `LINK_RE.sub` scans leftmost first: every chunk of the scan is what the pattern finds at its position. */
  lemma {:induction false} ScanLinksLeftmost(t: string, i: nat, k: nat)
    requires i <= |t| && k < |ScanLinks(t, i)|
    ensures ChunkMatches(t, ScanLinks(t, i), i, k)
    decreases k
  {
    assert i < |t|;
    if k == 0 {
      ScanFirstChunk(t, i);
    } else {
      var next := NextChunk(t, i);
      ScanHead(t, i);
      ScanLinksLeftmost(t, next, k - 1);
      ChunkMatchesShift(t, ScanLinks(t, i), i, next, k);
    }
  }

  // ---------------------------------------------------------------- numbering

  lemma LinkCountCons(cs: seq<LinkChunk>, j: nat)
    requires 0 < j <= |cs|
    ensures LinkCount(cs[..j]) == (if cs[0].Link? then 1 else 0) + LinkCount(cs[1..][..j - 1])
  {
    assert cs[..j][0] == cs[0];
    assert cs[..j][1..] == cs[1..][..j - 1];
  }

  /**
    Chunk `j` becomes segment `j`: a literal its character, and the link
    with `k` links before it the placeholder `n + k`.
   */
  lemma {:induction false} WithPlaceholdersAt(cs: seq<LinkChunk>, n: nat, j: nat)
    requires j < |cs|
    ensures WithPlaceholders(cs, n)[j]
      == if cs[j].Lit? then Char(cs[j].c) else Placeholder(n + LinkCount(cs[..j]))
    decreases j
  {
    if j == 0 {
      assert cs[..0] == [];
    } else {
      LinkCountCons(cs, j);
      var m := if cs[0].Link? then n + 1 else n;
      WithPlaceholdersAt(cs[1..], m, j - 1);
      assert WithPlaceholders(cs, n)[j] == WithPlaceholders(cs[1..], m)[j - 1];
    }
  }

  /** The link with `k` links before it has its anchor at entry `k` of the table. */
  lemma {:induction false} AnchorsAt(t: string, cs: seq<LinkChunk>, j: nat)
    requires forall k :: 0 <= k < |cs| ==> cs[k].Link? ==> |cs[k].text| < |t|
    requires j < |cs| && cs[j].Link?
    ensures LinkCount(cs[..j]) < |Anchors(t, cs)|
    ensures Anchors(t, cs)[LinkCount(cs[..j])] == Anchor(cs[j].url, RenderSegs(cs[j].text))
    decreases j
  {
    if j == 0 {
      assert cs[..0] == [];
      AnchorsCons(t, cs);
    } else {
      assert forall k :: 0 <= k < |cs| - 1 ==> cs[1..][k] == cs[k + 1];
      AnchorsAt(t, cs[1..], j - 1);
      AnchorsAtStep(t, cs, j, Anchor(cs[j].url, RenderSegs(cs[j].text)));
    }
  }

  lemma AnchorsAtStep(t: string, cs: seq<LinkChunk>, j: nat, a: seq<Seg>)
    requires forall k :: 0 <= k < |cs| ==> cs[k].Link? ==> |cs[k].text| < |t|
    requires 0 < j <= |cs|
    requires LinkCount(cs[1..][..j - 1]) < |Anchors(t, cs[1..])|
    requires Anchors(t, cs[1..])[LinkCount(cs[1..][..j - 1])] == a
    ensures LinkCount(cs[..j]) < |Anchors(t, cs)| && Anchors(t, cs)[LinkCount(cs[..j])] == a
  {
    LinkCountCons(cs, j);
    AnchorsShift(t, cs);
    IndexShift(Anchors(t, cs), if cs[0].Link? then 1 else 0, Anchors(t, cs[1..]), LinkCount(cs[1..][..j - 1]));
  }

  lemma IndexShift<T>(whole: seq<T>, c: nat, tail: seq<T>, m: nat)
    requires c <= |whole| && whole[c..] == tail && m < |tail|
    ensures c + m < |whole| && whole[c + m] == tail[m]
  {
  }

  /** Dropping the first chunk drops its anchor, if it is a link. */
  lemma AnchorsShift(t: string, cs: seq<LinkChunk>)
    requires forall k :: 0 <= k < |cs| ==> cs[k].Link? ==> |cs[k].text| < |t|
    requires |cs| > 0
    ensures (if cs[0].Link? then 1 else 0) <= |Anchors(t, cs)|
    ensures Anchors(t, cs)[(if cs[0].Link? then 1 else 0)..] == Anchors(t, cs[1..])
  {
    AnchorsCons(t, cs);
  }

  lemma AnchorsCons(t: string, cs: seq<LinkChunk>)
    requires forall k :: 0 <= k < |cs| ==> cs[k].Link? ==> |cs[k].text| < |t|
    requires |cs| > 0
    ensures Anchors(t, cs)
      == (if cs[0].Link? then [Anchor(cs[0].url, RenderSegs(cs[0].text))] else []) + Anchors(t, cs[1..])
  {
  }

  // ---------------------------------------------------------------- restoring

  lemma RestoreCons(s: seq<Seg>, table: seq<seq<Seg>>)
    requires |s| > 0 && Escaped(s)
    requires forall k :: 0 <= k < |table| ==> Safe(table[k])
    ensures Escaped(s[1..]) && Restore(s, table) == RestoreSeg(s[0], table) + Restore(s[1..], table)
  {
    assert forall k :: 0 <= k < |s| - 1 ==> s[1..][k] == s[k + 1];
  }

  /** Restoring works segment by segment, so it distributes over concatenation. */
  lemma {:induction false} RestoreAppend(a: seq<Seg>, b: seq<Seg>, table: seq<seq<Seg>>)
    requires Escaped(a) && Escaped(b)
    requires forall k :: 0 <= k < |table| ==> Safe(table[k])
    ensures Escaped(a + b) && Restore(a + b, table) == Restore(a, table) + Restore(b, table)
    decreases |a|
  {
    EscapedAppend(a, b);
    if |a| == 0 {
      assert a + b == b;
    } else {
      InlineFacts.TailAppend(a, b);
      RestoreCons(a, table);
      RestoreCons(a + b, table);
      RestoreAppend(a[1..], b, table);
      InlineFacts.ConcatAssoc(RestoreSeg(a[0], table), Restore(a[1..], table), Restore(b, table));
    }
  }

  /** Placeholder `n` becomes entry `n` of the table. */
  lemma RestorePlaceholder(n: nat, table: seq<seq<Seg>>)
    requires n < |table|
    requires forall k :: 0 <= k < |table| ==> Safe(table[k])
    ensures Restore([Placeholder(n)], table) == table[n]
  {
    assert Restore([Placeholder(n)], table) == table[n] + Restore([], table);
  }

  // ---------------------------------------------------------------- links in order

  /**
    Reference for a text whose literal characters hold no emphasis
    delimiter: each character escaped, each link replaced by its own anchor,
    in the order of the chunks.
   */
  function Expanded(cs: seq<LinkChunk>): seq<Seg> {
    if |cs| == 0 then []
    else
      match cs[0]
      case Lit(c) => Chars(Html.EscapeChar(c)) + Expanded(cs[1..])
      case Link(l, u) => Anchor(u, RenderSegs(l)) + Expanded(cs[1..])
  }

  lemma EscapedPlaceholders(cs: seq<LinkChunk>, n: nat)
    ensures Escaped(EscapeSegs(WithPlaceholders(cs, n)))
  {
  }

  lemma PlaceholdersCons(cs: seq<LinkChunk>, n: nat)
    requires |cs| > 0
    ensures var m := if cs[0].Link? then n + 1 else n;
      EscapeSegs(WithPlaceholders(cs, n))
        == (if cs[0].Lit? then Chars(Html.EscapeChar(cs[0].c)) else [Placeholder(n)])
           + EscapeSegs(WithPlaceholders(cs[1..], m))
  {
    var m := if cs[0].Link? then n + 1 else n;
    var w := WithPlaceholders(cs, n);
    assert w[0] == (if cs[0].Lit? then Char(cs[0].c) else Placeholder(n));
    assert w[1..] == WithPlaceholders(cs[1..], m);
    InlineFacts.EscapeSegsCons(w);
  }

  lemma AnchorsTail(t: string, cs: seq<LinkChunk>)
    requires forall k :: 0 <= k < |cs| ==> cs[k].Link? ==> |cs[k].text| < |t|
    requires |cs| > 0
    ensures forall k :: 0 <= k < |cs| - 1 ==> cs[1..][k].Link? ==> |cs[1..][k].text| < |t|
    ensures Anchors(t, cs)
      == (if cs[0].Link? then [Anchor(cs[0].url, RenderSegs(cs[0].text))] else []) + Anchors(t, cs[1..])
  {
    assert forall k :: 0 <= k < |cs| - 1 ==> cs[1..][k] == cs[k + 1];
  }

  /** A literal character: its escape, which holds no placeholder, then the rest. */
  lemma RestoreLit(c: char, e: seq<Seg>, table: seq<seq<Seg>>)
    requires Escaped(e) && SafeTable(table)
    ensures Escaped(Chars(Html.EscapeChar(c)) + e)
    ensures Restore(Chars(Html.EscapeChar(c)) + e, table) == Chars(Html.EscapeChar(c)) + Restore(e, table)
  {
    var a := Chars(Html.EscapeChar(c));
    RestoreAppend(a, e, table);
    InlineFacts.RestoreNoPlaceholders(a, table);
  }

  /** A link: its placeholder, which the table maps to its anchor, then the rest. */
  lemma RestoreLink(n: nat, e: seq<Seg>, pre: seq<seq<Seg>>, a: seq<Seg>, rest: seq<seq<Seg>>)
    requires Escaped(e) && |pre| == n
    requires SafeTable(pre + [a] + rest)
    ensures Escaped([Placeholder(n)] + e)
    ensures Restore([Placeholder(n)] + e, pre + [a] + rest) == a + Restore(e, pre + [a] + rest)
  {
    var table := pre + [a] + rest;
    RestoreAppend([Placeholder(n)], e, table);
    RestorePlaceholder(n, table);
  }

  /** Every entry of the table is safe. */
  predicate SafeTable(table: seq<seq<Seg>>) {
    forall k :: 0 <= k < |table| ==> Safe(table[k])
  }

  lemma SafeTableAppend(a: seq<seq<Seg>>, b: seq<seq<Seg>>)
    requires SafeTable(a) && SafeTable(b)
    ensures SafeTable(a + b)
  {
    forall k | 0 <= k < |a + b| ensures Safe((a + b)[k]) {
      if k >= |a| { assert (a + b)[k] == b[k - |a|]; }
    }
  }

  /** The statement of `RestoreChunks` for `cs`. */
  predicate RestoresTo(t: string, cs: seq<LinkChunk>, n: nat, pre: seq<seq<Seg>>)
    requires forall k :: 0 <= k < |cs| ==> cs[k].Link? ==> |cs[k].text| < |t|
  {
    var table := pre + Anchors(t, cs);
    && Escaped(EscapeSegs(WithPlaceholders(cs, n)))
    && SafeTable(table)
    && Restore(EscapeSegs(WithPlaceholders(cs, n)), table) == Expanded(cs)
  }

  lemma RestoreLitCase(t: string, cs: seq<LinkChunk>, n: nat, pre: seq<seq<Seg>>)
    requires forall k :: 0 <= k < |cs| ==> cs[k].Link? ==> |cs[k].text| < |t|
    requires |cs| > 0 && cs[0].Lit? && |pre| == n && SafeTable(pre)
    requires forall k :: 0 <= k < |cs| - 1 ==> cs[1..][k].Link? ==> |cs[1..][k].text| < |t|
    requires RestoresTo(t, cs[1..], n, pre)
    ensures RestoresTo(t, cs, n, pre)
  {
    PlaceholdersCons(cs, n);
    AnchorsTail(t, cs);
    EscapedPlaceholders(cs, n);
    RestoreLit(cs[0].c, EscapeSegs(WithPlaceholders(cs[1..], n)), pre + Anchors(t, cs[1..]));
  }

  lemma ExpandedCons(cs: seq<LinkChunk>)
    requires |cs| > 0
    ensures Expanded(cs)
      == (if cs[0].Lit? then Chars(Html.EscapeChar(cs[0].c)) else Anchor(cs[0].url, RenderSegs(cs[0].text)))
         + Expanded(cs[1..])
  {
  }

  /** The link case of `RestoreChunks`, on the stages already unfolded. */
  lemma LinkCaseJoin(n: nat, e: seq<Seg>, e1: seq<Seg>, pre: seq<seq<Seg>>, a: seq<Seg>, rest: seq<seq<Seg>>,
                     table: seq<seq<Seg>>, x: seq<Seg>, x1: seq<Seg>)
    requires e == [Placeholder(n)] + e1 && Escaped(e1) && |pre| == n
    requires table == pre + ([a] + rest) && SafeTable(pre + [a] + rest)
    requires Restore(e1, pre + [a] + rest) == x1 && x == a + x1
    ensures Escaped(e) && SafeTable(table) && Restore(e, table) == x
  {
    assert table == pre + [a] + rest;
    RestoreLink(n, e1, pre, a, rest);
  }

  lemma RestoreLinkCase(t: string, cs: seq<LinkChunk>, n: nat, pre: seq<seq<Seg>>)
    requires forall k :: 0 <= k < |cs| ==> cs[k].Link? ==> |cs[k].text| < |t|
    requires |cs| > 0 && cs[0].Link? && |pre| == n && SafeTable(pre)
    requires forall k :: 0 <= k < |cs| - 1 ==> cs[1..][k].Link? ==> |cs[1..][k].text| < |t|
    requires RestoresTo(t, cs[1..], n + 1, pre + [Anchor(cs[0].url, RenderSegs(cs[0].text))])
    ensures RestoresTo(t, cs, n, pre)
  {
    var a := Anchor(cs[0].url, RenderSegs(cs[0].text));
    PlaceholdersCons(cs, n);
    AnchorsTail(t, cs);
    ExpandedCons(cs);
    LinkCaseJoin(n, EscapeSegs(WithPlaceholders(cs, n)), EscapeSegs(WithPlaceholders(cs[1..], n + 1)),
      pre, a, Anchors(t, cs[1..]), pre + Anchors(t, cs), Expanded(cs), Expanded(cs[1..]));
  }

  /**
    With the anchors of the earlier links already in `pre`, the placeholders
    numbered from `n` are restored to the anchors of their own links.
   */
  lemma {:induction false} RestoreChunks(t: string, cs: seq<LinkChunk>, n: nat, pre: seq<seq<Seg>>)
    requires forall k :: 0 <= k < |cs| ==> cs[k].Link? ==> |cs[k].text| < |t|
    requires |pre| == n && SafeTable(pre)
    ensures RestoresTo(t, cs, n, pre)
    decreases |cs|
  {
    if |cs| == 0 {
      EscapedPlaceholders(cs, n);
      assert pre + Anchors(t, cs) == pre;
    } else {
      AnchorsTail(t, cs);
      match cs[0]
      case Lit(c) =>
        RestoreChunks(t, cs[1..], n, pre);
        RestoreLitCase(t, cs, n, pre);
      case Link(l, u) =>
        var a := Anchor(u, RenderSegs(l));
        AnchorSafe(u, RenderSegs(l));
        SafeTableAppend(pre, [a]);
        RestoreChunks(t, cs[1..], n + 1, pre + [a]);
        RestoreLinkCase(t, cs, n, pre);
    }
  }

  /** No literal chunk is an emphasis delimiter. */
  predicate LitsUndelimited(cs: seq<LinkChunk>) {
    forall k :: 0 <= k < |cs| ==> cs[k].Lit? ==> cs[k].c != '*' && cs[k].c != '`'
  }

  lemma EscapeCharUndelimited(c: char)
    requires c != '*' && c != '`'
    ensures InlineFacts.Undelimited(Chars(Html.EscapeChar(c)))
  {
    var e := Html.EscapeChar(c);
    assert '*' !in e && '`' !in e;
  }

  lemma {:induction false} PlaceholdersUndelimited(cs: seq<LinkChunk>, n: nat)
    requires LitsUndelimited(cs)
    ensures InlineFacts.Undelimited(EscapeSegs(WithPlaceholders(cs, n)))
    decreases |cs|
  {
    if |cs| > 0 {
      var m := if cs[0].Link? then n + 1 else n;
      PlaceholdersCons(cs, n);
      assert LitsUndelimited(cs[1..]) by {
        assert forall k :: 0 <= k < |cs| - 1 ==> cs[1..][k] == cs[k + 1];
      }
      PlaceholdersUndelimited(cs[1..], m);
      if cs[0].Lit? {
        EscapeCharUndelimited(cs[0].c);
      }
    }
  }

  /** The literal chunks of a scan are characters of the text. */
  lemma ScanLits(t: string)
    requires '*' !in t && '`' !in t
    ensures LitsUndelimited(ScanLinks(t, 0))
  {
    var cs := ScanLinks(t, 0);
    forall k | 0 <= k < |cs| && cs[k].Lit?
      ensures cs[k].c != '*' && cs[k].c != '`'
    {
      ScanLinksLeftmost(t, 0, k);
    }
  }

  /**
    Links come out in the order they were written: in a text without `*` or
    backticks, each literal character is escaped and each `[label](url)`
    becomes its own anchor, in its place.
   */
  lemma LinksInOrder(t: string)
    requires '*' !in t && '`' !in t
    ensures RenderSegs(t) == Expanded(ScanLinks(t, 0))
  {
    var cs := ScanLinks(t, 0);
    var e := EscapeSegs(WithPlaceholders(cs, 0));
    RestoreChunks(t, cs, 0, []);
    assert [] + Anchors(t, cs) == Anchors(t, cs);
    assert Restore(e, Anchors(t, cs)) == Expanded(cs);
    ScanLits(t);
    PlaceholdersUndelimited(cs, 0);
    InlineFacts.MarkupPlain(e);
    InlineFacts.RenderStages(t);
  }

  // ---------------------------------------------------------------- placeholders through the passes

  /** The placeholder numbers of `s`, in order. */
  function PlaceholdersOf(s: seq<Seg>): seq<nat> {
    if |s| == 0 then []
    else (if s[0].Placeholder? then [s[0].n] else []) + PlaceholdersOf(s[1..])
  }

  /** `n, n + 1, …, n + m - 1`. */
  function Numbers(n: nat, m: nat): (r: seq<nat>)
    ensures |r| == m && forall k :: 0 <= k < m ==> r[k] == n + k
  {
    seq(m, k requires 0 <= k < m => n + k)
  }

  lemma {:induction false} PlaceholdersAppend(a: seq<Seg>, b: seq<Seg>)
    ensures PlaceholdersOf(a + b) == PlaceholdersOf(a) + PlaceholdersOf(b)
    decreases |a|
  {
    if |a| == 0 {
      assert a + b == b;
    } else {
      InlineFacts.TailAppend(a, b);
      PlaceholdersAppend(a[1..], b);
      InlineFacts.ConcatAssoc(if a[0].Placeholder? then [a[0].n] else [], PlaceholdersOf(a[1..]), PlaceholdersOf(b));
    }
  }

  lemma {:induction false} NoPlaceholders(s: seq<Seg>)
    requires forall k :: 0 <= k < |s| ==> !s[k].Placeholder?
    ensures PlaceholdersOf(s) == []
    decreases |s|
  {
    if |s| > 0 {
      assert forall k :: 0 <= k < |s| - 1 ==> s[1..][k] == s[k + 1];
      NoPlaceholders(s[1..]);
    }
  }

  /** Escaping changes characters only, so it keeps the placeholders. */
  lemma {:induction false} EscapeKeepsPlaceholders(s: seq<Seg>)
    ensures PlaceholdersOf(EscapeSegs(s)) == PlaceholdersOf(s)
    decreases |s|
  {
    if |s| > 0 {
      var head := if s[0].Char? then Chars(Html.EscapeChar(s[0].c)) else [s[0]];
      assert EscapeSegs(s) == head + EscapeSegs(s[1..]);
      PlaceholdersAppend(head, EscapeSegs(s[1..]));
      EscapeKeepsPlaceholders(s[1..]);
      if s[0].Char? {
        NoPlaceholders(head);
      } else {
        assert PlaceholdersOf(head) == if s[0].Placeholder? then [s[0].n] else [];
      }
    }
  }

  /** A matched span, rendered, holds the placeholders of its content. */
  lemma SpanKeepsPlaceholders(rule: Rule, c: seq<Seg>, rest: seq<Seg>, restSource: seq<Seg>)
    requires PlaceholdersOf(rest) == PlaceholdersOf(restSource)
    ensures var inner := if rule == CodeRule then EscapeSegs(c) else c;
      PlaceholdersOf([Open(TagOf(rule))] + inner + [Close(TagOf(rule))] + rest)
        == PlaceholdersOf(Delims(rule) + c + Delims(rule) + restSource)
  {
    var inner := if rule == CodeRule then EscapeSegs(c) else c;
    var d := Delims(rule);
    if rule == CodeRule { EscapeKeepsPlaceholders(c); }
    NoPlaceholders(d);
    NoPlaceholders([Open(TagOf(rule))]);
    NoPlaceholders([Close(TagOf(rule))]);
    PlaceholdersAppend([Open(TagOf(rule))] + inner + [Close(TagOf(rule))], rest);
    PlaceholdersAppend([Open(TagOf(rule))] + inner, [Close(TagOf(rule))]);
    PlaceholdersAppend([Open(TagOf(rule))], inner);
    PlaceholdersAppend(d + c + d, restSource);
    PlaceholdersAppend(d + c, d);
    PlaceholdersAppend(d, c);
  }

  lemma {:induction false} RenderKeepsPlaceholders(rule: Rule, cs: seq<SpanChunk>)
    ensures PlaceholdersOf(RenderSpans(rule, cs)) == PlaceholdersOf(SpanSource(rule, cs))
    decreases |cs|
  {
    if |cs| > 0 {
      RenderKeepsPlaceholders(rule, cs[1..]);
      match cs[0]
      case Keep(x) =>
        PlaceholdersAppend([x], RenderSpans(rule, cs[1..]));
        PlaceholdersAppend([x], SpanSource(rule, cs[1..]));
      case Span(c) =>
        SpanKeepsPlaceholders(rule, c, RenderSpans(rule, cs[1..]), SpanSource(rule, cs[1..]));
    }
  }

  /** A substitution pass copies every placeholder, in order: none is dropped, added or moved across another. */
  lemma ApplyKeepsPlaceholders(rule: Rule, s: seq<Seg>)
    ensures PlaceholdersOf(ApplyRule(rule, s)) == PlaceholdersOf(s)
  {
    ScanSpansSource(rule, s, 0);
    assert s[0..] == s;
    RenderKeepsPlaceholders(rule, ScanSpans(rule, s, 0));
  }

  /** The code, bold and italic passes together keep the placeholders and their order. */
  lemma MarkupKeepsPlaceholders(s: seq<Seg>)
    requires Escaped(s)
    ensures PlaceholdersOf(Markup(s)) == PlaceholdersOf(s)
  {
    var coded := ApplyRule(CodeRule, s);
    ApplyKeepsPlaceholders(CodeRule, s);
    ApplyRuleEscaped(CodeRule, s);
    ApplyKeepsPlaceholders(BoldRule, coded);
    ApplyKeepsPlaceholders(ItalicRule, ApplyRule(BoldRule, coded));
  }

  /** The links of `cs`, numbered from `n`, give the placeholders `n` up, one each, in order. */
  lemma {:induction false} PlaceholdersNumbered(cs: seq<LinkChunk>, n: nat)
    ensures PlaceholdersOf(WithPlaceholders(cs, n)) == Numbers(n, LinkCount(cs))
    decreases |cs|
  {
    if |cs| > 0 {
      match cs[0]
      case Lit(c) =>
        PlaceholdersNumbered(cs[1..], n);
        PlaceholdersAppend([Char(c)], WithPlaceholders(cs[1..], n));
      case Link(_, _) =>
        PlaceholdersNumbered(cs[1..], n + 1);
        PlaceholdersAppend([Placeholder(n)], WithPlaceholders(cs[1..], n));
        PlaceholdersAppend([Placeholder(n)], WithPlaceholders(cs[1..], n + 1));
        assert [n] + Numbers(n + 1, LinkCount(cs[1..])) == Numbers(n, LinkCount(cs));
    }
  }

  /**
    Links are restored in order whatever the emphasis around them: the text
    that reaches the restoring loop holds the placeholders `0, 1, …` once
    each, in the order the links were written, and entry `k` of the table
    is the anchor of the link with `k` links before it.
   */
  lemma LinksRestoredInOrder(t: string)
    ensures var cs := ScanLinks(t, 0);
      var e := EscapeSegs(WithPlaceholders(cs, 0));
      && Escaped(e)
      && PlaceholdersOf(Markup(e)) == Numbers(0, LinkCount(cs))
      && |Anchors(t, cs)| == LinkCount(cs)
    ensures var cs := ScanLinks(t, 0);
      forall j :: 0 <= j < |cs| && cs[j].Link? ==>
        LinkCount(cs[..j]) < |Anchors(t, cs)| && Anchors(t, cs)[LinkCount(cs[..j])] == Anchor(cs[j].url, RenderSegs(cs[j].text))
  {
    var cs := ScanLinks(t, 0);
    var e := EscapeSegs(WithPlaceholders(cs, 0));
    InlineFacts.RenderStages(t);
    MarkupKeepsPlaceholders(e);
    EscapeKeepsPlaceholders(WithPlaceholders(cs, 0));
    PlaceholdersNumbered(cs, 0);
    forall j | 0 <= j < |cs| && cs[j].Link?
      ensures LinkCount(cs[..j]) < |Anchors(t, cs)| && Anchors(t, cs)[LinkCount(cs[..j])] == Anchor(cs[j].url, RenderSegs(cs[j].text))
    {
      AnchorsAt(t, cs, j);
    }
  }
}
