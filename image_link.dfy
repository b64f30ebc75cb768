/** The Markdown image-link syntax `![alt](path)` as the two regular expressions of the
    source use it: the scanner `/!\[([^\]]*)\]\(([^)]+)\)/g` of `detectImages`, and the
    per-path rewriter `!\[([^\]]*)\]\(<escaped path>\)` with replacement `![$1](url)`
    shared by `replaceImageReferences` and `processMarkdownContent`. */
module ImageLink {

  import opened Wrappers
  import opened Text
  import opened RegexEscape

  /** One match: it spans `s[start..end]`; `alt` is capture group 1 and `path` the text
      between the parentheses. */
  datatype LinkMatch = LinkMatch(start: nat, alt: string, path: string, end: nat)

  /** The text `![alt](path)` sits at index `i` of `s`. */
  predicate LinkTextAt(s: string, i: nat, alt: string, path: string) {
    var e := i + |alt| + |path| + 5;
    e <= |s| && s[i..e] == "![" + alt + "](" + path + ")"
  }

  /** What the scanner's pattern may capture: no `]` in alt, a non-empty path without `)`. */
  predicate ScannerCaptures(alt: string, path: string) {
    ']' !in alt && ')' !in path && path != []
  }

  lemma LinkTextChars(s: string, i: nat, alt: string, path: string)
    requires LinkTextAt(s, i, alt, path)
    ensures s[i] == '!' && s[i + 1] == '['
    ensures forall k :: 0 <= k < |alt| ==> s[i + 2 + k] == alt[k]
    ensures s[i + 2 + |alt|] == ']' && s[i + 3 + |alt|] == '('
    ensures forall k :: 0 <= k < |path| ==> s[i + 4 + |alt| + k] == path[k]
    ensures s[i + 4 + |alt| + |path|] == ')'
  {
    var e := i + |alt| + |path| + 5;
    var t := "![" + alt + "](" + path + ")";
    assert s[i..e] == t;
    forall k | 0 <= k < |alt| ensures s[i + 2 + k] == alt[k] {
      assert s[i + 2 + k] == s[i..e][2 + k] == t[2 + k];
    }
    forall k | 0 <= k < |path| ensures s[i + 4 + |alt| + k] == path[k] {
      assert s[i + 4 + |alt| + k] == s[i..e][4 + |alt| + k] == t[4 + |alt| + k];
    }
    assert s[i + 2 + |alt|] == t[2 + |alt|];
    assert s[i + 3 + |alt|] == t[3 + |alt|];
    assert s[i + 4 + |alt| + |path|] == t[4 + |alt| + |path|];
    assert s[i] == t[0] && s[i + 1] == t[1];
  }

  /** The converse: `!`, `[`, `]`, `(` and `)` at their places frame the link text whose
      alt and path are the slices between them. */
  lemma LinkTextOfChars(s: string, i: nat, j: nat, k: nat)
    requires i + 2 <= j && j + 2 <= k < |s|
    requires s[i] == '!' && s[i + 1] == '[' && s[j] == ']' && s[j + 1] == '(' && s[k] == ')'
    ensures LinkTextAt(s, i, s[i + 2..j], s[j + 2..k])
  {
    var alt, path := s[i + 2..j], s[j + 2..k];
    var t := "![" + alt + "](" + path + ")";
    assert |t| == k + 1 - i;
    forall m | 0 <= m < |t| ensures t[m] == s[i..k + 1][m] {
      if 2 <= m < 2 + |alt| {
        assert t[m] == alt[m - 2];
      } else if 4 + |alt| <= m < 4 + |alt| + |path| {
        assert t[m] == path[m - 4 - |alt|];
      }
    }
  }

  /** The scanner's pattern anchored at index `i`. Because `[^\]]*` cannot contain the
      `]` that must follow it, and `[^)]+` cannot contain the `)`, the match at `i`
      (if any) is unique: alt ends at the first `]`, path at the next `)`. */
  function LinkAt(s: string, i: nat): (r: Option<LinkMatch>)
    ensures r.Some? ==> r.value.start == i && r.value.end == i + |r.value.alt| + |r.value.path| + 5
    ensures r.Some? ==> LinkTextAt(s, i, r.value.alt, r.value.path)
    ensures r.Some? ==> ScannerCaptures(r.value.alt, r.value.path)
  {
    if i + 1 < |s| && s[i] == '!' && s[i + 1] == '[' then
      match FindChar(s, i + 2, ']')
      case None => None
      case Some(j) =>
        if j + 1 < |s| && s[j + 1] == '(' then
          match FindChar(s, j + 2, ')')
          case None => None
          case Some(k) =>
            if k > j + 2 then
              var alt, path := s[i + 2..j], s[j + 2..k];
              LinkTextOfChars(s, i, j, k);
              assert forall c :: c in alt ==> c != ']';
              assert forall c :: c in path ==> c != ')';
              Some(LinkMatch(i, alt, path, k + 1))
            else None
        else None
    else None
  }

  /** The converse: every `![alt](path)` the pattern admits at `i` is what `LinkAt` finds. */
  lemma LinkAtComplete(s: string, i: nat, alt: string, path: string)
    requires LinkTextAt(s, i, alt, path) && ScannerCaptures(alt, path)
    ensures LinkAt(s, i) == Some(LinkMatch(i, alt, path, i + |alt| + |path| + 5))
  {
    AltRun(s, i, alt, path);
    PathRun(s, i, alt, path);
  }

  /** In `![alt](path)` at `i`, alt runs from `i + 2` to the first `]`. */
  lemma AltRun(s: string, i: nat, alt: string, path: string)
    requires LinkTextAt(s, i, alt, path) && ']' !in alt
    ensures i + 1 < |s| && s[i] == '!' && s[i + 1] == '['
    ensures FindChar(s, i + 2, ']') == Some(i + 2 + |alt|)
    ensures s[i + 2..i + 2 + |alt|] == alt
  {
    LinkTextChars(s, i, alt, path);
    var j := i + 2 + |alt|;
    forall k | i + 2 <= k < j ensures s[k] != ']' {
      assert s[k] == alt[k - i - 2];
    }
    FindCharFirst(s, i + 2, ']', j);
  }

  /** In `![alt](path)` at `i`, `(` follows the `]` and path runs to the next `)`. */
  lemma PathRun(s: string, i: nat, alt: string, path: string)
    requires LinkTextAt(s, i, alt, path) && ')' !in path
    ensures i + 3 + |alt| < |s| && s[i + 3 + |alt|] == '('
    ensures FindChar(s, i + 4 + |alt|, ')') == Some(i + 4 + |alt| + |path|)
    ensures s[i + 4 + |alt|..i + 4 + |alt| + |path|] == path
  {
    LinkTextChars(s, i, alt, path);
    var j := i + 2 + |alt|;
    var k := j + 2 + |path|;
    forall m | j + 2 <= m < k ensures s[m] != ')' {
      assert s[m] == path[m - j - 2];
    }
    FindCharFirst(s, j + 2, ')', k);
  }

  /** `imageRegex.exec` from `lastIndex = from`: the leftmost match at or after `from`. */
  function NextLink(s: string, from: nat): (r: Option<LinkMatch>)
    ensures r.Some? ==> from <= r.value.start && LinkAt(s, r.value.start) == r
    ensures r.Some? ==> forall p :: from <= p < r.value.start ==> LinkAt(s, p).None?
    ensures r.None? ==> forall p :: from <= p < |s| ==> LinkAt(s, p).None?
    decreases |s| - from
  {
    if from >= |s| then None
    else match LinkAt(s, from)
      case Some(m) => Some(m)
      case None => NextLink(s, from + 1)
  }

  /** The candidates of the `while ((match = imageRegex.exec(...)) !== null)` loop: each a
      genuine match, in left-to-right order, the next one searched from where the
      previous one ended. */
  function Links(s: string, from: nat): (r: seq<LinkMatch>)
    ensures forall k :: 0 <= k < |r| ==> from <= r[k].start && LinkAt(s, r[k].start) == Some(r[k])
    ensures forall k :: 0 <= k < |r| - 1 ==> r[k].end <= r[k + 1].start
    decreases |s| - from
  {
    match NextLink(s, from)
    case None => []
    case Some(m) =>
      var rest := Links(s, m.end);
      var r := [m] + rest;
      assert r[0] == m && r[1..] == rest;
      assert forall k :: 0 < k < |r| ==> r[k] == rest[k - 1];
      r
  }

  /** No link text is missed: every position where the pattern matches is the start of a
      candidate or lies inside an earlier candidate's span. */
  lemma {:induction false} LinksComplete(s: string, from: nat, p: nat)
    requires from <= p < |s| && LinkAt(s, p).Some?
    ensures exists k :: 0 <= k < |Links(s, from)| && Links(s, from)[k].start <= p < Links(s, from)[k].end
    decreases |s| - from
  {
    var next := NextLink(s, from);
    if next.Some? {
      var m := next.value;
      var r := Links(s, from);
      var rest := Links(s, m.end);
      assert r == [m] + rest;
      if p >= m.end {
        LinksComplete(s, m.end, p);
        var k :| 0 <= k < |rest| && rest[k].start <= p < rest[k].end;
        assert r[k + 1] == rest[k] && r[k + 1].start <= p < r[k + 1].end;
      } else {
        assert m.start <= p;
        assert r[0] == m;
      }
    }
  }

  /** The rewriter's pattern for a literal path, anchored at `i`: alt runs to the first `]`,
      then `(`, the path character for character, and `)`. */
  function LinkWithPathAt(s: string, i: nat, path: string): (r: Option<LinkMatch>)
    ensures r.Some? ==> r.value.start == i && r.value.path == path
    ensures r.Some? ==> r.value.end == i + |r.value.alt| + |path| + 5
    ensures r.Some? ==> LinkTextAt(s, i, r.value.alt, path) && ']' !in r.value.alt
  {
    if i + 1 < |s| && s[i] == '!' && s[i + 1] == '[' then
      match FindChar(s, i + 2, ']')
      case None => None
      case Some(j) =>
        var e := j + 2 + |path|;
        if e < |s| && s[j + 1] == '(' && s[j + 2..e] == path && s[e] == ')' then
          var alt := s[i + 2..j];
          LinkTextOfChars(s, i, j, e);
          assert forall c :: c in alt ==> c != ']';
          Some(LinkMatch(i, alt, path, e + 1))
        else None
    else None
  }

  /** Every link the scanner detects is found again by the rewriter keyed on its path,
      at the same place and with the same alt text. */
  lemma DetectedLinkIsRewritable(s: string, i: nat)
    requires LinkAt(s, i).Some?
    ensures LinkWithPathAt(s, i, LinkAt(s, i).value.path) == LinkAt(s, i)
  {
    var m := LinkAt(s, i).value;
    LinkTextChars(s, i, m.alt, m.path);
    var j := i + 2 + |m.alt|;
    forall k | i + 2 <= k < j ensures s[k] != ']' {
      assert s[k] == m.alt[k - i - 2];
    }
    FindCharFirst(s, i + 2, ']', j);
    assert s[i + 2..j] == m.alt;
  }

  /** What a replacement template may refer to: `$&`, `` $` ``, `$'` and capture `$1`. */
  datatype MatchContext = MatchContext(matched: string, alt: string, before: string, after: string)

  /** ECMAScript's GetSubstitution for a pattern with one capture group and no named
      groups: `$$`, `$&`, `` $` ``, `$'`, `$1` and `$01` (also `$1` followed by a digit, which
      is read as `$1` and a literal digit) are expanded; every other `$` is literal. */
  function Expand(t: string, ctx: MatchContext): string
    decreases |t|
  {
    if t == [] then []
    else if t[0] != '$' || |t| == 1 then [t[0]] + Expand(t[1..], ctx)
    else if t[1] == '$' then "$" + Expand(t[2..], ctx)
    else if t[1] == '&' then ctx.matched + Expand(t[2..], ctx)
    else if t[1] == '`' then ctx.before + Expand(t[2..], ctx)
    else if t[1] == '\'' then ctx.after + Expand(t[2..], ctx)
    else if t[1] == '0' && |t| > 2 && t[2] == '1' then ctx.alt + Expand(t[3..], ctx)
    else if t[1] == '1' then ctx.alt + Expand(t[2..], ctx)
    else "$" + Expand(t[1..], ctx)
  }

  /** A template without `$` is inserted verbatim. */
  lemma {:induction false} ExpandVerbatim(t: string, ctx: MatchContext)
    requires '$' !in t
    ensures Expand(t, ctx) == t
    decreases |t|
  {
    if t != [] {
      assert t[0] in t;
      ExpandVerbatim(t[1..], ctx);
    }
  }

  /** The replacement string `![$1](${url})`. */
  function Template(url: string): string {
    "![$1](" + url + ")"
  }

  /** A character other than `$` is copied. */
  lemma ExpandPlainChar(c: char, t: string, ctx: MatchContext)
    requires c != '$'
    ensures Expand([c] + t, ctx) == [c] + Expand(t, ctx)
  {
    assert ([c] + t)[1..] == t;
  }

  /** `$1` inserts the alt text. */
  lemma ExpandCapture(t: string, ctx: MatchContext)
    ensures Expand("$1" + t, ctx) == ctx.alt + Expand(t, ctx)
  {
    var u := "$1" + t;
    assert u[0] == '$' && u[1] == '1' && u[2..] == t;
  }

  /** For a URL without `$`, the replacement is the link with its alt kept and the URL
      as its path. */
  lemma ExpandTemplate(url: string, ctx: MatchContext)
    requires '$' !in url
    ensures Expand(Template(url), ctx) == "![" + ctx.alt + "](" + url + ")"
  {
    var tail := "](" + url + ")";
    var capture := "$1" + tail;
    var bracket := ['['] + capture;
    TemplateShape(url);
    TailWithoutDollar(url);
    ExpandVerbatim(tail, ctx);
    ExpandCapture(tail, ctx);
    ExpandPlainChar('[', capture, ctx);
    ExpandPlainChar('!', bracket, ctx);
    LinkText(ctx.alt, url);
  }

  /** The template split into its first two characters, `$1` and the rest. */
  lemma TemplateShape(url: string)
    ensures Template(url) == ['!'] + (['['] + ("$1" + ("](" + url + ")")))
  {
  }

  /** The text after `$1` holds no `$` when the URL holds none. */
  lemma TailWithoutDollar(url: string)
    requires '$' !in url
    ensures '$' !in "](" + url + ")"
  {
    var tail := "](" + url + ")";
    assert tail == [']', '('] + url + [')'];
  }

  /** The link text `![alt](url)`, assembled from the front. */
  lemma LinkText(alt: string, url: string)
    ensures ['!'] + (['['] + (alt + ("](" + url + ")"))) == "![" + alt + "](" + url + ")"
  {
  }

  /** `s.slice(i).replace(re, Template(url))` with `re` the rewriter's pattern for `path`
      (global flag): scanning left to right, each match is replaced by the expanded
      template and the scan resumes after it; other characters are copied. */
  function ReplaceFrom(s: string, path: string, url: string, i: nat): string
    requires i <= |s|
    decreases |s| - i
  {
    if i == |s| then []
    else match LinkWithPathAt(s, i, path)
      case Some(m) =>
        Expand(Template(url), MatchContext(s[i..m.end], m.alt, s[..i], s[m.end..]))
        + ReplaceFrom(s, path, url, m.end)
      case None => [s[i]] + ReplaceFrom(s, path, url, i + 1)
  }

  /** `markdown.replace(new RegExp(`!\\[([^\\]]*)\\]\\(${escapeRegExp(originalPath)}\\)`, 'g'),
      `![$1](${url})`)`: the escaped path matches `originalPath` literally. */
  function ReplaceImagePath(s: string, originalPath: string, url: string): string {
    ReplaceFrom(s, LiteralText(EscapeRegExp(originalPath)), url, 0)
  }

  /** The reference definition of the rewrite for a URL without `$`: each link with the
      path becomes the same link with the URL, alt kept; all other text is copied. */
  function SubstituteFrom(s: string, path: string, url: string, i: nat): string
    requires i <= |s|
    decreases |s| - i
  {
    if i == |s| then []
    else match LinkWithPathAt(s, i, path)
      case Some(m) => "![" + m.alt + "](" + url + ")" + SubstituteFrom(s, path, url, m.end)
      case None => [s[i]] + SubstituteFrom(s, path, url, i + 1)
  }

  /** With a `$`-free URL the JavaScript replacement is the plain substitution. */
  lemma {:induction false} ReplaceIsSubstitution(s: string, path: string, url: string, i: nat)
    requires i <= |s| && '$' !in url
    ensures ReplaceFrom(s, path, url, i) == SubstituteFrom(s, path, url, i)
    decreases |s| - i
  {
    if i < |s| {
      match LinkWithPathAt(s, i, path)
      case Some(m) =>
        ExpandTemplate(url, MatchContext(s[i..m.end], m.alt, s[..i], s[m.end..]));
        ReplaceIsSubstitution(s, path, url, m.end);
      case None =>
        ReplaceIsSubstitution(s, path, url, i + 1);
    }
  }

  /** Where the path occurs in no link, the rewrite changes nothing. */
  lemma {:induction false} ReplaceWithoutMatch(s: string, path: string, url: string, i: nat)
    requires i <= |s|
    requires forall p :: i <= p < |s| ==> LinkWithPathAt(s, p, path).None?
    ensures ReplaceFrom(s, path, url, i) == s[i..]
    decreases |s| - i
  {
    if i < |s| {
      ReplaceWithoutMatch(s, path, url, i + 1);
      assert s[i..] == [s[i]] + s[i + 1..];
    }
  }

  /** Substituting a path by itself reproduces the text. */
  lemma {:induction false} SubstituteWithSelf(s: string, path: string, i: nat)
    requires i <= |s|
    ensures SubstituteFrom(s, path, path, i) == s[i..]
    decreases |s| - i
  {
    if i < |s| {
      match LinkWithPathAt(s, i, path)
      case Some(m) =>
        SubstituteWithSelf(s, path, m.end);
        SplitAt(s, i, m.end);
      case None =>
        SubstituteWithSelf(s, path, i + 1);
        SplitAt(s, i, i + 1);
    }
  }

  lemma SplitAt(s: string, i: nat, j: nat)
    requires i <= j <= |s|
    ensures s[i..j] + s[j..] == s[i..]
  {
  }

  /** Rewriting a `$`-free path to itself reproduces the text. */
  lemma ReplaceWithSelf(s: string, path: string, i: nat)
    requires i <= |s| && '$' !in path
    ensures ReplaceFrom(s, path, path, i) == s[i..]
  {
    ReplaceIsSubstitution(s, path, path, i);
    SubstituteWithSelf(s, path, i);
  }
}
