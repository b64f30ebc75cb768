/** Markdown to HTML conversion for Note (src/core/markdown/converter.ts): rewriting of
    uploaded image links, collection of media ids, HTML sanitising and HTML validation.
    The remark/rehype pipeline itself enters as the function `convert`. */
module Converter {

  import opened Wrappers
  import opened Text
  import opened ImageLink
  import opened ImageHandler

  // ---------------------------------------------------------------------------
  // processMarkdownContent
  // ---------------------------------------------------------------------------

  /** An entry of the `images` argument: an upload field that is absent or empty is
      falsy and skipped. */
  datatype UploadedImage = UploadedImage(
    originalPath: string,
    uploadedUrl: Option<string>,
    uploadedMediaId: Option<string>)

  /** `ProcessedMarkdownContent`. */
  datatype ProcessedMarkdownContent = ProcessedMarkdownContent(
    htmlBody: string,
    images: seq<ImageReference>,
    mediaIds: seq<string>)

  /** JavaScript truthiness of an optional string. */
  predicate Truthy(o: Option<string>) {
    o.Some? && o.value != ""
  }

  /** The Markdown after the loop has rewritten the links of every image with a URL,
      in list order. */
  function RewriteAll(markdown: string, images: seq<UploadedImage>): string
    decreases |images|
  {
    if images == [] then markdown
    else
      var last := images[|images| - 1];
      var before := RewriteAll(markdown, images[..|images| - 1]);
      if Truthy(last.uploadedUrl) then ReplaceImagePath(before, last.originalPath, last.uploadedUrl.value)
      else before
  }

  /** The media ids the loop collects, in list order. */
  function MediaIds(images: seq<UploadedImage>): seq<string>
    decreases |images|
  {
    if images == [] then []
    else
      var last := images[|images| - 1];
      MediaIds(images[..|images| - 1]) + (if Truthy(last.uploadedMediaId) then [last.uploadedMediaId.value] else [])
  }

  /** `processMarkdownContent`: one loop rewrites the links of uploaded images and
      collects media ids; the rewritten Markdown is converted; every input image is
      reported back with placeholder file facts and its upload fields. */
  method ProcessMarkdownContent(markdownContent: string, images: seq<UploadedImage>, convert: string -> string)
    returns (result: ProcessedMarkdownContent)
    ensures result.htmlBody == convert(RewriteAll(markdownContent, images))
    ensures result.mediaIds == MediaIds(images)
    ensures |result.images| == |images|
    ensures forall k :: 0 <= k < |images| ==>
      && result.images[k].originalPath == images[k].originalPath
      && result.images[k].absolutePath == images[k].originalPath
      && result.images[k].mimeType == "image/unknown"
      && result.images[k].size == 0
      && result.images[k].uploadedMediaId == images[k].uploadedMediaId
      && result.images[k].uploadedUrl == images[k].uploadedUrl
  {
    var htmlContent := markdownContent;
    var mediaIds: seq<string> := [];
    for k := 0 to |images|
      invariant htmlContent == RewriteAll(markdownContent, images[..k])
      invariant mediaIds == MediaIds(images[..k])
    {
      var image := images[k];
      assert images[..k + 1][..k] == images[..k];
      if image.uploadedUrl.Some? && image.uploadedUrl.value != "" {
        htmlContent := ReplaceImagePath(htmlContent, image.originalPath, image.uploadedUrl.value);
      }
      if image.uploadedMediaId.Some? && image.uploadedMediaId.value != "" {
        mediaIds := mediaIds + [image.uploadedMediaId.value];
      } else {
        assert mediaIds == mediaIds + [];
      }
    }
    assert images[..|images|] == images;
    var htmlBody := convert(htmlContent);
    var imageReferences := seq(|images|, k requires 0 <= k < |images| =>
      ImageReference(images[k].originalPath, images[k].originalPath, "image/unknown", 0,
                     images[k].uploadedMediaId, images[k].uploadedUrl));
    result := ProcessedMarkdownContent(htmlBody, imageReferences, mediaIds);
  }

  /** Without any uploaded URL the Markdown reaches the converter unchanged. */
  lemma {:induction false} RewriteWithoutUploads(markdown: string, images: seq<UploadedImage>)
    requires forall k :: 0 <= k < |images| ==> !Truthy(images[k].uploadedUrl)
    ensures RewriteAll(markdown, images) == markdown
    decreases |images|
  {
    if images != [] {
      RewriteWithoutUploads(markdown, images[..|images| - 1]);
    }
  }

  /** The `(originalPath, uploadedUrl)` pairs of the uploaded images, in list order. */
  function UploadMap(images: seq<UploadedImage>): seq<(string, string)>
    decreases |images|
  {
    if images == [] then []
    else
      var last := images[|images| - 1];
      UploadMap(images[..|images| - 1])
        + (if Truthy(last.uploadedUrl) then [(last.originalPath, last.uploadedUrl.value)] else [])
  }

  /** The converter rewrites links exactly as `replaceImageReferences` does when given
      the map from each uploaded image's path to its URL. */
  lemma {:induction false} RewriteAllIsReplaceEach(markdown: string, images: seq<UploadedImage>)
    ensures RewriteAll(markdown, images) == ReplaceEach(markdown, UploadMap(images))
    decreases |images|
  {
    if images != [] {
      var init := images[..|images| - 1];
      var last := images[|images| - 1];
      RewriteAllIsReplaceEach(markdown, init);
      if Truthy(last.uploadedUrl) {
        var m := UploadMap(init) + [(last.originalPath, last.uploadedUrl.value)];
        assert m[..|m| - 1] == UploadMap(init);
      } else {
        assert UploadMap(images) == UploadMap(init) + [];
        assert UploadMap(images) == UploadMap(init);
        assert RewriteAll(markdown, images) == RewriteAll(markdown, init);
      }
    }
  }

  /** Each image's media id as text, `""` for an image without one. */
  function IdTexts(images: seq<UploadedImage>): (r: seq<string>)
    ensures |r| == |images|
    ensures forall k :: 0 <= k < |images| ==>
      r[k] == if images[k].uploadedMediaId.Some? then images[k].uploadedMediaId.value else ""
  {
    seq(|images|, k requires 0 <= k < |images| =>
      if images[k].uploadedMediaId.Some? then images[k].uploadedMediaId.value else "")
  }

  lemma IdTextsSnoc(images: seq<UploadedImage>)
    requires images != []
    ensures IdTexts(images) == IdTexts(images[..|images| - 1]) + IdTexts([images[|images| - 1]])
  {
    var init := images[..|images| - 1];
    var r := IdTexts(init) + IdTexts([images[|images| - 1]]);
    forall k | 0 <= k < |images|
      ensures IdTexts(images)[k] == r[k]
    {
      if k < |init| {
        assert images[k] == init[k];
      }
    }
  }

  /** The last image's contribution to the collected ids: its id when that is non-empty. */
  lemma MediaIdsSnoc(images: seq<UploadedImage>)
    requires images != []
    ensures var last := images[|images| - 1];
      && IdTexts(images) == IdTexts(images[..|images| - 1]) + IdTexts([last])
      && MediaIds(images) == MediaIds(images[..|images| - 1])
                             + if IdTexts([last])[0] != "" then IdTexts([last]) else []
  {
    IdTextsSnoc(images);
    var last := images[|images| - 1];
    var text := IdTexts([last]);
    assert |text| == 1;
    if Truthy(last.uploadedMediaId) {
      assert text == [last.uploadedMediaId.value];
    } else {
      assert text[0] == "";
    }
  }

  /** The collected media ids are the image ids in list order with some deleted, and
      none of them is empty. */
  lemma {:induction false} MediaIdsInOrder(images: seq<UploadedImage>)
    ensures "" !in MediaIds(images)
    ensures IsSubsequence(MediaIds(images), IdTexts(images))
    decreases |images|
  {
    if images != [] {
      var init := images[..|images| - 1];
      var text := IdTexts([images[|images| - 1]]);
      var added := if text[0] != "" then text else [];
      MediaIdsInOrder(init);
      MediaIdsSnoc(images);
      if added == [] {
        assert IsSubsequence(added, text);
      } else {
        SubsequenceReflexive(text);
      }
      SubsequenceConcat(MediaIds(init), IdTexts(init), added, text);
    }
  }

  /** Every non-empty id is collected exactly as often as it occurs among the images;
      with `MediaIdsInOrder` this makes the collected ids exactly the non-empty ids of the
      images, in list order. */
  lemma {:induction false} MediaIdsCounts(images: seq<UploadedImage>)
    ensures forall x :: x != "" ==> multiset(MediaIds(images))[x] == multiset(IdTexts(images))[x]
    decreases |images|
  {
    if images != [] {
      var init := images[..|images| - 1];
      var text := IdTexts([images[|images| - 1]]);
      var added := if text[0] != "" then text else [];
      MediaIdsCounts(init);
      MediaIdsSnoc(images);
      assert multiset(MediaIds(images)) == multiset(MediaIds(init)) + multiset(added);
      assert multiset(IdTexts(images)) == multiset(IdTexts(init)) + multiset(text);
      forall x | x != ""
        ensures multiset(MediaIds(images))[x] == multiset(IdTexts(images))[x]
      {
        assert multiset(added)[x] == multiset(text)[x];
      }
    }
  }

  /** Each collected id is the id of some image, and every image's non-empty id is
      collected. */
  lemma {:induction false} MediaIdsMembers(images: seq<UploadedImage>)
    ensures |MediaIds(images)| <= |images|
    ensures forall id :: id in MediaIds(images) ==>
      (id != "" && exists k :: 0 <= k < |images| && images[k].uploadedMediaId == Some(id))
    ensures forall k :: 0 <= k < |images| && Truthy(images[k].uploadedMediaId) ==>
      images[k].uploadedMediaId.value in MediaIds(images)
    decreases |images|
  {
    if images != [] {
      var init := images[..|images| - 1];
      MediaIdsMembers(init);
      forall id | id in MediaIds(images)
        ensures id != "" && exists k :: 0 <= k < |images| && images[k].uploadedMediaId == Some(id)
      {
        if id in MediaIds(init) {
          var k :| 0 <= k < |init| && init[k].uploadedMediaId == Some(id);
          assert images[k] == init[k];
        } else {
          assert images[|images| - 1].uploadedMediaId == Some(id);
        }
      }
      forall k | 0 <= k < |images| && Truthy(images[k].uploadedMediaId)
        ensures images[k].uploadedMediaId.value in MediaIds(images)
      {
        if k < |init| {
          assert init[k] == images[k];
        }
      }
    }
  }

  // ---------------------------------------------------------------------------
  // sanitizeHtmlForNote
  // ---------------------------------------------------------------------------

  /** The first index at or after `from` where `w` occurs ignoring ASCII case. */
  function FindIgnoreCase(s: string, from: nat, w: string): (r: Option<nat>)
    ensures r.Some? ==> from <= r.value && AtIgnoreCase(s, r.value, w)
    ensures r.Some? ==> forall k :: from <= k < r.value ==> !AtIgnoreCase(s, k, w)
    ensures r.None? ==> forall k :: from <= k ==> !AtIgnoreCase(s, k, w)
    decreases |s| - from
  {
    if from + |w| > |s| then None
    else if AtIgnoreCase(s, from, w) then Some(from)
    else FindIgnoreCase(s, from + 1, w)
  }

  /** The end of the run of `\w` characters starting at `j`. */
  function SkipWord(s: string, j: nat): (r: nat)
    requires j <= |s|
    ensures j <= r <= |s| && (r == |s| || !IsWordChar(s[r]))
    ensures forall k :: j <= k < r ==> IsWordChar(s[k])
    decreases |s| - j
  {
    if j < |s| && IsWordChar(s[j]) then SkipWord(s, j + 1) else j
  }

  /** The end of the run of `\s` characters starting at `j`. */
  function SkipSpace(s: string, j: nat): (r: nat)
    requires j <= |s|
    ensures j <= r <= |s| && (r == |s| || !IsJsWhitespace(s[r]))
    ensures forall k :: j <= k < r ==> IsJsWhitespace(s[k])
    decreases |s| - j
  {
    if j < |s| && IsJsWhitespace(s[j]) then SkipSpace(s, j + 1) else j
  }

  /** `/\son\w+\s*=/i` anchored at `i`: the index just past the `=`. The classes `\w`,
      `\s` and `=` are disjoint, so each greedy run is taken whole. */
  function HandlerAt(s: string, i: nat): (r: Option<nat>)
    ensures r.Some? ==> i + 4 < r.value <= |s| && s[r.value - 1] == '='
    ensures r.Some? ==> IsJsWhitespace(s[i]) && AtIgnoreCase(s, i + 1, "on")
  {
    if i >= |s| || !IsJsWhitespace(s[i]) || !AtIgnoreCase(s, i + 1, "on") then None
    else
      var a := SkipWord(s, i + 3);
      if a == i + 3 then None
      else
        var b := SkipSpace(s, a);
        if b < |s| && s[b] == '=' then Some(b + 1) else None
  }

  /** The regular expressions the sanitiser deletes, all with flags `gi`. */
  datatype Pattern =
    | ScriptBlock                  // <script[^>]*>[\s\S]*?<\/script>
    | StyleBlock                   // <style[^>]*>[\s\S]*?<\/style>
    | QuotedHandler(quote: char)   // \son\w+\s*=\s*"[^"]*"  and the same with '
    | Word(word: string)           // one of the dangerous words, literally

  /** An element block anchored at `i`: the opening word, the first `>` after it, then
      the first closing tag after that (the lazy `[\s\S]*?`). */
  function BlockEnd(s: string, i: nat, open: string, close: string): (r: Option<nat>)
    requires open != []
    ensures r.Some? ==> i < r.value <= |s| && AtIgnoreCase(s, i, open)
  {
    if !AtIgnoreCase(s, i, open) then None
    else match FindChar(s, i + |open|, '>')
      case None => None
      case Some(g) =>
        match FindIgnoreCase(s, g + 1, close)
        case None => None
        case Some(c) => if c + |close| <= |s| then Some(c + |close|) else None
  }

  /** A quoted event-handler attribute anchored at `i`. */
  function QuotedHandlerEnd(s: string, i: nat, quote: char): (r: Option<nat>)
    ensures r.Some? ==> i < r.value <= |s| && HandlerAt(s, i).Some?
  {
    match HandlerAt(s, i)
    case None => None
    case Some(e) =>
      var c := SkipSpace(s, e);
      if c < |s| && s[c] == quote then
        match FindChar(s, c + 1, quote)
        case None => None
        case Some(d) => Some(d + 1)
      else None
  }

  /** Where a match of `p` that starts at `i` ends, if there is one. Every match is
      non-empty. */
  function MatchEnd(p: Pattern, s: string, i: nat): (r: Option<nat>)
    ensures r.Some? ==> i < r.value <= |s|
  {
    match p
    case ScriptBlock => BlockEnd(s, i, "<script", "</script>")
    case StyleBlock => BlockEnd(s, i, "<style", "</style>")
    case QuotedHandler(q) => QuotedHandlerEnd(s, i, q)
    case Word(w) => if w != [] && AtIgnoreCase(s, i, w) then Some(i + |w|) else None
  }

  /** `replace(p, '')` scanning from `i`: each leftmost match is deleted and the scan
      resumes after it. */
  function Pass(p: Pattern, s: string, i: nat): string
    requires i <= |s|
    decreases |s| - i
  {
    if i == |s| then []
    else match MatchEnd(p, s, i)
      case Some(e) => Pass(p, s, e)
      case None => [s[i]] + Pass(p, s, i + 1)
  }

  /** `s.replace(p, '')`. */
  function Remove(p: Pattern, s: string): string {
    Pass(p, s, 0)
  }

  /** The passes of `ps`, first to last. */
  function RemoveAll(ps: seq<Pattern>, s: string): string
    decreases |ps|
  {
    if ps == [] then s else RemoveAll(ps[1..], Remove(ps[0], s))
  }

  /** `dangerousAttrs`. */
  const DangerousWords: seq<string> := ["datauri", "vbscript:", "javascript:"]

  /** The four block and attribute patterns, in the order they are removed. */
  const MarkupPatterns: seq<Pattern> := [ScriptBlock, StyleBlock, QuotedHandler('"'), QuotedHandler('\'')]

  /** The dangerous words as patterns, in the order they are removed. */
  const WordPatterns: seq<Pattern> := [Word("datauri"), Word("vbscript:"), Word("javascript:")]

  /** Every pattern the sanitiser deletes, in order. */
  const AllPatterns: seq<Pattern> := MarkupPatterns + WordPatterns

  /** What `sanitizeHtmlForNote` returns. */
  function Sanitized(html: string): string {
    Trim(RemoveAll(AllPatterns, html))
  }

  /** Running two lists of passes one after the other is running their concatenation. */
  lemma {:induction false} RemoveAllConcat(ps: seq<Pattern>, qs: seq<Pattern>, s: string)
    ensures RemoveAll(ps + qs, s) == RemoveAll(qs, RemoveAll(ps, s))
    decreases |ps|
  {
    if ps == [] {
      assert ps + qs == qs;
    } else {
      assert (ps + qs)[1..] == ps[1..] + qs;
      RemoveAllConcat(ps[1..], qs, Remove(ps[0], s));
    }
  }

  /** `sanitizeHtmlForNote`: the four passes, the loop over the dangerous words, then
      trimming. Sanitising only deletes characters, and the result has no whitespace at
      either end. */
  method SanitizeHtmlForNote(html: string) returns (r: string)
    ensures r == Sanitized(html)
    ensures IsSubsequence(r, html)
    ensures r == [] || (!IsJsWhitespace(r[0]) && !IsJsWhitespace(r[|r| - 1]))
  {
    var sanitized := html;
    sanitized := Remove(ScriptBlock, sanitized);
    sanitized := Remove(StyleBlock, sanitized);
    sanitized := Remove(QuotedHandler('"'), sanitized);
    sanitized := Remove(QuotedHandler('\''), sanitized);
    MarkupIsFourPasses(html);
    RemoveAllConcat(MarkupPatterns, WordPatterns, html);
    for k := 0 to |DangerousWords|
      invariant RemoveAll(WordPatterns[k..], sanitized) == RemoveAll(AllPatterns, html)
    {
      assert WordPatterns[k] == Word(DangerousWords[k]);
      assert WordPatterns[k..][1..] == WordPatterns[k + 1..];
      sanitized := Remove(Word(DangerousWords[k]), sanitized);
    }
    r := Trim(sanitized);
    SanitizedSubsequence(html);
  }

  /** The four block and attribute passes written out. */
  function RemoveMarkup(html: string): string {
    Remove(QuotedHandler('\''), Remove(QuotedHandler('"'), Remove(StyleBlock, Remove(ScriptBlock, html))))
  }

  lemma MarkupIsFourPasses(html: string)
    ensures RemoveAll(MarkupPatterns, html) == RemoveMarkup(html)
  {
    var ps := MarkupPatterns;
    assert ps[1..][1..][1..][1..] == [];
  }

  /** Each pass only deletes characters. */
  lemma {:induction false} PassSubsequence(p: Pattern, s: string, i: nat)
    requires i <= |s|
    ensures IsSubsequence(Pass(p, s, i), s[i..])
    decreases |s| - i
  {
    if i < |s| {
      match MatchEnd(p, s, i)
      case Some(e) =>
        PassSubsequence(p, s, e);
        SubsequenceOfLongerSuffix(Pass(p, s, e), s, i, e);
      case None =>
        PassSubsequence(p, s, i + 1);
        SubsequenceKeepHead(Pass(p, s, i + 1), s, i);
    }
  }

  lemma RemoveSubsequence(p: Pattern, s: string)
    ensures IsSubsequence(Remove(p, s), s)
    ensures |Remove(p, s)| <= |s|
  {
    PassSubsequence(p, s, 0);
    assert s[0..] == s;
    SubsequenceLength(Remove(p, s), s);
  }

  lemma {:induction false} RemoveAllSubsequence(ps: seq<Pattern>, s: string)
    ensures IsSubsequence(RemoveAll(ps, s), s)
    ensures |RemoveAll(ps, s)| <= |s|
    decreases |ps|
  {
    if ps == [] {
      SubsequenceReflexive(s);
    } else {
      var t := Remove(ps[0], s);
      RemoveSubsequence(ps[0], s);
      RemoveAllSubsequence(ps[1..], t);
      SubsequenceTransitive(RemoveAll(ps, s), t, s);
    }
  }

  /** The sanitised HTML is the input with some characters deleted. */
  lemma SanitizedSubsequence(html: string)
    ensures IsSubsequence(Sanitized(html), html)
    ensures |Sanitized(html)| <= |html|
  {
    var w := RemoveAll(AllPatterns, html);
    RemoveAllSubsequence(AllPatterns, html);
    TrimSubsequence(w);
    SubsequenceTransitive(Trim(w), w, html);
    SubsequenceLength(Sanitized(html), html);
  }

  /** Text with no `<`, no `=` and none of the dangerous words in any letter case
      comes back only trimmed. */
  lemma PlainTextOnlyTrimmed(html: string)
    requires '<' !in html && '=' !in html
    requires forall w :: w in DangerousWords ==> !ContainsIgnoreCase(html, w)
    ensures Sanitized(html) == Trim(html)
  {
    NoOccurrenceWithoutChar(html, "<script", 0);
    NoOccurrenceWithoutChar(html, "<style", 0);
    forall p, k | p in AllPatterns && 0 <= k < |html| ensures MatchEnd(p, html, k).None? {
      match p
      case ScriptBlock =>
      case StyleBlock =>
      case QuotedHandler(q) =>
      case Word(w) =>
        assert w in DangerousWords;
        if w != [] && AtIgnoreCase(html, k, w) {
          assert ContainsIgnoreCase(html, w);
        }
    }
    RemoveAllWithoutMatch(AllPatterns, html);
  }

  /** A pass over text where the pattern matches nowhere changes nothing. */
  lemma {:induction false} PassWithoutMatch(p: Pattern, s: string, i: nat)
    requires i <= |s|
    requires forall k :: i <= k < |s| ==> MatchEnd(p, s, k).None?
    ensures Pass(p, s, i) == s[i..]
    decreases |s| - i
  {
    if i < |s| {
      PassWithoutMatch(p, s, i + 1);
      assert [s[i]] + s[i + 1..] == s[i..];
    }
  }

  /** A pass over text where the pattern matches somewhere deletes something. */
  lemma {:induction false} PassShrinksOnMatch(p: Pattern, s: string, i: nat, k: nat)
    requires i <= k < |s| && MatchEnd(p, s, k).Some?
    ensures |Pass(p, s, i)| < |s| - i
    decreases |s| - i
  {
    match MatchEnd(p, s, i)
    case Some(e) =>
      PassSubsequence(p, s, e);
      SubsequenceLength(Pass(p, s, e), s[e..]);
    case None =>
      PassShrinksOnMatch(p, s, i + 1, k);
  }

  /** Passes whose patterns match nowhere change nothing. */
  lemma {:induction false} RemoveAllWithoutMatch(ps: seq<Pattern>, s: string)
    requires forall p, k :: p in ps && 0 <= k < |s| ==> MatchEnd(p, s, k).None?
    ensures RemoveAll(ps, s) == s
    decreases |ps|
  {
    if ps != [] {
      PassWithoutMatch(ps[0], s, 0);
      assert s[0..] == s;
      RemoveAllWithoutMatch(ps[1..], s);
    }
  }

  /** Conversely, passes that together keep the length of the text find no match
      anywhere. */
  lemma {:induction false} RemoveAllIdle(ps: seq<Pattern>, s: string)
    requires |RemoveAll(ps, s)| >= |s|
    ensures RemoveAll(ps, s) == s
    ensures forall p, k :: p in ps && 0 <= k < |s| ==> MatchEnd(p, s, k).None?
    decreases |ps|
  {
    if ps != [] {
      var t := Remove(ps[0], s);
      RemoveAllSubsequence(ps[1..], t);
      forall k | 0 <= k < |s| ensures MatchEnd(ps[0], s, k).None? {
        if MatchEnd(ps[0], s, k).Some? {
          PassShrinksOnMatch(ps[0], s, 0, k);
        }
      }
      PassWithoutMatch(ps[0], s, 0);
      assert s[0..] == s;
      RemoveAllIdle(ps[1..], s);
    }
  }

  // ---------------------------------------------------------------------------
  // validateNoteHtml
  // ---------------------------------------------------------------------------

  const ScriptWarning: string := "HTML contains <script> tags (will be stripped)"
  const EventHandlerWarning: string := "HTML contains event handlers (will be removed)"
  const SizeWarning: string := "HTML content is very large (>1MB)"

  /** The size limit of `validateNoteHtml`, in characters (see `Text`). */
  const MaxHtmlLength: nat := 1000000

  datatype HtmlValidation = HtmlValidation(valid: bool, warnings: seq<string>)

  /** `/\son\w+\s*=/i.test(html)`. */
  predicate HasEventHandler(html: string) {
    exists i: nat :: i < |html| && HandlerAt(html, i).Some?
  }

  /** The first event-handler position at or after `from`. */
  function FindHandler(s: string, from: nat): (r: Option<nat>)
    ensures r.Some? ==> from <= r.value < |s| && HandlerAt(s, r.value).Some?
    ensures r.None? ==> forall k: nat :: from <= k < |s| ==> HandlerAt(s, k).None?
    decreases |s| - from
  {
    if from >= |s| then None
    else if HandlerAt(s, from).Some? then Some(from)
    else FindHandler(s, from + 1)
  }

  /** `validateNoteHtml`: each warning is reported exactly when its check fires, in the
      order script tag, event handler, size; the HTML is valid exactly when there is no
      warning. */
  function ValidateNoteHtml(html: string): (r: HtmlValidation)
    ensures r.valid <==> r.warnings == []
    ensures ScriptWarning in r.warnings <==> ContainsIgnoreCase(html, "<script")
    ensures EventHandlerWarning in r.warnings <==> HasEventHandler(html)
    ensures SizeWarning in r.warnings <==> |html| > MaxHtmlLength
    ensures IsSubsequence(r.warnings, [ScriptWarning, EventHandlerWarning, SizeWarning])
  {
    var hasScript := FindIgnoreCase(html, 0, "<script").Some?;
    var hasHandler := FindHandler(html, 0).Some?;
    var warnings := Checks3(hasScript, ScriptWarning, hasHandler, EventHandlerWarning,
                            |html| > MaxHtmlLength, SizeWarning);
    WarningsDistinct();
    Checks3Exact(hasScript, ScriptWarning, hasHandler, EventHandlerWarning, |html| > MaxHtmlLength, SizeWarning);
    HtmlValidation(warnings == [], warnings)
  }

  /** The three validation warnings differ from each other. */
  lemma WarningsDistinct()
    ensures ScriptWarning != EventHandlerWarning && ScriptWarning != SizeWarning && EventHandlerWarning != SizeWarning
  {
    assert ScriptWarning[14] != EventHandlerWarning[14];
    assert ScriptWarning[9] != SizeWarning[9];
    assert EventHandlerWarning[9] != SizeWarning[9];
  }

  /** Without `<script` anywhere no script block matches. */
  lemma NoScriptBlock(html: string)
    requires !ContainsIgnoreCase(html, "<script")
    ensures forall k :: 0 <= k < |html| ==> MatchEnd(ScriptBlock, html, k).None?
  {
  }

  /** Without an event-handler prefix anywhere no quoted handler matches. */
  lemma NoQuotedHandler(html: string, q: char)
    requires !HasEventHandler(html)
    ensures forall k :: 0 <= k < |html| ==> MatchEnd(QuotedHandler(q), html, k).None?
  {
  }

  /** HTML without `<script`, without an event-handler prefix and without a style block
      goes through the four markup passes untouched. */
  lemma MarkupPassesIdle(html: string)
    requires !ContainsIgnoreCase(html, "<script") && !HasEventHandler(html)
    requires forall k :: 0 <= k < |html| ==> MatchEnd(StyleBlock, html, k).None?
    ensures RemoveMarkup(html) == html
  {
    assert html[0..] == html;
    NoScriptBlock(html);
    PassWithoutMatch(ScriptBlock, html, 0);
    assert Remove(ScriptBlock, html) == html;
    PassWithoutMatch(StyleBlock, html, 0);
    assert Remove(StyleBlock, html) == html;
    NoQuotedHandler(html, '"');
    PassWithoutMatch(QuotedHandler('"'), html, 0);
    assert Remove(QuotedHandler('"'), html) == html;
    NoQuotedHandler(html, '\'');
    PassWithoutMatch(QuotedHandler('\''), html, 0);
  }

  /** HTML that passes the script and event-handler checks of `validateNoteHtml` and holds
      no style block goes through the four markup passes of the sanitiser untouched:
      sanitising it only removes dangerous words and trims. */
  lemma CleanHtmlKeepsMarkup(html: string)
    requires ScriptWarning !in ValidateNoteHtml(html).warnings
    requires EventHandlerWarning !in ValidateNoteHtml(html).warnings
    requires forall k :: 0 <= k < |html| ==> MatchEnd(StyleBlock, html, k).None?
    ensures RemoveMarkup(html) == html
  {
    MarkupPassesIdle(html);
  }

  // ---------------------------------------------------------------------------
  // One pass per pattern is not enough
  // ---------------------------------------------------------------------------

  /** `w` does not occur at `i` when its character `j` differs there. */
  lemma NotAt(s: string, i: nat, w: string, j: nat)
    requires j < |w| && (i + j >= |s| || LowerAscii(s[i + j]) != w[j])
    ensures !AtIgnoreCase(s, i, w)
  {
    if i + |w| <= |s| {
      assert LowerAsciiString(s[i..i + |w|])[j] == LowerAscii(s[i + j]);
    }
  }

  /** No occurrence of `w` ignoring case when one of its characters never occurs (after
      ASCII lower-casing). */
  lemma NoOccurrenceWithoutChar(s: string, w: string, j: nat)
    requires j < |w| && forall k :: 0 <= k < |s| ==> LowerAscii(s[k]) != w[j]
    ensures forall i: nat :: !AtIgnoreCase(s, i, w)
  {
    forall i: nat ensures !AtIgnoreCase(s, i, w) {
      NotAt(s, i, w, j);
    }
  }

  /** The input that shows one pass is not enough: deleting the inner `javascript:`
      joins its two halves into a new one. */
  const NestedJavascript: string := "javajavascript:script:"

  /** On the nested input every pattern but `javascript:` matches nowhere: it has no `<`,
      no whitespace, no `d` and no `b`. */
  lemma NestedOtherPatternsIdle()
    ensures RemoveAll(AllPatterns[..6], NestedJavascript) == NestedJavascript
  {
    var x := NestedJavascript;
    assert forall k :: 0 <= k < |x| ==> 'a' <= x[k] <= 'z' || x[k] == ':';
    NoOccurrenceWithoutChar(x, "<script", 0);
    NoOccurrenceWithoutChar(x, "<style", 0);
    NoOccurrenceWithoutChar(x, "datauri", 0);
    NoOccurrenceWithoutChar(x, "vbscript:", 1);
    RemoveAllWithoutMatch(AllPatterns[..6], x);
  }

  lemma JsMatchAt4()
    ensures MatchEnd(Word("javascript:"), NestedJavascript, 4) == Some(15)
  {
    assert NestedJavascript[4..15] == "javascript:";
    assert LowerAsciiString(NestedJavascript[4..15]) == "javascript:";
  }

  lemma JsSkip()
    ensures Pass(Word("javascript:"), NestedJavascript, 4) == Pass(Word("javascript:"), NestedJavascript, 15)
  {
    JsMatchAt4();
  }

  lemma JsTail()
    ensures Pass(Word("javascript:"), NestedJavascript, 15) == "script:"
  {
    PassWithoutMatch(Word("javascript:"), NestedJavascript, 15);
    assert NestedJavascript[15..] == "script:";
  }

  /** The characters of a text starting with `javaj`, which the `javascript:` pass needs. */
  predicate StartsJavaJ(x: string) {
    |x| > 4 && x[0] == 'j' && x[1] == 'a' && x[2] == 'v' && x[3] == 'a' && x[4] == 'j'
  }

  lemma JsStep(x: string, i: nat)
    requires StartsJavaJ(x) && i < 4
    ensures Pass(Word("javascript:"), x, i) == [x[i]] + Pass(Word("javascript:"), x, i + 1)
  {
    if i == 0 {
      NotAt(x, 0, "javascript:", 4);
    } else {
      NotAt(x, i, "javascript:", 0);
    }
  }

  /** The first four characters `java` are copied by the `javascript:` pass. */
  lemma JsHead(x: string)
    requires StartsJavaJ(x)
    ensures Pass(Word("javascript:"), x, 0)
         == ['j'] + (['a'] + (['v'] + (['a'] + Pass(Word("javascript:"), x, 4))))
  {
    JsStep(x, 0);
    JsStep(x, 1);
    JsStep(x, 2);
    JsStep(x, 3);
    var js := Word("javascript:");
    Prepend4(Pass(js, x, 0), Pass(js, x, 1), Pass(js, x, 2), Pass(js, x, 3), Pass(js, x, 4), 'j', 'a', 'v', 'a');
  }

  lemma Prepend4(p0: string, p1: string, p2: string, p3: string, p4: string, a: char, b: char, c: char, d: char)
    requires p0 == [a] + p1 && p1 == [b] + p2 && p2 == [c] + p3 && p3 == [d] + p4
    ensures p0 == [a] + ([b] + ([c] + ([d] + p4)))
  {
  }

  lemma JavaScriptText()
    ensures ['j'] + (['a'] + (['v'] + (['a'] + "script:"))) == "javascript:"
  {
  }

  /** The `javascript:` pass deletes the inner occurrence and nothing else. */
  lemma NestedJavascriptPass()
    ensures Remove(Word("javascript:"), NestedJavascript) == "javascript:"
  {
    assert StartsJavaJ(NestedJavascript);
    JsHead(NestedJavascript);
    JsSkip();
    JsTail();
    JavaScriptText();
  }

  /** A single pass as a list of passes. */
  lemma RemoveAllOne(p: Pattern, s: string)
    ensures RemoveAll([p], s) == Remove(p, s)
  {
    assert [p][1..] == [];
  }

  /** All seven passes turn the nested input into `javascript:`. */
  lemma NestedRemoved()
    ensures RemoveAll(AllPatterns, NestedJavascript) == "javascript:"
  {
    var js := Word("javascript:");
    assert AllPatterns == AllPatterns[..6] + [js];
    RemoveAllConcat(AllPatterns[..6], [js], NestedJavascript);
    NestedOtherPatternsIdle();
    NestedJavascriptPass();
    RemoveAllOne(js, NestedJavascript);
  }

  /** A lower-case word matches itself at its start. */
  lemma WordMatchesItself(w: string)
    requires w != [] && LowerAsciiString(w) == w
    ensures MatchEnd(Word(w), w, 0) == Some(|w|)
  {
    assert w[0..|w|] == w;
  }

  lemma LowerJavascript()
    ensures LowerAsciiString("javascript:") == "javascript:"
  {
  }

  /** As written, sanitising the nested input returns exactly `javascript:`, one of the
      words the sanitiser is meant to remove. */
  lemma SanitizerLeavesDangerousWord()
    ensures Sanitized(NestedJavascript) == "javascript:"
    ensures MatchEnd(Word("javascript:"), Sanitized(NestedJavascript), 0).Some?
  {
    var js := "javascript:";
    NestedRemoved();
    assert js[0] == 'j' && js[|js| - 1] == ':';
    TrimKeepsTrimmed(js);
    LowerJavascript();
    WordMatchesItself(js);
  }

  /** A sequence that is a subsequence of another of the same length is that sequence. */
  lemma {:induction false} SubsequenceSameLength<T>(a: seq<T>, b: seq<T>)
    requires IsSubsequence(a, b) && |a| == |b|
    ensures a == b
    decreases |b|
  {
    if a != [] {
      if a[0] == b[0] && IsSubsequence(a[1..], b[1..]) {
        SubsequenceSameLength(a[1..], b[1..]);
        assert a == [a[0]] + a[1..];
        assert b == [b[0]] + b[1..];
      } else {
        SubsequenceLength(a, b[1..]);
      }
    }
  }

  /** Text in which none of the sanitiser's patterns matches anywhere. */
  predicate NoDangerousContent(s: string) {
    forall p, k :: p in AllPatterns && 0 <= k < |s| ==> MatchEnd(p, s, k).None?
  }

  /** Text the sanitiser leaves unchanged contains none of its patterns. */
  lemma SanitizedFixpointIsClean(r: string)
    requires Sanitized(r) == r
    ensures NoDangerousContent(r)
  {
    RemoveAllIdle(AllPatterns, r);
  }

  /** The sanitiser repeated until the text stops changing. */
  function SanitizeFully(html: string): (r: string)
    ensures Sanitized(r) == r
    ensures IsSubsequence(r, html)
    decreases |html|
  {
    var t := Sanitized(html);
    if t == html then
      SubsequenceReflexive(html);
      html
    else
      SanitizedSubsequence(html);
      if |t| == |html| then
        SubsequenceSameLength(t, html);
        html
      else
        var r := SanitizeFully(t);
        SubsequenceTransitive(r, t, html);
        r
  }

  /** Sanitising to a fixpoint removes every script block, style block, quoted event
      handler and dangerous word, and only deletes characters. */
  lemma SanitizeFullyIsClean(html: string)
    ensures NoDangerousContent(SanitizeFully(html))
    ensures IsSubsequence(SanitizeFully(html), html)
  {
    SanitizedFixpointIsClean(SanitizeFully(html));
  }
}
