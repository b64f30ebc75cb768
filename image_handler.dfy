/** Image references in Markdown (src/core/markdown/image-handler.ts): detection of local
    image links, MIME type by extension, file validation and path rewriting. The file
    system enters as two functions: `resolve` for `path.resolve` and `stat` for a
    snapshot of `fs.stat`. */
module ImageHandler {

  import opened Wrappers
  import opened Text
  import opened ImageLink

  /** `MAX_IMAGE_SIZE`: 10 MiB. */
  const MaxImageSize: nat := 10 * 1024 * 1024

  /** `SUPPORTED_MIME_TYPES`. */
  const SupportedMimeTypes: seq<string> := ["image/jpeg", "image/png", "image/gif", "image/webp", "image/svg+xml"]

  const OctetStream: string := "application/octet-stream"

  /** `ImageReference`: the upload fields are absent until an upload succeeds. */
  datatype ImageReference = ImageReference(
    originalPath: string,
    absolutePath: string,
    mimeType: string,
    size: nat,
    uploadedMediaId: Option<string>,
    uploadedUrl: Option<string>)

  /** What `fs.stat` reports for a path: it throws, or it gives the kind and the size. */
  datatype FileStat = StatFailed | FileStat(isFile: bool, size: nat)

  /** The last index of `c` in `s`. */
  function LastIndexOf(s: string, c: char): (r: Option<nat>)
    ensures r.Some? ==> r.value < |s| && s[r.value] == c
    ensures r.Some? ==> forall k :: r.value < k < |s| ==> s[k] != c
    ensures r.None? ==> forall k :: 0 <= k < |s| ==> s[k] != c
    decreases |s|
  {
    if s == [] then None
    else if s[|s| - 1] == c then Some(|s| - 1)
    else LastIndexOf(s[..|s| - 1], c)
  }

  function StripTrailingSlashes(p: string): (r: string)
    ensures |r| <= |p| && r == p[..|r|]
    ensures r == [] || r[|r| - 1] != '/'
    decreases |p|
  {
    if p != [] && p[|p| - 1] == '/' then StripTrailingSlashes(p[..|p| - 1]) else p
  }

  /** The last path segment, ignoring trailing slashes. */
  function BaseName(p: string): (r: string)
    ensures '/' !in r
  {
    var t := StripTrailingSlashes(p);
    match LastIndexOf(t, '/')
    case None => t
    case Some(k) =>
      var r := t[k + 1..];
      assert forall j :: 0 <= j < |r| ==> r[j] == t[k + 1 + j];
      r
  }

  /** POSIX `path.extname`: from the last `.` of the last segment to its end; empty when
      the segment has no `.`, has its last `.` at its start, or is `..`. */
  function Extname(p: string): (r: string)
    ensures r == [] || (r[0] == '.' && '.' !in r[1..])
    ensures r == [] <==>
      BaseName(p) == ".." || forall d :: 1 <= d < |BaseName(p)| ==> BaseName(p)[d] != '.'
    ensures r != [] ==> |r| < |BaseName(p)| && BaseName(p)[|BaseName(p)| - |r|..] == r
  {
    SegmentExtension(BaseName(p))
  }

  /** The extension of one path segment: empty for `..` and for a segment with no `.`
      after its first character (dot-less names and dot-files such as `.png`); otherwise
      the segment's end from its last `.`. */
  function SegmentExtension(base: string): (r: string)
    ensures r == [] || (r[0] == '.' && '.' !in r[1..])
    ensures r == [] <==> base == ".." || forall d :: 1 <= d < |base| ==> base[d] != '.'
    ensures r != [] ==> |r| < |base| && base[|base| - |r|..] == r
  {
    if base == ".." then ""
    else match LastIndexOf(base, '.')
      case None => ""
      case Some(d) =>
        if d == 0 then ""
        else
          var r := base[d..];
          assert forall j :: 0 <= j < |r| - 1 ==> r[1..][j] == base[d + 1 + j];
          r
  }

  /** The extension table of `getMimeType`, keyed by lower-cased extension. */
  function MimeForExtension(ext: string): Option<string> {
    if ext == ".jpg" || ext == ".jpeg" then Some("image/jpeg")
    else if ext == ".png" then Some("image/png")
    else if ext == ".gif" then Some("image/gif")
    else if ext == ".webp" then Some("image/webp")
    else if ext == ".svg" then Some("image/svg+xml")
    else None
  }

  /** `getMimeType`: the table entry for the lower-cased extension, or
      `application/octet-stream`. */
  function GetMimeType(filePath: string): string
  {
    match MimeForExtension(LowerAsciiString(Extname(filePath)))
    case Some(m) => m
    case None => OctetStream
  }

  /** A path without an extension (a dot-less name, a dot-file, `..`) is typed
      `application/octet-stream`. */
  lemma NoExtensionIsOctetStream(filePath: string)
    requires Extname(filePath) == []
    ensures GetMimeType(filePath) == OctetStream
  {
    assert LowerAsciiString([]) == [];
  }

  /** The MIME type is supported exactly when the lower-cased extension is in the table;
      otherwise it is `application/octet-stream`. */
  lemma GetMimeTypeSupported(filePath: string)
    ensures GetMimeType(filePath) in SupportedMimeTypes
        <==> MimeForExtension(LowerAsciiString(Extname(filePath))).Some?
    ensures GetMimeType(filePath) !in SupportedMimeTypes ==> GetMimeType(filePath) == OctetStream
  {
    TableSupported(LowerAsciiString(Extname(filePath)));
    OctetStreamUnsupported();
  }

  /** Every type in the extension table is a supported type. */
  lemma TableSupported(ext: string)
    ensures MimeForExtension(ext).Some? ==> MimeForExtension(ext).value in SupportedMimeTypes
  {
  }

  /** The fallback type is not a supported type: it does not start with `i`. */
  lemma OctetStreamUnsupported()
    ensures OctetStream !in SupportedMimeTypes
  {
    assert OctetStream[0] == 'a';
    assert forall k :: 0 <= k < |SupportedMimeTypes| ==> SupportedMimeTypes[k][0] == 'i';
  }

  /** Any spelling of a table extension, in any case, at the end of a file name gives
      its MIME type: `photo.JPG` in any directory is `image/jpeg`. */
  lemma MimeOfFileName(dir: string, stem: string, ext: string)
    requires stem != [] && '/' !in stem
    requires |ext| >= 2 && ext[0] == '.' && '.' !in ext[1..] && '/' !in ext
    requires MimeForExtension(LowerAsciiString(ext)).Some?
    ensures GetMimeType(dir + stem + ext) == MimeForExtension(LowerAsciiString(ext)).value
    ensures GetMimeType(dir + stem + ext) in SupportedMimeTypes
  {
    ExtnameOfFileName(dir, stem, ext);
    TableSupported(LowerAsciiString(ext));
  }

  /** A file named `stem` + `ext`, in any directory, has extension `ext` when the stem is
      non-empty and neither part holds a `/` and `ext` is a dot followed by dot-free text. */
  lemma ExtnameOfFileName(dir: string, stem: string, ext: string)
    requires stem != [] && '/' !in stem
    requires |ext| >= 2 && ext[0] == '.' && '.' !in ext[1..] && '/' !in ext
    ensures Extname(dir + stem + ext) == ext
  {
    var p := dir + stem + ext;
    var w := stem + ext;
    EndsWithName(dir, stem, ext);
    BaseNameEndsWith(p, w);
    var base := BaseName(p);
    SuffixOfSuffix(base, stem, ext);
    ExtensionOfSegment(base, ext, |stem|);
  }

  /** A path built as `dir + stem + ext` ends with `stem + ext`. */
  lemma EndsWithName(dir: string, stem: string, ext: string)
    ensures var p := dir + stem + ext; |stem + ext| <= |p| && p[|p| - |stem + ext|..] == stem + ext
  {
    assert dir + stem + ext == dir + (stem + ext);
  }

  /** What ends with `stem + ext` ends with `ext`. */
  lemma SuffixOfSuffix(base: string, stem: string, ext: string)
    requires |stem + ext| <= |base| && base[|base| - |stem + ext|..] == stem + ext
    ensures base[|base| - |ext|..] == ext
  {
    var w := stem + ext;
    assert base[|base| - |w|..][|stem|..] == base[|base| - |ext|..];
    assert w[|stem|..] == ext;
  }

  /** A segment ending in a non-empty stem and a dot-free extension has that extension. */
  lemma ExtensionOfSegment(base: string, ext: string, stemLength: nat)
    requires |ext| >= 2 && ext[0] == '.' && '.' !in ext[1..]
    requires |ext| + stemLength <= |base| && stemLength > 0 && base[|base| - |ext|..] == ext
    ensures SegmentExtension(base) == ext
  {
    LastDotAt(base, ext);
    assert base != ".." by {
      assert ext[1] in ext[1..];
    }
  }

  /** A name without `/` at the end of a path ends its last segment. */
  lemma BaseNameEndsWith(p: string, w: string)
    requires w != [] && '/' !in w && |w| <= |p| && p[|p| - |w|..] == w
    ensures |w| <= |BaseName(p)| && BaseName(p)[|BaseName(p)| - |w|..] == w
  {
    assert p[|p| - 1] == w[|w| - 1];
    assert w[|w| - 1] in w;
    assert StripTrailingSlashes(p) == p;
    match LastIndexOf(p, '/')
    case None =>
      assert BaseName(p) == p;
    case Some(s) =>
      SlashBeforeName(p, w, s);
      var b := p[s + 1..];
      assert BaseName(p) == b;
      assert b[|b| - |w|..] == p[|p| - |w|..];
  }

  /** A `/` in a path ending with a `/`-free name lies before that name. */
  lemma SlashBeforeName(p: string, w: string, s: nat)
    requires '/' !in w && |w| <= |p| && p[|p| - |w|..] == w
    requires s < |p| && p[s] == '/'
    ensures s < |p| - |w|
  {
    assert forall j :: 0 <= j < |w| ==> w[j] != '/' && p[|p| - |w| + j] == w[j];
  }

  /** The `.` that starts a dot-free extension at the end of a name is its last `.`. */
  lemma LastDotAt(base: string, ext: string)
    requires ext != [] && ext[0] == '.' && '.' !in ext[1..]
    requires |ext| <= |base| && base[|base| - |ext|..] == ext
    ensures LastIndexOf(base, '.') == Some(|base| - |ext|)
  {
    var d := |base| - |ext|;
    assert base[d] == ext[0];
    forall k | d < k < |base| ensures base[k] != '.' {
      assert base[k] == ext[1..][k - d - 1];
      assert ext[1..][k - d - 1] in ext[1..];
    }
  }

  /** Whether `originalPath` is a web URL, which detection leaves alone. */
  predicate IsRemote(path: string) {
    StartsWith(path, "http://") || StartsWith(path, "https://")
  }

  /** The body of the detection loop for one candidate: skip URLs, files that cannot be
      stat-ed, non-files, files over 10 MiB and unsupported types; otherwise a reference
      with no upload fields. */
  function Accept(m: LinkMatch, basePath: string, resolve: (string, string) -> string,
                  stat: string -> FileStat): Option<ImageReference>
  {
    if IsRemote(m.path) then None
    else
      var absolutePath := resolve(basePath, m.path);
      match stat(absolutePath)
      case StatFailed => None
      case FileStat(isFile, size) =>
        if !isFile || size > MaxImageSize then None
        else
          var mimeType := GetMimeType(absolutePath);
          if mimeType !in SupportedMimeTypes then None
          else Some(ImageReference(m.path, absolutePath, mimeType, size, None, None))
  }

  /** The references kept from a list of candidates, in candidate order. */
  function Accepted(cs: seq<LinkMatch>, basePath: string, resolve: (string, string) -> string,
                    stat: string -> FileStat): seq<ImageReference>
    decreases |cs|
  {
    if cs == [] then []
    else
      Kept(cs[0], basePath, resolve, stat) + Accepted(cs[1..], basePath, resolve, stat)
  }

  /** The candidate as a list of zero or one references. */
  function Kept(m: LinkMatch, basePath: string, resolve: (string, string) -> string,
                stat: string -> FileStat): seq<ImageReference>
  {
    match Accept(m, basePath, resolve, stat)
    case Some(r) => [r]
    case None => []
  }

  /** What every detected reference satisfies. */
  predicate Acceptable(r: ImageReference, basePath: string, resolve: (string, string) -> string,
                       stat: string -> FileStat) {
    && !IsRemote(r.originalPath)
    && r.absolutePath == resolve(basePath, r.originalPath)
    && stat(r.absolutePath) == FileStat(true, r.size)
    && r.size <= MaxImageSize
    && r.mimeType in SupportedMimeTypes
    && r.mimeType == GetMimeType(r.absolutePath)
    && r.uploadedMediaId.None? && r.uploadedUrl.None?
  }

  /** `detectImages`: the `exec` loop over the scanner's matches with the filters of its body.
      The result is exactly the accepted candidates, in text order. */
  method DetectImages(markdownContent: string, basePath: string,
                      resolve: (string, string) -> string, stat: string -> FileStat)
    returns (images: seq<ImageReference>)
    ensures images == Accepted(Links(markdownContent, 0), basePath, resolve, stat)
  {
    images := [];
    var lastIndex := 0;
    ghost var all := Accepted(Links(markdownContent, 0), basePath, resolve, stat);
    while true
      invariant lastIndex <= |markdownContent|
      invariant images + Accepted(Links(markdownContent, lastIndex), basePath, resolve, stat) == all
      decreases |markdownContent| - lastIndex
    {
      var found := NextLink(markdownContent, lastIndex);
      if found.None? {
        assert images == images + [];
        break;
      }
      var m := found.value;
      AcceptedStep(markdownContent, lastIndex, basePath, resolve, stat);
      ghost var later := Accepted(Links(markdownContent, m.end), basePath, resolve, stat);
      var image := InspectCandidate(m, basePath, resolve, stat);
      Regroup(images, Kept(m, basePath, resolve, stat), later);
      lastIndex := m.end;
      if image.Some? {
        images := images + [image.value];
      } else {
        assert images + [] == images;
      }
    }
  }

  /** Concatenation regrouped, for the loop step above. */
  lemma Regroup(a: seq<ImageReference>, b: seq<ImageReference>, c: seq<ImageReference>)
    ensures a + (b + c) == (a + b) + c
  {
  }

  /** The body of the detection loop for one candidate: `continue` for a web URL, a
      failed `stat`, a non-file, a file over 10 MiB or an unsupported MIME type, and the
      new reference otherwise. */
  method InspectCandidate(m: LinkMatch, basePath: string,
                          resolve: (string, string) -> string, stat: string -> FileStat)
    returns (image: Option<ImageReference>)
    ensures image == Accept(m, basePath, resolve, stat)
  {
    var imagePath := m.path;
    if StartsWith(imagePath, "http://") || StartsWith(imagePath, "https://") {
      return None;
    }
    var absolutePath := resolve(basePath, imagePath);
    var stats := stat(absolutePath);
    if stats.StatFailed? {
      return None;
    }
    if !stats.isFile {
      return None;
    }
    if stats.size > MaxImageSize {
      return None;
    }
    var mimeType := GetMimeType(absolutePath);
    if mimeType !in SupportedMimeTypes {
      return None;
    }
    return Some(ImageReference(imagePath, absolutePath, mimeType, stats.size, None, None));
  }

  /** One step of the scan: the references accepted from `from` on are those of the
      next match followed by those after it. */
  lemma AcceptedStep(s: string, from: nat, basePath: string,
                     resolve: (string, string) -> string, stat: string -> FileStat)
    requires NextLink(s, from).Some?
    ensures var m := NextLink(s, from).value;
      Accepted(Links(s, from), basePath, resolve, stat)
        == Kept(m, basePath, resolve, stat) + Accepted(Links(s, m.end), basePath, resolve, stat)
  {
    var m := NextLink(s, from).value;
    var rest := Links(s, m.end);
    assert Links(s, from) == [m] + rest;
    assert ([m] + rest)[1..] == rest;
  }

  /** Every kept reference passes all the filters: no URL, a regular file of at most
      10 MiB, a supported MIME type. */
  lemma {:induction false} AcceptedSound(cs: seq<LinkMatch>, basePath: string,
                                         resolve: (string, string) -> string, stat: string -> FileStat)
    ensures forall r :: r in Accepted(cs, basePath, resolve, stat) ==> Acceptable(r, basePath, resolve, stat)
    decreases |cs|
  {
    if cs != [] {
      AcceptedSound(cs[1..], basePath, resolve, stat);
    }
  }

  /** Every candidate that passes the filters is kept (failing ones are skipped, never fatal). */
  lemma {:induction false} AcceptedComplete(cs: seq<LinkMatch>, k: nat, basePath: string,
                                            resolve: (string, string) -> string, stat: string -> FileStat)
    requires k < |cs| && Accept(cs[k], basePath, resolve, stat).Some?
    ensures Accept(cs[k], basePath, resolve, stat).value in Accepted(cs, basePath, resolve, stat)
    decreases |cs|
  {
    var x := Accept(cs[k], basePath, resolve, stat).value;
    var head := Kept(cs[0], basePath, resolve, stat);
    var tail := Accepted(cs[1..], basePath, resolve, stat);
    assert Accepted(cs, basePath, resolve, stat) == head + tail;
    if k > 0 {
      assert cs[1..][k - 1] == cs[k];
      AcceptedComplete(cs[1..], k - 1, basePath, resolve, stat);
      assert x in tail;
    } else {
      assert head == [x];
    }
    assert x in head + tail;
  }

  function Paths(cs: seq<LinkMatch>): seq<string>
    decreases |cs|
  {
    if cs == [] then [] else [cs[0].path] + Paths(cs[1..])
  }

  function OriginalPaths(rs: seq<ImageReference>): seq<string>
    decreases |rs|
  {
    if rs == [] then [] else [rs[0].originalPath] + OriginalPaths(rs[1..])
  }

  /** Order: the kept original paths are the candidates' literal paths with some deleted,
      in the same order. */
  lemma {:induction false} AcceptedKeepsOrder(cs: seq<LinkMatch>, basePath: string,
                                              resolve: (string, string) -> string, stat: string -> FileStat)
    ensures IsSubsequence(OriginalPaths(Accepted(cs, basePath, resolve, stat)), Paths(cs))
    decreases |cs|
  {
    if cs == [] {
    } else {
      var tail := Accepted(cs[1..], basePath, resolve, stat);
      AcceptedKeepsOrder(cs[1..], basePath, resolve, stat);
      match Accept(cs[0], basePath, resolve, stat)
      case Some(r) =>
        assert Accepted(cs, basePath, resolve, stat) == [r] + tail;
        assert ([r] + tail)[1..] == tail;
        SubsequenceReflexive([cs[0].path]);
        SubsequenceConcat([r.originalPath], [cs[0].path], OriginalPaths(tail), Paths(cs[1..]));
      case None =>
        assert Accepted(cs, basePath, resolve, stat) == tail;
        SubsequenceExtendFront(OriginalPaths(tail), Paths(cs[1..]), [cs[0].path]);
    }
  }

  /** The verdict on each candidate. */
  function Verdicts(cs: seq<LinkMatch>, basePath: string,
                    resolve: (string, string) -> string, stat: string -> FileStat): (vs: seq<Option<ImageReference>>)
    ensures |vs| == |cs|
    ensures forall k :: 0 <= k < |cs| ==> vs[k] == Accept(cs[k], basePath, resolve, stat)
  {
    seq(|cs|, k requires 0 <= k < |cs| => Accept(cs[k], basePath, resolve, stat))
  }

  /** The indices of the candidates that pass the filters, in ascending order. */
  function Passing(cs: seq<LinkMatch>, basePath: string,
                   resolve: (string, string) -> string, stat: string -> FileStat): seq<nat>
  {
    SomeIndices(Verdicts(cs, basePath, resolve, stat))
  }

  /** The scan keeps exactly the values of the verdicts, in candidate order. */
  lemma {:induction false} AcceptedIsSomes(cs: seq<LinkMatch>, basePath: string,
                                           resolve: (string, string) -> string, stat: string -> FileStat)
    ensures Accepted(cs, basePath, resolve, stat) == Somes(Verdicts(cs, basePath, resolve, stat))
    decreases |cs|
  {
    if cs != [] {
      var vs := Verdicts(cs, basePath, resolve, stat);
      AcceptedIsSomes(cs[1..], basePath, resolve, stat);
      assert vs[1..] == Verdicts(cs[1..], basePath, resolve, stat);
      assert vs[0] == Accept(cs[0], basePath, resolve, stat);
    }
  }

  /** `Passing` lists the index of every passing candidate exactly once, ascending, and
      nothing else. */
  lemma PassingExact(cs: seq<LinkMatch>, basePath: string,
                     resolve: (string, string) -> string, stat: string -> FileStat)
    ensures var ix := Passing(cs, basePath, resolve, stat);
      && (forall i, j :: 0 <= i < j < |ix| ==> ix[i] < ix[j])
      && (forall i :: 0 <= i < |ix| ==> ix[i] < |cs| && Accept(cs[ix[i]], basePath, resolve, stat).Some?)
      && (forall k :: 0 <= k < |cs| && Accept(cs[k], basePath, resolve, stat).Some? ==> k in ix)
  {
    var vs := Verdicts(cs, basePath, resolve, stat);
    var ix := Passing(cs, basePath, resolve, stat);
    SomeIndicesAscending(vs);
    SomeIndicesSound(vs);
    SomeIndicesComplete(vs);
    forall i | 0 <= i < |ix|
      ensures ix[i] < |cs| && Accept(cs[ix[i]], basePath, resolve, stat).Some?
    {
      assert vs[ix[i]].Some?;
    }
    forall k | 0 <= k < |cs| && Accept(cs[k], basePath, resolve, stat).Some?
      ensures k in ix
    {
      assert vs[k].Some?;
    }
  }

  /** Duplicates are kept: the result has one reference per passing candidate (see
      `PassingExact`), in the order of the candidates, and reference `i` is the verdict on
      candidate `Passing(..)[i]`. */
  lemma AcceptedByIndex(cs: seq<LinkMatch>, basePath: string,
                        resolve: (string, string) -> string, stat: string -> FileStat)
    ensures var ix := Passing(cs, basePath, resolve, stat);
      && |Accepted(cs, basePath, resolve, stat)| == |ix|
      && forall i :: 0 <= i < |ix| ==>
           ix[i] < |cs| && Accept(cs[ix[i]], basePath, resolve, stat) == Some(Accepted(cs, basePath, resolve, stat)[i])
  {
    var vs := Verdicts(cs, basePath, resolve, stat);
    var ix := Passing(cs, basePath, resolve, stat);
    AcceptedIsSomes(cs, basePath, resolve, stat);
    SomesByIndex(vs);
    forall i | 0 <= i < |ix|
      ensures ix[i] < |cs| && Accept(cs[ix[i]], basePath, resolve, stat) == Some(Accepted(cs, basePath, resolve, stat)[i])
    {
      assert vs[ix[i]] == Some(Somes(vs)[i]);
    }
  }

  /** The error kinds `validateImageFile` reports. */
  datatype ImageFileError = NotAFile | FileEmpty | FileTooLarge(size: nat)
                          | UnsupportedMimeType(mimeType: string) | ReadFailed

  datatype ImageValidation = ImageValidation(valid: bool, errors: seq<ImageFileError>)

  /** `validateImageFile`: a failing `stat` gives the single read error; otherwise the
      checks of `FileErrors`. The file is valid exactly when no error was reported. */
  function ValidateImageFile(filePath: string, stat: string -> FileStat): (r: ImageValidation)
    ensures r.valid <==> r.errors == []
    ensures stat(filePath).StatFailed? ==> r.errors == [ReadFailed]
    ensures stat(filePath).FileStat? ==>
      r.errors == FileErrors(stat(filePath).isFile, stat(filePath).size, GetMimeType(filePath))
  {
    match stat(filePath)
    case StatFailed => ImageValidation(false, [ReadFailed])
    case FileStat(isFile, size) =>
      var errors := FileErrors(isFile, size, GetMimeType(filePath));
      ImageValidation(errors == [], errors)
  }

  /** The checks on a file that could be stat-ed, in the order they are made: not a
      regular file, empty, over 10 MiB, unsupported type. Each error is reported exactly
      when its condition holds, and none is reported exactly when the file is a
      non-empty regular file of at most 10 MiB with a supported type. */
  function FileErrors(isFile: bool, size: nat, mimeType: string): (errors: seq<ImageFileError>)
    ensures errors == [] <==> isFile && 0 < size <= MaxImageSize && mimeType in SupportedMimeTypes
    ensures NotAFile in errors <==> !isFile
    ensures FileEmpty in errors <==> size == 0
    ensures FileTooLarge(size) in errors <==> size > MaxImageSize
    ensures UnsupportedMimeType(mimeType) in errors <==> mimeType !in SupportedMimeTypes
    ensures IsSubsequence(errors, [NotAFile, FileEmpty, FileTooLarge(size), UnsupportedMimeType(mimeType)])
  {
    Checks4Exact(!isFile, NotAFile, size == 0, FileEmpty, size > MaxImageSize, FileTooLarge(size),
                 mimeType !in SupportedMimeTypes, UnsupportedMimeType(mimeType));
    Checks4(!isFile, NotAFile, size == 0, FileEmpty, size > MaxImageSize, FileTooLarge(size),
            mimeType !in SupportedMimeTypes, UnsupportedMimeType(mimeType))
  }

  /** A file is valid exactly when `stat` succeeds and reports a non-empty regular file
      of at most 10 MiB whose name has a supported extension. */
  lemma ValidateImageFileValid(filePath: string, stat: string -> FileStat)
    ensures ValidateImageFile(filePath, stat).valid <==>
      (stat(filePath).FileStat? && stat(filePath).isFile && 0 < stat(filePath).size <= MaxImageSize
       && MimeForExtension(LowerAsciiString(Extname(filePath))).Some?)
  {
    GetMimeTypeSupported(filePath);
  }

  /** The map entries of `replaceImageReferences` applied one after another in insertion
      order. */
  function ReplaceEach(markdown: string, imageMap: seq<(string, string)>): string
    decreases |imageMap|
  {
    if imageMap == [] then markdown
    else
      var last := imageMap[|imageMap| - 1];
      ReplaceImagePath(ReplaceEach(markdown, imageMap[..|imageMap| - 1]), last.0, last.1)
  }

  /** `replaceImageReferences`: a loop that rewrites `updated` once per map entry, in
      insertion order. */
  method ReplaceImageReferences(markdownContent: string, imageMap: seq<(string, string)>)
    returns (updated: string)
    ensures updated == ReplaceEach(markdownContent, imageMap)
  {
    updated := markdownContent;
    for k := 0 to |imageMap|
      invariant updated == ReplaceEach(markdownContent, imageMap[..k])
    {
      assert imageMap[..k + 1][..k] == imageMap[..k];
      updated := ReplaceImagePath(updated, imageMap[k].0, imageMap[k].1);
    }
    assert imageMap[..|imageMap|] == imageMap;
  }

  /** An empty map leaves the text unchanged. */
  lemma ReplaceEachEmpty(markdown: string)
    ensures ReplaceEach(markdown, []) == markdown
  {
  }

  /** Entries that map a `$`-free path to itself leave the text unchanged. */
  lemma {:induction false} ReplaceEachWithSelf(markdown: string, imageMap: seq<(string, string)>)
    requires forall k :: 0 <= k < |imageMap| ==> imageMap[k].1 == imageMap[k].0 && '$' !in imageMap[k].0
    ensures ReplaceEach(markdown, imageMap) == markdown
    decreases |imageMap|
  {
    if imageMap != [] {
      var last := imageMap[|imageMap| - 1];
      ReplaceEachWithSelf(markdown, imageMap[..|imageMap| - 1]);
      var before := ReplaceEach(markdown, imageMap[..|imageMap| - 1]);
      ReplaceWithSelf(before, last.0, 0);
      assert before[0..] == before;
    }
  }
}
