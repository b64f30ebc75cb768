/** Front-matter normalisation and validation (src/core/markdown/parser.ts). The YAML
    front-matter split done by gray-matter enters as the function `matter`; its values
    are the JavaScript values below. */
module Parser {

  import opened Wrappers
  import opened Text

  /** A front-matter value as JavaScript sees it. `Other` stands for every value that is
      neither a string, an array, `null` nor `undefined` (numbers, booleans, dates,
      objects), given by its truthiness and its `String(...)` text. */
  datatype Value =
    | Undefined
    | Null
    | Str(s: string)
    | List(items: seq<Value>)
    | Other(truthy: bool, text: string)

  /** JavaScript truthiness. Every array is truthy, even an empty one. */
  predicate Truthy(v: Value) {
    match v
    case Undefined => false
    case Null => false
    case Str(s) => s != ""
    case List(_) => true
    case Other(t, _) => t
  }

  /** `String(v)`. An array is its elements joined with `,`, where `null` and `undefined`
      elements become empty text. */
  function ToJsString(v: Value): string
    decreases v, 1
  {
    match v
    case Undefined => "undefined"
    case Null => "null"
    case Str(s) => s
    case List(items) => Join(ElementStrings(v, items), ",")
    case Other(_, text) => text
  }

  function ElementStrings(v: Value, items: seq<Value>): (r: seq<string>)
    requires forall k :: 0 <= k < |items| ==> items[k] < v
    ensures |r| == |items|
    decreases v, 0, |items|
  {
    if items == [] then []
    else
      var head := if items[0].Undefined? || items[0].Null? then "" else ToJsString(items[0]);
      [head] + ElementStrings(v, items[1..])
  }

  /** What gray-matter returns: the parsed metadata and the text after it. */
  datatype Matter = Matter(data: map<string, Value>, content: string)

  /** `PostFrontMatter`, with only the keys the parser keeps. */
  datatype PostFrontMatter = PostFrontMatter(
    title: string,
    description: Option<string>,
    image: Option<string>,
    tags: Option<seq<string>>)

  /** `ParsedMarkdownFile`. */
  datatype ParsedMarkdownFile = ParsedMarkdownFile(
    frontMatter: PostFrontMatter,
    content: string,
    filePath: string,
    fileName: string)

  /** Property access on the metadata object: a missing key reads as `undefined`. */
  function Get(data: map<string, Value>, key: string): Value {
    if key in data then data[key] else Undefined
  }

  /** `String(v)` of each array element, in order. */
  function MapToJsString(items: seq<Value>): (r: seq<string>)
    ensures |r| == |items| && forall k :: 0 <= k < |items| ==> r[k] == ToJsString(items[k])
    decreases |items|
  {
    if items == [] then [] else [ToJsString(items[0])] + MapToJsString(items[1..])
  }

  /** `parseMarkdownFile`: a falsy title becomes `Untitled`; description and image are
      kept only when truthy and tags only when they form an array, each element
      stringified in order; the body is trimmed; path and name pass through. */
  function ParseMarkdownFile(content: string, filePath: string, fileName: string,
                             matter: string -> Matter): (r: ParsedMarkdownFile)
    ensures var data := matter(content).data;
      && (Truthy(Get(data, "title")) ==> r.frontMatter.title == ToJsString(Get(data, "title")))
      && (!Truthy(Get(data, "title")) ==> r.frontMatter.title == "Untitled")
      && (r.frontMatter.description.Some? <==> Truthy(Get(data, "description")))
      && (r.frontMatter.description.Some? ==> r.frontMatter.description.value == ToJsString(Get(data, "description")))
      && (r.frontMatter.image.Some? <==> Truthy(Get(data, "image")))
      && (r.frontMatter.image.Some? ==> r.frontMatter.image.value == ToJsString(Get(data, "image")))
      && (r.frontMatter.tags.Some? <==> Get(data, "tags").List?)
      && (r.frontMatter.tags.Some? ==>
            |r.frontMatter.tags.value| == |Get(data, "tags").items|
            && forall k :: 0 <= k < |r.frontMatter.tags.value| ==>
                 r.frontMatter.tags.value[k] == ToJsString(Get(data, "tags").items[k]))
    ensures r.content == Trim(matter(content).content)
    ensures r.filePath == filePath && r.fileName == fileName
  {
    var m := matter(content);
    var title := Get(m.data, "title");
    var description := Get(m.data, "description");
    var image := Get(m.data, "image");
    var tags := Get(m.data, "tags");
    var frontMatter := PostFrontMatter(
      if Truthy(title) then ToJsString(title) else "Untitled",
      if Truthy(description) then Some(ToJsString(description)) else None,
      if Truthy(image) then Some(ToJsString(image)) else None,
      if tags.List? then Some(MapToJsString(tags.items)) else None);
    ParsedMarkdownFile(frontMatter, Trim(m.content), filePath, fileName)
  }

  /** `parseMarkdownContent`: parsing with an empty path and the name `unknown.md`. */
  function ParseMarkdownContent(content: string, matter: string -> Matter): (r: ParsedMarkdownFile)
    ensures r.filePath == "" && r.fileName == "unknown.md"
    ensures r.frontMatter == ParseMarkdownFile(content, "", "unknown.md", matter).frontMatter
    ensures r.content == Trim(matter(content).content)
  {
    ParseMarkdownFile(content, "", "unknown.md", matter)
  }

  /** A string title, or none at all, never parses to an empty title. */
  lemma ParsedStringTitleNonEmpty(content: string, filePath: string, fileName: string, matter: string -> Matter)
    requires Get(matter(content).data, "title").Str? || Get(matter(content).data, "title").Undefined?
    ensures ParseMarkdownFile(content, filePath, fileName, matter).frontMatter.title != ""
  {
  }

  /** A tag list of strings parses to the same strings. */
  lemma ParsedStringTags(content: string, filePath: string, fileName: string, matter: string -> Matter,
                         tags: seq<string>)
    requires Get(matter(content).data, "tags") == List(seq(|tags|, k requires 0 <= k < |tags| => Str(tags[k])))
    ensures ParseMarkdownFile(content, filePath, fileName, matter).frontMatter.tags == Some(tags)
  {
    var items := Get(matter(content).data, "tags").items;
    assert forall k :: 0 <= k < |tags| ==> items[k] == Str(tags[k]);
    var parsed := ParseMarkdownFile(content, filePath, fileName, matter).frontMatter.tags.value;
    assert forall k :: 0 <= k < |tags| ==> parsed[k] == tags[k];
    assert parsed == tags;
  }

  const TitleRequired: string := "title is required and cannot be empty"
  const TitleTooLong: string := "title must be less than 200 characters"
  const DescriptionTooLong: string := "description must be less than 500 characters"
  const TooManyTags: string := "tags must have 10 or fewer items"

  const MaxTitleLength: nat := 200
  const MaxDescriptionLength: nat := 500
  const MaxTags: nat := 10

  datatype FrontMatterValidation = FrontMatterValidation(valid: bool, errors: seq<string>)

  /** `validateFrontMatter`: each error is reported exactly when its check fires, in the
      order empty title, long title, long description, too many tags; the front matter is
      valid exactly when there is no error. Lengths count characters (see `Text`), and the
      limits themselves pass. */
  function ValidateFrontMatter(frontMatter: PostFrontMatter): (r: FrontMatterValidation)
    ensures r.valid <==> r.errors == []
    ensures TitleRequired in r.errors <==> AllWhitespace(frontMatter.title)
    ensures TitleTooLong in r.errors <==> |frontMatter.title| > MaxTitleLength
    ensures DescriptionTooLong in r.errors <==>
      frontMatter.description.Some? && |frontMatter.description.value| > MaxDescriptionLength
    ensures TooManyTags in r.errors <==> frontMatter.tags.Some? && |frontMatter.tags.value| > MaxTags
    ensures IsSubsequence(r.errors, [TitleRequired, TitleTooLong, DescriptionTooLong, TooManyTags])
  {
    var title := frontMatter.title;
    var titleBlank := title == "" || Trim(title) == "";
    var titleLong := title != "" && |title| > MaxTitleLength;
    var descriptionLong := frontMatter.description.Some? && frontMatter.description.value != ""
                           && |frontMatter.description.value| > MaxDescriptionLength;
    var tagsMany := frontMatter.tags.Some? && |frontMatter.tags.value| > MaxTags;
    var errors := Checks4(titleBlank, TitleRequired, titleLong, TitleTooLong,
                          descriptionLong, DescriptionTooLong, tagsMany, TooManyTags);
    TrimEmptyIff(title);
    MessagesDistinct();
    Checks4Exact(titleBlank, TitleRequired, titleLong, TitleTooLong,
                 descriptionLong, DescriptionTooLong, tagsMany, TooManyTags);
    FrontMatterValidation(errors == [], errors)
  }

  /** The four validation messages differ from each other. */
  lemma MessagesDistinct()
    ensures TitleRequired != TitleTooLong && TitleRequired != DescriptionTooLong && TitleRequired != TooManyTags
    ensures TitleTooLong != DescriptionTooLong && TitleTooLong != TooManyTags && DescriptionTooLong != TooManyTags
  {
    assert |TitleRequired| == 37 && |TitleTooLong| == 38;
    assert |DescriptionTooLong| == 44 && |TooManyTags| == 32;
  }

  /** A file whose front matter has a non-blank string title of at most 200 characters,
      no description or a short one, and no tag list or at most 10 tags parses to valid
      front matter. */
  lemma ParsedWellFormedIsValid(content: string, filePath: string, fileName: string, matter: string -> Matter)
    requires var data := matter(content).data;
      && Get(data, "title").Str? && !AllWhitespace(Get(data, "title").s) && |Get(data, "title").s| <= MaxTitleLength
      && (Get(data, "description").Undefined?
          || (Get(data, "description").Str? && |Get(data, "description").s| <= MaxDescriptionLength))
      && (!Get(data, "tags").List? || |Get(data, "tags").items| <= MaxTags)
    ensures ValidateFrontMatter(ParseMarkdownFile(content, filePath, fileName, matter).frontMatter).valid
  {
    var fm := ParseMarkdownFile(content, filePath, fileName, matter).frontMatter;
    var r := ValidateFrontMatter(fm);
    if r.errors != [] {
      var e := r.errors[0];
      assert e in r.errors;
      SubsequenceMembers(r.errors, [TitleRequired, TitleTooLong, DescriptionTooLong, TooManyTags], e);
    }
  }
}
