/**
 * Shaping of a create-post request (`createBlog`): the required-field check,
 * the uploaded-image precedence, the unique slug, and the lenient parsing of
 * `tags`, `author` and `sections`, which may arrive as JSON text in a form
 * field. `JSON.parse` is an oracle supplied by the caller.
 */
module BlogCreate {
  import opened Wrappers
  import opened Text
  import opened Payload
  import opened Slug
  import Schema
  import BlogModel

  const DefaultAuthorName: string := "Admin User"
  const DefaultAuthorEmail: string := "admin@sosapient.com"
  const BlogImagePlaceholder: string := "https://via.placeholder.com/800x400?text=Blog+Image"
  const UploadPrefix: string := "/uploads/blog-images/"

  /** The author stored when the `author` form field is not valid JSON. */
  function DefaultAuthor(): Value {
    Obj(map[
      "name" := Str(DefaultAuthorName),
      "email" := Str(DefaultAuthorEmail),
      "image" := Str(BlogModel.AuthorImagePlaceholder)])
  }

  /** The request body fields the handler reads; `None` is a field left out. */
  datatype CreateRequest = CreateRequest(
    title: Option<Value>,
    excerpt: Option<Value>,
    content: Option<Value>,
    category: Option<Value>,
    tags: Option<Value>,
    author: Option<Value>,
    status: Option<Value>,
    featured: Option<Value>,
    sections: Option<Value>,
    image: Option<Value>)

  /** Why a request is turned away. */
  datatype CreateError =
    | MissingRequired  // 400 "Title, excerpt, and content are required"
    | TitleNotText     // `title.toLowerCase` throws on a non-string title: 400 "Error creating blog post"

  /** The document handed to the schema. */
  datatype BlogDraft = BlogDraft(
    title: string,
    slug: string,
    excerpt: Value,
    content: Value,
    sections: Value,
    image: Value,
    category: Option<Value>,
    tags: Value,
    author: Option<Value>,
    status: Value,
    featured: bool)

  /** `title`, `excerpt` and `content` are all present and truthy. */
  predicate RequiredPresent(req: CreateRequest) {
    Present(req.title) && Present(req.excerpt) && Present(req.content)
  }

  /** An array of strings. */
  function StrArr(ts: seq<string>): (v: Value)
    ensures v.Arr? && |v.items| == |ts|
    ensures forall i :: 0 <= i < |ts| ==> v.items[i] == Str(ts[i])
  {
    Arr(seq(|ts|, i requires 0 <= i < |ts| => Str(ts[i])))
  }

  /** `tags.split(',').map(tag => tag.trim())`. */
  function SplitTags(s: string): (r: seq<string>)
    ensures |r| == Count(s, ',') + 1
    ensures forall i :: 0 <= i < |r| ==> IsTrimmed(r[i]) && ',' !in r[i]
  {
    var pieces := Split(s, ',');
    var r := BlogModel.TrimAll(pieces);
    assert forall i :: 0 <= i < |r| ==> ',' !in r[i] by {
      forall i | 0 <= i < |r| ensures ',' !in r[i] {
        TrimKeepsAbsent(pieces[i], ',');
      }
    }
    r
  }

  /** Splitting joined tags gives back each tag, trimmed: no piece is dropped, empty ones included. */
  lemma SplitTagsOfJoin(parts: seq<string>)
    requires |parts| > 0
    requires forall i :: 0 <= i < |parts| ==> ',' !in parts[i]
    ensures |SplitTags(Join(parts, ','))| == |parts|
    ensures forall i :: 0 <= i < |parts| ==> SplitTags(Join(parts, ','))[i] == Trim(parts[i])
  {
    SplitJoin(parts, ',');
  }

  /** Trimmed, comma-free tags survive a join and a split unchanged. */
  lemma SplitTagsRoundTrip(tags: seq<string>)
    requires |tags| > 0
    requires forall i :: 0 <= i < |tags| ==> ',' !in tags[i] && IsTrimmed(tags[i])
    ensures SplitTags(Join(tags, ',')) == tags
  {
    SplitTagsOfJoin(tags);
    forall i | 0 <= i < |tags| ensures Trim(tags[i]) == tags[i] {
      TrimOfTrimmed(tags[i]);
    }
  }

  /** The comma split keeps an empty piece: `"a, b, ,c"` gives four tags, the third empty. */
  lemma SplitTagsExample(s: string)
    requires s == "a, b, ,c"
    ensures var r := SplitTags(s);
      |r| == 4 && r[0] == "a" && r[1] == "b" && r[2] == "" && r[3] == "c"
  {
    ExamplePieces();
    TagsOfFourPieces(s, "a", " b", " ", "c");
  }

  /**
   * Four comma pieces, the outer two single non-white characters and the
   * inner two a space followed by at most one non-white character, trim to
   * the outer two as they are and the inner two without their space.
   */
  lemma TagsOfFourPieces(s: string, a: string, b: string, c: string, d: string)
    requires var p := Split(s, ','); |p| == 4 && p[0] == a && p[1] == b && p[2] == c && p[3] == d
    requires |a| == 1 && !IsWhitespace(a[0]) && |d| == 1 && !IsWhitespace(d[0])
    requires 1 <= |b| <= 2 && b[0] == ' ' && (|b| == 2 ==> !IsWhitespace(b[1]))
    requires 1 <= |c| <= 2 && c[0] == ' ' && (|c| == 2 ==> !IsWhitespace(c[1]))
    ensures var r := SplitTags(s);
      |r| == 4 && r[0] == a && r[1] == b[1..] && r[2] == c[1..] && r[3] == d
  {
    var p := Split(s, ',');
    assert SplitTags(s) == BlogModel.TrimAll(p);
    TrimOfSingle(a);
    TrimOfSingle(d);
    TrimOfSpaced(b);
    TrimOfSpaced(c);
  }

  /** A one-character string that is not white space is its own trim. */
  lemma TrimOfSingle(s: string)
    requires |s| == 1 && !IsWhitespace(s[0])
    ensures Trim(s) == s
  {
    TrimOfTrimmed(s);
  }

  /** A leading space followed by at most one non-white character trims to that character. */
  lemma TrimOfSpaced(s: string)
    requires 1 <= |s| <= 2 && s[0] == ' ' && (|s| == 2 ==> !IsWhitespace(s[1]))
    ensures Trim(s) == s[1..]
  {
    assert s == [' '] + s[1..];
    TrimLeadingSpace(s[1..]);
    TrimOfTrimmed(s[1..]);
  }

  /** A leading space is trimmed away. */
  lemma TrimLeadingSpace(s: string)
    ensures Trim([' '] + s) == Trim(s)
  {
    assert ([' '] + s)[1..] == s;
  }

  /** The pieces of the example's suffix after its first comma. */
  lemma ExampleTailPieces()
    ensures Split(" b, ,c", ',') == [" b", " ", "c"]
  {
    assert Split("", ',') == [""];
    SplitOther('c', "", ',');
    assert ['c'] + "" == "c" && Split("c", ',') == ["c"];
    SplitSep(",", "c");
    assert "," + "c" == ",c" && Split(",c", ',') == ["", "c"];
    SplitOther(' ', ",c", ',');
    assert [' '] + "" == " ";
    assert [' '] + ",c" == " ,c" && Split(" ,c", ',') == [" ", "c"];
    SplitSep(",", " ,c");
    assert "," + " ,c" == ", ,c" && Split(", ,c", ',') == ["", " ", "c"];
    SplitOther('b', ", ,c", ',');
    assert ['b'] + "" == "b";
    assert ['b'] + ", ,c" == "b, ,c" && Split("b, ,c", ',') == ["b", " ", "c"];
    SplitOther(' ', "b, ,c", ',');
    assert [' '] + "b" == " b";
    assert [' '] + "b, ,c" == " b, ,c" && Split(" b, ,c", ',') == [" b", " ", "c"];
  }

  /** The pieces of the example before trimming. */
  lemma ExamplePieces()
    ensures Split("a, b, ,c", ',') == ["a", " b", " ", "c"]
  {
    ExampleTailPieces();
    SplitSep(",", " b, ,c");
    assert "," + " b, ,c" == ", b, ,c" && Split(", b, ,c", ',') == ["", " b", " ", "c"];
    SplitOther('a', ", b, ,c", ',');
    assert ['a'] + "" == "a";
    assert ['a'] + ", b, ,c" == "a, b, ,c";
  }

  lemma SplitSep(sep: string, s: string)
    requires |sep| == 1
    ensures Split(sep + s, sep[0]) == [""] + Split(s, sep[0])
  {
    assert (sep + s)[1..] == s;
  }

  lemma SplitOther(c: char, s: string, sep: char)
    requires c != sep
    ensures Split([c] + s, sep) == [[c] + Split(s, sep)[0]] + Split(s, sep)[1..]
  {
    assert ([c] + s)[1..] == s;
  }

  /**
   * The `tags` field: absent or falsy gives `[]`; a string is JSON-parsed,
   * falling back to its comma-separated pieces; an array passes through; any
   * other truthy value gives `[]`.
   */
  function ParseTags(tags: Option<Value>, parse: JsonParse): (r: Value)
    ensures !Present(tags) ==> r == Arr([])
    ensures Present(tags) && tags.value.Arr? ==> r == tags.value
    ensures Present(tags) && tags.value.Str? && parse(tags.value.s).Some? ==> r == parse(tags.value.s).value
    ensures Present(tags) && tags.value.Str? && parse(tags.value.s).None? ==> r == StrArr(SplitTags(tags.value.s))
    ensures Present(tags) && !tags.value.Str? && !tags.value.Arr? ==> r == Arr([])
  {
    if !Present(tags) then Arr([])
    else match tags.value
      case Str(s) => (match parse(s) case Some(v) => v case None => StrArr(SplitTags(s)))
      case Arr(_) => tags.value
      case _ => Arr([])
  }

  /** A tag string that is not JSON gives one trimmed tag per comma-separated piece. */
  lemma ParseTagsFallback(s: string, parse: JsonParse)
    requires s != "" && parse(s).None?
    ensures var r := ParseTags(Some(Str(s)), parse);
      && r.Arr? && |r.items| == Count(s, ',') + 1
      && forall i :: 0 <= i < |r.items| ==> r.items[i].Str? && IsTrimmed(r.items[i].s) && ',' !in r.items[i].s
  {
  }

  /**
   * The `author` field: a string is JSON-parsed, falling back to the fixed
   * default author; anything else (including an absent field) is kept as is.
   */
  function ParseAuthor(author: Option<Value>, parse: JsonParse): (r: Option<Value>)
    ensures author.Some? && author.value.Str? && parse(author.value.s).None? ==> r == Some(DefaultAuthor())
    ensures author.Some? && author.value.Str? && parse(author.value.s).Some? ==> r == parse(author.value.s)
    ensures !(author.Some? && author.value.Str?) ==> r == author
  {
    match author
    case Some(Str(s)) => (match parse(s) case Some(v) => Some(v) case None => Some(DefaultAuthor()))
    case _ => author
  }

  /**
   * The fallback author fills what the schema requires of an author: a name
   * and an e-mail that pass `required`, and the schema's own default image.
   */
  lemma ParseAuthorFallbackPassesSchema(s: string, parse: JsonParse)
    ensures parse(s).None? ==>
      var r := ParseAuthor(Some(Str(s)), parse);
      && r.Some? && r.value.Obj?
      && "name" in r.value.fields && r.value.fields["name"].Str? && Schema.Given(Some(r.value.fields["name"].s))
      && "email" in r.value.fields && r.value.fields["email"].Str? && Schema.Given(Some(r.value.fields["email"].s))
      && "image" in r.value.fields && r.value.fields["image"] == Str(BlogModel.AuthorImagePlaceholder)
  {
  }

  /**
   * The `sections` field, defaulting to `[]` when absent: a string is
   * JSON-parsed, falling back to `[]`; anything else is kept as is.
   */
  function ParseSections(sections: Option<Value>, parse: JsonParse): (r: Value)
    ensures sections.None? ==> r == Arr([])
    ensures sections.Some? && sections.value.Str? && parse(sections.value.s).None? ==> r == Arr([])
    ensures sections.Some? && sections.value.Str? && parse(sections.value.s).Some? ==> r == parse(sections.value.s).value
    ensures sections.Some? && !sections.value.Str? ==> r == sections.value
  {
    match sections.GetOr(Arr([]))
    case Str(s) => parse(s).GetOr(Arr([]))
    case v => v
  }

  /**
   * The sections handed to the schema are never the raw form text: a missing
   * field or unparsable text gives the empty array, and a string comes out
   * only as the parse of a JSON string literal.
   */
  lemma ParseSectionsNeverRawText(sections: Option<Value>, parse: JsonParse)
    ensures sections.None? ==> ParseSections(sections, parse) == Arr([])
    ensures sections.Some? && sections.value.Str? && parse(sections.value.s).None? ==>
      ParseSections(sections, parse).Arr?
    ensures ParseSections(sections, parse).Str? ==>
      sections.Some? && sections.value.Str? && parse(sections.value.s) == Some(ParseSections(sections, parse))
  {
  }

  /** The stored `featured` flag: the boolean `true` or the exact string `"true"`, `false` when absent. */
  function StoredFeatured(featured: Option<Value>): (r: bool)
    ensures r ==> Present(featured)
    ensures featured.None? ==> !r
  {
    featured == Some(Bool(true)) || featured == Some(Str("true"))
  }

  /** Exactly two values set the flag. */
  lemma StoredFeaturedExactly(featured: Option<Value>)
    ensures StoredFeatured(featured) <==> featured in {Some(Bool(true)), Some(Str("true"))}
  {
  }

  /** The flag survives both ways a client sends it: as a JSON boolean and as the form text `"true"`/`"false"`. */
  lemma FeaturedRoundTrip(b: bool)
    ensures StoredFeatured(Some(Bool(b))) == b
    ensures StoredFeatured(Some(Str(if b then "true" else "false"))) == b
  {
  }

  /** Truthiness is not enough: the string `"yes"` and the number 1 leave the flag off. */
  lemma FeaturedNotTruthiness()
    ensures Present(Some(Str("yes"))) && !StoredFeatured(Some(Str("yes")))
    ensures Present(Some(Num(1))) && !StoredFeatured(Some(Num(1)))
  {
  }

  /**
   * The stored image: the uploaded file's path wins, then a truthy `image`
   * field, then the fixed placeholder. The result is always truthy.
   */
  function ResolveImage(file: Option<string>, image: Option<Value>): (r: Value)
    ensures Truthy(r)
    ensures file.Some? ==> r == Str(UploadPrefix + file.value)
    ensures file.None? && Present(image) ==> r == image.value
    ensures file.None? && !Present(image) ==> r == Str(BlogImagePlaceholder)
  {
    var imageUrl := if file.Some? then Some(Str(UploadPrefix + file.value)) else image;
    if Present(imageUrl) then imageUrl.value else Str(BlogImagePlaceholder)
  }

  /**
   * The create path never breaks the schema's `image` validator with a
   * string: an uploaded file gives a non-empty path, and any string it
   * stores passes `required`.
   */
  lemma ResolveImagePassesSchema(file: Option<string>, image: Option<Value>)
    ensures file.Some? ==> ResolveImage(file, image).Str?
    ensures ResolveImage(file, image).Str? ==> Schema.Given(Some(ResolveImage(file, image).s))
  {
  }

  /** The stored status: the given value, `"published"` when the field is absent. */
  function StoredStatus(status: Option<Value>): (r: Value)
    ensures status.Some? ==> r == status.value
    ensures status.None? ==> r == Str("published")
  {
    status.GetOr(Str("published"))
  }

  /** A post created without a status is published, although the schema's own default is `draft`. */
  lemma CreateDefaultIsPublished()
    ensures StoredStatus(None) == Str(BlogModel.StatusName(BlogModel.Published))
    ensures BlogModel.StatusName(BlogModel.Published) != BlogModel.StatusName(BlogModel.Draft)
  {
  }

  /** The document built from an accepted request and its free slug. */
  function Shape(req: CreateRequest, file: Option<string>, parse: JsonParse, slug: string): BlogDraft
    requires RequiredPresent(req) && req.title.value.Str?
  {
    BlogDraft(
      title := req.title.value.s,
      slug := slug,
      excerpt := req.excerpt.value,
      content := req.content.value,
      sections := ParseSections(req.sections, parse),
      image := ResolveImage(file, req.image),
      category := req.category,
      tags := ParseTags(req.tags, parse),
      author := ParseAuthor(req.author, parse),
      status := StoredStatus(req.status),
      featured := StoredFeatured(req.featured))
  }

  /**
   * The create handler up to `save()`: returns the document to be stored, or
   * the reason the request is refused, and the number of slug probes made
   * against the stored slugs `existing` (none when the request is refused).
   */
  method CreateBlog(req: CreateRequest, file: Option<string>, existing: set<string>, parse: JsonParse)
    returns (r: Result<BlogDraft, CreateError>, probes: nat)
    ensures !RequiredPresent(req) ==> r == Failure(MissingRequired)
    ensures RequiredPresent(req) && !req.title.value.Str? ==> r == Failure(TitleNotText)
    ensures r.Success? <==> RequiredPresent(req) && req.title.value.Str?
    ensures r.Failure? ==> probes == 0
    ensures r.Success? ==> 1 <= probes <= |existing| + 1
    ensures r.Success? ==> FirstFree(BaseSlug(req.title.value.s), existing, r.value.slug, probes)
    ensures r.Success? ==> r.value == Shape(req, file, parse, r.value.slug)
  {
    if !RequiredPresent(req) {
      return Failure(MissingRequired), 0;
    }
    if !req.title.value.Str? {
      return Failure(TitleNotText), 0;
    }
    var slug;
    slug, probes := UniqueSlug(BaseSlug(req.title.value.s), existing);
    r := Success(Shape(req, file, parse, slug));
  }
}
