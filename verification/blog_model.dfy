/**
 * The blog post schema: field setters (trim, lower-case), defaults (status,
 * counters, author image, read time), validators (required, maximum length,
 * enumerations) and the pre-save hook that stamps `publishedAt`.
 */
module BlogModel {
  import opened Wrappers
  import opened Text
  import opened Schema
  import opened Numeric

  const AuthorImagePlaceholder: string :=
    "https://images.pexels.com/photos/774909/pexels-photo-774909.jpeg?auto=compress&cs=tinysrgb&w=150&h=150&dpr=1"
  const TitleMaxLength: nat := 200
  const ExcerptMaxLength: nat := 300
  const WordsPerMinute: nat := 200

  datatype Status = Draft | Published | Archived

  function StatusName(s: Status): string {
    match s
    case Draft => "draft"
    case Published => "published"
    case Archived => "archived"
  }

  /** The `status` enumeration: only the three names are accepted (see `ParseStatusName` for the converse). */
  function ParseStatus(s: string): (r: Option<Status>)
    ensures r.Some? ==> StatusName(r.value) == s
  {
    if s == "draft" then Some(Draft)
    else if s == "published" then Some(Published)
    else if s == "archived" then Some(Archived)
    else None
  }

  /** Every status name is accepted, as its own status. */
  lemma ParseStatusName(st: Status)
    ensures ParseStatus(StatusName(st)) == Some(st)
  {
  }

  datatype Category =
    | Technology | Design | MobileDevelopment | WebDevelopment
    | AiMl | Cybersecurity | Business | Tutorial

  function CategoryName(c: Category): string {
    match c
    case Technology => "Technology"
    case Design => "Design"
    case MobileDevelopment => "Mobile Development"
    case WebDevelopment => "Web Development"
    case AiMl => "AI/ML"
    case Cybersecurity => "Cybersecurity"
    case Business => "Business"
    case Tutorial => "Tutorial"
  }

  /** The `category` enumeration: only the eight names are accepted (see `ParseCategoryName` for the converse). */
  function ParseCategory(s: string): (r: Option<Category>)
    ensures r.Some? ==> CategoryName(r.value) == s
  {
    if s == "Technology" then Some(Technology)
    else if s == "Design" then Some(Design)
    else if s == "Mobile Development" then Some(MobileDevelopment)
    else if s == "Web Development" then Some(WebDevelopment)
    else if s == "AI/ML" then Some(AiMl)
    else if s == "Cybersecurity" then Some(Cybersecurity)
    else if s == "Business" then Some(Business)
    else if s == "Tutorial" then Some(Tutorial)
    else None
  }

  /** Every category name is accepted, as its own category. */
  lemma ParseCategoryName(c: Category)
    ensures ParseCategory(CategoryName(c)) == Some(c)
  {
  }

  datatype Author = Author(name: string, email: string, image: string)

  datatype Section = Section(heading: Option<string>, content: Option<string>, image: Option<string>)

  /** A stored blog post. `publishedAt` is a timestamp supplied by the caller's clock. */
  datatype BlogRecord = BlogRecord(
    title: string,
    slug: string,
    excerpt: string,
    content: Option<string>,
    sections: seq<Section>,
    image: string,
    author: Author,
    category: Category,
    tags: seq<string>,
    readTime: string,
    status: Status,
    views: int,
    likes: int,
    featured: bool,
    publishedAt: Option<int>)

  /** The values a document is constructed from; `None` is a path left undefined. */
  datatype BlogInput = BlogInput(
    title: Option<string>,
    slug: Option<string>,
    excerpt: Option<string>,
    content: Option<string>,
    sections: seq<Section>,
    image: Option<string>,
    authorName: Option<string>,
    authorEmail: Option<string>,
    authorImage: Option<string>,
    category: Option<string>,
    tags: seq<string>,
    readTime: Option<string>,
    status: Option<string>,
    views: Option<int>,
    likes: Option<int>,
    featured: Option<bool>,
    publishedAt: Option<int>)

  /** The paths a validation error can name. */
  datatype BlogField =
    | TitleField | SlugField | ExcerptField | ImageField | AuthorNameField
    | AuthorEmailField | CategoryField | ReadTimeField | StatusField

  /** Number of words as the read-time default counts them: pieces of `content.split(' ')`. */
  function WordCount(content: string): (w: nat)
    ensures w == Count(content, ' ') + 1
  {
    |Split(content, ' ')|
  }

  /** `Math.ceil(wordCount / 200)`: the least number of minutes covering the words at 200 per minute. */
  function ReadTimeMinutes(content: string): nat {
    var m := CeilDiv(WordCount(content), WordsPerMinute);
    assert m >= 0 by {
      CeilDivBounds(WordCount(content), WordsPerMinute);
    }
    m
  }

  /** The estimate is the least number of minutes, at least one, that covers the words at 200 per minute. */
  lemma ReadTimeMinutesBounds(content: string)
    ensures var m := ReadTimeMinutes(content);
      m >= 1 && (m - 1) * WordsPerMinute < WordCount(content) <= m * WordsPerMinute
  {
    CeilDivBounds(WordCount(content), WordsPerMinute);
  }

  /** The `readTime` default: "<minutes> min read". */
  function ReadTimeText(content: string): string {
    NatToString(ReadTimeMinutes(content)) + " min read"
  }

  /** Applies the `trim` setter to every tag. */
  function TrimAll(tags: seq<string>): (r: seq<string>)
    ensures |r| == |tags|
    ensures forall i :: 0 <= i < |r| ==> IsTrimmed(r[i]) && r[i] == Trim(tags[i])
  {
    seq(|tags|, i requires 0 <= i < |tags| => (TrimCharacterisation(tags[i]); Trim(tags[i])))
  }

  /** The rules a stored blog post satisfies. */
  predicate Valid(r: BlogRecord) {
    && IsTrimmed(r.title) && r.title != "" && WithinMaxLength(r.title, TitleMaxLength)
    && r.slug != "" && Lower(r.slug) == r.slug
    && r.excerpt != "" && WithinMaxLength(r.excerpt, ExcerptMaxLength)
    && r.image != ""
    && r.author.name != "" && r.author.email != ""
    && (forall i :: 0 <= i < |r.tags| ==> IsTrimmed(r.tags[i]))
  }

  /** The values the setters leave: title and tags trimmed, slug lower-case. */
  predicate Normalised(d: BlogInput) {
    && (d.title.Some? ==> IsTrimmed(d.title.value))
    && (d.slug.Some? ==> Lower(d.slug.value) == d.slug.value)
    && (forall i :: 0 <= i < |d.tags| ==> IsTrimmed(d.tags[i]))
  }

  /**
   * Assignment to the document runs the setters: `trim` on the title and on
   * each tag, `lowercase` on the slug. Every other path is stored as given.
   */
  function Assign(input: BlogInput): (d: BlogInput)
    ensures Normalised(d)
    ensures d.title.Some? <==> input.title.Some?
    ensures d.title.Some? ==> d.title.value == Trim(input.title.value)
    ensures d.slug.Some? <==> input.slug.Some?
    ensures d.slug.Some? ==> d.slug.value == Lower(input.slug.value)
    ensures |d.tags| == |input.tags| && forall i :: 0 <= i < |d.tags| ==> d.tags[i] == Trim(input.tags[i])
    ensures d == input.(title := d.title, slug := d.slug, tags := d.tags)
  {
    var title := if input.title.Some? then Some(Trim(input.title.value)) else None;
    assert title.Some? ==> IsTrimmed(title.value) by {
      if input.title.Some? {
        TrimCharacterisation(input.title.value);
      }
    }
    var slug := if input.slug.Some? then Some(Lower(input.slug.value)) else None;
    assert slug.Some? ==> Lower(slug.value) == slug.value by {
      if input.slug.Some? {
        LowerIdempotent(input.slug.value);
      }
    }
    input.(title := title, slug := slug, tags := TrimAll(input.tags))
  }

  /** The setters are idempotent: assigning an assigned document changes nothing. */
  lemma AssignIdempotent(input: BlogInput)
    ensures Assign(Assign(input)) == Assign(input)
  {
    NormalisedIsFixed(Assign(input));
  }

  /** A document whose values are already normalised is left alone by the setters. */
  lemma NormalisedIsFixed(d: BlogInput)
    requires Normalised(d)
    ensures Assign(d) == d
  {
    if d.title.Some? {
      TrimOfTrimmed(d.title.value);
    }
    forall i | 0 <= i < |d.tags| ensures Trim(d.tags[i]) == d.tags[i] {
      TrimOfTrimmed(d.tags[i]);
    }
    assert Assign(d).tags == d.tags;
  }

  const AllBlogFields: set<BlogField> := {
    TitleField, SlugField, ExcerptField, ImageField, AuthorNameField,
    AuthorEmailField, CategoryField, ReadTimeField, StatusField }

  lemma FieldListed(f: BlogField)
    ensures f in AllBlogFields
  {
    match f
    case TitleField =>
    case SlugField =>
    case ExcerptField =>
    case ImageField =>
    case AuthorNameField =>
    case AuthorEmailField =>
    case CategoryField =>
    case ReadTimeField =>
    case StatusField =>
  }

  /** Whether the (assigned) document `d` breaks the validator of path `f`. */
  predicate Broken(d: BlogInput, f: BlogField) {
    match f
    case TitleField => !Given(d.title) || !WithinMaxLength(d.title.value, TitleMaxLength)
    case SlugField => !Given(d.slug)
    case ExcerptField => !Given(d.excerpt) || !WithinMaxLength(d.excerpt.value, ExcerptMaxLength)
    case ImageField => !Given(d.image)
    case AuthorNameField => !Given(d.authorName)
    case AuthorEmailField => !Given(d.authorEmail)
    case CategoryField => !Given(d.category) || ParseCategory(d.category.value).None?
    // the read-time default reads `this.content`, which throws when content is unset
    case ReadTimeField => d.readTime.None? && d.content.None?
    case StatusField => d.status.Some? && ParseStatus(d.status.value).None?
  }

  /** `d` breaks no validator. */
  predicate Acceptable(d: BlogInput) {
    && !Broken(d, TitleField) && !Broken(d, SlugField) && !Broken(d, ExcerptField)
    && !Broken(d, ImageField) && !Broken(d, AuthorNameField) && !Broken(d, AuthorEmailField)
    && !Broken(d, CategoryField) && !Broken(d, ReadTimeField) && !Broken(d, StatusField)
  }

  lemma AcceptableBreaksNothing(d: BlogInput, f: BlogField)
    requires Acceptable(d)
    ensures !Broken(d, f)
  {
    match f
    case TitleField =>
    case SlugField =>
    case ExcerptField =>
    case ImageField =>
    case AuthorNameField =>
    case AuthorEmailField =>
    case CategoryField =>
    case ReadTimeField =>
    case StatusField =>
  }

  /** The paths whose validator `d` breaks. */
  function Violations(d: BlogInput): (v: set<BlogField>)
    ensures forall f :: f in v <==> Broken(d, f)
    ensures v == {} <==> Acceptable(d)
  {
    assert forall f: BlogField :: f in AllBlogFields by {
      forall f: BlogField ensures f in AllBlogFields {
        FieldListed(f);
      }
    }
    var v := set f | f in AllBlogFields && Broken(d, f);
    assert v == {} ==> Acceptable(d) by {
      if v == {} {
        assert TitleField !in v && SlugField !in v && ExcerptField !in v;
        assert ImageField !in v && AuthorNameField !in v && AuthorEmailField !in v;
        assert CategoryField !in v && ReadTimeField !in v && StatusField !in v;
      }
    }
    assert Acceptable(d) ==> v == {} by {
      if Acceptable(d) {
        forall f | f in v ensures false {
          AcceptableBreaksNothing(d, f);
        }
      }
    }
    v
  }

  /** The stored status: the one named, `draft` when unset. */
  function StoredStatus(d: BlogInput): (st: Status)
    requires !Broken(d, StatusField)
    ensures d.status.Some? ==> StatusName(st) == d.status.value
    ensures d.status.None? ==> st == Draft
  {
    if d.status.Some? then ParseStatus(d.status.value).value else Draft
  }

  /** The stored read time: the given one, else the estimate from the content. */
  function StoredReadTime(d: BlogInput): (t: string)
    requires !Broken(d, ReadTimeField)
    ensures d.readTime.Some? ==> t == d.readTime.value
    ensures d.readTime.None? ==> t == ReadTimeText(d.content.value)
  {
    if d.readTime.Some? then d.readTime.value else ReadTimeText(d.content.value)
  }

  /** The document stored for an assigned document that breaks no validator: the defaults filled in. */
  function Build(d: BlogInput): BlogRecord
    requires Acceptable(d)
  {
    BlogRecord(
      title := d.title.value,
      slug := d.slug.value,
      excerpt := d.excerpt.value,
      content := d.content,
      sections := d.sections,
      image := d.image.value,
      author := Author(d.authorName.value, d.authorEmail.value, d.authorImage.GetOr(AuthorImagePlaceholder)),
      category := ParseCategory(d.category.value).value,
      tags := d.tags,
      readTime := StoredReadTime(d),
      status := StoredStatus(d),
      views := d.views.GetOr(0),
      likes := d.likes.GetOr(0),
      featured := d.featured.GetOr(false),
      publishedAt := d.publishedAt)
  }

  /** A normalised document that breaks no validator is stored as a valid record. */
  lemma BuildValid(d: BlogInput)
    requires Acceptable(d) && Normalised(d)
    ensures Valid(Build(d))
  {
  }

  /** The enumerations are stored as the values the input names; the status defaults to `draft`. */
  lemma BuildEnumerations(d: BlogInput)
    requires Acceptable(d)
    ensures CategoryName(Build(d).category) == d.category.value
    ensures d.status.Some? ==> StatusName(Build(d).status) == d.status.value
    ensures d.status.None? ==> Build(d).status == Draft
  {
  }

  /** The counter and flag defaults: zero views and likes, not featured, the placeholder author image. */
  lemma BuildDefaults(d: BlogInput)
    requires Acceptable(d)
    ensures Build(d).views == d.views.GetOr(0) && Build(d).likes == d.likes.GetOr(0)
    ensures Build(d).featured == d.featured.GetOr(false)
    ensures Build(d).author.image == d.authorImage.GetOr(AuthorImagePlaceholder)
  {
  }

  /** The read time is kept when given, else estimated from the content. */
  lemma BuildReadTime(d: BlogInput)
    requires Acceptable(d)
    ensures d.readTime.Some? ==> Build(d).readTime == d.readTime.value
    ensures d.readTime.None? ==> Build(d).readTime == ReadTimeText(d.content.value)
  {
  }

  /**
   * Document construction plus validation (`new Blog(...)` then `save()`):
   * the setters run, then the validators; a failure lists every path whose
   * validator is broken.
   */
  function CastBlog(input: BlogInput): (r: Result<BlogRecord, set<BlogField>>)
    ensures r.Failure? <==> Violations(Assign(input)) != {}
    ensures r.Failure? ==> r.error == Violations(Assign(input))
    ensures r.Success? ==> Valid(r.value)
  {
    var d := Assign(input);
    if !Acceptable(d) then Failure(Violations(d))
    else
      BuildValid(d);
      Success(Build(d))
  }

  /** What a successful cast stores for the paths the input sets. */
  lemma CastBlogStores(input: BlogInput)
    ensures CastBlog(input).Success? ==> var r := CastBlog(input).value;
      && input.title.Some? && r.title == Trim(input.title.value)
      && input.slug.Some? && r.slug == Lower(input.slug.value)
      && Some(r.excerpt) == input.excerpt && Some(r.image) == input.image
      && Some(r.author.name) == input.authorName && Some(r.author.email) == input.authorEmail
      && r.content == input.content && r.sections == input.sections && r.publishedAt == input.publishedAt
      && |r.tags| == |input.tags| && (forall i :: 0 <= i < |r.tags| ==> r.tags[i] == Trim(input.tags[i]))
  {
    if CastBlog(input).Success? {
      var d := Assign(input);
      assert CastBlog(input) == Success(Build(d));
      BuildStores(d);
    }
  }

  lemma BuildStores(d: BlogInput)
    requires Acceptable(d)
    ensures var r := Build(d);
      && Some(r.title) == d.title && Some(r.slug) == d.slug
      && Some(r.excerpt) == d.excerpt && Some(r.image) == d.image
      && Some(r.author.name) == d.authorName && Some(r.author.email) == d.authorEmail
      && r.content == d.content && r.sections == d.sections && r.publishedAt == d.publishedAt
      && r.tags == d.tags
  {
  }

  /** The input that re-saves a stored record: every path set to its stored value. */
  function AsInput(r: BlogRecord): BlogInput {
    BlogInput(
      title := Some(r.title), slug := Some(r.slug), excerpt := Some(r.excerpt), content := r.content,
      sections := r.sections, image := Some(r.image), authorName := Some(r.author.name),
      authorEmail := Some(r.author.email), authorImage := Some(r.author.image),
      category := Some(CategoryName(r.category)), tags := r.tags, readTime := Some(r.readTime),
      status := Some(StatusName(r.status)), views := Some(r.views), likes := Some(r.likes),
      featured := Some(r.featured), publishedAt := r.publishedAt)
  }

  /** A valid stored record breaks no validator. */
  lemma ValidIsAcceptable(r: BlogRecord)
    requires Valid(r)
    ensures Acceptable(AsInput(r))
  {
    ParseCategoryName(r.category);
    ParseStatusName(r.status);
  }

  /** A valid stored record passes validation again and comes back unchanged. */
  lemma RecastValid(r: BlogRecord)
    requires Valid(r)
    ensures CastBlog(AsInput(r)) == Success(r)
  {
    NormalisedIsFixed(AsInput(r));
    ValidIsAcceptable(r);
    ParseCategoryName(r.category);
    ParseStatusName(r.status);
    var b := Build(AsInput(r));
    assert b.author == r.author;
  }

  /** A title longer than 200 UTF-16 code units after trimming is rejected. */
  lemma LongTitleRejected(input: BlogInput)
    ensures input.title.Some? && Utf16Length(Trim(input.title.value)) > TitleMaxLength ==>
      CastBlog(input).Failure? && TitleField in CastBlog(input).error
  {
  }

  /** Astral characters count twice: a trimmed title of more than 100 of them, such as emoji, is already too long. */
  lemma AstralTitleRejected(input: BlogInput)
    ensures input.title.Some? ==>
      var t := Trim(input.title.value);
      (|t| > TitleMaxLength / 2 && forall i :: 0 <= i < |t| ==> IsAstral(t[i])) ==>
        CastBlog(input).Failure? && TitleField in CastBlog(input).error
  {
    if input.title.Some? {
      Utf16LengthCounts(Trim(input.title.value));
    }
  }

  /** An excerpt longer than 300 UTF-16 code units is rejected; the excerpt has no trim setter. */
  lemma LongExcerptRejected(input: BlogInput)
    ensures input.excerpt.Some? && Utf16Length(input.excerpt.value) > ExcerptMaxLength ==>
      CastBlog(input).Failure? && ExcerptField in CastBlog(input).error
  {
  }

  /**
   * Without `content` and `readTime`, the `readTime` default throws while the
   * document is constructed; Mongoose records that error on the `readTime`
   * path, so saving fails with `readTime` among the reported paths.
   */
  lemma MissingContentRejectedOnReadTime(input: BlogInput)
    ensures input.content.None? && input.readTime.None? ==>
      CastBlog(input).Failure? && ReadTimeField in CastBlog(input).error
  {
  }

  /**
   * The pre-save hook: when `status` was modified, is `published`, and
   * `publishedAt` is unset, stamp `publishedAt` with the current time.
   */
  function PreSave(r: BlogRecord, statusModified: bool, now: int): (r': BlogRecord)
    ensures r.publishedAt.Some? ==> r' == r
    ensures r'.publishedAt.Some? <==> (r.publishedAt.Some? || (statusModified && r.status == Published))
    ensures r.publishedAt.None? && r'.publishedAt.Some? ==> r'.publishedAt == Some(now)
    ensures r' == r.(publishedAt := r'.publishedAt)
  {
    if statusModified && r.status == Published && r.publishedAt.None? then r.(publishedAt := Some(now))
    else r
  }

  /** One save: whether `status` was modified since the last save, and the clock reading. */
  datatype SaveEvent = SaveEvent(statusModified: bool, now: int)

  /** A sequence of saves, each running the pre-save hook; the status may change between saves. */
  function SaveAll(r: BlogRecord, statuses: seq<Status>, events: seq<SaveEvent>): BlogRecord
    requires |statuses| == |events|
    decreases |events|
  {
    if events == [] then r
    else SaveAll(PreSave(r.(status := statuses[0]), events[0].statusModified, events[0].now), statuses[1..], events[1..])
  }

  /** Once set, `publishedAt` survives every later save, whatever the status becomes. */
  lemma {:induction false} PublishedAtNeverChanges(r: BlogRecord, statuses: seq<Status>, events: seq<SaveEvent>)
    requires |statuses| == |events|
    requires r.publishedAt.Some?
    ensures SaveAll(r, statuses, events).publishedAt == r.publishedAt
    decreases |events|
  {
    if events != [] {
      var r1 := PreSave(r.(status := statuses[0]), events[0].statusModified, events[0].now);
      PublishedAtNeverChanges(r1, statuses[1..], events[1..]);
    }
  }

  /** Without a save that modifies the status to `published`, `publishedAt` stays unset. */
  lemma {:induction false} PublishedAtNeedsPublish(r: BlogRecord, statuses: seq<Status>, events: seq<SaveEvent>)
    requires |statuses| == |events|
    requires r.publishedAt.None?
    requires forall j :: 0 <= j < |events| ==> !(events[j].statusModified && statuses[j] == Published)
    ensures SaveAll(r, statuses, events).publishedAt.None?
    decreases |events|
  {
    if events != [] {
      assert !(events[0].statusModified && statuses[0] == Published);
      var r1 := PreSave(r.(status := statuses[0]), events[0].statusModified, events[0].now);
      PublishedAtNeedsPublish(r1, statuses[1..], events[1..]);
    }
  }

  /**
   * `publishedAt` is set by the first save that publishes with a modified
   * status, to that save's clock reading, and by no other.
   */
  lemma {:induction false} PublishedAtIsFirstPublish(r: BlogRecord, statuses: seq<Status>, events: seq<SaveEvent>, k: nat)
    requires |statuses| == |events|
    requires r.publishedAt.None?
    requires k < |events| && events[k].statusModified && statuses[k] == Published
    requires forall j :: 0 <= j < k ==> !(events[j].statusModified && statuses[j] == Published)
    ensures SaveAll(r, statuses, events).publishedAt == Some(events[k].now)
    decreases k
  {
    var r1 := PreSave(r.(status := statuses[0]), events[0].statusModified, events[0].now);
    if k == 0 {
      PublishedAtNeverChanges(r1, statuses[1..], events[1..]);
    } else {
      assert !(events[0].statusModified && statuses[0] == Published);
      PublishedAtIsFirstPublish(r1, statuses[1..], events[1..], k - 1);
    }
  }
}
