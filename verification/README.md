# sosapient-backend: a Dafny model of the blog, submission and newsletter rules

This project models the decision logic of the sosapient-backend blog service,
an Express and Mongoose application. Persistence and transport are left out.
The model covers six parts:

- **Slug derivation and de-duplication** when a blog post is created (`Slug`).
  The title is lower-cased, characters outside `[a-zA-Z0-9\s]` are stripped and
  white-space runs are turned into `-`. Then `base`, `base-1`, `base-2`, … are
  probed against the slugs already stored. The store is a finite
  `set<string>`.
- **Shaping of the create payload** (`BlogCreate`):
  - the required-field rejection;
  - tag parsing: a JSON attempt first, otherwise a comma split with each piece
    trimmed;
  - the author and sections fallbacks;
  - the `featured` coercion;
  - the image precedence and placeholder.

  `JSON.parse` is a function parameter of type `string -> Option<Value>`, a
  partial oracle. The request body is a loosely typed `Value`, with
  JavaScript truthiness.
- **Pagination arithmetic of the published listing** (`Pagination`): the page
  and limit defaults, `skip`, `totalPages` as a ceiling division,
  `hasNext`/`hasPrev`, and the error answer when the store refuses a negative
  `skip`.
- **The blog schema** (`BlogModel`). Mongoose's setters (`trim`, `lowercase`)
  run before its validators (required, enum, maxlength) and its defaults,
  including the computed `readTime`. The result is either the set of broken
  fields or a record satisfying `Valid`. The `publishedAt` pre-save hook is a
  state transition over a sequence of saves.
- **The contact and career submission schemas** (`ContactModel`,
  `CareerModel`):
  - the two e-mail patterns, each as a predicate plus a loop recogniser over
    `seq<char>`;
  - the budget, timeline and status enumerations;
  - the required-field sets.
- **The newsletter subscriber routes** (`Subscribers`): subscribe, unsubscribe
  and delete as total functions over a store of records. Each has explicit
  error outcomes. The store's view as a map from e-mail to status is the
  abstraction the lemmas relate them to.

Shared pieces:

- `Text` holds the JavaScript string primitives the code relies on: the `\s`
  set, `trim`, `split` on one character, `join`, `toLowerCase`, and `length`
  in UTF-16 code units.
- `Schema` holds the Mongoose validators the schemas share: `required` on a
  string path and `maxlength`.
- `Numeric` holds decimal rendering and ceiling division.
- `Payload` holds the request value type.
- `Wrappers` holds `Option` and `Result`.

Points where the code's behaviour is easy to misread:

- The schema caps are title ≤ 200 and excerpt ≤ 300, measured as JavaScript's
  `length`: UTF-16 code units, so a character outside the Basic Multilingual
  Plane (an emoji, say) counts twice.
- Empty tag pieces are kept on the create path.
- On create, `trim()` runs after hyphenation, so it never removes anything. A
  title with leading or trailing white space gets a leading or trailing `-`.
- A string author that fails to parse becomes a fixed default author object.
  It is not used as the author's name.
- The create handler defaults `status` to `published`, while the schema's own
  default is `draft`.

## Model

| member | source | states |
|---|---|---|
| Slug.BaseSlugShape | controllers/blog.controller.js:155-159 | the base slug of any title has only `a-z`, `0-9` and `-`, never two adjacent hyphens, the final trim changes nothing, and removing its hyphens leaves exactly the kept characters with white space removed |
| Slug.HyphenateNoDoubleHyphen | controllers/blog.controller.js:158 | replacing white-space runs by `-` in a hyphen-free string never yields two adjacent hyphens |
| Slug.HyphenateKeepsText | controllers/blog.controller.js:158 | hyphenation only replaces white space: dropping the hyphens from the result gives the input without its white space |
| Slug.HyphenateIsScan | controllers/blog.controller.js:158 | the recursive reading of the global `\s+` replace agrees with an independent left-to-right scan that remembers whether it is inside a run |
| Slug.BaseSlugExample | controllers/blog.controller.js:155-159 | "Hello, World! 2025" gives the base slug "hello-world-2025" |
| Slug.CandidateInjective | controllers/blog.controller.js:166 | different probe counters give different candidate slugs |
| Slug.CandidateIsSlugText | controllers/blog.controller.js:166 | every candidate built from a slug-shaped base is slug-shaped and unchanged by lower-casing |
| Slug.FirstFreeUnique | controllers/blog.controller.js:161-168 | the first free candidate and its probe count are uniquely determined by the base and the existing slugs |
| Slug.FirstFreeOfFreeBase | controllers/blog.controller.js:161-165 | when the base is not taken, the first free candidate is the base itself after one probe |
| Slug.UniqueSlug | controllers/blog.controller.js:161-168 | the loop returns the first of `base`, `base-1`, `base-2`, … not in the existing set (so never a taken slug), equals `base` after one probe when `base` is free, and probes at most \|existing\|+1 times |
| BlogCreate.CreateBlog | controllers/blog.controller.js:127-221 | a request missing title, excerpt or content (absent or falsy) is rejected with no probe; a non-string title is rejected; otherwise the draft carries the first free slug of the title's base slug and the shaped fields |
| BlogCreate.SplitTags | controllers/blog.controller.js:177 | a comma split gives one more piece than there are commas, and every piece is trimmed and comma-free (empty pieces are kept) |
| BlogCreate.SplitTagsOfJoin | controllers/blog.controller.js:177 | splitting comma-joined comma-free tags returns exactly those tags, each trimmed |
| BlogCreate.SplitTagsRoundTrip | controllers/blog.controller.js:177 | trimmed, comma-free tags survive a join with `,` followed by the tag split unchanged |
| BlogCreate.SplitTagsExample | controllers/blog.controller.js:177 | the tags string `"a, b, ,c"` gives exactly the four tags `a`, `b`, an empty tag and `c`: empty pieces are kept, not dropped |
| BlogCreate.TagsOfFourPieces | controllers/blog.controller.js:177 | four comma pieces whose outer two are single non-white characters and whose inner two are a space plus at most one non-white character give four tags: the outer pieces unchanged and the inner ones without their space |
| BlogCreate.ParseTags | controllers/blog.controller.js:171-182 | absent or falsy tags give `[]`; an array passes through; a string gives its JSON parse, or its trimmed comma pieces when the parse fails; any other value gives `[]` |
| BlogCreate.ParseTagsFallback | controllers/blog.controller.js:174-178 | a non-empty tag string that does not parse becomes an array of comma-count + 1 trimmed, comma-free strings |
| BlogCreate.ParseAuthor | controllers/blog.controller.js:185-197 | a string author becomes its JSON parse, or the fixed default author when the parse fails; a non-string or absent author is passed through unchanged |
| BlogCreate.ParseAuthorFallbackPassesSchema | controllers/blog.controller.js:184-197 | an author string that does not parse becomes an object whose name and e-mail pass the schema's `required` and whose image is the schema's default image |
| BlogCreate.ParseSectionsNeverRawText | controllers/blog.controller.js:137-206 | the sections are never the raw form text: absent or unparsable gives an array, and a string only comes out as what the parse returned |
| BlogCreate.ParseSections | controllers/blog.controller.js:137-206 | absent sections give `[]`; a string gives its parse or `[]` when the parse fails; any other value passes through |
| BlogCreate.StoredFeatured | controllers/blog.controller.js:135-219 | `featured` is stored true only for a present value, and is false when absent |
| BlogCreate.FeaturedRoundTrip | controllers/blog.controller.js:219 | a flag sent as a JSON boolean or as the form text `"true"`/`"false"` is stored as that boolean |
| BlogCreate.StoredFeaturedExactly | controllers/blog.controller.js:135-219 | `featured` is stored true exactly for boolean `true` or the string `"true"` |
| BlogCreate.FeaturedNotTruthiness | controllers/blog.controller.js:219 | truthy values other than those two, such as `"yes"` or `1`, are stored false |
| BlogCreate.ResolveImage | controllers/blog.controller.js:149-214 | an uploaded file's path beats the body image, a truthy body image beats the placeholder, and the stored image is always truthy |
| BlogCreate.ResolveImagePassesSchema | controllers/blog.controller.js:149-214 | an upload always yields a string path, and every string image the create path stores passes the schema's `required` |
| BlogCreate.StoredStatus | controllers/blog.controller.js:134 | a given status is passed on as sent; a missing one becomes `published` |
| BlogCreate.CreateDefaultIsPublished | controllers/blog.controller.js:134 | the create path's default status is the schema's `published` name, which differs from the schema default `draft` |
| Pagination.ListPage | controllers/blog.controller.js:36-89 | the listing answers with the `Paginate` window exactly when its skip is non-negative; a negative skip, which the store refuses, ends in the error answer |
| Pagination.ListPageFails | controllers/blog.controller.js:38-68 | with a positive limit the store refuses exactly a page below 1, with a negative limit exactly a page above 1, and a missing page is always answered |
| Pagination.Paginate | controllers/blog.controller.js:38-80 | the limit and page are never 0; `totalBlogs` is the count; `hasPrev` iff page > 1; `hasNext` iff page < totalPages |
| Pagination.PaginateQuery | controllers/blog.controller.js:38-39 | a missing, unparsable or zero page gives 1 and limit gives 10; any other parsed value is used as given |
| Pagination.PaginateSkip | controllers/blog.controller.js:40 | the skipped records are exactly the earlier pages: skip + limit = page · limit |
| Pagination.PaginatePageCount | controllers/blog.controller.js:76 | with a positive limit, `totalPages` is the least page count whose pages hold all records |
| Pagination.PaginateHasNext | controllers/blog.controller.js:78 | with a positive limit, there is a next page exactly when records remain after this page's window |
| Pagination.PaginateHasPrev | controllers/blog.controller.js:79 | with a positive limit, there is a previous page exactly when records are skipped |
| BlogModel.ParseStatus | models/blog.model.js:66-70 | only the names `draft`, `published`, `archived` are accepted, each as its own status |
| BlogModel.ParseStatusName | models/blog.model.js:66-70 | every status's name is accepted back as that status |
| BlogModel.ParseCategory | models/blog.model.js:48-52 | only the eight category names are accepted, each as its own category |
| BlogModel.ParseCategoryName | models/blog.model.js:48-52 | every category's name is accepted back as that category |
| BlogModel.WordCount | models/blog.model.js:61 | the word count is the number of `' '` characters in the content plus one |
| BlogModel.ReadTimeMinutesBounds | models/blog.model.js:59-64 | the read time is the least whole number of minutes, at least one, that covers the words at 200 per minute |
| BlogModel.Assign | models/blog.model.js:4-56 | the setters trim the title and every tag and lower-case the slug, and change no other path |
| BlogModel.AssignIdempotent | models/blog.model.js:4-56 | applying the setters twice is the same as once |
| BlogModel.NormalisedIsFixed | models/blog.model.js:4-56 | a document whose title and tags are trimmed and whose slug is lower-case is unchanged by the setters |
| BlogModel.Violations | models/blog.model.js:4-85 | the reported fields are exactly the broken ones (title and excerpt lengths counted in UTF-16 code units; a `readTime` default that throws for want of content counts against `readTime`), and none are reported exactly when the document is acceptable |
| BlogModel.AcceptableBreaksNothing | models/blog.model.js:4-85 | an acceptable document breaks none of the field validators |
| BlogModel.StoredStatus | models/blog.model.js:66-70 | the stored status is the one named, or `draft` when none is given |
| BlogModel.StoredReadTime | models/blog.model.js:57-65 | a given read time is kept; otherwise the computed one is stored |
| BlogModel.BuildValid | models/blog.model.js:4-85 | an acceptable, normalised document builds a valid record |
| BlogModel.BuildEnumerations | models/blog.model.js:48-70 | the stored category and status carry the names sent, with `draft` as the default |
| BlogModel.BuildDefaults | models/blog.model.js:43-82 | views and likes default to 0, featured to false and the author image to the placeholder |
| BlogModel.BuildReadTime | models/blog.model.js:57-65 | the read time is the one sent or, when absent, "N min read" for the computed N |
| BlogModel.CastBlog | models/blog.model.js:4-85 | a document is rejected exactly when, after the setters, some validator fails or the read-time default throws for want of content, with exactly those paths reported; an accepted one yields a valid record |
| BlogModel.CastBlogStores | models/blog.model.js:4-56 | an accepted document stores the trimmed title, the lower-cased slug, the trimmed tags and every other text path as sent |
| BlogModel.ValidIsAcceptable | models/blog.model.js:4-85 | a valid stored record passes every validator when saved again |
| BlogModel.RecastValid | models/blog.model.js:4-85 | casting a valid record's own fields gives back that record |
| BlogModel.LongTitleRejected | models/blog.model.js:4-9 | a title longer than 200 UTF-16 code units after trimming is rejected on the title path |
| BlogModel.AstralTitleRejected | models/blog.model.js:4-9 | a trimmed title of more than 100 characters that all lie outside the Basic Multilingual Plane, such as 101 emoji, is rejected on the title path |
| BlogModel.LongExcerptRejected | models/blog.model.js:16-20 | an excerpt longer than 300 UTF-16 code units is rejected on the excerpt path |
| BlogModel.MissingContentRejectedOnReadTime | models/blog.model.js:57-65 | a document with neither content nor read time fails, with `readTime` among the reported paths, because its default throws on the missing content |
| BlogModel.PreSave | models/blog.model.js:96-103 | an existing `publishedAt` is kept and nothing else changes; it is set to the save time exactly when the status was modified to `published` and it was unset |
| BlogModel.PublishedAtNeverChanges | models/blog.model.js:96-103 | once set, `publishedAt` is never overwritten or cleared by any sequence of saves |
| BlogModel.PublishedAtIsFirstPublish | models/blog.model.js:96-103 | after any sequence of saves, `publishedAt` is the time of the first save that modified the status to `published` |
| BlogModel.PublishedAtNeedsPublish | models/blog.model.js:96-103 | with no save that modifies the status to `published`, an unset `publishedAt` stays unset through any sequence of saves |
| ContactModel.ParseBudget | models/contact.model.js:34-38 | only the five budget bucket names are accepted, each as its own bucket |
| ContactModel.ParseBudgetName | models/contact.model.js:34-38 | every bucket's name is accepted back as that bucket |
| ContactModel.ParseTimeline | models/contact.model.js:39-43 | only the five timeline bucket names are accepted |
| ContactModel.ParseTimelineName | models/contact.model.js:39-43 | every timeline bucket's name is accepted back as that bucket |
| ContactModel.ParseContactStatus | models/contact.model.js:44-48 | only `new`, `read`, `replied`, `archived` are accepted |
| ContactModel.ParseContactStatusName | models/contact.model.js:44-48 | every status's name is accepted back as that status |
| ContactModel.MatchesContactEmailIff | models/contact.model.js:14 | `^\S+@\S+$` matches exactly the strings with no white space and an `@` that has a character on each side |
| ContactModel.MatchContactEmail | models/contact.model.js:14 | the loop recogniser accepts exactly the strings the pattern matches |
| ContactModel.NormaliseEmailIdempotent | models/contact.model.js:12-13 | trimming and lower-casing an already normalised e-mail changes nothing |
| ContactModel.NormaliseEmailShape | models/contact.model.js:12-13 | a normalised e-mail is trimmed and has no ASCII upper case |
| ContactModel.Assign | models/contact.model.js:4-33 | the setters store the trimmed, lower-cased e-mail and leave the enumerated paths alone |
| ContactModel.Violations | models/contact.model.js:4-48 | the reported fields are exactly the broken ones |
| ContactModel.Validate | models/contact.model.js:4-48 | a document is rejected exactly when some path is broken, reporting exactly those paths |
| ContactModel.ValidateStoresText | models/contact.model.js:4-33 | an accepted document stores its text paths as given |
| ContactModel.ValidateStoresBuckets | models/contact.model.js:34-43 | an accepted document stores the named buckets, or none for a missing path |
| ContactModel.ValidateStoresStatus | models/contact.model.js:44-48 | an accepted document stores the named status |
| ContactModel.CastContactAsWritten | models/contact.model.js:4-48 | with the schema's `''` defaults, a submission is rejected exactly when the defaulted document breaks a validator |
| ContactModel.AsWrittenRejectsMissingBudget | models/contact.model.js:34-38 | with the `''` default, every submission without a budget is rejected on the budget path |
| ContactModel.AsWrittenRejectsMissingTimeline | models/contact.model.js:39-43 | with the `''` default, every submission without a timeline is rejected on the timeline path |
| ContactModel.OptionalDefaults | models/contact.model.js:34-48 | the corrected defaults always fill the status and never leave an empty bucket name |
| ContactModel.CastContact | models/contact.model.js:4-48 | with the corrected bucket defaults (see ## Findings), a submission is rejected exactly when, after setters and defaults, some validator fails, reporting exactly those paths |
| ContactModel.AssignNormalises | models/contact.model.js:4-33 | after the setters, every text path is trimmed and the e-mail is normalised |
| ContactModel.CastContactValid | models/contact.model.js:4-48 | with the corrected bucket defaults (see ## Findings), an accepted submission yields a valid record |
| ContactModel.CastContactStoresText | models/contact.model.js:4-33 | with the corrected bucket defaults (see ## Findings), name, subject and message are stored trimmed |
| ContactModel.CastContactStoresContact | models/contact.model.js:9-23 | with the corrected bucket defaults (see ## Findings), the e-mail is stored normalised; company and phone are stored trimmed |
| ContactModel.CastContactStoresEnums | models/contact.model.js:34-48 | with the corrected bucket defaults (see ## Findings), a given bucket is stored by its name; a missing or empty one is stored as none; status defaults to `new` |
| ContactModel.ContactEmailAccepted | models/contact.model.js:9-15 | with the corrected bucket defaults (see ## Findings), the e-mail passes exactly when, trimmed and lower-cased, it has no white space and an inner `@` |
| ContactModel.BlankRequiredRejected | models/contact.model.js:4-8 | with the corrected bucket defaults (see ## Findings), a missing or blank name is rejected on the name path |
| ContactModel.UnknownBucketRejected | models/contact.model.js:34-38 | with the corrected bucket defaults (see ## Findings), a budget outside the five buckets is rejected on the budget path |
| ContactModel.AssignValidFixed | models/contact.model.js:4-33 | the setters change nothing in a valid record |
| ContactModel.ValidIsAcceptable | models/contact.model.js:4-48 | with the corrected bucket defaults (see ## Findings), a valid record needs no default and breaks no validator |
| ContactModel.ValidateValid | models/contact.model.js:4-48 | validating a valid record's own fields gives back that record |
| ContactModel.RecastValid | models/contact.model.js:4-48 | with the corrected bucket defaults (see ## Findings), casting a valid record's own fields gives back that record |
| CareerModel.ScanDottedWord | models/career.model.js:11 | the recogniser accepts exactly the word-character runs joined by single `.` or `-` |
| CareerModel.ScanDomain | models/career.model.js:11 | the recogniser accepts exactly the dotted words whose final `.`-segment has 2 or 3 word characters |
| CareerModel.MatchCareerEmail | models/career.model.js:11 | the recogniser accepts exactly the strings matching the career e-mail pattern |
| CareerModel.DottedWordNoWhitespace | models/career.model.js:11 | a dotted word has no white space |
| CareerModel.CareerEmailIsContactEmail | models/career.model.js:11 | every e-mail accepted by the career pattern is also accepted by the contact pattern |
| CareerModel.AcceptsThreeLetterEnding | models/career.model.js:11 | `a@b.com` is accepted |
| CareerModel.RejectsFourLetterEnding | models/career.model.js:11 | `a@b.info` is rejected |
| CareerModel.RejectsOneLetterEnding | models/career.model.js:11 | `a@b.c` is rejected |
| CareerModel.DomainEndingUnique | models/career.model.js:11 | in an accepted domain, the segment after the last dot has 2 or 3 characters |
| CareerModel.SingleAtSplits | models/career.model.js:11 | an address with a single `@`, at any position, is accepted exactly when the text before it is a dotted word and the text after it a domain with a 2–3 character ending |
| CareerModel.ParseCareerStatus | models/career.model.js:45-49 | only `pending`, `reviewed`, `shortlisted`, `rejected` are accepted |
| CareerModel.ParseCareerStatusName | models/career.model.js:45-49 | every status's name is accepted back as that status |
| CareerModel.Violations | models/career.model.js:4-49 | the reported fields are exactly the broken ones |
| CareerModel.CastCareer | models/career.model.js:4-49 | an application is rejected exactly when a validator fails, reporting exactly those paths; an accepted one is valid |
| CareerModel.MissingRequiredRejected | models/career.model.js:4-44 | each of the eight required paths, when missing or empty, is reported |
| CareerModel.BadEmailRejected | models/career.model.js:8-12 | an e-mail outside the pattern is rejected on the e-mail path |
| CareerModel.OptionalPathsFree | models/career.model.js:17-24 | cover letter and résumé never decide acceptance and are stored as sent |
| CareerModel.CastCareerStores | models/career.model.js:4-49 | an accepted application stores every path as sent, with status `pending` by default |
| CareerModel.RecastValid | models/career.model.js:4-49 | casting a valid record's own fields gives back that record |
| Subscribers.FindFirst | routes/subscribers.js:15-61 | a lookup returns the position of the first record satisfying the query, and none exactly when no record does |
| Subscribers.FindId | routes/subscribers.js:47 | the lookup by identifier finds a record exactly when some record has that identifier, and then the first such record |
| Subscribers.FindEmail | routes/subscribers.js:15-61 | the lookup returns the first record with that e-mail, or none exactly when no record has it |
| Subscribers.Subscribe | routes/subscribers.js:6-32 | a missing or empty e-mail is refused; an e-mail already stored in any status is refused; otherwise exactly one active record is appended |
| Subscribers.Unsubscribe | routes/subscribers.js:58-74 | an unknown e-mail is reported; otherwise the first matching record is marked unsubscribed and kept, and no other record changes |
| Subscribers.Delete | routes/subscribers.js:45-55 | an unknown identifier is reported; otherwise exactly one record with that identifier is removed |
| Subscribers.SubscribeValid | routes/subscribers.js:21-22 | subscribing keeps identifiers and e-mails distinct |
| Subscribers.UnsubscribeValid | routes/subscribers.js:67-68 | unsubscribing keeps identifiers and e-mails distinct |
| Subscribers.DeleteValid | routes/subscribers.js:47-50 | deleting keeps the store valid and leaves no record with that identifier |
| Subscribers.ViewDomain | routes/subscribers.js:15-61 | the e-mails in the status map are exactly those of the stored records |
| Subscribers.ViewValue | routes/subscribers.js:15-61 | with distinct e-mails, the status map gives each record's status |
| Subscribers.SubscribeView | routes/subscribers.js:15-22 | a successful subscribe adds a new e-mail to the status map as active and changes no other entry |
| Subscribers.UnsubscribeView | routes/subscribers.js:61-68 | a successful unsubscribe maps that e-mail to unsubscribed and changes no other entry |
| Subscribers.DeleteView | routes/subscribers.js:47-50 | a successful delete removes exactly the deleted record's e-mail from the status map |
| Text.TrimCharacterisation | controllers/blog.controller.js:177 | `trim` removes exactly the leading and trailing white space, leaving a trimmed string |
| Text.TrimIdempotent | models/contact.model.js:7 | trimming twice is the same as once |
| Text.TrimLowerCommute | models/contact.model.js:12-13 | trimming then lower-casing is the same as lower-casing then trimming |
| Text.Split | controllers/blog.controller.js:177 | a split on one character gives one more piece than occurrences, none containing the separator |
| Text.JoinSplit | controllers/blog.controller.js:177 | joining the pieces of a split gives back the string |
| Text.SplitJoin | controllers/blog.controller.js:177 | splitting a join of separator-free pieces gives back the pieces |
| Text.Utf16Length | models/blog.model.js:8 | a string's `length` lies between its character count and twice that |
| Text.Utf16LengthCounts | models/blog.model.js:8 | `length` equals the character count exactly when no character is astral, and twice it exactly when all are |
| Text.Lower | controllers/blog.controller.js:156 | the lower-cased string has no ASCII upper case |
| Text.LowerIdempotent | models/blog.model.js:14 | lower-casing twice is the same as once |
| Numeric.DigitsValueOfNatToString | models/blog.model.js:63 | reading back the decimal rendering of a number gives the number |
| Numeric.CeilDivBounds | controllers/blog.controller.js:76 | the ceiling quotient is the least whole number of divisor-sized blocks covering the dividend |

## Left out

- Persistence is abstract. MongoDB queries (text search, the author regex and category filters, sorting, `distinct`, the statistics aggregation), the `$inc` counters and the read-then-write race between the slug probe and the insert are not modelled. The probe sees a fixed set of existing slugs, and a create returns the draft it would insert.
- The update, delete, like and comment handlers of the blog controller are not modelled. The unguarded `seo` parse on create (controllers/blog.controller.js:220) is not modelled either: a failed parse there just throws.
- Multer storage and its file filter, static serving, CORS, logging, the e-mail services, the seeder and the career and contact controllers are not modelled. None of them is decision logic over the records. An upload is an optional file name.
- `parseInt` scanning is not modelled: pagination takes the parse result as `Option<int>`, where `None` is `NaN`.
- Casting the create draft through the schema is not chained. `BlogCreate.CreateBlog` ends at the document handed to `new Blog`, and `BlogModel.CastBlog` starts from typed paths.
- `Date` values are whole numbers supplied by the caller, and the current time is the `now` parameter of each save. The `seo` sub-document and the `timestamps` option of the blog schema are not modelled.
- `toLowerCase` covers ASCII and the two non-ASCII characters whose lower case contains ASCII letters. Other characters are left unchanged. Any of them that reach the slug are stripped anyway. The contact e-mail setter (`ContactModel.NormaliseEmail`) also goes through it, so a non-ASCII capital such as `É` is stored unchanged where JavaScript would store `é`.
- The Subscriber model file is not part of this model. Statuses `active` and `unsubscribed` and a fresh identifier per record are assumed, and e-mails are compared exactly as sent. A non-string or missing e-mail on unsubscribe is not modelled: the operation takes a string.
- Pagination.Paginate: computes the window and the `pagination` block for every query, including a negative `skip`. The store refuses a negative `skip` and the handler then answers 500 without a `pagination` block; that outcome is `Pagination.ListPage`'s failure, not `Paginate`'s.
- Subscribers.Delete: the identifier is a number. A malformed `:id` makes Mongoose throw a cast error, so the route answers 500 rather than 404; that path is not modelled.
- Pagination.PaginateHasNext: the characterisation through `skip` is proved for a positive limit only. A negative `limit` query is kept by the code and reaches the store as is.
- Pagination.PaginatePageCount: stated for a positive limit only, for the same reason.
- BlogModel.ReadTimeMinutes: carries no contract of its own; the bounds are stated by `BlogModel.ReadTimeMinutesBounds`.
- Numeric.CeilDiv: carries no contract of its own; the bounds are stated by `Numeric.CeilDivBounds`.
- BlogModel.CastBlog: the `readTime` default throws a `TypeError` when there is no content. Mongoose catches an error thrown by a default function and records it against that path, so the model reports `readTime` alongside the broken validators. The error's message and kind are not modelled.
- Career e-mail matching treats `\w` as ASCII `[A-Za-z0-9_]`, as JavaScript does without the `u` flag.

## Findings

| source | as written | input that shows it | evidently intended | confidence | as-written member | corrected member |
|---|---|---|---|---|---|---|
| models/contact.model.js:34-43 | `budget` and `timeline` default to `''`, which is not one of their enum values. Mongoose validates defaults, so the enum validator fails. | a contact submission with no `budget` (or no `timeline`) | a missing bucket is simply absent, and the submission is accepted; the corrected cast also reads an explicit empty string, which a form sends for an unselected option, as absent | not executed | ContactModel.AsWrittenRejectsMissingBudget | ContactModel.CastContactStoresEnums |
