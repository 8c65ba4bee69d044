/**
 * The contact-form submission schema: trimmed text paths, an e-mail that is
 * trimmed, lower-cased and matched against `/^\S+@\S+$/`, three required text
 * paths, and the budget, timeline and status enumerations.
 */
module ContactModel {
  import opened Wrappers
  import opened Text
  import opened Schema

  datatype Budget = Under10k | From10kTo25k | From25kTo50k | From50kTo100k | Over100k

  function BudgetName(b: Budget): string {
    match b
    case Under10k => "under-10k"
    case From10kTo25k => "10k-25k"
    case From25kTo50k => "25k-50k"
    case From50kTo100k => "50k-100k"
    case Over100k => "over-100k"
  }

  /** The `budget` enumeration: only the five bucket names are accepted. */
  function ParseBudget(s: string): (r: Option<Budget>)
    ensures r.Some? ==> BudgetName(r.value) == s
  {
    if s == "under-10k" then Some(Under10k)
    else if s == "10k-25k" then Some(From10kTo25k)
    else if s == "25k-50k" then Some(From25kTo50k)
    else if s == "50k-100k" then Some(From50kTo100k)
    else if s == "over-100k" then Some(Over100k)
    else None
  }

  lemma ParseBudgetName(b: Budget)
    ensures ParseBudget(BudgetName(b)) == Some(b)
  {
  }

  datatype Timeline = Asap | OneToThreeMonths | ThreeToSixMonths | SixToTwelveMonths | Flexible

  function TimelineName(t: Timeline): string {
    match t
    case Asap => "asap"
    case OneToThreeMonths => "1-3-months"
    case ThreeToSixMonths => "3-6-months"
    case SixToTwelveMonths => "6-12-months"
    case Flexible => "flexible"
  }

  /** The `timeline` enumeration: only the five bucket names are accepted. */
  function ParseTimeline(s: string): (r: Option<Timeline>)
    ensures r.Some? ==> TimelineName(r.value) == s
  {
    if s == "asap" then Some(Asap)
    else if s == "1-3-months" then Some(OneToThreeMonths)
    else if s == "3-6-months" then Some(ThreeToSixMonths)
    else if s == "6-12-months" then Some(SixToTwelveMonths)
    else if s == "flexible" then Some(Flexible)
    else None
  }

  lemma ParseTimelineName(t: Timeline)
    ensures ParseTimeline(TimelineName(t)) == Some(t)
  {
  }

  datatype ContactStatus = New | Read | Replied | Archived

  function ContactStatusName(st: ContactStatus): string {
    match st
    case New => "new"
    case Read => "read"
    case Replied => "replied"
    case Archived => "archived"
  }

  /** The `status` enumeration: only the four names are accepted. */
  function ParseContactStatus(s: string): (r: Option<ContactStatus>)
    ensures r.Some? ==> ContactStatusName(r.value) == s
  {
    if s == "new" then Some(New)
    else if s == "read" then Some(Read)
    else if s == "replied" then Some(Replied)
    else if s == "archived" then Some(Archived)
    else None
  }

  lemma ParseContactStatusName(st: ContactStatus)
    ensures ParseContactStatus(ContactStatusName(st)) == Some(st)
  {
  }

  /** `/^\S+@\S+$/` read as a pattern: non-white-space, an `@`, non-white-space, with both runs non-empty. */
  predicate MatchesContactEmail(s: string) {
    exists i :: 0 < i < |s| - 1 && s[i] == '@' && NoWhitespace(s[..i]) && NoWhitespace(s[i + 1..])
  }

  /** There is an `@` with at least one character on each side of it. */
  predicate HasInnerAt(s: string) {
    exists i :: 0 < i < |s| - 1 && s[i] == '@'
  }

  /** The pattern accepts exactly the strings without white space that have an inner `@`. */
  lemma MatchesContactEmailIff(s: string)
    ensures MatchesContactEmail(s) <==> NoWhitespace(s) && HasInnerAt(s)
  {
    if MatchesContactEmail(s) {
      var i :| 0 < i < |s| - 1 && s[i] == '@' && NoWhitespace(s[..i]) && NoWhitespace(s[i + 1..]);
      forall k | 0 <= k < |s| ensures !IsWhitespace(s[k]) {
        if k < i {
          assert s[k] == s[..i][k];
        } else if k > i {
          assert s[k] == s[i + 1..][k - i - 1];
        }
      }
    }
    if NoWhitespace(s) && HasInnerAt(s) {
      var i :| 0 < i < |s| - 1 && s[i] == '@';
      assert NoWhitespace(s[..i]) && NoWhitespace(s[i + 1..]);
    }
  }

  /** The pattern test, one pass over the string. */
  method MatchContactEmail(s: string) returns (b: bool)
    ensures b <==> MatchesContactEmail(s)
  {
    var clean := true;
    var at := false;
    var k := 0;
    while k < |s|
      invariant 0 <= k <= |s|
      invariant clean <==> NoWhitespace(s[..k])
      invariant at <==> exists i :: 0 < i < k && i < |s| - 1 && s[i] == '@'
    {
      if IsWhitespace(s[k]) {
        clean := false;
      }
      if 0 < k < |s| - 1 && s[k] == '@' {
        at := true;
      }
      assert s[..k + 1] == s[..k] + [s[k]];
      k := k + 1;
    }
    assert s[..k] == s;
    MatchesContactEmailIff(s);
    b := clean && at;
  }

  /** The `trim` then `lowercase` setters of the `email` path. */
  function NormaliseEmail(s: string): (r: string) {
    Lower(Trim(s))
  }

  /** Normalising an e-mail twice is normalising it once. */
  lemma NormaliseEmailIdempotent(s: string)
    ensures NormaliseEmail(NormaliseEmail(s)) == NormaliseEmail(s)
  {
    var t := Trim(s);
    TrimCharacterisation(s);
    TrimLowerCommute(t);
    TrimOfTrimmed(t);
    LowerIdempotent(t);
  }

  /** A normalised e-mail has no ASCII upper case and no white space at either end. */
  lemma NormaliseEmailShape(s: string)
    ensures var r := NormaliseEmail(s);
      && IsTrimmed(r) && Lower(r) == r
      && forall i :: 0 <= i < |r| ==> !IsAsciiUpper(r[i])
  {
    var t := Trim(s);
    TrimCharacterisation(s);
    TrimLowerCommute(t);
    TrimOfTrimmed(t);
    TrimCharacterisation(Lower(t));
    LowerIdempotent(t);
  }

  /** The paths of a submission as sent; every path may be missing. */
  datatype ContactInput = ContactInput(
    name: Option<string>,
    email: Option<string>,
    company: Option<string>,
    phone: Option<string>,
    subject: Option<string>,
    message: Option<string>,
    budget: Option<string>,
    timeline: Option<string>,
    status: Option<string>)

  /** A stored submission; an absent budget or timeline is `None`. */
  datatype ContactRecord = ContactRecord(
    name: string,
    email: string,
    company: Option<string>,
    phone: Option<string>,
    subject: string,
    message: string,
    budget: Option<Budget>,
    timeline: Option<Timeline>,
    status: ContactStatus)

  datatype ContactField =
    | NameField | EmailField | SubjectField | MessageField | BudgetField | TimelineField | StatusField

  function TrimOpt(v: Option<string>): Option<string> {
    if v.Some? then Some(Trim(v.value)) else None
  }

  /** The setters: every text path trimmed, the e-mail also lower-cased; the enumerations are kept as sent. */
  function Assign(input: ContactInput): (d: ContactInput)
    ensures d.email.Some? <==> input.email.Some?
    ensures d.email.Some? ==> d.email.value == NormaliseEmail(input.email.value)
    ensures d.budget == input.budget && d.timeline == input.timeline && d.status == input.status
  {
    input.(
      name := TrimOpt(input.name),
      email := if input.email.Some? then Some(NormaliseEmail(input.email.value)) else None,
      company := TrimOpt(input.company),
      phone := TrimOpt(input.phone),
      subject := TrimOpt(input.subject),
      message := TrimOpt(input.message))
  }

  /** What the schema stores in a path with a `default` when the submission leaves it out. */
  function WithDefaults(d: ContactInput): (e: ContactInput)
    ensures e.budget.Some? && e.timeline.Some? && e.status.Some?
  {
    d.(budget := Some(d.budget.GetOr("")),
       timeline := Some(d.timeline.GetOr("")),
       status := Some(d.status.GetOr("new")))
  }

  /** Whether document `d` breaks the validator of path `f`; the enumeration validators let an unset path through. */
  predicate Broken(d: ContactInput, f: ContactField) {
    match f
    case NameField => !Given(d.name)
    case EmailField => !Given(d.email) || !MatchesContactEmail(d.email.value)
    case SubjectField => !Given(d.subject)
    case MessageField => !Given(d.message)
    case BudgetField => d.budget.Some? && ParseBudget(d.budget.value).None?
    case TimelineField => d.timeline.Some? && ParseTimeline(d.timeline.value).None?
    case StatusField => d.status.Some? && ParseContactStatus(d.status.value).None?
  }

  predicate Acceptable(d: ContactInput) {
    && !Broken(d, NameField) && !Broken(d, EmailField) && !Broken(d, SubjectField)
    && !Broken(d, MessageField) && !Broken(d, BudgetField) && !Broken(d, TimelineField)
    && !Broken(d, StatusField)
  }

  /** The paths whose validator `d` breaks. */
  function Violations(d: ContactInput): (v: set<ContactField>)
    ensures forall f :: f in v <==> Broken(d, f)
    ensures v == {} <==> Acceptable(d)
  {
    var v := set f: ContactField | Broken(d, f);
    assert v == {} ==> Acceptable(d) by {
      if v == {} {
        assert NameField !in v && EmailField !in v && SubjectField !in v && MessageField !in v;
        assert BudgetField !in v && TimelineField !in v && StatusField !in v;
      }
    }
    v
  }

  /** The stored record of a document that breaks no validator. */
  function Build(d: ContactInput): ContactRecord
    requires Acceptable(d) && d.status.Some?
  {
    ContactRecord(
      name := d.name.value,
      email := d.email.value,
      company := d.company,
      phone := d.phone,
      subject := d.subject.value,
      message := d.message.value,
      budget := if d.budget.Some? then ParseBudget(d.budget.value) else None,
      timeline := if d.timeline.Some? then ParseTimeline(d.timeline.value) else None,
      status := ParseContactStatus(d.status.value).value)
  }

  /** Validation of a document whose setters and defaults have run: every broken path, or the stored record. */
  function Validate(d: ContactInput): (r: Result<ContactRecord, set<ContactField>>)
    requires d.status.Some?
    ensures r.Failure? <==> Violations(d) != {}
    ensures r.Failure? ==> r.error == Violations(d)
  {
    if !Acceptable(d) then Failure(Violations(d)) else Success(Build(d))
  }

  /** A stored document keeps the text it was given. */
  lemma ValidateStoresText(d: ContactInput)
    requires d.status.Some? && Validate(d).Success?
    ensures var r := Validate(d).value;
      && r.name == d.name.value && r.email == d.email.value && r.subject == d.subject.value
      && r.message == d.message.value && r.company == d.company && r.phone == d.phone
  {
  }

  /** A stored document holds the named budget and timeline, none when the path is unset. */
  lemma ValidateStoresBuckets(d: ContactInput)
    requires d.status.Some? && Validate(d).Success?
    ensures var r := Validate(d).value;
      && (d.budget.None? <==> r.budget.None?)
      && (r.budget.Some? ==> BudgetName(r.budget.value) == d.budget.value)
      && (d.timeline.None? <==> r.timeline.None?)
      && (r.timeline.Some? ==> TimelineName(r.timeline.value) == d.timeline.value)
  {
  }

  /** A stored document holds the named status. */
  lemma ValidateStoresStatus(d: ContactInput)
    requires d.status.Some? && Validate(d).Success?
    ensures ContactStatusName(Validate(d).value.status) == d.status.value
  {
  }

  /**
   * Construction plus validation as the schema is written: the setters run,
   * the defaults fill the missing paths, then the validators run. The default
   * `''` of `budget` and `timeline` is not one of their enumeration values.
   */
  function CastContactAsWritten(input: ContactInput): (r: Result<ContactRecord, set<ContactField>>)
    ensures r.Failure? <==> Violations(WithDefaults(Assign(input))) != {}
  {
    Validate(WithDefaults(Assign(input)))
  }

  /** A submission that leaves out the budget is always rejected as written: the default `''` breaks the enumeration. */
  lemma AsWrittenRejectsMissingBudget(input: ContactInput)
    requires input.budget.None?
    ensures CastContactAsWritten(input).Failure?
    ensures BudgetField in CastContactAsWritten(input).error
  {
    var d := WithDefaults(Assign(input));
    assert d.budget == Some("");
    assert Broken(d, BudgetField);
  }

  /** The same for the timeline. */
  lemma AsWrittenRejectsMissingTimeline(input: ContactInput)
    requires input.timeline.None?
    ensures CastContactAsWritten(input).Failure?
    ensures TimelineField in CastContactAsWritten(input).error
  {
    var d := WithDefaults(Assign(input));
    assert d.timeline == Some("");
    assert Broken(d, TimelineField);
  }

  /** The optional enumerations as evidently intended: a missing path or the empty string means no value. */
  function OptionalDefaults(d: ContactInput): (e: ContactInput)
    ensures e.status.Some?
    ensures e.budget.Some? ==> e.budget.value != ""
    ensures e.timeline.Some? ==> e.timeline.value != ""
  {
    d.(budget := if d.budget == Some("") then None else d.budget,
       timeline := if d.timeline == Some("") then None else d.timeline,
       status := Some(d.status.GetOr("new")))
  }

  /** A well-formed stored submission. */
  predicate Valid(r: ContactRecord) {
    && r.name != "" && IsTrimmed(r.name)
    && r.subject != "" && IsTrimmed(r.subject)
    && r.message != "" && IsTrimmed(r.message)
    && MatchesContactEmail(r.email) && Lower(r.email) == r.email
    && (r.company.Some? ==> IsTrimmed(r.company.value))
    && (r.phone.Some? ==> IsTrimmed(r.phone.value))
  }

  /**
   * Construction plus validation with the optional enumerations treated as
   * evidently intended: a missing or empty budget or timeline is stored as
   * absent instead of failing its enumeration.
   */
  function CastContact(input: ContactInput): (r: Result<ContactRecord, set<ContactField>>)
    ensures r.Failure? <==> Violations(OptionalDefaults(Assign(input))) != {}
    ensures r.Failure? ==> r.error == Violations(OptionalDefaults(Assign(input)))
  {
    Validate(OptionalDefaults(Assign(input)))
  }

  /** What the setters leave behind: trimmed text and a lower-case e-mail. */
  predicate Normalised(d: ContactInput) {
    && (d.name.Some? ==> IsTrimmed(d.name.value))
    && (d.subject.Some? ==> IsTrimmed(d.subject.value))
    && (d.message.Some? ==> IsTrimmed(d.message.value))
    && (d.company.Some? ==> IsTrimmed(d.company.value))
    && (d.phone.Some? ==> IsTrimmed(d.phone.value))
    && (d.email.Some? ==> Lower(d.email.value) == d.email.value)
  }

  lemma TrimOptTrimmed(v: Option<string>)
    ensures TrimOpt(v).Some? ==> IsTrimmed(TrimOpt(v).value)
  {
    if v.Some? {
      TrimCharacterisation(v.value);
    }
  }

  /** The setters normalise every submission. */
  lemma AssignNormalises(input: ContactInput)
    ensures Normalised(Assign(input))
  {
    TrimOptTrimmed(input.name);
    TrimOptTrimmed(input.subject);
    TrimOptTrimmed(input.message);
    TrimOptTrimmed(input.company);
    TrimOptTrimmed(input.phone);
    if input.email.Some? {
      NormaliseEmailShape(input.email.value);
    }
  }

  /** A normalised document that passes validation is stored as a valid record. */
  lemma ValidateNormalisedValid(d: ContactInput)
    requires d.status.Some? && Validate(d).Success? && Normalised(d)
    ensures Valid(Validate(d).value)
  {
  }

  /** An accepted submission is stored as a valid record. */
  lemma CastContactValid(input: ContactInput)
    ensures CastContact(input).Success? ==> Valid(CastContact(input).value)
  {
    if CastContact(input).Success? {
      AssignNormalises(input);
      ValidateNormalisedValid(OptionalDefaults(Assign(input)));
    }
  }

  /** An accepted submission stores its required text trimmed. */
  lemma CastContactStoresText(input: ContactInput)
    ensures CastContact(input).Success? ==> var r := CastContact(input).value;
      && Some(r.name) == TrimOpt(input.name) && Some(r.subject) == TrimOpt(input.subject)
      && Some(r.message) == TrimOpt(input.message)
  {
    if CastContact(input).Success? {
      var d := OptionalDefaults(Assign(input));
      assert d.name == TrimOpt(input.name) && d.subject == TrimOpt(input.subject) && d.message == TrimOpt(input.message);
      ValidateStoresText(d);
    }
  }

  /** An accepted submission stores the normalised e-mail and the optional text trimmed. */
  lemma CastContactStoresContact(input: ContactInput)
    ensures CastContact(input).Success? ==> var r := CastContact(input).value;
      && input.email.Some? && r.email == NormaliseEmail(input.email.value)
      && r.company == TrimOpt(input.company) && r.phone == TrimOpt(input.phone)
  {
    if CastContact(input).Success? {
      var a := Assign(input);
      var d := OptionalDefaults(a);
      assert d.email == a.email && d.company == a.company && d.phone == a.phone;
      ValidateStoresText(d);
    }
  }

  /** An accepted submission stores the named buckets, none when a path is missing or empty, and status `new` by default. */
  lemma CastContactStoresEnums(input: ContactInput)
    ensures CastContact(input).Success? ==> var r := CastContact(input).value;
      && (input.budget.None? || input.budget == Some("") <==> r.budget.None?)
      && (r.budget.Some? ==> BudgetName(r.budget.value) == input.budget.value)
      && (input.timeline.None? || input.timeline == Some("") <==> r.timeline.None?)
      && (r.timeline.Some? ==> TimelineName(r.timeline.value) == input.timeline.value)
      && (input.status.None? ==> r.status == New)
      && (input.status.Some? ==> ContactStatusName(r.status) == input.status.value)
  {
    if CastContact(input).Success? {
      var d := OptionalDefaults(Assign(input));
      assert d.budget == (if input.budget == Some("") then None else input.budget);
      assert d.timeline == (if input.timeline == Some("") then None else input.timeline);
      assert d.status == Some(input.status.GetOr("new"));
      ValidateStoresBuckets(d);
      ValidateStoresStatus(d);
    }
  }

  /**
   * The e-mail path passes its validators exactly when, after trimming and
   * lower-casing, it has no white space and an `@` with a character on each side.
   */
  lemma ContactEmailAccepted(input: ContactInput)
    ensures EmailField !in Violations(OptionalDefaults(Assign(input))) <==>
      input.email.Some? && NoWhitespace(NormaliseEmail(input.email.value)) && HasInnerAt(NormaliseEmail(input.email.value))
  {
    if input.email.Some? {
      MatchesContactEmailIff(NormaliseEmail(input.email.value));
    }
  }

  /** A required text path that is missing or only white space is rejected. */
  lemma BlankRequiredRejected(input: ContactInput)
    requires input.name.None? || Trim(input.name.value) == ""
    ensures CastContact(input).Failure? && NameField in CastContact(input).error
  {
  }

  /** A budget or timeline outside its bucket list is rejected. */
  lemma UnknownBucketRejected(input: ContactInput)
    requires input.budget.Some? && input.budget.value != "" && ParseBudget(input.budget.value).None?
    ensures CastContact(input).Failure? && BudgetField in CastContact(input).error
  {
    var d := OptionalDefaults(Assign(input));
    assert d.budget == input.budget;
    assert Broken(d, BudgetField);
  }

  /** The input that re-saves a stored record. */
  function AsInput(r: ContactRecord): ContactInput {
    ContactInput(
      name := Some(r.name), email := Some(r.email), company := r.company, phone := r.phone,
      subject := Some(r.subject), message := Some(r.message),
      budget := if r.budget.Some? then Some(BudgetName(r.budget.value)) else None,
      timeline := if r.timeline.Some? then Some(TimelineName(r.timeline.value)) else None,
      status := Some(ContactStatusName(r.status)))
  }

  /** The setters leave the text of a valid record alone. */
  lemma AssignValidFixed(r: ContactRecord)
    requires Valid(r)
    ensures Assign(AsInput(r)) == AsInput(r)
  {
    var a := AsInput(r);
    assert TrimOpt(a.name) == a.name by { TrimOfTrimmed(r.name); }
    assert TrimOpt(a.subject) == a.subject by { TrimOfTrimmed(r.subject); }
    assert TrimOpt(a.message) == a.message by { TrimOfTrimmed(r.message); }
    assert TrimOpt(a.company) == a.company by {
      if r.company.Some? {
        TrimOfTrimmed(r.company.value);
      }
    }
    assert TrimOpt(a.phone) == a.phone by {
      if r.phone.Some? {
        TrimOfTrimmed(r.phone.value);
      }
    }
    assert NormaliseEmail(r.email) == r.email by {
      MatchesContactEmailIff(r.email);
      TrimOfTrimmed(r.email);
    }
  }

  /** The names of a valid record break no validator and the defaults change nothing. */
  lemma ValidIsAcceptable(r: ContactRecord)
    requires Valid(r)
    ensures OptionalDefaults(AsInput(r)) == AsInput(r)
    ensures Acceptable(AsInput(r))
  {
    if r.budget.Some? {
      ParseBudgetName(r.budget.value);
    }
    if r.timeline.Some? {
      ParseTimelineName(r.timeline.value);
    }
    ParseContactStatusName(r.status);
  }

  /** A valid stored record, offered as a document, is stored unchanged. */
  lemma ValidateValid(r: ContactRecord)
    requires Valid(r)
    ensures Validate(AsInput(r)) == Success(r)
  {
    ValidIsAcceptable(r);
    if r.budget.Some? {
      ParseBudgetName(r.budget.value);
    }
    if r.timeline.Some? {
      ParseTimelineName(r.timeline.value);
    }
    ParseContactStatusName(r.status);
  }

  /** A valid stored submission passes validation again and comes back unchanged. */
  lemma RecastValid(r: ContactRecord)
    requires Valid(r)
    ensures CastContact(AsInput(r)) == Success(r)
  {
    AssignValidFixed(r);
    ValidIsAcceptable(r);
    ValidateValid(r);
  }
}
