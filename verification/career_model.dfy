/**
 * The job-application schema: eight required text paths, an e-mail that must
 * match `/^\w+([\.-]?\w+)*@\w+([\.-]?\w+)*(\.\w{2,3})+$/`, an optional cover
 * letter and résumé, and the review status with its default.
 */
module CareerModel {
  import opened Wrappers
  import opened Text
  import opened Schema
  import ContactModel

  /** The class `[\.-]`. */
  predicate IsSep(c: char) {
    c == '.' || c == '-'
  }

  /**
   * `\w+([\.-]?\w+)*`: word characters, with single `.` or `-` separators
   * between them; it starts and ends with a word character.
   */
  predicate DottedWord(s: string) {
    && |s| > 0 && IsWordChar(s[0]) && IsWordChar(s[|s| - 1])
    && (forall i :: 0 <= i < |s| ==> IsWordChar(s[i]) || IsSep(s[i]))
    && (forall i :: 0 <= i < |s| - 1 ==> IsSep(s[i]) ==> IsWordChar(s[i + 1]))
  }

  /**
   * `\w+([\.-]?\w+)*(\.\w{2,3})+`: a dotted word whose last separator is a
   * `.` followed by two or three word characters.
   */
  predicate CareerDomain(d: string) {
    && DottedWord(d)
    && exists j :: 0 < j < |d| && d[j] == '.' && 2 <= |d| - j - 1 <= 3
        && forall k :: j < k < |d| ==> IsWordChar(d[k])
  }

  /** The whole pattern: a dotted word, `@`, a career domain. */
  predicate CareerEmail(s: string) {
    exists i :: 0 <= i < |s| && s[i] == '@' && DottedWord(s[..i]) && CareerDomain(s[i + 1..])
  }

  /** Tests `DottedWord` in one pass. */
  method ScanDottedWord(s: string) returns (ok: bool)
    ensures ok <==> DottedWord(s)
  {
    if |s| == 0 || !IsWordChar(s[0]) {
      return false;
    }
    var k := 1;
    while k < |s|
      invariant 1 <= k <= |s|
      invariant forall i :: 0 <= i < k ==> IsWordChar(s[i]) || IsSep(s[i])
      invariant forall i :: 0 <= i < k - 1 ==> IsSep(s[i]) ==> IsWordChar(s[i + 1])
    {
      if !IsWordChar(s[k]) && !IsSep(s[k]) {
        return false;
      }
      if IsSep(s[k - 1]) && !IsWordChar(s[k]) {
        return false;
      }
      k := k + 1;
    }
    ok := IsWordChar(s[|s| - 1]);
  }

  /** Tests `CareerDomain`: a dotted word, then a look at the text after its last separator. */
  method ScanDomain(d: string) returns (ok: bool)
    ensures ok <==> CareerDomain(d)
  {
    var dotted := ScanDottedWord(d);
    if !dotted {
      return false;
    }
    var j := |d| - 1;
    while j >= 0 && IsWordChar(d[j])
      invariant -1 <= j < |d|
      invariant forall k :: j < k < |d| ==> IsWordChar(d[k])
    {
      j := j - 1;
    }
    if j < 0 {
      return false;
    }
    ok := 0 < j && d[j] == '.' && 2 <= |d| - j - 1 <= 3;
  }

  /** Tests `CareerEmail`: the part before the first `@` and the part after it. */
  method MatchCareerEmail(s: string) returns (ok: bool)
    ensures ok <==> CareerEmail(s)
  {
    var i := 0;
    while i < |s| && s[i] != '@'
      invariant 0 <= i <= |s|
      invariant forall j :: 0 <= j < i ==> s[j] != '@'
    {
      i := i + 1;
    }
    if i == |s| {
      return false;
    }
    var local := ScanDottedWord(s[..i]);
    var domain := ScanDomain(s[i + 1..]);
    ok := local && domain;
    assert CareerEmail(s) ==> DottedWord(s[..i]) && CareerDomain(s[i + 1..]) by {
      if CareerEmail(s) {
        var k :| 0 <= k < |s| && s[k] == '@' && DottedWord(s[..k]) && CareerDomain(s[k + 1..]);
        LocalPartEndsAtFirstAt(s, i, k);
      }
    }
  }

  /** A dotted word holds no `@`, so a matching local part ends at the first `@`. */
  lemma LocalPartEndsAtFirstAt(s: string, i: nat, k: nat)
    requires i < |s| && s[i] == '@' && forall j :: 0 <= j < i ==> s[j] != '@'
    requires k < |s| && s[k] == '@' && DottedWord(s[..k])
    ensures k == i
  {
  }

  /** A dotted word holds no white space. */
  lemma DottedWordNoWhitespace(w: string)
    requires DottedWord(w)
    ensures NoWhitespace(w)
  {
  }

  /** Every address the career pattern accepts also passes the contact form's `^\S+@\S+$`. */
  lemma CareerEmailIsContactEmail(s: string)
    requires CareerEmail(s)
    ensures ContactModel.MatchesContactEmail(s)
  {
    var i :| 0 <= i < |s| && s[i] == '@' && DottedWord(s[..i]) && CareerDomain(s[i + 1..]);
    DottedWordNoWhitespace(s[..i]);
    DottedWordNoWhitespace(s[i + 1..]);
  }

  /** `a@b.com` is accepted. */
  lemma AcceptsThreeLetterEnding(s: string)
    requires s == "a@b.com"
    ensures CareerEmail(s)
  {
    var d := s[2..];
    assert s[..1] == "a" && d == "b.com";
    assert d[1] == '.' && forall k :: 1 < k < |d| ==> IsWordChar(d[k]);
    assert CareerDomain(d);
  }

  /** A domain whose last separator is a `.` has that `.` as its only possible final segment start. */
  lemma DomainEndingUnique(d: string, j: nat)
    requires j < |d| && d[j] == '.' && forall k :: j < k < |d| ==> IsWordChar(d[k])
    ensures CareerDomain(d) ==> 2 <= |d| - j - 1 <= 3
  {
    if CareerDomain(d) {
      var j' :| 0 < j' < |d| && d[j'] == '.' && 2 <= |d| - j' - 1 <= 3
        && forall k :: j' < k < |d| ==> IsWordChar(d[k]);
    }
  }

  /** An address with a single `@`, wherever it stands, matches exactly when the text before it is a dotted word and the text after it a career domain. */
  lemma SingleAtSplits(s: string, i: nat)
    requires i < |s| && s[i] == '@' && forall k :: 0 <= k < |s| && k != i ==> s[k] != '@'
    ensures CareerEmail(s) <==> DottedWord(s[..i]) && CareerDomain(s[i + 1..])
  {
    if CareerEmail(s) {
      var k :| 0 <= k < |s| && s[k] == '@' && DottedWord(s[..k]) && CareerDomain(s[k + 1..]);
      assert k == i;
    }
  }

  /** `a@b.info` is rejected: the final segment has four characters. */
  lemma RejectsFourLetterEnding(s: string)
    requires s == "a@b.info"
    ensures !CareerEmail(s)
  {
    var d := s[2..];
    assert d == "b.info";
    SingleAtSplits(s, 1);
    DomainEndingUnique(d, 1);
  }

  /** `a@b.c` is rejected: the final segment has one character. */
  lemma RejectsOneLetterEnding(s: string)
    requires s == "a@b.c"
    ensures !CareerEmail(s)
  {
    var d := s[2..];
    assert d == "b.c";
    SingleAtSplits(s, 1);
    DomainEndingUnique(d, 1);
  }

  datatype CareerStatus = Pending | Reviewed | Shortlisted | Rejected

  function CareerStatusName(st: CareerStatus): string {
    match st
    case Pending => "pending"
    case Reviewed => "reviewed"
    case Shortlisted => "shortlisted"
    case Rejected => "rejected"
  }

  /** The `status` enumeration: only the four names are accepted. */
  function ParseCareerStatus(s: string): (r: Option<CareerStatus>)
    ensures r.Some? ==> CareerStatusName(r.value) == s
  {
    if s == "pending" then Some(Pending)
    else if s == "reviewed" then Some(Reviewed)
    else if s == "shortlisted" then Some(Shortlisted)
    else if s == "rejected" then Some(Rejected)
    else None
  }

  lemma ParseCareerStatusName(st: CareerStatus)
    ensures ParseCareerStatus(CareerStatusName(st)) == Some(st)
  {
  }

  /** The uploaded résumé: none of its parts is required. */
  datatype Resume = Resume(data: Option<seq<bv8>>, contentType: Option<string>, filename: Option<string>)

  /** The paths of an application as sent; every path may be missing. */
  datatype CareerInput = CareerInput(
    name: Option<string>,
    email: Option<string>,
    phone: Option<string>,
    position: Option<string>,
    experience: Option<string>,
    currentCompany: Option<string>,
    expectedSalary: Option<string>,
    noticePeriod: Option<string>,
    coverLetter: Option<string>,
    resume: Option<Resume>,
    status: Option<string>)

  datatype CareerRecord = CareerRecord(
    name: string,
    email: string,
    phone: string,
    position: string,
    experience: string,
    currentCompany: string,
    expectedSalary: string,
    noticePeriod: string,
    coverLetter: Option<string>,
    resume: Option<Resume>,
    status: CareerStatus)

  datatype CareerField =
    | NameField | EmailField | PhoneField | PositionField | ExperienceField
    | CurrentCompanyField | ExpectedSalaryField | NoticePeriodField | StatusField

  /** The value sent for a text path that carries a validator. */
  function PathValue(input: CareerInput, f: CareerField): Option<string> {
    match f
    case NameField => input.name
    case EmailField => input.email
    case PhoneField => input.phone
    case PositionField => input.position
    case ExperienceField => input.experience
    case CurrentCompanyField => input.currentCompany
    case ExpectedSalaryField => input.expectedSalary
    case NoticePeriodField => input.noticePeriod
    case StatusField => input.status
  }

  /** Whether `input` breaks the validator of path `f`; every path but `status` is required. */
  predicate Broken(input: CareerInput, f: CareerField) {
    if f == StatusField then input.status.Some? && ParseCareerStatus(input.status.value).None?
    else if f == EmailField then !Given(input.email) || !CareerEmail(input.email.value)
    else !Given(PathValue(input, f))
  }

  predicate Acceptable(input: CareerInput) {
    && !Broken(input, NameField) && !Broken(input, EmailField) && !Broken(input, PhoneField)
    && !Broken(input, PositionField) && !Broken(input, ExperienceField)
    && !Broken(input, CurrentCompanyField) && !Broken(input, ExpectedSalaryField)
    && !Broken(input, NoticePeriodField) && !Broken(input, StatusField)
  }

  /** The paths whose validator `input` breaks. */
  function Violations(input: CareerInput): (v: set<CareerField>)
    ensures forall f :: f in v <==> Broken(input, f)
    ensures v == {} <==> Acceptable(input)
  {
    var v := set f: CareerField | Broken(input, f);
    assert v == {} ==> Acceptable(input) by {
      if v == {} {
        assert NameField !in v && EmailField !in v && PhoneField !in v && PositionField !in v;
        assert ExperienceField !in v && CurrentCompanyField !in v && ExpectedSalaryField !in v;
        assert NoticePeriodField !in v && StatusField !in v;
      }
    }
    v
  }

  /** A well-formed stored application. */
  predicate Valid(r: CareerRecord) {
    && r.name != "" && CareerEmail(r.email) && r.phone != "" && r.position != ""
    && r.experience != "" && r.currentCompany != "" && r.expectedSalary != "" && r.noticePeriod != ""
  }

  /** The stored record of an application that breaks no validator; the status defaults to `pending`. */
  function Build(input: CareerInput): CareerRecord
    requires Acceptable(input)
  {
    CareerRecord(
      name := input.name.value,
      email := input.email.value,
      phone := input.phone.value,
      position := input.position.value,
      experience := input.experience.value,
      currentCompany := input.currentCompany.value,
      expectedSalary := input.expectedSalary.value,
      noticePeriod := input.noticePeriod.value,
      coverLetter := input.coverLetter,
      resume := input.resume,
      status := if input.status.Some? then ParseCareerStatus(input.status.value).value else Pending)
  }

  /** Construction plus validation (`new Career(...)` then `save()`). */
  function CastCareer(input: CareerInput): (r: Result<CareerRecord, set<CareerField>>)
    ensures r.Failure? <==> Violations(input) != {}
    ensures r.Failure? ==> r.error == Violations(input)
    ensures r.Success? ==> Valid(r.value)
  {
    if !Acceptable(input) then Failure(Violations(input)) else Success(Build(input))
  }

  /** A missing or empty required path is always reported. */
  lemma MissingRequiredRejected(input: CareerInput, f: CareerField)
    requires f != StatusField && !Given(PathValue(input, f))
    ensures CastCareer(input).Failure? && f in CastCareer(input).error
  {
  }

  /** An application whose e-mail does not match the pattern is rejected. */
  lemma BadEmailRejected(input: CareerInput)
    requires input.email.Some? && !CareerEmail(input.email.value)
    ensures CastCareer(input).Failure? && EmailField in CastCareer(input).error
  {
  }

  /** The cover letter and the résumé never decide acceptance, and are stored as sent. */
  lemma OptionalPathsFree(input: CareerInput, coverLetter: Option<string>, resume: Option<Resume>)
    ensures var other := input.(coverLetter := coverLetter, resume := resume);
      && Violations(other) == Violations(input)
      && (CastCareer(input).Success? ==>
            CastCareer(other) == Success(CastCareer(input).value.(coverLetter := coverLetter, resume := resume)))
  {
    var other := input.(coverLetter := coverLetter, resume := resume);
    assert forall f :: PathValue(other, f) == PathValue(input, f);
  }

  /** What an accepted application stores: the text as sent, the named status, `pending` by default. */
  lemma CastCareerStores(input: CareerInput)
    requires CastCareer(input).Success?
    ensures var r := CastCareer(input).value;
      && Some(r.name) == input.name && Some(r.email) == input.email && Some(r.phone) == input.phone
      && Some(r.position) == input.position && Some(r.experience) == input.experience
      && Some(r.currentCompany) == input.currentCompany && Some(r.expectedSalary) == input.expectedSalary
      && Some(r.noticePeriod) == input.noticePeriod
      && r.coverLetter == input.coverLetter && r.resume == input.resume
      && (input.status.None? ==> r.status == Pending)
      && (input.status.Some? ==> CareerStatusName(r.status) == input.status.value)
  {
  }

  /** The input that re-saves a stored record. */
  function AsInput(r: CareerRecord): CareerInput {
    CareerInput(
      name := Some(r.name), email := Some(r.email), phone := Some(r.phone), position := Some(r.position),
      experience := Some(r.experience), currentCompany := Some(r.currentCompany),
      expectedSalary := Some(r.expectedSalary), noticePeriod := Some(r.noticePeriod),
      coverLetter := r.coverLetter, resume := r.resume, status := Some(CareerStatusName(r.status)))
  }

  /** A valid stored application passes validation again and comes back unchanged. */
  lemma RecastValid(r: CareerRecord)
    requires Valid(r)
    ensures CastCareer(AsInput(r)) == Success(r)
  {
    ParseCareerStatusName(r.status);
  }
}
