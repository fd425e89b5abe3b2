/** `validateForm`: every check the job form runs before it submits, each
    writing at most one error under a key, with the draft valid exactly when
    no key was written. */
module Validation {
  import opened JsText
  import opened Optional
  import opened Patterns
  import opened JobDraft

  /** Where an error is shown: a field of the draft, or the label or the date
      of important-date entry `index` (keyed "importantDates.<index>.label"
      and "importantDates.<index>.date" in the form's error record). */
  datatype ErrorKey = Field(name: FieldName) | DateLabel(index: nat) | DateDate(index: nat)

  /** What is wrong; stands for the message text shown under the input. */
  datatype Problem = Required | TooShort(minimum: nat) | Malformed | NotInFuture

  type Errors = map<ErrorKey, Problem>

  /** The browser's dates at the moment of a check: the current time, how
      `new Date(text)` reads a date string (`None` for an Invalid Date), and
      `toISOString` of a time. */
  datatype Clock = Clock(now: int, parse: JsString -> Option<int>, toIso: int -> JsString)

  const MinContentLength: nat := 100
  const MinDescriptionLength: nat := 100
  const MinEligibilityLength: nat := 50

  /** `new Date(s) <= new Date()`. A string that does not parse gives an
      Invalid Date, whose time is NaN, and every comparison with NaN is false. */
  predicate NotAfterNow(clock: Clock, s: JsString) {
    match clock.parse(s)
    case Some(t) => t <= clock.now
    case None => false
  }

  /** The error stored under `k`, if any. */
  function Lookup(errors: Errors, k: ErrorKey): Option<Problem> {
    if k in errors then Some(errors[k]) else None
  }

  // ---------------------------------------------------------------------
  // What each key should report

  /** The error the form reports for field `f` of `d`. */
  function FieldRule(d: Draft, f: FieldName, clock: Clock): Option<Problem> {
    match f
    case Title => if d.title == [] then Some(Required) else None
    case Organization => if d.organization == [] then Some(Required) else None
    case Location => if d.location == [] then Some(Required) else None
    case Slug =>
      if d.slug == [] then Some(Required) else if !MatchSlug(d.slug) then Some(Malformed) else None
    case Salary =>
      if d.salary == [] then Some(Required) else if !MatchSalary(d.salary) then Some(Malformed) else None
    case ApplyLink =>
      if d.applyLink == [] then Some(Required) else if !IsHttpUrl(d.applyLink) then Some(Malformed) else None
    case TotalVacancy =>
      if d.totalVacancy == [] then Some(Required) else if !IsDigits(d.totalVacancy) then Some(Malformed) else None
    case HtmlContent =>
      if |d.htmlContent| < MinContentLength then Some(TooShort(MinContentLength)) else None
    case Description =>
      if |d.description| < MinDescriptionLength then Some(TooShort(MinDescriptionLength)) else None
    case Eligibility =>
      if |d.eligibility| < MinEligibilityLength then Some(TooShort(MinEligibilityLength)) else None
    case LastDate =>
      if d.lastDate == [] then Some(Required)
      else if NotAfterNow(clock, d.lastDate) then Some(NotInFuture) else None
    case AgeLimit =>
      if d.ageLimit != [] && !MatchAgeRange(d.ageLimit) then Some(Malformed) else None
    case SourceUrl =>
      if d.sourceUrl != [] && !IsHttpUrl(d.sourceUrl) then Some(Malformed) else None
    case Qualification => None
    case Experience => None
    case Tags => None
    case ImportantDates => None
    case MetaTitle => None
    case MetaDescription => None
  }

  /** The error the form reports for an important-date key, given the list. */
  function EntryRule(ds: seq<ImportantDate>, k: ErrorKey, clock: Clock): Option<Problem> {
    match k
    case Field(_) => None
    case DateLabel(i) =>
      if i < |ds| && ds[i].caption == [] then Some(Required) else None
    case DateDate(i) =>
      if i >= |ds| then None
      else if ds[i].date == [] then Some(Required)
      else if NotAfterNow(clock, ds[i].date) then Some(NotInFuture)
      else None
  }

  /** The error the form reports under `k`. */
  function Rule(d: Draft, k: ErrorKey, clock: Clock): Option<Problem> {
    match k
    case Field(f) => FieldRule(d, f, clock)
    case _ => EntryRule(d.importantDates, k, clock)
  }

  // ---------------------------------------------------------------------
  // The checks, in the order the form runs them

  /** One `if (failed) newErrors[key] = message` of the form. */
  datatype Check = Check(failed: bool, problem: Problem)

  /** What a key holds after its checks, taken in order: the problem of the last
      failed check, since a later assignment overwrites an earlier one. */
  function LastFailure(cs: seq<Check>): Option<Problem> {
    if |cs| == 0 then None
    else
      match LastFailure(cs[1..])
      case Some(p) => Some(p)
      case None => if cs[0].failed then Some(cs[0].problem) else None
  }

  /** The checks the form runs on field `f`, in the order it runs them: the
      presence and length checks first, the format checks (each guarded by a
      non-empty value) after. Checks on different keys never interact, so
      they are grouped by key here. */
  function FieldChecks(d: Draft, f: FieldName, clock: Clock): seq<Check> {
    match f
    case Title => [Check(d.title == [], Required)]
    case Slug => [Check(d.slug == [], Required), Check(d.slug != [] && !MatchSlug(d.slug), Malformed)]
    case HtmlContent => [Check(|d.htmlContent| < MinContentLength, TooShort(MinContentLength))]
    case Organization => [Check(d.organization == [], Required)]
    case Location => [Check(d.location == [], Required)]
    case Salary => [Check(d.salary == [], Required), Check(d.salary != [] && !MatchSalary(d.salary), Malformed)]
    case LastDate =>
      [Check(d.lastDate == [], Required), Check(d.lastDate != [] && NotAfterNow(clock, d.lastDate), NotInFuture)]
    case ApplyLink =>
      [Check(d.applyLink == [], Required), Check(d.applyLink != [] && !IsHttpUrl(d.applyLink), Malformed)]
    case Description => [Check(|d.description| < MinDescriptionLength, TooShort(MinDescriptionLength))]
    case Eligibility => [Check(|d.eligibility| < MinEligibilityLength, TooShort(MinEligibilityLength))]
    case TotalVacancy =>
      [Check(d.totalVacancy == [], Required), Check(d.totalVacancy != [] && !IsDigits(d.totalVacancy), Malformed)]
    case AgeLimit => [Check(d.ageLimit != [] && !MatchAgeRange(d.ageLimit), Malformed)]
    case SourceUrl => [Check(d.sourceUrl != [] && !IsHttpUrl(d.sourceUrl), Malformed)]
    case _ => []
  }

  /** Running a field's checks in order gives what `FieldRule` says. */
  lemma FieldChecksFollowRule(d: Draft, f: FieldName, clock: Clock)
    ensures LastFailure(FieldChecks(d, f, clock)) == FieldRule(d, f, clock)
  {
    var cs := FieldChecks(d, f, clock);
    if |cs| == 2 {
      assert LastFailure(cs[1..][1..]) == None;
      assert LastFailure(cs[1..]) == if cs[1].failed then Some(cs[1].problem) else None;
    } else if |cs| == 1 {
      assert LastFailure(cs[1..]) == None;
    }
  }

  const AllFields: seq<FieldName> :=
    [Title, Slug, HtmlContent, Organization, Location, Salary, Qualification, Experience,
     LastDate, ApplyLink, Description, Eligibility, TotalVacancy, AgeLimit, Tags,
     ImportantDates, MetaTitle, MetaDescription, SourceUrl]

  /** Every field name is one of `AllFields`. */
  lemma InAllFields(f: FieldName)
    ensures f in AllFields
  {
    match f {
      case Title => case Slug => case HtmlContent => case Organization =>
      case Location => case Salary => case Qualification => case Experience =>
      case LastDate => case ApplyLink => case Description => case Eligibility =>
      case TotalVacancy => case AgeLimit => case Tags => case ImportantDates =>
      case MetaTitle => case MetaDescription => case SourceUrl =>
    }
  }

  /** The checks of the fields `fs`, run field after field: each field's key
      ends up holding what `FieldRule` says, and no other key is written. */
  function FieldErrors(d: Draft, fs: seq<FieldName>, clock: Clock): (errors: Errors)
    ensures forall k :: Lookup(errors, k) ==
              if k.Field? && k.name in fs then FieldRule(d, k.name, clock) else None
  {
    if |fs| == 0 then map[]
    else
      var f := fs[|fs| - 1];
      var e := FieldErrors(d, fs[..|fs| - 1], clock);
      FieldChecksFollowRule(d, f, clock);
      var r := match LastFailure(FieldChecks(d, f, clock))
               case Some(p) => e[Field(f) := p]
               case None => e;
      assert forall k :: Lookup(r, k) ==
               if k.Field? && k.name in fs then FieldRule(d, k.name, clock) else None by {
        forall k
          ensures Lookup(r, k) ==
                  if k.Field? && k.name in fs then FieldRule(d, k.name, clock) else None
        {
          assert fs == fs[..|fs| - 1] + [f];
          assert Lookup(e, k) ==
                 if k.Field? && k.name in fs[..|fs| - 1] then FieldRule(d, k.name, clock) else None;
        }
      }
      r
  }

  /** `validateForm` up to important-date entry `n`: all field checks, then
      the checks of the first `n` entries in list order (a missing label; a
      missing date, or else one not in the future). */
  function DateErrors(d: Draft, n: nat, clock: Clock): (errors: Errors)
    requires n <= |d.importantDates|
    ensures forall k :: Lookup(errors, k) ==
              match k
              case Field(f) => FieldRule(d, f, clock)
              case _ => EntryRule(d.importantDates[..n], k, clock)
  {
    var ds := d.importantDates;
    if n == 0 then
      var e := FieldErrors(d, AllFields, clock);
      assert forall k :: Lookup(e, k) ==
               match k
               case Field(f) => FieldRule(d, f, clock)
               case _ => EntryRule(ds[..0], k, clock) by {
        forall k
          ensures Lookup(e, k) ==
                  match k
                  case Field(f) => FieldRule(d, f, clock)
                  case _ => EntryRule(ds[..0], k, clock)
        {
          if k.Field? {
            InAllFields(k.name);
          }
        }
      }
      e
    else
      var e := DateErrors(d, n - 1, clock);
      var entry := ds[n - 1];
      var e1 := if entry.caption == [] then e[DateLabel(n - 1) := Required] else e;
      var e2 := if entry.date == [] then e1[DateDate(n - 1) := Required]
                else if NotAfterNow(clock, entry.date) then e1[DateDate(n - 1) := NotInFuture]
                else e1;
      assert forall k :: Lookup(e2, k) ==
               match k
               case Field(f) => FieldRule(d, f, clock)
               case _ => EntryRule(ds[..n], k, clock) by {
        forall k
          ensures Lookup(e2, k) ==
                  match k
                  case Field(f) => FieldRule(d, f, clock)
                  case _ => EntryRule(ds[..n], k, clock)
        {
          assert Lookup(e, k) ==
                 match k
                 case Field(f) => FieldRule(d, f, clock)
                 case _ => EntryRule(ds[..n - 1], k, clock);
          if !k.Field? && k.index < n - 1 {
            assert ds[..n][k.index] == ds[..n - 1][k.index];
          } else if !k.Field? && k.index == n - 1 {
            assert ds[..n][n - 1] == entry;
          }
        }
      }
      e2
  }

  /** `validateForm`'s error record: every key reports what `Rule` says. */
  function Validate(d: Draft, clock: Clock): (errors: Errors)
    ensures forall k :: Lookup(errors, k) == Rule(d, k, clock)
  {
    var ds := d.importantDates;
    assert ds[..|ds|] == ds;
    DateErrors(d, |ds|, clock)
  }

  /** `validateForm()`'s result: no key was written. */
  predicate IsValid(d: Draft, clock: Clock) {
    |Validate(d, clock)| == 0
  }
}
