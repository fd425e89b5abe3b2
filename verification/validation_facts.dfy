/** What `validateForm` promises, stated field by field and as a whole. */
module ValidationFacts {
  import opened JsText
  import opened Optional
  import opened Patterns
  import opened JobDraft
  import opened Validation

  /** The fields the form insists on. */
  const RequiredFields: set<FieldName> :=
    {Title, Slug, HtmlContent, Organization, Location, Salary, LastDate, ApplyLink,
     Description, Eligibility, TotalVacancy}

  /** An important-date entry that passes: labelled, dated, and dated after now. */
  predicate EntryAcceptable(e: ImportantDate, clock: Clock) {
    e.caption != [] && e.date != [] && !NotAfterNow(clock, e.date)
  }

  /** Every requirement on a submittable job, in plain terms. */
  predicate Acceptable(d: Draft, clock: Clock) {
    && d.title != []
    && SlugShape(d.slug)
    && |d.htmlContent| >= MinContentLength
    && d.organization != []
    && d.location != []
    && MatchSalary(d.salary)
    && d.lastDate != [] && !NotAfterNow(clock, d.lastDate)
    && IsHttpUrl(d.applyLink)
    && |d.description| >= MinDescriptionLength
    && |d.eligibility| >= MinEligibilityLength
    && IsDigits(d.totalVacancy)
    && (d.ageLimit == [] || MatchAgeRange(d.ageLimit))
    && (d.sourceUrl == [] || IsHttpUrl(d.sourceUrl))
    && forall i :: 0 <= i < |d.importantDates| ==> EntryAcceptable(d.importantDates[i], clock)
  }

  /** A draft none of whose required-text checks fails has those fields. */
  lemma NoPresenceFailure(d: Draft, clock: Clock)
    requires forall f :: FieldRule(d, f, clock) == None
    ensures d.title != [] && |d.htmlContent| >= MinContentLength
    ensures d.organization != [] && d.location != []
    ensures d.lastDate != [] && !NotAfterNow(clock, d.lastDate)
    ensures |d.description| >= MinDescriptionLength && |d.eligibility| >= MinEligibilityLength
  {
    assert FieldRule(d, Title, clock) == None && FieldRule(d, HtmlContent, clock) == None;
    assert FieldRule(d, Organization, clock) == None && FieldRule(d, Location, clock) == None;
    assert FieldRule(d, LastDate, clock) == None;
    assert FieldRule(d, Description, clock) == None && FieldRule(d, Eligibility, clock) == None;
  }

  /** A draft none of whose format checks fails has well-formed fields. */
  lemma NoFormatFailure(d: Draft, clock: Clock)
    requires forall f :: FieldRule(d, f, clock) == None
    ensures SlugShape(d.slug) && MatchSalary(d.salary) && IsHttpUrl(d.applyLink)
    ensures IsDigits(d.totalVacancy)
    ensures d.ageLimit == [] || MatchAgeRange(d.ageLimit)
    ensures d.sourceUrl == [] || IsHttpUrl(d.sourceUrl)
  {
    SlugMatchesShape(d.slug);
    assert FieldRule(d, Slug, clock) == None && FieldRule(d, Salary, clock) == None;
    assert FieldRule(d, ApplyLink, clock) == None && FieldRule(d, TotalVacancy, clock) == None;
    assert FieldRule(d, AgeLimit, clock) == None && FieldRule(d, SourceUrl, clock) == None;
  }

  /** A draft with no error meets every requirement. */
  lemma ValidIsAcceptable(d: Draft, clock: Clock)
    requires IsValid(d, clock)
    ensures Acceptable(d, clock)
  {
    var e := Validate(d, clock);
    var ds := d.importantDates;
    assert forall k :: Rule(d, k, clock) == None by {
      forall k ensures Rule(d, k, clock) == None {
        assert k !in e;
        assert Lookup(e, k) == None;
      }
    }
    forall f ensures FieldRule(d, f, clock) == None {
      assert Rule(d, Field(f), clock) == None;
    }
    NoPresenceFailure(d, clock);
    NoFormatFailure(d, clock);
    forall i | 0 <= i < |ds|
      ensures EntryAcceptable(ds[i], clock)
    {
      assert Rule(d, DateLabel(i), clock) == None && Rule(d, DateDate(i), clock) == None;
    }
  }

  /** A draft that meets every requirement has no error. */
  lemma AcceptableIsValid(d: Draft, clock: Clock)
    requires Acceptable(d, clock)
    ensures IsValid(d, clock)
  {
    var e := Validate(d, clock);
    SlugMatchesShape(d.slug);
    forall k
      ensures k !in e
    {
      assert Lookup(e, k) == Rule(d, k, clock);
    }
    assert e.Keys == {};
  }

  /** The form accepts a draft exactly when it meets every requirement: the
      error record is empty if and only if no check fails. */
  lemma ValidExactlyWhenAcceptable(d: Draft, clock: Clock)
    ensures IsValid(d, clock) <==> Acceptable(d, clock)
  {
    if IsValid(d, clock) {
      ValidIsAcceptable(d, clock);
    }
    if Acceptable(d, clock) {
      AcceptableIsValid(d, clock);
    }
  }

  /** An empty text field is reported exactly when the form requires it: the
      optional fields (age limit, source URL, meta title and description)
      may be left empty. */
  lemma EmptyFieldReportedIffRequired(d: Draft, f: FieldName, clock: Clock)
    requires Get(d, f) == Text([])
    ensures Field(f) in Validate(d, clock) <==> f in RequiredFields
    ensures f in RequiredFields ==>
              Validate(d, clock)[Field(f)] ==
                match f
                case HtmlContent => TooShort(MinContentLength)
                case Description => TooShort(MinDescriptionLength)
                case Eligibility => TooShort(MinEligibilityLength)
                case _ => Required
  {
    assert Lookup(Validate(d, clock), Field(f)) == FieldRule(d, f, clock);
  }

  /** The blank form's fields fail exactly the required-field checks. */
  lemma BlankFieldRule(f: FieldName, clock: Clock)
    ensures FieldRule(Blank, f, clock).Some? <==> f in RequiredFields
  {
    match f {
      case Title => case Slug => case HtmlContent => case Organization =>
      case Location => case Salary => case Qualification => case Experience =>
      case LastDate => case ApplyLink => case Description => case Eligibility =>
      case TotalVacancy => case AgeLimit => case Tags => case ImportantDates =>
      case MetaTitle => case MetaDescription => case SourceUrl =>
    }
  }

  /** The blank form of a new job reports the required fields and nothing else. */
  lemma BlankDraftReportsRequiredFields(clock: Clock)
    ensures forall k :: k in Validate(Blank, clock) <==> k.Field? && k.name in RequiredFields
  {
    forall k
      ensures k in Validate(Blank, clock) <==> k.Field? && k.name in RequiredFields
    {
      assert Lookup(Validate(Blank, clock), k) == Rule(Blank, k, clock);
      if k.Field? {
        BlankFieldRule(k.name, clock);
      }
    }
  }

  /** The length rules: the content and the description need 100 code units,
      the eligibility 50; an empty text is just too short. */
  lemma LengthThresholds(d: Draft, clock: Clock)
    ensures Field(HtmlContent) in Validate(d, clock) <==> |d.htmlContent| < 100
    ensures Field(Description) in Validate(d, clock) <==> |d.description| < 100
    ensures Field(Eligibility) in Validate(d, clock) <==> |d.eligibility| < 50
  {
    var e := Validate(d, clock);
    assert Lookup(e, Field(HtmlContent)) == FieldRule(d, HtmlContent, clock);
    assert Lookup(e, Field(Description)) == FieldRule(d, Description, clock);
    assert Lookup(e, Field(Eligibility)) == FieldRule(d, Eligibility, clock);
  }

  /** The slug is reported exactly when it is not of slug shape: empty, or
      holding anything but lower-case letters, digits and single inner
      hyphens. */
  lemma SlugReportedIffMisshapen(d: Draft, clock: Clock)
    ensures Field(Slug) in Validate(d, clock) <==> !SlugShape(d.slug)
  {
    assert Lookup(Validate(d, clock), Field(Slug)) == FieldRule(d, Slug, clock);
    SlugMatchesShape(d.slug);
  }

  /** The salary is reported exactly when it is not in the language of
      /^[0-9]+(\.[0-9]+)?\s*[A-Z]{3}$/ (which excludes the empty string). */
  lemma SalaryReportedIffOutsidePattern(d: Draft, clock: Clock)
    ensures Field(Salary) in Validate(d, clock) <==> !SalaryLang(d.salary)
  {
    assert Lookup(Validate(d, clock), Field(Salary)) == FieldRule(d, Salary, clock);
    SalaryMatchesLang(d.salary);
  }

  /** The number of vacancies and the apply link are required and checked;
      the age limit and the source URL are checked only when given. */
  lemma FormatRules(d: Draft, clock: Clock)
    ensures Field(TotalVacancy) in Validate(d, clock) <==> !IsDigits(d.totalVacancy)
    ensures Field(ApplyLink) in Validate(d, clock) <==> !IsHttpUrl(d.applyLink)
    ensures Field(AgeLimit) in Validate(d, clock) <==>
              d.ageLimit != [] && !exists i :: AgeSplit(d.ageLimit, i)
    ensures Field(SourceUrl) in Validate(d, clock) <==> d.sourceUrl != [] && !IsHttpUrl(d.sourceUrl)
  {
    var e := Validate(d, clock);
    assert Lookup(e, Field(TotalVacancy)) == FieldRule(d, TotalVacancy, clock);
    assert Lookup(e, Field(ApplyLink)) == FieldRule(d, ApplyLink, clock);
    assert Lookup(e, Field(AgeLimit)) == FieldRule(d, AgeLimit, clock);
    assert Lookup(e, Field(SourceUrl)) == FieldRule(d, SourceUrl, clock);
    AgeRangeMatchesLang(d.ageLimit);
  }

  /** The date rules: a missing last date is "required", a present one that
      is not after now is "not in the future"; entry `i` is reported under its
      own label and date keys only, for a missing label, a missing date or a
      date not after now. */
  lemma DateRules(d: Draft, clock: Clock, i: nat)
    ensures Lookup(Validate(d, clock), Field(LastDate)) ==
              if d.lastDate == [] then Some(Required)
              else if NotAfterNow(clock, d.lastDate) then Some(NotInFuture)
              else None
    ensures DateLabel(i) in Validate(d, clock) <==>
              i < |d.importantDates| && d.importantDates[i].caption == []
    ensures DateDate(i) in Validate(d, clock) <==>
              i < |d.importantDates| &&
              (d.importantDates[i].date == [] || NotAfterNow(clock, d.importantDates[i].date))
  {
    var e := Validate(d, clock);
    assert Lookup(e, Field(LastDate)) == Rule(d, Field(LastDate), clock);
    assert Lookup(e, DateLabel(i)) == Rule(d, DateLabel(i), clock);
    assert Lookup(e, DateDate(i)) == Rule(d, DateDate(i), clock);
  }

  /** A field's verdict depends on that field alone (and on the clock). */
  lemma FieldRuleReadsOneField(a: Draft, b: Draft, f: FieldName, clock: Clock)
    requires Get(a, f) == Get(b, f)
    ensures FieldRule(a, f, clock) == FieldRule(b, f, clock)
  {
    match f {
      case Title => case Slug => case HtmlContent => case Organization =>
      case Location => case Salary => case Qualification => case Experience =>
      case LastDate => case ApplyLink => case Description => case Eligibility =>
      case TotalVacancy => case AgeLimit => case Tags => case ImportantDates =>
      case MetaTitle => case MetaDescription => case SourceUrl =>
    }
  }

  /** `handleChange(f, v)` can only change the error under `f`'s own key: so
      moving the last date into the future clears that error and leaves every
      other error as it was. */
  lemma FieldEditIsLocal(d: Draft, f: FieldName, v: FieldValue, clock: Clock)
    requires Fits(f, v) && f != ImportantDates
    ensures forall k :: k != Field(f) ==>
              Lookup(Validate(HandleChange(d, f, v), clock), k) == Lookup(Validate(d, clock), k)
  {
    var d' := HandleChange(d, f, v);
    forall k | k != Field(f)
      ensures Lookup(Validate(d', clock), k) == Lookup(Validate(d, clock), k)
    {
      if k.Field? {
        FieldRuleReadsOneField(d', d, k.name, clock);
      } else {
        assert Get(d', ImportantDates) == Get(d, ImportantDates);
      }
    }
  }

  /** Editing entry `index` can only change the errors under that entry's two
      keys: errors on one entry never spill onto another. */
  lemma DateEditIsLocal(d: Draft, index: int, field: DateField, value: JsString, clock: Clock)
    ensures forall k: ErrorKey :: (k.Field? || k.index != index) ==>
              Lookup(Validate(ChangeImportantDate(d, index, field, value), clock), k) ==
              Lookup(Validate(d, clock), k)
  {
    var d' := ChangeImportantDate(d, index, field, value);
    forall k: ErrorKey | k.Field? || k.index != index
      ensures Lookup(Validate(d', clock), k) == Lookup(Validate(d, clock), k)
    {
      if k.Field? && k.name != ImportantDates {
        FieldRuleReadsOneField(d', d, k.name, clock);
      }
    }
  }

  /** A freshly added entry is reported as missing both its label and its
      date; every earlier error stays. */
  lemma AddedEntryIsReported(d: Draft, clock: Clock)
    ensures var n := |d.importantDates|;
            var e := Validate(AddImportantDate(d), clock);
            && Lookup(e, DateLabel(n)) == Some(Required)
            && Lookup(e, DateDate(n)) == Some(Required)
            && forall k :: k != DateLabel(n) && k != DateDate(n) ==>
                 Lookup(e, k) == Lookup(Validate(d, clock), k)
  {
    var d' := AddImportantDate(d);
    var n := |d.importantDates|;
    forall k | k != DateLabel(n) && k != DateDate(n)
      ensures Lookup(Validate(d', clock), k) == Lookup(Validate(d, clock), k)
    {
      if k.Field? && k.name != ImportantDates {
        FieldRuleReadsOneField(d', d, k.name, clock);
      } else if !k.Field? && k.index < n {
        assert d'.importantDates[k.index] == d.importantDates[k.index];
      }
    }
    assert Lookup(Validate(d', clock), DateLabel(n)) == Rule(d', DateLabel(n), clock);
    assert Lookup(Validate(d', clock), DateDate(n)) == Rule(d', DateDate(n), clock);
  }
}
