/** The job-posting draft the admin form edits: its fields, the one-field
    update every input uses, the list operations on the important dates, and
    the state the form starts from. */
module JobDraft {
  import opened JsText
  import opened Optional

  datatype QualificationLevel = HighSchool | Bachelors | Masters | Phd | Other

  datatype ExperienceLevel = Entry | Mid | Senior | Executive

  /** One row of the "important dates" list: its `label` (called `caption`
      here, `label` being a Dafny keyword) and `date`, the text of a date-time
      input. */
  datatype ImportantDate = ImportantDate(caption: JsString, date: JsString)

  /** The form's data. The optional fields (`ageLimit`, `metaTitle`,
      `metaDescription`, `sourceUrl`) always hold a string: the form starts
      them at "" and every input writes a string. */
  datatype Draft = Draft(
    title: JsString,
    slug: JsString,
    htmlContent: JsString,
    organization: JsString,
    location: JsString,
    salary: JsString,
    qualification: QualificationLevel,
    experience: ExperienceLevel,
    lastDate: JsString,
    applyLink: JsString,
    description: JsString,
    eligibility: JsString,
    totalVacancy: JsString,
    ageLimit: JsString,
    tags: seq<JsString>,
    importantDates: seq<ImportantDate>,
    metaTitle: JsString,
    metaDescription: JsString,
    sourceUrl: JsString)

  /** The keys of the form's data. */
  datatype FieldName =
    | Title | Slug | HtmlContent | Organization | Location | Salary
    | Qualification | Experience | LastDate | ApplyLink | Description
    | Eligibility | TotalVacancy | AgeLimit | Tags | ImportantDates
    | MetaTitle | MetaDescription | SourceUrl

  /** A value one field can hold. */
  datatype FieldValue =
    | Text(text: JsString)
    | QualificationChoice(level: QualificationLevel)
    | ExperienceChoice(rank: ExperienceLevel)
    | TagList(tags: seq<JsString>)
    | DateList(dates: seq<ImportantDate>)

  /** The value `v` has the type field `f` is declared with. */
  predicate Fits(f: FieldName, v: FieldValue) {
    match f
    case Qualification => v.QualificationChoice?
    case Experience => v.ExperienceChoice?
    case Tags => v.TagList?
    case ImportantDates => v.DateList?
    case _ => v.Text?
  }

  /** `formData[f]` */
  function Get(d: Draft, f: FieldName): (v: FieldValue)
    ensures Fits(f, v)
  {
    match f
    case Title => Text(d.title)
    case Slug => Text(d.slug)
    case HtmlContent => Text(d.htmlContent)
    case Organization => Text(d.organization)
    case Location => Text(d.location)
    case Salary => Text(d.salary)
    case Qualification => QualificationChoice(d.qualification)
    case Experience => ExperienceChoice(d.experience)
    case LastDate => Text(d.lastDate)
    case ApplyLink => Text(d.applyLink)
    case Description => Text(d.description)
    case Eligibility => Text(d.eligibility)
    case TotalVacancy => Text(d.totalVacancy)
    case AgeLimit => Text(d.ageLimit)
    case Tags => TagList(d.tags)
    case ImportantDates => DateList(d.importantDates)
    case MetaTitle => Text(d.metaTitle)
    case MetaDescription => Text(d.metaDescription)
    case SourceUrl => Text(d.sourceUrl)
  }

  /** Two drafts that agree on every field are the same draft, so the fields
      listed by `FieldName` are all there is to a draft. */
  lemma SameFieldsSameDraft(a: Draft, b: Draft)
    requires forall f :: Get(a, f) == Get(b, f)
    ensures a == b
  {
    assert a.title == b.title by { assert Get(a, Title) == Get(b, Title); }
    assert a.slug == b.slug by { assert Get(a, Slug) == Get(b, Slug); }
    assert a.htmlContent == b.htmlContent by { assert Get(a, HtmlContent) == Get(b, HtmlContent); }
    assert a.organization == b.organization by { assert Get(a, Organization) == Get(b, Organization); }
    assert a.location == b.location by { assert Get(a, Location) == Get(b, Location); }
    assert a.salary == b.salary by { assert Get(a, Salary) == Get(b, Salary); }
    assert a.qualification == b.qualification by { assert Get(a, Qualification) == Get(b, Qualification); }
    assert a.experience == b.experience by { assert Get(a, Experience) == Get(b, Experience); }
    assert a.lastDate == b.lastDate by { assert Get(a, LastDate) == Get(b, LastDate); }
    assert a.applyLink == b.applyLink by { assert Get(a, ApplyLink) == Get(b, ApplyLink); }
    assert a.description == b.description by { assert Get(a, Description) == Get(b, Description); }
    assert a.eligibility == b.eligibility by { assert Get(a, Eligibility) == Get(b, Eligibility); }
    assert a.totalVacancy == b.totalVacancy by { assert Get(a, TotalVacancy) == Get(b, TotalVacancy); }
    assert a.ageLimit == b.ageLimit by { assert Get(a, AgeLimit) == Get(b, AgeLimit); }
    assert a.tags == b.tags by { assert Get(a, Tags) == Get(b, Tags); }
    assert a.importantDates == b.importantDates by { assert Get(a, ImportantDates) == Get(b, ImportantDates); }
    assert a.metaTitle == b.metaTitle by { assert Get(a, MetaTitle) == Get(b, MetaTitle); }
    assert a.metaDescription == b.metaDescription by { assert Get(a, MetaDescription) == Get(b, MetaDescription); }
    assert a.sourceUrl == b.sourceUrl by { assert Get(a, SourceUrl) == Get(b, SourceUrl); }
  }

  /** `handleChange(field, value)`: the draft with field `f` replaced by `v`
      and every other field as it was. */
  function HandleChange(d: Draft, f: FieldName, v: FieldValue): (r: Draft)
    requires Fits(f, v)
    ensures Get(r, f) == v
    ensures forall g :: g != f ==> Get(r, g) == Get(d, g)
  {
    match f
    case Title => d.(title := v.text)
    case Slug => d.(slug := v.text)
    case HtmlContent => d.(htmlContent := v.text)
    case Organization => d.(organization := v.text)
    case Location => d.(location := v.text)
    case Salary => d.(salary := v.text)
    case Qualification => d.(qualification := v.level)
    case Experience => d.(experience := v.rank)
    case LastDate => d.(lastDate := v.text)
    case ApplyLink => d.(applyLink := v.text)
    case Description => d.(description := v.text)
    case Eligibility => d.(eligibility := v.text)
    case TotalVacancy => d.(totalVacancy := v.text)
    case AgeLimit => d.(ageLimit := v.text)
    case Tags => d.(tags := v.tags)
    case ImportantDates => d.(importantDates := v.dates)
    case MetaTitle => d.(metaTitle := v.text)
    case MetaDescription => d.(metaDescription := v.text)
    case SourceUrl => d.(sourceUrl := v.text)
  }

  /** Setting a field to the value it already has changes nothing, and the
      second of two writes to one field wins. */
  lemma HandleChangeLaws(d: Draft, f: FieldName, v: FieldValue, w: FieldValue)
    requires Fits(f, v) && Fits(f, w)
    ensures HandleChange(d, f, Get(d, f)) == d
    ensures HandleChange(HandleChange(d, f, v), f, w) == HandleChange(d, f, w)
  {
    SameFieldsSameDraft(HandleChange(d, f, Get(d, f)), d);
    SameFieldsSameDraft(HandleChange(HandleChange(d, f, v), f, w), HandleChange(d, f, w));
  }

  // ---------------------------------------------------------------------
  // The important-dates list

  datatype DateField = Label | Date

  /** `{ ...entry, [field]: value }` */
  function SetDateField(e: ImportantDate, field: DateField, value: JsString): ImportantDate {
    match field
    case Label => e.(caption := value)
    case Date => e.(date := value)
  }

  /** `handleImportantDateChange(index, field, value)`: entry `index` gets
      `value` in `field`; every other entry, the other field of that entry and
      every other part of the draft stay as they were. An index outside the
      list changes nothing. */
  function ChangeImportantDate(d: Draft, index: int, field: DateField, value: JsString): (r: Draft)
    ensures |r.importantDates| == |d.importantDates|
    ensures forall g :: g != ImportantDates ==> Get(r, g) == Get(d, g)
    ensures forall i :: 0 <= i < |d.importantDates| && i != index ==>
              r.importantDates[i] == d.importantDates[i]
    ensures 0 <= index < |d.importantDates| ==>
              && (field == Label ==> r.importantDates[index] == ImportantDate(value, d.importantDates[index].date))
              && (field == Date ==> r.importantDates[index] == ImportantDate(d.importantDates[index].caption, value))
  {
    var ds := d.importantDates;
    d.(importantDates := seq(|ds|, i requires 0 <= i < |ds| =>
                               if i == index then SetDateField(ds[i], field, value) else ds[i]))
  }

  /** `addImportantDate()`: one blank entry appended; nothing else changes. */
  function AddImportantDate(d: Draft): (r: Draft)
    ensures |r.importantDates| == |d.importantDates| + 1
    ensures r.importantDates[..|d.importantDates|] == d.importantDates
    ensures r.importantDates[|d.importantDates|] == ImportantDate([], [])
    ensures forall g :: g != ImportantDates ==> Get(r, g) == Get(d, g)
  {
    d.(importantDates := d.importantDates + [ImportantDate([], [])])
  }

  /** `list.filter((_, i) => i !== index)`, walking the list from the front
      with `index` counted down. */
  function DropIndex<T>(xs: seq<T>, index: int): (r: seq<T>)
    ensures 0 <= index < |xs| ==> r == xs[..index] + xs[index + 1..]
    ensures !(0 <= index < |xs|) ==> r == xs
  {
    if |xs| == 0 then []
    else
      var rest := DropIndex(xs[1..], index - 1);
      assert index == 0 ==> xs[1..] == xs[index + 1..];
      assert 0 < index < |xs| ==> xs[..index] == [xs[0]] + xs[1..][..index - 1];
      assert 0 < index < |xs| ==> xs[index + 1..] == xs[1..][index..];
      (if index == 0 then [] else [xs[0]]) + rest
  }

  /** `removeImportantDate(index)`: the entries other than `index`, in their
      order; nothing else changes. */
  function RemoveImportantDate(d: Draft, index: int): (r: Draft)
    ensures 0 <= index < |d.importantDates| ==>
              && |r.importantDates| == |d.importantDates| - 1
              && (forall i :: 0 <= i < index ==> r.importantDates[i] == d.importantDates[i])
              && (forall i :: index <= i < |r.importantDates| ==> r.importantDates[i] == d.importantDates[i + 1])
    ensures !(0 <= index < |d.importantDates|) ==> r == d
    ensures forall g :: g != ImportantDates ==> Get(r, g) == Get(d, g)
  {
    d.(importantDates := DropIndex(d.importantDates, index))
  }

  /** Adding a blank entry and then removing it gives the draft back. */
  lemma AddThenRemove(d: Draft)
    ensures RemoveImportantDate(AddImportantDate(d), |d.importantDates|) == d
  {
    var ds := d.importantDates + [ImportantDate([], [])];
    assert ds[..|d.importantDates|] + ds[|d.importantDates| + 1..] == d.importantDates;
  }

  // ---------------------------------------------------------------------
  // The starting state

  /** A stored job as the backend returns it for editing: its `_id` and the
      fields it carries, each holding a value of the field's type. */
  datatype StoredJob = StoredJob(id: JsString, fields: map<FieldName, FieldValue>)

  predicate WellTyped(job: StoredJob) {
    forall f :: f in job.fields ==> Fits(f, job.fields[f])
  }

  /** The form's defaults: empty text, no tags, no dates, a bachelor's degree
      and entry-level experience. */
  const Blank: Draft := Draft([], [], [], [], [], [], Bachelors, Entry, [], [], [], [], [], [],
                              [], [], [], [], [])

  /** `formatDateForInput`: "" for an empty string, otherwise the browser's
      rendering of the date for a date-time input, given as `toInput`. */
  function FormatForInput(toInput: JsString -> JsString, s: JsString): JsString {
    if s == [] then [] else toInput(s)
  }

  /** How a field read from a stored job enters the form: dates are
      reformatted for the date-time inputs, everything else as it is. */
  function Loaded(f: FieldName, v: FieldValue, toInput: JsString -> JsString): FieldValue {
    match v
    case Text(s) => if f == LastDate then Text(FormatForInput(toInput, s)) else v
    case DateList(ds) =>
      DateList(seq(|ds|, i requires 0 <= i < |ds| =>
                     ImportantDate(ds[i].caption, FormatForInput(toInput, ds[i].date))))
    case _ => v
  }

  function TextOf(job: StoredJob, f: FieldName): JsString {
    if f in job.fields && job.fields[f].Text? then job.fields[f].text else []
  }

  /** The form's first state: the defaults for a new job, or the stored job's
      values (`job?.x || default`) when editing. */
  function InitialDraft(job: Option<StoredJob>, toInput: JsString -> JsString): (d: Draft)
    requires job.Some? ==> WellTyped(job.value)
    ensures job.None? ==> d == Blank
  {
    match job
    case None => Blank
    case Some(j) =>
      var m := j.fields;
      Draft(
        TextOf(j, Title), TextOf(j, Slug), TextOf(j, HtmlContent), TextOf(j, Organization),
        TextOf(j, Location), TextOf(j, Salary),
        if Qualification in m && m[Qualification].QualificationChoice? then m[Qualification].level else Bachelors,
        if Experience in m && m[Experience].ExperienceChoice? then m[Experience].rank else Entry,
        FormatForInput(toInput, TextOf(j, LastDate)),
        TextOf(j, ApplyLink), TextOf(j, Description), TextOf(j, Eligibility),
        TextOf(j, TotalVacancy), TextOf(j, AgeLimit),
        if Tags in m && m[Tags].TagList? then m[Tags].tags else [],
        if ImportantDates in m && m[ImportantDates].DateList? then Loaded(ImportantDates, m[ImportantDates], toInput).dates else [],
        TextOf(j, MetaTitle), TextOf(j, MetaDescription), TextOf(j, SourceUrl))
  }

  /** Editing starts from the stored job: every field it carries, with its
      dates reformatted for input; every field it lacks at its default. */
  lemma InitialDraftFromStoredJob(job: StoredJob, toInput: JsString -> JsString)
    requires WellTyped(job)
    ensures forall f :: Get(InitialDraft(Some(job), toInput), f) ==
              (if f in job.fields then Loaded(f, job.fields[f], toInput) else Get(Blank, f))
  {
    var d := InitialDraft(Some(job), toInput);
    forall f
      ensures Get(d, f) == (if f in job.fields then Loaded(f, job.fields[f], toInput) else Get(Blank, f))
    {
      if f in job.fields {
        assert Fits(f, job.fields[f]);
      }
      match f {
        case Title => case Slug => case HtmlContent => case Organization =>
        case Location => case Salary => case Qualification => case Experience =>
        case LastDate => case ApplyLink => case Description => case Eligibility =>
        case TotalVacancy => case AgeLimit => case Tags => case ImportantDates =>
        case MetaTitle => case MetaDescription => case SourceUrl =>
      }
    }
  }
}
