# Job portal admin: job form and job list, in Dafny

This project models the two pieces of logic in the admin pages of the job
portal:

- **The job form** (`JobForm.tsx`).
  - A draft job posting.
  - The one-field update that every input uses.
  - The add, edit and remove operations on the important-dates list.
  - The comma-separated tags box.
  - `validateForm`, which maps a draft to a record of errors keyed by field or by important-date entry.
  - `handleSubmit`, which decides what request to send, what toast to show and whether to navigate.
- **The job list** (`page.tsx`).
  - Its state: current page, search term, page count and job count.
  - The fetch that re-runs when the page or the search term changes.
  - The delete action.
  - The pagination bar: the five-page window, the first and last buttons, the ellipses, Previous and Next.
  - The "Showing X to Y of Z jobs" line.

Strings are JavaScript strings: sequences of UTF-16 code units (`JsText`), because `length`, `trim` and `split` all count code units.

The regular expressions live in `Patterns`.

- The slug, salary and age-limit patterns are each written as a left-to-right recognizer. Each is proved to accept exactly a declarative description of its language: the slug shape, the salary split and the age-limit split.
- The URL pattern and the digits-only pattern are simple enough to be written directly as predicates. For the URL, `SchemeNeedsText` states which strings starting with "http://" or "https://" pass; `IsHttpUrl` itself defines the rest.

Dates are abstract. A `Clock` holds:

- the current time;
- how `new Date(text)` reads a string, where `None` stands for an Invalid Date;
- `toISOString`.

An Invalid Date compares false with everything, so it never gets the "must be in the future" error. Its `toISOString` throws inside the submit's `try`.

Error messages are represented by their kind (`Required`, `TooShort(n)`, `Malformed`, `NotInFuture`). Toasts are represented by their kind too.

Modules, in dependency order:

| module | file | contents |
|---|---|---|
| `Optional` | optional.dfy | `Option` |
| `JsText` | js_text.dfy | code units, white space, `trim`, `split`, `join` |
| `Patterns` | patterns.dfy | the slug, salary, digits, age-range and URL patterns |
| `JobDraft` | job_draft.dfy | the draft, `handleChange`, the important-dates operations, the initial state |
| `Validation` | validation.dfy | `validateForm`, check by check |
| `ValidationFacts` | validation_facts.dfy | what validation promises, field by field and as a whole |
| `TagInput` | tag_input.dfy | the tags box |
| `Submission` | submission.dfy | `handleSubmit` |
| `Pagination` | pagination.dfy | page count, window, bar, Previous/Next, shown range |
| `JobList` | job_list.dfy | the list page's state, fetch, search and delete |

## Behaviour worth knowing

- Tags are not deduplicated: "a, a" stores ["a", "a"].
- The error record is recomputed only on submit, so a corrected field keeps showing its old error until then. `FieldEditIsLocal` and `DateEditIsLocal` state what the next validation reports.
- A posting whose last date has passed cannot be saved again without a new date (`ExpiredLastDateBlocksSave`).

## Model

Source paths are relative to the repository root.

| member | source | states |
|---|---|---|
| JsText.TrimEnd | src/app/admin/jobs/components/JobForm.tsx:490 | the result is a prefix of the text; everything cut off is white space; the result does not end in white space |
| JsText.Trim | src/app/admin/jobs/components/JobForm.tsx:490 | `trim` leaves no white space at either end and never lengthens the text |
| JsText.TrimAfterLeadingSpace | src/app/admin/jobs/components/JobForm.tsx:490 | `trim` is `trimEnd` applied after the leading white space is dropped |
| JsText.TrimStripsOnlyEnds | src/app/admin/jobs/components/JobForm.tsx:490 | the text is leading white space, then the trimmed result, then trailing white space: only the ends are removed |
| JsText.TrimKeepsOut | src/app/admin/jobs/components/JobForm.tsx:490 | a code unit absent from the text is absent from its trim |
| JsText.TrimEmptyIffAllSpace | src/app/admin/jobs/components/JobForm.tsx:490 | `trim` gives "" exactly when the text is all white space |
| JsText.Split | src/app/admin/jobs/components/JobForm.tsx:490 | `split(',')` gives at least one piece; no piece holds a comma; joining the pieces with commas gives the text back |
| JsText.SplitSeparatorFree | src/app/admin/jobs/components/JobForm.tsx:490 | a comma-free prefix is glued onto the first piece of the rest |
| JsText.SplitJoin | src/app/admin/jobs/components/JobForm.tsx:490 | splitting undoes joining when no piece holds the separator |
| Patterns.DigitRun | src/app/admin/jobs/components/JobForm.tsx:133 | the maximal run of digits from a position: all digits, followed by a non-digit or the end |
| Patterns.DigitRunUnique | src/app/admin/jobs/components/JobForm.tsx:133 | any digit run ending at a non-digit is the one found |
| Patterns.SlugMatchesShape | src/app/admin/jobs/components/JobForm.tsx:117 | `/^[a-z0-9]+(?:-[a-z0-9]+)*$/` accepts exactly the non-empty strings of lower-case letters, digits and hyphens, with no hyphen at an end and no doubled hyphen |
| Patterns.HyphenatedWordsAreSlug | src/app/admin/jobs/components/JobForm.tsx:117 | lower-case alphanumeric words joined by single hyphens always pass |
| Patterns.SalaryMatchesLang | src/app/admin/jobs/components/JobForm.tsx:121 | the salary recognizer accepts exactly the strings made of digits, an optional `.digits`, white space and a three-letter upper-case code |
| Patterns.SalaryAccepts | src/app/admin/jobs/components/JobForm.tsx:121 | every such concatenation, e.g. "50000 USD" or "12.5INR", passes |
| Patterns.SalaryCodeIsThreeLetters | src/app/admin/jobs/components/JobForm.tsx:121 | a passing salary ends in exactly three upper-case letters, preceded by a digit or white space |
| Patterns.SchemeNeedsText | src/app/admin/jobs/components/JobForm.tsx:129 | "http://" or "https://" alone fails; followed by any code unit it passes exactly when that code unit is not a line terminator, whatever comes after |
| Patterns.AgeRangeMatchesLang | src/app/admin/jobs/components/JobForm.tsx:137 | `/^\d+-\d+$/` accepts exactly two non-empty digit runs joined by one hyphen |
| JobDraft.SameFieldsSameDraft | src/app/admin/jobs/components/JobForm.tsx:32-53 | two drafts agreeing on every form field are equal |
| JobDraft.HandleChange | src/app/admin/jobs/components/JobForm.tsx:161-166 | the named field gets the new value; every other field keeps its old value |
| JobDraft.HandleChangeLaws | src/app/admin/jobs/components/JobForm.tsx:161-166 | writing back a field's own value changes nothing; of two writes to one field the second wins |
| JobDraft.ChangeImportantDate | src/app/admin/jobs/components/JobForm.tsx:168-175 | only the chosen field of entry `index` changes; other entries, the other field and the rest of the draft are kept; an index outside the list changes nothing |
| JobDraft.AddImportantDate | src/app/admin/jobs/components/JobForm.tsx:177-182 | exactly one blank entry is appended; earlier entries and other fields are kept |
| JobDraft.DropIndex | src/app/admin/jobs/components/JobForm.tsx:187 | `filter((_, i) => i !== index)` is the list without position `index`, or the list itself when `index` is outside it |
| JobDraft.RemoveImportantDate | src/app/admin/jobs/components/JobForm.tsx:184-189 | the entries before `index` stay in place and the ones after move down by one; nothing else changes |
| JobDraft.AddThenRemove | src/app/admin/jobs/components/JobForm.tsx:177-189 | adding a blank entry and removing it restores the draft |
| JobDraft.InitialDraft | src/app/admin/jobs/components/JobForm.tsx:72-96 | the create form starts from the defaults |
| JobDraft.InitialDraftFromStoredJob | src/app/admin/jobs/components/JobForm.tsx:72-96 | the edit form starts from the stored job's value for every field it carries, with dates reformatted for input, and from the default for every field it lacks |
| Validation.FieldChecksFollowRule | src/app/admin/jobs/components/JobForm.tsx:104-143 | running a field's checks in source order, with later assignments overwriting earlier ones, leaves the error the per-field rule names |
| Validation.FieldErrors | src/app/admin/jobs/components/JobForm.tsx:104-143 | after the field checks, each field key holds its rule's error and no other key is written |
| Validation.DateErrors | src/app/admin/jobs/components/JobForm.tsx:146-155 | after the checks of the first `n` entries, every entry key below `n` holds its rule's error; field keys are untouched |
| Validation.Validate | src/app/admin/jobs/components/JobForm.tsx:100-159 | every key of the error record holds exactly what its rule says |
| ValidationFacts.NoPresenceFailure | src/app/admin/jobs/components/JobForm.tsx:104-127 | with no field error, the required texts are present and long enough, and the last date is not at or before now (an unparseable date also passes) |
| ValidationFacts.NoFormatFailure | src/app/admin/jobs/components/JobForm.tsx:117-143 | with no field error, every format pattern holds |
| ValidationFacts.ValidIsAcceptable | src/app/admin/jobs/components/JobForm.tsx:100-158 | an empty error record means every requirement holds |
| ValidationFacts.AcceptableIsValid | src/app/admin/jobs/components/JobForm.tsx:100-158 | every requirement holding means an empty error record |
| ValidationFacts.ValidExactlyWhenAcceptable | src/app/admin/jobs/components/JobForm.tsx:100-158 | `validateForm` returns true exactly when the draft meets every requirement, stated independently of the checks |
| ValidationFacts.EmptyFieldReportedIffRequired | src/app/admin/jobs/components/JobForm.tsx:104-114 | an empty text field is reported exactly when it is one of the eleven required fields: "required", or "too short" for the three length-checked ones |
| ValidationFacts.BlankFieldRule | src/app/admin/jobs/components/JobForm.tsx:104-143 | on the blank form, exactly the required fields fail |
| ValidationFacts.BlankDraftReportsRequiredFields | src/app/admin/jobs/components/JobForm.tsx:104-143 | the new-job form's error record has exactly the required-field keys |
| ValidationFacts.LengthThresholds | src/app/admin/jobs/components/JobForm.tsx:106-113 | content and description are reported exactly below 100 code units, eligibility below 50 |
| ValidationFacts.SlugReportedIffMisshapen | src/app/admin/jobs/components/JobForm.tsx:105-119 | the slug is reported exactly when it is not of slug shape |
| ValidationFacts.SalaryReportedIffOutsidePattern | src/app/admin/jobs/components/JobForm.tsx:109-123 | the salary is reported exactly when it is outside the salary language |
| ValidationFacts.FormatRules | src/app/admin/jobs/components/JobForm.tsx:129-143 | vacancies must be digits and the apply link a URL; age limit and source URL are checked only when non-empty |
| ValidationFacts.DateRules | src/app/admin/jobs/components/JobForm.tsx:110-155 | last date: "required" when empty, else "future" when not after now; entry `i`: label error exactly when the label is empty, date error exactly when the date is empty or not after now |
| ValidationFacts.FieldRuleReadsOneField | src/app/admin/jobs/components/JobForm.tsx:104-143 | a field's error depends on that field alone |
| ValidationFacts.FieldEditIsLocal | src/app/admin/jobs/components/JobForm.tsx:161-166 | editing a field can change only that field's error |
| ValidationFacts.DateEditIsLocal | src/app/admin/jobs/components/JobForm.tsx:168-175 | editing entry `index` can change only that entry's two errors |
| ValidationFacts.AddedEntryIsReported | src/app/admin/jobs/components/JobForm.tsx:177-182 | a new blank entry gets both "required" errors; every other error is unchanged |
| TagInput.CleanWellFormed | src/app/admin/jobs/components/JobForm.tsx:490 | trimming and dropping empty pieces leaves non-empty trimmed pieces that keep out whatever the pieces kept out |
| TagInput.ParsedTagsWellFormed | src/app/admin/jobs/components/JobForm.tsx:490 | whatever is typed, the stored tags are non-empty, trimmed and comma-free |
| TagInput.JoinSpaced | src/app/admin/jobs/components/JobForm.tsx:489 | joining with ", " is joining with "," after putting a space in front of every later tag |
| TagInput.CleanSpaced | src/app/admin/jobs/components/JobForm.tsx:490 | trimming a space-prefixed well-formed tag gives the tag back |
| TagInput.ParseShowRoundTrip | src/app/admin/jobs/components/JobForm.tsx:489-490 | parsing `tags.join(', ')` gives back any list of well-formed tags |
| TagInput.ParseIsNormalizing | src/app/admin/jobs/components/JobForm.tsx:489-490 | showing parsed tags and parsing again changes nothing |
| TagInput.CleanAppend | src/app/admin/jobs/components/JobForm.tsx:490 | cleaning distributes over concatenation |
| TagInput.SplitAtSeparator | src/app/admin/jobs/components/JobForm.tsx:490 | a comma splits a text into the pieces before it followed by the pieces after it |
| TagInput.TypedCommaIsDropped | src/app/admin/jobs/components/JobForm.tsx:489-490 | in the box as written, typing a comma after the shown tags leaves the tags unchanged |
| TagInput.TypingTwoTagsAsWritten | src/app/admin/jobs/components/JobForm.tsx:489-490 | in the box as written, typing "a,b" stores the single tag "ab" |
| TagInput.TypingAddsTag | src/app/admin/jobs/components/JobForm.tsx:490 | in the corrected box, typing ", " and a tag after any text appends that tag |
| TagInput.TypingTwoTagsCorrected | src/app/admin/jobs/components/JobForm.tsx:490 | in the corrected box, typing "a,b" stores the tags "a" and "b" |
| Submission.IsoDates | src/app/admin/jobs/components/JobForm.tsx:204-207 | the conversion succeeds exactly when every entry's date parses; it keeps the length and the labels and converts each date |
| Submission.FailureToast | src/app/admin/jobs/components/JobForm.tsx:223-229 | a truthy `message` wins, else a truthy `error`, else the generic "Failed to save job" toast; the server's text is never empty |
| Submission.Submit | src/app/admin/jobs/components/JobForm.tsx:191-233 | the error record is the validation's; an invalid draft sends nothing and shows "fix the errors"; a request is sent only for a valid draft, with the ISO-converted body, as PATCH `/jobs/<id>` when editing and POST `/jobs` otherwise; the form navigates exactly when the save succeeded; the toast follows |
| Submission.FormattedIffDatesParse | src/app/admin/jobs/components/JobForm.tsx:201-208 | the ISO body exists exactly when every date parses, and differs from the draft only in its dates |
| Submission.NothingSentUnlessAcceptable | src/app/admin/jobs/components/JobForm.tsx:194-197 | nothing is sent unless the draft meets every requirement, and nothing while a required field is empty |
| Submission.ExpiredLastDateBlocksSave | src/app/admin/jobs/components/JobForm.tsx:125-127 | a draft whose last date is not after now, new or edited, is reported on its last date and never sent |
| Submission.ValidDraftSentIffDatesParse | src/app/admin/jobs/components/JobForm.tsx:200-229 | a valid draft is sent exactly when its dates parse; otherwise the generic failure toast is shown |
| Pagination.TotalPages | src/app/admin/jobs/page.tsx:60 | the page count is the least number of ten-job pages holding every job, zero only for no jobs |
| Pagination.Window | src/app/admin/jobs/page.tsx:95-101 | the window lies within `1..totalPages`; it holds five pages, or all of them when there are fewer; it contains the current page; it is centred on the current page away from both ends, and pushed against page 1 or the last page near either end |
| Pagination.NumberedTailCovers | src/app/admin/jobs/page.tsx:124-158 | the window's buttons followed by the end part cover the pages from the window's start to the last page |
| Pagination.RenderCoversAllPages | src/app/admin/jobs/page.tsx:104-158 | the bar runs from page 1 to the last page; adjacent buttons are adjacent pages and every ellipsis stands for skipped pages |
| Pagination.CoversAscending | src/app/admin/jobs/page.tsx:104-158 | in such a bar, the button pages lie within the range and rise strictly |
| Pagination.RenderAscending | src/app/admin/jobs/page.tsx:104-158 | the bar starts at page 1, ends at the last page, and no page has two buttons |
| Pagination.HighlightIsCurrentPage | src/app/admin/jobs/page.tsx:124-138 | only the current page's button is highlighted, and it is present whenever the current page exists |
| Pagination.BoundaryItems | src/app/admin/jobs/page.tsx:104-158 | the page-1 button appears iff the window starts after page 1, and the start ellipsis iff after page 2; symmetrically for the last button and the end ellipsis |
| Pagination.RenderIsShort | src/app/admin/jobs/page.tsx:104-158 | the bar has at most nine items |
| Pagination.PreviousNextStep | src/app/admin/jobs/page.tsx:244-258 | on a page of the list, Previous and Next are disabled exactly when they would not move; otherwise they move one page and stay in range |
| Pagination.ShownRange | src/app/admin/jobs/page.tsx:264 | on any page from 1 on, including an empty list and a page past the last: `X` is the first job number of page `current`, `(current - 1) * 10 + 1`; `Y` never exceeds the total; the run names at most ten jobs, exactly ten unless it reaches the last job; and it is empty exactly when the page starts past the last job, so page 3 of 20 jobs reads "21 to 20" |
| Pagination.ShownRangeOnPage | src/app/admin/jobs/page.tsx:264 | on a page of the list, the line names a non-empty run of at most ten jobs within the total; each job number is on exactly one page |
| JobList.FirstRenderFetchesFirstPage | src/app/admin/jobs/page.tsx:36-57 | the first render fetches page 1, ten per page, with no search |
| JobList.SearchFetchesFirstPage | src/app/admin/jobs/page.tsx:85-88 | a search stores the term and page 1 and changes nothing else; it fetches page 1 of the new term, sending the term only when it is non-empty |
| JobList.PageChangeKeepsSearch | src/app/admin/jobs/page.tsx:81-83 | a page change changes only the page, and fetches that page for the same search exactly when the page differs |
| JobList.FetchDoesNotRefetch | src/app/admin/jobs/page.tsx:44-67 | starting or finishing a fetch never triggers another fetch, and loading ends either way |
| JobList.LoadedPageCount | src/app/admin/jobs/page.tsx:58-60 | a good response stores the rows, the total and the page count; the bar shows exactly when there are more than ten jobs |
| JobList.DeleteRefetchesOnlyOnSuccess | src/app/admin/jobs/page.tsx:69-79 | a cancelled delete does nothing; a confirmed one sends the DELETE; a success shows "Job deleted successfully" and re-fetches with the same query; a failure shows "Failed to delete job" and does not re-fetch |
| JobList.StalePageAfterDelete | src/app/admin/jobs/page.tsx:58-60 | as written, deleting the only job on page 3 of 21 leaves page 3 of 2 |
| JobList.ClampedPageInRange | src/app/admin/jobs/page.tsx:58-60 | with the corrected reload, the current page lies within the list whenever there are jobs, and a page already in range is kept |

## Left out

- Network calls, toasts, `router.push`, `onSuccess`, `confirm` and `console` output. The API and the confirm dialog become parameters: `server`, `confirmed` and `succeeded`.
- The loading flags and the `error` state of the form, which only gate rendering.
- The JSX rendering. Only the structure of the pagination bar is modelled: its buttons, highlighting and ellipses.
- Date parsing and formatting. `new Date(text)`, `toISOString` and `formatDateForInput`'s rendering are parameters of the model.
  - `now` is read once per validation; the form reads the clock once per comparison.
  - A stored date that does not parse makes `toISOString` throw while the edit form first renders. That crash is not modelled, since the rendering of the date is a parameter.
- Number width. Page numbers, totals and lengths are unbounded integers; the source's numbers are doubles, which are exact at these sizes.
- Stored-job values of the wrong type, e.g. a number where a string is expected. The edit form receives a well-typed job (`WellTyped`).
- Overlapping fetches, where a slow response for an old page or search arrives after a newer one. Only one fetch at a time is modelled.
- JsText.Trim: its own contract states only that the result is trimmed and no longer than the text; which code units it removes is stated by `TrimAfterLeadingSpace` and `TrimStripsOnlyEnds`, kept apart so that the many callers of `trim` do not carry that fact.
- JobDraft.InitialDraft: its contract states only the create-form case; the edit-form case is stated by `InitialDraftFromStoredJob`.
- JobList.ApplyFetchClamped: its contract states only the failure case; the success case is stated by `ClampedPageInRange`.

## Findings

| source | as written | input that shows it | evidently intended | confidence | as-written member | corrected member |
|---|---|---|---|---|---|---|
| src/app/admin/jobs/components/JobForm.tsx:489-490 | the tags box shows `tags.join(', ')` of the parsed tags, so the text is rebuilt from the tags on every keystroke and a trailing comma is parsed away before the next tag can be typed | empty box, type "a", ",", "b": the stored tags are ["ab"] | typing "a,b" stores ["a", "b"]; the box keeps the typed text and stores the parsed tags | not executed | TagInput.TypingTwoTagsAsWritten | TagInput.TypingAddsTag |
| src/app/admin/jobs/page.tsx:58-60 | after a delete, the re-fetch updates the page count but keeps the current page, even when that page no longer exists | on page 3 of 21 jobs, delete the only job on it: page 3 of 2, an empty table, "Showing 21 to 20 of 20 jobs", no highlighted page button, and Next leads back to page 2 | the current page is moved to the last page when it lies beyond it | not executed | JobList.StalePageAfterDelete | JobList.ClampedPageInRange |
