/** `handleSubmit` of the job form: validate, convert the dates to ISO
    strings, send the draft to the jobs API, and report the result. */
module Submission {
  import opened JsText
  import opened Optional
  import opened JobDraft
  import opened Validation
  import opened ValidationFacts

  datatype Verb = Post | Patch

  /** `/jobs` and `/jobs/<id>` of the API. */
  datatype Endpoint = Jobs | JobAt(id: JsString)

  datatype Request = Request(verb: Verb, endpoint: Endpoint, body: Draft)

  /** What the API call came back with: success, or a failure whose
      response body may carry a `message` and an `error` field (both absent
      when there was no response at all). */
  datatype Response = Saved | Failed(message: Option<JsString>, error: Option<JsString>)

  /** The toasts the form shows:
      FixErrors  — "Please fix the errors in the form"
      Updated    — "Job updated successfully"
      Created    — "Job created successfully"
      ServerSaid — the server's own `message` or `error` text
      TryAgain   — "Failed to save job. Please try again." */
  datatype Toast = FixErrors | Updated | Created | ServerSaid(text: JsString) | TryAgain

  /** What a submit leaves behind: the error record shown under the inputs,
      the request sent (if any), the toast, and whether the form navigated
      back to the job list (and called `onSuccess`). */
  datatype Outcome = Outcome(errors: Errors, sent: Option<Request>, toast: Toast, navigated: bool)

  /** A JavaScript value is truthy when it is present and, being a string,
      non-empty. */
  predicate Truthy(v: Option<JsString>) {
    v.Some? && v.value != []
  }

  /** `new Date(s).toISOString()`, or `None` where it throws a RangeError
      because `s` is an Invalid Date. */
  function IsoDate(clock: Clock, s: JsString): Option<JsString> {
    match clock.parse(s)
    case Some(t) => Some(clock.toIso(t))
    case None => None
  }

  /** `dates.map(date => ({...date, date: new Date(date.date).toISOString()}))`,
      or `None` when one of the conversions throws. */
  function IsoDates(clock: Clock, ds: seq<ImportantDate>): (r: Option<seq<ImportantDate>>)
    ensures r.Some? <==> forall i :: 0 <= i < |ds| ==> clock.parse(ds[i].date).Some?
    ensures r.Some? ==> |r.value| == |ds|
    ensures r.Some? ==> forall i :: 0 <= i < |ds| ==>
              r.value[i] == ImportantDate(ds[i].caption, clock.toIso(clock.parse(ds[i].date).value))
  {
    if |ds| == 0 then Some([])
    else
      match (IsoDate(clock, ds[0].date), IsoDates(clock, ds[1..]))
      case (Some(first), Some(rest)) =>
        var r := [ImportantDate(ds[0].caption, first)] + rest;
        assert forall i :: 1 <= i < |ds| ==> ds[i] == ds[1..][i - 1];
        Some(r)
      case (None, _) => None
      case (_, None) =>
        var i :| 0 <= i < |ds[1..]| && clock.parse(ds[1..][i].date).None?;
        assert ds[1..][i] == ds[i + 1];
        None
  }

  /** The `formattedData` of the submit: the draft with its last date and
      its important dates converted to ISO strings; `None` when one of them
      is an Invalid Date, which makes `toISOString` throw. */
  function Formatted(d: Draft, clock: Clock): Option<Draft> {
    match (IsoDate(clock, d.lastDate), IsoDates(clock, d.importantDates))
    case (Some(last), Some(dates)) => Some(d.(lastDate := last, importantDates := dates))
    case _ => None
  }

  /** Every date of the draft reads as a date. */
  predicate DatesParse(d: Draft, clock: Clock) {
    && clock.parse(d.lastDate).Some?
    && forall i :: 0 <= i < |d.importantDates| ==> clock.parse(d.importantDates[i].date).Some?
  }

  /** The toast after a failed save: the response's `message` if truthy,
      else its `error` if truthy, else the generic text. */
  function FailureToast(r: Response): (t: Toast)
    requires r.Failed?
    ensures t.ServerSaid? ==> t.text != []
    ensures t.ServerSaid? <==> Truthy(r.message) || Truthy(r.error)
    ensures Truthy(r.message) ==> t == ServerSaid(r.message.value)
    ensures !Truthy(r.message) && Truthy(r.error) ==> t == ServerSaid(r.error.value)
    ensures !Truthy(r.message) && !Truthy(r.error) ==> t == TryAgain
  {
    if Truthy(r.message) then ServerSaid(r.message.value)
    else if Truthy(r.error) then ServerSaid(r.error.value)
    else TryAgain
  }

  /** The request for draft body `body`: PATCH `/jobs/<id>` when editing the
      stored job `id`, POST `/jobs` when creating one. */
  function RequestFor(editing: Option<JsString>, body: Draft): Request {
    match editing
    case Some(id) => Request(Patch, JobAt(id), body)
    case None => Request(Post, Jobs, body)
  }

  /** `handleSubmit` on draft `d`. `editing` is the `_id` of the job being
      edited, `None` on the create page; `server` is the jobs API. */
  function Submit(d: Draft, editing: Option<JsString>, clock: Clock, server: Request -> Response): (o: Outcome)
    ensures o.errors == Validate(d, clock)
    ensures !IsValid(d, clock) ==> o.sent == None && o.toast == FixErrors && !o.navigated
    ensures o.sent.Some? ==> IsValid(d, clock) && Formatted(d, clock) == Some(o.sent.value.body)
    ensures o.sent.Some? ==> o.sent.value.verb == (if editing.Some? then Patch else Post)
    ensures o.sent.Some? ==> o.sent.value.endpoint == (if editing.Some? then JobAt(editing.value) else Jobs)
    ensures o.navigated <==> o.sent.Some? && server(o.sent.value) == Saved
    ensures o.navigated ==> o.toast == (if editing.Some? then Updated else Created)
    ensures o.sent.Some? && !o.navigated ==> o.toast == FailureToast(server(o.sent.value))
  {
    var errors := Validate(d, clock);
    if !IsValid(d, clock) then Outcome(errors, None, FixErrors, false)
    else
      match Formatted(d, clock)
      case None => Outcome(errors, None, TryAgain, false)
      case Some(body) =>
        var request := RequestFor(editing, body);
        match server(request)
        case Saved => Outcome(errors, Some(request), if editing.Some? then Updated else Created, true)
        case Failed(_, _) => Outcome(errors, Some(request), FailureToast(server(request)), false)
  }

  // ---------------------------------------------------------------------
  // What a submit promises

  /** Conversion succeeds exactly when every date of the draft parses, and
      then changes nothing but the dates. */
  lemma FormattedIffDatesParse(d: Draft, clock: Clock)
    ensures Formatted(d, clock).Some? <==> DatesParse(d, clock)
    ensures Formatted(d, clock).Some? ==>
              && Formatted(d, clock).value.lastDate == clock.toIso(clock.parse(d.lastDate).value)
              && forall f :: f != LastDate && f != ImportantDates ==>
                   Get(Formatted(d, clock).value, f) == Get(d, f)
  {
    if Formatted(d, clock).Some? {
      var b := Formatted(d, clock).value;
      forall f | f != LastDate && f != ImportantDates
        ensures Get(b, f) == Get(d, f)
      {
      }
    }
  }

  /** Nothing is sent unless every requirement of the form is met, and in
      particular not while a required field is empty. */
  lemma NothingSentUnlessAcceptable(d: Draft, editing: Option<JsString>, clock: Clock,
                                    server: Request -> Response, f: FieldName)
    ensures Submit(d, editing, clock, server).sent.Some? ==> Acceptable(d, clock)
    ensures f in RequiredFields && Get(d, f) == Text([]) ==>
              Submit(d, editing, clock, server).sent == None
  {
    ValidExactlyWhenAcceptable(d, clock);
    if f in RequiredFields && Get(d, f) == Text([]) {
      EmptyFieldReportedIffRequired(d, f, clock);
    }
  }

  /** A draft the form accepts is sent exactly when all its dates parse;
      one that passes validation with an Invalid Date is dropped with the
      generic failure toast, since `toISOString` throws inside the `try`. */
  lemma ValidDraftSentIffDatesParse(d: Draft, editing: Option<JsString>, clock: Clock,
                                    server: Request -> Response)
    requires IsValid(d, clock)
    ensures Submit(d, editing, clock, server).sent.Some? <==> DatesParse(d, clock)
    ensures !DatesParse(d, clock) ==> Submit(d, editing, clock, server).toast == TryAgain
  {
    FormattedIffDatesParse(d, clock);
  }

  /** A job whose last date is not after now cannot be saved, whether it is
      new or being edited: the last date is reported and nothing is sent.
      An expired posting can only be saved again with a new last date. */
  lemma ExpiredLastDateBlocksSave(d: Draft, editing: Option<JsString>, clock: Clock,
                                  server: Request -> Response)
    requires clock.parse(d.lastDate).Some? && clock.parse(d.lastDate).value <= clock.now
    ensures Submit(d, editing, clock, server).sent == None
    ensures Lookup(Submit(d, editing, clock, server).errors, Field(LastDate)) ==
              Some(if d.lastDate == [] then Required else NotInFuture)
  {
    DateRules(d, clock, 0);
  }
}
