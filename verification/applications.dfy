/** The instructor-application workflow of the back end: the schema
    (backend/models/instructorApplication.model.js) with its setters,
    required fields, status enum and save hook, and the three handlers of
    backend/controllers/instructorApplication.controller.js: submit, status
    check and confirm. The store of applications is a sequence in insertion
    order and `findOne` returns the first match; the clock, the EmailJS
    posts and the environment's settings are inputs. */
module Applications {
  import opened Text
  import opened Http
  import opened ApplicationFields
  import Users

  // ---------------------------------------------------------------------
  // Schema

  datatype Status = Pending | Approved | Rejected

  function StatusName(s: Status): string
  {
    match s
    case Pending => "pending"
    case Approved => "approved"
    case Rejected => "rejected"
  }

  /** The enum check on a status given as text. */
  function ParseStatus(s: string): Option<Status>
  {
    if s == "pending" then Some(Pending)
    else if s == "approved" then Some(Approved)
    else if s == "rejected" then Some(Rejected)
    else None
  }

  /** Exactly the three names pass the enum check, each for its own status. */
  lemma StatusNames(s: string, st: Status)
    ensures ParseStatus(StatusName(st)) == Some(st)
    ensures ParseStatus(s) == Some(st) <==> s == StatusName(st)
  {
  }

  datatype Application = Application(profile: Profile, status: Status, createdAt: int, updatedAt: int)

  type AppStore = seq<Application>

  /** The `email` setters: trim, then lower-case. Mongoose applies them to
      stored values and to query conditions alike. */
  function NormaliseEmail(s: string): string
  {
    ToLower(Trim(s))
  }

  /** The fields with a `trim` setter. */
  predicate IsTrimmedField(f: Field)
  {
    f == Name || f == Email || f == Phone || f == ExpertiseArea
  }

  /** The setters of the schema: name, phone and expertise area trimmed,
      email trimmed and lower-cased, the four long answers as given. */
  function Normalise(p: Profile): Profile
  {
    p.(name := Trim(p.name), email := NormaliseEmail(p.email),
       phone := Trim(p.phone), expertiseArea := Trim(p.expertiseArea))
  }

  /** Applying the setters twice is applying them once. */
  lemma NormaliseIdempotent(p: Profile)
    ensures Normalise(Normalise(p)) == Normalise(p)
  {
    TrimIdempotent(p.name);
    TrimIdempotent(p.phone);
    TrimIdempotent(p.expertiseArea);
    LowerTrimIdempotent(p.email);
  }

  /** After the setters a field is empty exactly when it was blank (trimmed
      fields) or empty (the others). */
  lemma NormaliseEmptiness(p: Profile, f: Field)
    ensures Normalise(p).Get(f) == [] <==>
      if IsTrimmedField(f) then IsBlank(p.Get(f)) else p.Get(f) == []
  {
  }

  /** Mongoose's `required` on every string path: all eight non-empty. */
  predicate RequiredPresent(p: Profile)
  {
    && p.name != [] && p.email != [] && p.phone != [] && p.expertiseArea != []
    && p.experience != [] && p.whyTeach != [] && p.qualifications != [] && p.availability != []
  }

  lemma RequiredPresentAll(p: Profile)
    ensures RequiredPresent(p) <==> forall f :: p.Get(f) != []
  {
    if !RequiredPresent(p) {
      var f :| f in AllFields && p.Get(f) == [];
    }
  }

  /** Some field with a `trim` setter holds only whitespace. */
  predicate HasBlankTrimmedField(p: Profile)
  {
    IsBlank(p.name) || IsBlank(p.email) || IsBlank(p.phone) || IsBlank(p.expertiseArea)
  }

  /** The setters empty a present field exactly when it is a trimmed field
      holding only whitespace. */
  lemma NormaliseRequired(p: Profile)
    requires RequiredPresent(p)
    ensures RequiredPresent(Normalise(p)) <==> !HasBlankTrimmedField(p)
  {
  }

  /** A saved record: every required field present, setters applied. */
  ghost predicate WellFormed(a: Application)
  {
    RequiredPresent(a.profile) && Normalise(a.profile) == a.profile
  }

  ghost predicate StoreWellFormed(store: AppStore)
  {
    forall i :: 0 <= i < |store| ==> WellFormed(store[i])
  }

  /** `new InstructorApplication(data)` and `save()` at time `now`: setters,
      the status default or the requested status through the enum check,
      the required checks, and the hook that stamps `updatedAt`. `None`
      when validation fails. */
  function SaveNew(p: Profile, requested: Option<string>, now: int): (r: Option<Application>)
  {
    var q := Normalise(p);
    var status := if requested.None? then Some(Pending) else ParseStatus(requested.value);
    if !RequiredPresent(q) || status.None? then None
    else Some(Application(q, status.value, now, now))
  }

  /** A save succeeds iff every field is present after the setters and a
      requested status passes the enum check; the record it stores is well
      formed, normalised, and stamped with `now` twice. */
  lemma SaveNewSpec(p: Profile, requested: Option<string>, now: int)
    ensures SaveNew(p, requested, now).Some? <==>
      RequiredPresent(Normalise(p)) && (requested.None? || ParseStatus(requested.value).Some?)
    ensures SaveNew(p, requested, now).Some? ==>
      var a := SaveNew(p, requested, now).value;
      && WellFormed(a)
      && a.profile == Normalise(p)
      && a.status == (if requested.None? then Pending else ParseStatus(requested.value).value)
      && a.createdAt == now && a.updatedAt == now
  {
    NormaliseIdempotent(p);
  }

  // ---------------------------------------------------------------------
  // Environment and email

  /** One EmailJS channel; an unset variable is the empty string. */
  datatype Channel = Channel(serviceId: string, templateId: string, publicKey: string)

  predicate Complete(c: Channel)
  {
    c.serviceId != [] && c.templateId != [] && c.publicKey != []
  }

  datatype Env = Env(frontendUrl: string, accept: Channel, decline: Channel)

  /** The result of one EmailJS post: the message of the response body and
      the error's own message on failure ("" when absent). */
  datatype SendOutcome = Delivered | SendError(responseMessage: string, message: string)

  datatype Action = Accept | Decline

  function ActionName(a: Action): string
  {
    match a
    case Accept => "accept"
    case Decline => "decline"
  }

  function ParseAction(s: string): Option<Action>
  {
    if s == "accept" then Some(Accept) else if s == "decline" then Some(Decline) else None
  }

  lemma ActionNames(s: string, a: Action)
    ensures ParseAction(s) == Some(a) <==> s == ActionName(a)
  {
  }

  /** The link in the director's email, built without any encoding. */
  function DecisionUrl(frontendUrl: string, a: Action, app: Application): string
  {
    frontendUrl + "/instructor-acceptance?action=" + ActionName(a)
      + "&email=" + app.profile.email + "&name=" + app.profile.name
  }

  datatype DirectorEmail = DirectorEmail(application: Application, acceptUrl: string, declineUrl: string)

  // ---------------------------------------------------------------------
  // submitApplication

  /** The request body: its eight profile fields (an absent key is the
      empty string, equally falsy) and a `status` if it has one. */
  datatype SubmitBody = SubmitBody(fields: Profile, status: Option<string>)

  /** `!req.body[field]` for a string field. */
  predicate IsMissing(fields: Profile, f: Field)
  {
    fields.Get(f) == []
  }

  ghost predicate InFieldOrder(fs: seq<Field>)
  {
    forall i, j :: 0 <= i < j < |fs| ==> FieldIndex(fs[i]) < FieldIndex(fs[j])
  }

  lemma AllFieldsInOrder()
    ensures InFieldOrder(AllFields)
  {
    forall i, j | 0 <= i < j < |AllFields| ensures FieldIndex(AllFields[i]) < FieldIndex(AllFields[j]) {
      FieldIndexOfPosition(i);
      FieldIndexOfPosition(j);
    }
  }

  function MissingFrom(fields: Profile, fs: seq<Field>): (r: seq<Field>)
    ensures forall f :: f in r <==> f in fs && IsMissing(fields, f)
    ensures r == [] <==> forall f :: f in fs ==> !IsMissing(fields, f)
  {
    if fs == [] then []
    else (if IsMissing(fields, fs[0]) then [fs[0]] else []) + MissingFrom(fields, fs[1..])
  }

  lemma {:induction false} MissingFromInOrder(fields: Profile, fs: seq<Field>)
    requires InFieldOrder(fs)
    ensures InFieldOrder(MissingFrom(fields, fs))
  {
    if fs != [] {
      MissingFromInOrder(fields, fs[1..]);
      var rest := MissingFrom(fields, fs[1..]);
      forall k | 0 <= k < |rest| ensures FieldIndex(fs[0]) < FieldIndex(rest[k]) {
        assert rest[k] in fs[1..];
      }
    }
  }

  /** `requiredFields.filter(field => !req.body[field])`: every missing
      field, each once, in the order of the list. */
  function MissingFields(fields: Profile): (r: seq<Field>)
    ensures forall f :: f in r <==> IsMissing(fields, f)
    ensures r == [] <==> forall f :: !IsMissing(fields, f)
    ensures InFieldOrder(r)
  {
    AllFieldsComplete();
    AllFieldsInOrder();
    MissingFromInOrder(fields, AllFields);
    MissingFrom(fields, AllFields)
  }

  function MissingMessage(missing: seq<Field>): string
  {
    "Missing required fields: "
      + JoinWith(seq(|missing|, i requires 0 <= i < |missing| => FieldKey(missing[i])), ", ")
  }

  const SubmittedMessage: string := "Application submitted successfully"
  const SubmitFailedMessage: string := "Failed to submit application"

  datatype SubmitResult = SubmitResult(
    store: AppStore, reply: Reply, saved: Option<Application>, directorEmail: Option<DirectorEmail>)

  /** The handler with the status the new record is given: `requested` is
      passed on to the schema. */
  function SubmitWith(store: AppStore, fields: Profile, requested: Option<string>, now: int, env: Env)
    : SubmitResult
  {
    var missing := MissingFields(fields);
    if missing != [] then SubmitResult(store, Fail(400, MissingMessage(missing)), None, None)
    else match SaveNew(fields, requested, now)
      case None => SubmitResult(store, Fail(500, SubmitFailedMessage), None, None)
      case Some(app) =>
        var mail := DirectorEmail(app, DecisionUrl(env.frontendUrl, Accept, app), DecisionUrl(env.frontendUrl, Decline, app));
        SubmitResult(store + [app], Ok(201, SubmittedMessage), Some(app), Some(mail))
  }

  /** A submission either leaves the store alone, saves nothing and fails,
      or appends exactly the record the schema saved, with a 201. */
  lemma SubmitWithOutcome(store: AppStore, fields: Profile, requested: Option<string>, now: int, env: Env)
    ensures var r := SubmitWith(store, fields, requested, now, env);
      var saved := if MissingFields(fields) == [] then SaveNew(fields, requested, now) else None;
      && r.saved == saved
      && (saved.None? ==> r.store == store && !r.reply.success && r.directorEmail.None?)
      && (saved.None? && MissingFields(fields) == [] ==> r.reply == Fail(500, SubmitFailedMessage))
      && (saved.Some? ==> r.store == store + [saved.value] && r.reply == Ok(201, SubmittedMessage))
  {
  }

  lemma AppendKeepsWellFormed(store: AppStore, a: Application)
    requires StoreWellFormed(store) && WellFormed(a)
    ensures StoreWellFormed(store + [a])
  {
    forall i | 0 <= i < |store| + 1 ensures WellFormed((store + [a])[i]) {
      if i < |store| { assert (store + [a])[i] == store[i]; }
    }
  }

  /** `submitApplication` as written: the whole body goes to the schema, so a
      `status` in the body is stored when it passes the enum check. */
  function SubmitAsWritten(store: AppStore, body: SubmitBody, now: int, env: Env, director: SendOutcome)
    : SubmitResult
  {
    SubmitWith(store, body.fields, body.status, now, env)
  }

  /** `submitApplication` with the status left to the schema's default; the
      director email's outcome is caught and ignored. */
  function Submit(store: AppStore, body: SubmitBody, now: int, env: Env, director: SendOutcome)
    : SubmitResult
  {
    SubmitWith(store, body.fields, None, now, env)
  }

  /** A body with a missing field is refused with a message naming every
      missing field in list order, and nothing is saved. */
  lemma SubmitMissingFields(store: AppStore, body: SubmitBody, now: int, env: Env, director: SendOutcome)
    requires !RequiredPresent(body.fields)
    ensures var r := Submit(store, body, now, env, director);
      && r.store == store && r.saved.None? && r.directorEmail.None?
      && r.reply == Fail(400, MissingMessage(MissingFields(body.fields)))
  {
    RequiredPresentAll(body.fields);
    var f :| IsMissing(body.fields, f);
    assert f in MissingFields(body.fields);
  }

  /** With every field present nothing is reported missing. */
  lemma NoneMissing(fields: Profile)
    requires RequiredPresent(fields)
    ensures MissingFields(fields) == []
  {
    RequiredPresentAll(fields);
  }

  /** With every field present: whitespace-only name, email, phone or
      expertise area fail the schema (500, nothing saved); otherwise exactly
      one pending record is appended, its fields normalised, both
      timestamps `now`, and the director is mailed its decision links. */
  lemma SubmitComplete(store: AppStore, body: SubmitBody, now: int, env: Env, director: SendOutcome)
    requires RequiredPresent(body.fields)
    ensures var r := Submit(store, body, now, env, director);
      && (r.reply.code == 500 <==> HasBlankTrimmedField(body.fields))
      && (r.reply.code == 500 ==> r.store == store && r.saved.None? && !r.reply.success)
      && (r.reply.code != 500 ==>
            && r.reply == Ok(201, SubmittedMessage)
            && r.saved == Some(Application(Normalise(body.fields), Pending, now, now))
            && r.store == store + [r.saved.value]
            && WellFormed(r.saved.value))
  {
    NoneMissing(body.fields);
    NormaliseRequired(body.fields);
    SaveNewSpec(body.fields, None, now);
  }

  /** A saved application is announced to the director with its accept and
      decline links. */
  lemma SubmitMailsDirector(store: AppStore, body: SubmitBody, now: int, env: Env, director: SendOutcome)
    ensures var r := Submit(store, body, now, env, director);
      && (r.saved.Some? <==> r.directorEmail.Some?)
      && (r.saved.Some? ==> r.directorEmail.value == DirectorEmail(r.saved.value,
            DecisionUrl(env.frontendUrl, Accept, r.saved.value),
            DecisionUrl(env.frontendUrl, Decline, r.saved.value)))
  {
  }

  /** The outcome of the director email changes nothing. */
  lemma DirectorOutcomeIgnored(store: AppStore, body: SubmitBody, now: int, env: Env, d1: SendOutcome, d2: SendOutcome)
    ensures Submit(store, body, now, env, d1) == Submit(store, body, now, env, d2)
  {
  }

  /** Every record a submission creates is pending, whatever the body asks. */
  lemma SubmitCreatesPending(store: AppStore, body: SubmitBody, now: int, env: Env, director: SendOutcome)
    ensures var r := Submit(store, body, now, env, director);
      r.saved.Some? ==> r.saved.value.status == Pending && r.store == store + [r.saved.value]
  {
  }

  /** As written, a body that asks for "approved" gets an approved record
      that no director decided on. */
  lemma SubmitAsWrittenHonoursStatus(store: AppStore, body: SubmitBody, now: int, env: Env, director: SendOutcome)
    requires RequiredPresent(body.fields) && !HasBlankTrimmedField(body.fields)
    requires body.status == Some("approved")
    ensures var r := SubmitAsWritten(store, body, now, env, director);
      r.reply.code == 201 && r.saved.Some? && r.saved.value.status == Approved
  {
    SubmitWithOutcome(store, body.fields, body.status, now, env);
    NoneMissing(body.fields);
    NormaliseRequired(body.fields);
    assert ParseStatus("approved") == Some(Approved);
    SaveNewSpec(body.fields, body.status, now);
  }

  /** The two handlers agree on every body that asks for no status or for
      the default one, so what is proved of `Submit` holds of the program
      for such bodies. */
  lemma SubmitAsWrittenAgrees(store: AppStore, body: SubmitBody, now: int, env: Env, director: SendOutcome)
    requires body.status.None? || body.status == Some("pending")
    ensures SubmitAsWritten(store, body, now, env, director) == Submit(store, body, now, env, director)
  {
    assert ParseStatus("pending") == Some(Pending);
    assert SaveNew(body.fields, body.status, now) == SaveNew(body.fields, None, now);
  }

  /** The status the schema gives a record saved from a body as written. */
  function RequestedStatus(body: SubmitBody): Option<Status>
  {
    if body.status.None? then Some(Pending) else ParseStatus(body.status.value)
  }

  /** As written, with every field present: a whitespace-only trimmed field
      or a status outside the enum fails the schema (500, nothing saved);
      otherwise one record is appended with the fields normalised, the
      requested status (pending when none is given) and both timestamps
      `now`. */
  lemma SubmitAsWrittenComplete(store: AppStore, body: SubmitBody, now: int, env: Env, director: SendOutcome)
    requires RequiredPresent(body.fields)
    ensures var r := SubmitAsWritten(store, body, now, env, director);
      && (r.reply.code == 500 <==> HasBlankTrimmedField(body.fields) || RequestedStatus(body).None?)
      && (r.reply.code == 500 ==> r.store == store && r.saved.None? && r.reply == Fail(500, SubmitFailedMessage))
      && (r.reply.code != 500 ==>
            && r.reply == Ok(201, SubmittedMessage)
            && r.saved == Some(Application(Normalise(body.fields), RequestedStatus(body).value, now, now))
            && r.store == store + [r.saved.value]
            && WellFormed(r.saved.value))
  {
    SubmitWithOutcome(store, body.fields, body.status, now, env);
    NoneMissing(body.fields);
    NormaliseRequired(body.fields);
    SaveNewSpec(body.fields, body.status, now);
  }

  /** Submissions keep every stored record well formed. */
  lemma SubmitKeepsWellFormed(store: AppStore, body: SubmitBody, now: int, env: Env, director: SendOutcome)
    requires StoreWellFormed(store)
    ensures StoreWellFormed(Submit(store, body, now, env, director).store)
  {
    var r := Submit(store, body, now, env, director);
    SubmitWithOutcome(store, body.fields, None, now, env);
    if r.saved.Some? {
      SaveNewSpec(body.fields, None, now);
      AppendKeepsWellFormed(store, r.saved.value);
    }
  }

  // ---------------------------------------------------------------------
  // checkApplicationStatus

  /** `findOne({ email })`: the first record with that stored email. */
  function FindByEmail(store: AppStore, email: string): (r: Option<nat>)
    ensures r.Some? ==> r.value < |store| && store[r.value].profile.email == email
    ensures r.Some? ==> forall j :: 0 <= j < r.value ==> store[j].profile.email != email
    ensures r.None? <==> forall j :: 0 <= j < |store| ==> store[j].profile.email != email
  {
    if store == [] then None
    else if store[0].profile.email == email then Some(0)
    else match FindByEmail(store[1..], email)
      case None => None
      case Some(i) => Some(i + 1)
  }

  /** The fields the status check reveals. */
  datatype StatusView = StatusView(name: string, email: string, status: Status, expertiseArea: string, experience: string)

  function View(a: Application): StatusView
  {
    StatusView(a.profile.name, a.profile.email, a.status, a.profile.expertiseArea, a.profile.experience)
  }

  const EmailRequiredMessage: string := "Email is required"
  const NotFoundMessage: string := "Application not found"

  /** `checkApplicationStatus`; it reads the store and returns no new one.
      The 200 reply carries no message. */
  function CheckStatus(store: AppStore, email: string): (Reply, Option<StatusView>)
  {
    if email == [] then (Fail(400, EmailRequiredMessage), None)
    else match FindByEmail(store, NormaliseEmail(email))
      case None => (Fail(404, NotFoundMessage), None)
      case Some(i) => (Ok(200, ""), Some(View(store[i])))
  }

  /** 400 without an email, 404 when no record has the normalised email,
      otherwise the view of the first record that has it. */
  lemma CheckStatusSpec(store: AppStore, email: string)
    ensures var (reply, view) := CheckStatus(store, email);
      && (reply.code == 400 <==> email == [])
      && (reply.code == 404 <==> email != [] && forall j :: 0 <= j < |store| ==> store[j].profile.email != NormaliseEmail(email))
      && (reply.code == 200 <==> view.Some?)
      && (view.Some? ==> exists i :: 0 <= i < |store| && store[i].profile.email == NormaliseEmail(email)
                                   && view.value == View(store[i])
                                   && forall j :: 0 <= j < i ==> store[j].profile.email != NormaliseEmail(email))
  {
  }

  /** A record appended under an email no earlier record has is the one
      `findOne` finds. */
  lemma FindAppended(store: AppStore, app: Application)
    requires forall j :: 0 <= j < |store| ==> store[j].profile.email != app.profile.email
    ensures FindByEmail(store + [app], app.profile.email) == Some(|store|)
  {
    var s := store + [app];
    assert s[|store|].profile.email == app.profile.email;
  }

  /** After a first submission for an address, the status check with the
      same address, as typed, reports the saved application, whatever
      status it was saved with. */
  lemma SubmitWithThenCheckStatus(store: AppStore, fields: Profile, requested: Option<string>, now: int, env: Env)
    requires RequiredPresent(fields)
    requires forall j :: 0 <= j < |store| ==> store[j].profile.email != NormaliseEmail(fields.email)
    ensures var r := SubmitWith(store, fields, requested, now, env);
      r.reply.code == 201 ==> r.saved.Some? && CheckStatus(r.store, fields.email) == (Ok(200, ""), Some(View(r.saved.value)))
  {
    var r := SubmitWith(store, fields, requested, now, env);
    SubmitWithOutcome(store, fields, requested, now, env);
    NoneMissing(fields);
    if r.reply.code == 201 {
      SaveNewSpec(fields, requested, now);
      var app := r.saved.value;
      var e := NormaliseEmail(fields.email);
      assert app.profile.email == e;
      FindAppended(store, app);
      assert FindByEmail(r.store, e) == Some(|store|);
      assert fields.email != [];
      assert r.store[|store|] == app;
    }
  }

  /** As written, the status check after a first submission reports the
      status the body asked for: a body with "approved" is reported
      approved. */
  lemma SubmitAsWrittenThenCheckStatus(store: AppStore, body: SubmitBody, now: int, env: Env, director: SendOutcome)
    requires RequiredPresent(body.fields)
    requires forall j :: 0 <= j < |store| ==> store[j].profile.email != NormaliseEmail(body.fields.email)
    ensures var r := SubmitAsWritten(store, body, now, env, director);
      r.reply.code == 201 ==>
        && CheckStatus(r.store, body.fields.email) == (Ok(200, ""), Some(View(r.saved.value)))
        && Some(r.saved.value.status) == RequestedStatus(body)
  {
    SubmitWithThenCheckStatus(store, body.fields, body.status, now, env);
    SubmitAsWrittenComplete(store, body, now, env, director);
  }

  /** After a first submission for an address, the status check with the
      same address, as typed, reports that application as pending. */
  lemma SubmitThenCheckStatus(store: AppStore, body: SubmitBody, now: int, env: Env, director: SendOutcome)
    requires RequiredPresent(body.fields)
    requires forall j :: 0 <= j < |store| ==> store[j].profile.email != NormaliseEmail(body.fields.email)
    ensures var r := Submit(store, body, now, env, director);
      r.reply.code == 201 ==>
        && CheckStatus(r.store, body.fields.email) == (Ok(200, ""), Some(View(r.saved.value)))
        && r.saved.value.status == Pending
  {
    SubmitWithThenCheckStatus(store, body.fields, None, now, env);
    SubmitCreatesPending(store, body, now, env, director);
  }

  // ---------------------------------------------------------------------
  // confirmApplication

  datatype ConfirmBody = ConfirmBody(action: string, email: string, name: string)

  datatype ConfirmData = ConfirmData(
    name: string, email: string, status: Status, emailSent: bool, emailError: Option<string>)

  datatype ConfirmResult = ConfirmResult(
    store: AppStore, users: Users.UserStore, reply: Reply, data: Option<ConfirmData>, attempts: nat)

  const MissingParamsMessage: string := "Missing required parameters: action, email, and name are required"
  const InvalidActionMessage: string := "Invalid action. Must be either \"accept\" or \"decline\""
  const AlreadyProcessedMessage: string := "Application not found or already processed"
  const ProcessFailedMessage: string := "Failed to process application"

  /** The status a decision moves a pending application to. */
  function Decided(a: Action): (s: Status)
    ensures s != Pending
  {
    match a
    case Accept => Approved
    case Decline => Rejected
  }

  /** The condition `{ email, status: 'pending' }`. */
  predicate PendingFor(a: Application, email: string)
  {
    a.profile.email == email && a.status == Pending
  }

  /** `findOneAndUpdate`'s match: the first pending record for the email. */
  function FindPending(store: AppStore, email: string): (r: Option<nat>)
    ensures r.Some? ==> r.value < |store| && PendingFor(store[r.value], email)
    ensures r.Some? ==> forall j :: 0 <= j < r.value ==> !PendingFor(store[j], email)
    ensures r.None? <==> forall j :: 0 <= j < |store| ==> !PendingFor(store[j], email)
  {
    if store == [] then None
    else if PendingFor(store[0], email) then Some(0)
    else match FindPending(store[1..], email)
      case None => None
      case Some(i) => Some(i + 1)
  }

  /** The number of pending records for an email. */
  function PendingCount(store: AppStore, email: string): nat
  {
    if store == [] then 0
    else PendingCount(store[..|store| - 1], email) + (if PendingFor(store[|store| - 1], email) then 1 else 0)
  }

  lemma {:induction false} PendingCountZero(store: AppStore, email: string)
    ensures PendingCount(store, email) == 0 <==> forall j :: 0 <= j < |store| ==> !PendingFor(store[j], email)
  {
    if store != [] {
      var init := store[..|store| - 1];
      PendingCountZero(init, email);
      assert forall j :: 0 <= j < |init| ==> init[j] == store[j];
    }
  }

  /** Deciding one pending record takes one off its email's count. */
  lemma {:induction false} PendingCountAfterDecision(store: AppStore, email: string, i: nat, x: Application)
    requires i < |store| && PendingFor(store[i], email) && !PendingFor(x, email)
    ensures PendingCount(store[i := x], email) == PendingCount(store, email) - 1
    decreases |store|
  {
    var s' := store[i := x];
    var last := |store| - 1;
    assert s'[..last] == if i < last then store[..last][i := x] else store[..last];
    if i < last {
      PendingCountAfterDecision(store[..last], email, i, x);
    }
  }

  /** Two posts at most: the retry only after a failure. The reported error
      is the retry's response message, or its own message. */
  function SendWithRetry(first: SendOutcome, retry: SendOutcome): (r: (bool, Option<string>, nat))
    ensures r.2 == (if first.Delivered? then 1 else 2)
    ensures r.0 <==> first.Delivered? || retry.Delivered?
    ensures r.0 <==> r.1.None?
    ensures !r.0 ==> r.1 == Some(if retry.responseMessage != [] then retry.responseMessage else retry.message)
  {
    if first.Delivered? then (true, None, 1)
    else if retry.Delivered? then (true, None, 2)
    else (false, Some(if retry.responseMessage != [] then retry.responseMessage else retry.message), 2)
  }

  function EmailSuffix(sent: bool): string
  {
    if sent then " and email sent" else " but email failed to send"
  }

  /** The word the message uses as written: the action with "ed" appended. */
  function AsWrittenWord(a: Action): string
  {
    ActionName(a) + "ed"
  }

  /** The message as written. */
  function ConfirmMessageAsWritten(a: Action, sent: bool): string
  {
    "Application " + AsWrittenWord(a) + " successfully" + EmailSuffix(sent)
  }

  function PastTense(a: Action): string
  {
    match a
    case Accept => "accepted"
    case Decline => "declined"
  }

  /** The message with the past tense spelt correctly. */
  function ConfirmMessage(a: Action, sent: bool): string
  {
    "Application " + PastTense(a) + " successfully" + EmailSuffix(sent)
  }

  /** English's regular past tense: "d" after a final "e", else "ed". */
  function RegularPastTense(v: string): string
  {
    if v != [] && v[|v| - 1] == 'e' then v + "d" else v + "ed"
  }

  /** The corrected word is the regular past tense of the action word; for
      an acceptance the two messages agree. */
  lemma ConfirmMessageCorrected(a: Action, sent: bool)
    ensures PastTense(a) == RegularPastTense(ActionName(a))
    ensures ConfirmMessage(a, sent) == "Application " + RegularPastTense(ActionName(a)) + " successfully" + EmailSuffix(sent)
    ensures a == Accept ==> PastTense(a) == AsWrittenWord(a)
  {
    assert ActionName(a)[|ActionName(a)| - 1] == (if a == Decline then 'e' else 't');
  }

  /** As written, a decline is reported as "declineed". */
  lemma DeclineMessageMisspelt(sent: bool)
    ensures AsWrittenWord(Decline) == "declineed"
    ensures ConfirmMessageAsWritten(Decline, sent) != ConfirmMessage(Decline, sent)
  {
    assert |AsWrittenWord(Decline)| == |PastTense(Decline)| + 1;
  }

  /** `confirmApplication`: the parameter checks, then the decision. */
  function Confirm(store: AppStore, users: Users.UserStore, body: ConfirmBody, env: Env,
                   first: SendOutcome, retry: SendOutcome): ConfirmResult
  {
    if body.action == [] || body.email == [] || body.name == [] then
      ConfirmResult(store, users, Fail(400, MissingParamsMessage), None, 0)
    else match ParseAction(body.action)
      case None => ConfirmResult(store, users, Fail(400, InvalidActionMessage), None, 0)
      case Some(a) => Decide(store, users, a, body.email, env, first, retry)
  }

  /** The guarded status change, the best-effort role promotion, then the
      decision email. */
  function Decide(store: AppStore, users: Users.UserStore, a: Action, email: string, env: Env,
                  first: SendOutcome, retry: SendOutcome): ConfirmResult
  {
    match FindPending(store, NormaliseEmail(email))
    case None => ConfirmResult(store, users, Fail(404, AlreadyProcessedMessage), None, 0)
    case Some(i) =>
      var app := store[i].(status := Decided(a));
      var users' := if a == Accept then Users.PromoteToInstructor(users, email) else users;
      Notify(store[i := app], users', a, app, env, first, retry)
  }

  /** The channel check and the email with one retry, after the store and
      the users have been updated. */
  function Notify(store: AppStore, users: Users.UserStore, a: Action, app: Application, env: Env,
                  first: SendOutcome, retry: SendOutcome): ConfirmResult
  {
    var channel := if a == Accept then env.accept else env.decline;
    if !Complete(channel) then ConfirmResult(store, users, Fail(500, ProcessFailedMessage), None, 0)
    else
      var (sent, error, attempts) := SendWithRetry(first, retry);
      var data := ConfirmData(app.profile.name, app.profile.email, app.status, sent, error);
      ConfirmResult(store, users, Ok(200, ConfirmMessage(a, sent)), Some(data), attempts)
  }

  /** Missing parameters or an unknown action: 400 and nothing changes. */
  lemma ConfirmRejectsBadInput(store: AppStore, users: Users.UserStore, body: ConfirmBody, env: Env,
                               first: SendOutcome, retry: SendOutcome)
    requires body.action == [] || body.email == [] || body.name == [] || ParseAction(body.action).None?
    ensures var r := Confirm(store, users, body, env, first, retry);
      && r.reply.code == 400 && !r.reply.success
      && r.store == store && r.users == users && r.attempts == 0
      && r.reply.message == (if body.action == [] || body.email == [] || body.name == []
                             then MissingParamsMessage else InvalidActionMessage)
  {
  }

  /** The decision fails with 404 exactly when no record for the normalised
      email is pending; otherwise the first such record, and only it, takes
      the decided status, keeping its fields and timestamps (the update
      bypasses the save hook), and the count of pending records for the
      email drops by one. Users change only on an accept. */
  lemma DecideTransition(store: AppStore, users: Users.UserStore, a: Action, email: string, env: Env,
                         first: SendOutcome, retry: SendOutcome)
    ensures var r := Decide(store, users, a, email, env, first, retry);
      var e := NormaliseEmail(email);
      && |r.store| == |store|
      && (r.reply.code == 404 <==> PendingCount(store, e) == 0)
      && (r.reply.code == 404 ==> r.store == store && r.users == users && r.attempts == 0)
      && (r.reply.code != 404 ==>
            && PendingCount(r.store, e) == PendingCount(store, e) - 1
            && r.users == (if a == Accept then Users.PromoteToInstructor(users, email) else users)
            && exists i :: 0 <= i < |store| && PendingFor(store[i], e)
                 && (forall j :: 0 <= j < i ==> !PendingFor(store[j], e))
                 && r.store == store[i := store[i].(status := Decided(a))])
  {
    var e := NormaliseEmail(email);
    PendingCountZero(store, e);
    match FindPending(store, e)
    case None =>
    case Some(i) =>
      PendingCountAfterDecision(store, e, i, store[i].(status := Decided(a)));
  }

  /** With valid parameters a confirm is the decision for its action and
      email. */
  lemma ConfirmDecides(store: AppStore, users: Users.UserStore, body: ConfirmBody, env: Env,
                       first: SendOutcome, retry: SendOutcome)
    requires body.action != [] && body.email != [] && body.name != [] && ParseAction(body.action).Some?
    ensures Confirm(store, users, body, env, first, retry)
      == Decide(store, users, ParseAction(body.action).value, body.email, env, first, retry)
  {
  }

  /** A pending record appended for an email no earlier record is pending
      for is the one the decision finds. */
  lemma FindPendingAppended(store: AppStore, app: Application, e: string)
    requires forall j :: 0 <= j < |store| ==> !PendingFor(store[j], e)
    requires PendingFor(app, e)
    ensures FindPending(store + [app], e) == Some(|store|)
  {
    assert PendingFor((store + [app])[|store|], e);
  }

  /** Once the only pending record for an email has been decided, every
      further confirm for that email fails with 404. */
  lemma SecondConfirmFails(store: AppStore, users: Users.UserStore, body: ConfirmBody, body2: ConfirmBody, env: Env,
                           first: SendOutcome, retry: SendOutcome, first2: SendOutcome, retry2: SendOutcome)
    requires body.action != [] && body.email != [] && body.name != [] && ParseAction(body.action).Some?
    requires body2.action != [] && body2.name != [] && ParseAction(body2.action).Some?
    requires body2.email == body.email
    requires PendingCount(store, NormaliseEmail(body.email)) == 1
    ensures var r := Confirm(store, users, body, env, first, retry);
      && r.reply.code != 404
      && Confirm(r.store, r.users, body2, env, first2, retry2).reply
           == Fail(404, AlreadyProcessedMessage)
  {
    var r := Confirm(store, users, body, env, first, retry);
    DecideTransition(store, users, ParseAction(body.action).value, body.email, env, first, retry);
    DecideTransition(r.store, r.users, ParseAction(body2.action).value, body2.email, env, first2, retry2);
  }

  /** After the status change: with an incomplete channel the reply is 500
      and no email is tried; otherwise the reply is a success whatever the
      email did, at most two posts are made, `email_sent` says whether one
      got through, and the message names the decision and that outcome. */
  lemma NotifyOutcome(store: AppStore, users: Users.UserStore, a: Action, app: Application, env: Env,
                      first: SendOutcome, retry: SendOutcome)
    ensures var r := Notify(store, users, a, app, env, first, retry);
      var channel := if a == Accept then env.accept else env.decline;
      && r.store == store && r.users == users
      && (!Complete(channel) ==> r.reply == Fail(500, ProcessFailedMessage) && r.attempts == 0 && r.data.None?)
      && (Complete(channel) ==>
            && r.reply.success && r.reply.code == 200
            && 1 <= r.attempts <= 2
            && r.data.Some?
            && (r.data.value.emailSent <==> first.Delivered? || retry.Delivered?)
            && r.data.value.status == app.status
            && r.reply.message == ConfirmMessage(a, r.data.value.emailSent))
  {
  }

  /** The reply of a notification with a complete channel against the
      message as written: they agree exactly on an acceptance. */
  lemma NotifyAsWrittenReply(store: AppStore, users: Users.UserStore, a: Action, app: Application, env: Env,
                             first: SendOutcome, retry: SendOutcome)
    requires Complete(if a == Accept then env.accept else env.decline)
    ensures var r := Notify(store, users, a, app, env, first, retry);
      && r.data.Some?
      && r.reply.message == ConfirmMessage(a, r.data.value.emailSent)
      && (r.reply.message == ConfirmMessageAsWritten(a, r.data.value.emailSent) <==> a == Accept)
  {
    var r := Notify(store, users, a, app, env, first, retry);
    NotifyOutcome(store, users, a, app, env, first, retry);
    ConfirmMessageCorrected(a, r.data.value.emailSent);
    if a == Decline {
      DeclineMessageMisspelt(r.data.value.emailSent);
    }
  }

  lemma StatusChangeKeepsWellFormed(store: AppStore, i: nat, s: Status)
    requires i < |store| && StoreWellFormed(store)
    ensures StoreWellFormed(store[i := store[i].(status := s)])
  {
    assert WellFormed(store[i]);
  }

  /** Notifying changes neither the store nor the users. */
  lemma NotifyKeepsStore(store: AppStore, users: Users.UserStore, a: Action, app: Application, env: Env,
                         first: SendOutcome, retry: SendOutcome)
    ensures Notify(store, users, a, app, env, first, retry).store == store
    ensures Notify(store, users, a, app, env, first, retry).users == users
  {
  }

  lemma DecideKeepsWellFormed(store: AppStore, users: Users.UserStore, a: Action, email: string, env: Env,
                              first: SendOutcome, retry: SendOutcome)
    requires StoreWellFormed(store)
    ensures StoreWellFormed(Decide(store, users, a, email, env, first, retry).store)
  {
    match FindPending(store, NormaliseEmail(email))
    case None =>
    case Some(i) =>
      var app := store[i].(status := Decided(a));
      var users' := if a == Accept then Users.PromoteToInstructor(users, email) else users;
      assert Decide(store, users, a, email, env, first, retry)
        == Notify(store[i := app], users', a, app, env, first, retry);
      NotifyKeepsStore(store[i := app], users', a, app, env, first, retry);
      StatusChangeKeepsWellFormed(store, i, Decided(a));
  }

  /** Confirming keeps every stored record well formed. */
  lemma ConfirmKeepsWellFormed(store: AppStore, users: Users.UserStore, body: ConfirmBody, env: Env,
                               first: SendOutcome, retry: SendOutcome)
    requires StoreWellFormed(store)
    ensures StoreWellFormed(Confirm(store, users, body, env, first, retry).store)
  {
    if body.action != [] && body.email != [] && body.name != [] && ParseAction(body.action).Some? {
      ConfirmDecides(store, users, body, env, first, retry);
      DecideKeepsWellFormed(store, users, ParseAction(body.action).value, body.email, env, first, retry);
    }
  }

  /** The decision on an accepted record appended last, when it is the only
      pending one for its own normalised email. */
  lemma DecideAppendedAccept(store: AppStore, users: Users.UserStore, app: Application, env: Env,
                             first: SendOutcome, retry: SendOutcome)
    requires NormaliseEmail(app.profile.email) == app.profile.email
    requires PendingFor(app, app.profile.email)
    requires forall j :: 0 <= j < |store| ==> !PendingFor(store[j], app.profile.email)
    ensures var app' := app.(status := Approved);
      Decide(store + [app], users, Accept, app.profile.email, env, first, retry)
        == Notify(store + [app'], Users.PromoteToInstructor(users, app.profile.email), Accept, app', env, first, retry)
  {
    FindPendingAppended(store, app, app.profile.email);
    assert (store + [app])[|store| := app.(status := Approved)] == store + [app.(status := Approved)];
  }

  /** A well formed record's email is already normalised. */
  lemma WellFormedEmail(app: Application)
    requires WellFormed(app)
    ensures NormaliseEmail(app.profile.email) == app.profile.email
  {
    assert Normalise(app.profile).email == app.profile.email;
  }

  /** Accepting, by its own email and name, a pending application that was
      appended last and is the only pending one for its email. */
  lemma AcceptAppended(store: AppStore, users: Users.UserStore, app: Application, env: Env,
                       first: SendOutcome, retry: SendOutcome)
    requires WellFormed(app) && app.status == Pending
    requires PendingCount(store, app.profile.email) == 0
    ensures var c := Confirm(store + [app], users, ConfirmBody("accept", app.profile.email, app.profile.name), env, first, retry);
      && c.store == store + [app.(status := Approved)]
      && c.users == Users.PromoteToInstructor(users, app.profile.email)
      && (c.reply.code == 200 || c.reply.code == 500)
  {
    var e := app.profile.email;
    WellFormedEmail(app);
    PendingCountZero(store, e);
    FindPendingAppended(store, app, e);
    var body := ConfirmBody("accept", e, app.profile.name);
    assert ParseAction(body.action) == Some(Accept);
    ConfirmDecides(store + [app], users, body, env, first, retry);
    DecideAppendedAccept(store, users, app, env, first, retry);
    var app' := app.(status := Approved);
    NotifyOutcome(store + [app'], Users.PromoteToInstructor(users, e), Accept, app', env, first, retry);
  }

  /** The scenario of the workflow: a fresh application, accepted through
      the address and name of its decision link, ends approved, and its
      applicant, if registered, becomes an instructor. */
  lemma SubmitThenAccept(store: AppStore, users: Users.UserStore, body: SubmitBody, now: int, env: Env,
                         director: SendOutcome, first: SendOutcome, retry: SendOutcome)
    requires RequiredPresent(body.fields)
    requires PendingCount(store, NormaliseEmail(body.fields.email)) == 0
    ensures var s := Submit(store, body, now, env, director);
      s.reply.code == 201 ==>
        var app := s.saved.value;
        var c := Confirm(s.store, users, ConfirmBody("accept", app.profile.email, app.profile.name), env, first, retry);
        && c.store == store + [app.(status := Approved)]
        && c.users == Users.PromoteToInstructor(users, app.profile.email)
        && (c.reply.code == 200 || c.reply.code == 500)
  {
    var s := Submit(store, body, now, env, director);
    SubmitComplete(store, body, now, env, director);
    if s.reply.code == 201 {
      AcceptAppended(store, users, s.saved.value, env, first, retry);
    }
  }

  /** Appending a record adds one to its email's pending count exactly when
      it is pending for that email. */
  lemma PendingCountAppend(store: AppStore, app: Application, e: string)
    ensures PendingCount(store + [app], e) == PendingCount(store, e) + (if PendingFor(app, e) then 1 else 0)
  {
    assert (store + [app])[..|store|] == store;
  }

  /** Accepting, by its own email and name, a record appended last with a
      decided status, when no earlier record is pending for its email: no
      pending record is found, so the reply is 404 and nothing changes. */
  lemma AcceptDecidedAppended(store: AppStore, users: Users.UserStore, app: Application, env: Env,
                              first: SendOutcome, retry: SendOutcome)
    requires WellFormed(app) && app.status != Pending
    requires PendingCount(store, app.profile.email) == 0
    ensures var c := Confirm(store + [app], users, ConfirmBody("accept", app.profile.email, app.profile.name), env, first, retry);
      c.reply == Fail(404, AlreadyProcessedMessage) && c.store == store + [app] && c.users == users
  {
    var e := app.profile.email;
    WellFormedEmail(app);
    PendingCountAppend(store, app, e);
    PendingCountZero(store + [app], e);
    var body := ConfirmBody("accept", e, app.profile.name);
    assert ParseAction(body.action) == Some(Accept);
    ConfirmDecides(store + [app], users, body, env, first, retry);
  }

  /** As written, a fresh submission saved pending is accepted as with
      `Submit`; one that asked for a decided status can never be confirmed:
      the accept through its own link gets 404 and changes nothing. */
  lemma SubmitAsWrittenThenAccept(store: AppStore, users: Users.UserStore, body: SubmitBody, now: int, env: Env,
                                  director: SendOutcome, first: SendOutcome, retry: SendOutcome)
    requires RequiredPresent(body.fields)
    requires PendingCount(store, NormaliseEmail(body.fields.email)) == 0
    ensures var s := SubmitAsWritten(store, body, now, env, director);
      s.reply.code == 201 ==>
        var app := s.saved.value;
        var c := Confirm(s.store, users, ConfirmBody("accept", app.profile.email, app.profile.name), env, first, retry);
        && (app.status == Pending ==>
              && c.store == store + [app.(status := Approved)]
              && c.users == Users.PromoteToInstructor(users, app.profile.email)
              && (c.reply.code == 200 || c.reply.code == 500))
        && (app.status != Pending ==>
              c.reply == Fail(404, AlreadyProcessedMessage) && c.store == s.store && c.users == users)
  {
    var s := SubmitAsWritten(store, body, now, env, director);
    SubmitAsWrittenComplete(store, body, now, env, director);
    if s.reply.code == 201 {
      var app := s.saved.value;
      if app.status == Pending {
        AcceptAppended(store, users, app, env, first, retry);
      } else {
        AcceptDecidedAppended(store, users, app, env, first, retry);
      }
    }
  }
}
