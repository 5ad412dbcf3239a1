/** The instructor-application form of the front end
    (frontend/src/pages/InstructorRequestForm.jsx): `validateForm` with its
    trim checks and its email and phone patterns, the error clearing of
    `handleInputChange`, and what `handleSubmit` sends and resets. The
    network call is an input: whether the request succeeded and the server's
    message. */
module RequestForm {
  import opened Text
  import opened ApplicationFields

  type FormData = Profile

  function RequiredMessage(f: Field): string
  {
    match f
    case Name => "Name is required"
    case Email => "Email is required"
    case Phone => "Phone number is required"
    case ExpertiseArea => "Expertise area is required"
    case Experience => "Teaching experience is required"
    case WhyTeach => "Please explain why you want to teach"
    case Qualifications => "Qualifications are required"
    case Availability => "Availability information is required"
  }

  const InvalidEmailMessage: string := "Email is invalid"
  const InvalidPhoneMessage: string := "Phone number is invalid"

  // ---------------------------------------------------------------------
  // The email pattern /\S+@\S+\.\S+/ (unanchored)

  /** The pattern matches the slice `s[i..j]`, with the `@` at `a` and the
      `.` at `d`: three non-empty whitespace-free runs around them. */
  ghost predicate EmailMatchAt(s: string, i: int, a: int, d: int, j: int)
  {
    && 0 <= i < a && a + 1 < d && d + 1 < j <= |s|
    && NoWhitespace(s[i..a]) && s[a] == '@'
    && NoWhitespace(s[a + 1..d]) && s[d] == '.'
    && NoWhitespace(s[d + 1..j])
  }

  /** `/\S+@\S+\.\S+/.test(s)`: some slice of `s` matches. */
  ghost predicate EmailPattern(s: string)
  {
    exists i, a, d, j :: EmailMatchAt(s, i, a, d, j)
  }

  /** The same test on characters: an `@` with a non-space before it, a `.`
      later with only non-space between and a non-space after it. */
  predicate EmailLooksValid(s: string)
  {
    exists a, d :: 0 < a && a + 1 < d && d + 1 < |s| && EmailShapeAt(s, a, d)
  }

  predicate EmailShapeAt(s: string, a: int, d: int)
    requires 0 < a && a + 1 < d && d + 1 < |s|
  {
    && s[a] == '@' && s[d] == '.'
    && !IsWhitespace(s[a - 1])
    && (forall k :: a < k < d ==> !IsWhitespace(s[k]))
    && !IsWhitespace(s[d + 1])
  }

  /** The character test is exactly the regular expression. */
  lemma EmailCheckIsPattern(s: string)
    ensures EmailLooksValid(s) <==> EmailPattern(s)
  {
    if EmailLooksValid(s) {
      var a, d :| 0 < a && a + 1 < d && d + 1 < |s| && EmailShapeAt(s, a, d);
      assert s[a + 1..d] == s[a + 1..d];
      assert EmailMatchAt(s, a - 1, a, d, d + 2);
    }
    if EmailPattern(s) {
      var i, a, d, j :| EmailMatchAt(s, i, a, d, j);
      assert s[a - 1] == s[i..a][a - 1 - i];
      assert s[d + 1] == s[d + 1..j][0];
      forall k | a < k < d ensures !IsWhitespace(s[k]) {
        assert s[k] == s[a + 1..d][k - a - 1];
      }
      assert EmailShapeAt(s, a, d);
    }
  }

  // ---------------------------------------------------------------------
  // The phone pattern /^\+?[\d\s-()]{10,}$/

  /** One character of the class `[\d\s-()]`: a digit, whitespace, `-`, `(`
      or `)` (the `\s-(` of the class is not a range). */
  predicate IsPhoneChar(c: char)
  {
    IsDigit(c) || IsWhitespace(c) || c == '-' || c == '(' || c == ')'
  }

  predicate AllPhoneChars(s: string)
  {
    forall i :: 0 <= i < |s| ==> IsPhoneChar(s[i])
  }

  /** The two ways the anchored pattern can match: without or with the
      leading `+`. */
  ghost predicate PhonePattern(s: string)
  {
    || (|s| >= 10 && AllPhoneChars(s))
    || (|s| >= 11 && s[0] == '+' && AllPhoneChars(s[1..]))
  }

  /** The check: strip one leading `+`, then ten or more class characters. */
  predicate PhoneLooksValid(s: string)
  {
    var body := if |s| > 0 && s[0] == '+' then s[1..] else s;
    |body| >= 10 && AllPhoneChars(body)
  }

  lemma PhoneCheckIsPattern(s: string)
    ensures PhoneLooksValid(s) <==> PhonePattern(s)
  {
    if |s| > 0 && s[0] == '+' {
      assert !IsPhoneChar(s[0]);
    }
  }

  // ---------------------------------------------------------------------
  // validateForm

  /** The error `validateForm` records for one field, if any. */
  function FieldError(d: FormData, f: Field): Option<string>
  {
    if IsBlank(d.Get(f)) then Some(RequiredMessage(f))
    else if f == Email && !EmailLooksValid(d.email) then Some(InvalidEmailMessage)
    else if f == Phone && !PhoneLooksValid(d.phone) then Some(InvalidPhoneMessage)
    else None
  }

  /** `validateForm`: the error map it stores and the verdict it returns. */
  function ValidateForm(d: FormData): (r: (map<Field, string>, bool))
    ensures forall f :: f in r.0 <==> FieldError(d, f).Some?
    ensures forall f :: f in r.0 ==> r.0[f] == FieldError(d, f).value
    ensures r.1 <==> r.0 == map[]
  {
    var errors := map f | f in AllFields && FieldError(d, f).Some? :: FieldError(d, f).value;
    assert forall f :: f in AllFields by {
      forall f { AllFieldsListed(f); }
    }
    assert errors != map[] ==> |errors.Keys| > 0 by {
      if errors != map[] {
        var f :| f in errors;
        assert f in errors.Keys;
      }
    }
    (errors, |errors.Keys| == 0)
  }

  /** The form passes iff every field is non-blank after trimming, the email
      matches /\S+@\S+\.\S+/ and the phone matches /^\+?[\d\s-()]{10,}$/. */
  lemma ValidIffPatterns(d: FormData)
    ensures ValidateForm(d).1 <==>
      && (forall f :: !IsBlank(d.Get(f)))
      && EmailPattern(d.email)
      && PhonePattern(d.phone)
  {
    EmailCheckIsPattern(d.email);
    PhoneCheckIsPattern(d.phone);
    var r := ValidateForm(d);
    if r.1 {
      forall f ensures !IsBlank(d.Get(f)) {
        assert f !in r.0;
      }
      assert Email !in r.0 && Phone !in r.0;
    } else {
      var f :| f in r.0;
    }
  }

  /** Each blank field gets its own "required" message, whatever the others
      hold; a non-blank email or phone that fails its pattern gets the
      "invalid" message. */
  lemma FieldMessages(d: FormData, f: Field)
    ensures IsBlank(d.Get(f)) ==> f in ValidateForm(d).0 && ValidateForm(d).0[f] == RequiredMessage(f)
    ensures f == Email && !IsBlank(d.email) ==>
      (Email in ValidateForm(d).0 <==> !EmailPattern(d.email))
      && (Email in ValidateForm(d).0 ==> ValidateForm(d).0[Email] == InvalidEmailMessage)
    ensures f == Phone && !IsBlank(d.phone) ==>
      (Phone in ValidateForm(d).0 <==> !PhonePattern(d.phone))
      && (Phone in ValidateForm(d).0 ==> ValidateForm(d).0[Phone] == InvalidPhoneMessage)
  {
    EmailCheckIsPattern(d.email);
    PhoneCheckIsPattern(d.phone);
  }

  // ---------------------------------------------------------------------
  // handleInputChange and handleSubmit

  datatype FormState = FormState(data: FormData, errors: map<Field, string>)

  /** `handleInputChange`: store the value; a truthy error of that field is
      overwritten with the empty string (the key stays). */
  function HandleInputChange(st: FormState, f: Field, v: string): (r: FormState)
    ensures r.data.Get(f) == v
    ensures forall g :: g != f ==> r.data.Get(g) == st.data.Get(g)
    ensures r.errors.Keys == st.errors.Keys
    ensures f in r.errors ==> r.errors[f] == ""
    ensures forall g :: g != f && g in st.errors ==> r.errors[g] == st.errors[g]
  {
    var errors := if f in st.errors && st.errors[f] != "" then st.errors[f := ""] else st.errors;
    FormState(st.data.Set(f, v), errors)
  }

  /** The signed-in user as the page loaded it; a missing name or email is
      the empty string. */
  datatype LoadedUser = LoadedUser(name: string, email: string)

  /** The outcome of the POST; `serverMessage` is "" when the response had
      none. */
  datatype SendResult = Sent | SendFailed(serverMessage: string)

  datatype SubmitStatus = Success(message: string) | Failure(message: string)

  const SubmittedMessage: string :=
    "Your instructor request has been submitted successfully! You will receive a response within 2-3 business days."
  const CorrectErrorsMessage: string := "Please correct the errors above."
  const SendFailedMessage: string := "Failed to send request"

  /** The form after a successful submission: name and email from the
      loaded user, every other field empty. */
  function ResetForm(user: Option<LoadedUser>): (d: FormData)
    ensures forall f :: f != Name && f != Email ==> d.Get(f) == ""
    ensures d.name == (if user.Some? then user.value.name else "")
    ensures d.email == (if user.Some? then user.value.email else "")
  {
    var name := if user.Some? then user.value.name else "";
    var email := if user.Some? then user.value.email else "";
    Profile(name, email, "", "", "", "", "", "")
  }

  /** `handleSubmit`: the new state, the body sent to the server (if any)
      and the status shown. */
  function HandleSubmit(st: FormState, user: Option<LoadedUser>, send: SendResult)
    : (r: (FormState, Option<FormData>, SubmitStatus))
  {
    var (errors, valid) := ValidateForm(st.data);
    if !valid then (FormState(st.data, errors), None, Failure(CorrectErrorsMessage))
    else match send
      case Sent => (FormState(ResetForm(user), errors), Some(st.data), Success(SubmittedMessage))
      case SendFailed(m) =>
        (FormState(st.data, errors), Some(st.data), Failure(if m != "" then m else SendFailedMessage))
  }

  /** An invalid form sends nothing and keeps its data; a valid one sends
      exactly its data; after success only name and email are refilled. */
  lemma SubmitBehaviour(st: FormState, user: Option<LoadedUser>, send: SendResult)
    ensures var (st', sent, status) := HandleSubmit(st, user, send);
      && st'.errors == ValidateForm(st.data).0
      && (sent.Some? <==> ValidateForm(st.data).1)
      && (sent.Some? ==> sent.value == st.data)
      && (status.Success? <==> sent.Some? && send.Sent?)
      && (status.Success? ==>
            && st'.data.name == (if user.Some? then user.value.name else "")
            && st'.data.email == (if user.Some? then user.value.email else "")
            && forall f :: f != Name && f != Email ==> st'.data.Get(f) == "")
      && (!status.Success? ==> st'.data == st.data)
  {
  }
}
