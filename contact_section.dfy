/** components/ContactSection.tsx: the contact form's validation rules, the order of the steps
    of a submission (rate limit, validate, sanitize, reset) and the per-field edit. */
module ContactSection {
  import opened Wrappers
  import opened JsText
  import opened Security

  // ---------------------------------------------------------------------------------------
  // Form data

  datatype Field = Name | Email | Phone | Message

  /** `formData`: the four controlled inputs. */
  datatype FormData = FormData(name: string, email: string, phone: string, message: string)

  const EmptyForm := FormData("", "", "", "")

  function Get(data: FormData, field: Field): string {
    match field
    case Name => data.name
    case Email => data.email
    case Phone => data.phone
    case Message => data.message
  }

  /** `{ ...formData, [name]: value }` */
  function WithField(data: FormData, field: Field, value: string): (r: FormData)
    ensures Get(r, field) == value
    ensures forall other :: other != field ==> Get(r, other) == Get(data, other)
  {
    match field
    case Name => data.(name := value)
    case Email => data.(email := value)
    case Phone => data.(phone := value)
    case Message => data.(message := value)
  }

  // ---------------------------------------------------------------------------------------
  // validateForm

  const NameRequired := "Nome é obrigatório"
  const NameTooShort := "Nome deve ter pelo menos 2 caracteres"
  const NameTooLong := "Nome muito longo (máximo 100 caracteres)"
  const EmailRequired := "Email é obrigatório"
  const EmailInvalid := "Email inválido"
  const PhoneInvalid := "Telefone inválido (formato brasileiro)"
  const MessageRequired := "Mensagem é obrigatória"
  const MessageTooShort := "Mensagem deve ter pelo menos 10 caracteres"
  const MessageTooLong := "Mensagem muito longa (máximo 2000 caracteres)"
  const TooManyAttempts := "Muitas tentativas. Aguarde um minuto antes de tentar novamente."

  /** Required, then a minimum and a maximum on the trimmed length; the first failing rule
      gives the message. */
  function LengthRule(value: string, min: nat, max: nat, required: string, short: string,
                      long: string): Option<string>
  {
    var t := Trim(value);
    if t == [] then Some(required)
    else if |t| < min then Some(short)
    else if |t| > max then Some(long)
    else None
  }

  function NameError(name: string): Option<string> {
    LengthRule(name, 2, 100, NameRequired, NameTooShort, NameTooLong)
  }

  function EmailError(email: string): Option<string> {
    if Trim(email) == [] then Some(EmailRequired)
    else if !IsValidEmail(email) then Some(EmailInvalid)
    else None
  }

  /** The phone is optional: only a non-blank phone is checked. */
  function PhoneError(phone: string): Option<string> {
    if Trim(phone) != [] && !IsValidPhone(phone) then Some(PhoneInvalid) else None
  }

  function MessageError(message: string): Option<string> {
    LengthRule(message, 10, 2000, MessageRequired, MessageTooShort, MessageTooLong)
  }

  function FieldError(data: FormData, field: Field): Option<string> {
    match field
    case Name => NameError(data.name)
    case Email => EmailError(data.email)
    case Phone => PhoneError(data.phone)
    case Message => MessageError(data.message)
  }

  const AllFields: set<Field> := {Name, Email, Phone, Message}

  lemma AllFieldsListed()
    ensures forall field: Field :: field in AllFields
  {
    forall field: Field ensures field in AllFields {
      match field
      case Name =>
      case Email =>
      case Phone =>
      case Message =>
    }
  }

  /** `newErrors` as `validateForm` leaves it: one entry for each field that fails. */
  function ValidateErrors(data: FormData): (errors: map<Field, string>)
    ensures forall field :: field in errors <==> FieldError(data, field).Some?
    ensures forall field :: field in errors ==> errors[field] == FieldError(data, field).value
  {
    AllFieldsListed();
    map field | field in AllFields && FieldError(data, field).Some? :: FieldError(data, field).value
  }

  /** The result of `validateForm`: no key in `newErrors`. */
  predicate FormIsValid(data: FormData) {
    |ValidateErrors(data)| == 0
  }

  /** The form is valid exactly when every one of the four fields passes its own rules. */
  lemma FormIsValidIffAllFields(data: FormData)
    ensures FormIsValid(data) <==> forall field :: FieldError(data, field).None?
  {
    var errors := ValidateErrors(data);
    if !FormIsValid(data) {
      var field :| field in errors;
    }
  }

  /** A field's verdict depends on that field alone. */
  lemma FieldErrorIndependent(data: FormData, field: Field, other: Field, value: string)
    requires other != field
    ensures FieldError(WithField(data, field, value), other) == FieldError(data, other)
  {
  }

  /** The name rules in order: blank, then fewer than 2, then more than 100 trimmed characters. */
  lemma NameErrorOrder(name: string)
    ensures NameError(name) == Some(NameRequired) <==> Trim(name) == []
    ensures NameError(name) == Some(NameTooShort) <==> 0 < |Trim(name)| < 2
    ensures NameError(name) == Some(NameTooLong) <==> |Trim(name)| > 100
    ensures NameError(name).None? <==> 2 <= |Trim(name)| <= 100
  {
  }

  /** The message rules in order: blank, then fewer than 10, then more than 2000 trimmed
      characters. */
  lemma MessageErrorOrder(message: string)
    ensures MessageError(message) == Some(MessageRequired) <==> Trim(message) == []
    ensures MessageError(message) == Some(MessageTooShort) <==> 0 < |Trim(message)| < 10
    ensures MessageError(message) == Some(MessageTooLong) <==> |Trim(message)| > 2000
    ensures MessageError(message).None? <==> 10 <= |Trim(message)| <= 2000
  {
  }

  /** The email passes exactly when its trimmed value matches the address pattern; a blank
      email is reported as missing rather than as malformed. */
  lemma EmailErrorMatchesRegex(email: string)
    ensures EmailError(email).None? <==> MatchesEmailRegex(Trim(email))
    ensures EmailError(email) == Some(EmailRequired) <==> Trim(email) == []
  {
    IsValidEmailMatchesRegex(email);
    if Trim(email) == [] {
      assert !MatchesEmailRegex(Trim(email));
    }
  }

  /** A blank phone never gets an error; a non-blank one gets one exactly when it does not hold
      10 or 11 digits. */
  lemma PhoneErrorDigits(phone: string)
    ensures Trim(phone) == [] ==> PhoneError(phone).None?
    ensures Trim(phone) != [] ==>
      (PhoneError(phone).None? <==> 10 <= |RemoveAll(phone, NonDigit)| <= 11)
  {
  }

  // ---------------------------------------------------------------------------------------
  // handleSubmit

  /** The module-level `formRateLimiter`: five attempts per minute. */
  const FormMaxAttempts := 5
  const FormWindowMs := 60000

  /** `clientId`: the page's hostname, or `'unknown'` where there is no `window`. */
  function ClientId(windowHostname: Option<string>): string {
    match windowHostname
    case Some(h) => h
    case None => "unknown"
  }

  /** `sanitizedData`: every field through `sanitizeInput`. */
  function SanitizeForm(data: FormData): FormData {
    FormData(SanitizeInput(data.name), SanitizeInput(data.email), SanitizeInput(data.phone),
             SanitizeInput(data.message))
  }

  datatype Outcome = RateLimited | Invalid | Sent

  /** What the component shows and what it has sent. `sent` holds the payloads in the order
      they left the form. */
  datatype FormState = FormState(data: FormData, errors: map<Field, string>, submitSuccess: bool,
                                 submitError: Option<string>, sent: seq<FormData>)

  datatype Submission = Submission(outcome: Outcome, state: FormState,
                                   attempts: map<string, seq<int>>)

  /** The steps of `handleSubmit` after the limiter has answered `a`. */
  function Respond(st: FormState, a: Admission): (r: Submission)
    ensures r.outcome == RateLimited <==> !a.allowed
    ensures r.attempts == a.attempts
  {
    var cleared := st.(submitError := None, submitSuccess := false);
    if !a.allowed then
      Submission(RateLimited, cleared.(submitError := Some(TooManyAttempts)), a.attempts)
    else
      var errors := ValidateErrors(st.data);
      if |errors| != 0 then
        Submission(Invalid, cleared.(errors := errors), a.attempts)
      else
        var payload := SanitizeForm(st.data);
        Submission(Sent, cleared.(data := EmptyForm, errors := map[], submitSuccess := true,
                                  sent := st.sent + [payload]), a.attempts)
  }

  /** One `handleSubmit`, with the limiter's map as `attempts` and the clock reading `now`. */
  function Submit(st: FormState, attempts: map<string, seq<int>>, clientId: string, now: int)
    : (r: Submission)
    ensures r.outcome == RateLimited <==>
      |Recent(Stored(attempts, clientId), now, FormWindowMs)| >= FormMaxAttempts
    ensures r.outcome == Sent <==> r.outcome != RateLimited && FormIsValid(st.data)
    ensures r.outcome == RateLimited ==>
      r.attempts == attempts && r.state.data == st.data && r.state.errors == st.errors
      && r.state.sent == st.sent && r.state.submitError == Some(TooManyAttempts)
    ensures r.outcome != RateLimited ==>
      Stored(r.attempts, clientId) == Recent(Stored(attempts, clientId), now, FormWindowMs) + [now]
    ensures r.outcome == Invalid ==>
      r.state.data == st.data && r.state.errors == ValidateErrors(st.data) && r.state.sent == st.sent
      && r.state.submitError.None?
    ensures r.outcome == Sent ==>
      r.state.sent == st.sent + [SanitizeForm(st.data)] && r.state.data == EmptyForm
      && r.state.errors == map[] && r.state.submitSuccess && r.state.submitError.None?
    ensures r.outcome != Sent ==> !r.state.submitSuccess
    ensures forall k :: k != clientId ==> Stored(r.attempts, k) == Stored(attempts, k)
  {
    Respond(st, Admit(attempts, clientId, now, FormMaxAttempts, FormWindowMs))
  }

  /** Outcomes of successive submissions from one client at the given times. */
  datatype History = History(outcomes: seq<Outcome>, state: FormState,
                             attempts: map<string, seq<int>>)

  function SubmitAll(st: FormState, attempts: map<string, seq<int>>, clientId: string,
                     times: seq<int>): (h: History)
    ensures |h.outcomes| == |times|
    decreases |times|
  {
    if times == [] then History([], st, attempts)
    else
      var r := Respond(st, Admit(attempts, clientId, times[0], FormMaxAttempts, FormWindowMs));
      var rest := SubmitAll(r.state, r.attempts, clientId, times[1..]);
      History([r.outcome] + rest.outcomes, rest.state, rest.attempts)
  }

  /** The form's limiter answers are those of the bare limiter, whatever is typed in the form:
      an attempt is used up by every submission that is not refused, valid or not. */
  lemma {:induction false} SubmitAllFollowsLimiter(st: FormState, attempts: map<string, seq<int>>,
                                                  clientId: string, times: seq<int>)
    ensures var h := SubmitAll(st, attempts, clientId, times);
      var t := Replay(attempts, clientId, times, FormMaxAttempts, FormWindowMs);
      h.attempts == t.attempts && Mirrors(h.outcomes, t.answers)
    decreases |times|
  {
    if times != [] {
      var a := Admit(attempts, clientId, times[0], FormMaxAttempts, FormWindowMs);
      var r := Respond(st, a);
      SubmitAllFollowsLimiter(r.state, r.attempts, clientId, times[1..]);
      var rest := SubmitAll(r.state, r.attempts, clientId, times[1..]);
      var u := Replay(a.attempts, clientId, times[1..], FormMaxAttempts, FormWindowMs);
      ConsMirror(r.outcome, rest.outcomes, a.allowed, u.answers);
    }
  }

  /** Outcome `i` is a refusal exactly when answer `i` is a denial. */
  predicate Mirrors(outcomes: seq<Outcome>, answers: seq<bool>) {
    |outcomes| == |answers|
    && forall i :: 0 <= i < |outcomes| ==> (outcomes[i] == RateLimited <==> !answers[i])
  }

  lemma ConsMirror(o: Outcome, os: seq<Outcome>, b: bool, bs: seq<bool>)
    requires (o == RateLimited <==> !b) && Mirrors(os, bs)
    ensures Mirrors([o] + os, [b] + bs)
  {
    forall i | 1 <= i < |os| + 1
      ensures (([o] + os)[i] == RateLimited <==> !([b] + bs)[i])
    {
      assert ([o] + os)[i] == os[i - 1] && ([b] + bs)[i] == bs[i - 1];
    }
  }

  /** Six submissions from a new client within one minute: the first five get past the
      limiter, the sixth is refused before the form is even validated. */
  lemma SixthSubmissionRateLimited(st: FormState, attempts: map<string, seq<int>>,
                                   clientId: string, times: seq<int>)
    requires clientId !in attempts && |times| == 6 && WithinOneWindow(times, FormWindowMs)
    ensures var outcomes := SubmitAll(st, attempts, clientId, times).outcomes;
      outcomes[5] == RateLimited && forall i :: 0 <= i < 5 ==> outcomes[i] != RateLimited
  {
    assert Stored(attempts, clientId) + times == times;
    BurstThenDenied(attempts, clientId, times, FormMaxAttempts, FormWindowMs);
    SubmitAllFollowsLimiter(st, attempts, clientId, times);
    var answers := Replay(attempts, clientId, times, FormMaxAttempts, FormWindowMs).answers;
    forall i | 0 <= i < 5 ensures answers[i] {
      assert answers[i] == seq(5, _ => true)[i];
    }
  }


  // ---------------------------------------------------------------------------------------
  // handleChange and the success-clearing effect

  predicate IsBlank(data: FormData) {
    data.name == [] && data.email == [] && data.phone == [] && data.message == []
  }

  /** `handleChange`, followed by the effect that hides the success note once any field has
      text in it. */
  function Change(st: FormState, field: Field, value: string): (r: FormState)
    ensures Get(r.data, field) == value
    ensures forall other :: other != field ==> Get(r.data, other) == Get(st.data, other)
    ensures r.errors.Keys == st.errors.Keys
    ensures field in r.errors ==> r.errors[field] == ""
    ensures forall other :: other != field && other in r.errors ==> r.errors[other] == st.errors[other]
    ensures r.sent == st.sent && r.submitError == st.submitError
    ensures r.submitSuccess <==> st.submitSuccess && IsBlank(r.data)
  {
    var errors := if field in st.errors && st.errors[field] != "" then st.errors[field := ""]
                  else st.errors;
    var data := WithField(st.data, field, value);
    var success := st.submitSuccess && IsBlank(data);
    st.(data := data, errors := errors, submitSuccess := success)
  }

  /** Editing a field and editing it back leaves the other fields as they were. */
  lemma ChangeBack(st: FormState, field: Field, value: string)
    ensures Change(Change(st, field, value), field, Get(st.data, field)).data == st.data
  {
    var r := Change(Change(st, field, value), field, Get(st.data, field));
    assert forall f :: Get(r.data, f) == Get(st.data, f);
    assert r.data.name == Get(r.data, Name);
    assert r.data.email == Get(r.data, Email);
    assert r.data.phone == Get(r.data, Phone);
    assert r.data.message == Get(r.data, Message);
  }

  // ---------------------------------------------------------------------------------------
  // The component

  /** The contact form's state; `limiter` is the module-level `formRateLimiter`, shared by
      every instance of the form. */
  class ContactForm {
    var formData: FormData
    var errors: map<Field, string>
    var isSubmitting: bool
    var submitSuccess: bool
    var submitError: Option<string>
    var sent: seq<FormData>
    const limiter: RateLimiter

    ghost predicate Valid()
      reads this, limiter
    {
      limiter.Valid() && limiter.maxAttempts == FormMaxAttempts
      && limiter.windowMs == FormWindowMs && !isSubmitting
    }

    function State(): FormState
      reads this
    {
      FormState(formData, errors, submitSuccess, submitError, sent)
    }

    constructor(limiter: RateLimiter)
      requires limiter.Valid() && limiter.maxAttempts == FormMaxAttempts
      requires limiter.windowMs == FormWindowMs
      ensures Valid() && this.limiter == limiter
      ensures State() == FormState(EmptyForm, map[], false, None, [])
    {
      this.limiter := limiter;
      formData := EmptyForm;
      errors := map[];
      isSubmitting := false;
      submitSuccess := false;
      submitError := None;
      sent := [];
    }

    /** `handleSubmit`; `windowHostname` is `window.location.hostname`, `None` where there is
        no `window`. */
    method HandleSubmit(windowHostname: Option<string>, now: int) returns (outcome: Outcome)
      requires Valid()
      modifies this, limiter
      ensures Valid()
      ensures Submission(outcome, State(), limiter.attempts)
           == Submit(old(State()), old(limiter.attempts), ClientId(windowHostname), now)
    {
      var clientId := ClientId(windowHostname);
      submitError := None;
      submitSuccess := false;
      var allowed := limiter.IsAllowed(clientId, now);
      if !allowed {
        submitError := Some(TooManyAttempts);
        return RateLimited;
      }
      var newErrors := ValidateErrors(formData);
      errors := newErrors;
      if |newErrors| != 0 {
        return Invalid;
      }
      isSubmitting := true;
      var sanitizedData := SanitizeForm(formData);
      sent := sent + [sanitizedData];
      submitSuccess := true;
      formData := EmptyForm;
      errors := map[];
      isSubmitting := false;
      outcome := Sent;
    }

    /** `handleChange` for the input named `field`, and the effect that runs after it. */
    method HandleChange(field: Field, value: string)
      requires Valid()
      modifies this
      ensures Valid()
      ensures State() == Change(old(State()), field, value)
    {
      if field in errors && errors[field] != "" {
        errors := errors[field := ""];
      }
      formData := WithField(formData, field, value);
      if submitSuccess && !IsBlank(formData) {
        submitSuccess := false;
      }
    }

    /** The five-second timer started by a successful submission. */
    method SuccessTimerFires()
      requires Valid()
      modifies this
      ensures Valid()
      ensures State() == old(State()).(submitSuccess := false)
    {
      submitSuccess := false;
    }
  }
}
