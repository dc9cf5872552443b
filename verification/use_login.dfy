/**
 * The login controller of the TypeScript `useLogin` hook: a form record, a fetch-status
 * record, the field-change handler, the submit handler split at its `await` into a start
 * step and a settle step, and the derived "button disabled" flag.
 *
 * Each handler is a pure function of the latest committed state; the success `alert`
 * becomes an emitted notice.
 */
module UseLogin {
  import JsString
  import Utils

  /** The text of the success notification. */
  const SuccessNotice: string := "Login succeed!"

  /** The error message used when the thrown value is not an Error. */
  const FallbackMessage: string := "Something went wrong, try again!"

  /** The shortest password, in UTF-16 code units, that enables the button. */
  const MinPasswordLength: nat := 6

  datatype Field = Name | Email | Password

  datatype Form = Form(name: string, email: string, password: string)

  datatype Status = Status(isLoading: bool, isError: bool, errMessage: string)

  /** The controller's whole state: what the hook keeps in its two `useState` slots. */
  datatype Controller = Controller(form: Form, status: Status)

  const InitialForm: Form := Form("", "", "")

  const InitialStatus: Status := Status(false, false, "")

  /** `{ ...initialFetchStatus, isLoading: true }` */
  const LoadingStatus: Status := InitialStatus.(isLoading := true)

  /** The status set in the `catch` branch. */
  function ErrorStatus(message: string): (s: Status)
    ensures s.isError && !s.isLoading && s.errMessage == message
  {
    Status(false, true, message)
  }

  const Initial: Controller := Controller(InitialForm, InitialStatus)

  /** Never loading and failed at once, and no stale message outside an error. */
  predicate Consistent(s: Status) {
    && !(s.isLoading && s.isError)
    && (!s.isError ==> s.errMessage == "")
  }

  /** The status is one of the three literal shapes the hook ever assigns. */
  predicate IsShape(s: Status) {
    s == InitialStatus || s == LoadingStatus || s == ErrorStatus(s.errMessage)
  }

  lemma ShapeIffConsistent(s: Status)
    ensures IsShape(s) <==> Consistent(s)
  {
  }

  /** `formState[k]` */
  function Get(f: Form, k: Field): string {
    match k
    case Name => f.name
    case Email => f.email
    case Password => f.password
  }

  /** `{ ...formState, [k]: v }` */
  function Set(f: Form, k: Field, v: string): (r: Form)
    ensures Get(r, k) == v
    ensures forall j :: j != k ==> Get(r, j) == Get(f, j)
  {
    match k
    case Name => f.(name := v)
    case Email => f.(email := v)
    case Password => f.(password := v)
  }

  /** The status part of `handleChange`: an error is cleared, anything else is kept. */
  function ChangeStatus(s: Status): (r: Status)
    ensures !r.isError
    ensures s.isError ==> r == InitialStatus
    ensures !s.isError ==> r == s
  {
    if s.isError then InitialStatus else s
  }

  /** `handleChange` for an input named `k` whose new value is `v`. */
  function HandleChange(c: Controller, k: Field, v: string): (r: Controller)
    ensures Get(r.form, k) == v
    ensures forall j :: j != k ==> Get(r.form, j) == Get(c.form, j)
    ensures c.status.isError ==> r.status == InitialStatus
    ensures !c.status.isError ==> r.status == c.status
    ensures Consistent(c.status) ==> Consistent(r.status)
  {
    Controller(Set(c.form, k, v), ChangeStatus(c.status))
  }

  /** Applying the same change twice is the same as applying it once. */
  lemma HandleChangeIdempotent(c: Controller, k: Field, v: string)
    ensures HandleChange(HandleChange(c, k, v), k, v) == HandleChange(c, k, v)
  {
  }

  /** Changes to different fields commute. */
  lemma HandleChangeCommutes(c: Controller, k: Field, v: string, j: Field, w: string)
    requires k != j
    ensures HandleChange(HandleChange(c, k, v), j, w) == HandleChange(HandleChange(c, j, w), k, v)
  {
  }

  /** The state after the synchronous part of `handleSubmit`, and the argument given to `login`. */
  datatype Started = Started(state: Controller, request: Utils.Credentials)

  /** `handleSubmit` up to its `await`: status set to loading, `login` called with the current credentials. */
  function SubmitStart(c: Controller): (r: Started)
    ensures r.state.status.isLoading && !r.state.status.isError && r.state.status.errMessage == ""
    ensures r.state.form == c.form
    ensures r.request.email == c.form.email && r.request.password == c.form.password
  {
    Started(Controller(c.form, LoadingStatus), Utils.Credentials(c.form.email, c.form.password))
  }

  /** How the awaited `login` call ends, as the `try`/`catch` sees it. */
  datatype Settlement = Success | FailureWithMessage(message: string) | FailureNonError

  /** The state after the settle step and the notices it emitted, in order. */
  datatype Reaction = Reaction(state: Controller, notices: seq<string>)

  /** The error message the `catch` branch shows. */
  function FailureMessage(o: Settlement): (m: string)
    requires !o.Success?
    ensures o.FailureWithMessage? ==> m == o.message
    ensures o.FailureNonError? ==> m == FallbackMessage
  {
    if o.FailureWithMessage? then o.message else FallbackMessage
  }

  /** `handleSubmit` after its `await`. No guard: it applies to whatever state is current. */
  function SubmitResolve(c: Controller, o: Settlement): (r: Reaction)
    ensures !r.state.status.isLoading && Consistent(r.state.status)
    ensures o.Success? ==> r.state == Initial && r.notices == [SuccessNotice]
    ensures !o.Success? ==> r.state.form == c.form && r.notices == []
    ensures !o.Success? ==> r.state.status.isError && r.state.status.errMessage == FailureMessage(o)
  {
    if o.Success? then Reaction(Initial, [SuccessNotice])
    else Reaction(Controller(c.form, ErrorStatus(FailureMessage(o))), [])
  }

  /** `isBtnDisabled` */
  function IsBtnDisabled(c: Controller): (r: bool)
    ensures c.status.isLoading ==> r
    ensures c.form.email == "" ==> r
    ensures !c.status.isLoading && c.form.email != "" ==> (r <==> JsString.Length(c.form.password) < MinPasswordLength)
    ensures JsString.AllBmp(c.form.password) ==>
              (r <==> c.status.isLoading || c.form.email == "" || |c.form.password| < MinPasswordLength)
  {
    c.status.isLoading || c.form.email == "" || JsString.Length(c.form.password) < MinPasswordLength
  }

  /** The button is enabled exactly when nothing is pending, the email is filled and the password is long enough. */
  lemma ButtonEnabledIff(c: Controller)
    ensures !IsBtnDisabled(c) <==> !c.status.isLoading && c.form.email != "" && JsString.Length(c.form.password) >= MinPasswordLength
  {
  }

  /**
   * A password of three characters outside the Basic Multilingual Plane is six UTF-16 code
   * units long, so with a non-empty email and nothing pending it enables the button.
   */
  lemma AstralPasswordEnablesButton(email: string)
    requires email != ""
    ensures var password := "\U{1F600}\U{1F600}\U{1F600}";
            && |password| == 3
            && JsString.Length(password) == 6
            && !IsBtnDisabled(Controller(Form("", email, password), InitialStatus))
  {
  }

  /** Whatever the fields say, the button is disabled from submit start until settlement. */
  lemma DisabledWhileLoading(c: Controller)
    ensures IsBtnDisabled(SubmitStart(c).state)
  {
  }

  /** The initial state: empty fields, idle status, disabled button. */
  lemma InitialState()
    ensures forall k :: Get(Initial.form, k) == ""
    ensures !Initial.status.isLoading && !Initial.status.isError && Initial.status.errMessage == ""
    ensures IsBtnDisabled(Initial)
  {
  }

  /** After a successful login the form is empty again, so the button is disabled. */
  lemma DisabledAfterSuccess(c: Controller)
    ensures IsBtnDisabled(SubmitResolve(c, Success).state)
  {
  }

  /** What the `try`/`catch` of `handleSubmit` sees when it awaits `login`: the stub always rejects with an Error. */
  function Await(r: Utils.LoginResult): (o: Settlement)
    ensures o.Success? <==> r.Resolved?
    ensures r.Rejected? ==> o == FailureWithMessage(r.message)
  {
    match r
    case Resolved => Success
    case Rejected(m) => FailureWithMessage(m)
  }

  /**
   * A full submission against the stub: with accepted credentials the form is cleared and
   * one notice is emitted; otherwise the stub's message is shown and the form is kept.
   * The generic fallback message never appears.
   */
  lemma SubmitAgainstStub(c: Controller)
    ensures var s := SubmitStart(c);
            var r := SubmitResolve(s.state, Await(Utils.Login(s.request)));
            && (c.form.password == Utils.ValidPassword && c.form.email != "" ==>
                  r.state == Initial && r.notices == [SuccessNotice])
            && (!(c.form.password == Utils.ValidPassword && c.form.email != "") ==>
                  r.state == Controller(c.form, ErrorStatus(Utils.InvalidCredentialsMessage)) && r.notices == [])
            && r.state.status.errMessage != FallbackMessage
  {
  }

  /**
   * The message is non-empty exactly when the status is an error. The hook does not keep
   * this in general: an Error with an empty message is shown as an empty error.
   */
  predicate MessageIffError(s: Status) {
    s.isError <==> s.errMessage != ""
  }

  /** `new Error("")` leaves the status in error with no message. */
  lemma EmptyErrorMessageShown(c: Controller)
    ensures var s := SubmitResolve(c, FailureWithMessage("")).state.status;
            s.isError && !MessageIffError(s)
  {
  }
}
