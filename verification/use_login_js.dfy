/**
 * The JavaScript `useLogin` hook: the same controller over a form with only `email` and
 * `password`. It shares the fetch-status record and its transitions with the TypeScript
 * hook, and the lemmas at the end show that forgetting the TypeScript form's `name`
 * field turns each TypeScript step into the corresponding JavaScript step.
 */
module UseLoginJs {
  import JsString
  import Utils
  import UseLogin

  datatype Field = Email | Password

  datatype Form = Form(email: string, password: string)

  datatype Controller = Controller(form: Form, status: UseLogin.Status)

  const InitialForm: Form := Form("", "")

  const Initial: Controller := Controller(InitialForm, UseLogin.InitialStatus)

  function Get(f: Form, k: Field): string {
    match k
    case Email => f.email
    case Password => f.password
  }

  /** `{ ...formState, [k]: v }` */
  function Set(f: Form, k: Field, v: string): (r: Form)
    ensures Get(r, k) == v
    ensures forall j :: j != k ==> Get(r, j) == Get(f, j)
  {
    match k
    case Email => f.(email := v)
    case Password => f.(password := v)
  }

  /** `handleChange`: clear an error, then replace the named field. */
  function HandleChange(c: Controller, k: Field, v: string): (r: Controller)
    ensures Get(r.form, k) == v
    ensures forall j :: j != k ==> Get(r.form, j) == Get(c.form, j)
    ensures !r.status.isError
    ensures c.status.isError ==> r.status == UseLogin.InitialStatus
    ensures !c.status.isError ==> r.status == c.status
  {
    Controller(Set(c.form, k, v), UseLogin.ChangeStatus(c.status))
  }

  datatype Started = Started(state: Controller, request: Utils.Credentials)

  /** `handleSubmit` up to its `await`. */
  function SubmitStart(c: Controller): (r: Started)
    ensures r.state.status.isLoading && !r.state.status.isError && r.state.status.errMessage == ""
    ensures r.state.form == c.form
    ensures r.request.email == c.form.email && r.request.password == c.form.password
  {
    Started(Controller(c.form, UseLogin.LoadingStatus), Utils.Credentials(c.form.email, c.form.password))
  }

  datatype Reaction = Reaction(state: Controller, notices: seq<string>)

  /** `handleSubmit` after its `await`. */
  function SubmitResolve(c: Controller, o: UseLogin.Settlement): (r: Reaction)
    ensures !r.state.status.isLoading && UseLogin.Consistent(r.state.status)
    ensures o.Success? ==> r.state == Initial && r.notices == [UseLogin.SuccessNotice]
    ensures !o.Success? ==> r.state.form == c.form && r.notices == []
    ensures !o.Success? ==> r.state.status.isError && r.state.status.errMessage == UseLogin.FailureMessage(o)
  {
    if o.Success? then Reaction(Initial, [UseLogin.SuccessNotice])
    else Reaction(Controller(c.form, UseLogin.ErrorStatus(UseLogin.FailureMessage(o))), [])
  }

  /** `isBtnDisabled` */
  function IsBtnDisabled(c: Controller): (r: bool)
    ensures c.status.isLoading ==> r
    ensures c.form.email == "" ==> r
    ensures !c.status.isLoading && c.form.email != "" ==> (r <==> JsString.Length(c.form.password) < UseLogin.MinPasswordLength)
    ensures JsString.AllBmp(c.form.password) ==>
              (r <==> c.status.isLoading || c.form.email == "" || |c.form.password| < UseLogin.MinPasswordLength)
  {
    c.status.isLoading || c.form.email == "" || JsString.Length(c.form.password) < UseLogin.MinPasswordLength
  }

  /** The JavaScript state a TypeScript state shows once its `name` field is dropped. */
  function Forget(c: UseLogin.Controller): (r: Controller)
    ensures r.form.email == c.form.email && r.form.password == c.form.password
    ensures r.status == c.status
  {
    Controller(Form(c.form.email, c.form.password), c.status)
  }

  /** The TypeScript field a JavaScript input name denotes. */
  function Widen(k: Field): (r: UseLogin.Field)
    ensures r != UseLogin.Name
    ensures k.Email? <==> r.Email?
    ensures k.Password? <==> r.Password?
  {
    match k
    case Email => UseLogin.Email
    case Password => UseLogin.Password
  }

  lemma InitialAgrees()
    ensures Forget(UseLogin.Initial) == Initial
  {
  }

  lemma HandleChangeAgrees(c: UseLogin.Controller, k: Field, v: string)
    ensures Forget(UseLogin.HandleChange(c, Widen(k), v)) == HandleChange(Forget(c), k, v)
  {
  }

  /** An edit of the TypeScript-only `name` field is seen by the JavaScript hook only as a cleared error. */
  lemma NameChangeOnlyClearsError(c: UseLogin.Controller, v: string)
    ensures Forget(UseLogin.HandleChange(c, UseLogin.Name, v)) == Forget(c).(status := UseLogin.ChangeStatus(c.status))
  {
  }

  lemma SubmitStartAgrees(c: UseLogin.Controller)
    ensures Forget(UseLogin.SubmitStart(c).state) == SubmitStart(Forget(c)).state
    ensures UseLogin.SubmitStart(c).request == SubmitStart(Forget(c)).request
  {
  }

  lemma SubmitResolveAgrees(c: UseLogin.Controller, o: UseLogin.Settlement)
    ensures Forget(UseLogin.SubmitResolve(c, o).state) == SubmitResolve(Forget(c), o).state
    ensures UseLogin.SubmitResolve(c, o).notices == SubmitResolve(Forget(c), o).notices
  {
  }

  lemma IsBtnDisabledAgrees(c: UseLogin.Controller)
    ensures UseLogin.IsBtnDisabled(c) <==> IsBtnDisabled(Forget(c))
  {
  }
}
