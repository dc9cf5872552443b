/**
 * The decisions the TypeScript login form makes from the controller's state: which
 * tooltip the submit button shows, and whether the error region is rendered.
 */
module LoginForm {
  import JsString
  import Wrappers
  import UseLogin
  import InputGroup

  const EmptyEmailTitle: string := "email is empty"

  const ShortPasswordTitle: string := "password must be 6 character at least"

  const SubmitTitle: string := "Submit button"

  /** The `title` of the submit button: the first unmet condition, or the generic title. */
  function ButtonTitle(f: UseLogin.Form): (t: string)
    ensures t == EmptyEmailTitle <==> f.email == ""
    ensures t == ShortPasswordTitle <==> f.email != "" && JsString.Length(f.password) < 6
    ensures t == SubmitTitle <==> f.email != "" && JsString.Length(f.password) >= 6
  {
    if f.email == "" then EmptyEmailTitle
    else if JsString.Length(f.password) < 6 then ShortPasswordTitle
    else SubmitTitle
  }

  /** The error region: rendered with the status message as its content, only while the status is an error. */
  function ErrorRegion(s: UseLogin.Status): (r: Wrappers.Option<string>)
    ensures r.Some? <==> s.isError
    ensures r.Some? ==> r.value == s.errMessage
  {
    if s.isError then Wrappers.Some(s.errMessage) else Wrappers.None
  }

  /** When nothing is pending, the button shows the generic title exactly when it is enabled. */
  lemma SubmitTitleIffEnabled(c: UseLogin.Controller)
    requires !c.status.isLoading
    ensures ButtonTitle(c.form) == SubmitTitle <==> !UseLogin.IsBtnDisabled(c)
  {
  }

  /** A disabled button always names its reason, unless a submit is pending. */
  lemma DisabledTitleNamesReason(c: UseLogin.Controller)
    requires UseLogin.IsBtnDisabled(c) && !c.status.isLoading
    ensures ButtonTitle(c.form) in {EmptyEmailTitle, ShortPasswordTitle}
  {
  }

  /** An edit hides the error region, whatever it writes. */
  lemma EditHidesErrorRegion(c: UseLogin.Controller, k: UseLogin.Field, v: string)
    ensures ErrorRegion(UseLogin.HandleChange(c, k, v).status).None?
  {
  }

  /** A failed settlement shows its message in the error region. */
  lemma FailureShowsMessage(c: UseLogin.Controller, o: UseLogin.Settlement)
    requires !o.Success?
    ensures ErrorRegion(UseLogin.SubmitResolve(c, o).state.status) == Wrappers.Some(UseLogin.FailureMessage(o))
  {
  }

  /**
   * The password input the form renders enforces, through `minLength`, the same bound
   * the button applies to the password.
   */
  lemma PasswordInputMatchesButtonRule()
    ensures InputGroup.MinLength(InputGroup.PasswordType) == Wrappers.Some(UseLogin.MinPasswordLength)
    ensures InputGroup.MinLength(InputGroup.EmailType).None?
  {
  }
}
