/**
 * The stub `login` operation: it answers after a random delay, resolving for the one
 * known-good password with any non-empty email and rejecting with an Error otherwise.
 * The delay is not modelled; `Login` is the answer the promise eventually settles with.
 */
module Utils {

  /** The only password the stub accepts. */
  const ValidPassword: string := "password123"

  /** The message of the Error the stub rejects with. */
  const InvalidCredentialsMessage: string := "Invalid email or password"

  /** The argument of `login`. */
  datatype Credentials = Credentials(email: string, password: string)

  /** How the promise returned by `login` settles: it resolves with no value, or rejects with an Error carrying `message`. */
  datatype LoginResult = Resolved | Rejected(message: string)

  /** JavaScript truthiness of a string: only the empty string is falsy. */
  function Truthy(s: string): (r: bool)
    ensures r <==> |s| > 0
  {
    s != ""
  }

  /** The settlement of `login(req)`, once its delay has elapsed. */
  function Login(req: Credentials): (r: LoginResult)
    ensures r.Resolved? <==> req.password == ValidPassword && req.email != ""
    ensures r.Rejected? ==> r.message == InvalidCredentialsMessage
  {
    if req.password == ValidPassword && Truthy(req.email) then Resolved
    else Rejected(InvalidCredentialsMessage)
  }

  /** An empty email is refused even with the right password. */
  lemma EmptyEmailRejected(password: string)
    ensures Login(Credentials("", password)) == Rejected(InvalidCredentialsMessage)
  {
  }

  /** Every rejection carries a non-empty message. */
  lemma RejectionHasMessage(req: Credentials)
    ensures Login(req).Rejected? ==> Login(req).message != ""
  {
  }
}
