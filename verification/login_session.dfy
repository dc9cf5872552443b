/**
 * A session of the TypeScript login controller: the sequence of handler invocations it
 * sees over the life of the component, each applied to the latest committed state. The
 * lemmas here state what holds in every state reachable from the initial one.
 */
module LoginSession {
  import JsString
  import Utils
  import UseLogin

  /** One handler invocation: an edit, the start of a submit, or the settling of a `login` call. */
  datatype Event = Edit(field: UseLogin.Field, value: string) | Submit | Settle(outcome: UseLogin.Settlement)

  /** One event applied to the state, with the notices it emitted. */
  function Step(c: UseLogin.Controller, e: Event): (r: UseLogin.Reaction)
    ensures UseLogin.Consistent(c.status) ==> UseLogin.Consistent(r.state.status)
    ensures r.notices == (if e.Settle? && e.outcome.Success? then [UseLogin.SuccessNotice] else [])
  {
    match e
    case Edit(k, v) => UseLogin.Reaction(UseLogin.HandleChange(c, k, v), [])
    case Submit => UseLogin.Reaction(UseLogin.SubmitStart(c).state, [])
    case Settle(o) => UseLogin.SubmitResolve(c, o)
  }

  /** The number of settle events in `evs` that report success. */
  function Successes(evs: seq<Event>): nat {
    if evs == [] then 0
    else Successes(evs[..|evs| - 1]) + (if evs[|evs| - 1] == Settle(UseLogin.Success) then 1 else 0)
  }

  /**
   * The state after the events `evs`, starting from `c`, and every notice emitted on the way.
   * Consistency is kept, and exactly one "Login succeed!" notice is emitted per successful settle.
   */
  function Run(c: UseLogin.Controller, evs: seq<Event>): (r: UseLogin.Reaction)
    ensures UseLogin.Consistent(c.status) ==> UseLogin.Consistent(r.state.status)
    ensures |r.notices| == Successes(evs)
    ensures forall i :: 0 <= i < |r.notices| ==> r.notices[i] == UseLogin.SuccessNotice
  {
    if evs == [] then UseLogin.Reaction(c, [])
    else
      var before := Run(c, evs[..|evs| - 1]);
      var last := Step(before.state, evs[|evs| - 1]);
      UseLogin.Reaction(last.state, before.notices + last.notices)
  }

  /** Every reachable status is one of the three literal shapes, never loading and failed at once. */
  lemma ReachableConsistent(evs: seq<Event>)
    ensures var s := Run(UseLogin.Initial, evs).state.status;
            UseLogin.IsShape(s) && !(s.isLoading && s.isError) && (!s.isError ==> s.errMessage == "")
  {
  }

  /** The settlements the stub `login` can produce, as the hook's `catch` sees them. */
  predicate FromStub(o: UseLogin.Settlement) {
    o == UseLogin.Success || o == UseLogin.FailureWithMessage(Utils.InvalidCredentialsMessage)
  }

  lemma StubSettlementsFromStub(req: Utils.Credentials)
    ensures FromStub(UseLogin.Await(Utils.Login(req)))
  {
  }

  /** Every settle event in `evs` carries a settlement the stub can produce. */
  predicate StubDriven(evs: seq<Event>) {
    forall i :: 0 <= i < |evs| ==> (evs[i].Settle? ==> FromStub(evs[i].outcome))
  }

  /**
   * Against the stub, the stronger invariant holds in every reachable state: the message is
   * non-empty exactly when the status is an error, so the error region is never blank.
   */
  lemma StubRunsKeepMessageIffError(c: UseLogin.Controller, evs: seq<Event>)
    requires UseLogin.Consistent(c.status) && UseLogin.MessageIffError(c.status)
    requires StubDriven(evs)
    ensures UseLogin.MessageIffError(Run(c, evs).state.status)
  {
  }

  /** Whether `e` can change field `k`: an edit of `k`, or a successful settlement, which clears the form. */
  predicate WritesField(e: Event, k: UseLogin.Field) {
    (e.Edit? && e.field == k) || e == Settle(UseLogin.Success)
  }

  /** A field that no event writes keeps its starting value: submits and failures leave the form alone. */
  lemma {:induction false} FieldUntouched(c: UseLogin.Controller, evs: seq<Event>, k: UseLogin.Field)
    requires forall j :: 0 <= j < |evs| ==> !WritesField(evs[j], k)
    ensures UseLogin.Get(Run(c, evs).state.form, k) == UseLogin.Get(c.form, k)
  {
    if evs != [] {
      var prefix := evs[..|evs| - 1];
      assert forall j :: 0 <= j < |prefix| ==> prefix[j] == evs[j];
      FieldUntouched(c, prefix, k);
      assert !WritesField(evs[|evs| - 1], k);
    }
  }

  /**
   * A field holds what the latest event writing it left there: the value of its latest
   * edit, or "" after a successful settlement.
   */
  lemma {:induction false} FieldFromLatestWrite(c: UseLogin.Controller, evs: seq<Event>, i: nat, k: UseLogin.Field)
    requires i < |evs| && WritesField(evs[i], k)
    requires forall j :: i < j < |evs| ==> !WritesField(evs[j], k)
    ensures evs[i].Edit? ==> UseLogin.Get(Run(c, evs).state.form, k) == evs[i].value
    ensures evs[i].Settle? ==> UseLogin.Get(Run(c, evs).state.form, k) == ""
  {
    var prefix := evs[..|evs| - 1];
    if i < |evs| - 1 {
      assert forall j :: 0 <= j < |prefix| ==> prefix[j] == evs[j];
      FieldFromLatestWrite(c, prefix, i, k);
      assert !WritesField(evs[|evs| - 1], k);
    }
  }

  /**
   * The status is decided by the latest submit or settle event: loading after a submit,
   * initial after a success, and after a failure the error with its message until the next
   * edit clears it. Later edits change nothing else.
   */
  lemma {:induction false} StatusFromLatestRequest(c: UseLogin.Controller, evs: seq<Event>, i: nat)
    requires i < |evs| && !evs[i].Edit?
    requires forall j :: i < j < |evs| ==> evs[j].Edit?
    ensures var s := Run(c, evs).state.status;
            && (evs[i].Submit? ==> s == UseLogin.LoadingStatus)
            && (evs[i] == Settle(UseLogin.Success) ==> s == UseLogin.InitialStatus)
            && (evs[i].Settle? && !evs[i].outcome.Success? && i == |evs| - 1 ==>
                  s == UseLogin.ErrorStatus(UseLogin.FailureMessage(evs[i].outcome)))
            && (evs[i].Settle? && !evs[i].outcome.Success? && i < |evs| - 1 ==>
                  s == UseLogin.InitialStatus)
  {
    var prefix := evs[..|evs| - 1];
    if i < |evs| - 1 {
      assert forall j :: 0 <= j < |prefix| ==> prefix[j] == evs[j];
      StatusFromLatestRequest(c, prefix, i);
      assert evs[|evs| - 1].Edit?;
    }
  }

  /** Without any submit or settle event, edits only ever clear an error. */
  lemma {:induction false} StatusUnderEditsOnly(c: UseLogin.Controller, evs: seq<Event>)
    requires |evs| > 0 && OnlyEdits(evs)
    ensures Run(c, evs).state.status == UseLogin.ChangeStatus(c.status)
  {
    var prefix := evs[..|evs| - 1];
    if |prefix| > 0 {
      assert OnlyEdits(prefix) by {
        forall i | 0 <= i < |prefix| ensures prefix[i].Edit? {
          assert prefix[i] == evs[i];
        }
      }
      StatusUnderEditsOnly(c, prefix);
    }
    assert evs[|evs| - 1].Edit?;
  }

  /** An edit sequence: every event is an `Edit`. */
  predicate OnlyEdits(evs: seq<Event>) {
    forall i :: 0 <= i < |evs| ==> evs[i].Edit?
  }

  /**
   * Once a submit has started, no sequence of edits changes the status, so the button stays
   * disabled whatever the fields become, until the `login` call settles.
   */
  lemma {:induction false} LoadingSurvivesEdits(c: UseLogin.Controller, edits: seq<Event>)
    requires OnlyEdits(edits)
    ensures var s := UseLogin.SubmitStart(c).state;
            var r := Run(s, edits);
            r.state.status == s.status && UseLogin.IsBtnDisabled(r.state) && r.notices == []
  {
    var s := UseLogin.SubmitStart(c).state;
    if edits != [] {
      var prefix := edits[..|edits| - 1];
      assert OnlyEdits(prefix) by {
        forall i | 0 <= i < |prefix| ensures prefix[i].Edit? {
          assert prefix[i] == edits[i];
        }
      }
      LoadingSurvivesEdits(c, prefix);
      assert edits[|edits| - 1].Edit?;
    }
  }

  /** An error is cleared by the next edit, whichever field it touches and whatever value it writes. */
  lemma ErrorClearedByEdit(c: UseLogin.Controller, k: UseLogin.Field, v: string)
    requires c.status.isError
    ensures Step(c, Edit(k, v)).state.status == UseLogin.InitialStatus
  {
  }

  /** Appending one event to a session applies that event to the session's final state. */
  lemma RunAppend(c: UseLogin.Controller, evs: seq<Event>, e: Event)
    ensures Run(c, evs + [e]).state == Step(Run(c, evs).state, e).state
  {
  }

  /*
   * The session of the hook's button test, one checkpoint per lemma: a short password keeps
   * the button disabled, a six-character one enables it, it is disabled while the submit is
   * pending, and after a successful login it stays disabled because the form is cleared. A
   * failed login instead keeps the form, so the button is enabled again.
   */

  const TestEmail: string := "test@example.com"

  const ShortSession: seq<Event> := [Edit(UseLogin.Password, "12345"), Edit(UseLogin.Email, TestEmail)]

  const FilledSession: seq<Event> := ShortSession + [Edit(UseLogin.Password, "123456")]

  const PendingSession: seq<Event> := FilledSession + [Submit]

  const FilledForm: UseLogin.Form := UseLogin.Form("", TestEmail, "123456")

  lemma ScenarioShortPassword()
    ensures Run(UseLogin.Initial, ShortSession).state == UseLogin.Controller(UseLogin.Form("", TestEmail, "12345"), UseLogin.InitialStatus)
    ensures UseLogin.IsBtnDisabled(Run(UseLogin.Initial, ShortSession).state)
  {
    var first := [Edit(UseLogin.Password, "12345")];
    RunAppend(UseLogin.Initial, [], first[0]);
    assert [] + first == first;
    RunAppend(UseLogin.Initial, first, Edit(UseLogin.Email, TestEmail));
    assert first + [Edit(UseLogin.Email, TestEmail)] == ShortSession;
    assert JsString.Length("12345") == 5;
  }

  lemma ScenarioFilled()
    ensures Run(UseLogin.Initial, FilledSession).state == UseLogin.Controller(FilledForm, UseLogin.InitialStatus)
    ensures !UseLogin.IsBtnDisabled(Run(UseLogin.Initial, FilledSession).state)
  {
    ScenarioShortPassword();
    RunAppend(UseLogin.Initial, ShortSession, Edit(UseLogin.Password, "123456"));
    var short := UseLogin.Controller(UseLogin.Form("", TestEmail, "12345"), UseLogin.InitialStatus);
    assert UseLogin.HandleChange(short, UseLogin.Password, "123456") == UseLogin.Controller(FilledForm, UseLogin.InitialStatus);
    assert JsString.Length("123456") == 6;
  }

  lemma ScenarioPending()
    ensures Run(UseLogin.Initial, PendingSession).state == UseLogin.Controller(FilledForm, UseLogin.LoadingStatus)
    ensures UseLogin.IsBtnDisabled(Run(UseLogin.Initial, PendingSession).state)
  {
    ScenarioFilled();
    RunAppend(UseLogin.Initial, FilledSession, Submit);
  }

  lemma ScenarioSucceeded()
    ensures Run(UseLogin.Initial, PendingSession + [Settle(UseLogin.Success)]).state == UseLogin.Initial
    ensures UseLogin.IsBtnDisabled(Run(UseLogin.Initial, PendingSession + [Settle(UseLogin.Success)]).state)
  {
  }

  lemma ScenarioFailed(o: UseLogin.Settlement)
    requires !o.Success?
    ensures Run(UseLogin.Initial, PendingSession + [Settle(o)]).state
            == UseLogin.Controller(FilledForm, UseLogin.ErrorStatus(UseLogin.FailureMessage(o)))
    ensures !UseLogin.IsBtnDisabled(Run(UseLogin.Initial, PendingSession + [Settle(o)]).state)
  {
    ScenarioPending();
    RunAppend(UseLogin.Initial, PendingSession, Settle(o));
    assert JsString.Length("123456") == 6;
  }
}
