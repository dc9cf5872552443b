# Login controller model

A Dafny model of the logic behind a React login form: the `useLogin` hook (TypeScript and
JavaScript variants), the stub `login` operation it awaits, the login form's button tooltip
and error region, and the `InputGroup` component's input-type and visibility-toggle rules.

The hook is modelled as immutable records and pure transitions:

- `UseLogin.Controller` holds the form (`name`, `email`, `password`) and the fetch status
  (`isLoading`, `isError`, `errMessage`).
- `HandleChange` is the field-edit handler.
- `handleSubmit` is split at its `await`. `SubmitStart` returns the loading state and the
  credentials handed to `login`. `SubmitResolve` takes the settlement (`Success`,
  `FailureWithMessage(m)` or `FailureNonError`) and returns the new state and the notices
  emitted. The `alert("Login succeed!")` call becomes the notice `"Login succeed!"`.
- `IsBtnDisabled` is the derived `isBtnDisabled` flag.
- `LoginSession.Run` folds a sequence of handler invocations over the state. Its lemmas
  state what holds in every reachable state.

`UseLoginJs` is the JavaScript hook, whose form has only `email` and `password`. It reuses the
TypeScript hook's status record and status transitions. Its lemmas show that dropping the
`name` field maps every TypeScript step onto the corresponding JavaScript step, except an edit
of `name`, which the JavaScript hook sees only as a cleared error.

JavaScript's `password.length` counts UTF-16 code units. `JsString.Length` models it, so a
character outside the Basic Multilingual Plane counts twice in the six-character rule.

One might expect the error message to be non-empty exactly when the status is an error. The
code does not keep this in general. An `Error` whose message is `""` is stored as
`errMessage: ""` with `isError: true`, because the fallback text is used only when the thrown
value is not an `Error` at all. The model follows the code:

- `UseLogin.EmptyErrorMessageShown` exhibits this case.
- Every reachable state keeps the one-way rule `!isError ==> errMessage == ""`.
- The full equivalence is proved only for sessions whose settlements come from the stub
  (`LoginSession.StubRunsKeepMessageIffError`).

## Model

| member | source | states |
|---|---|---|
| `UseLogin.ErrorStatus` | src/hooks/useLogin.ts:51-58 | the failure status is not loading, is in error, and carries the given message |
| `UseLogin.ShapeIffConsistent` | src/hooks/useLogin.ts:28-58 | a status is one of the three literal shapes the hook assigns (initial, loading, error) iff it is never loading and failed at once and has no message outside an error |
| `UseLogin.Set` | src/hooks/useLogin.ts:66 | the object spread `{...formState, [name]: value}` replaces the named field with the value and keeps every other field |
| `UseLogin.ChangeStatus` | src/hooks/useLogin.ts:64 | an error status is reset to the initial status; any other status, loading included, is kept; the result is never an error |
| `UseLogin.HandleChange` | src/hooks/useLogin.ts:62-67 | the named field gets the new value, the others are untouched, an error is cleared to the initial status, a non-error status is unchanged, and consistency is preserved |
| `UseLogin.HandleChangeIdempotent` | src/hooks/useLogin.ts:66 | applying the same change twice gives the same state as applying it once |
| `UseLogin.HandleChangeCommutes` | src/hooks/useLogin.ts:66 | changes to two different fields commute |
| `UseLogin.SubmitStart` | src/hooks/useLogin.ts:39-45 | the status becomes loading with no error and an empty message, the form is kept, and `login` receives the current email and password |
| `UseLogin.FailureMessage` | src/hooks/useLogin.ts:54-57 | the shown message is the Error's message, or "Something went wrong, try again!" when the thrown value is not an Error |
| `UseLogin.SubmitResolve` | src/hooks/useLogin.ts:45-59 | on success the whole state returns to the initial one and exactly one "Login succeed!" notice is emitted; on failure the form is kept, no notice is emitted, and the status is the error with the failure's message; never loading afterwards |
| `UseLogin.IsBtnDisabled` | src/hooks/useLogin.ts:73-76 | loading disables the button whatever the fields hold, and so does an empty email; otherwise it is disabled iff the password has fewer than 6 UTF-16 code units, which for text in the Basic Multilingual Plane is fewer than 6 characters; its partners are `LoginForm.SubmitTitleIffEnabled`, `LoginSession.LoadingSurvivesEdits` and `UseLoginJs.IsBtnDisabledAgrees` |
| `UseLogin.ButtonEnabledIff` | src/hooks/useLogin.ts:73-76 | the button is enabled iff not loading, the email is non-empty and the password has at least 6 UTF-16 code units |
| `UseLogin.DisabledWhileLoading` | src/hooks/useLogin.ts:43-76 | right after submit starts the button is disabled whatever the fields hold |
| `UseLogin.InitialState` | src/hooks/useLogin.ts:23-32 | initially every field is empty, the status is idle with an empty message, and the button is disabled |
| `UseLogin.DisabledAfterSuccess` | src/hooks/useLogin.ts:46-48 | after a successful login the form is cleared, so the button is disabled |
| `UseLogin.Await` | src/hooks/useLogin.ts:45-58 | the awaited stub call counts as success iff it resolved; a rejection reaches the `catch` as an Error with the stub's message |
| `UseLogin.SubmitAgainstStub` | src/utils.ts:12-16 | a full submit against the stub clears the form and notifies once iff the password is "password123" and the email is non-empty; otherwise it shows "Invalid email or password" and keeps the form; the fallback message never appears |
| `UseLogin.EmptyErrorMessageShown` | src/hooks/useLogin.ts:54-57 | an Error with an empty message leaves the status in error with an empty message |
| `JsString.Length` | src/hooks/useLogin.ts:76 | `s.length` lies between the character count and twice it, is zero only for the empty string, and equals the character count for text in the Basic Multilingual Plane; `JsString.LengthChar` and `JsString.LengthAppend` pin it to the UTF-16 code-unit count |
| `JsString.LengthChar` | src/hooks/useLogin.ts:76 | a one-character string is one code unit long inside the Basic Multilingual Plane and two outside it |
| `JsString.LengthAppend` | src/hooks/useLogin.ts:76 | the length of a concatenation is the sum of the lengths, so `s.length` is the sum of its characters' code units |
| `UseLogin.AstralPasswordEnablesButton` | src/hooks/useLogin.ts:73-76 | a password of three characters outside the Basic Multilingual Plane has length 6, so with a non-empty email and an idle status the button is enabled |
| `Utils.Login` | src/utils.ts:8-19 | the stub resolves iff the password is "password123" and the email is non-empty; every rejection carries the message "Invalid email or password" |
| `Utils.Truthy` | src/utils.ts:12 | `!!email` holds exactly for a non-empty string |
| `Utils.EmptyEmailRejected` | src/utils.ts:12 | an empty email is rejected even with the correct password |
| `Utils.RejectionHasMessage` | src/utils.ts:15 | every rejection carries a non-empty message |
| `UseLoginJs.Set` | src/hooks/useLogin.js:44 | the named field of the two-field form gets the value, the other keeps its own |
| `UseLoginJs.HandleChange` | src/hooks/useLogin.js:40-45 | an error is cleared to the initial status, a non-error status is kept, and only the named field changes |
| `UseLoginJs.SubmitStart` | src/hooks/useLogin.js:18-23 | loading with the error cleared, form kept, `login` called with the current credentials |
| `UseLoginJs.SubmitResolve` | src/hooks/useLogin.js:23-37 | success resets status and form and emits one "Login succeed!" notice; failure sets the error with the Error's message or the fallback and keeps the form |
| `UseLoginJs.IsBtnDisabled` | src/hooks/useLogin.js:51-54 | the same rule over the two-field form: loading or an empty email disables the button, otherwise a password under 6 UTF-16 code units does; `UseLoginJs.IsBtnDisabledAgrees` relates it to the TypeScript flag |
| `UseLoginJs.InitialAgrees` | src/hooks/useLogin.js:4-12 | the JavaScript initial state is the TypeScript initial state without the `name` field |
| `UseLoginJs.HandleChangeAgrees` | src/hooks/useLogin.js:40-45 | an edit of email or password does the same in both hooks |
| `UseLoginJs.NameChangeOnlyClearsError` | src/hooks/useLogin.ts:12-16 | an edit of the TypeScript-only `name` field changes nothing the JavaScript form holds; it only clears an error |
| `UseLoginJs.SubmitStartAgrees` | src/hooks/useLogin.js:21-23 | both hooks enter the same loading status and send the same credentials |
| `UseLoginJs.SubmitResolveAgrees` | src/hooks/useLogin.js:24-36 | both hooks settle to corresponding states and emit the same notices |
| `UseLoginJs.IsBtnDisabledAgrees` | src/hooks/useLogin.js:51-54 | both hooks disable the button in exactly the same states |
| `LoginSession.Step` | src/hooks/useLogin.ts:39-67 | one handler invocation preserves consistency and emits a notice only when a settlement succeeds |
| `LoginSession.Run` | src/hooks/useLogin.ts:34-79 | over any session consistency is preserved and exactly one "Login succeed!" notice is emitted per successful settlement |
| `LoginSession.ReachableConsistent` | src/hooks/useLogin.ts:28-58 | every reachable status is one of the three literal shapes, never loading and in error at once, with an empty message outside an error |
| `LoginSession.StubSettlementsFromStub` | src/utils.ts:12-15 | the stub settles only as success or as an Error with "Invalid email or password" |
| `LoginSession.StubRunsKeepMessageIffError` | src/hooks/useLogin.ts:51-58 | when every settlement comes from the stub, every reachable status has a non-empty message iff it is an error |
| `LoginSession.FieldUntouched` | src/hooks/useLogin.ts:43-58 | a field that no edit of it and no successful settlement touches keeps its starting value through any session, so submits and failures preserve the user's input |
| `LoginSession.FieldFromLatestWrite` | src/hooks/useLogin.ts:48-66 | a field holds the value of its latest edit, or "" when a successful settlement came after that edit |
| `LoginSession.StatusFromLatestRequest` | src/hooks/useLogin.ts:43-64 | the status is loading after the latest submit, initial after a success, the failure's error status until the next edit, and initial once an edit followed the failure |
| `LoginSession.StatusUnderEditsOnly` | src/hooks/useLogin.ts:64 | a non-empty run of edits only clears an error status and leaves any other status as it was |
| `LoginSession.LoadingSurvivesEdits` | src/hooks/useLogin.ts:62-76 | after a submit starts, no sequence of edits changes the loading status or enables the button, and none emits a notice |
| `LoginSession.ErrorClearedByEdit` | src/hooks/useLogin.ts:64 | from an error status, any edit yields the initial status |
| `LoginSession.ScenarioShortPassword` | src/hooks/useLogin.test.ts:104-119 | after a five-character password and an email are entered, the state holds exactly those fields with the idle status, and the button is disabled |
| `LoginSession.ScenarioFilled` | src/hooks/useLogin.test.ts:121-128 | replacing the password with a six-character one keeps the email and the idle status and enables the button |
| `LoginSession.ScenarioPending` | src/LoginForm.test.tsx:53-60 | submitting the filled form gives the loading status with the form kept, and the button is disabled |
| `LoginSession.ScenarioSucceeded` | src/hooks/useLogin.test.ts:130-135 | after the awaited submit succeeds the state is the initial one, so the button is disabled |
| `LoginSession.ScenarioFailed` | src/hooks/useLogin.test.ts:94-98 | in the button test's session, with a failed settlement in place of the awaited one: the form is kept, the status is the error with the failure's message (the status the cited lines check), and the button is enabled again |
| `LoginForm.ButtonTitle` | src/LoginForm.tsx:49-55 | the title is "email is empty" iff the email is empty; "password must be 6 character at least" iff the email is filled and the password is short; "Submit button" iff the email is filled and the password is long enough |
| `LoginForm.ErrorRegion` | src/LoginForm.tsx:62-66 | the error region is rendered iff the status is an error, and its content is the status message |
| `LoginForm.SubmitTitleIffEnabled` | src/LoginForm.tsx:46-55 | when not loading, the title is "Submit button" iff the button is enabled |
| `LoginForm.DisabledTitleNamesReason` | src/LoginForm.tsx:49-55 | a disabled button that is not loading names the unmet condition in its title |
| `LoginForm.EditHidesErrorRegion` | src/LoginForm.tsx:62-66 | after any edit the error region is not rendered |
| `LoginForm.FailureShowsMessage` | src/LoginForm.tsx:62-66 | after a failed settlement the error region shows the failure's message |
| `LoginForm.PasswordInputMatchesButtonRule` | src/LoginForm.tsx:36-42 | the password input's `minLength` is the same 6 the button rule uses, and the email input has none |
| `InputGroup.Mount` | src/components/InputGroup.tsx:14 | a mounted group starts with `showPass` false |
| `InputGroup.RenderedType` | src/components/InputGroup.tsx:26 | a password input renders as "text" iff `showPass`, otherwise as "password"; other types render as declared |
| `InputGroup.MinLength` | src/components/InputGroup.tsx:27 | `minLength` is present iff the declared type is password, and then it is 6 |
| `InputGroup.HasToggle` | src/components/InputGroup.tsx:29 | the visibility icon is rendered exactly on the inputs that carry `minLength`, which are the ones whose rendered type depends on `showPass` |
| `InputGroup.Toggle` | src/components/InputGroup.tsx:29-32 | the icon, which exists only for password inputs, flips `showPass` and so changes the rendered type |
| `InputGroup.MountedPasswordHidden` | src/components/InputGroup.tsx:14-26 | a freshly mounted password input renders as "password" |
| `InputGroup.ToggleTwiceRestores` | src/components/InputGroup.tsx:32 | toggling twice restores the group and its rendered type |
| `InputGroup.ShowPassIrrelevantElsewhere` | src/components/InputGroup.tsx:26 | a non-password input renders as declared whatever `showPass` holds |

## Left out

- The random delay of the stub `login` (`setTimeout` with `Math.random`) is not modelled. `Utils.Login` takes only the credentials, so its answer cannot depend on the delay. Settlement is a separate event.
- React scheduling is not modelled: render batching, stale closures and several handler calls inside one `act`. Each handler sees the latest committed state. Several state updates in one handler land together.
- The order of the `alert` relative to the state updates is not modelled. The notice is returned with the settled state.
- `preventDefault` on the submit event is not modelled, and neither is browser constraint validation (`required`, `minLength`) blocking a form submit.
- No guard against a second submit while one is pending is added, because `handleSubmit` has none. Settling two overlapping `login` calls is modelled only as two independent settle events.
- `UseLogin.HandleChange`: an input name outside the form's fields, which the object spread would add as a new key, is not modelled. The rendered inputs are named `email` and `password` only.
- `UseLoginJs.HandleChange`: same restriction, for the two-field form.
- `InputGroup.Toggle`: requires a password input, because the click target exists only then.
- Passwords holding a lone UTF-16 surrogate (`"\uD800"`, whose JavaScript length is 1) are not modelled, because a Dafny `string` holds only Unicode scalar values.
- JSX markup, CSS class names (including the icon's `active` class) and styles are not modelled. src/LoginForm.js is not modelled because it only binds the hook to markup.
