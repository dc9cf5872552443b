TestResult.DisplayName,TestResult.Outcome,TestResult.Duration,TestResult.ResourceCount,RandomSeed
LoginSession.ScenarioFilled (correctness),Passed,00:00:00.4170690,498835,3
LoginSession.Run (well-formedness),Passed,00:00:00.3659738,155889,3
LoginSession.FieldFromLatestWrite (correctness),Passed,00:00:00.2944786,401590,3
LoginSession.ScenarioFailed (correctness),Passed,00:00:00.2778990,658128,3
LoginSession.Step (well-formedness),Passed,00:00:00.2514786,96345,3
LoginSession.ScenarioShortPassword (correctness),Passed,00:00:00.2497363,383831,3
LoginSession.FieldUntouched (correctness),Passed,00:00:00.2149473,217164,3
LoginSession.StubRunsKeepMessageIffError (correctness),Passed,00:00:00.2130443,150486,3
LoginSession.ScenarioPending (correctness),Passed,00:00:00.2036914,226640,3
LoginSession.LoadingSurvivesEdits (correctness),Passed,00:00:00.1899242,144112,3
LoginSession.ReachableConsistent (correctness),Passed,00:00:00.1898012,112160,3
LoginForm.ButtonTitle (well-formedness),Passed,00:00:00.1858718,61347,3
LoginForm.ErrorRegion (well-formedness),Passed,00:00:00.1821952,15787,3
LoginSession.StatusFromLatestRequest (correctness),Passed,00:00:00.1784538,165457,3
LoginSession.StatusFromLatestRequest (well-formedness),Passed,00:00:00.1634024,121053,3
LoginSession.ErrorClearedByEdit (correctness),Passed,00:00:00.1626610,77826,3
LoginSession.StatusUnderEditsOnly (correctness),Passed,00:00:00.1618140,136277,3
LoginSession.Successes (well-formedness),Passed,00:00:00.1594078,22166,3
LoginForm.EditHidesErrorRegion (correctness),Passed,00:00:00.1414359,37707,3
LoginSession.FieldUntouched (well-formedness),Passed,00:00:00.1365845,93619,3
LoginSession.FieldFromLatestWrite (well-formedness),Passed,00:00:00.1365211,97778,3
UseLoginJs.HandleChangeAgrees (correctness),Passed,00:00:00.1298913,58384,3
UseLoginJs.NameChangeOnlyClearsError (correctness),Passed,00:00:00.1175822,46047,3
LoginSession.RunAppend (correctness),Passed,00:00:00.1171860,122698,3
JsString.AllBmp (well-formedness),Passed,00:00:00.1164106,8626,3
LoginSession.ScenarioSucceeded (correctness),Passed,00:00:00.1112610,163704,3
JsString.Length (well-formedness),Passed,00:00:00.1102527,47695,3
UseLogin.HandleChangeIdempotent (correctness),Passed,00:00:00.1069936,39129,3
LoginSession.StubSettlementsFromStub (correctness),Passed,00:00:00.0949903,36280,3
LoginSession.ScenarioFailed (well-formedness),Passed,00:00:00.0854751,112372,3
UseLoginJs.SubmitResolveAgrees (correctness),Passed,00:00:00.0849860,76946,3
LoginSession.StubDriven (well-formedness),Passed,00:00:00.0847790,31333,3
Utils.EmptyEmailRejected (correctness),Passed,00:00:00.0731064,30523,3
UseLogin.HandleChangeCommutes (correctness),Passed,00:00:00.0696298,53758,3
Utils.RejectionHasMessage (well-formedness),Passed,00:00:00.0691552,29195,3
LoginForm.FailureShowsMessage (well-formedness),Passed,00:00:00.0611935,55943,3
UseLogin.SubmitAgainstStub (correctness),Passed,00:00:00.0608663,95079,3
LoginForm.SubmitTitleIffEnabled (correctness),Passed,00:00:00.0586982,57714,3
UseLogin.ErrorStatus (well-formedness),Passed,00:00:00.0566272,12094,3
LoginForm.DisabledTitleNamesReason (correctness),Passed,00:00:00.0548664,57319,3
UseLogin.IsBtnDisabled (well-formedness),Passed,00:00:00.0531744,43337,3
UseLogin.HandleChange (well-formedness),Passed,00:00:00.0523082,40678,3
UseLogin.ShapeIffConsistent (correctness),Passed,00:00:00.0521273,20464,3
UseLoginJs.IsBtnDisabledAgrees (correctness),Passed,00:00:00.0520282,42826,3
LoginForm.FailureShowsMessage (correctness),Passed,00:00:00.0518266,57542,3
UseLoginJs.SubmitResolve (well-formedness),Passed,00:00:00.0510935,61792,3
LoginSession.WritesField (well-formedness),Passed,00:00:00.0492797,17563,3
UseLogin.DisabledWhileLoading (correctness),Passed,00:00:00.0485278,40391,3
UseLogin.DisabledAfterSuccess (correctness),Passed,00:00:00.0473681,66199,3
UseLogin.SubmitResolve (well-formedness),Passed,00:00:00.0469071,63430,3
UseLogin.InitialState (correctness),Passed,00:00:00.0439414,32143,3
InputGroup.ToggleTwiceRestores (well-formedness),Passed,00:00:00.0427199,23523,3
UseLogin.Set (well-formedness),Passed,00:00:00.0418036,34879,3
UseLoginJs.IsBtnDisabled (well-formedness),Passed,00:00:00.0403901,42259,3
InputGroup.HasToggle (well-formedness),Passed,00:00:00.0399103,20683,3
InputGroup.Toggle (well-formedness),Passed,00:00:00.0398423,24152,3
UseLogin.EmptyErrorMessageShown (correctness),Passed,00:00:00.0374091,53949,3
UseLogin.ButtonEnabledIff (correctness),Passed,00:00:00.0353477,31934,3
Utils.Login (well-formedness),Passed,00:00:00.0352844,34516,3
UseLoginJs.SubmitStartAgrees (correctness),Passed,00:00:00.0351180,48306,3
InputGroup.ToggleTwiceRestores (correctness),Passed,00:00:00.0348190,24899,3
InputGroup.MountedPasswordHidden (correctness),Passed,00:00:00.0342823,10600,3
UseLoginJs.Set (well-formedness),Passed,00:00:00.0336092,24822,3
UseLogin.Await (well-formedness),Passed,00:00:00.0332304,16364,3
InputGroup.RenderedType (well-formedness),Passed,00:00:00.0325412,12463,3
InputGroup.MinLength (well-formedness),Passed,00:00:00.0315207,12302,3
UseLoginJs.InitialAgrees (correctness),Passed,00:00:00.0307738,25118,3
UseLoginJs.Widen (well-formedness),Passed,00:00:00.0303145,9961,3
Utils.RejectionHasMessage (correctness),Passed,00:00:00.0301531,29941,3
UseLoginJs.SubmitStart (well-formedness),Passed,00:00:00.0296899,25880,3
JsString.CodeUnits (well-formedness),Passed,00:00:00.0295770,8170,3
UseLoginJs.HandleChange (well-formedness),Passed,00:00:00.0278771,34352,3
Utils.Truthy (well-formedness),Passed,00:00:00.0251095,7289,3
UseLoginJs.Forget (well-formedness),Passed,00:00:00.0219277,21910,3
UseLogin.ChangeStatus (well-formedness),Passed,00:00:00.0215063,14423,3
InputGroup.ShowPassIrrelevantElsewhere (correctness),Passed,00:00:00.0203551,10952,3
LoginForm.PasswordInputMatchesButtonRule (correctness),Passed,00:00:00.0200030,13641,3
UseLogin.FailureMessage (well-formedness),Passed,00:00:00.0198266,25647,3
InputGroup.Mount (well-formedness),Passed,00:00:00.0194516,9093,3
UseLogin.SubmitStart (well-formedness),Passed,00:00:00.0192571,26911,3
LoginSession.OnlyEdits (well-formedness),Passed,00:00:00.0191417,12532,3
UseLogin.MinPasswordLength (well-formedness),Passed,00:00:00.0155554,3751,3
InputGroup.PasswordMinLength (well-formedness),Passed,00:00:00.0113747,3751,3
