TestResult.DisplayName,TestResult.Outcome,TestResult.Duration,TestResult.ResourceCount,RandomSeed
LoginSession.FieldFromLatestWrite (correctness),Passed,00:00:00.3535808,322360,2
LoginSession.ScenarioFilled (correctness),Passed,00:00:00.3313174,702253,2
LoginSession.ScenarioFailed (correctness),Passed,00:00:00.2912443,601833,2
LoginSession.FieldUntouched (correctness),Passed,00:00:00.2731644,207224,2
LoginSession.ScenarioShortPassword (correctness),Passed,00:00:00.2028529,296714,2
LoginSession.FieldFromLatestWrite (well-formedness),Passed,00:00:00.1924359,97797,2
LoginSession.StatusFromLatestRequest (well-formedness),Passed,00:00:00.1827320,121246,2
LoginForm.ButtonTitle (well-formedness),Passed,00:00:00.1769739,61488,2
LoginForm.ErrorRegion (well-formedness),Passed,00:00:00.1728257,15789,2
LoginSession.LoadingSurvivesEdits (correctness),Passed,00:00:00.1675125,145002,2
LoginSession.Step (well-formedness),Passed,00:00:00.1575919,96313,2
LoginSession.StatusFromLatestRequest (correctness),Passed,00:00:00.1570840,167038,2
LoginSession.StubRunsKeepMessageIffError (correctness),Passed,00:00:00.1493661,158035,2
LoginSession.RunAppend (correctness),Passed,00:00:00.1471223,139337,2
LoginSession.StatusUnderEditsOnly (correctness),Passed,00:00:00.1464386,129230,2
LoginSession.ScenarioPending (correctness),Passed,00:00:00.1432415,212776,2
UseLogin.SubmitAgainstStub (correctness),Passed,00:00:00.1333604,95253,2
LoginSession.Run (well-formedness),Passed,00:00:00.1325313,157669,2
LoginForm.DisabledTitleNamesReason (correctness),Passed,00:00:00.1312586,57329,2
UseLogin.EmptyErrorMessageShown (correctness),Passed,00:00:00.1238531,54523,2
UseLoginJs.SubmitResolve (well-formedness),Passed,00:00:00.1230923,61972,2
LoginForm.EditHidesErrorRegion (correctness),Passed,00:00:00.1227084,37683,2
LoginSession.ScenarioSucceeded (correctness),Passed,00:00:00.1157412,158450,2
LoginSession.FieldUntouched (well-formedness),Passed,00:00:00.1060393,93632,2
LoginSession.ReachableConsistent (correctness),Passed,00:00:00.1049373,111690,2
UseLoginJs.SubmitStart (well-formedness),Passed,00:00:00.1006666,26038,2
LoginSession.ErrorClearedByEdit (correctness),Passed,00:00:00.0917677,77833,2
LoginSession.ScenarioFailed (well-formedness),Passed,00:00:00.0877350,112428,2
LoginSession.StubSettlementsFromStub (correctness),Passed,00:00:00.0673967,36297,2
LoginForm.SubmitTitleIffEnabled (correctness),Passed,00:00:00.0601636,57723,2
LoginForm.FailureShowsMessage (correctness),Passed,00:00:00.0554165,57658,2
LoginSession.StubDriven (well-formedness),Passed,00:00:00.0498053,31337,2
UseLogin.SubmitResolve (well-formedness),Passed,00:00:00.0492382,62851,2
UseLoginJs.SubmitResolveAgrees (correctness),Passed,00:00:00.0481858,76834,2
UseLogin.HandleChange (well-formedness),Passed,00:00:00.0479897,39540,2
UseLogin.DisabledAfterSuccess (correctness),Passed,00:00:00.0471804,66253,2
LoginForm.FailureShowsMessage (well-formedness),Passed,00:00:00.0471038,56127,2
UseLoginJs.HandleChangeAgrees (correctness),Passed,00:00:00.0440148,58325,2
Utils.Login (well-formedness),Passed,00:00:00.0429739,34471,2
UseLoginJs.HandleChange (well-formedness),Passed,00:00:00.0407078,34333,2
UseLoginJs.IsBtnDisabled (well-formedness),Passed,00:00:00.0400398,42297,2
UseLogin.HandleChangeCommutes (correctness),Passed,00:00:00.0392342,53894,2
Utils.RejectionHasMessage (correctness),Passed,00:00:00.0385616,29947,2
LoginSession.OnlyEdits (well-formedness),Passed,00:00:00.0373427,12533,2
UseLogin.FailureMessage (well-formedness),Passed,00:00:00.0370699,25644,2
UseLoginJs.NameChangeOnlyClearsError (correctness),Passed,00:00:00.0370008,46021,2
InputGroup.ToggleTwiceRestores (correctness),Passed,00:00:00.0346584,24895,2
UseLoginJs.Set (well-formedness),Passed,00:00:00.0345789,24739,2
UseLogin.ButtonEnabledIff (correctness),Passed,00:00:00.0342716,31953,2
UseLogin.HandleChangeIdempotent (correctness),Passed,00:00:00.0340206,39064,2
InputGroup.HasToggle (well-formedness),Passed,00:00:00.0330536,20670,2
UseLoginJs.SubmitStartAgrees (correctness),Passed,00:00:00.0326665,48375,2
UseLoginJs.IsBtnDisabledAgrees (correctness),Passed,00:00:00.0325096,42840,2
UseLogin.DisabledWhileLoading (correctness),Passed,00:00:00.0311589,40401,2
JsString.Length (well-formedness),Passed,00:00:00.0301125,47634,2
UseLogin.IsBtnDisabled (well-formedness),Passed,00:00:00.0298748,43299,2
InputGroup.ToggleTwiceRestores (well-formedness),Passed,00:00:00.0293061,23519,2
LoginSession.WritesField (well-formedness),Passed,00:00:00.0290675,17566,2
JsString.CodeUnits (well-formedness),Passed,00:00:00.0283735,8173,2
Utils.EmptyEmailRejected (correctness),Passed,00:00:00.0282077,30497,2
UseLogin.SubmitStart (well-formedness),Passed,00:00:00.0276712,27064,2
InputGroup.Toggle (well-formedness),Passed,00:00:00.0276508,24142,2
Utils.RejectionHasMessage (well-formedness),Passed,00:00:00.0275534,29201,2
UseLogin.Set (well-formedness),Passed,00:00:00.0270303,34955,2
UseLogin.ShapeIffConsistent (correctness),Passed,00:00:00.0267843,20576,2
UseLoginJs.Forget (well-formedness),Passed,00:00:00.0266253,21910,2
InputGroup.RenderedType (well-formedness),Passed,00:00:00.0265391,12464,2
Utils.Truthy (well-formedness),Passed,00:00:00.0264841,7289,2
UseLogin.InitialState (correctness),Passed,00:00:00.0264707,32178,2
InputGroup.MountedPasswordHidden (correctness),Passed,00:00:00.0250125,10604,2
LoginSession.Successes (well-formedness),Passed,00:00:00.0239050,22179,2
UseLogin.MinPasswordLength (well-formedness),Passed,00:00:00.0235731,3753,2
UseLogin.ErrorStatus (well-formedness),Passed,00:00:00.0229119,12151,2
InputGroup.MinLength (well-formedness),Passed,00:00:00.0226458,12296,2
UseLoginJs.InitialAgrees (correctness),Passed,00:00:00.0221955,25186,2
InputGroup.PasswordMinLength (well-formedness),Passed,00:00:00.0205105,3753,2
InputGroup.Mount (well-formedness),Passed,00:00:00.0190807,9091,2
LoginForm.PasswordInputMatchesButtonRule (correctness),Passed,00:00:00.0189455,13633,2
JsString.AllBmp (well-formedness),Passed,00:00:00.0174957,8645,2
InputGroup.ShowPassIrrelevantElsewhere (correctness),Passed,00:00:00.0167628,10949,2
UseLogin.ChangeStatus (well-formedness),Passed,00:00:00.0160112,14460,2
UseLogin.Await (well-formedness),Passed,00:00:00.0135578,16364,2
UseLoginJs.Widen (well-formedness),Passed,00:00:00.0121202,9959,2
