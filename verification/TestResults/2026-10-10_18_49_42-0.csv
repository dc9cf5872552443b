TestResult.DisplayName,TestResult.Outcome,TestResult.Duration,TestResult.ResourceCount,RandomSeed
LoginSession.FieldFromLatestWrite (correctness),Passed,00:00:00.3168220,351935,0
LoginSession.ScenarioFailed (correctness),Passed,00:00:00.3076224,606195,0
LoginForm.ButtonTitle (well-formedness),Passed,00:00:00.2556079,61375,0
LoginSession.ScenarioFilled (correctness),Passed,00:00:00.2521153,498144,0
LoginForm.ErrorRegion (well-formedness),Passed,00:00:00.2508275,15787,0
LoginSession.ScenarioShortPassword (correctness),Passed,00:00:00.2419888,272674,0
LoginSession.Step (well-formedness),Passed,00:00:00.1945620,96481,0
LoginSession.RunAppend (correctness),Passed,00:00:00.1812644,147802,0
LoginSession.FieldUntouched (correctness),Passed,00:00:00.1721633,181038,0
LoginSession.Run (well-formedness),Passed,00:00:00.1706182,161731,0
LoginSession.StubRunsKeepMessageIffError (correctness),Passed,00:00:00.1577808,157012,0
UseLogin.SubmitAgainstStub (correctness),Passed,00:00:00.1454231,95087,0
LoginSession.ScenarioPending (correctness),Passed,00:00:00.1356011,219539,0
LoginSession.FieldUntouched (well-formedness),Passed,00:00:00.1330742,93649,0
LoginSession.StatusFromLatestRequest (correctness),Passed,00:00:00.1324657,168090,0
LoginSession.StatusFromLatestRequest (well-formedness),Passed,00:00:00.1298570,118853,0
LoginSession.FieldFromLatestWrite (well-formedness),Passed,00:00:00.1279163,97804,0
LoginForm.EditHidesErrorRegion (correctness),Passed,00:00:00.1238830,37713,0
UseLogin.DisabledAfterSuccess (correctness),Passed,00:00:00.1229975,66198,0
LoginSession.LoadingSurvivesEdits (correctness),Passed,00:00:00.1207785,145364,0
LoginSession.ReachableConsistent (correctness),Passed,00:00:00.1184240,112125,0
LoginSession.StatusUnderEditsOnly (correctness),Passed,00:00:00.1140290,129202,0
JsString.Length (well-formedness),Passed,00:00:00.1043785,47667,0
UseLoginJs.SubmitResolve (well-formedness),Passed,00:00:00.0974783,61834,0
LoginSession.ScenarioSucceeded (correctness),Passed,00:00:00.0964914,157708,0
UseLoginJs.SubmitStart (well-formedness),Passed,00:00:00.0865293,25922,0
LoginSession.ScenarioFailed (well-formedness),Passed,00:00:00.0818237,112471,0
LoginSession.ErrorClearedByEdit (correctness),Passed,00:00:00.0814385,77863,0
LoginForm.SubmitTitleIffEnabled (correctness),Passed,00:00:00.0690158,57722,0
LoginForm.FailureShowsMessage (well-formedness),Passed,00:00:00.0542426,55982,0
LoginForm.DisabledTitleNamesReason (correctness),Passed,00:00:00.0519220,57331,0
LoginForm.FailureShowsMessage (correctness),Passed,00:00:00.0518063,57570,0
UseLoginJs.SubmitResolveAgrees (correctness),Passed,00:00:00.0492173,77290,0
LoginSession.StubSettlementsFromStub (correctness),Passed,00:00:00.0452998,36177,0
UseLogin.EmptyErrorMessageShown (correctness),Passed,00:00:00.0445688,54339,0
LoginSession.StubDriven (well-formedness),Passed,00:00:00.0424372,31331,0
UseLoginJs.HandleChangeAgrees (correctness),Passed,00:00:00.0403428,58397,0
UseLogin.HandleChangeCommutes (correctness),Passed,00:00:00.0402598,54596,0
UseLogin.SubmitResolve (well-formedness),Passed,00:00:00.0398932,62854,0
UseLogin.InitialState (correctness),Passed,00:00:00.0370381,32199,0
UseLogin.DisabledWhileLoading (correctness),Passed,00:00:00.0356305,40380,0
UseLoginJs.Set (well-formedness),Passed,00:00:00.0348038,24822,0
UseLoginJs.NameChangeOnlyClearsError (correctness),Passed,00:00:00.0345182,45992,0
InputGroup.ToggleTwiceRestores (correctness),Passed,00:00:00.0343573,24914,0
UseLoginJs.SubmitStartAgrees (correctness),Passed,00:00:00.0335673,48314,0
Utils.Login (well-formedness),Passed,00:00:00.0322703,34500,0
Utils.EmptyEmailRejected (correctness),Passed,00:00:00.0320481,30520,0
UseLoginJs.IsBtnDisabledAgrees (correctness),Passed,00:00:00.0315415,42821,0
UseLogin.ButtonEnabledIff (correctness),Passed,00:00:00.0309084,31937,0
InputGroup.Toggle (well-formedness),Passed,00:00:00.0294039,24149,0
UseLogin.IsBtnDisabled (well-formedness),Passed,00:00:00.0292931,43304,0
UseLoginJs.HandleChange (well-formedness),Passed,00:00:00.0291001,34413,0
UseLoginJs.IsBtnDisabled (well-formedness),Passed,00:00:00.0288617,42239,0
UseLogin.FailureMessage (well-formedness),Passed,00:00:00.0287691,25644,0
InputGroup.Mount (well-formedness),Passed,00:00:00.0284794,9088,0
LoginSession.Successes (well-formedness),Passed,00:00:00.0282892,22157,0
InputGroup.ToggleTwiceRestores (well-formedness),Passed,00:00:00.0282837,23522,0
UseLogin.HandleChangeIdempotent (correctness),Passed,00:00:00.0280515,39476,0
UseLogin.HandleChange (well-formedness),Passed,00:00:00.0275743,39570,0
LoginSession.WritesField (well-formedness),Passed,00:00:00.0272954,17566,0
InputGroup.MinLength (well-formedness),Passed,00:00:00.0255531,12300,0
UseLogin.Set (well-formedness),Passed,00:00:00.0243599,35005,0
InputGroup.HasToggle (well-formedness),Passed,00:00:00.0240957,20676,0
UseLoginJs.InitialAgrees (correctness),Passed,00:00:00.0221828,25143,0
JsString.AllBmp (well-formedness),Passed,00:00:00.0219479,8627,0
JsString.CodeUnits (well-formedness),Passed,00:00:00.0215950,8165,0
InputGroup.ShowPassIrrelevantElsewhere (correctness),Passed,00:00:00.0206407,10947,0
Utils.Truthy (well-formedness),Passed,00:00:00.0204412,7289,0
UseLogin.SubmitStart (well-formedness),Passed,00:00:00.0202487,26948,0
LoginForm.PasswordInputMatchesButtonRule (correctness),Passed,00:00:00.0201865,13638,0
InputGroup.RenderedType (well-formedness),Passed,00:00:00.0201806,12458,0
UseLoginJs.Widen (well-formedness),Passed,00:00:00.0198601,9956,0
Utils.RejectionHasMessage (well-formedness),Passed,00:00:00.0197051,29212,0
LoginSession.OnlyEdits (well-formedness),Passed,00:00:00.0187375,12531,0
Utils.RejectionHasMessage (correctness),Passed,00:00:00.0186383,29958,0
InputGroup.MountedPasswordHidden (correctness),Passed,00:00:00.0184620,10600,0
UseLogin.ShapeIffConsistent (correctness),Passed,00:00:00.0165984,21182,0
UseLogin.ChangeStatus (well-formedness),Passed,00:00:00.0156202,14486,0
UseLoginJs.Forget (well-formedness),Passed,00:00:00.0154202,21914,0
UseLogin.MinPasswordLength (well-formedness),Passed,00:00:00.0139174,3752,0
UseLogin.ErrorStatus (well-formedness),Passed,00:00:00.0134752,12098,0
InputGroup.PasswordMinLength (well-formedness),Passed,00:00:00.0123425,3752,0
UseLogin.Await (well-formedness),Passed,00:00:00.0113818,16357,0
