TestResult.DisplayName,TestResult.Outcome,TestResult.Duration,TestResult.ResourceCount,RandomSeed
LoginSession.ScenarioFilled (correctness),Passed,00:00:00.3712139,697157,1
LoginSession.FieldFromLatestWrite (correctness),Passed,00:00:00.3376222,341690,1
LoginSession.Run (well-formedness),Passed,00:00:00.3057881,158853,1
LoginSession.StubRunsKeepMessageIffError (correctness),Passed,00:00:00.2994981,158466,1
LoginSession.Step (well-formedness),Passed,00:00:00.2503972,96386,1
LoginSession.StatusFromLatestRequest (well-formedness),Passed,00:00:00.2246485,121040,1
LoginSession.FieldUntouched (correctness),Passed,00:00:00.1956312,173520,1
LoginSession.ScenarioFailed (correctness),Passed,00:00:00.1921515,454891,1
LoginSession.FieldUntouched (well-formedness),Passed,00:00:00.1801918,93616,1
LoginSession.StatusFromLatestRequest (correctness),Passed,00:00:00.1573905,165939,1
LoginSession.LoadingSurvivesEdits (correctness),Passed,00:00:00.1552379,145814,1
LoginSession.RunAppend (correctness),Passed,00:00:00.1477666,130325,1
UseLogin.SubmitAgainstStub (correctness),Passed,00:00:00.1442165,95467,1
LoginForm.ErrorRegion (well-formedness),Passed,00:00:00.1394734,15788,1
LoginSession.ScenarioShortPassword (correctness),Passed,00:00:00.1393127,272613,1
LoginForm.DisabledTitleNamesReason (correctness),Passed,00:00:00.1392024,57335,1
LoginForm.ButtonTitle (well-formedness),Passed,00:00:00.1382848,61297,1
LoginForm.EditHidesErrorRegion (correctness),Passed,00:00:00.1325901,37691,1
LoginSession.FieldFromLatestWrite (well-formedness),Passed,00:00:00.1228531,97785,1
UseLogin.EmptyErrorMessageShown (correctness),Passed,00:00:00.1226341,53935,1
LoginSession.ReachableConsistent (correctness),Passed,00:00:00.1215311,112981,1
UseLoginJs.SubmitResolve (well-formedness),Passed,00:00:00.1203551,61935,1
LoginSession.StatusUnderEditsOnly (correctness),Passed,00:00:00.1194387,129058,1
LoginSession.ScenarioPending (correctness),Passed,00:00:00.1137599,223154,1
LoginSession.ErrorClearedByEdit (correctness),Passed,00:00:00.1047433,77855,1
JsString.Length (well-formedness),Passed,00:00:00.1003976,47710,1
LoginSession.ScenarioSucceeded (correctness),Passed,00:00:00.0885105,155228,1
LoginSession.ScenarioFailed (well-formedness),Passed,00:00:00.0859734,112468,1
LoginSession.StubSettlementsFromStub (correctness),Passed,00:00:00.0853203,36279,1
LoginSession.WritesField (well-formedness),Passed,00:00:00.0642392,17566,1
UseLoginJs.IsBtnDisabled (well-formedness),Passed,00:00:00.0584179,42227,1
UseLoginJs.SubmitResolveAgrees (correctness),Passed,00:00:00.0568211,77539,1
UseLogin.SubmitResolve (well-formedness),Passed,00:00:00.0488706,63309,1
LoginForm.FailureShowsMessage (well-formedness),Passed,00:00:00.0479732,55974,1
Utils.Login (well-formedness),Passed,00:00:00.0474291,34460,1
LoginForm.SubmitTitleIffEnabled (correctness),Passed,00:00:00.0473274,57726,1
LoginSession.StubDriven (well-formedness),Passed,00:00:00.0471355,31337,1
LoginForm.FailureShowsMessage (correctness),Passed,00:00:00.0458866,57669,1
UseLoginJs.HandleChangeAgrees (correctness),Passed,00:00:00.0455926,58308,1
UseLoginJs.SubmitStartAgrees (correctness),Passed,00:00:00.0450403,48324,1
UseLogin.DisabledAfterSuccess (correctness),Passed,00:00:00.0426704,66211,1
LoginSession.Successes (well-formedness),Passed,00:00:00.0412517,22190,1
UseLogin.Set (well-formedness),Passed,00:00:00.0359964,34885,1
UseLogin.HandleChange (well-formedness),Passed,00:00:00.0357269,39484,1
UseLogin.HandleChangeCommutes (correctness),Passed,00:00:00.0354553,53800,1
UseLogin.DisabledWhileLoading (correctness),Passed,00:00:00.0350627,40400,1
Utils.EmptyEmailRejected (correctness),Passed,00:00:00.0348658,30516,1
UseLoginJs.IsBtnDisabledAgrees (correctness),Passed,00:00:00.0343747,42837,1
UseLogin.ChangeStatus (well-formedness),Passed,00:00:00.0342268,14463,1
UseLogin.ShapeIffConsistent (correctness),Passed,00:00:00.0326739,20620,1
UseLoginJs.NameChangeOnlyClearsError (correctness),Passed,00:00:00.0321482,46035,1
InputGroup.ToggleTwiceRestores (well-formedness),Passed,00:00:00.0321264,23509,1
Utils.RejectionHasMessage (well-formedness),Passed,00:00:00.0309820,29216,1
UseLogin.InitialState (correctness),Passed,00:00:00.0309733,32259,1
UseLoginJs.HandleChange (well-formedness),Passed,00:00:00.0306516,34391,1
UseLogin.ButtonEnabledIff (correctness),Passed,00:00:00.0299320,31964,1
UseLogin.FailureMessage (well-formedness),Passed,00:00:00.0293538,25647,1
UseLogin.IsBtnDisabled (well-formedness),Passed,00:00:00.0287510,43330,1
UseLoginJs.SubmitStart (well-formedness),Passed,00:00:00.0279514,26081,1
UseLoginJs.Set (well-formedness),Passed,00:00:00.0266414,24908,1
UseLogin.HandleChangeIdempotent (correctness),Passed,00:00:00.0261833,39096,1
UseLoginJs.InitialAgrees (correctness),Passed,00:00:00.0252187,25167,1
InputGroup.HasToggle (well-formedness),Passed,00:00:00.0249734,20678,1
InputGroup.Toggle (well-formedness),Passed,00:00:00.0245973,24151,1
UseLoginJs.Forget (well-formedness),Passed,00:00:00.0245187,21910,1
InputGroup.MountedPasswordHidden (correctness),Passed,00:00:00.0242965,10604,1
InputGroup.ToggleTwiceRestores (correctness),Passed,00:00:00.0242523,24883,1
JsString.CodeUnits (well-formedness),Passed,00:00:00.0227348,8166,1
UseLoginJs.Widen (well-formedness),Passed,00:00:00.0224371,9967,1
Utils.RejectionHasMessage (correctness),Passed,00:00:00.0215839,29964,1
UseLogin.SubmitStart (well-formedness),Passed,00:00:00.0210138,27092,1
InputGroup.PasswordMinLength (well-formedness),Passed,00:00:00.0202027,3753,1
LoginForm.PasswordInputMatchesButtonRule (correctness),Passed,00:00:00.0201078,13640,1
InputGroup.RenderedType (well-formedness),Passed,00:00:00.0200528,12469,1
LoginSession.OnlyEdits (well-formedness),Passed,00:00:00.0195516,12532,1
UseLogin.ErrorStatus (well-formedness),Passed,00:00:00.0193181,12097,1
Utils.Truthy (well-formedness),Passed,00:00:00.0191403,7289,1
InputGroup.MinLength (well-formedness),Passed,00:00:00.0187185,12300,1
UseLogin.MinPasswordLength (well-formedness),Passed,00:00:00.0187036,3753,1
UseLogin.Await (well-formedness),Passed,00:00:00.0160560,16360,1
InputGroup.ShowPassIrrelevantElsewhere (correctness),Passed,00:00:00.0159719,10949,1
JsString.AllBmp (well-formedness),Passed,00:00:00.0125084,8642,1
InputGroup.Mount (well-formedness),Passed,00:00:00.0114379,9092,1
