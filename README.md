# Local authentication gate

A Dafny model of `LocalAuthenticationService`, the gate that decides when the app must
ask again for the PIN code (or biometrics). The service keeps two pieces of state:

- the monotonic-clock reading at the last "application will resign active" event
  (`appLastActiveTime`, none until the first such event);
- the flag `isShowingBiometrics`, raised by the UI layer while a biometrics dialog is on
  screen, because presenting that dialog itself makes the application resign active.

Over that state and a snapshot of the PIN code preferences it answers four queries:
`shouldShowPinCode`, `shouldShowInactiveScreen`, `isProtectionSet` and `shouldLogOutUser`.

The model is one module, `LocalAuthentication` (`local_authentication.dfy`):

- `LocalAuthenticationService` is a class with the two fields. Its methods
  `ApplicationWillResignActive` and `SetIsShowingBiometrics` state the new state exactly.
  The two state-dependent queries are functions that read the object.
- `PinCodePreferences` and `BuildSettings` are value snapshots passed to each query.
  The preferences object of the app is mutable and owned elsewhere, for example its
  failure counters change. So each query reads the values current at call time.
- The clock is an argument `now: int`, in whole seconds, because the source keeps only
  `tv_sec` of `CLOCK_MONOTONIC_RAW`. The predicate `NotBefore` states the clock's
  guarantee that a reading is never earlier than the stored instant. Recording a resign
  event and asking `ShouldShowPinCode` both require it.
- The number of active accounts is an `Option<nat>`. `None` stands for a missing account
  manager. The Swift test `MXKAccountManager.shared()?.activeAccounts.count == 0` compares
  an optional with 0, so it holds only for `Some(0)`. A missing manager does not open
  the gate early.
- A history of state changes is modelled as a sequence of `Event`s, replayed by
  `Replay`. The lemmas over histories state that the last resign event alone decides
  the stored instant, that resign events never touch the biometric flag, and that under
  a monotonic clock the stored instant never decreases.

The clock is truncated to whole seconds before it is compared with the grace time.
A query a fraction of a second past the grace period can therefore still see an elapsed
time equal to the grace time, and then the PIN is not required. The model keeps this
truncation and uses whole seconds throughout (`GraceBoundary`).

## Model

| member | source | states |
|---|---|---|
| `LocalAuthentication.IsProtectionSet` | Riot/Managers/LocalAuthentication/LocalAuthenticationService.swift:71-73 | protection is set exactly when the first guard of `shouldShowPinCode` at line 52 lets the query go on, i.e. when a PIN or biometrics is set |
| `LocalAuthentication.ShouldLogOutUser` | Riot/Managers/LocalAuthentication/LocalAuthenticationService.swift:79-87 | logout is forced exactly when the PIN toggle is on and PIN failures reach their maximum, or the biometrics toggle is on and biometrics failures reach theirs; it reads no service state |
| `LocalAuthentication.LogOutPersistsWithMoreFailures` | Riot/Managers/LocalAuthentication/LocalAuthenticationService.swift:79-87 | with the same maxima and toggles, more failures never withdraw a forced logout |
| `LocalAuthentication.NoLogOutWhenTogglesOff` | Riot/Managers/LocalAuthentication/LocalAuthenticationService.swift:79-87 | with both build toggles off no failure count forces a logout |
| `LocalAuthentication.ReplayAppend` | Riot/Managers/LocalAuthentication/LocalAuthenticationService.swift:75-77 | replaying two histories one after the other is replaying their concatenation |
| `LocalAuthentication.ReplayLastActive` | Riot/Managers/LocalAuthentication/LocalAuthenticationService.swift:75-77 | after any history the stored instant is the clock reading of the most recent resign event, or the earlier stored instant when there was none |
| `LocalAuthentication.ReplayShowingBiometrics` | Riot/Managers/LocalAuthentication/LocalAuthenticationService.swift:46-49 | after any history the biometrics flag holds the value of its most recent change, or its earlier value; resign events never touch it |
| `LocalAuthentication.StoredInstantNeverDecreases` | Riot/Managers/LocalAuthentication/LocalAuthenticationService.swift:75-77 | when every resign reading respects the monotonic clock, the stored instant never decreases and ends no earlier than every resign reading of the history |
| `LocalAuthentication.ResignIdempotent` | Riot/Managers/LocalAuthentication/LocalAuthenticationService.swift:75-77 | resigning twice at the same clock reading gives the same state as resigning once, after any history |
| `LocalAuthentication.LaterResignWins` | Riot/Managers/LocalAuthentication/LocalAuthenticationService.swift:75-77 | of two successive resign events at t1 and t2 the instant t2 is stored |
| `LocalAuthentication.LocalAuthenticationService.constructor` | Riot/Managers/LocalAuthentication/LocalAuthenticationService.swift:24-31 | a new service has no stored resign instant and the biometrics flag lowered |
| `LocalAuthentication.LocalAuthenticationService.ApplicationWillResignActive` | Riot/Managers/LocalAuthentication/LocalAuthenticationService.swift:75-77 | stores the current clock reading as the last active time and leaves the biometrics flag as it was |
| `LocalAuthentication.LocalAuthenticationService.SetIsShowingBiometrics` | Riot/Managers/LocalAuthentication/LocalAuthenticationService.swift:49 | the UI layer's write of the flag sets it and leaves the stored instant as it was |
| `LocalAuthentication.LocalAuthenticationService.ShouldShowPinCode` | Riot/Managers/LocalAuthentication/LocalAuthenticationService.swift:51-62 | the PIN is required only when protection is set; never with exactly 0 active accounts (a missing account manager does not count as 0); always when no resign was recorded; otherwise exactly when the elapsed seconds strictly exceed the grace time |
| `LocalAuthentication.LocalAuthenticationService.ShouldShowInactiveScreen` | Riot/Managers/LocalAuthentication/LocalAuthenticationService.swift:64-69 | without protection the inactive screen is never shown; with protection it is shown exactly when no biometrics dialog is on screen |
| `LocalAuthentication.UnprotectedNeverGates` | Riot/Managers/LocalAuthentication/LocalAuthenticationService.swift:51-69 | with neither PIN nor biometrics set, neither the PIN nor the inactive screen is shown, whatever the other state |
| `LocalAuthentication.NoBypassByWaiting` | Riot/Managers/LocalAuthentication/LocalAuthenticationService.swift:58-61 | once the PIN is required, it stays required at every later clock reading until the next resign event |
| `LocalAuthentication.GraceBoundary` | Riot/Managers/LocalAuthentication/LocalAuthenticationService.swift:61 | exactly the grace time after the resign instant the PIN is not required; one second later it is |
| `LocalAuthentication.PinCodeUsesMostRecentResign` | Riot/Managers/LocalAuthentication/LocalAuthenticationService.swift:58-61 | after any history starting from a new service, the elapsed time is measured from the most recent resign event |
| `LocalAuthentication.PinCodeBeforeFirstResign` | Riot/Managers/LocalAuthentication/LocalAuthenticationService.swift:58-60 | after a history with no resign event, a protected app with accounts always requires the PIN, whatever the biometrics flag did |
| `LocalAuthentication.InactiveScreenFollowsLastFlagChange` | Riot/Managers/LocalAuthentication/LocalAuthenticationService.swift:64-69 | after any history starting from a new service, the inactive screen is shown exactly when protection is set and the last change of the biometrics flag did not raise it |

## Left out

- The observer registration with `NotificationCenter` (lines 42-44) is left out. The host
  calls `ApplicationWillResignActive` directly.
- The call to `clock_gettime(CLOCK_MONOTONIC_RAW)` and its `fatalError` on failure
  (lines 33-40) are left out. The reading is the argument `now`, and clock failure is
  outside the model.
- `MXKAccountManager.shared()` and `BuildSettings` are external singletons. They become
  the argument `activeAccountCount` and the `BuildSettings` record.
- `TimeInterval` is a `Double`. Time and grace are whole seconds here. A fractional grace
  time is not modelled.
- `isShowingBiometrics` is a `static` variable in the source, shared by the process.
  Dafny has no mutable static fields, so it is a field of the one service object. Its
  thread safety is not modelled.
- The preferences are a value snapshot per query. The model does not capture that the
  service holds a reference to a mutable preferences object.
- The app's `Int` counters are unbounded integers. The source only compares them, so
  64-bit width plays no part.
