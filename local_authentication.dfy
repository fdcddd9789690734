/** The re-authentication gate of the app: it remembers when the application last
    resigned active, exposes whether a biometrics dialog is on screen, and answers
    whether the PIN code (or biometrics) must be shown again, whether content must be
    obscured while inactive, and whether failed attempts force a logout.

    Time is the whole-second value of a monotonic clock, passed in as `now`. */
module LocalAuthentication {

  datatype Option<T> = None | Some(value: T)

  /** The PIN code preferences as they stand when a query is asked. */
  datatype PinCodePreferences = PinCodePreferences(
    isPinSet: bool,
    isBiometricsSet: bool,
    graceTimeInSeconds: int,
    numberOfPinFailures: int,
    maxAllowedNumberOfPinFailures: int,
    numberOfBiometricsFailures: int,
    maxAllowedNumberOfBiometricsFailures: int)

  /** The two build-time toggles the logout decision consults. */
  datatype BuildSettings = BuildSettings(
    logOutUserWhenPINFailuresExceeded: bool,
    logOutUserWhenBiometricsFailuresExceeded: bool)

  /** The mutable part of the service, as a value. */
  datatype ServiceState = ServiceState(appLastActiveTime: Option<int>, isShowingBiometrics: bool)

  const InitialState := ServiceState(None, false)

  /** The clock reading `now` is not earlier than the stored instant `last`:
      the monotonic clock never goes backwards. */
  predicate NotBefore(last: Option<int>, now: int)
  {
    last.None? || last.value <= now
  }

  /** Protection is configured when a PIN or biometrics is set. */
  function IsProtectionSet(prefs: PinCodePreferences): (r: bool)
    // the same condition as the negated guard that opens shouldShowPinCode
    ensures r <==> !(!prefs.isPinSet && !prefs.isBiometricsSet)
  {
    prefs.isPinSet || prefs.isBiometricsSet
  }

  /** Whether too many failed attempts force a logout. Consults only the
      preferences snapshot and the build toggles. */
  function ShouldLogOutUser(prefs: PinCodePreferences, build: BuildSettings): (r: bool)
    ensures r <==>
      (build.logOutUserWhenPINFailuresExceeded
         && prefs.numberOfPinFailures >= prefs.maxAllowedNumberOfPinFailures) ||
      (build.logOutUserWhenBiometricsFailuresExceeded
         && prefs.numberOfBiometricsFailures >= prefs.maxAllowedNumberOfBiometricsFailures)
  {
    if build.logOutUserWhenPINFailuresExceeded
       && prefs.numberOfPinFailures >= prefs.maxAllowedNumberOfPinFailures then
      true
    else if build.logOutUserWhenBiometricsFailuresExceeded
       && prefs.numberOfBiometricsFailures >= prefs.maxAllowedNumberOfBiometricsFailures then
      true
    else
      false
  }

  /** More failures never withdraw a logout decision. */
  lemma LogOutPersistsWithMoreFailures(prefs: PinCodePreferences, more: PinCodePreferences, build: BuildSettings)
    requires more.maxAllowedNumberOfPinFailures == prefs.maxAllowedNumberOfPinFailures
    requires more.maxAllowedNumberOfBiometricsFailures == prefs.maxAllowedNumberOfBiometricsFailures
    requires more.numberOfPinFailures >= prefs.numberOfPinFailures
    requires more.numberOfBiometricsFailures >= prefs.numberOfBiometricsFailures
    requires ShouldLogOutUser(prefs, build)
    ensures ShouldLogOutUser(more, build)
  {
  }

  /** With both build toggles off, no failure count forces a logout. */
  lemma NoLogOutWhenTogglesOff(prefs: PinCodePreferences, build: BuildSettings)
    requires !build.logOutUserWhenPINFailuresExceeded && !build.logOutUserWhenBiometricsFailuresExceeded
    ensures !ShouldLogOutUser(prefs, build)
  {
  }

  // ----- State changes, as values -----

  /** The state after applicationWillResignActive at clock reading `now`. */
  function Resigned(s: ServiceState, now: int): ServiceState
  {
    s.(appLastActiveTime := Some(now))
  }

  /** What can happen to the service's state: the application resigns active at a
      clock reading, or the UI layer sets or clears the biometrics flag. */
  datatype Event = WillResignActive(now: int) | ShowingBiometricsChanged(showing: bool)

  function Step(s: ServiceState, e: Event): ServiceState
  {
    match e
    case WillResignActive(now) => Resigned(s, now)
    case ShowingBiometricsChanged(showing) => s.(isShowingBiometrics := showing)
  }

  /** The state after the events, from first to last. */
  function Replay(s: ServiceState, events: seq<Event>): ServiceState
    decreases |events|
  {
    if events == [] then s else Replay(Step(s, events[0]), events[1..])
  }

  /** Every resign event in the history respects the monotonic clock: it is not
      earlier than the instant stored when it happens. */
  predicate ClockRespected(s: ServiceState, events: seq<Event>)
    decreases |events|
  {
    events == [] ||
    ((events[0].WillResignActive? ==> NotBefore(s.appLastActiveTime, events[0].now)) &&
     ClockRespected(Step(s, events[0]), events[1..]))
  }

  /** The clock reading of the most recent resign event, if any. */
  function LastResignTime(events: seq<Event>): Option<int>
    decreases |events|
  {
    if events == [] then None
    else match events[|events| - 1]
      case WillResignActive(now) => Some(now)
      case ShowingBiometricsChanged(_) => LastResignTime(events[..|events| - 1])
  }

  /** The value of the most recent biometrics flag change, if any. */
  function LastShowingBiometrics(events: seq<Event>): Option<bool>
    decreases |events|
  {
    if events == [] then None
    else match events[|events| - 1]
      case WillResignActive(_) => LastShowingBiometrics(events[..|events| - 1])
      case ShowingBiometricsChanged(showing) => Some(showing)
  }

  lemma {:induction false} ReplayAppend(s: ServiceState, a: seq<Event>, b: seq<Event>)
    ensures Replay(s, a + b) == Replay(Replay(s, a), b)
    decreases |a|
  {
    if a == [] {
      assert a + b == b;
    } else {
      assert (a + b)[0] == a[0];
      assert (a + b)[1..] == a[1..] + b;
      ReplayAppend(Step(s, a[0]), a[1..], b);
    }
  }

  /** The stored instant is that of the most recent resign event; with none, it is
      what was stored before. */
  lemma {:induction false} ReplayLastActive(s: ServiceState, events: seq<Event>)
    ensures Replay(s, events).appLastActiveTime ==
      (if LastResignTime(events).Some? then LastResignTime(events) else s.appLastActiveTime)
    decreases |events|
  {
    if events != [] {
      var front, last := events[..|events| - 1], events[|events| - 1];
      assert events == front + [last];
      ReplayAppend(s, front, [last]);
      ReplayLastActive(s, front);
    }
  }

  /** Resign events never touch the biometrics flag: it holds the most recent value
      the UI layer gave it, or what it was before. */
  lemma {:induction false} ReplayShowingBiometrics(s: ServiceState, events: seq<Event>)
    ensures Replay(s, events).isShowingBiometrics ==
      (if LastShowingBiometrics(events).Some? then LastShowingBiometrics(events).value
       else s.isShowingBiometrics)
    decreases |events|
  {
    if events != [] {
      var front, last := events[..|events| - 1], events[|events| - 1];
      assert events == front + [last];
      ReplayAppend(s, front, [last]);
      ReplayShowingBiometrics(s, front);
    }
  }

  /** Under a monotonic clock the stored instant never decreases, and in the end it
      is not earlier than any resign event of the history. */
  lemma {:induction false} StoredInstantNeverDecreases(s: ServiceState, events: seq<Event>)
    requires ClockRespected(s, events)
    ensures s.appLastActiveTime.Some? ==>
      Replay(s, events).appLastActiveTime.Some? &&
      s.appLastActiveTime.value <= Replay(s, events).appLastActiveTime.value
    ensures forall i :: 0 <= i < |events| && events[i].WillResignActive? ==>
      Replay(s, events).appLastActiveTime.Some? &&
      events[i].now <= Replay(s, events).appLastActiveTime.value
    decreases |events|
  {
    if events != [] {
      var s1, rest := Step(s, events[0]), events[1..];
      StoredInstantNeverDecreases(s1, rest);
      assert Replay(s, events) == Replay(s1, rest);
      forall i | 1 <= i < |events| && events[i].WillResignActive?
        ensures events[i].now <= Replay(s, events).appLastActiveTime.value
      {
        assert events[i] == rest[i - 1];
      }
    }
  }

  /** Resigning twice at the same clock reading leaves the state of resigning once. */
  lemma {:induction false} ResignIdempotent(s: ServiceState, events: seq<Event>, now: int)
    ensures Replay(s, events + [WillResignActive(now), WillResignActive(now)]) ==
            Replay(s, events + [WillResignActive(now)])
  {
    ReplayAppend(s, events, [WillResignActive(now), WillResignActive(now)]);
    ReplayAppend(s, events, [WillResignActive(now)]);
  }

  /** Of two successive resign events the later one is stored (under the monotonic
      clock t1 <= t2, but the later one wins whatever the readings). */
  lemma {:induction false} LaterResignWins(s: ServiceState, events: seq<Event>, t1: int, t2: int)
    ensures Replay(s, events + [WillResignActive(t1), WillResignActive(t2)]).appLastActiveTime == Some(t2)
  {
    ReplayAppend(s, events, [WillResignActive(t1), WillResignActive(t2)]);
    var mid := Step(Replay(s, events), WillResignActive(t1));
    assert [WillResignActive(t1), WillResignActive(t2)][1..] == [WillResignActive(t2)];
    assert Replay(mid, [WillResignActive(t2)]) == Step(mid, WillResignActive(t2));
  }

  // ----- The service object -----

  class LocalAuthenticationService {
    /** The clock reading at the last will-resign-active event; None until the first. */
    var appLastActiveTime: Option<int>
    /** Whether a biometrics setup or unlock dialog is on screen; showing it makes the
        application resign active. Written by the UI layer. */
    var isShowingBiometrics: bool

    function State(): ServiceState
      reads this
    {
      ServiceState(appLastActiveTime, isShowingBiometrics)
    }

    constructor ()
      ensures State() == InitialState
    {
      appLastActiveTime := None;
      isShowingBiometrics := false;
    }

    /** Records the clock reading at which the application resigns active. */
    method ApplicationWillResignActive(now: int)
      requires NotBefore(appLastActiveTime, now)
      modifies this
      ensures State() == Resigned(old(State()), now)
      ensures appLastActiveTime == Some(now)
      ensures isShowingBiometrics == old(isShowingBiometrics)
    {
      appLastActiveTime := Some(now);
    }

    /** The UI layer raises or lowers the biometrics flag around its dialog. */
    method SetIsShowingBiometrics(showing: bool)
      modifies this
      ensures State() == Step(old(State()), ShowingBiometricsChanged(showing))
      ensures isShowingBiometrics == showing
      ensures appLastActiveTime == old(appLastActiveTime)
    {
      isShowingBiometrics := showing;
    }

    /** Whether the user must prove identity again. `activeAccountCount` is None when
        there is no account manager. */
    function ShouldShowPinCode(prefs: PinCodePreferences, activeAccountCount: Option<nat>, now: int): (r: bool)
      reads this
      requires NotBefore(appLastActiveTime, now)
      ensures r ==> IsProtectionSet(prefs)
      ensures activeAccountCount == Some(0) ==> !r
      ensures IsProtectionSet(prefs) && activeAccountCount != Some(0) && appLastActiveTime.None? ==> r
      ensures IsProtectionSet(prefs) && activeAccountCount != Some(0) && appLastActiveTime.Some? ==>
        (r <==> now - appLastActiveTime.value > prefs.graceTimeInSeconds)
    {
      if !prefs.isPinSet && !prefs.isBiometricsSet then
        false
      else if activeAccountCount == Some(0) then
        false
      else
        match appLastActiveTime
        case None => true
        case Some(lastActive) => now - lastActive > prefs.graceTimeInSeconds
    }

    /** Whether content must be obscured while the application is inactive. */
    function ShouldShowInactiveScreen(prefs: PinCodePreferences): (r: bool)
      reads this
      ensures !IsProtectionSet(prefs) ==> !r
      ensures IsProtectionSet(prefs) ==> (r <==> !isShowingBiometrics)
    {
      if !IsProtectionSet(prefs) then false else !isShowingBiometrics
    }
  }

  // ----- Properties of the service -----

  /** Without a PIN and without biometrics neither gate ever closes. */
  lemma UnprotectedNeverGates(svc: LocalAuthenticationService, prefs: PinCodePreferences,
                              activeAccountCount: Option<nat>, now: int)
    requires NotBefore(svc.appLastActiveTime, now)
    requires !prefs.isPinSet && !prefs.isBiometricsSet
    ensures !svc.ShouldShowPinCode(prefs, activeAccountCount, now)
    ensures !svc.ShouldShowInactiveScreen(prefs)
  {
  }

  /** Once the PIN is required, waiting longer without resigning again keeps it required. */
  lemma NoBypassByWaiting(svc: LocalAuthenticationService, prefs: PinCodePreferences,
                          activeAccountCount: Option<nat>, now: int, later: int)
    requires NotBefore(svc.appLastActiveTime, now) && now <= later
    requires svc.ShouldShowPinCode(prefs, activeAccountCount, now)
    ensures svc.ShouldShowPinCode(prefs, activeAccountCount, later)
  {
  }

  /** The grace period is inclusive: exactly `graceTimeInSeconds` after resigning the
      PIN is not required, one second later it is. */
  lemma GraceBoundary(svc: LocalAuthenticationService, prefs: PinCodePreferences,
                      activeAccountCount: Option<nat>, t: int)
    requires svc.appLastActiveTime == Some(t) && prefs.graceTimeInSeconds >= 0
    requires IsProtectionSet(prefs) && activeAccountCount != Some(0)
    ensures !svc.ShouldShowPinCode(prefs, activeAccountCount, t + prefs.graceTimeInSeconds)
    ensures svc.ShouldShowPinCode(prefs, activeAccountCount, t + prefs.graceTimeInSeconds + 1)
  {
  }

  /** After any history of events, the PIN decision measures the elapsed time from the
      most recent resign event. */
  lemma {:induction false} PinCodeUsesMostRecentResign(svc: LocalAuthenticationService, events: seq<Event>,
                                                       prefs: PinCodePreferences,
                                                       activeAccountCount: Option<nat>, now: int, t: int)
    requires svc.State() == Replay(InitialState, events) && LastResignTime(events) == Some(t) && t <= now
    requires IsProtectionSet(prefs) && activeAccountCount != Some(0)
    ensures NotBefore(svc.appLastActiveTime, now)
    ensures svc.ShouldShowPinCode(prefs, activeAccountCount, now) <==> now - t > prefs.graceTimeInSeconds
  {
    ReplayLastActive(InitialState, events);
  }

  /** Before any resign event, a protected app with accounts always asks for the PIN,
      whatever the biometrics flag did. */
  lemma {:induction false} PinCodeBeforeFirstResign(svc: LocalAuthenticationService, events: seq<Event>,
                                                    prefs: PinCodePreferences,
                                                    activeAccountCount: Option<nat>, now: int)
    requires svc.State() == Replay(InitialState, events) && LastResignTime(events) == None
    requires IsProtectionSet(prefs) && activeAccountCount != Some(0)
    ensures NotBefore(svc.appLastActiveTime, now)
    ensures svc.ShouldShowPinCode(prefs, activeAccountCount, now)
  {
    ReplayLastActive(InitialState, events);
  }

  /** After any history of events, the inactive screen is shown exactly when protection is
      set and the last biometrics flag change (if any) lowered the flag. */
  lemma {:induction false} InactiveScreenFollowsLastFlagChange(svc: LocalAuthenticationService, events: seq<Event>,
                                                               prefs: PinCodePreferences)
    requires svc.State() == Replay(InitialState, events)
    ensures svc.ShouldShowInactiveScreen(prefs) <==>
      IsProtectionSet(prefs) && LastShowingBiometrics(events) != Some(true)
  {
    ReplayShowingBiometrics(InitialState, events);
  }
}
