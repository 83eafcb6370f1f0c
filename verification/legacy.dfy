/** The legacy implementation `WinToastImpl` (src/wintoast_impl.cpp):
    `initialize`, `showToast` with a per-toast event handler, `hideToast`,
    `clear`, and the activated and dismissed handlers it installs on each
    notification. It differs from the current facade in that COM is
    initialised inside `createShortcut`, nothing is written to the
    registry, a handler is required, action arguments are bare indices
    and the handler learns of expirations. */
module Legacy {
  import opened Common
  import opened Errors
  import opened Numbers
  import opened Shortcut
  import opened Templates
  import opened Payload
  import opened Toasts
  import Facade

  /** The members of `WinToastImpl` (src/wintoast_impl.h:84-89), plus the
      shell links: the AUMI stored in `<appName>.lnk`, for each application
      name. */
  datatype LegacyState = LegacyState(
    isInitialized: bool,
    hasCoInitialized: bool,
    policy: ShortcutPolicy,
    appName: string,
    aumi: string,
    buffer: Buffer,
    links: Links)

  /** What the OS answers during `initialize`: `isCompatible()`, the value
      `CoInitializeEx` returns, the shell link and
      `SetCurrentProcessExplicitAppUserModelID`. */
  datatype LegacyInitEnv = LegacyInitEnv(compatible: bool, initHr: int, linkEnv: LinkEnv, explicitAumiHr: int)

  datatype LegacyInitResult = LegacyInitResult(ok: bool, error: WinToastError, state: LegacyState)

  /** `initialize` touches only the flags and the links. */
  predicate LegacyInitFrame(s: LegacyState, t: LegacyState) {
    t.(isInitialized := s.isInitialized, hasCoInitialized := s.hasCoInitialized, links := s.links) == s
  }

  /** The shortcut step, COM initialisation included, on the shortcut named
      after the application. */
  function LegacyShortcutStep(s: LegacyState, env: LegacyInitEnv): (ShortcutResult, Option<string>, bool) {
    LegacyCreateShortcut(s.aumi, s.appName, env.compatible, s.policy, env.linkEnv.(link := LinkAt(s.links, s.appName)),
                         s.hasCoInitialized, env.initHr)
  }

  /** `WinToastImpl::initialize`: the flag is cleared first, then
      compatibility, parameters, the shortcut (skipped under
      `PolicyIgnore`) and the explicit AUMI are checked in that order. */
  function LegacyInitialize(s: LegacyState, env: LegacyInitEnv): (r: LegacyInitResult)
    ensures r.ok <==> r.error == NoError
    ensures r.state.isInitialized <==> r.ok
    ensures LegacyInitFrame(s, r.state)
    ensures r.error == SystemNotSupported <==> !env.compatible
    ensures r.error == InvalidParameters <==> env.compatible && !HasParameters(s.aumi, s.appName)
    ensures r.error == ShellLinkNotCreated <==>
              env.compatible && HasParameters(s.aumi, s.appName) && s.policy != PolicyIgnore &&
              !ShortcutSucceeded(LegacyShortcutStep(s, env).0)
    ensures r.error == InvalidAppUserModelID <==>
              env.compatible && HasParameters(s.aumi, s.appName) &&
              (s.policy == PolicyIgnore || ShortcutSucceeded(LegacyShortcutStep(s, env).0)) &&
              Failed(env.explicitAumiHr)
    ensures forall n :: n != s.appName ==> LinkAt(r.state.links, n) == LinkAt(s.links, n)
    ensures r.ok && s.policy != PolicyIgnore ==> LinkAt(r.state.links, s.appName) == Some(s.aumi)
    ensures !env.compatible || !HasParameters(s.aumi, s.appName) ==> r.state == s.(isInitialized := false)
    ensures r.error == ShellLinkNotCreated ==> r.state.links == s.links
  {
    var s0 := s.(isInitialized := false);
    if !env.compatible then LegacyInitResult(false, SystemNotSupported, s0)
    else if !HasParameters(s.aumi, s.appName) then LegacyInitResult(false, InvalidParameters, s0)
    else
      var s1 :=
        if s.policy == PolicyIgnore then s0
        else
          var (_, link, coInit) := LegacyShortcutStep(s, env);
          s0.(links := StoreLink(s.links, s.appName, link), hasCoInitialized := coInit);
      if s.policy != PolicyIgnore && !ShortcutSucceeded(LegacyShortcutStep(s, env).0) then
        LegacyInitResult(false, ShellLinkNotCreated, s1)
      else if Failed(env.explicitAumiHr) then LegacyInitResult(false, InvalidAppUserModelID, s1)
      else LegacyInitResult(true, NoError, s1.(isInitialized := true))
  }

  /** Under `PolicyIgnore` the legacy `initialize` never initialises COM
      and never looks at the shortcut. */
  lemma LegacyIgnoreSkipsCom(s: LegacyState, env: LegacyInitEnv)
    requires s.policy == PolicyIgnore
    ensures LegacyInitialize(s, env).state.hasCoInitialized == s.hasCoInitialized
    ensures LegacyInitialize(s, env).state.links == s.links
    ensures LegacyInitialize(s, env).ok <==>
              env.compatible && HasParameters(s.aumi, s.appName) && !Failed(env.explicitAumiHr)
  {
  }

  /** A failing `CoInitializeEx` surfaces as `ShellLinkNotCreated`. */
  lemma LegacyComFailureReported(s: LegacyState, env: LegacyInitEnv)
    requires env.compatible && HasParameters(s.aumi, s.appName) && s.policy != PolicyIgnore
    requires !s.hasCoInitialized && Failed(env.initHr) && env.initHr != RpcEChangedMode
    ensures LegacyInitialize(s, env).error == ShellLinkNotCreated
    ensures !LegacyInitialize(s, env).state.hasCoInitialized
  {
  }

  /** The legacy view of a current-facade state. */
  function Downgrade(s: Facade.State): LegacyState {
    LegacyState(s.isInitialized, s.hasCoInitialized, s.policy, s.appName, s.aumi, s.buffer, s.links)
  }

  /** The current `initialize` asks more of the OS than the legacy one:
      with COM already initialised and the same answers, whenever the
      current one succeeds so does the legacy one, leaving the same links. */
  lemma CurrentImpliesLegacy(s: Facade.State, env: Facade.InitEnv, initHr: int)
    requires s.hasCoInitialized
    requires Facade.Initialize(s, env).ok
    ensures var l := LegacyInitialize(Downgrade(s), LegacyInitEnv(env.compatible, initHr, env.linkEnv, env.explicitAumiHr));
      l.ok && l.state.links == Facade.Initialize(s, env).state.links
  {
    Facade.InitializeSucceeds(s, env);
    var lenv := LegacyInitEnv(env.compatible, initHr, env.linkEnv, env.explicitAumiHr);
    if s.policy != PolicyIgnore {
      assert Facade.Initialize(s, env) == Facade.InitShortcut(s, env);
      var c := CreateShortcut(s.aumi, s.appName, env.compatible, s.policy, Facade.AppLinkEnv(s, env));
      assert (LegacyShortcutStep(Downgrade(s), lenv).0, LegacyShortcutStep(Downgrade(s), lenv).1) == c;
      assert Facade.Initialize(s, env).state.links == StoreLink(s.links, s.appName, c.1);
    }
  }

  /* showToast */

  /** What the OS answers during the legacy `showToast`; as for the current
      facade, with `handlersOk` for installing the event handlers. */
  datatype LegacyShowEnv = LegacyShowEnv(
    osMajor: nat, xmlOk: bool, now: int, handlersOk: bool, guidOk: bool, data1: Uint32, showOk: bool)

  datatype LegacyShowResult = LegacyShowResult(id: int, error: WinToastError, state: LegacyState)

  /** The notification the legacy `showToast` builds, with bare-index action
      arguments. */
  function LegacyNotificationOf(tpl: Template, env: LegacyShowEnv): Option<Notification>
    requires Valid(tpl)
  {
    match BuildDocument(tpl, env.osMajor > 6, LegacyActionArgs)
    case None => None
    case Some(doc) => Some(Notification(doc, ExpirationOf(tpl.expiration, env.now)))
  }

  /** Whether everything up to and including the GUID succeeds. */
  predicate LegacyPrepared(s: LegacyState, tpl: Template, hasHandler: bool, env: LegacyShowEnv)
    requires Valid(tpl)
  {
    s.isInitialized && hasHandler && env.xmlOk && LegacyNotificationOf(tpl, env).Some? && env.handlersOk && env.guidOk
  }

  /** `WinToastImpl::showToast`. `hasHandler` says whether the handler
      pointer is non-null. */
  function LegacyShowToast(s: LegacyState, tpl: Template, hasHandler: bool, env: LegacyShowEnv): (r: LegacyShowResult)
    requires Valid(tpl)
    ensures r.error == NoError <==> r.id >= 0
    ensures r.id == -1 || r.id == env.data1
    ensures r.error == NotInitialized <==> !s.isInitialized
    ensures r.error == InvalidHandler <==>
              s.isInitialized && (!hasHandler || (env.xmlOk && LegacyNotificationOf(tpl, env).Some? && !env.handlersOk))
    ensures r.error == UnknownError <==>
              s.isInitialized && hasHandler &&
              (!env.xmlOk || LegacyNotificationOf(tpl, env).None? || (env.handlersOk && !env.guidOk))
    ensures r.error == NotDisplayed <==> LegacyPrepared(s, tpl, hasHandler, env) && !env.showOk
    ensures r.error == NoError <==> LegacyPrepared(s, tpl, hasHandler, env) && env.showOk
    ensures r.state.(buffer := s.buffer) == s
    ensures r.state.buffer == s.buffer || (LegacyPrepared(s, tpl, hasHandler, env) &&
              r.state.buffer == Record(s.buffer, env.data1, LegacyNotificationOf(tpl, env).value))
    ensures LegacyPrepared(s, tpl, hasHandler, env) ==>
              r.state.buffer == Record(s.buffer, env.data1, LegacyNotificationOf(tpl, env).value)
    ensures !LegacyPrepared(s, tpl, hasHandler, env) ==> r.state.buffer == s.buffer
  {
    if !s.isInitialized then LegacyShowResult(-1, NotInitialized, s)
    else if !hasHandler then LegacyShowResult(-1, InvalidHandler, s)
    else if !env.xmlOk then LegacyShowResult(-1, UnknownError, s)
    else match LegacyNotificationOf(tpl, env)
      case None => LegacyShowResult(-1, UnknownError, s)
      case Some(n) =>
        if !env.handlersOk then LegacyShowResult(-1, InvalidHandler, s)
        else if !env.guidOk then LegacyShowResult(-1, UnknownError, s)
        else
          var s1 := s.(buffer := Record(s.buffer, env.data1, n));
          if !env.showOk then LegacyShowResult(-1, NotDisplayed, s1)
          else LegacyShowResult(env.data1, NoError, s1)
  }

  /* hideToast, clear */

  function LegacyHideToast(s: LegacyState, id: int, hideOk: bool): (r: (bool, LegacyState))
    ensures r.0 <==> s.isInitialized && id in s.buffer && hideOk
    ensures r.0 ==> r.1 == s.(buffer := Forget(s.buffer, id))
    ensures !r.0 ==> r.1 == s
  {
    var (ok, b) := HideInBuffer(s.isInitialized, s.buffer, id, hideOk);
    (ok, s.(buffer := b))
  }

  function LegacyClear(s: LegacyState, hideOk: bool): (r: LegacyState)
    ensures r == s.(buffer := map[])
  {
    s.(buffer := ClearBuffer(s.buffer, hideOk))
  }

  /** A toast shown under a fresh id is hidden with that id, and the state
      returns to what it was. */
  lemma LegacyShowThenHide(s: LegacyState, tpl: Template, env: LegacyShowEnv)
    requires Valid(tpl) && env.data1 !in s.buffer
    requires LegacyShowToast(s, tpl, true, env).error == NoError
    ensures var shown := LegacyShowToast(s, tpl, true, env);
      LegacyHideToast(shown.state, shown.id, true) == (true, s)
  {
    RecordForget(s.buffer, env.data1, LegacyNotificationOf(tpl, env).value);
  }

  /* The handlers installed on each notification. */

  /** The activated handler: a non-empty argument string is read with
      `wcstol` and passed on as the action index; an empty one (a click on
      the toast's body) calls the handler without an index. */
  function OnActivated(arguments: string): (r: Option<int>)
    ensures r.None? <==> arguments == ""
    ensures r.Some? ==> LongMin <= r.value <= LongMax
  {
    if arguments == "" then None else Some(Wcstol(arguments))
  }

  /** Clicking action `i` reports `i` back to the handler, for every index
      a 32-bit `long` holds. */
  lemma LegacyActionRoundTrip(i: nat)
    requires i <= LongMax
    ensures OnActivated(LegacyActionArgs(i)) == Some(i)
  {
    assert Pow10(11) == 100_000_000_000;
    LegacyActionArgsShape(i);
    WcstolDecimal(i);
  }

  /** Larger indices saturate at `LONG_MAX`. */
  lemma LegacyActionSaturates(i: nat)
    requires LongMax < i < Pow10(11)
    ensures OnActivated(LegacyActionArgs(i)) == Some(LongMax)
  {
    LegacyActionArgsShape(i);
    WcstolDecimalClamps(i);
  }

  /** The expiration the handler captures: 0 when none is set. */
  function ExpirationTicks(e: Option<int>): (r: int)
    ensures e.None? ==> r == 0
    ensures e.Some? ==> r == e.value
  {
    if e.Some? then e.value else 0
  }

  /** The dismissed handler of a recorded notification. */
  function OnDismissed(n: Notification, reason: OsDismissal, now: int): DismissalReason {
    DismissedReport(reason, ExpirationTicks(n.expiration), now)
  }

  /** A toast with an expiration that the user closes at or after that
      time is reported as timed out, and as cancelled before it; without an
      expiration a cancellation is always reported as such. */
  lemma DismissalAfterExpiry(tpl: Template, env: LegacyShowEnv, now: int)
    requires Valid(tpl) && env.now >= 0 && LegacyNotificationOf(tpl, env).Some?
    ensures var n := LegacyNotificationOf(tpl, env).value;
      OnDismissed(n, OsUserCanceled, now) == TimedOut <==>
        tpl.expiration > 0 && now >= env.now + tpl.expiration * 10000
  {
  }
}
