/** The current `WinToast` facade (src/wintoast.cpp:239-952): a process-wide
    state record, `initialize`, `showToast`, `hideToast`, `clear` and the
    COM activation callback. Every OS call is an oracle field of an
    environment record; the model computes what the library does with the
    answers. */
module Facade {
  import opened Common
  import opened Errors
  import opened Numbers
  import opened Shortcut
  import opened Identity
  import opened Templates
  import opened Arguments
  import opened Payload
  import opened Toasts

  /** A value in `HKEY_CURRENT_USER`: key path and value name. */
  datatype RegKey = RegKey(path: string, name: string)

  /** The namespace globals of src/wintoast.cpp:241-250, plus the part of
      the machine the library writes to: the shell links (the AUMI stored
      in `<appName>.lnk`, for each application name) and the registry.
      `hasCallback` says whether `setOnActivated` installed a callback. */
  datatype State = State(
    isInitialized: bool,
    hasCoInitialized: bool,
    policy: ShortcutPolicy,
    appName: string,
    aumi: string,
    clsid: string,
    iconPath: string,
    iconBackgroundColor: string,
    buffer: Buffer,
    hasCallback: bool,
    links: Links,
    registry: map<RegKey, string>)

  /** The state of a freshly loaded library. */
  function Startup(links: Links, registry: map<RegKey, string>): State {
    State(false, false, DefaultPolicy, "", "", "", "", "", map[], false, links, registry)
  }

  /* initialize */

  /** What the OS answers during `initialize`. `linkEnv.link` is ignored in
      favour of the link the state holds for the application name; `hash`
      is `std::hash<std::wstring>`; `activatorOk` covers the whole of
      `createAndRegisterActivator` that can fail: `CLSIDFromString`, the
      executable path and the `LocalServer32` write (the result of
      `CoRegisterClassObject` is discarded, src/wintoast.cpp:499-504);
      `registryFailsAt` is the index of the first registry write that
      fails, if any. */
  datatype InitEnv = InitEnv(
    compatible: bool,
    apartmentOk: bool,
    linkEnv: LinkEnv,
    explicitAumiHr: int,
    exePath: string,
    activatorOk: bool,
    hash: string -> nat,
    registryFailsAt: Option<nat>)

  const LaunchArg: string := "-ToastActivated"
  const AumiKeyPrefix: string := "SOFTWARE\\Classes\\AppUserModelId\\"
  const ClsidKeyPrefix: string := "SOFTWARE\\Classes\\CLSID\\{"
  const LocalServerSuffix: string := "}\\LocalServer32"

  /** Whether `Util::generateGuid(_aumi)` forms a GUID: always for a long
      name; for a short one, with the corrected buffer, when every
      character fits in two hexadecimal digits. */
  predicate ClsidFormed(aumi: string) {
    |aumi| > 16 || forall i :: 0 <= i < |aumi| ==> aumi[i] as nat < 256
  }

  /** For a short AUMI, `ClsidFormed` is exactly the case where the
      short-name formatting succeeds, and the class id is then its GUID. */
  lemma ClsidFormedShort(aumi: string, env: InitEnv)
    requires |aumi| <= 16
    ensures ClsidFormed(aumi) <==> ShortGuid(aumi).Some?
    ensures ClsidFormed(aumi) ==> ClsidOf(aumi, env) == ShortGuid(aumi).value
  {
    ShortGuidLayout(aumi);
  }

  /** `Util::generateGuid(_aumi)`; empty when the short-name formatting
      fails and the invalid-parameter handler returns. */
  function ClsidOf(aumi: string, env: InitEnv): string {
    if |aumi| > 16 then GenerateGuid(aumi, env.hash)
    else match ShortGuid(aumi)
      case Some(g) => g
      case None => ""
  }

  /** The command line registered for the activator: the quoted executable
      and the activation flag. */
  function LaunchString(exePath: string): (r: string)
    ensures r == "\"" + exePath + "\" " + LaunchArg
  {
    "\"" + exePath + "\" " + LaunchArg
  }

  /** `createAndRegisterActivator`: the class's `LocalServer32` default
      value names the executable, and `_clsid` records the class id. */
  function RegisterActivator(s: State, env: InitEnv): (r: State)
    ensures r.clsid == ClsidOf(s.aumi, env)
    ensures r.registry == s.registry[RegKey(ClsidKeyPrefix + ClsidOf(s.aumi, env) + LocalServerSuffix, "") := LaunchString(env.exePath)]
    ensures r.(clsid := s.clsid, registry := s.registry) == s
  {
    var clsid := ClsidOf(s.aumi, env);
    s.(clsid := clsid,
       registry := s.registry[RegKey(ClsidKeyPrefix + clsid + LocalServerSuffix, "") := LaunchString(env.exePath)])
  }

  /** One registry operation under the AUMI's key. A failed deletion is
      swallowed by the source; a failed write aborts `initialize`. */
  datatype RegOp = SetValue(name: string, value: string) | DeleteValue(name: string)

  /** The writes `initialize` makes under `AppUserModelId\<aumi>`, in order. */
  function RegistryOps(s: State): (r: seq<RegOp>)
    ensures |r| == 4
    ensures r[0] == SetValue("DisplayName", s.appName)
    ensures r[1] == if s.iconPath == "" then DeleteValue("IconUri") else SetValue("IconUri", FileScheme + s.iconPath)
    ensures r[2] == if s.iconBackgroundColor == "" then DeleteValue("IconBackgroundColor")
                    else SetValue("IconBackgroundColor", s.iconBackgroundColor)
    ensures r[3] == SetValue("CustomActivator", "{" + s.clsid + "}")
  {
    [SetValue("DisplayName", s.appName),
     if s.iconPath == "" then DeleteValue("IconUri") else SetValue("IconUri", FileScheme + s.iconPath),
     if s.iconBackgroundColor == "" then DeleteValue("IconBackgroundColor")
     else SetValue("IconBackgroundColor", s.iconBackgroundColor),
     SetValue("CustomActivator", "{" + s.clsid + "}")]
  }

  /** One operation, when it does not throw. */
  function ApplyOp(reg: map<RegKey, string>, key: string, op: RegOp): map<RegKey, string> {
    match op
    case SetValue(name, value) => reg[RegKey(key, name) := value]
    case DeleteValue(name) => reg - {RegKey(key, name)}
  }

  /** All operations, none throwing. */
  function ApplyAll(reg: map<RegKey, string>, key: string, ops: seq<RegOp>): map<RegKey, string>
    decreases |ops|
  {
    if |ops| == 0 then reg else ApplyAll(ApplyOp(reg, key, ops[0]), key, ops[1..])
  }

  /** No write from index `i` on is the one that fails. */
  predicate WritesSucceed(ops: seq<RegOp>, i: nat, failAt: Option<nat>) {
    forall j :: i <= j < |ops| && ops[j].SetValue? ==> failAt != Some(j)
  }

  /** The registry block of `initialize` from operation `i` on: the flag
      is false when the write at index `failAt` throws, the earlier writes
      being kept. */
  function ApplyOps(reg: map<RegKey, string>, key: string, ops: seq<RegOp>, i: nat, failAt: Option<nat>)
    : (r: (bool, map<RegKey, string>))
    requires i <= |ops|
    ensures r.0 <==> WritesSucceed(ops, i, failAt)
    ensures r.0 ==> r.1 == ApplyAll(reg, key, ops[i..])
    decreases |ops| - i
  {
    if i == |ops| then (true, reg)
    else
      assert ops[i..][1..] == ops[i + 1..];
      match ops[i]
      case SetValue(name, value) =>
        if failAt == Some(i) then (false, reg)
        else ApplyOps(reg[RegKey(key, name) := value], key, ops, i + 1, failAt)
      case DeleteValue(name) =>
        ApplyOps(reg - {RegKey(key, name)}, key, ops, i + 1, failAt)
  }

  datatype InitResult = InitResult(ok: bool, error: WinToastError, state: State)

  /** A failed `initialize`: the error, `false`, and the flag cleared. */
  function Fail(s: State, e: WinToastError): InitResult {
    InitResult(false, e, s.(isInitialized := false))
  }

  /** Only the flags, the links, the class id and the registry may change
      during `initialize`. */
  predicate InitFrame(s: State, t: State) {
    t.(isInitialized := s.isInitialized, hasCoInitialized := s.hasCoInitialized, links := s.links,
       clsid := s.clsid, registry := s.registry) == s
  }

  /** `initialize`: compatibility, parameters, COM apartment (once per
      process), then the shortcut and registration steps. The first failing
      step decides the error. */
  function Initialize(s: State, env: InitEnv): (r: InitResult)
    ensures r.ok <==> r.error == NoError
    ensures r.state.isInitialized <==> r.ok
    ensures InitFrame(s, r.state)
    ensures s.hasCoInitialized ==> r.state.hasCoInitialized
    ensures forall n :: n != s.appName ==> LinkAt(r.state.links, n) == LinkAt(s.links, n)
    ensures !PastApartment(s, env) ==> r.state == s.(isInitialized := false)
    ensures r.error == ShellLinkNotCreated ==> r.state == s.(isInitialized := false, hasCoInitialized := true)
  {
    if !env.compatible then Fail(s, SystemNotSupported)
    else if !HasParameters(s.aumi, s.appName) then Fail(s, InvalidParameters)
    else if !s.hasCoInitialized && !env.apartmentOk then Fail(s, ApartmentInitError)
    else InitShortcut(s.(hasCoInitialized := true), env)
  }

  /** The shortcut step, skipped under `PolicyIgnore`: a negative
      `createShortcut` result aborts with `ShellLinkNotCreated`. */
  function InitShortcut(s: State, env: InitEnv): (r: InitResult)
    ensures r.ok <==> r.error == NoError
    ensures r.state.isInitialized <==> r.ok
    ensures InitFrame(s, r.state) && r.state.hasCoInitialized == s.hasCoInitialized
    ensures r.state.links != s.links ==> s.policy == RequireCreate
    ensures forall n :: n != s.appName ==> LinkAt(r.state.links, n) == LinkAt(s.links, n)
    ensures r.error == ShellLinkNotCreated ==> r.state == s.(isInitialized := false)
  {
    if s.policy == PolicyIgnore then InitRegister(s, env)
    else
      var (res, link) := CreateShortcut(s.aumi, s.appName, env.compatible, s.policy, AppLinkEnv(s, env));
      var s' := s.(links := StoreLink(s.links, s.appName, link));
      if !ShortcutSucceeded(res) then Fail(s', ShellLinkNotCreated)
      else InitRegister(s', env)
  }

  /** The shortcut the OS is asked about: the one named after the
      application. */
  function AppLinkEnv(s: State, env: InitEnv): (r: LinkEnv)
    ensures r.link == LinkAt(s.links, s.appName)
    ensures r.(link := env.linkEnv.link) == env.linkEnv
  {
    env.linkEnv.(link := LinkAt(s.links, s.appName))
  }

  /** The shortcut step after `s`: the links as the shortcut step leaves
      them. */
  function LinksAfterShortcut(s: State, env: InitEnv): Links {
    if s.policy == PolicyIgnore then s.links
    else StoreLink(s.links, s.appName, CreateShortcut(s.aumi, s.appName, env.compatible, s.policy, AppLinkEnv(s, env)).1)
  }

  /** `SetCurrentProcessExplicitAppUserModelID`, the activator and the
      registry values. A class id that is not formed makes
      `CLSIDFromString` fail, which aborts like any other activator
      failure. */
  function InitRegister(s: State, env: InitEnv): (r: InitResult)
    ensures r.ok <==> r.error == NoError
    ensures r.state.isInitialized <==> r.ok
    ensures InitFrame(s, r.state) && r.state.hasCoInitialized == s.hasCoInitialized && r.state.links == s.links
    ensures r.error in {NoError, InvalidAppUserModelID, UnknownError}
    ensures r.ok ==> r.state.clsid == ClsidOf(s.aumi, env)
    ensures r.ok ==> exists base :: r.state.registry == ApplyAll(base, AumiKeyPrefix + s.aumi, RegistryOps(RegisterActivator(s, env)))
  {
    if Failed(env.explicitAumiHr) then Fail(s, InvalidAppUserModelID)
    else if !ClsidFormed(s.aumi) || !env.activatorOk then Fail(s, UnknownError)
    else
      var s3 := RegisterActivator(s, env);
      var (written, reg) := ApplyOps(s3.registry, AumiKeyPrefix + s.aumi, RegistryOps(s3), 0, env.registryFailsAt);
      if !written then Fail(s3.(registry := reg), UnknownError)
      else InitResult(true, NoError, s3.(registry := reg, isInitialized := true))
  }

  /** Whether the process gets as far as the shortcut step. */
  predicate PastApartment(s: State, env: InitEnv) {
    env.compatible && HasParameters(s.aumi, s.appName) && (s.hasCoInitialized || env.apartmentOk)
  }

  /** Whether the shortcut step passes. */
  predicate ShortcutOk(s: State, env: InitEnv) {
    s.policy == PolicyIgnore ||
    ShortcutSucceeded(CreateShortcut(s.aumi, s.appName, env.compatible, s.policy, AppLinkEnv(s, env)).0)
  }

  /** The error of each step, in order: a step's error is reported exactly
      when every earlier step passed and that one failed. */
  lemma InitializeErrorOrder(s: State, env: InitEnv)
    ensures Initialize(s, env).error == SystemNotSupported <==> !env.compatible
    ensures Initialize(s, env).error == InvalidParameters <==> env.compatible && !HasParameters(s.aumi, s.appName)
    ensures Initialize(s, env).error == ApartmentInitError <==>
              env.compatible && HasParameters(s.aumi, s.appName) && !s.hasCoInitialized && !env.apartmentOk
    ensures Initialize(s, env).error == ShellLinkNotCreated <==> PastApartment(s, env) && !ShortcutOk(s, env)
    ensures Initialize(s, env).error == InvalidAppUserModelID <==>
              PastApartment(s, env) && ShortcutOk(s, env) && Failed(env.explicitAumiHr)
  {
    if PastApartment(s, env) {
      var s1 := s.(hasCoInitialized := true);
      assert Initialize(s, env) == InitShortcut(s1, env);
      assert AppLinkEnv(s1, env) == AppLinkEnv(s, env);
      InitShortcutErrors(s1, env);
    }
  }

  /** The errors of the shortcut step and of the explicit AUMI. */
  lemma InitShortcutErrors(s: State, env: InitEnv)
    ensures InitShortcut(s, env).error == ShellLinkNotCreated <==> !ShortcutOk(s, env)
    ensures InitShortcut(s, env).error == InvalidAppUserModelID <==> ShortcutOk(s, env) && Failed(env.explicitAumiHr)
  {
    if ShortcutOk(s, env) {
      assert InitShortcut(s, env) == InitRegister(s.(links := LinksAfterShortcut(s, env)), env);
    }
  }

  /** `initialize` succeeds exactly when every step does. */
  lemma InitializeSucceeds(s: State, env: InitEnv)
    ensures Initialize(s, env).ok <==>
              PastApartment(s, env) && ShortcutOk(s, env) && !Failed(env.explicitAumiHr) &&
              ClsidFormed(s.aumi) && env.activatorOk &&
              WritesSucceed(RegistryOps(RegisterActivator(s, env)), 0, env.registryFailsAt)
  {
    if PastApartment(s, env) {
      var s1 := s.(hasCoInitialized := true);
      assert Initialize(s, env) == InitShortcut(s1, env);
      InitShortcutSucceeds(s1, env);
      RegistryOpsFrame(RegisterActivator(s1, env), RegisterActivator(s, env));
    }
  }

  lemma InitShortcutSucceeds(s: State, env: InitEnv)
    ensures InitShortcut(s, env).ok <==>
              ShortcutOk(s, env) && !Failed(env.explicitAumiHr) && ClsidFormed(s.aumi) && env.activatorOk &&
              WritesSucceed(RegistryOps(RegisterActivator(s, env)), 0, env.registryFailsAt)
  {
    if ShortcutOk(s, env) {
      var s2 := s.(links := LinksAfterShortcut(s, env));
      assert InitShortcut(s, env) == InitRegister(s2, env);
      InitRegisterSucceeds(s2, env);
      RegistryOpsFrame(RegisterActivator(s2, env), RegisterActivator(s, env));
    }
  }

  /** The registry writes depend only on the name, the icon, the colour
      and the class id. */
  lemma RegistryOpsFrame(a: State, b: State)
    requires a.appName == b.appName && a.iconPath == b.iconPath
    requires a.iconBackgroundColor == b.iconBackgroundColor && a.clsid == b.clsid
    ensures RegistryOps(a) == RegistryOps(b)
  {
  }

  lemma InitRegisterSucceeds(s: State, env: InitEnv)
    ensures InitRegister(s, env).ok <==>
              !Failed(env.explicitAumiHr) && ClsidFormed(s.aumi) && env.activatorOk &&
              WritesSucceed(RegistryOps(RegisterActivator(s, env)), 0, env.registryFailsAt)
  {
  }

  /** The values the registry block leaves under `key` when no write
      fails: the application name, the activator class, and the icon and
      its background colour exactly when they are set. */
  lemma RegistryValues(reg: map<RegKey, string>, key: string, s: State)
    ensures var r := ApplyAll(reg, key, RegistryOps(s));
      RegKey(key, "DisplayName") in r && r[RegKey(key, "DisplayName")] == s.appName &&
      RegKey(key, "CustomActivator") in r && r[RegKey(key, "CustomActivator")] == "{" + s.clsid + "}" &&
      (RegKey(key, "IconUri") in r <==> s.iconPath != "") &&
      (s.iconPath != "" ==> r[RegKey(key, "IconUri")] == FileScheme + s.iconPath) &&
      (RegKey(key, "IconBackgroundColor") in r <==> s.iconBackgroundColor != "") &&
      (s.iconBackgroundColor != "" ==> r[RegKey(key, "IconBackgroundColor")] == s.iconBackgroundColor)
  {
    var ops := RegistryOps(s);
    var r1 := ApplyOp(reg, key, ops[0]);
    var r2 := ApplyOp(r1, key, ops[1]);
    var r3 := ApplyOp(r2, key, ops[2]);
    var r4 := ApplyOp(r3, key, ops[3]);
    ApplyAllStep(reg, key, ops);
    ApplyAllStep(r1, key, ops[1..]);
    ApplyAllStep(r2, key, ops[2..]);
    ApplyAllStep(r3, key, ops[3..]);
    assert ops[1..][1..] == ops[2..] && ops[2..][1..] == ops[3..] && ops[3..][1..] == [];
    assert ApplyAll(reg, key, ops) == r4;
  }

  lemma ApplyAllStep(reg: map<RegKey, string>, key: string, ops: seq<RegOp>)
    requires |ops| > 0
    ensures ApplyAll(reg, key, ops) == ApplyAll(ApplyOp(reg, key, ops[0]), key, ops[1..])
  {
  }

  /** After a successful `initialize` the AUMI's registry key names the
      application, points at the activator class it registered, and holds
      the icon and its background colour exactly when they are set. */
  lemma InitializeRegistry(s: State, env: InitEnv)
    requires Initialize(s, env).ok
    ensures var r := Initialize(s, env).state.registry;
      var key := AumiKeyPrefix + s.aumi;
      RegKey(key, "DisplayName") in r && r[RegKey(key, "DisplayName")] == s.appName &&
      RegKey(key, "CustomActivator") in r && r[RegKey(key, "CustomActivator")] == "{" + ClsidOf(s.aumi, env) + "}" &&
      (RegKey(key, "IconUri") in r <==> s.iconPath != "") &&
      (RegKey(key, "IconBackgroundColor") in r <==> s.iconBackgroundColor != "")
  {
    var s1 := s.(hasCoInitialized := true);
    var s2 := s1.(links := LinksAfterShortcut(s1, env));
    assert Initialize(s, env) == InitRegister(s2, env);
    var base :| Initialize(s, env).state.registry == ApplyAll(base, AumiKeyPrefix + s.aumi, RegistryOps(RegisterActivator(s2, env)));
    RegistryValues(base, AumiKeyPrefix + s.aumi, RegisterActivator(s2, env));
  }

  /** The registry operations write only under their key: every value under
      another key is as it was. */
  lemma {:induction false} ApplyOpsFrame(reg: map<RegKey, string>, key: string, ops: seq<RegOp>, i: nat,
                                          failAt: Option<nat>, k: RegKey)
    requires i <= |ops| && k.path != key
    ensures var r := ApplyOps(reg, key, ops, i, failAt).1;
      (k in r <==> k in reg) && (k in reg ==> r[k] == reg[k])
    decreases |ops| - i
  {
    if i < |ops| {
      match ops[i]
      case SetValue(name, value) =>
        if failAt != Some(i) {
          ApplyOpsFrame(reg[RegKey(key, name) := value], key, ops, i + 1, failAt, k);
        }
      case DeleteValue(name) =>
        ApplyOpsFrame(reg - {RegKey(key, name)}, key, ops, i + 1, failAt, k);
    }
  }

  /** The activator's `LocalServer32` value, which `initialize` writes. */
  function ActivatorKey(aumi: string, env: InitEnv): RegKey {
    RegKey(ClsidKeyPrefix + ClsidOf(aumi, env) + LocalServerSuffix, "")
  }

  /** Whatever the outcome, `initialize` writes the registry only under the
      AUMI's key and the activator's `LocalServer32` value; every other
      value is as it was. */
  lemma InitializeRegistryFrame(s: State, env: InitEnv, k: RegKey)
    requires k.path != AumiKeyPrefix + s.aumi && k != ActivatorKey(s.aumi, env)
    ensures var r := Initialize(s, env).state.registry;
      (k in r <==> k in s.registry) && (k in s.registry ==> r[k] == s.registry[k])
  {
    if PastApartment(s, env) {
      var s1 := s.(hasCoInitialized := true);
      assert Initialize(s, env) == InitShortcut(s1, env);
      if ShortcutOk(s1, env) {
        var s2 := s1.(links := LinksAfterShortcut(s1, env));
        assert Initialize(s, env) == InitRegister(s2, env);
        InitRegisterFrame(s2, env, k);
      }
    }
  }

  lemma InitRegisterFrame(s: State, env: InitEnv, k: RegKey)
    requires k.path != AumiKeyPrefix + s.aumi && k != ActivatorKey(s.aumi, env)
    ensures var r := InitRegister(s, env).state.registry;
      (k in r <==> k in s.registry) && (k in s.registry ==> r[k] == s.registry[k])
  {
    if !Failed(env.explicitAumiHr) && ClsidFormed(s.aumi) && env.activatorOk {
      var s3 := RegisterActivator(s, env);
      ApplyOpsFrame(s3.registry, AumiKeyPrefix + s.aumi, RegistryOps(s3), 0, env.registryFailsAt, k);
    }
  }

  /** COM is initialised at most once per process: once the flag is set,
      whether the apartment could be initialised makes no difference, and
      the flag is never cleared. */
  lemma ApartmentOnce(s: State, env: InitEnv, apartmentOk: bool)
    requires s.hasCoInitialized
    ensures Initialize(s, env) == Initialize(s, env.(apartmentOk := apartmentOk))
    ensures Initialize(s, env).state.hasCoInitialized
  {
    var env' := env.(apartmentOk := apartmentOk);
    if env.compatible && HasParameters(s.aumi, s.appName) {
      assert Initialize(s, env) == InitShortcut(s, env);
      assert Initialize(s, env') == InitShortcut(s, env');
      InitShortcutIgnoresApartment(s, env, apartmentOk);
    }
  }

  /** The steps from the shortcut on do not depend on the apartment. */
  lemma InitShortcutIgnoresApartment(s: State, env: InitEnv, apartmentOk: bool)
    ensures InitShortcut(s, env) == InitShortcut(s, env.(apartmentOk := apartmentOk))
  {
    var env' := env.(apartmentOk := apartmentOk);
    assert AppLinkEnv(s, env) == AppLinkEnv(s, env');
    var s2 := s.(links := LinksAfterShortcut(s, env));
    assert RegisterActivator(s2, env) == RegisterActivator(s2, env');
    assert InitRegister(s2, env) == InitRegister(s2, env');
  }

  /** Under `PolicyIgnore` the shortcut is neither checked nor touched. */
  lemma IgnorePolicySkipsShortcut(s: State, env: InitEnv, linkEnv: LinkEnv)
    requires s.policy == PolicyIgnore
    ensures Initialize(s, env) == Initialize(s, env.(linkEnv := linkEnv))
    ensures Initialize(s, env).state.links == s.links
  {
    var env' := env.(linkEnv := linkEnv);
    if PastApartment(s, env) {
      var s1 := s.(hasCoInitialized := true);
      assert Initialize(s, env) == InitRegister(s1, env);
      assert Initialize(s, env') == InitRegister(s1, env');
      assert RegisterActivator(s1, env) == RegisterActivator(s1, env');
    }
  }

  /** A successful `initialize` under a shortcut policy leaves the
      application's own shortcut storing its AUMI. */
  lemma InitializeLeavesOwnLink(s: State, env: InitEnv)
    requires Initialize(s, env).ok && s.policy != PolicyIgnore
    ensures LinkAt(Initialize(s, env).state.links, s.appName) == Some(s.aumi)
  {
    var s1 := s.(hasCoInitialized := true);
    assert Initialize(s, env) == InitShortcut(s1, env);
    assert Initialize(s, env) == InitRegister(s1.(links := LinksAfterShortcut(s1, env)), env);
  }

  /** A readable shortcut of the application that stores its AUMI passes
      the shortcut step under every policy, and is left as it is. */
  lemma OwnLinkFound(s: State, env: InitEnv)
    requires env.compatible && HasParameters(s.aumi, s.appName) && env.linkEnv.loadOk
    requires LinkAt(s.links, s.appName) == Some(s.aumi)
    ensures ShortcutOk(s, env)
    ensures LinksAfterShortcut(s, env) == s.links
  {
    if s.policy != PolicyIgnore {
      MatchingLinkUnchanged(s.aumi, s.appName, s.policy, AppLinkEnv(s, env));
    }
  }

  /** Each application name has its own shortcut: once `initialize` has
      succeeded for one name, initialising another name in between does not
      stop the first from finding its shortcut again, even under
      `RequireNoCreate`. */
  lemma ShortcutsPerApplication(s: State, env: InitEnv, t: State, env2: InitEnv, v: State, env3: InitEnv)
    requires Initialize(s, env).ok && s.policy != PolicyIgnore
    requires t.appName != s.appName && t.links == Initialize(s, env).state.links
    requires v.appName == s.appName && v.aumi == s.aumi && v.links == Initialize(t, env2).state.links
    requires env3.compatible && env3.linkEnv.loadOk
    ensures ShortcutOk(v, env3)
    ensures LinksAfterShortcut(v, env3) == v.links
  {
    InitializeLeavesOwnLink(s, env);
    OwnLinkFound(v, env3);
  }

  /* showToast */

  /** What the OS answers during `showToast`. `osMajor` is the major version
      `RtlGetVersion` reports; `xmlOk` covers creating the notifier, loading
      the template and every XML call; `data1` is the first field of the
      GUID `CoCreateGuid` produces; `now` is `fileTimeNow()`. */
  datatype ShowEnv = ShowEnv(osMajor: nat, xmlOk: bool, now: int, guidOk: bool, data1: Uint32, showOk: bool)

  /** `isSupportingModernFeatures`: Windows 10 and later. */
  predicate SupportsModernFeatures(osMajor: nat) {
    osMajor > 6
  }

  datatype ShowResult = ShowResult(id: int, error: WinToastError, state: State)

  /** The notification `showToast` builds, if the document can be built. */
  function NotificationOf(tpl: Template, env: ShowEnv): Option<Notification>
    requires Valid(tpl)
  {
    match BuildDocument(tpl, SupportsModernFeatures(env.osMajor), ActionArgs)
    case None => None
    case Some(doc) => Some(Notification(doc, ExpirationOf(tpl.expiration, env.now)))
  }

  /** `showToast`: -1 and an error, or the GUID's `Data1` as the id. The
      notification is recorded before `Show`, so a toast that fails to show
      stays in the buffer. */
  function ShowToast(s: State, tpl: Template, env: ShowEnv): (r: ShowResult)
    requires Valid(tpl)
    ensures r.error == NoError <==> r.id >= 0
    ensures r.id == -1 || r.id == env.data1
    ensures r.error == NotInitialized <==> !s.isInitialized
    ensures r.error == UnknownError <==>
              s.isInitialized && (!env.xmlOk || NotificationOf(tpl, env).None? || !env.guidOk)
    ensures r.error == NotDisplayed <==>
              s.isInitialized && env.xmlOk && NotificationOf(tpl, env).Some? && env.guidOk && !env.showOk
    ensures r.error == NoError <==>
              s.isInitialized && env.xmlOk && NotificationOf(tpl, env).Some? && env.guidOk && env.showOk
    ensures r.state.(buffer := s.buffer) == s
    ensures r.state.buffer == s.buffer ||
            (NotificationOf(tpl, env).Some? && r.state.buffer == Record(s.buffer, env.data1, NotificationOf(tpl, env).value))
    ensures (r.error == NoError || r.error == NotDisplayed) ==> env.data1 in r.state.buffer
    ensures (r.error == NoError || r.error == NotDisplayed) ==>
              r.state.buffer == Record(s.buffer, env.data1, NotificationOf(tpl, env).value)
    ensures r.error != NoError && r.error != NotDisplayed ==> r.state.buffer == s.buffer
  {
    if !s.isInitialized then ShowResult(-1, NotInitialized, s)
    else if !env.xmlOk then ShowResult(-1, UnknownError, s)
    else match NotificationOf(tpl, env)
      case None => ShowResult(-1, UnknownError, s)
      case Some(n) =>
        if !env.guidOk then ShowResult(-1, UnknownError, s)
        else
          var s1 := s.(buffer := Record(s.buffer, env.data1, n));
          if !env.showOk then ShowResult(-1, NotDisplayed, s1)
          else ShowResult(env.data1, NoError, s1)
  }

  /** Toasts already in the buffer are never replaced: on an id collision
      the old notification stays, and the id returned refers to it. */
  lemma ShowKeepsEarlierToasts(s: State, tpl: Template, env: ShowEnv, k: int)
    requires Valid(tpl) && k in s.buffer
    ensures k in ShowToast(s, tpl, env).state.buffer && ShowToast(s, tpl, env).state.buffer[k] == s.buffer[k]
  {
  }

  /* hideToast, clear */

  /** `hideToast(id)`. `hideOk` says whether the notifier can be created and
      `Hide` succeeds. */
  function HideToast(s: State, id: int, hideOk: bool): (r: (bool, State))
    ensures r.0 <==> s.isInitialized && id in s.buffer && hideOk
    ensures r.1.(buffer := s.buffer) == s
    ensures r.0 ==> r.1.buffer == Forget(s.buffer, id)
    ensures !r.0 ==> r.1 == s
  {
    var (ok, b) := HideInBuffer(s.isInitialized, s.buffer, id, hideOk);
    (ok, s.(buffer := b))
  }

  /** `clear`: the buffer is emptied even when hiding fails. */
  function Clear(s: State, hideOk: bool): (r: State)
    ensures r.buffer == map[]
    ensures r.(buffer := s.buffer) == s
  {
    s.(buffer := ClearBuffer(s.buffer, hideOk))
  }

  /** A toast shown successfully under a fresh id can be hidden with that
      id, which removes it and leaves the buffer as it was before. */
  lemma ShowThenHide(s: State, tpl: Template, env: ShowEnv)
    requires Valid(tpl) && env.data1 !in s.buffer
    requires ShowToast(s, tpl, env).error == NoError
    ensures var shown := ShowToast(s, tpl, env);
      HideToast(shown.state, shown.id, true).0 && HideToast(shown.state, shown.id, true).1 == s
  {
    var n := NotificationOf(tpl, env).value;
    RecordForget(s.buffer, env.data1, n);
  }

  /* The activation callback. */

  /** What `Activate` hands to the `onActivated` callback: the parsed
      arguments and the user input. */
  datatype Activation = Activation(arguments: seq<Entry>, userInput: map<string, string>)

  /** `userInput[data[i].Key] = data[i].Value` over the input array: later
      entries overwrite earlier ones. */
  function UserInput(data: seq<(string, string)>): (r: map<string, string>)
    ensures forall k :: k in r <==> exists j :: 0 <= j < |data| && data[j].0 == k
    decreases |data|
  {
    if |data| == 0 then map[]
    else
      var last := data[|data| - 1];
      var r := UserInput(data[..|data| - 1]);
      assert forall j :: 0 <= j < |data| - 1 ==> data[..|data| - 1][j] == data[j];
      r[last.0 := last.1]
  }

  /** The value a key gets is the one in its last occurrence. */
  lemma {:induction false} UserInputLastWins(data: seq<(string, string)>, j: nat)
    requires j < |data|
    requires forall i :: j < i < |data| ==> data[i].0 != data[j].0
    ensures UserInput(data)[data[j].0] == data[j].1
    decreases |data|
  {
    if j < |data| - 1 {
      var front := data[..|data| - 1];
      assert front[j] == data[j];
      assert forall i :: j < i < |front| ==> front[i] == data[i];
      UserInputLastWins(front, j);
    }
  }

  /** `callback::Activate`: returns `S_OK` in every case, and calls the
      callback, when one is set, with the parsed arguments and the user
      input. */
  function Activate(s: State, invokedArgs: string, data: seq<(string, string)>): (r: (int, Option<Activation>))
    ensures r.0 == SOk
    ensures r.1.Some? <==> s.hasCallback
    ensures r.1.Some? ==> ToMap(r.1.value.arguments) == ToMap(Parse(invokedArgs)) && Ordered(r.1.value.arguments)
    ensures r.1.Some? ==> r.1.value.userInput == UserInput(data)
  {
    if s.hasCallback then (SOk, Some(Activation(Parse(invokedArgs), UserInput(data)))) else (SOk, None)
  }

  /** Clicking action `i` of a toast: the callback sees `actionId` mapped to
      the index, and nothing else. */
  lemma ActivateAction(s: State, i: nat, data: seq<(string, string)>)
    requires s.hasCallback
    ensures ToMap(Activate(s, ActionArgs(i), data).1.value.arguments) == map["actionId" := DecimalString(i)]
  {
    ActionArgsParse(i);
  }
}
