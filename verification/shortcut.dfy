/** The Start-menu shortcut that carries the application's AUMI:
    `validateShellLinkHelper`, `createShellLinkHelper` and `createShortcut`
    of both implementations (src/wintoast.cpp:380-489,
    src/wintoast_impl.cpp:294-335, 385-460).

    The shell-link file and the COM calls on it are an oracle: the model is
    told whether a link exists and which AUMI it stores, and whether each
    group of calls succeeds. A thrown `hresult_error` is a `Threw` step. */
module Shortcut {
  import opened Common
  import opened Errors

  /** The shortcut `%APPDATA%\...\<appName>.lnk` and how the calls on it
      turn out. `link` is the AUMI stored in the existing link, if there is
      one; `loadOk` covers loading the link and reading its AUMI, `repairOk`
      writing the new AUMI back, `createOk` every call of a fresh creation. */
  datatype LinkEnv = LinkEnv(link: Option<string>, loadOk: bool, repairOk: bool, createOk: bool)

  /** The shortcuts on disk: `<appName>.lnk` (src/wintoast.cpp:192-196) for
      each application name that has one, mapped to the AUMI it stores. */
  type Links = map<string, string>

  /** The AUMI stored in the application's shortcut, if it exists. */
  function LinkAt(links: Links, appName: string): (r: Option<string>)
    ensures r.Some? <==> appName in links
    ensures r.Some? ==> r.value == links[appName]
  {
    if appName in links then Some(links[appName]) else None
  }

  /** The shortcuts after the application's one is left as `link`: every
      other application's shortcut is untouched, and leaving it as it was
      changes nothing. */
  function StoreLink(links: Links, appName: string, link: Option<string>): (r: Links)
    ensures LinkAt(r, appName) == link
    ensures forall n :: n != appName ==> LinkAt(r, n) == LinkAt(links, n)
    ensures link == LinkAt(links, appName) ==> r == links
  {
    match link
    case Some(a) => links[appName := a]
    case None => links - {appName}
  }

  datatype Step = Threw | Done(wasChanged: bool)

  /** `validateShellLinkHelper`: a missing or unreadable link throws; a link
      with the right AUMI is accepted as is; a stale one is rewritten under
      `RequireCreate` and rejected otherwise. The second component is the
      link afterwards. */
  function ValidateShellLink(aumi: string, policy: ShortcutPolicy, env: LinkEnv): (r: (Step, Option<string>))
    ensures r.0.Done? ==> r.1 == Some(aumi)
    ensures r.0 == Done(false) <==> env.loadOk && env.link == Some(aumi)
    ensures r.0 == Done(true) <==>
              env.loadOk && env.link.Some? && env.link.value != aumi && policy == RequireCreate && env.repairOk
    ensures r.1 != env.link ==> r.0 == Done(true)
  {
    if env.link.None? || !env.loadOk then (Threw, env.link)
    else if env.link.value == aumi then (Done(false), env.link)
    else if policy == RequireCreate then
      if env.repairOk then (Done(true), Some(aumi)) else (Threw, env.link)
    else (Threw, env.link)
  }

  /** `createShellLinkHelper`: only `RequireCreate` may write a link, which
      then stores the AUMI. The first component says whether it succeeded. */
  function CreateShellLink(aumi: string, policy: ShortcutPolicy, env: LinkEnv): (r: (bool, Option<string>))
    ensures r.0 <==> policy == RequireCreate && env.createOk
    ensures r.0 ==> r.1 == Some(aumi)
    ensures !r.0 ==> r.1 == env.link
  {
    if policy != RequireCreate then (false, env.link)
    else if env.createOk then (true, Some(aumi))
    else (false, env.link)
  }

  /** The parameters `createShortcut` and `initialize` insist on. */
  predicate HasParameters(aumi: string, appName: string) {
    |aumi| > 0 && |appName| > 0
  }

  /** Whether an existing link already satisfies the caller without a
      fresh creation: it is readable and either matches or is repaired. */
  predicate Validated(aumi: string, policy: ShortcutPolicy, env: LinkEnv) {
    env.loadOk && env.link.Some? && (env.link.value == aumi || (policy == RequireCreate && env.repairOk))
  }

  /** The validate-then-create tail both implementations share: a failed
      validation is only logged and falls through to a creation attempt. */
  function ValidateOrCreate(aumi: string, policy: ShortcutPolicy, env: LinkEnv): (r: (ShortcutResult, Option<string>))
    ensures r.0 in {Unchanged, WasChanged, WasCreated, CreateFailed}
  {
    var (step, link) := ValidateShellLink(aumi, policy, env);
    if step.Done? then (if step.wasChanged then WasChanged else Unchanged, link)
    else
      var (created, link') := CreateShellLink(aumi, policy, env);
      if created then (WasCreated, link') else (CreateFailed, link')
  }

  /** `createShortcut` of the current implementation. `compatible` is
      `isCompatible()`. The second component is the link afterwards. */
  function CreateShortcut(aumi: string, appName: string, compatible: bool, policy: ShortcutPolicy, env: LinkEnv)
    : (r: (ShortcutResult, Option<string>))
    ensures r.0 == MissingParameters <==> !HasParameters(aumi, appName)
    ensures r.0 == IncompatibleOs <==> HasParameters(aumi, appName) && !compatible
    ensures r.0 == Unchanged <==>
              HasParameters(aumi, appName) && compatible && env.loadOk && env.link == Some(aumi)
    ensures r.0 == WasChanged <==>
              HasParameters(aumi, appName) && compatible && env.loadOk && env.link.Some? && env.link.value != aumi &&
              policy == RequireCreate && env.repairOk
    ensures r.0 == WasCreated <==>
              HasParameters(aumi, appName) && compatible && !Validated(aumi, policy, env) &&
              policy == RequireCreate && env.createOk
    ensures r.0 != ComInitFailure
    ensures ShortcutSucceeded(r.0) ==> r.1 == Some(aumi)
    ensures !ShortcutSucceeded(r.0) ==> r.1 == env.link
    ensures r.1 != env.link ==> policy == RequireCreate
  {
    if !HasParameters(aumi, appName) then (MissingParameters, env.link)
    else if !compatible then (IncompatibleOs, env.link)
    else ValidateOrCreate(aumi, policy, env)
  }

  /** The documented meaning of the policies: under `RequireNoCreate` (and
      `PolicyIgnore`) the link on disk is never touched, and the call
      succeeds exactly when a readable link with the right AUMI exists. */
  lemma NoCreatePolicyNeverWrites(aumi: string, appName: string, compatible: bool, policy: ShortcutPolicy, env: LinkEnv)
    requires policy != RequireCreate
    ensures CreateShortcut(aumi, appName, compatible, policy, env).1 == env.link
    ensures ShortcutSucceeded(CreateShortcut(aumi, appName, compatible, policy, env).0) <==>
              HasParameters(aumi, appName) && compatible && env.loadOk && env.link == Some(aumi)
  {
  }

  /** A link whose stored AUMI matches is left alone whatever the policy. */
  lemma MatchingLinkUnchanged(aumi: string, appName: string, policy: ShortcutPolicy, env: LinkEnv)
    requires HasParameters(aumi, appName) && env.loadOk && env.link == Some(aumi)
    ensures CreateShortcut(aumi, appName, true, policy, env) == (Unchanged, env.link)
  {
  }

  /** A stale link whose repair fails is not reported as such: the failure
      falls through to a fresh creation, which overwrites the link. */
  lemma FailedRepairRecreates(aumi: string, appName: string, env: LinkEnv)
    requires HasParameters(aumi, appName) && env.loadOk && env.link.Some? && env.link.value != aumi
    requires !env.repairOk && env.createOk
    ensures CreateShortcut(aumi, appName, true, RequireCreate, env) == (WasCreated, Some(aumi))
  {
  }

  /** Running `createShortcut` again on the link it left behind changes
      nothing: a success is followed by `Unchanged`, as long as the link can
      be read. */
  lemma CreateShortcutSettles(aumi: string, appName: string, policy: ShortcutPolicy, env: LinkEnv, next: LinkEnv)
    requires ShortcutSucceeded(CreateShortcut(aumi, appName, true, policy, env).0)
    requires next.link == CreateShortcut(aumi, appName, true, policy, env).1 && next.loadOk
    ensures CreateShortcut(aumi, appName, true, policy, next) == (Unchanged, next.link)
  {
  }

  /** `WinToastImpl::createShortcut`: as above, with a COM initialisation
      between the compatibility check and the validation. `initHr` is what
      `CoInitializeEx` returns; a thread already initialised in another mode
      (`RPC_E_CHANGED_MODE`) is tolerated without recording anything. The
      third component is `_hasCoInitialized` afterwards. */
  function LegacyCreateShortcut(aumi: string, appName: string, compatible: bool, policy: ShortcutPolicy, env: LinkEnv,
                                hasCoInitialized: bool, initHr: int): (r: (ShortcutResult, Option<string>, bool))
    ensures r.0 == ComInitFailure <==>
              HasParameters(aumi, appName) && compatible && !hasCoInitialized &&
              Failed(initHr) && initHr != RpcEChangedMode
    ensures r.2 <==>
              hasCoInitialized ||
              (HasParameters(aumi, appName) && compatible && initHr != RpcEChangedMode && !Failed(initHr))
    ensures r.0 != ComInitFailure ==>
              (r.0, r.1) == CreateShortcut(aumi, appName, compatible, policy, env)
    ensures r.0 == ComInitFailure ==> r.1 == env.link
  {
    if !HasParameters(aumi, appName) then (MissingParameters, env.link, hasCoInitialized)
    else if !compatible then (IncompatibleOs, env.link, hasCoInitialized)
    else
      var coInit :=
        if hasCoInitialized || initHr == RpcEChangedMode then hasCoInitialized
        else if Failed(initHr) && initHr != SFalse then hasCoInitialized
        else true;
      if !hasCoInitialized && initHr != RpcEChangedMode && Failed(initHr) && initHr != SFalse then
        (ComInitFailure, env.link, hasCoInitialized)
      else
        var (res, link) := ValidateOrCreate(aumi, policy, env);
        (res, link, coInit)
  }

  /** COM is initialised at most once: once the flag is set, the value
      `CoInitializeEx` would return makes no difference. */
  lemma LegacyComInitOnce(aumi: string, appName: string, compatible: bool, policy: ShortcutPolicy, env: LinkEnv,
                          hr1: int, hr2: int)
    ensures LegacyCreateShortcut(aumi, appName, compatible, policy, env, true, hr1) ==
            LegacyCreateShortcut(aumi, appName, compatible, policy, env, true, hr2)
  {
  }

  /** `S_FALSE` (already initialised on this thread) counts as success. */
  lemma LegacySFalseAccepted(aumi: string, appName: string, policy: ShortcutPolicy, env: LinkEnv)
    requires HasParameters(aumi, appName)
    ensures LegacyCreateShortcut(aumi, appName, true, policy, env, false, SFalse).2
    ensures LegacyCreateShortcut(aumi, appName, true, policy, env, false, SFalse).0 != ComInitFailure
  {
  }
}
