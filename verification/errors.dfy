/** The library's result vocabulary (include/wintoastlib.h:232-264): error
    codes, shortcut outcomes and policies, the `strerror` label tables of the
    two facades, and the dismissal reasons reported to handlers. */
module Errors {
  import opened Common

  datatype WinToastError =
    | NoError
    | NotInitialized
    | SystemNotSupported
    | ApartmentInitError
    | ShellLinkNotCreated
    | InvalidAppUserModelID
    | InvalidParameters
    | InvalidHandler
    | NotDisplayed
    | UnknownError

  /** The enumerator's value: declaration order from `NoError = 0`. */
  function ErrorCode(e: WinToastError): (r: nat)
    ensures r < 10
    ensures r == 0 <==> e == NoError
  {
    match e
    case NoError => 0
    case NotInitialized => 1
    case SystemNotSupported => 2
    case ApartmentInitError => 3
    case ShellLinkNotCreated => 4
    case InvalidAppUserModelID => 5
    case InvalidParameters => 6
    case InvalidHandler => 7
    case NotDisplayed => 8
    case UnknownError => 9
  }

  lemma ErrorCodeInjective(a: WinToastError, b: WinToastError)
    ensures ErrorCode(a) == ErrorCode(b) ==> a == b
  {
  }

  /** Outcomes of `createShortcut`. `ComInitFailure` is returned only by the
      legacy implementation; the header in this repository does not declare
      it, and the model gives it the next free negative value. */
  datatype ShortcutResult =
    | Unchanged
    | WasChanged
    | WasCreated
    | MissingParameters
    | IncompatibleOs
    | CreateFailed
    | ComInitFailure

  function ShortcutCode(r: ShortcutResult): int {
    match r
    case Unchanged => 0
    case WasChanged => 1
    case WasCreated => 2
    case MissingParameters => -1
    case IncompatibleOs => -2
    case CreateFailed => -3
    case ComInitFailure => -4
  }

  /** The outcomes after which a shortcut with the right AUMI is in place. */
  predicate ShortcutSucceeded(r: ShortcutResult) {
    r == Unchanged || r == WasChanged || r == WasCreated
  }

  /** Callers test `(int) createShortcut() < 0`: the values are laid out so
      that this is exactly failure, and no two outcomes share a value. */
  lemma ShortcutCodeSign(r: ShortcutResult, s: ShortcutResult)
    ensures ShortcutCode(r) < 0 <==> !ShortcutSucceeded(r)
    ensures ShortcutCode(r) == ShortcutCode(s) ==> r == s
  {
  }

  datatype ShortcutPolicy = PolicyIgnore | RequireNoCreate | RequireCreate

  function PolicyCode(p: ShortcutPolicy): (r: nat)
    ensures r <= 2
    ensures r == 0 <==> p == PolicyIgnore
  {
    match p
    case PolicyIgnore => 0
    case RequireNoCreate => 1
    case RequireCreate => 2
  }

  /** The policy a fresh process starts with. */
  const DefaultPolicy: ShortcutPolicy := RequireCreate

  /* `strerror`. A code missing from a table trips the `assert` in the
     source; the model returns `None` there. */

  const LabelNoError := "No error. The process was executed correctly"
  const LabelNotInitialized := "The library has not been initialized"
  const LabelSystemNotSupported := "The OS does not support WinToast"
  const LabelApartmentInitError := "Failed to initialize apartment"
  const LabelShellLinkNotCreated := "The library was not able to create a Shell Link for the app"
  const LabelInvalidAumi := "The AUMI is not a valid one"
  const LabelInvalidParameters := "The parameters used to configure the library are not valid normally because an invalid AUMI or App Name"
  const LabelNotDisplayed := "The toast was created correctly but WinToast was not able to display the toast"
  const LabelUnknownError := "Unknown error"

  /** `WinToast::strerror` of the current facade (src/wintoast.cpp). */
  function Strerror(e: WinToastError): (r: Option<string>)
    ensures r.None? <==> e == InvalidHandler
  {
    match e
    case NoError => Some(LabelNoError)
    case NotInitialized => Some(LabelNotInitialized)
    case SystemNotSupported => Some(LabelSystemNotSupported)
    case ApartmentInitError => Some(LabelApartmentInitError)
    case ShellLinkNotCreated => Some(LabelShellLinkNotCreated)
    case InvalidAppUserModelID => Some(LabelInvalidAumi)
    case InvalidParameters => Some(LabelInvalidParameters)
    case InvalidHandler => None
    case NotDisplayed => Some(LabelNotDisplayed)
    case UnknownError => Some(LabelUnknownError)
  }

  /** `WinToast::strerror` of the legacy facade (src/wintoastlib.cpp). */
  function LegacyStrerror(e: WinToastError): (r: Option<string>)
    ensures r.None? <==> e == ApartmentInitError || e == InvalidHandler
  {
    match e
    case NoError => Some(LabelNoError)
    case NotInitialized => Some(LabelNotInitialized)
    case SystemNotSupported => Some(LabelSystemNotSupported)
    case ShellLinkNotCreated => Some(LabelShellLinkNotCreated)
    case InvalidAppUserModelID => Some(LabelInvalidAumi)
    case InvalidParameters => Some(LabelInvalidParameters)
    case NotDisplayed => Some(LabelNotDisplayed)
    case UnknownError => Some(LabelUnknownError)
    case _ => None
  }

  /** The legacy table is the current one without `ApartmentInitError`; the
      two agree wherever the legacy one has an entry. */
  lemma StrerrorTablesAgree(e: WinToastError)
    ensures LegacyStrerror(e).Some? ==> Strerror(e) == LegacyStrerror(e)
    ensures Strerror(e).Some? && LegacyStrerror(e).None? <==> e == ApartmentInitError
  {
  }

  /** No code the library can set is left without a label except
      `InvalidHandler`, which only the legacy `showToast` sets. */
  lemma StrerrorLabelsNonEmpty(e: WinToastError)
    ensures Strerror(e).Some? ==> |Strerror(e).value| > 0
  {
  }

  /* `HRESULT` values returned by the OS, as signed 32-bit integers. */

  /** `FAILED(hr)`: the severity bit is set. */
  predicate Failed(hr: int) {
    hr < 0
  }

  const SOk: int := 0
  const SFalse: int := 1
  /** `RPC_E_CHANGED_MODE` (0x80010106) read as a signed value. */
  const RpcEChangedMode: int := 0x8001_0106 - 0x1_0000_0000

  /* Dismissal reasons. */

  /** `ToastDismissalReason` as the OS reports it; `OtherReason` stands for
      any value outside the three the library names. */
  datatype OsDismissal = OsUserCanceled | OsApplicationHidden | OsTimedOut | OtherReason(code: int)

  /** `IWinToastHandler::WinToastDismissalReason`. */
  datatype DismissalReason = UserCanceled | ApplicationHidden | TimedOut

  /** `getWinToastDismissalReason`: the two named reasons pass through,
      everything else is reported as a time-out. */
  function DismissalOf(reason: OsDismissal): (r: DismissalReason)
    ensures r == UserCanceled <==> reason == OsUserCanceled
    ensures r == ApplicationHidden <==> reason == OsApplicationHidden
  {
    match reason
    case OsUserCanceled => UserCanceled
    case OsApplicationHidden => ApplicationHidden
    case _ => TimedOut
  }

  /** The reason the OS would report for each handler reason: mapping it
      back gives the handler reason again. */
  function OsReasonOf(r: DismissalReason): OsDismissal {
    match r
    case UserCanceled => OsUserCanceled
    case ApplicationHidden => OsApplicationHidden
    case TimedOut => OsTimedOut
  }

  lemma DismissalRoundTrip(r: DismissalReason)
    ensures DismissalOf(OsReasonOf(r)) == r
  {
  }

  /** The dismissed handler of the legacy implementation: a user
      cancellation at or after a set (non-zero) expiration time is reported
      as a time-out. `now` is `fileTimeNow()`. */
  function DismissedReport(reason: OsDismissal, expirationTime: int, now: int): (r: DismissalReason)
    ensures r == UserCanceled <==> reason == OsUserCanceled && (expirationTime == 0 || now < expirationTime)
    ensures reason != OsUserCanceled ==> r == DismissalOf(reason)
  {
    var effective := if reason == OsUserCanceled && expirationTime != 0 && now >= expirationTime then OsTimedOut else reason;
    DismissalOf(effective)
  }

  /** A toast shown without an expiration never has a cancellation turned
      into a time-out. */
  lemma NoExpirationKeepsReason(reason: OsDismissal, now: int)
    ensures DismissedReport(reason, 0, now) == DismissalOf(reason)
  {
  }
}
