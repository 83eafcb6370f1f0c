# WinToast core, modelled in Dafny

WinToast is a C++ library that shows Windows toast notifications for desktop applications. This project models its core as pure Dafny functions and proves properties about them. It covers three areas.

**Building a toast.** The template classes hold what a toast says:
- `WinToastNotificationBuilder` and its `Impl` class;
- the older `WinToastTemplate`.

**The activation-argument codec.** `WinToastArguments` parses and serialises activation arguments. It uses `encode`, `decode`, `replaceAll` and `splitString`.

**The two singletons.** These do the work:
- the current `WinToast` implementation in `src/wintoast.cpp`;
- the legacy `WinToastImpl` in `src/wintoast_impl.cpp`.

The singleton operations modelled are:
- `initialize`, with its compatibility, COM, shortcut and registration steps;
- `createShortcut`;
- `showToast`, which compiles a template into a toast XML document;
- `hideToast` and `clear`, which act on the buffer of shown toasts;
- the class id derived from the AUMI, which is the application's AppUserModelID;
- `configureAUMI`;
- the activation and dismissal callbacks.

Windows never appears in the model. Every OS call becomes a parameter, often a plain `bool` saying whether that call succeeds:
- COM, the shell-link file, the registry and `SetCurrentProcessExplicitAppUserModelID`;
- the XML DOM, `CoCreateGuid`, the notifier;
- the clock (`fileTimeNow`), the OS version checks and `std::hash`.

An operation's result records its outcome: a `WinToastError`, a `ShortcutResult`, an id of `-1`, or a returned `bool`. Its new state is a value. The mutable fields of the singleton become an immutable `State` record.

Modules, in dependency order:
- `Common`: small sequence helpers.
- `Codec`:
  - `replaceAll`, both as written (a loop) and as a function;
  - `encode` and `decode`, with a reference meaning for them;
  - `splitString`, and a `Join` that inverts it.
- `Arguments`: `WinToastArguments`. It is an ordered list of unique keys, which models the `std::map` behind the class. The module covers `add`, `remove`, `get`, `contains`, `empty`, `size`, `operator[]`, `parse` and `toString`.
- `Numbers`:
  - decimal rendering (`std::to_wstring`, `%zd`);
  - hexadecimal rendering (`%x`, `%02x`);
  - `wcstol` with its clamping to a 32-bit `long`.
- `Errors`:
  - the public enumerations and their numeric values;
  - both `strerror` tables;
  - the dismissal-reason mapping;
  - the `HRESULT` test `FAILED`.
- `Templates`: the builder and template state and their setters and getters, plus `getToastTemplateType`.
- `Builder`: the `WinToastNotificationBuilder(type)` constructor.
- `Payload`: the toast document that `showToast` builds, in both implementations.
- `Shortcut`: `validateShellLinkHelper`, `createShellLinkHelper` and `createShortcut`, in both implementations.
- `Identity`: `Util::generateGuid` and `configureAUMI`.
- `Toasts`: the id-to-notification buffer.
- `Facade`: the current implementation's `initialize`, `showToast`, `hideToast`, `clear` and COM activator callback.
- `Legacy`: the same operations of `WinToastImpl`, with its event handlers. It also states how the two `initialize` functions relate.

## Model

| member | source | states |
|---|---|---|
| Codec.Find | src/win_toast_arguments.cpp:29 | `find` returns the first occurrence at or after the start position, and `npos` exactly when there is no occurrence from there on |
| Codec.ReplaceAllLoop | src/win_toast_arguments.cpp:26-33 | the in-place loop computes a left-to-right replacement of every occurrence that never rescans inserted text, even when the replacement contains the pattern |
| Codec.ReplaceAllSingleChar | src/win_toast_arguments.cpp:26-33 | with a one-character pattern, `replaceAll` substitutes each occurrence of that character independently |
| Codec.EncodeIsEscapeAll | src/win_toast_arguments.cpp:49-62 | the eight sequential passes of `encode` together escape each reserved character separately and keep every other character |
| Codec.DecodeEncode | src/win_toast_arguments.cpp:49-77 | `decode` inverts `encode` on every string, including strings that already contain `%` escapes |
| Codec.EncodeOutputShape | src/win_toast_arguments.cpp:49-62 | the output of `encode` contains none of `; = " ' < > &`, and every `%` starts one of the eight escape sequences |
| Codec.EncodePlain | src/win_toast_arguments.cpp:49-62 | a string with no reserved character is left unchanged by `encode` |
| Codec.IndexOf | src/win_toast_arguments.cpp:96 | `find(c)` returns the first position holding `c`, and `npos` exactly when `c` does not occur |
| Codec.SplitPieces | src/win_toast_arguments.cpp:36-47 | `splitString` returns one more piece than there are delimiters, and no piece contains the delimiter |
| Codec.JoinSplit | src/win_toast_arguments.cpp:36-47 | joining the pieces with the delimiter rebuilds the original string |
| Codec.SplitJoin | src/win_toast_arguments.cpp:36-47 | splitting the delimiter-join of delimiter-free pieces returns those pieces |
| Arguments.LessTotal | include/wintoastlib.h:68 | the `std::wstring` ordering that keys the map is total, so any two distinct keys are ordered one way or the other |
| Arguments.Insert | src/win_toast_arguments.cpp:124-126 | `add` keeps the keys unique and ascending, sets the value of the key, and leaves every other key unchanged |
| Arguments.Remove | src/win_toast_arguments.cpp:128-130 | `remove` returns true exactly when the key was present; afterwards the key is absent, every other key is unchanged, and the order is kept |
| Arguments.Get | src/win_toast_arguments.cpp:132-134 | `get` returns a value exactly when the key is present, and that value is the key's value; where `at` would throw, the model returns nothing |
| Arguments.Contains | src/win_toast_arguments.cpp:140-142 | `contains` is key membership in the map |
| Arguments.IsEmpty | src/win_toast_arguments.cpp:136-138 | `empty` holds exactly when the map has no keys |
| Arguments.Size | src/win_toast_arguments.cpp:144-146 | `size` is the number of distinct keys |
| Arguments.Index | src/win_toast_arguments.cpp:164-166 | `operator[]` inserts an empty value for a missing key, leaves an existing key alone, and returns the key's value |
| Arguments.Parse | src/win_toast_arguments.cpp:90-108 | `parse` yields a valid map: unique keys in ascending order |
| Arguments.AddAllMap | src/win_toast_arguments.cpp:94-106 | inserting the parsed segments one by one into the ordered list gives the same map as assigning them in turn, with a later segment overwriting an earlier one |
| Arguments.ParseBlank | src/win_toast_arguments.cpp:90-93 | an argument string made only of spaces parses to no pairs |
| Arguments.ParseKeys | src/win_toast_arguments.cpp:94-106 | a key is in the parsed map exactly when some `;`-separated segment decodes to it |
| Arguments.ParseLastWins | src/win_toast_arguments.cpp:94-106 | for a repeated key, the value of its last segment wins |
| Arguments.ParsePairCut | src/win_toast_arguments.cpp:96-103 | a segment is cut at its first `=` into a decoded key and a decoded value; a segment with no `=` is a key with an empty value |
| Arguments.ParseEncodePair | src/win_toast_arguments.cpp:79-84 | parsing one encoded pair gives back the key and value |
| Arguments.ParseToString | src/win_toast_arguments.cpp:86-122 | `parse(toString())` returns exactly the same pairs, unless the serialised string is blank, which parses to nothing |
| Arguments.BlankKeyLost | src/win_toast_arguments.cpp:90-93 | that exception happens: a single pair whose key is only spaces and whose value is empty is lost in the round trip |
| Arguments.ToStringLayout | src/win_toast_arguments.cpp:110-122 | `toString` lists the encoded pairs in key order, separated by `;`, and a segment contains `=` exactly when its value is non-empty |
| Numbers.DecimalString | src/wintoast.cpp:809 | `std::to_wstring` of a count is all digits and has no leading zero except for zero itself |
| Numbers.ValueOfDecimal | src/wintoast.cpp:809 | reading the digits back gives the number |
| Numbers.DecimalLength64 | src/wintoast.cpp:139-141 | a 64-bit hash has at most 20 decimal digits, so it fits the 32 hex-digit positions of a GUID |
| Numbers.HexString | src/wintoast.cpp:132 | `%x` writes lower-case hexadecimal digits: one exactly below 16, at most two exactly below 256 |
| Numbers.Hex02 | src/wintoast.cpp:132 | `%02x` writes at least two hexadecimal digits, and exactly two exactly when the value is below 256 |
| Numbers.HexValueOfHexString | src/wintoast.cpp:132 | reading the `%x` digits back gives the number |
| Numbers.HexValueOfHex02 | src/wintoast.cpp:132 | reading the `%02x` digits back gives the number |
| Numbers.ClampLong | src/wintoast_impl.cpp:187 | `wcstol` saturates an out-of-range value at `LONG_MAX` or `LONG_MIN` and keeps an in-range value |
| Numbers.Wcstol | src/wintoast_impl.cpp:187 | the value `wcstol` returns always lies within the 32-bit `long` range |
| Numbers.WcstolDecimal | src/wintoast_impl.cpp:187 | `wcstol` reads back the decimal rendering of any value up to `LONG_MAX` |
| Numbers.WcstolDecimalClamps | src/wintoast_impl.cpp:187 | `wcstol` reads the decimal rendering of any natural number as that number clamped to `LONG_MAX` |
| Numbers.WcstolStopsAtNonDigit | src/wintoast_impl.cpp:187 | `wcstol` stops at the first non-digit after the digits |
| Errors.ErrorCode | include/wintoastlib.h:233-244 | error codes lie between 0 and 9, and 0 means `NoError` |
| Errors.ErrorCodeInjective | include/wintoastlib.h:233-244 | no two errors share a code |
| Errors.ShortcutCodeSign | include/wintoastlib.h:246-254 | a shortcut result is negative exactly when it is a failure, and no two results share a value |
| Errors.PolicyCode | include/wintoastlib.h:256-264 | policy codes lie between 0 and 2, and 0 means `SHORTCUT_POLICY_IGNORE` |
| Errors.Strerror | src/wintoast.cpp:307-323 | the current table has a message for every error except `InvalidHandler` |
| Errors.LegacyStrerror | src/wintoastlib.cpp:65-80 | the legacy table has no message for `ApartmentInitError` or `InvalidHandler` |
| Errors.StrerrorTablesAgree | src/wintoastlib.cpp:65-80 | where the legacy table has a message, the current table has the same one; the tables differ only at `ApartmentInitError` |
| Errors.StrerrorLabelsNonEmpty | src/wintoast.cpp:307-323 | every message in the current table is non-empty |
| Errors.DismissalOf | src/wintoast_impl.cpp:76-86 | `UserCanceled` and `ApplicationHidden` map to the same-named reasons, and only those do |
| Errors.DismissalRoundTrip | src/wintoast_impl.cpp:76-86 | mapping a reason to the OS value and back gives the reason again |
| Errors.DismissedReport | src/wintoast_impl.cpp:193-202 | a user cancellation is reported as such exactly when there is no expiration or it has not passed yet; every other OS reason is passed on unchanged |
| Errors.NoExpirationKeepsReason | src/wintoast_impl.cpp:193-202 | without an expiration the OS reason is reported unchanged |
| Templates.FieldIndex | include/wintoastlib.h:112-114 | text fields number 0 to 2, with `FirstLine` first and `ThirdLine` last |
| Templates.TypeIndex | include/wintoastlib.h:115-124 | the eight template types number 0 to 7 |
| Templates.TypeIndexInjective | include/wintoastlib.h:115-124 | no two template types share a number |
| Templates.FieldCount | src/win_toast_notification_builder.cpp:32 | every template has between one and three text fields |
| Templates.FieldCountByLayout | src/win_toast_notification_builder.cpp:32 | the image and text-only layouts repeat the pattern 1, 2, 2, 3; only the `04` layouts have three lines and only the `01` layouts have one |
| Templates.FieldCountFitsTextField | src/win_toast_notification_builder.cpp:41-45 | every text-field position a template has is named by a `TextField` |
| Templates.NewTemplate | src/win_toast_notification_builder.cpp:30-157 | a fresh template has its type's number of empty text fields, no actions, image, sound or attribution, scenario `Default`, no expiration, the default audio option and system duration |
| Templates.SetTextField | src/win_toast_template.cpp:36-40 | `setTextField` writes exactly one field, keeps the field count, and changes nothing else |
| Templates.GetTextField | src/win_toast_template.cpp:149-153 | `textField(pos)` returns the line stored at that position, which is one of the template's fields; Templates.GetAfterSet states that a written line reads back |
| Templates.GetAfterSet | src/win_toast_notification_builder.cpp:41-45 | after setting a field, reading that field gives the new text, and reading any other field gives its old text |
| Templates.AddAction | src/win_toast_template.cpp:129-131 | `addAction` appends the label after the existing actions and changes nothing else |
| Templates.ActionLabel | src/win_toast_template.cpp:155-158 | `actionLabel(pos)` returns the label at that position, which is one of the template's labels |
| Templates.LabelAfterAdd | src/win_toast_notification_builder.cpp:110-129 | after adding an action, the new last label is the caption and the earlier labels are unchanged |
| Templates.TextFieldsCountOf | src/win_toast_template.cpp:133-135 | the text-field count of a well-formed template is its type's count |
| Templates.ActionsCount | src/win_toast_template.cpp:137-139 | the action count is zero exactly when no action was added |
| Templates.HasImage | src/win_toast_template.cpp:141-143 | a template has an image exactly when its type is one of the four image layouts |
| Templates.ScenarioName | src/win_toast_notification_builder.cpp:93-108 | every scenario has a non-empty name |
| Templates.ScenarioNameRoundTrip | src/win_toast_template.cpp:108-123 | the scenario can be recovered from its name, so no two scenarios share one |
| Templates.SetScenario | src/wintoastlib.cpp:195-210 | after `setScenario`, the stored name denotes the chosen scenario, and nothing else changes |
| Templates.SoundUriShape | src/win_toast_notification_builder.cpp:51-83 | every system-sound URI is the `ms-winsoundevent:Notification.` prefix, then `Looping.` exactly for the alarm and call sounds, then the sound's name |
| Templates.SetAudioFile | src/win_toast_template.cpp:50-82 | choosing a system sound stores `ms-winsoundevent:Notification.`, then `Looping.` for the looping alarms and calls, then the sound's name; nothing else changes |
| Templates.OsTemplate | src/wintoast.cpp:100-121 | `getToastTemplateType` maps each type to the system layout of the same name |
| Templates.OsTemplateInjective | src/wintoast_impl.cpp:88-109 | distinct template types map to distinct system layouts |
| Builder.NewBuilder | src/win_toast_notification_builder.cpp:160 | the constructor as written always produces an `ImageAndText02` template |
| Builder.BuilderIgnoresType | src/win_toast_notification_builder.cpp:160 | the requested type makes no difference: every builder has two text fields and an image |
| Builder.BuilderMatchesRequestOnlyForDefault | src/win_toast_notification_builder.cpp:160 | the builder is the template that was asked for only when `ImageAndText02` was asked for |
| Builder.BuilderHasNoThirdLine | src/win_toast_notification_builder.cpp:213-215 | `setThirdLine` on any builder is outside its text fields, which the `assert` rejects |
| Builder.NewBuilderIntended | src/win_toast_notification_builder.cpp:30-35 | the corrected constructor gives a template of the requested type, with that type's field count and image flag |
| Builder.IntendedBuilderInjective | src/win_toast_notification_builder.cpp:30-35 | with the correction, different requested types give different builders |
| Payload.FillTexts | src/wintoast.cpp:773-787 | the loop puts each template field into the text node with the same position |
| Payload.LegacyActionArgs | src/wintoast_impl.cpp:528-533 | the legacy action argument fits the 12-character buffer: at most 11 characters |
| Payload.LegacyActionArgsShape | src/wintoast_impl.cpp:528-533 | for an index below 10^11 the legacy argument is its plain decimal rendering |
| Payload.ActionNodes | src/wintoast.cpp:805-812 | there is one action node per label, in order, and each carries its label and its index's arguments |
| Payload.AddActionNode | src/wintoast.cpp:724-740 | `addActionHelper` appends one action; the first action also marks the toast `ToastGeneric` with `long` duration; nothing else changes |
| Payload.AddActions | src/wintoast.cpp:805-812 | the action loop gives the same document as adding all labels' nodes at once |
| Payload.ActionArgsShape | src/wintoast.cpp:807-810 | the current action argument is `actionId=` followed by the index in decimal |
| Payload.ActionArgsParse | src/wintoast.cpp:807-810 | parsing that argument gives exactly `actionId` mapped to the index |
| Payload.AudioNodeOf | src/wintoast.cpp:704-722 | the audio node has a source exactly when a path is set; it loops exactly under `Loop` and is silent exactly under `Silent`, never both |
| Payload.WithImage | src/wintoast.cpp:695-702 | `setImageFieldHelper` succeeds exactly when `file:///` plus the path fits in `MAX_PATH` with its terminator; it then sets the image source and changes nothing else |
| Payload.CompileTexts | src/wintoast.cpp:742-787 | building the document fails only when an image path is too long; otherwise it uses the type's system layout and the template's text fields |
| Payload.CompileLegacyOs | src/wintoast.cpp:789-860 | on an OS without modern features, no attribution, actions, audio or toast attributes are added |
| Payload.CompileImage | src/wintoast.cpp:862-871 | the image source is set exactly for image templates, to `file:///` plus the path |
| Payload.CompileModern | src/wintoast.cpp:789-860 | with modern features, the attribution appears exactly when it is non-empty, the actions come from the labels, and the scenario attribute is the template's |
| Payload.CompileDuration | src/wintoast.cpp:805-848 | a `template` attribute appears exactly when there are actions; a `duration` attribute appears exactly when there are actions or an explicit duration; an explicit duration wins over `long` |
| Payload.BuildDocumentAudio | src/wintoast.cpp:821-830 | with the corrected test, an audio node appears exactly when the template configures a sound, and it carries that sound and option |
| Payload.AudioAsWrittenDropsSound | src/wintoast.cpp:821-830 | as written, an audio node appears exactly when no sound is configured, and it is then empty |
| Payload.AudioAsWrittenExample | src/wintoast.cpp:821 | a looping alarm sound is dropped as written and emitted by the corrected test |
| Payload.AudioGateOnlyAudio | src/wintoast.cpp:821-830 | the audio test affects only the audio node: as written and corrected, the same templates build, into documents equal apart from that node |
| Shortcut.ValidateShellLink | src/wintoast.cpp:380-430 | a matching link is accepted unchanged; a stale link is rewritten exactly under `RequireCreate` when the repair succeeds; every other case throws, and the link changes only when it is rewritten |
| Shortcut.CreateShellLink | src/wintoast.cpp:432-458 | a link is created, holding the AUMI, exactly under `RequireCreate` when the OS calls succeed; otherwise the link is left as it was |
| Shortcut.CreateShortcut | src/wintoast.cpp:460-489 | each result's exact condition, in order: missing parameters, incompatible OS, unchanged, changed, created; a success leaves a link holding the AUMI, a failure leaves the link as it was, and only `RequireCreate` alters the link |
| Shortcut.NoCreatePolicyNeverWrites | include/wintoastlib.h:256-264 | without `RequireCreate` the link on disk is never touched, and the call succeeds exactly when a readable link with the right AUMI exists |
| Shortcut.MatchingLinkUnchanged | src/wintoast.cpp:411-428 | a readable link with the right AUMI is reported unchanged under every policy |
| Shortcut.FailedRepairRecreates | src/wintoast.cpp:470-488 | a failed repair of a stale link is not reported; the call falls through to a fresh creation, which replaces the link |
| Shortcut.CreateShortcutSettles | src/wintoast.cpp:460-489 | calling `createShortcut` again on the link a success left behind reports it unchanged |
| Shortcut.StoreLink | src/wintoast.cpp:191-198 | each application name has its own shortcut: writing one leaves it holding the new AUMI and every other application's shortcut as it was, and rewriting it unchanged changes nothing |
| Shortcut.LegacyCreateShortcut | src/wintoast_impl.cpp:294-335 | the legacy shortcut call initialises COM once, fails with a COM error exactly when COM initialisation really fails, tolerates `RPC_E_CHANGED_MODE`, leaves the link as it was when COM fails, and otherwise behaves like the current one |
| Shortcut.LegacyComInitOnce | src/wintoast_impl.cpp:305-315 | once COM is initialised, what `CoInitializeEx` would return makes no difference |
| Shortcut.LegacySFalseAccepted | src/wintoast_impl.cpp:305-315 | `S_FALSE` counts as a successful COM initialisation |
| Identity.GuidFromDigits | src/wintoast.cpp:142-165 | the GUID loop writes 36 characters, each one a dash or the digit assigned to its position |
| Identity.GenerateGuidLayout | src/wintoast.cpp:136-169 | the long-name GUID has dashes at positions 8, 13, 18 and 23; its other 32 characters are the hash's decimal digits padded with `0` |
| Identity.GenerateGuidLoop | src/wintoast.cpp:136-169 | the loop computes that GUID |
| Identity.HexRun | src/wintoast.cpp:132 | the `%02x` conversions of a run of values take at least two characters each, and exactly two each exactly when every value is below 256 |
| Identity.ShortGuidAsWrittenNeverFits | src/wintoast.cpp:127-135 | as written, the short-name format writes at least 36 characters, so with its terminator it never fits the 36-element buffer, whatever the sixteen values read are |
| Identity.ShortGuidLayout | src/wintoast.cpp:127-135 | with a 37-element buffer the short-name GUID is formed exactly when every character is below 0x100; it then has dashes at 8, 13, 18 and 23, and the other 32 characters are the characters in two-digit hexadecimal padded with `0` |
| Identity.ShortGuidTextShape | src/wintoast.cpp:132 | when all sixteen values are below 256, the format text is 36 characters with dashes at 8, 13, 18 and 23 around the values' digits |
| Identity.ShortGuidGroups | src/wintoast.cpp:132 | when all sixteen values are below 256, the five groups of the format take 8, 4, 4, 4 and 12 characters |
| Identity.AumiParts | src/wintoast.cpp:361-378 | an AUMI has at least the company and product parts |
| Identity.ConfigureAumiParts | src/wintoast.cpp:361-378 | `configureAUMI` joins company, product, sub-product (if any) and version (only with a sub-product) with dots; when no part contains a dot, splitting on dots gives the parts back |
| Toasts.Record | src/wintoast.cpp:904 | `insert` adds the id and never overwrites an existing entry |
| Toasts.Forget | src/wintoast.cpp:935 | `erase` removes exactly that id and keeps every other entry |
| Toasts.RecordForget | src/wintoast.cpp:904-935 | recording a fresh id and then erasing it restores the buffer |
| Toasts.ExpirationOf | src/wintoast.cpp:873-880 | an expiration is set exactly for a positive relative time, and it lies after now |
| Toasts.ExpirationMonotone | src/wintoast.cpp:873-880 | a longer relative expiration ends later |
| Toasts.HideInBuffer | src/wintoast.cpp:920-939 | `hideToast` succeeds exactly when initialised, the id is known and `Hide` succeeds; then exactly that id is erased, otherwise the buffer is unchanged |
| Toasts.HideTwice | src/wintoast.cpp:920-939 | hiding the same id a second time fails |
| Facade.ClsidFormedShort | src/wintoast.cpp:127-135 | with the corrected short-name branch: for an AUMI of at most 16 characters, the class id is formed exactly when the short-name formatting succeeds, which is when every character is below 0x100, and it is then that GUID |
| Facade.RegisterActivator | src/wintoast.cpp:491-518 | the activator registration stores the class id derived from the AUMI and writes its `LocalServer32` command line; nothing else changes |
| Facade.ApplyOps | src/wintoast.cpp:579-622 | the registry block succeeds exactly when none of its writes fails, and then it has applied every write |
| Facade.Initialize | src/wintoast.cpp:520-624 | `initialize` succeeds exactly when it reports `NoError`; the initialised flag equals success; only the flags, the shortcut `<appName>.lnk` of its own application name, the class id and the registry can change, and every other application's shortcut is untouched; a failure before the shortcut step changes nothing but the flag, and `ShellLinkNotCreated` changes nothing but the two flags; COM, once initialised, stays so |
| Facade.InitializeErrorOrder | src/wintoast.cpp:520-566 | each error's exact condition, in check order: system not supported, invalid parameters, apartment failure, shortcut failure, invalid AUMI |
| Facade.InitializeSucceeds | src/wintoast.cpp:520-624 | `initialize` succeeds exactly when every step succeeds: apartment, shortcut, explicit AUMI, a formed class id, the activator and each registry write |
| Facade.InitShortcutSucceeds | src/wintoast.cpp:553-624 | with the corrected short-name class id: from the shortcut step on, `initialize` succeeds exactly when the shortcut step, the explicit AUMI, the class id, the activator and each registry write succeed |
| Facade.RegistryValues | src/wintoast.cpp:579-616 | after the registry writes, the display name and custom activator are set; the icon URI and background colour are present exactly when configured, with the configured values |
| Facade.InitializeRegistryFrame | src/wintoast.cpp:491-624 | whatever its outcome, `initialize` writes the registry only under the AUMI's `AppUserModelId` key and the activator's `LocalServer32` value; every other value is as it was |
| Facade.InitRegisterFrame | src/wintoast.cpp:561-624 | the same for the steps from the explicit AUMI on |
| Facade.ApplyOpsFrame | src/wintoast.cpp:579-622 | the registry block writes only under the AUMI's key, whether or not a write fails |
| Facade.InitializeRegistry | src/wintoast.cpp:579-616 | after a successful `initialize`, the AUMI key holds the display name and the derived class id; the icon entries exist exactly when configured |
| Facade.ApartmentOnce | src/wintoast.cpp:538-551 | once COM is initialised, the apartment step is skipped and its result does not matter |
| Facade.IgnorePolicySkipsShortcut | src/wintoast.cpp:553-559 | under `SHORTCUT_POLICY_IGNORE`, the shortcut is neither inspected nor changed |
| Facade.InitializeLeavesOwnLink | src/wintoast.cpp:460-489 | a successful `initialize` under a shortcut policy leaves the shortcut of its application name storing the AUMI |
| Facade.OwnLinkFound | src/wintoast.cpp:380-430 | a readable shortcut of the application that stores its AUMI passes the shortcut step under every policy and is left as it is |
| Facade.ShortcutsPerApplication | src/wintoast.cpp:191-198 | the shortcut is `<appName>.lnk`, one per application name: after a successful `initialize` for one name, initialising another name in between does not stop the first from finding its shortcut again, even under `SHORTCUT_POLICY_REQUIRE_NO_CREATE` |
| Facade.ShowToast | src/wintoast.cpp:742-918 | `showToast` returns an id exactly when it reports `NoError`, which happens exactly when it is initialised, the XML calls and the document succeed, a GUID is created and `Show` succeeds; that id is `Data1` of the new GUID; each error's condition is exact; only the buffer changes: it records the new notification exactly on `NoError` and `NotDisplayed`, so the notification stays recorded even when `Show` fails, and every other outcome leaves it unchanged |
| Facade.ShowKeepsEarlierToasts | src/wintoast.cpp:902-904 | showing a toast never changes or drops an earlier toast |
| Facade.HideToast | src/wintoast.cpp:920-939 | `hideToast` returns true exactly when initialised, the id is known and `Hide` succeeds; then only that id leaves the buffer, otherwise nothing changes |
| Facade.Clear | src/wintoast.cpp:941-952 | `clear` leaves an empty buffer even when hiding fails, and nothing else changes |
| Facade.ShowThenHide | src/wintoast.cpp:742-939 | hiding a toast just shown under a fresh id succeeds and restores the state from before the show |
| Facade.UserInput | src/wintoast.cpp:265-267 | the user-input map holds exactly the keys present in the input data |
| Facade.UserInputLastWins | src/wintoast.cpp:265-267 | for a repeated key, the last value wins |
| Facade.Activate | src/wintoast.cpp:254-278 | the activator always returns `S_OK`; it calls back exactly when a callback is set, passing the parsed arguments as a valid map and the user input with the last value given for each key |
| Facade.ActivateAction | src/wintoast.cpp:807-810 | activating the argument string of action `i` hands the callback exactly `actionId` mapped to `i` |
| Legacy.LegacyInitialize | src/wintoast_impl.cpp:337-370 | the legacy `initialize` succeeds exactly on `NoError` and sets the flag to success; `SystemNotSupported`, `InvalidParameters`, `ShellLinkNotCreated` and `InvalidAppUserModelID` are each reported exactly when every earlier step passed and that step failed; nothing outside the flags and the shortcut `<appName>.lnk` of its own application name changes, every other application's shortcut is untouched, and a success under a shortcut policy leaves its own shortcut storing the AUMI; `SystemNotSupported` and `InvalidParameters` change nothing but the flag, and `ShellLinkNotCreated` leaves every shortcut as it was |
| Legacy.LegacyIgnoreSkipsCom | src/wintoast_impl.cpp:337-370 | under `SHORTCUT_POLICY_IGNORE` the legacy `initialize` neither touches COM nor the shortcuts, and succeeds exactly when compatible, given parameters and the AUMI is accepted |
| Legacy.LegacyComFailureReported | src/wintoast_impl.cpp:305-315 | a real COM initialisation failure surfaces as `ShellLinkNotCreated`, and COM stays uninitialised |
| Legacy.CurrentImpliesLegacy | src/wintoast_impl.cpp:337-370 | with COM initialised and the same OS answers, a successful current `initialize` means a successful legacy one that leaves the same shortcuts |
| Legacy.LegacyShowToast | src/wintoast_impl.cpp:462-650 | the legacy `showToast` returns an id exactly on `NoError`, which happens exactly when the toast is prepared and `Show` succeeds; the conditions for `NotInitialized`, `InvalidHandler`, `UnknownError` and `NotDisplayed` are exact; only the buffer changes: it records the notification exactly when the toast is prepared, whether or not `Show` then succeeds, and is otherwise unchanged |
| Legacy.LegacyHideToast | src/wintoast_impl.cpp:652-671 | the legacy `hideToast` succeeds exactly when initialised, the id is known and `Hide` succeeds; only then is that id erased |
| Legacy.LegacyShowThenHide | src/wintoast_impl.cpp:462-671 | hiding a toast the legacy `showToast` just recorded succeeds and restores the earlier state |
| Legacy.OnActivated | src/wintoast_impl.cpp:182-190 | an empty argument string is reported without an index; any other is reported with a value in the 32-bit range |
| Legacy.LegacyActionRoundTrip | src/wintoast_impl.cpp:182-190 | the activation handler recovers the index of every legacy action up to `LONG_MAX` |
| Legacy.LegacyActionSaturates | src/wintoast_impl.cpp:187 | a larger index that still fits the buffer is reported as `LONG_MAX` |
| Legacy.DismissalAfterExpiry | src/wintoast_impl.cpp:193-202 | a user cancellation of a toast is reported as timed out exactly when it has an expiration and the cancellation comes at or after it |

## Left out

- `uninstall` (src/wintoast.cpp:626-660) is not modelled. It only deletes registry keys and the shortcut file. No other operation reads what it leaves behind.
- Facade.Initialize: for an AUMI of at most 16 characters it uses the corrected `generateGuid` of the findings below, Identity.ShortGuid. As written, that branch always hits the invalid-parameter handler of `swprintf_s` (Identity.ShortGuidAsWrittenNeverFits). The model assumes a handler that returns, which leaves the class id empty, so `CLSIDFromString` fails and `initialize` reports `UnknownError`. With the default handler, the process ends instead.
- Facade.InitializeSucceeds, Facade.InitializeRegistry, Facade.InitShortcutSucceeds and Facade.ClsidFormedShort: for an AUMI of at most 16 characters, the success and the class id they state are those of the corrected short-name branch, not the source as written.
- `std::hash<std::wstring>` is a parameter of the model.
- Facade.ShowToast: the document it records is built with the corrected audio test of the findings below (Payload.BuildDocument). As written, src/wintoast.cpp:821 emits no `<audio>` node for a configured sound and an empty `<audio/>` when none is configured. Payload.AudioGateOnlyAudio proves that nothing else in the document differs.
- Legacy.LegacyShowToast: the same holds for the legacy document and src/wintoast_impl.cpp:543.
- A Dafny `string` is a sequence of Unicode scalar values, and a `std::wstring` is a sequence of UTF-16 code units. Three consequences follow. For keys with characters outside the Basic Multilingual Plane, Arguments.Less orders by code point, while `std::map` orders by code unit. A string holding an unpaired surrogate cannot be represented at all. And every length test counts characters, where the source counts code units, so the two disagree on text outside that plane.
- Facade.LaunchString has no row. Its contract restates its body: the quoted executable path, a space and `-ToastActivated`.
- The operating system is an oracle throughout. This covers COM, the shell-link file, the registry, the XML DOM, `CoCreateGuid`, the notifier, `Hide` and the event registration. It also covers `isCompatible`, `isSupportingModernFeatures` and `fileTimeNow`. Each becomes a parameter of the operation that calls it.
- The partial writes of a shortcut repair or creation that throws halfway are not modelled. The link is either fully written or left as it was.
- Registry deletes whose failure is swallowed are modelled as deletes that succeed. These are the icon values under the AUMI key.
- Facade.Initialize and Payload.WithImage: the length tests `name.length() <= 16` (src/wintoast.cpp:127) and the `MAX_PATH` bound (src/wintoast.cpp:695-700) count characters in the model and UTF-16 code units in the source. An AUMI of nine U+1F600 characters takes the short-name branch in the model (and fails its class id) but the hash branch in the source. An image path of 130 such characters fits in the model but not in the source.
- Facade.Initialize: its contract does not state the registry contents. After a success, Facade.InitializeRegistry states the four values under the AUMI's key; Facade.InitializeRegistryFrame states that no other value changes, whatever the outcome. Which writes a failed registry block has made is stated by Facade.ApplyOps only through its success condition.
- Toasts.ExpirationOf: `fileTimeNow() + relative * 10000` is computed in `INT64` in the source. The model uses unbounded integers, so an overflow for huge relative expirations is not modelled.
- Toasts.ClearBuffer and Legacy.LegacyClear have no row in the model table. Their contracts restate their bodies. The meaning of `clear` is given by Facade.Clear.
- Legacy.ExpirationTicks has no row for the same reason. It is used by Legacy.DismissalAfterExpiry.
- The legacy `std::shared_ptr` is built from a raw handler pointer (src/wintoast_impl.cpp:614). Its lifetime effects are not modelled. The handler is reduced to whether it exists.
- The activator callback runs on a COM thread, concurrently with the rest of the library. The model treats each call as atomic.
- The thin forwarding layer of the public `WinToast` functions is not modelled separately (src/wintoastlib.cpp:30-112). Those functions call the legacy implementation, and the `Legacy` module models that behaviour directly.
- The public setters and getters of the singletons (`setAppName`, `appName` and others) are not modelled separately. They are plain field assignments and reads on `State` and `LegacyState`. The shortcuts are kept per application name, so a changed `appName` makes the next `initialize` look at that name's shortcut.
- The copy and move operations of the builder are not modelled. In Dafny, values are immutable, so a copy is the value itself.
- `configureAUMI` logs, and does nothing else, when the AUMI is longer than `SCHAR_MAX`. There is nothing to state about it.
- Logging (`DEBUG_MSG`, `DEBUG_ERR`) is not modelled.
- `src/internal_date_time.h`, `src/dll_importer.h` and `src/win_toast_notification.cpp` are not part of this model.
- `ComInitFailure` (`-4`) is the legacy shortcut outcome when COM initialisation fails. The public `ShortcutResult` enumeration does not declare it.
- The `assert` checks in the getters are preconditions in the model (`requires`). This matches their debug-build behaviour.
- Payload.WithImage and Errors.Strerror: two other `assert` checks are modelled with their release-build behaviour, not as preconditions. `assert(path.size() < MAX_PATH)` (src/wintoast.cpp:696, src/wintoast_impl.cpp:728) would abort a debug build for a path of 260 or more code units; the model lets `StringCchCatW` fail instead, so the document is `None`. `assert(iter != Labels.end())` (src/wintoast.cpp:321) would abort a debug build for `InvalidHandler`; the model returns `None` where a release build would read past the table.

## Findings

| source | as written | input that shows it | evidently intended | confidence | as-written member | corrected member |
|---|---|---|---|---|---|---|
| src/win_toast_notification_builder.cpp:160 | the constructor ignores its `type` argument and builds `Impl()`, so every builder is an `ImageAndText02` template with two text fields and an image | `WinToastNotificationBuilder(Text04)` asks for a text-only template, yet gets an image template with two lines, so `setThirdLine` asserts | `Impl(type)`: the builder has the requested type and that type's text fields | high, not executed | Builder.BuilderMatchesRequestOnlyForDefault | Builder.IntendedBuilderInjective |
| src/wintoast.cpp:821 | `setAudioFieldHelper` runs only when the audio path is empty and the option is `Default`, so a configured sound is never emitted; src/wintoast_impl.cpp:543 has the same test | a template with the `Alarm` system sound and the `Loop` option: it gets no `<audio>` node | the audio node is emitted when a path or a non-default option is set | high, not executed | Payload.AudioAsWrittenDropsSound | Payload.BuildDocumentAudio |
| src/wintoast.cpp:127-135 | the short-name branch formats 32 hexadecimal digits and 4 dashes into `wchar_t guid[36]` with count 36; the 36 characters leave no room for the terminator, so `swprintf_s` always fails; it also reads `name[k]` past the end of a name shorter than 16 | any AUMI of at most 16 characters, such as `A.B`: the text needs 37 elements | a buffer of 37, a name padded with zeros, and a GUID with dashes at 8, 13, 18 and 23 | high, not executed | Identity.ShortGuidAsWrittenNeverFits | Identity.ShortGuidLayout |
