/** The notification template value object. The same class exists three
    times in the sources: `WinToastNotificationBuilder::Impl`
    (src/win_toast_notification_builder.cpp:28-158) and `WinToastTemplate`
    (src/win_toast_template.cpp and src/wintoastlib.cpp:114-277). The copies
    agree line for line, so one datatype models all three. */
module Templates {
  import opened Common

  /* Enumerations (include/wintoastlib.h:103-153). */

  datatype Scenario = ScenarioDefault | Alarm | IncomingCall | Reminder
  datatype Duration = System | Short | Long
  datatype AudioOption = AudioDefault | Silent | Loop
  datatype TextField = FirstLine | SecondLine | ThirdLine

  datatype TemplateType =
    | ImageAndText01 | ImageAndText02 | ImageAndText03 | ImageAndText04
    | Text01 | Text02 | Text03 | Text04

  datatype AudioSystemFile =
    | DefaultSound | IM | Mail | ReminderSound | SMS
    | AlarmSound | Alarm2 | Alarm3 | Alarm4 | Alarm5 | Alarm6 | Alarm7 | Alarm8 | Alarm9 | Alarm10
    | Call | Call1 | Call2 | Call3 | Call4 | Call5 | Call6 | Call7 | Call8 | Call9 | Call10

  /** The integer value of a `TextField` (`FirstLine = 0`). */
  function FieldIndex(f: TextField): (r: nat)
    ensures r < 3
    ensures f == FirstLine <==> r == 0
    ensures f == ThirdLine <==> r == 2
  {
    match f
    case FirstLine => 0
    case SecondLine => 1
    case ThirdLine => 2
  }

  /** The integer value of a template type, in declaration order. */
  function TypeIndex(t: TemplateType): (r: nat)
    ensures r < 8
  {
    match t
    case ImageAndText01 => 0
    case ImageAndText02 => 1
    case ImageAndText03 => 2
    case ImageAndText04 => 3
    case Text01 => 4
    case Text02 => 5
    case Text03 => 6
    case Text04 => 7
  }

  lemma TypeIndexInjective(a: TemplateType, b: TemplateType)
    ensures TypeIndex(a) == TypeIndex(b) ==> a == b
  {
  }

  /** The `ImageAndText` family. */
  predicate IsImageType(t: TemplateType) {
    t.ImageAndText01? || t.ImageAndText02? || t.ImageAndText03? || t.ImageAndText04?
  }

  /** The constructors' `TextFieldsCount` table. */
  const TextFieldsCount: seq<nat> := [1, 2, 2, 3, 1, 2, 2, 3]

  function FieldCount(t: TemplateType): (r: nat)
    ensures 1 <= r <= 3
  {
    TextFieldsCount[TypeIndex(t)]
  }

  /** The count depends only on the layout number: `ImageAndTextNN` and
      `TextNN` have the same number of lines, 1, 2, 2 and 3 for NN = 01..04. */
  lemma FieldCountByLayout(t: TemplateType)
    ensures FieldCount(t) == [1, 2, 2, 3][TypeIndex(t) % 4]
    ensures FieldCount(t) == 3 <==> (t == ImageAndText04 || t == Text04)
    ensures FieldCount(t) == 1 <==> (t == ImageAndText01 || t == Text01)
  {
  }

  /** Every text field a template has is addressable by a `TextField`. */
  lemma FieldCountFitsTextField(t: TemplateType, i: nat)
    requires i < FieldCount(t)
    ensures exists f :: FieldIndex(f) == i
  {
    if i == 0 {
      assert FieldIndex(FirstLine) == 0;
    } else if i == 1 {
      assert FieldIndex(SecondLine) == 1;
    } else {
      assert FieldIndex(ThirdLine) == 2;
    }
  }

  /** The state of a template. `expiration` is milliseconds (an `INT64` in
      the source). */
  datatype Template = Template(
    kind: TemplateType,
    textFields: seq<string>,
    actions: seq<string>,
    imagePath: string,
    audioPath: string,
    attributionText: string,
    scenario: string,
    expiration: int,
    audioOption: AudioOption,
    duration: Duration)

  /** The shape every constructed template keeps: one slot per text line of
      its type. */
  predicate Valid(tpl: Template) {
    |tpl.textFields| == FieldCount(tpl.kind)
  }

  /** `WinToastTemplate(type)` and `Impl(type)`: `FieldCount(type)` empty
      lines, no actions, scenario "Default", no expiration, default audio and
      system duration. */
  function NewTemplate(t: TemplateType): (r: Template)
    ensures Valid(r) && r.kind == t
    ensures forall i :: 0 <= i < |r.textFields| ==> r.textFields[i] == ""
    ensures r.actions == [] && r.imagePath == "" && r.audioPath == "" && r.attributionText == ""
    ensures r.scenario == ScenarioName(ScenarioDefault)
    ensures r.expiration == 0 && r.audioOption == AudioDefault && r.duration == System
  {
    Template(t, seq(FieldCount(t), _ => ""), [], "", "", "", "Default", 0, AudioDefault, System)
  }

  /** `setTextField(txt, pos)`: the source asserts `pos` is in range. */
  function SetTextField(tpl: Template, txt: string, pos: TextField): (r: Template)
    requires FieldIndex(pos) < |tpl.textFields|
    ensures Valid(tpl) ==> Valid(r)
    ensures |r.textFields| == |tpl.textFields| && r.textFields[FieldIndex(pos)] == txt
    ensures forall i :: 0 <= i < |tpl.textFields| && i != FieldIndex(pos) ==> r.textFields[i] == tpl.textFields[i]
    ensures r.(textFields := tpl.textFields) == tpl
  {
    tpl.(textFields := tpl.textFields[FieldIndex(pos) := txt])
  }

  /** `textField(pos)` / `getTextField(pos)`: same precondition. */
  function GetTextField(tpl: Template, pos: TextField): (r: string)
    requires FieldIndex(pos) < |tpl.textFields|
    ensures r in tpl.textFields
    ensures r == tpl.textFields[FieldIndex(pos)]
  {
    tpl.textFields[FieldIndex(pos)]
  }

  /** Reading a line after writing one: the written line reads back, every
      other line is untouched. */
  lemma GetAfterSet(tpl: Template, txt: string, p: TextField, q: TextField)
    requires FieldIndex(p) < |tpl.textFields| && FieldIndex(q) < |tpl.textFields|
    ensures GetTextField(SetTextField(tpl, txt, p), q) == if p == q then txt else GetTextField(tpl, q)
  {
  }

  /** `addAction(label)`: appended at the end. */
  function AddAction(tpl: Template, caption: string): (r: Template)
    ensures Valid(tpl) ==> Valid(r)
    ensures |r.actions| == |tpl.actions| + 1 && r.actions[|tpl.actions|] == caption
    ensures r.actions[..|tpl.actions|] == tpl.actions
    ensures r.(actions := tpl.actions) == tpl
  {
    tpl.(actions := tpl.actions + [caption])
  }

  /** `actionLabel(pos)` / `getActionLabel(pos)`. */
  function ActionLabel(tpl: Template, pos: nat): (r: string)
    requires pos < |tpl.actions|
    ensures r in tpl.actions
    ensures r == tpl.actions[pos]
  {
    tpl.actions[pos]
  }

  /** Adding an action leaves the earlier labels where they were. */
  lemma LabelAfterAdd(tpl: Template, caption: string, pos: nat)
    requires pos <= |tpl.actions|
    ensures ActionLabel(AddAction(tpl, caption), pos) == if pos == |tpl.actions| then caption else ActionLabel(tpl, pos)
  {
  }

  /** `textFieldsCount()` / `getTextFieldsCount()`. */
  function TextFieldsCountOf(tpl: Template): (r: nat)
    ensures Valid(tpl) ==> r == FieldCount(tpl.kind)
  {
    |tpl.textFields|
  }

  /** `actionsCount()` / `getActionsCount()`. */
  function ActionsCount(tpl: Template): (r: nat)
    ensures r == 0 <==> tpl.actions == []
  {
    |tpl.actions|
  }

  /** `hasImage()`: `_type < Text01`, which by declaration order is exactly
      the `ImageAndText` family. */
  function HasImage(tpl: Template): (r: bool)
    ensures r <==> IsImageType(tpl.kind)
  {
    TypeIndex(tpl.kind) < TypeIndex(Text01)
  }

  /** `setScenario`: each value's own name. */
  function ScenarioName(s: Scenario): (r: string)
    ensures |r| > 0
  {
    match s
    case ScenarioDefault => "Default"
    case Alarm => "Alarm"
    case IncomingCall => "IncomingCall"
    case Reminder => "Reminder"
  }

  /** Reading a scenario name back. */
  function ScenarioFromName(name: string): Option<Scenario> {
    if name == "Default" then Some(ScenarioDefault)
    else if name == "Alarm" then Some(Alarm)
    else if name == "IncomingCall" then Some(IncomingCall)
    else if name == "Reminder" then Some(Reminder)
    else None
  }

  /** Scenario names are distinct: the name determines the scenario. */
  lemma ScenarioNameRoundTrip(s: Scenario)
    ensures ScenarioFromName(ScenarioName(s)) == Some(s)
  {
  }

  function SetScenario(tpl: Template, s: Scenario): (r: Template)
    ensures Valid(tpl) ==> Valid(r)
    ensures ScenarioFromName(r.scenario) == Some(s)
    ensures r.(scenario := tpl.scenario) == tpl
  {
    ScenarioNameRoundTrip(s);
    tpl.(scenario := ScenarioName(s))
  }

  /** The sound table of `setAudioPath(AudioSystemFile)`. */
  function SoundUri(f: AudioSystemFile): string {
    match f
    case DefaultSound => "ms-winsoundevent:Notification.Default"
    case IM => "ms-winsoundevent:Notification.IM"
    case Mail => "ms-winsoundevent:Notification.Mail"
    case ReminderSound => "ms-winsoundevent:Notification.Reminder"
    case SMS => "ms-winsoundevent:Notification.SMS"
    case AlarmSound => "ms-winsoundevent:Notification.Looping.Alarm"
    case Alarm2 => "ms-winsoundevent:Notification.Looping.Alarm2"
    case Alarm3 => "ms-winsoundevent:Notification.Looping.Alarm3"
    case Alarm4 => "ms-winsoundevent:Notification.Looping.Alarm4"
    case Alarm5 => "ms-winsoundevent:Notification.Looping.Alarm5"
    case Alarm6 => "ms-winsoundevent:Notification.Looping.Alarm6"
    case Alarm7 => "ms-winsoundevent:Notification.Looping.Alarm7"
    case Alarm8 => "ms-winsoundevent:Notification.Looping.Alarm8"
    case Alarm9 => "ms-winsoundevent:Notification.Looping.Alarm9"
    case Alarm10 => "ms-winsoundevent:Notification.Looping.Alarm10"
    case Call => "ms-winsoundevent:Notification.Looping.Call"
    case Call1 => "ms-winsoundevent:Notification.Looping.Call1"
    case Call2 => "ms-winsoundevent:Notification.Looping.Call2"
    case Call3 => "ms-winsoundevent:Notification.Looping.Call3"
    case Call4 => "ms-winsoundevent:Notification.Looping.Call4"
    case Call5 => "ms-winsoundevent:Notification.Looping.Call5"
    case Call6 => "ms-winsoundevent:Notification.Looping.Call6"
    case Call7 => "ms-winsoundevent:Notification.Looping.Call7"
    case Call8 => "ms-winsoundevent:Notification.Looping.Call8"
    case Call9 => "ms-winsoundevent:Notification.Looping.Call9"
    case Call10 => "ms-winsoundevent:Notification.Looping.Call10"
  }

  /** The name of a sound, as it is spelled in the enumeration (the
      `DefaultSound` entry is called "Default" in the URI). */
  function SoundName(f: AudioSystemFile): string {
    match f
    case DefaultSound => "Default"
    case IM => "IM"
    case Mail => "Mail"
    case ReminderSound => "Reminder"
    case SMS => "SMS"
    case AlarmSound => "Alarm"
    case Alarm2 => "Alarm2"
    case Alarm3 => "Alarm3"
    case Alarm4 => "Alarm4"
    case Alarm5 => "Alarm5"
    case Alarm6 => "Alarm6"
    case Alarm7 => "Alarm7"
    case Alarm8 => "Alarm8"
    case Alarm9 => "Alarm9"
    case Alarm10 => "Alarm10"
    case Call => "Call"
    case Call1 => "Call1"
    case Call2 => "Call2"
    case Call3 => "Call3"
    case Call4 => "Call4"
    case Call5 => "Call5"
    case Call6 => "Call6"
    case Call7 => "Call7"
    case Call8 => "Call8"
    case Call9 => "Call9"
    case Call10 => "Call10"
  }

  /** The alarm and call sounds are the looping ones. */
  predicate IsLooping(f: AudioSystemFile) {
    match f
    case DefaultSound | IM | Mail | ReminderSound | SMS => false
    case _ => true
  }

  predicate IsAlarm(f: AudioSystemFile) {
    match f
    case AlarmSound | Alarm2 | Alarm3 | Alarm4 | Alarm5 | Alarm6 | Alarm7 | Alarm8 | Alarm9 | Alarm10 => true
    case _ => false
  }

  const SoundPrefix: string := "ms-winsoundevent:Notification."

  /** The table entry for `f` is the prefix, a `Looping.` infix exactly for
      alarms and calls, and the sound's name. */
  predicate ShapedUri(f: AudioSystemFile) {
    SoundUri(f) == SoundPrefix + (if IsLooping(f) then "Looping." else "") + SoundName(f)
  }

  lemma SoundShapePlain(f: AudioSystemFile)
    requires !IsLooping(f)
    ensures ShapedUri(f)
  {
    PlainPrefix(SoundName(f));
  }

  lemma SoundShapeAlarm(f: AudioSystemFile)
    requires IsAlarm(f)
    ensures ShapedUri(f)
  {
    LoopingPrefix(SoundName(f));
  }

  lemma SoundShapeCall(f: AudioSystemFile)
    requires IsLooping(f) && !IsAlarm(f)
    ensures ShapedUri(f)
  {
    LoopingPrefix(SoundName(f));
  }

  lemma PlainPrefix(n: string)
    ensures SoundPrefix + "" + n == "ms-winsoundevent:Notification." + n
  {
  }

  lemma LoopingPrefix(n: string)
    ensures SoundPrefix + "Looping." + n == "ms-winsoundevent:Notification.Looping." + n
  {
  }

  /** Every entry of the table has the regular shape. */
  lemma SoundUriShape(f: AudioSystemFile)
    ensures SoundUri(f) == SoundPrefix + (if IsLooping(f) then "Looping." else "") + SoundName(f)
  {
    if !IsLooping(f) {
      SoundShapePlain(f);
    } else if IsAlarm(f) {
      SoundShapeAlarm(f);
    } else {
      SoundShapeCall(f);
    }
  }

  /** `setAudioPath(AudioSystemFile)`: total over the enumeration. */
  function SetAudioFile(tpl: Template, f: AudioSystemFile): (r: Template)
    ensures Valid(tpl) ==> Valid(r)
    ensures |r.audioPath| > |SoundPrefix| && r.audioPath[..|SoundPrefix|] == SoundPrefix
    ensures r.audioPath == SoundPrefix + (if IsLooping(f) then "Looping." else "") + SoundName(f)
    ensures r.(audioPath := tpl.audioPath) == tpl
  {
    SoundUriShape(f);
    assert |SoundName(f)| > 0;
    tpl.(audioPath := SoundUri(f))
  }

  /** `ToastTemplateType` of the operating system, which
      `Util::getToastTemplateType` maps onto case by case. */
  datatype ToastTemplateType =
    | ToastImageAndText01 | ToastImageAndText02 | ToastImageAndText03 | ToastImageAndText04
    | ToastText01 | ToastText02 | ToastText03 | ToastText04

  function OsTemplateIndex(t: ToastTemplateType): nat {
    match t
    case ToastImageAndText01 => 0
    case ToastImageAndText02 => 1
    case ToastImageAndText03 => 2
    case ToastImageAndText04 => 3
    case ToastText01 => 4
    case ToastText02 => 5
    case ToastText03 => 6
    case ToastText04 => 7
  }

  /** `Util::getToastTemplateType`: each type goes to its same-named
      system layout (its `default` branch cannot be reached). */
  function OsTemplate(t: TemplateType): (r: ToastTemplateType)
    ensures OsTemplateIndex(r) == TypeIndex(t)
  {
    match t
    case ImageAndText01 => ToastImageAndText01
    case ImageAndText02 => ToastImageAndText02
    case ImageAndText03 => ToastImageAndText03
    case ImageAndText04 => ToastImageAndText04
    case Text01 => ToastText01
    case Text02 => ToastText02
    case Text03 => ToastText03
    case Text04 => ToastText04
  }

  /** Different templates never share a system layout. */
  lemma OsTemplateInjective(a: TemplateType, b: TemplateType)
    ensures OsTemplate(a) == OsTemplate(b) ==> a == b
  {
    TypeIndexInjective(a, b);
  }
}
