/** The toast XML that `showToast` compiles from a template
    (src/wintoast.cpp:689-740, 773-871; src/wintoast_impl.cpp:499-590,
    693-790). The XML DOM is not part of this model: a `Document` records
    what the library writes into the OS template — the text nodes, the
    attribution node, the attributes of the `<toast>` root, the action
    nodes, the audio node and the image source. */
module Payload {
  import opened Common
  import opened Codec
  import opened Arguments
  import opened Numbers
  import opened Templates

  datatype Action = Action(content: string, arguments: string)

  /** An `<audio>` node: `src` when a path is given, `loop="true"` and
      `silent="true"` as the option says. */
  datatype AudioNode = AudioNode(src: Option<string>, loop: bool, silent: bool)

  datatype Document = Document(
    layout: ToastTemplateType,
    texts: seq<string>,
    attribution: Option<string>,
    toastAttrs: map<string, string>,
    actions: seq<Action>,
    audio: Option<AudioNode>,
    imageSrc: Option<string>)

  /** `GetTemplateContent(getToastTemplateType(type))`: the OS layout, with
      one empty text node per field of the type. */
  function TemplateContent(t: TemplateType): Document {
    Document(OsTemplate(t), seq(FieldCount(t), _ => ""), None, map[], [], None, None)
  }

  /* Text fields. */

  /** The first `|fields|` text nodes hold the fields, in order. */
  function WithTexts(doc: Document, fields: seq<string>): Document
    requires |fields| <= |doc.texts|
  {
    doc.(texts := fields + doc.texts[|fields|..])
  }

  /** The loop that fills the text nodes one by one. */
  method FillTexts(doc: Document, fields: seq<string>) returns (r: Document)
    requires |fields| <= |doc.texts|
    ensures r == WithTexts(doc, fields)
  {
    var texts := doc.texts;
    var i := 0;
    while i < |fields|
      invariant 0 <= i <= |fields| && |texts| == |doc.texts|
      invariant forall j :: 0 <= j < i ==> texts[j] == fields[j]
      invariant forall j :: i <= j < |texts| ==> texts[j] == doc.texts[j]
    {
      texts := texts[i := fields[i]];
      i := i + 1;
    }
    assert texts == fields + doc.texts[|fields|..];
    r := doc.(texts := texts);
  }

  /* Actions. */

  /** The argument string of action `i` in the current implementation: a
      `WinToastArguments` holding `actionId` mapped to `to_wstring(i)`. */
  function ActionArgs(i: nat): string {
    ToString(Insert([], "actionId", DecimalString(i)))
  }

  /** The argument string of action `i` in the legacy implementation:
      `_snwprintf_s` of `"%zd"` into a buffer of 12, truncated to 11
      characters. */
  function LegacyActionArgs(i: nat): (r: string)
    ensures |r| <= 11
  {
    var s := DecimalString(i);
    if |s| <= 11 then s else s[..11]
  }

  /** The action nodes a list of labels produces. */
  function ActionNodes(labels: seq<string>, argsOf: nat -> string): (r: seq<Action>)
    ensures |r| == |labels|
    ensures forall i :: 0 <= i < |labels| ==> r[i] == Action(labels[i], argsOf(i))
  {
    seq(|labels|, i requires 0 <= i < |labels| => Action(labels[i], argsOf(i)))
  }

  /** `addActionHelper`: the first action turns the toast into
      `ToastGeneric` with a long duration and creates the `<actions>`
      node; every action is appended to it. */
  function AddActionNode(doc: Document, content: string, arguments: string): (r: Document)
    ensures r.actions == doc.actions + [Action(content, arguments)]
    ensures |doc.actions| > 0 ==> r.toastAttrs == doc.toastAttrs
    ensures |doc.actions| == 0 ==> r.toastAttrs == doc.toastAttrs["template" := "ToastGeneric"]["duration" := "long"]
    ensures r.(actions := doc.actions, toastAttrs := doc.toastAttrs) == doc
  {
    var attrs := if |doc.actions| == 0 then doc.toastAttrs["template" := "ToastGeneric"]["duration" := "long"]
                 else doc.toastAttrs;
    doc.(toastAttrs := attrs, actions := doc.actions + [Action(content, arguments)])
  }

  /** All actions of a template, added in order. */
  function WithActions(doc: Document, labels: seq<string>, argsOf: nat -> string): Document {
    if |labels| == 0 then doc
    else
      var attrs := if |doc.actions| == 0 then doc.toastAttrs["template" := "ToastGeneric"]["duration" := "long"]
                   else doc.toastAttrs;
      doc.(toastAttrs := attrs, actions := doc.actions + ActionNodes(labels, argsOf))
  }

  lemma ActionNodesStep(labels: seq<string>, argsOf: nat -> string, i: nat)
    requires i < |labels|
    ensures ActionNodes(labels[..i + 1], argsOf) == ActionNodes(labels[..i], argsOf) + [Action(labels[i], argsOf(i))]
  {
  }

  /** The action loop of `showToast` builds `WithActions`. */
  method AddActions(doc: Document, labels: seq<string>, argsOf: nat -> string) returns (r: Document)
    ensures r == WithActions(doc, labels, argsOf)
  {
    r := doc;
    var i := 0;
    while i < |labels|
      invariant 0 <= i <= |labels|
      invariant r == WithActions(doc, labels[..i], argsOf)
    {
      ActionNodesStep(labels, argsOf, i);
      r := AddActionNode(r, labels[i], argsOf(i));
      i := i + 1;
    }
    assert labels[..i] == labels;
  }

  /** Action `i` carries exactly `actionId=<i>`. */
  lemma ActionArgsShape(i: nat)
    ensures ActionArgs(i) == "actionId" + "=" + DecimalString(i)
  {
    var digits := DecimalString(i);
    assert Insert([], "actionId", digits) == [Entry("actionId", digits)];
    SingleEntryString("actionId", digits);
  }

  /** Parsing the argument string of action `i` gives back the one-entry
      map it was written from. */
  lemma ActionArgsParse(i: nat)
    ensures ToMap(Parse(ActionArgs(i))) == map["actionId" := DecimalString(i)]
  {
    var ps := Insert([], "actionId", DecimalString(i));
    ActionArgsShape(i);
    assert ActionArgs(i)[0] == 'a';
    ParseToString(ps);
  }

  /** A one-entry map of plain text is written as `key=value`. */
  lemma SingleEntryString(key: string, digits: string)
    requires AllDigits(digits) && |digits| > 0
    requires forall k :: 0 <= k < |key| ==> !IsReserved(key[k])
    ensures ToString([Entry(key, digits)]) == key + "=" + digits
  {
    EncodePlain(key);
    DigitsPlain(digits);
    assert Segments([Entry(key, digits)]) == [EncodePair(Entry(key, digits))];
  }

  lemma DigitsPlain(digits: string)
    requires AllDigits(digits)
    ensures Encode(digits) == digits
  {
    forall k | 0 <= k < |digits| ensures !IsReserved(digits[k]) {
      assert IsDigit(digits[k]);
    }
    EncodePlain(digits);
  }

  /** The legacy argument is the index itself for every index below
      `10^11`. */
  lemma LegacyActionArgsShape(i: nat)
    requires i < Pow10(11)
    ensures LegacyActionArgs(i) == DecimalString(i)
  {
    DecimalLength(i, 11);
  }

  /* Audio, duration, scenario, image. */

  function AudioNodeOf(path: string, option: AudioOption): (r: AudioNode)
    ensures r.src.Some? <==> path != ""
    ensures r.src.Some? ==> r.src.value == path
    ensures r.loop <==> option == Loop
    ensures r.silent <==> option == Silent
    ensures !(r.loop && r.silent)
  {
    AudioNode(if path == "" then None else Some(path), option == Loop, option == Silent)
  }

  /** `setAudioFieldHelper`: one `<audio>` node under the root. */
  function WithAudio(doc: Document, path: string, option: AudioOption): Document {
    doc.(audio := Some(AudioNodeOf(path, option)))
  }

  /** Whether the template asks for anything but the default sound. */
  predicate AudioConfigured(tpl: Template) {
    tpl.audioPath != "" || tpl.audioOption != AudioDefault
  }

  /** The condition `showToast` tests before calling the helper, as written
      in both implementations: only a template with no sound settings at
      all gets an `<audio>` node. */
  predicate AudioGateAsWritten(tpl: Template) {
    tpl.audioPath == "" && tpl.audioOption == AudioDefault
  }

  function DurationName(d: Duration): string
    requires d != System
  {
    if d == Short then "short" else "long"
  }

  /** The `duration` attribute, written only for a non-system duration. */
  function WithDuration(doc: Document, d: Duration): Document {
    if d == System then doc else doc.(toastAttrs := doc.toastAttrs["duration" := DurationName(d)])
  }

  const MaxPath: nat := 260
  const FileScheme: string := "file:///"

  /** `setImageFieldHelper`: `StringCchCatW` into a `MAX_PATH` buffer that
      starts with `file:///`. A path that does not fit with its terminator
      makes the call fail (`None`), which `showToast` reports. */
  function WithImage(doc: Document, path: string): (r: Option<Document>)
    ensures r.Some? <==> |FileScheme| + |path| < MaxPath
    ensures r.Some? ==> r.value.imageSrc == Some(FileScheme + path) && r.value.(imageSrc := doc.imageSrc) == doc
  {
    if |FileScheme| + |path| < MaxPath then Some(doc.(imageSrc := Some(FileScheme + path))) else None
  }

  /* The compiled document. */

  /** The part of `showToast` that runs only on Windows 10 and later: the
      attribution line, the actions, the audio node when `audioGate` holds,
      the duration and the scenario, in that order. */
  function ModernPart(doc: Document, tpl: Template, argsOf: nat -> string, audioGate: bool): Document {
    var d1 := if tpl.attributionText != "" then doc.(attribution := Some(tpl.attributionText)) else doc;
    var d2 := WithActions(d1, tpl.actions, argsOf);
    var d3 := if audioGate then WithAudio(d2, tpl.audioPath, tpl.audioOption) else d2;
    var d4 := WithDuration(d3, tpl.duration);
    d4.(toastAttrs := d4.toastAttrs["scenario" := tpl.scenario])
  }

  /** The document `showToast` hands to the notifier, or `None` when the
      image helper fails. `modern` is `isSupportingModernFeatures()`,
      `argsOf` the action-argument format of the implementation. The audio
      node is emitted when the template configures a sound: the corrected
      gate (see `BuildDocumentAsWritten`). */
  function BuildDocument(tpl: Template, modern: bool, argsOf: nat -> string): Option<Document>
    requires Valid(tpl)
  {
    Compile(tpl, modern, argsOf, AudioConfigured(tpl))
  }

  /** The document with the audio gate as the source writes it. */
  function BuildDocumentAsWritten(tpl: Template, modern: bool, argsOf: nat -> string): Option<Document>
    requires Valid(tpl)
  {
    Compile(tpl, modern, argsOf, AudioGateAsWritten(tpl))
  }

  function Compile(tpl: Template, modern: bool, argsOf: nat -> string, audioGate: bool): Option<Document>
    requires Valid(tpl)
  {
    var d0 := WithTexts(TemplateContent(tpl.kind), tpl.textFields);
    var d1 := if modern then ModernPart(d0, tpl, argsOf, audioGate) else d0;
    if HasImage(tpl) then WithImage(d1, tpl.imagePath) else Some(d1)
  }

  /** The document is built unless the image path is too long for the
      `MAX_PATH` buffer; it uses the OS layout of the template's type and
      its text nodes are exactly the template's fields — the attribution
      line is a separate node added afterwards. */
  lemma CompileTexts(tpl: Template, modern: bool, argsOf: nat -> string, audioGate: bool)
    requires Valid(tpl)
    ensures var r := Compile(tpl, modern, argsOf, audioGate);
      (r.None? <==> HasImage(tpl) && |FileScheme| + |tpl.imagePath| >= MaxPath) &&
      (r.Some? ==> r.value.layout == OsTemplate(tpl.kind) && r.value.texts == tpl.textFields)
  {
    assert tpl.textFields + TemplateContent(tpl.kind).texts[|tpl.textFields|..] == tpl.textFields;
  }

  /** Before Windows 10 nothing but the texts and the image is written. */
  lemma CompileLegacyOs(tpl: Template, argsOf: nat -> string, audioGate: bool)
    requires Valid(tpl)
    ensures var r := Compile(tpl, false, argsOf, audioGate);
      r.Some? ==> r.value.attribution.None? && r.value.actions == [] && r.value.audio.None? &&
                  r.value.toastAttrs == map[]
  {
  }

  /** The image source is `file:///` and the path, present iff the type
      shows an image. */
  lemma CompileImage(tpl: Template, modern: bool, argsOf: nat -> string, audioGate: bool)
    requires Valid(tpl)
    ensures var r := Compile(tpl, modern, argsOf, audioGate);
      r.Some? ==> r.value.imageSrc == (if HasImage(tpl) then Some(FileScheme + tpl.imagePath) else None)
  {
  }

  /** On Windows 10 and later: the attribution node iff there is
      attribution text, action `i` labelled with the `i`-th caption and
      carrying `argsOf(i)`, and the scenario always set. */
  lemma CompileModern(tpl: Template, argsOf: nat -> string, audioGate: bool)
    requires Valid(tpl)
    ensures var r := Compile(tpl, true, argsOf, audioGate);
      r.Some? ==>
        r.value.attribution == (if tpl.attributionText == "" then None else Some(tpl.attributionText)) &&
        r.value.actions == ActionNodes(tpl.actions, argsOf) &&
        r.value.toastAttrs["scenario"] == tpl.scenario
  {
  }

  /** The root's attributes on Windows 10 and later: actions make the toast
      `ToastGeneric` and long; an explicit duration is applied afterwards
      and wins; without either there is no `duration` attribute. */
  lemma CompileDuration(tpl: Template, argsOf: nat -> string, audioGate: bool)
    requires Valid(tpl)
    ensures var r := Compile(tpl, true, argsOf, audioGate);
      r.Some? ==>
        ("template" in r.value.toastAttrs <==> |tpl.actions| > 0) &&
        (|tpl.actions| > 0 ==> r.value.toastAttrs["template"] == "ToastGeneric") &&
        ("duration" in r.value.toastAttrs <==> |tpl.actions| > 0 || tpl.duration != System) &&
        (tpl.duration != System ==> r.value.toastAttrs["duration"] == DurationName(tpl.duration)) &&
        (tpl.duration == System && |tpl.actions| > 0 ==> r.value.toastAttrs["duration"] == "long")
  {
    var d0 := WithTexts(TemplateContent(tpl.kind), tpl.textFields);
    ModernPartAttrs(d0, tpl, argsOf, audioGate);
  }

  /** The root attributes `ModernPart` leaves on a document that had none
      and no actions. */
  lemma ModernPartAttrs(doc: Document, tpl: Template, argsOf: nat -> string, audioGate: bool)
    requires doc.toastAttrs == map[] && doc.actions == []
    ensures var a := ModernPart(doc, tpl, argsOf, audioGate).toastAttrs;
      ("template" in a <==> |tpl.actions| > 0) &&
      (|tpl.actions| > 0 ==> a["template"] == "ToastGeneric") &&
      ("duration" in a <==> |tpl.actions| > 0 || tpl.duration != System) &&
      (tpl.duration != System ==> a["duration"] == DurationName(tpl.duration)) &&
      (tpl.duration == System && |tpl.actions| > 0 ==> a["duration"] == "long")
  {
    var d1 := if tpl.attributionText != "" then doc.(attribution := Some(tpl.attributionText)) else doc;
    var d2 := WithActions(d1, tpl.actions, argsOf);
    assert d2.toastAttrs == if |tpl.actions| == 0 then map[] else map["template" := "ToastGeneric", "duration" := "long"];
    var d3 := if audioGate then WithAudio(d2, tpl.audioPath, tpl.audioOption) else d2;
    assert d3.toastAttrs == d2.toastAttrs;
  }

  /** With the corrected gate the `<audio>` node reflects the template: it
      exists iff a sound is configured, and then carries the path and the
      option. */
  lemma BuildDocumentAudio(tpl: Template, argsOf: nat -> string)
    requires Valid(tpl)
    ensures var r := BuildDocument(tpl, true, argsOf);
      r.Some? ==>
        (r.value.audio.Some? <==> AudioConfigured(tpl)) &&
        (r.value.audio.Some? ==> r.value.audio.value == AudioNodeOf(tpl.audioPath, tpl.audioOption))
  {
  }

  /** As written, no configured sound ever reaches the document: a template
      with a path or a non-default option gets no `<audio>` node, and the
      only node ever emitted carries no attribute at all. */
  lemma AudioAsWrittenDropsSound(tpl: Template, argsOf: nat -> string)
    requires Valid(tpl)
    ensures var r := BuildDocumentAsWritten(tpl, true, argsOf);
      r.Some? ==>
        (r.value.audio.Some? <==> !AudioConfigured(tpl)) &&
        (r.value.audio.Some? ==> r.value.audio.value == AudioNode(None, false, false))
  {
  }

  /** The gate decides the `<audio>` node and nothing else: as written and
      corrected, the same templates build, and into the same document up to
      that node. */
  lemma AudioGateOnlyAudio(tpl: Template, modern: bool, argsOf: nat -> string)
    requires Valid(tpl)
    ensures BuildDocument(tpl, modern, argsOf).Some? <==> BuildDocumentAsWritten(tpl, modern, argsOf).Some?
    ensures BuildDocument(tpl, modern, argsOf).Some? ==>
              BuildDocument(tpl, modern, argsOf).value.(audio := None) ==
              BuildDocumentAsWritten(tpl, modern, argsOf).value.(audio := None)
  {
  }

  /** A concrete case: a looping alarm sound is silently dropped as
      written, and kept by the corrected gate. */
  lemma AudioAsWrittenExample()
    ensures var tpl := SetAudioFile(NewTemplate(Text01), AlarmSound).(audioOption := Loop);
      BuildDocumentAsWritten(tpl, true, ActionArgs).value.audio.None? &&
      BuildDocument(tpl, true, ActionArgs).value.audio ==
        Some(AudioNode(Some(SoundUri(AlarmSound)), true, false))
  {
    var tpl := SetAudioFile(NewTemplate(Text01), AlarmSound).(audioOption := Loop);
    assert tpl.audioPath != "";
  }
}
