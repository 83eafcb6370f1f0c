/** `WinToastNotificationBuilder` (src/win_toast_notification_builder.cpp):
    a handle owning one template. Its copy constructor and copy assignment
    clone the template (lines 168-176), so a builder behaves as a value and is
    modelled as the template it owns. */
module Builder {
  import opened Templates

  /** The public constructor. It accepts a template type but hands none to
      `Impl`, whose default argument then applies: every builder starts as
      `ImageAndText02`, whatever type was asked for. */
  function NewBuilder(requested: TemplateType): (r: Template)
    ensures Valid(r)
    ensures r.kind == ImageAndText02
  {
    NewTemplate(ImageAndText02)
  }

  /** The requested type has no effect: two builders made with any two types
      are equal, have two text lines and show an image. */
  lemma BuilderIgnoresType(a: TemplateType, b: TemplateType)
    ensures NewBuilder(a) == NewBuilder(b)
    ensures TextFieldsCountOf(NewBuilder(a)) == 2
    ensures HasImage(NewBuilder(a))
  {
  }

  /** What the constructor was evidently meant to build: a template of the
      requested type. The two agree only when `ImageAndText02` is asked for. */
  lemma BuilderMatchesRequestOnlyForDefault(t: TemplateType)
    ensures NewBuilder(t) == NewTemplate(t) <==> t == ImageAndText02
  {
    if NewBuilder(t) == NewTemplate(t) {
      assert NewTemplate(t).kind == t;
    }
  }

  /** The constructor as evidently intended: `Impl(type)`. */
  function NewBuilderIntended(requested: TemplateType): (r: Template)
    ensures Valid(r)
    ensures r.kind == requested && TextFieldsCountOf(r) == FieldCount(requested)
    ensures HasImage(r) <==> IsImageType(requested)
  {
    NewTemplate(requested)
  }

  /** The intended constructor distinguishes every requested type. */
  lemma IntendedBuilderInjective(a: TemplateType, b: TemplateType)
    ensures NewBuilderIntended(a) == NewBuilderIntended(b) ==> a == b
  {
  }

  /** A third line can never be written to a builder: `setThirdLine` would
      trip the range assertion even when `ImageAndText04` or `Text04` was
      requested. */
  lemma BuilderHasNoThirdLine(t: TemplateType)
    ensures !(FieldIndex(ThirdLine) < |NewBuilder(t).textFields|)
  {
  }
}
