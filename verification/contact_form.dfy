/**
 The contact form's submit handler (`initContactForm`) and its helper
 `showError`. Each control is modelled together with the container it sits
 in: the `.error-message` elements of that container are the control's
 annotations, in document order. The success banner is modelled as text
 appended to the page's list of banners.
 */
module ContactForm {
  import opened JsText
  import opened EmailPattern

  /** The inline `borderColor` of a control: untouched, or the alert colour. */
  datatype Border = Unstyled | AlertColour

  /** A form control: its current value, the value `reset()` restores, its
      border, and the texts of the error annotations in its container. */
  datatype Control = Control(value: string, defaultValue: string, border: Border, annotations: seq<string>)

  datatype Form = Form(name: Control, email: Control, message: Control)

  /** The page as far as the handler touches it: the form and the success
      banners currently shown. */
  datatype Page = Page(form: Form, banners: seq<string>)

  datatype FieldName = Name | Email | Message

  const AllFields: set<FieldName> := {Name, Email, Message}

  const NameRequired := "Name is required"
  const EmailRequired := "Valid email is required"
  const MessageRequired := "Message is required"
  const ThankYou := "Thank you for your message! We will get back to you soon."

  function Field(f: Form, n: FieldName): (c: Control) {
    match n
    case Name => f.name
    case Email => f.email
    case Message => f.message
  }

  function ErrorText(n: FieldName): (text: string) {
    match n
    case Name => NameRequired
    case Email => EmailRequired
    case Message => MessageRequired
  }

  /** `showError(input, message)`: the first annotation of the container
      gets the new text, or a new annotation is appended when there is none;
      the border turns to the alert colour either way. */
  function ShowError(c: Control, text: string): (r: Control)
    ensures r.value == c.value && r.defaultValue == c.defaultValue
    ensures r.border == AlertColour
    ensures |r.annotations| == if c.annotations == [] then 1 else |c.annotations|
    ensures r.annotations[0] == text
    ensures forall k :: 1 <= k < |c.annotations| ==> r.annotations[k] == c.annotations[k]
  {
    var annotations := if c.annotations != [] then c.annotations[0 := text] else [text];
    c.(border := AlertColour, annotations := annotations)
  }

  /** `form.reset()` on one control: the value goes back to its default;
      the inline border and the annotations are not form state and stay. */
  function Reset(c: Control): (r: Control) {
    c.(value := c.defaultValue)
  }

  /** Which fields are invalid, stated without `trim`: a name or message
      made only of whitespace, and an address the pattern rejects. */
  predicate FieldInvalid(f: Form, n: FieldName) {
    match n
    case Name => AllWhitespace(f.name.value)
    case Email => !IsValidEmail(f.email.value)
    case Message => AllWhitespace(f.message.value)
  }

  function InvalidFields(f: Form): set<FieldName> {
    set n | n in AllFields && FieldInvalid(f, n)
  }

  function AnnotatedFields(f: Form): set<FieldName> {
    set n | n in AllFields && Field(f, n).annotations != []
  }

  /** The email test of the handler, `!email.value.trim() || !isValidEmail(email.value)`:
      the emptiness test adds nothing, because an address the pattern accepts
      has no whitespace and is not empty. */
  lemma EmailTestIsPatternTest(v: string)
    ensures (Trim(v) == [] || !IsValidEmail(v)) <==> !IsValidEmail(v)
  {
  }

  /** The address is tested untrimmed: whitespace at either end alone makes
      the email field invalid, whereas a name or message with surrounding
      whitespace and some other character is accepted. */
  lemma SurroundingWhitespaceRejected(v: string)
    requires |v| > 0 && (IsWhitespace(v[0]) || IsWhitespace(v[|v| - 1]))
    ensures !IsValidEmail(v)
  {
    ValidEmailIffWellFormed(v);
  }

  /** The handler's three tests pick out exactly the invalid fields. */
  lemma HandlerChecks(f: Form)
    ensures Trim(f.name.value) == [] <==> Name in InvalidFields(f)
    ensures (Trim(f.email.value) == [] || !IsValidEmail(f.email.value)) <==> Email in InvalidFields(f)
    ensures Trim(f.message.value) == [] <==> Message in InvalidFields(f)
  {
  }

  /** The submit handler. All three checks run, whatever the earlier ones
      found; the form is reset and a banner shown only when none failed. */
  function Submit(p: Page): (q: Page)
    ensures q.form.name == Outcome(p.form, Name)
    ensures q.form.email == Outcome(p.form, Email)
    ensures q.form.message == Outcome(p.form, Message)
    ensures q.banners == if InvalidFields(p.form) == {} then p.banners + [ThankYou] else p.banners
  {
    var f := p.form;
    var nameBad := Trim(f.name.value) == [];
    var name := if nameBad then ShowError(f.name, NameRequired) else f.name;
    var emailBad := Trim(f.email.value) == [] || !IsValidEmail(f.email.value);
    var email := if emailBad then ShowError(f.email, EmailRequired) else f.email;
    var messageBad := Trim(f.message.value) == [];
    var message := if messageBad then ShowError(f.message, MessageRequired) else f.message;
    HandlerChecks(f);
    var isValid := !nameBad && !emailBad && !messageBad;
    var q :=
      if isValid then
        Page(Form(Reset(name), Reset(email), Reset(message)), p.banners + [ThankYou])
      else
        Page(Form(name, email, message), p.banners);
    assert Field(q.form, Name) == Outcome(f, Name);
    assert Field(q.form, Email) == Outcome(f, Email);
    assert Field(q.form, Message) == Outcome(f, Message);
    q
  }

  /** What a submit leaves in one field, stated from the set of invalid
      fields. */
  function Outcome(f: Form, n: FieldName): (c: Control) {
    if n in InvalidFields(f) then ShowError(Field(f, n), ErrorText(n))
    else if InvalidFields(f) == {} then Reset(Field(f, n))
    else Field(f, n)
  }

  /** A later annotation replaces the earlier one's text instead of adding a
      second one. */
  lemma ShowErrorReplaces(c: Control, first: string, second: string)
    ensures ShowError(ShowError(c, first), second) == ShowError(c, second)
  {
  }

  /** A container with at most one annotation keeps exactly one, carrying
      the latest text. */
  lemma ShowErrorKeepsOne(c: Control, text: string)
    requires |c.annotations| <= 1
    ensures ShowError(c, text).annotations == [text]
  {
  }

  /** Submit's contract, for any one field. */
  lemma SubmitField(p: Page, n: FieldName)
    ensures Field(Submit(p).form, n) == Outcome(p.form, n)
  {
  }

  /** The annotated fields after a submit: those annotated before, plus
      exactly the invalid ones. No path removes an annotation or restores
      a border. */
  lemma SubmitOnlyAddsAnnotations(p: Page)
    ensures AnnotatedFields(Submit(p).form) == AnnotatedFields(p.form) + InvalidFields(p.form)
    ensures forall n :: |Field(Submit(p).form, n).annotations| >= |Field(p.form, n).annotations|
    ensures forall n :: Field(p.form, n).border == AlertColour ==> Field(Submit(p).form, n).border == AlertColour
  {
    var q := Submit(p);
    forall n
      ensures n in AnnotatedFields(q.form) <==> n in AnnotatedFields(p.form) + InvalidFields(p.form)
      ensures |Field(q.form, n).annotations| >= |Field(p.form, n).annotations|
      ensures Field(p.form, n).border == AlertColour ==> Field(q.form, n).border == AlertColour
    {
      SubmitField(p, n);
    }
  }

  /** A successful submit leaves the annotations and borders of earlier
      failed submits in place, clears the values back to their defaults and
      adds one banner. */
  lemma ValidSubmitKeepsStaleErrors(p: Page)
    requires InvalidFields(p.form) == {}
    ensures forall n :: Field(Submit(p).form, n).annotations == Field(p.form, n).annotations
    ensures forall n :: Field(Submit(p).form, n).border == Field(p.form, n).border
    ensures forall n :: Field(Submit(p).form, n).value == Field(p.form, n).defaultValue
    ensures Submit(p).banners == p.banners + [ThankYou]
  {
    var q := Submit(p);
    forall n
      ensures Field(q.form, n).annotations == Field(p.form, n).annotations
      ensures Field(q.form, n).border == Field(p.form, n).border
      ensures Field(q.form, n).value == Field(p.form, n).defaultValue
    {
      SubmitField(p, n);
    }
  }

  /** When every container holds at most one annotation, it still does
      after a submit, and every invalid field's one annotation carries the
      text of its own check. */
  lemma SubmitOneAnnotationPerField(p: Page)
    requires forall n :: |Field(p.form, n).annotations| <= 1
    ensures forall n :: |Field(Submit(p).form, n).annotations| <= 1
    ensures forall n :: n in InvalidFields(p.form) ==> Field(Submit(p).form, n).annotations == [ErrorText(n)]
  {
    var q := Submit(p);
    forall n
      ensures |Field(q.form, n).annotations| <= 1
      ensures n in InvalidFields(p.form) ==> Field(q.form, n).annotations == [ErrorText(n)]
    {
      SubmitField(p, n);
      if n in InvalidFields(p.form) {
        ShowErrorKeepsOne(Field(p.form, n), ErrorText(n));
      }
    }
  }

  function Blank(value: string, defaultValue: string): (c: Control) {
    Control(value, defaultValue, Unstyled, [])
  }

  lemma FreshFormUnannotated(f: Form)
    requires f.name.annotations == [] && f.email.annotations == [] && f.message.annotations == []
    ensures AnnotatedFields(f) == {}
  {
  }

  /** Empty name, malformed address, message "hi", on a fresh form: exactly
      the name and the email are annotated, and no banner appears. */
  lemma SampleMissingNameAndBadAddress(p: Page)
    requires p == Page(Form(Blank("", ""), Blank("not-an-email", ""), Blank("hi", "")), [])
    ensures AnnotatedFields(Submit(p).form) == {Name, Email}
    ensures Submit(p).banners == []
  {
    SampleAddressRejected(p.form.email.value);
    assert !AllWhitespace(p.form.message.value) by {
      assert !IsWhitespace(p.form.message.value[0]);
    }
    assert InvalidFields(p.form) == {Name, Email};
    SubmitOnlyAddsAnnotations(p);
    FreshFormUnannotated(p.form);
  }

  /** "Jane", "jane@example.com", "Hello" on a fresh form: no annotation,
      one banner, and every field cleared. */
  lemma SampleValidSubmission(p: Page)
    requires p == Page(Form(Blank("Jane", ""), Blank("jane@example.com", ""), Blank("Hello", "")), [])
    ensures AnnotatedFields(Submit(p).form) == {}
    ensures Submit(p).banners == [ThankYou]
    ensures forall n :: Field(Submit(p).form, n).value == ""
  {
    SampleAddressAccepted(p.form.email.value);
    assert !IsWhitespace(p.form.name.value[0]);
    assert !IsWhitespace(p.form.message.value[0]);
    assert InvalidFields(p.form) == {};
    SubmitOnlyAddsAnnotations(p);
    ValidSubmitKeepsStaleErrors(p);
    FreshFormUnannotated(p.form);
  }
}
