/** The contact-form state of the `App` component (src/App.js lines 6-50)
    without React: the three text fields, the two flags the effect derives
    from them, and the three event handlers. The flags are kept as stored
    fields, as in the component, and `Settled` ties them to the fields; the
    transient render in which they are stale is not modelled. */
module ContactForm {
  import opened Regex
  import opened Email
  import opened EmailPattern
  import opened Split

  /** The `name` attribute of the input that fired a change event. */
  datatype Field = NameField | EmailField | MessageField

  datatype Form = Form(name: string, email: string, message: string)

  const EmptyForm: Form := Form("", "", "")

  function Get(f: Form, field: Field): string
  {
    match field
    case NameField => f.name
    case EmailField => f.email
    case MessageField => f.message
  }

  /** `{ ...form, [field]: value }`: the one field replaced, the others kept. */
  function SetField(f: Form, field: Field, value: string): (r: Form)
    ensures Get(r, field) == value
    ensures forall other :: other != field ==> Get(r, other) == Get(f, other)
  {
    match field
    case NameField => f.(name := value)
    case EmailField => f.(email := value)
    case MessageField => f.(message := value)
  }

  /** The condition the effect sets `formIsValid` from. */
  predicate IsValid(f: Form)
  {
    IsEmail(f.email) && |f.name| > 0 && |f.message| > 0
  }

  /** The condition the effect sets `canClear` from. */
  predicate CanClear(f: Form)
  {
    |f.email| > 0 || |f.name| > 0 || |f.message| > 0
  }

  /** The component's state: the form and the two stored flags. */
  datatype App = App(form: Form, formIsValid: bool, canClear: bool)

  /** The flags agree with the form, as they do once the effect has run. */
  predicate Settled(a: App)
  {
    a.formIsValid == IsValid(a.form) && a.canClear == CanClear(a.form)
  }

  /** The effect on `[form]`: recompute both flags from the new form. The
      form is valid exactly when the source's regular expression matches the
      e-mail and name and message are non-empty, and it can be cleared
      exactly when it is not the empty triple. */
  function Effect(form: Form): (a: App)
    ensures a.form == form && Settled(a)
    ensures a.formIsValid <==> Matches(EmailRegex, form.email) && form.name != [] && form.message != []
    ensures !a.canClear <==> form == EmptyForm
    ensures a.formIsValid ==> a.canClear
  {
    IsEmailMatchesRegex(form.email);
    App(form,
        IsEmail(form.email) && |form.name| > 0 && |form.message| > 0,
        |form.email| > 0 || |form.name| > 0 || |form.message| > 0)
  }

  /** The state at mount: an empty form and both flags false, which is
      already settled because the empty string is not an address. */
  function Mount(): (a: App)
    ensures a.form == EmptyForm && Settled(a)
  {
    assert !IsEmail("");
    App(EmptyForm, false, false)
  }

  /** `formHandler`: one field takes the typed value, the others keep
      theirs, and the flags follow the new form. */
  function FormHandler(a: App, field: Field, value: string): (r: App)
    ensures Get(r.form, field) == value
    ensures forall other :: other != field ==> Get(r.form, other) == Get(a.form, other)
    ensures Settled(r)
  {
    Effect(SetField(a.form, field, value))
  }

  /** `clearForm`: from any state, all three fields empty and both flags false. */
  function ClearForm(a: App): (r: App)
    ensures forall field :: Get(r.form, field) == []
    ensures !r.formIsValid && !r.canClear
    ensures Settled(r)
  {
    Effect(EmptyForm)
  }

  /** `sendForm`: hands the current triple to the log, then clears. There is
      no validity guard, so an invalid form is logged and cleared too. */
  function SendForm(a: App): (r: (Form, App))
    ensures r.0 == a.form
    ensures r.1.form == EmptyForm && !r.1.formIsValid && !r.1.canClear
  {
    (a.form, ClearForm(a))
  }

  // ---------------------------------------------------------------------
  // Properties of the derived flags

  /** One empty field, whichever it is, makes the form invalid: an empty
      name or message directly, an empty e-mail because it is no address. */
  lemma EmptyFieldInvalid(f: Form, field: Field)
    requires Get(f, field) == []
    ensures !IsValid(f)
  {
    if field == EmailField {
      assert SplitOn(f.email, '@') == [[]];
    }
  }

  /** `canClear` is false exactly when all three fields are empty. */
  lemma CannotClearIffEmpty(f: Form)
    ensures !CanClear(f) <==> forall field :: Get(f, field) == []
  {
    if forall field :: Get(f, field) == [] {
      assert Get(f, NameField) == [] && Get(f, EmailField) == [] && Get(f, MessageField) == [];
    }
  }

  // ---------------------------------------------------------------------
  // Properties of the handlers

  /** Writing a field's own value back changes nothing. */
  lemma SetFieldSameValue(f: Form, field: Field)
    ensures SetField(f, field, Get(f, field)) == f
  {
  }

  /** A second write to the same field overrides the first. */
  lemma SetFieldOverwrite(f: Form, field: Field, v: string, w: string)
    ensures SetField(SetField(f, field, v), field, w) == SetField(f, field, w)
  {
  }

  /** Writes to different fields commute. */
  lemma SetFieldCommute(f: Form, a: Field, v: string, b: Field, w: string)
    requires a != b
    ensures SetField(SetField(f, a, v), b, w) == SetField(SetField(f, b, w), a, v)
  {
  }

  /** Clearing twice is clearing once, and clearing an empty form changes
      nothing. */
  lemma ClearIdempotent(a: App)
    ensures ClearForm(ClearForm(a)) == ClearForm(a)
    ensures a.form == EmptyForm && Settled(a) ==> ClearForm(a) == a
  {
    if a.form == EmptyForm && Settled(a) {
      assert !IsEmail("");
    }
  }

  /** Typing a name, a valid address and a message, in that order, from any
      state gives a valid form holding exactly those values. */
  lemma FillInMakesValid(a: App, n: string, e: string, m: string)
    requires n != [] && m != [] && IsEmail(e)
    ensures var r := FormHandler(FormHandler(FormHandler(a, NameField, n), EmailField, e), MessageField, m);
            r.form == Form(n, e, m) && r.formIsValid && r.canClear
  {
  }

  // ---------------------------------------------------------------------
  // Runs of events

  /** What the rendering layer can fire into the component. */
  datatype Event = Change(field: Field, value: string) | ClearClick | SubmitClick

  function Submits(evs: seq<Event>): nat
  {
    if evs == [] then 0 else (if evs[0].SubmitClick? then 1 else 0) + Submits(evs[1..])
  }

  /** The forms logged by the submit events of `evs`, in order, and the
      final state. After at least one event, or from a settled state, the
      flags are settled; one form is logged per submit, and none of them is
      checked for validity. */
  function Run(a: App, evs: seq<Event>): (r: (seq<Form>, App))
    ensures Settled(a) || evs != [] ==> Settled(r.1)
    ensures |r.0| == Submits(evs)
    ensures evs != [] && evs[|evs| - 1].SubmitClick? ==> r.1.form == EmptyForm
    decreases |evs|
  {
    if evs == [] then ([], a)
    else
      var (logged, next) := match evs[0]
        case Change(field, value) => ([], FormHandler(a, field, value))
        case ClearClick => ([], ClearForm(a))
        case SubmitClick => var (sent, b) := SendForm(a); ([sent], b);
      var (rest, last) := Run(next, evs[1..]);
      assert evs[1..] != [] ==> evs[1..][|evs[1..]| - 1] == evs[|evs| - 1];
      (logged + rest, last)
  }

  /** Every state reachable from mount has its flags in step with its form. */
  lemma ReachableSettled(evs: seq<Event>)
    ensures Settled(Run(Mount(), evs).1)
  {
  }
}
