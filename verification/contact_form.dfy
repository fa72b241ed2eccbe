/** The public contact form: its six text fields, the change handler, the
    payload `handleSubmit` sends, and the loading/reset behaviour around the
    request. */
module ContactForm {
  import opened Wrappers
  import opened Text
  import Store
  import Contacts

  /** The `name` attribute of each input. */
  datatype Field = Name | Email | Company | Phone | Subject | Message

  datatype Form = Form(name: string, email: string, company: string, phone: string, subject: string, message: string)

  function Get(f: Form, k: Field): string {
    match k
    case Name => f.name
    case Email => f.email
    case Company => f.company
    case Phone => f.phone
    case Subject => f.subject
    case Message => f.message
  }

  /** Six empty strings: the initial form and the form after a success. */
  const Blank: Form := Form([], [], [], [], [], [])

  /** `handleChange`: the field the event names takes the new value; the
      other five keep theirs. */
  function HandleChange(f: Form, k: Field, value: string): (r: Form)
    ensures Get(r, k) == value
    ensures forall j :: j != k ==> Get(r, j) == Get(f, j)
  {
    match k
    case Name => f.(name := value)
    case Email => f.(email := value)
    case Company => f.(company := value)
    case Phone => f.(phone := value)
    case Subject => f.(subject := value)
    case Message => f.(message := value)
  }

  /** `s.trim() || undefined`: the trimmed text, or absent when that is
      empty. */
  function Optional(s: string): (r: Option<string>)
    ensures r.None? <==> AllWhitespace(s)
    ensures r.Some? ==> r.value != [] && IsTrimmed(r.value) && |r.value| <= |s|
    ensures r.Some? ==> r.value == Trim(s)
  {
    var t := Trim(s);
    if t == [] then None else Some(t)
  }

  /** The arguments `handleSubmit` sends to `create`. Required fields are
      trimmed but not checked: a blank one is sent as the empty string.
      Optional fields are trimmed and left out when blank, so an empty
      company or phone never reaches the store. */
  function Payload(f: Form): (a: Contacts.CreateArgs)
    ensures IsTrimmed(a.name) && IsTrimmed(a.email) && IsTrimmed(a.subject) && IsTrimmed(a.message)
    ensures a.name == [] <==> AllWhitespace(f.name)
    ensures a.email == [] <==> AllWhitespace(f.email)
    ensures a.subject == [] <==> AllWhitespace(f.subject)
    ensures a.message == [] <==> AllWhitespace(f.message)
    ensures a.company.None? <==> AllWhitespace(f.company)
    ensures a.phone.None? <==> AllWhitespace(f.phone)
    ensures a.company.Some? ==> a.company.value != [] && IsTrimmed(a.company.value)
    ensures a.phone.Some? ==> a.phone.value != [] && IsTrimmed(a.phone.value)
    ensures a.name == Trim(f.name) && a.email == Trim(f.email)
    ensures a.subject == Trim(f.subject) && a.message == Trim(f.message)
    ensures a.company.GetOr([]) == Trim(f.company) && a.phone.GetOr([]) == Trim(f.phone)
  {
    Contacts.CreateArgs(Trim(f.name), Trim(f.email), Optional(f.company), Optional(f.phone),
                        Trim(f.subject), Trim(f.message))
  }

  /** Every field trimmed. */
  function TrimmedForm(f: Form): Form {
    Form(Trim(f.name), Trim(f.email), Trim(f.company), Trim(f.phone), Trim(f.subject), Trim(f.message))
  }

  /** Surrounding white space never reaches the store: the payload of a form
      is the payload of the same form with every field trimmed. */
  lemma PayloadIsTrimmedForm(f: Form)
    ensures Payload(f) == Payload(TrimmedForm(f))
  {
    var g := TrimmedForm(f);
    TrimIdempotent(f.name);
    TrimIdempotent(f.email);
    TrimIdempotent(f.subject);
    TrimIdempotent(f.message);
    OptionalOfTrimmed(f.company);
    OptionalOfTrimmed(f.phone);
    assert Payload(g) == Contacts.CreateArgs(Trim(g.name), Trim(g.email), Optional(g.company), Optional(g.phone),
                                             Trim(g.subject), Trim(g.message));
  }

  lemma OptionalOfTrimmed(s: string)
    ensures Optional(Trim(s)) == Optional(s)
  {
    TrimIdempotent(s);
  }

  /** The form a payload would be typed as. */
  function FormOf(a: Contacts.CreateArgs): Form {
    Form(a.name, a.email, a.company.GetOr([]), a.phone.GetOr([]), a.subject, a.message)
  }

  /** Normalising is idempotent: typing the sent values back into the form
      sends the same payload again. */
  lemma PayloadIdempotent(f: Form)
    ensures Payload(FormOf(Payload(f))) == Payload(f)
  {
    TrimIdempotent(f.name);
    TrimIdempotent(f.email);
    OptionalIdempotent(f.company);
    OptionalIdempotent(f.phone);
    TrimIdempotent(f.subject);
    TrimIdempotent(f.message);
  }

  lemma OptionalIdempotent(s: string)
    ensures Optional(Optional(s).GetOr([])) == Optional(s)
  {
    if Optional(s).Some? {
      TrimIdempotent(s);
    }
  }

  /** The page state: the form values and whether a request is outstanding. */
  datatype State = State(form: Form, loading: bool)

  const Initial: State := State(Blank, false)

  /** Whether the request settled or threw. */
  datatype Outcome = Succeeded | Failed

  /** No request is outstanding, so the submit button is enabled. While it
      is disabled, submitting with the Enter key is blocked too. */
  predicate Idle(st: State) {
    !st.loading
  }

  /** The fields marked `required`: name, email, subject and message. */
  predicate Required(k: Field) {
    k == Name || k == Email || k == Subject || k == Message
  }

  /** The browser's constraint check on `required` inputs, which runs before
      `onSubmit` because the form does not opt out of validation. A
      `required` value fails only when it is empty, so whitespace passes.
      The address syntax that `type="email"` adds is not modelled. */
  predicate BrowserAccepts(f: Form) {
    f.name != [] && f.email != [] && f.subject != [] && f.message != []
  }

  predicate SubmitEnabled(st: State) {
    Idle(st) && BrowserAccepts(st.form)
  }

  /** Submitting the form: when the button is enabled and the browser accepts
      the values, `handleSubmit` raises `loading` and sends the payload of the
      current form; otherwise nothing happens. */
  function Submit(st: State): (r: Option<(State, Contacts.CreateArgs)>)
    ensures r.Some? <==> SubmitEnabled(st)
    ensures r.Some? ==> r.value.0.loading && r.value.0.form == st.form && r.value.1 == Payload(st.form)
  {
    if SubmitEnabled(st) then Some((st.(loading := true), Payload(st.form))) else None
  }

  /** Typing into a field; the inputs stay editable while loading. */
  function Edit(st: State, k: Field, value: string): (r: State)
    ensures r.loading == st.loading
    ensures Get(r.form, k) == value
    ensures forall j :: j != k ==> Get(r.form, j) == Get(st.form, j)
  {
    st.(form := HandleChange(st.form, k, value))
  }

  /** The request settles: on success the form is cleared, on failure it is
      kept exactly as it now is, and either way `loading` drops. */
  function Settle(st: State, o: Outcome): (r: State)
    ensures Idle(r)
    ensures o == Failed ==> (SubmitEnabled(r) <==> BrowserAccepts(st.form))
    ensures o == Succeeded ==> r.form == Blank
    ensures o == Failed ==> r.form == st.form
  {
    match o
    case Succeeded => State(Blank, false)
    case Failed => st.(loading := false)
  }

  /** A failed submission leaves the values as typed and re-enables the
      button. */
  lemma FailureRetainsForm(st: State)
    requires SubmitEnabled(st)
    ensures Settle(Submit(st).value.0, Failed) == st
  {
  }

  /** A successful submission resets the page to its initial state, even if
      fields were edited while the request was outstanding. */
  lemma SuccessResets(st: State, k: Field, value: string)
    requires SubmitEnabled(st)
    ensures Settle(Submit(st).value.0, Succeeded) == Initial
    ensures Settle(Edit(Submit(st).value.0, k, value), Succeeded) == Initial
  {
  }

  /** A submit starts exactly when no request is outstanding and no
      required field is empty. */
  lemma SubmitGate(st: State)
    ensures Submit(st).Some? <==> !st.loading && forall k :: Required(k) ==> Get(st.form, k) != []
  {
    if !st.loading && forall k :: Required(k) ==> Get(st.form, k) != [] {
      assert Get(st.form, Name) != [] && Get(st.form, Email) != [];
      assert Get(st.form, Subject) != [] && Get(st.form, Message) != [];
    }
  }

  /** The untouched form cannot be submitted: every required field is empty. */
  lemma BlankFormRefused(k: Field, value: string)
    ensures Submit(Initial).None?
    ensures Required(k) ==> Submit(Edit(Initial, k, value)).None?
  {
    if Required(k) {
      var j := if k == Name then Message else Name;
      assert Required(j) && j != k && Get(Edit(Initial, k, value).form, j) == [];
    }
  }

  /** A required field holding only spaces passes the browser's check and is
      sent as the empty string. */
  lemma WhitespacePassesRequired(st: State, k: Field)
    requires Idle(st) && Required(k) && BrowserAccepts(st.form)
    requires AllWhitespace(Get(st.form, k))
    ensures Submit(st).Some?
    ensures Get(FormOf(Submit(st).value.1), k) == []
  {
  }

  /** No second request can start before the first settles. */
  lemma NoDoubleSubmit(st: State, k: Field, value: string)
    requires SubmitEnabled(st)
    ensures Submit(Submit(st).value.0).None?
    ensures Submit(Edit(Submit(st).value.0, k, value)).None?
  {
  }

  /** End to end: a submission that reaches the store creates a `new`
      record holding the trimmed values, with a blank company or phone
      absent. */
  lemma SubmissionStored(st: State, t: Contacts.Contacts, now: nat)
    requires SubmitEnabled(st) && Store.Valid(t)
    ensures var (t', id) := Contacts.Create(t, Submit(st).value.1, now);
      var c := t'.docs[id].value;
      && c.status == Contacts.New
      && c.name == Trim(st.form.name) && c.email == Trim(st.form.email)
      && c.subject == Trim(st.form.subject) && c.message == Trim(st.form.message)
      && (c.company.None? <==> AllWhitespace(st.form.company))
      && (c.phone.None? <==> AllWhitespace(st.form.phone))
  {
  }
}
