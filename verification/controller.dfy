/** The three-step signature form and the page state it drives: `currentStep`
    together with the signature store. Each handler of app.js (`nextStep`,
    `prevStep`, `handleFormSubmit`, the step reset of `resetForm`, the seeding
    of `initializeApp`) is a pure transition from one page state to the next;
    the form's controls, as they are when the handler runs, are an input. */
module FormController {
  import opened Seqs
  import opened Validation
  import opened SignatureStore

  const FirstStep := 1
  /** The step `nextStep` refuses to go beyond. */
  const LastStep := 3

  /** The page state: the step shown and the signature store. */
  datatype Page = Page(step: int, store: Store)

  /** What the handlers keep true: the step is one of the three, and the
      counter agrees with the list. */
  predicate Good(p: Page) {
    FirstStep <= p.step <= LastStep && Consistent(p.store)
  }

  /** `initializeApp` (its seeding part) on the initial `currentStep` of 1:
      the store holds the three demonstration records with a counter of 3. */
  function Initialize(today: Date, yesterday: Date, twoDaysAgo: Date): (p: Page)
    ensures Good(p) && p.step == FirstStep
    ensures p.store.records == InitialSignatures(today, yesterday, twoDaysAgo)
    ensures p.store.count == 3
  {
    Page(FirstStep, Seed(InitialSignatures(today, yesterday, twoDaysAgo)))
  }

  /** `nextStep`: advances by exactly one when the current step validates and
      is below the last; otherwise reports `false` and changes nothing. The
      store is never touched. */
  function NextStep(form: Form, p: Page): (r: (bool, Page))
    ensures r.0 <==> StepPasses(form, p.step) && p.step < LastStep
    ensures r.0 ==> r.1 == p.(step := p.step + 1)
    ensures !r.0 ==> r.1 == p
  {
    if !StepPasses(form, p.step) then (false, p)
    else if p.step < LastStep then (true, p.(step := p.step + 1))
    else (false, p)
  }

  /** `prevStep`: goes back by exactly one from any step above the first,
      without validating anything; otherwise reports `false` and changes
      nothing. */
  function PrevStep(p: Page): (r: (bool, Page))
    ensures r.0 <==> p.step > FirstStep
    ensures r.0 ==> r.1 == p.(step := p.step - 1)
    ensures !r.0 ==> r.1 == p
  {
    if p.step > FirstStep then (true, p.(step := p.step - 1)) else (false, p)
  }

  /** `resetForm`, as far as page state goes: back to the first step, with
      the store as it was. */
  function ResetForm(p: Page): (r: Page)
    ensures r.step == FirstStep
    ensures r.store == p.store
  {
    p.(step := FirstStep)
  }

  /** Every control of the form, in document order. */
  function AllFields(form: Form): seq<Field> {
    Flatten(form)
  }

  predicate HasId(id: string, f: Field) {
    f.id == id
  }

  /** `i` is the first control of the form, in document order, with that id. */
  predicate FirstWithId(form: Form, id: string, i: int) {
    && 0 <= i < |AllFields(form)| && AllFields(form)[i].id == id
    && forall j :: 0 <= j < i ==> AllFields(form)[j].id != id
  }

  /** `v` is what `document.getElementById(id)?.value || ''` reads: the value
      of the first control with that id, or the empty string when no control
      has it. */
  ghost predicate ReadsControl(form: Form, id: string, v: string) {
    && ((forall i :: 0 <= i < |AllFields(form)| ==> AllFields(form)[i].id != id) ==> v == "")
    && forall i :: FirstWithId(form, id, i) ==> v == AllFields(form)[i].value
  }

  /** `document.getElementById(id)?.value || ''`. */
  function ValueOf(form: Form, id: string): (v: string)
    ensures ReadsControl(form, id, v)
  {
    var fields := AllFields(form);
    var k := FirstIndex(fields, f => HasId(id, f));
    if k < |fields| then fields[k].value else ""
  }

  /** The record `handleFormSubmit` builds: each text property is the value
      of the control with the matching id (`fullName`, `country`, `gamertag`,
      `email`, `comment`), empty when there is no such control, and the date is
      today's. Unlike the demonstration records it always has a gamertag and an
      e-mail property, so a submitted record never equals one of them. */
  function BuildSignature(form: Form, today: Date): (r: Signature)
    ensures ReadsControl(form, FullNameId, r.name)
    ensures ReadsControl(form, "country", r.country)
    ensures r.gamertag.Some? && ReadsControl(form, "gamertag", r.gamertag.value)
    ensures r.email.Some? && ReadsControl(form, "email", r.email.value)
    ensures ReadsControl(form, "comment", r.comment)
    ensures r.date == today
  {
    Signature(
      ValueOf(form, FullNameId),
      ValueOf(form, "country"),
      Some(ValueOf(form, "gamertag")),
      Some(ValueOf(form, "email")),
      ValueOf(form, "comment"),
      today)
  }

  /** `handleFormSubmit`: validates the current step only. When that fails,
      nothing changes. When it passes, exactly one record, built from the
      controls' values, is put in front of the list, the counter grows by one,
      and the form returns to the first step. */
  function HandleFormSubmit(form: Form, p: Page, today: Date): (r: (bool, Page))
    ensures !StepPasses(form, p.step) ==> r == (false, p)
    ensures StepPasses(form, p.step) ==>
      && r.0
      && r.1.step == FirstStep
      && r.1.store.records == [BuildSignature(form, today)] + p.store.records
      && r.1.store.count == p.store.count + 1
  {
    if !StepPasses(form, p.step) then (false, p)
    else (true, ResetForm(p.(store := AddSignature(p.store, BuildSignature(form, today)))))
  }

  /** A user action on the page, with the form's controls as they are at
      that moment. */
  datatype Event = Next(form: Form) | Prev | Submit(form: Form, today: Date)

  function Apply(p: Page, e: Event): Page {
    match e
    case Next(form) => NextStep(form, p).1
    case Prev => PrevStep(p).1
    case Submit(form, today) => HandleFormSubmit(form, p, today).1
  }

  /** The page after a sequence of actions, in order. */
  function Run(p: Page, es: seq<Event>): Page
    decreases |es|
  {
    if es == [] then p else Run(Apply(p, es[0]), es[1..])
  }

  /** Every handler keeps the step within 1..3 and the counter equal to the
      length of the list; any list it had survives, in order, at the end. */
  lemma ApplyKeepsGood(p: Page, e: Event)
    requires Good(p)
    ensures Good(Apply(p, e))
    ensures var q := Apply(p, e);
      |q.store.records| >= |p.store.records|
      && q.store.records[|q.store.records| - |p.store.records|..] == p.store.records
  {
    var q := Apply(p, e);
    if |q.store.records| > |p.store.records| {
      assert q.store.records == [q.store.records[0]] + p.store.records;
    }
  }

  /** Over any sequence of actions from a good state the step stays within
      1..3 and the counter equals the list length, and the signatures already
      present are never dropped or reordered: new ones only appear in front. */
  lemma {:induction false} RunKeepsGood(p: Page, es: seq<Event>)
    requires Good(p)
    ensures Good(Run(p, es))
    ensures var q := Run(p, es);
      |q.store.records| >= |p.store.records|
      && q.store.records[|q.store.records| - |p.store.records|..] == p.store.records
    decreases |es|
  {
    if es != [] {
      var p' := Apply(p, es[0]);
      ApplyKeepsGood(p, es[0]);
      RunKeepsGood(p', es[1..]);
      assert Run(p, es) == Run(p', es[1..]);
      var q := Run(p, es);
      var n, n', m := |p.store.records|, |p'.store.records|, |q.store.records|;
      assert q.store.records[m - n'..] == p'.store.records;
      assert p'.store.records[n' - n..] == p.store.records;
      assert q.store.records[m - n..] == q.store.records[m - n'..][n' - n..];
    }
  }

  /** Going forward and then back returns to the same page. */
  lemma NextThenPrev(form: Form, p: Page)
    requires NextStep(form, p).0
    ensures PrevStep(NextStep(form, p).1) == (true, p)
  {
  }

  /** Going back and then forward returns to the same page exactly when the
      step gone back to validates. */
  lemma PrevThenNext(form: Form, p: Page)
    requires Good(p) && PrevStep(p).0
    ensures NextStep(form, PrevStep(p).1) == (true, p) <==> StepPasses(form, p.step - 1)
  {
  }

  /** A required checkbox left unticked in the current step (the consent box
      of the last step, say) blocks both advancing and submitting. */
  lemma UntickedBoxBlocks(form: Form, p: Page, today: Date, k: int)
    requires HasStep(form, p.step) && 0 <= k < |form[p.step - 1]|
    requires var box := form[p.step - 1][k];
      box.kind == Checkbox && box.required && !box.checked
    ensures NextStep(form, p) == (false, p)
    ensures HandleFormSubmit(form, p, today) == (false, p)
  {
    var box := form[p.step - 1][k];
    assert ValidateField(box) != Pass;
    assert !RequiredPass(form[p.step - 1], ValidateField);
  }

  /** Adding a control without the `required` attribute anywhere in a step
      changes neither whether that step may be left nor whether it may be
      submitted: whatever its value, it is never validated there. */
  lemma OptionalControlDoesNotGate(form: Form, p: Page, today: Date, a: seq<Field>, f: Field, b: seq<Field>)
    requires HasStep(form, p.step) && !f.required
    requires form[p.step - 1] == a + b
    ensures var form' := form[p.step - 1 := a + [f] + b];
      && NextStep(form', p).0 == NextStep(form, p).0
      && NextStep(form', p).1 == NextStep(form, p).1
      && HandleFormSubmit(form', p, today).0 == HandleFormSubmit(form, p, today).0
  {
    var form' := form[p.step - 1 := a + [f] + b];
    OptionalFieldIgnored(a, f, b, ValidateField);
    assert StepPasses(form', p.step) == StepPasses(form, p.step);
  }

  /** Only required controls gate a step: an e-mail control without the
      `required` attribute holding a malformed address fails `validateField`,
      yet the step it sits in still advances, and the submission from the last
      step stores the malformed address. The control is a parameter fixed by
      `requires` rather than a literal in the `ensures`: the verifier copes far
      better with a named control than with a literal handed to
      `ValidateField`. */
  lemma OptionalEmailDoesNotGate(form: Form, p: Page, email: Field, today: Date)
    requires email == Field(EmailInput, "email", false, "a@b", false)
    requires form == [[], [email], []] && p.step == 2
    ensures ValidateField(email) == Fail(InvalidEmail)
    ensures NextStep(form, p) == (true, p.(step := 3))
    ensures HandleFormSubmit(form, p.(step := 3), today).1.store.records[0].email == Some("a@b")
  {
    EmailFieldRejectsNoDot(email);
    assert form[1..] == [[email], []] && form[1..][1..] == [[]] && form[1..][1..][1..] == [];
    assert Flatten(form[1..][1..]) == [];
    assert Flatten(form[1..]) == [email];
    assert AllFields(form) == [email];
  }

  /** A successful submission stores what the signer typed: the new front
      record carries the value of the first `fullName` control as its name and
      that of the first `country` control as its country. */
  lemma SubmitStoresTypedValues(form: Form, p: Page, today: Date, i: int, j: int)
    requires StepPasses(form, p.step)
    requires FirstWithId(form, FullNameId, i) && FirstWithId(form, "country", j)
    ensures var front := HandleFormSubmit(form, p, today).1.store.records[0];
      && front.name == AllFields(form)[i].value
      && front.country == AllFields(form)[j].value
      && front.date == today
  {
  }

  /** The full walk through the form: from the first step, with each of the
      three steps valid when it is left, two `nextStep`s and a submission add
      exactly the built record in front of the list and return to the first
      step. */
  lemma CompleteSubmission(form: Form, p: Page, today: Date)
    requires Good(p) && p.step == FirstStep
    requires StepPasses(form, 1) && StepPasses(form, 2) && StepPasses(form, 3)
    ensures var q := Run(p, [Next(form), Next(form), Submit(form, today)]);
      && q.step == FirstStep
      && q.store.records == [BuildSignature(form, today)] + p.store.records
      && Good(q)
  {
    var es := [Next(form), Next(form), Submit(form, today)];
    var p1 := Apply(p, Next(form));
    var p2 := Apply(p1, Next(form));
    var p3 := Apply(p2, Submit(form, today));
    assert p2.step == 3;
    assert es[1..] == [Next(form), Submit(form, today)];
    assert es[1..][1..] == [Submit(form, today)];
    assert es[1..][1..][1..] == [];
    assert Run(p, es) == Run(p1, es[1..]);
    assert Run(p1, es[1..]) == Run(p2, es[1..][1..]);
    assert Run(p2, es[1..][1..]) == Run(p3, []);
  }
}
