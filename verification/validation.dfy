/** Field-level and step-level validation of the signature form
    (`validateField` and `validateCurrentStep` in app.js). A form control is an
    abstract record; the DOM lookups, error texts and border colours the page
    also touches are not part of the model. */
module Validation {
  import opened Seqs
  import opened Text
  import opened Email

  /** The `type` of a control, as far as the validator distinguishes it. */
  datatype FieldKind = Checkbox | EmailInput | OtherInput

  /** A form control: its kind, `id`, whether it carries the `required`
      attribute, its current `value` and, for a checkbox, whether it is ticked. */
  datatype Field = Field(kind: FieldKind, id: string, required: bool, value: string, checked: bool)

  /** Why a field was refused, one per error message of the page. */
  datatype ErrorKind = Required | InvalidEmail | TooShort

  datatype Verdict = Pass | Fail(error: ErrorKind)

  /** The id of the signer's name control, the only one with a length rule. */
  const FullNameId := "fullName"

  /** The required check fails: an unticked required checkbox, or any other
      required control whose value is empty or whitespace only. */
  predicate RequiredFails(f: Field) {
    f.required && (if f.kind == Checkbox then !f.checked else Blank(f.value))
  }

  /** The e-mail check fails: an e-mail control with a non-blank value whose
      trimmed form the e-mail expression does not match. */
  ghost predicate EmailFails(f: Field) {
    f.kind == EmailInput && !Blank(f.value) && !PatternMatches(Trim(f.value))
  }

  /** The name check fails: the name control's trimmed value is a single
      basic-plane character (JavaScript length 1). */
  predicate NameFails(f: Field) {
    var t := Trim(f.value);
    f.id == FullNameId && |t| == 1 && InBasicPlane(t[0])
  }

  /** `validateField`: the three checks run in order, each failing one
      overwriting the message left by the earlier ones. The field passes when
      no check fails; otherwise the error is that of the last failing check. */
  function ValidateField(f: Field): (r: Verdict)
    ensures r == Pass <==> !RequiredFails(f) && !EmailFails(f) && !NameFails(f)
    ensures NameFails(f) ==> r == Fail(TooShort)
    ensures !NameFails(f) && EmailFails(f) ==> r == Fail(InvalidEmail)
    ensures !NameFails(f) && !EmailFails(f) && RequiredFails(f) ==> r == Fail(Required)
  {
    var t := Trim(f.value);
    var present := f.value != "" && t != "";
    CheckFacts(f.value);
    ValidateChecks(f, t, present)
  }

  /** What the three checks' computations mean for a value `v`: the
      `v && v.trim()` test is "not blank", the e-mail scan is the e-mail
      expression, and a length below 2 is a single basic-plane character. */
  lemma CheckFacts(v: string)
    ensures (v != "" && Trim(v) != "") == !Blank(v)
    ensures MatchesEmail(Trim(v)) <==> PatternMatches(Trim(v))
    ensures Trim(v) != "" ==> (Utf16Length(Trim(v)) < 2 <==> |Trim(v)| == 1 && InBasicPlane(Trim(v)[0]))
  {
    var t := Trim(v);
    MatchesEmailIffPattern(t);
    if t != "" {
      ShortIffSingleBasic(t);
    }
  }

  /** The body of `validateField` for a field whose trimmed value is `t` and
      whose `value && value.trim()` test came out as `present`. */
  function ValidateChecks(f: Field, t: string, present: bool): Verdict {
    var afterRequired :=
      if f.required && (if f.kind == Checkbox then !f.checked else !present)
      then Fail(Required) else Pass;
    var afterEmail :=
      if f.kind == EmailInput && present && !MatchesEmail(t)
      then Fail(InvalidEmail) else afterRequired;
    var afterName :=
      if f.id == FullNameId && present && Utf16Length(t) < 2
      then Fail(TooShort) else afterEmail;
    afterName
  }

  /** A control that is not the name control and not an e-mail control is
      judged by the required check alone: a required checkbox fails exactly when
      unticked, another required control exactly when blank, and a control
      without the `required` attribute never fails. */
  lemma RequiredCheckOnly(f: Field)
    requires f.kind != EmailInput && f.id != FullNameId
    ensures ValidateField(f) == (if RequiredFails(f) then Fail(Required) else Pass)
    ensures !f.required ==> ValidateField(f) == Pass
    ensures f.required && f.kind == Checkbox ==> (ValidateField(f) == Pass <==> f.checked)
    ensures f.required && f.kind == OtherInput ==> (ValidateField(f) == Pass <==> !Blank(f.value))
  {
  }

  // The example lemmas below take their controls as parameters fixed by
  // `requires` instead of writing the literal controls in the `ensures`: a
  // literal handed straight to `ValidateField` makes the verifier unfold
  // `Trim`, the e-mail scan and the length count on it all at once, which
  // costs far more than reasoning about a named control.

  /** A blank e-mail control without the `required` attribute passes: the
      e-mail check only looks at non-blank values. */
  lemma BlankOptionalEmailPasses(f: Field)
    requires f.kind == EmailInput && !f.required && Blank(f.value)
    ensures ValidateField(f) == Pass
  {
    assert !NameFails(f);
  }

  /** The e-mail control accepts `a@b.c`. */
  lemma EmailFieldAccepts(f: Field)
    requires f.kind == EmailInput && f.value == "a@b.c"
    ensures ValidateField(f) == Pass
  {
    assert MatchesAt("a@b.c", 1, 3);
    TrimOfTight("a@b.c");
    assert !Blank(f.value) by { assert !IsWhitespace(f.value[0]); }
    assert !RequiredFails(f) && !EmailFails(f) && !NameFails(f);
  }

  /** Surrounding spaces are trimmed before the e-mail check. */
  lemma EmailFieldAcceptsPadded(f: Field)
    requires f.kind == EmailInput && f.value == " a@b.c "
    ensures ValidateField(f) == Pass
  {
    assert MatchesAt("a@b.c", 1, 3);
    TrimOfPadded("a@b.c");
    assert " a@b.c " == " " + "a@b.c" + " ";
    assert !Blank(f.value) by { assert !IsWhitespace(f.value[1]); }
    assert !RequiredFails(f) && !EmailFails(f) && !NameFails(f);
  }

  /** The e-mail control refuses a domain without a dot as invalid e-mail. */
  lemma EmailFieldRejectsNoDot(f: Field)
    requires f.kind == EmailInput && f.value == "a@b"
    ensures ValidateField(f) == Fail(InvalidEmail)
  {
    RejectedDomainExamples();
    TrimOfTight("a@b");
  }

  /** The e-mail control refuses a dot right after the `@`, and a trailing dot. */
  lemma EmailFieldRejectsMisplacedDot(leading: Field, trailing: Field)
    requires leading.kind == EmailInput && leading.value == "a@.c"
    requires trailing == leading.(value := "a@b.")
    ensures ValidateField(leading) == Fail(InvalidEmail)
    ensures ValidateField(trailing) == Fail(InvalidEmail)
  {
    RejectedDomainExamples();
    TrimOfTight("a@.c");
    TrimOfTight("a@b.");
  }

  /** An empty e-mail value fails the required check when the control is
      required and passes when it is not. */
  lemma EmptyEmailExamples(required: Field, optional: Field)
    requires required == Field(EmailInput, "email", true, "", false)
    requires optional == required.(required := false)
    ensures ValidateField(required) == Fail(Required)
    ensures ValidateField(optional) == Pass
  {
  }

  /** A one-character name is too short, also when padded with spaces. */
  lemma NameFieldTooShort(one: Field, padded: Field)
    requires one == Field(OtherInput, FullNameId, true, "a", false)
    requires padded == one.(value := " a ")
    ensures ValidateField(one) == Fail(TooShort)
    ensures ValidateField(padded) == Fail(TooShort)
  {
    TrimOfTight("a");
    TrimOfPadded("a");
    assert NameFails(one) && NameFails(padded);
  }

  /** A two-character name passes, and so does a single emoji, which
      JavaScript counts as two code units; a blank name fails the required
      check only. */
  lemma NameFieldOtherExamples(two: Field, emoji: Field, blank: Field)
    requires two == Field(OtherInput, FullNameId, true, "ab", false)
    requires emoji == two.(value := "\U{1F600}")
    requires blank == two.(value := "   ")
    ensures ValidateField(two) == Pass
    ensures ValidateField(emoji) == Pass
    ensures ValidateField(blank) == Fail(Required)
  {
    TrimOfTight("ab");
    TrimOfTight("\U{1F600}");
    assert !NameFails(two) && !NameFails(emoji);
    assert Blank("   ");
  }

  /** The controls of a step that carry the `required` attribute, in document
      order (`querySelectorAll('[required]')`). */
  function RequiredFields(fs: seq<Field>): (r: seq<Field>)
    ensures forall f :: f in r <==> f in fs && f.required
    ensures |r| <= |fs|
  {
    if fs == [] then []
    else RequiredFields(fs[..|fs| - 1]) + (if fs[|fs| - 1].required then [fs[|fs| - 1]] else [])
  }

  /** The selection keeps document order: selecting from two consecutive runs
      of controls is selecting from each and joining the results. */
  lemma {:induction false} RequiredFieldsAppend(a: seq<Field>, b: seq<Field>)
    ensures RequiredFields(a + b) == RequiredFields(a) + RequiredFields(b)
    decreases |b|
  {
    if b == [] {
      assert a + b == a;
    } else {
      var b' := b[..|b| - 1];
      var last := b[|b| - 1];
      assert (a + b)[..|a + b| - 1] == a + b';
      assert (a + b)[|a + b| - 1] == last;
      RequiredFieldsAppend(a, b');
    }
  }

  /** The form: `form[k]` holds the controls of the element whose
      `data-step` is `k + 1`. */
  type Form = seq<seq<Field>>

  /** The element of step `step` exists on the page. */
  predicate HasStep(form: Form, step: int) {
    1 <= step <= |form|
  }

  /** A control without the `required` attribute, wherever it sits among a
      step's controls, never changes whether the step's required controls all
      pass: `querySelectorAll('[required]')` does not select it. */
  lemma OptionalFieldIgnored(a: seq<Field>, f: Field, b: seq<Field>, validate: Field -> Verdict)
    requires !f.required
    ensures RequiredPass(a + [f] + b, validate) <==> RequiredPass(a + b, validate)
  {
    if RequiredPass(a + b, validate) {
      forall g | g in a + [f] + b && g.required
        ensures validate(g) == Pass
      {
        assert g in a + b;
      }
    }
    if RequiredPass(a + [f] + b, validate) {
      forall g | g in a + b && g.required
        ensures validate(g) == Pass
      {
        assert g in a + [f] + b;
      }
    }
  }

  /** The verdict of `validateCurrentStep` for `step`: the step's element exists
      and every one of its required controls passes `validateField`. Controls
      without the `required` attribute (an optional e-mail, say) are not looked
      at, even when their value would fail. */
  predicate StepPasses(form: Form, step: int) {
    HasStep(form, step) && RequiredPass(form[step - 1], ValidateField)
  }

  /** Every control of `fs` that carries the `required` attribute passes `validate`. */
  predicate RequiredPass(fs: seq<Field>, validate: Field -> Verdict) {
    forall f :: f in fs && f.required ==> validate(f) == Pass
  }

  /** The `forEach` of `validateCurrentStep`: runs `validate` on every control
      in order, never stopping early, keeps each verdict, and clears the
      running `isValid` flag on every failure. */
  method ValidateEach(fields: seq<Field>, validate: Field -> Verdict) returns (ok: bool, reports: seq<Verdict>)
    ensures |reports| == |fields|
    ensures forall i :: 0 <= i < |fields| ==> reports[i] == validate(fields[i])
    ensures ok <==> forall i :: 0 <= i < |fields| ==> reports[i] == Pass
  {
    ok, reports := true, [];
    var i := 0;
    while i < |fields|
      invariant 0 <= i <= |fields|
      invariant |reports| == i
      invariant forall k :: 0 <= k < i ==> reports[k] == validate(fields[k])
      invariant ok <==> forall k :: 0 <= k < i ==> reports[k] == Pass
    {
      var verdict := validate(fields[i]);
      reports := reports + [verdict];
      if verdict != Pass {
        ok := false;
      }
      i := i + 1;
    }
  }

  /** `validateCurrentStep`: visits every required control of the step, in
      document order and without stopping at the first failure, producing one
      verdict per control (the error each one displays); the step is valid
      exactly when all of them pass. A missing step element is a failure with
      nothing reported. */
  method ValidateCurrentStep(form: Form, step: int) returns (ok: bool, reports: seq<Verdict>)
    ensures !HasStep(form, step) ==> !ok && reports == []
    ensures HasStep(form, step) ==>
      var required := RequiredFields(form[step - 1]);
      && |reports| == |required|
      && forall i :: 0 <= i < |required| ==> reports[i] == ValidateField(required[i])
    ensures ok <==> StepPasses(form, step)
  {
    if !HasStep(form, step) {
      return false, [];
    }
    var required := RequiredFields(form[step - 1]);
    ok, reports := ValidateEach(required, ValidateField);
    EachRequiredPasses(form[step - 1], ValidateField, reports);
  }

  /** One verdict per required control, all of them `Pass`, is the same as
      every required control passing. */
  lemma EachRequiredPasses(fs: seq<Field>, validate: Field -> Verdict, reports: seq<Verdict>)
    requires |reports| == |RequiredFields(fs)|
    requires forall i :: 0 <= i < |reports| ==> reports[i] == validate(RequiredFields(fs)[i])
    ensures (forall i :: 0 <= i < |reports| ==> reports[i] == Pass) <==> RequiredPass(fs, validate)
  {
    var required := RequiredFields(fs);
    if forall i :: 0 <= i < |reports| ==> reports[i] == Pass {
      forall f | f in fs && f.required
        ensures validate(f) == Pass
      {
        var k :| 0 <= k < |required| && required[k] == f;
      }
    } else {
      var k :| 0 <= k < |reports| && reports[k] != Pass;
      assert required[k] in fs && required[k].required;
    }
  }
}
