# Petition page: form validation, step controller and signature store

The page in `app.js` collects signatures for a petition through a three-step
form. This project models the three parts whose behaviour does not depend on
a browser, and proves properties about them:

- **Field validator** (`validateField`). A form control has a kind, an id, a
  `required` flag, a value and a checked flag. Three checks run in order, and a
  later failing check overwrites the message left by an earlier one:
  - the required check, where a whitespace-only value counts as empty;
  - the e-mail check, which matches the trimmed value against
    `^[^\s@]+@[^\s@]+\.[^\s@]+$`;
  - the two-character minimum for the `fullName` control.

  JavaScript whitespace, `trim` and the UTF-16 `length` are modelled exactly
  (module `Text`). The regular expression is stated as the set of strings it
  matches, and a direct scan is proved to accept exactly that set (module
  `Email`).
- **Step controller** (`nextStep`, `prevStep`, `validateCurrentStep`, and the
  step reset of `resetForm`). `currentStep` runs through 1, 2, 3. A step's
  controls come from HTML that is not part of the model, so the form is an
  input: a sequence of steps, each a sequence of controls (module `Validation`
  for the step check, `FormController` for the transitions).
- **Signature store** (the seeding in `initializeApp`, `addSignature`, the
  `slice(0, 10)` of `displaySignatures`, and the data flow of
  `handleFormSubmit`). The store is a newest-first list plus a separately kept
  counter (module `SignatureStore`).

The page state (`Page`) is the current step together with the store. Every
handler is a pure function from one page state to the next. `Run` applies a
sequence of user actions. `RunKeepsGood` proves that over any such sequence:
- the step stays within 1..3;
- the counter always equals the number of records;
- existing records are never dropped or reordered.

Behaviour of the code worth knowing:

- `handleFormSubmit` validates only the current step. It does not check that
  the form is at step 3, and it re-validates neither the earlier steps nor
  the record it builds.
- Only controls with the `required` attribute gate a step: adding a control
  without it anywhere in a step never changes whether the step may be left or
  submitted (`OptionalControlDoesNotGate`). So an optional e-mail control
  holding a malformed address shows an error when it loses focus, yet in a
  step whose required controls pass it stops neither `nextStep` nor the
  submission, and the address reaches the stored record
  (`OptionalEmailDoesNotGate` works this through for `a@b`).
- `addSignature` returns nothing. Callers read the new count from the store.
- The name check compares the JavaScript `length`, which counts UTF-16 code
  units. A name made of one character outside the basic plane, such as a
  single emoji, has length 2 and passes.

## Model

| member | source | states |
|---|---|---|
| Text.Trim | app.js:244 | `trim` yields a string that neither starts nor ends with whitespace and is empty exactly when the input is empty or whitespace only |
| Text.TrimIsInfix | app.js:244 | `trim` removes only a whitespace prefix and a whitespace suffix; what remains is a contiguous part of the input |
| Text.TrimIdempotent | app.js:244 | trimming an already trimmed value changes nothing |
| Text.TrimOfTight | app.js:244 | a value without surrounding whitespace is its own trim |
| Text.TrimOfPadded | app.js:253 | one space on each side of a value is trimmed away |
| Text.Utf16Length | app.js:261 | the JavaScript `length` lies between the number of characters and twice that, and equals it exactly when every character is in the basic plane |
| Text.ShortIffSingleBasic | app.js:260-261 | a non-empty trimmed name is shorter than 2 exactly when it is one basic-plane character |
| Email.MatchesEmailIffPattern | app.js:252-253 | the direct e-mail scan accepts a string if and only if the expression `^[^\s@]+@[^\s@]+\.[^\s@]+$` matches it: non-empty local part, exactly one `@`, no whitespace, a `.` with a character on each side in the domain |
| Email.AcceptedExamples | app.js:252 | `a@b.c` and `a.b@c.d.e` match the expression |
| Email.RejectedDomainExamples | app.js:252 | `a@b`, `a@.c` and `a@b.` do not match |
| Email.RejectedShapeExamples | app.js:252 | `@b.c`, `a@b@c.d` and `a b@c.d` do not match |
| Validation.ValidateField | app.js:230-280 | a control passes if and only if none of the required, e-mail and name checks fails; otherwise its error is the last failing check's: too short beats invalid e-mail, which beats required |
| Validation.RequiredCheckOnly | app.js:237-248 | outside the e-mail and name rules, a required checkbox fails exactly when unticked, another required control fails exactly when blank, and a control without `required` never fails |
| Validation.BlankOptionalEmailPasses | app.js:250-257 | a blank e-mail control without `required` passes, because the e-mail check only looks at non-blank values |
| Validation.EmailFieldAccepts | app.js:250-257 | an e-mail control holding `a@b.c` passes |
| Validation.EmailFieldAcceptsPadded | app.js:250-257 | an e-mail control holding ` a@b.c ` passes, because the value is trimmed before matching |
| Validation.EmailFieldRejectsNoDot | app.js:250-257 | an e-mail control holding `a@b` fails with the invalid-e-mail error, whether or not it is required |
| Validation.EmailFieldRejectsMisplacedDot | app.js:250-257 | `a@.c` and `a@b.` fail with the invalid-e-mail error |
| Validation.EmptyEmailExamples | app.js:237-257 | an empty required e-mail control fails the required check; an empty optional one passes |
| Validation.NameFieldTooShort | app.js:259-265 | a name of one basic-plane character (`a`, or ` a ` with spaces) fails as too short |
| Validation.NameFieldOtherExamples | app.js:237-265 | `ab` and a single emoji pass as names; a blank required name fails the required check only |
| Validation.RequiredFields | app.js:214 | the selected controls are exactly the step's controls carrying `required` |
| Validation.RequiredFieldsAppend | app.js:214 | the selection keeps document order: selecting from two consecutive runs of controls gives the selection from the first followed by the selection from the second |
| Validation.OptionalFieldIgnored | app.js:214-227 | inserting a control without `required` anywhere among a step's controls never changes whether all required controls pass |
| Validation.ValidateEach | app.js:215-224 | the loop visits every control without stopping early, records one verdict per control, and its flag is true exactly when all verdicts pass |
| Validation.ValidateCurrentStep | app.js:207-228 | a missing step element fails with nothing reported; otherwise each required control gets its own verdict, and the result is true if and only if every required control passes |
| Validation.EachRequiredPasses | app.js:219-227 | all verdicts of the required controls pass if and only if every required control of the step passes |
| SignatureStore.Seed | app.js:33-36 | after seeding, the list is the demonstration records and the counter equals the list length |
| SignatureStore.InitialSignatures | app.js:7-26 | the demonstration list holds three records dated today, yesterday and two days ago, newest first, none with a gamertag or an e-mail property |
| SignatureStore.AddSignature | app.js:326-328 | the new record is at index 0, every earlier record moves up exactly one place, the counter grows by one, and a counter that matched the length still does |
| SignatureStore.Displayed | app.js:489-490 | the rendered records are exactly the first min(10, n) of the list, in list order |
| SignatureStore.DisplayedAfterAdd | app.js:326-334 | after an addition the rendered list is the new record followed by the previously rendered records, minus the oldest once ten are shown |
| SignatureStore.AddAllRecords | app.js:326-328 | after any run of additions the list is the added records, latest first, in front of the unchanged old list |
| SignatureStore.AddAllCount | app.js:326-328 | after any run of additions the counter has grown by the number of additions, and a consistent store stays consistent |
| SignatureStore.SeedThenAdd | app.js:33-36 | counting from the seeding, the counter is the number of seeded records plus the number of additions, and the display is the first ten of the additions in reverse followed by the seeds |
| FormController.Initialize | app.js:33-36 | the page starts at step 1 with the three demonstration records and a counter of 3 |
| FormController.NextStep | app.js:149-181 | advances by exactly one if and only if the current step validates and is below 3; otherwise returns false and changes nothing |
| FormController.PrevStep | app.js:183-205 | goes back by exactly one if and only if the step is above 1, without validating; otherwise returns false and changes nothing |
| FormController.ResetForm | app.js:343-347 | the step returns to 1 and the store is untouched |
| FormController.ValueOf | app.js:302-307 | a control value read by id is the value of the first control with that id in document order, or empty when no control has it |
| FormController.BuildSignature | app.js:301-309 | the record's name, country, gamertag, e-mail and comment are each the value of the first control with id `fullName`, `country`, `gamertag`, `email` and `comment`, or empty when no control has that id; gamertag and e-mail are always present, unlike on the demonstration records; the date is today's |
| FormController.HandleFormSubmit | app.js:292-320 | if the current step fails validation, nothing changes; otherwise exactly one record built from the controls is put in front of the list, the counter grows by one, and the step returns to 1 |
| FormController.SubmitStoresTypedValues | app.js:296-328 | after a successful submission the front record's name and country are the values typed into the first `fullName` and `country` controls, and its date is today's |
| FormController.ApplyKeepsGood | app.js:149-347 | each handler keeps the step in 1..3 and the counter equal to the list length, and keeps the old list as the tail of the new one |
| FormController.RunKeepsGood | app.js:292-347 | over any sequence of actions the step stays in 1..3, the counter equals the list length, and earlier signatures are never dropped or reordered |
| FormController.NextThenPrev | app.js:149-205 | a successful advance followed by a retreat returns to the same page |
| FormController.PrevThenNext | app.js:149-205 | a retreat followed by an advance returns to the same page if and only if the step retreated to validates |
| FormController.UntickedBoxBlocks | app.js:237-243 | an unticked required checkbox in the current step blocks both advancing and submitting, leaving the page unchanged |
| FormController.OptionalControlDoesNotGate | app.js:149-299 | adding a control without `required` anywhere in the current step changes neither the outcome of `nextStep` nor whether `handleFormSubmit` proceeds |
| FormController.OptionalEmailDoesNotGate | app.js:207-309 | in a form whose step 2 holds only an optional e-mail control with `a@b`, that control fails its own check, yet step 2 advances and the submission from step 3 stores `a@b` |
| FormController.CompleteSubmission | app.js:292-320 | from step 1 with all three steps valid, advance, advance and submit add exactly the built record in front of the list and return to step 1 |

## Left out

- DOM work: element lookups, class toggling, border colours, error texts and
  their display, `form.reset()` restoring the controls' default values. The
  controls' current values are an input to every handler.
- `validateField(null)` returning `false` (app.js:231). Every caller passes an
  element taken from the page.
- `escapeHtml` and `createSignatureCard`. They depend on the browser's HTML
  serialiser, which is not part of the model.
- `updateSignatureCount` and `animateCounter`. These are floating-point
  progress arithmetic, where the percentage is clamped to 100, and timer-driven
  animation.
- Scroll animations, `IntersectionObserver`, particles and confetti,
  notifications, sharing windows, clipboard and analytics (`trackSignature`).
  These are browser APIs, randomness and timers.
- `showSuccessModal`. It is presentation only.
- Dates from `toLocaleDateString`. The caller supplies them as opaque strings.
- Lone UTF-16 surrogates in values. Strings are sequences of Unicode scalar
  values. `trim` and the e-mail expression treat every non-basic-plane
  character as two code units that are neither whitespace nor `@`, so only
  the length needs the explicit UTF-16 count.
