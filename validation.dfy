/** Client-side form validation: `validateField` and `validateForm` of the browser script.
    A form is the sequence of its `input` elements in document order; the error
    messages the script shows are left out, except that `ValidateForm` reports
    which required inputs it would mark. */
module FormValidation {
  import opened Options
  import opened Text
  import opened Regex

  /** One `input` element: its `name` and `type` attributes, its current value,
      and whether it carries the `required` attribute. */
  datatype Input = Input(name: string, inputType: string, value: string, required: bool)

  type Form = seq<Input>

  const EmailType: string := "email"
  const PasswordName: string := "password"
  const ConfirmName: string := "confirm_pass"
  const PhoneName: string := "phone"

  // ---------------------------------------------------------------------------
  // validateField

  /** `validateField`: a required input whose trimmed value is blank fails; an
      email input with a non-blank trimmed value must match the email pattern;
      everything else passes. */
  function ValidateField(f: Input): bool
  {
    var value := Trim(f.value);
    if f.required && value == [] then false
    else if f.inputType == EmailType && value != [] then Matches(EmailPattern, value)
    else true
  }

  /** What `validateField` decides, case by case: a blank required input fails, a
      blank optional one passes, a non-email input with content passes, and an
      email input with content passes exactly when its trimmed value has the
      email shape. */
  lemma ValidateFieldCases(f: Input)
    ensures f.required && Trim(f.value) == [] ==> !ValidateField(f)
    ensures !f.required && Trim(f.value) == [] ==> ValidateField(f)
    ensures f.inputType != EmailType && Trim(f.value) != [] ==> ValidateField(f)
    ensures f.inputType == EmailType && Trim(f.value) != [] ==> (ValidateField(f) <==> IsEmailShape(Trim(f.value)))
  {
    EmailPatternIff(Trim(f.value));
  }

  /** A required input holding only whitespace is rejected. */
  lemma RequiredBlankRejected(f: Input)
    requires f.required && AllSpace(f.value)
    ensures !ValidateField(f)
  {
    TrimEmptyIff(f.value);
  }

  /** A non-email input passes whenever its value has some non-space character. */
  lemma NonEmailWithContentAccepted(f: Input, i: nat)
    requires f.inputType != EmailType && i < |f.value| && !IsSpace(f.value[i])
    ensures ValidateField(f)
  {
    TrimEmptyIff(f.value);
  }

  // ---------------------------------------------------------------------------
  // The element lookups validateForm performs

  /** The attribute selectors the script uses inside `input[…]`. */
  datatype Selector = Required | NameIs(name: string) | TypeIs(inputType: string)

  predicate Selects(sel: Selector, f: Input)
  {
    match sel
    case Required => f.required
    case NameIs(n) => f.name == n
    case TypeIs(t) => f.inputType == t
  }

  /** `querySelectorAll`: the inputs the selector matches, in document order
      (`QuerySelectorAllSingle` and `QuerySelectorAllAppend` pin it down). */
  function QuerySelectorAll(form: Form, sel: Selector): (r: Form)
    ensures forall f :: f in r <==> f in form && Selects(sel, f)
    ensures |r| <= |form|
  {
    if form == [] then []
    else (if Selects(sel, form[0]) then [form[0]] else []) + QuerySelectorAll(form[1..], sel)
  }

  /** `querySelector`: the first input the selector matches, if any. */
  function QuerySelector(form: Form, sel: Selector): (r: Option<Input>)
    ensures r.None? <==> forall f :: f in form ==> !Selects(sel, f)
    ensures r.Some? ==> r.value in form && Selects(sel, r.value)
    ensures r.Some? ==> exists i :: 0 <= i < |form| && form[i] == r.value && forall j :: 0 <= j < i ==> !Selects(sel, form[j])
  {
    if form == [] then None
    else if Selects(sel, form[0]) then Some(form[0])
    else QuerySelector(form[1..], sel)
  }

  /** A single input is listed exactly when the selector matches it. */
  lemma QuerySelectorAllSingle(f: Input, sel: Selector)
    ensures QuerySelectorAll([f], sel) == if Selects(sel, f) then [f] else []
  {
    assert [f][1..] == [];
  }

  /** Listing the inputs of two consecutive pieces of a form lists those of the
      first piece, then those of the second: the order is document order and no
      input is listed twice or dropped. */
  lemma {:induction false} QuerySelectorAllAppend(a: Form, b: Form, sel: Selector)
    ensures QuerySelectorAll(a + b, sel) == QuerySelectorAll(a, sel) + QuerySelectorAll(b, sel)
  {
    if a != [] {
      assert (a + b)[1..] == a[1..] + b;
      QuerySelectorAllAppend(a[1..], b, sel);
    } else {
      assert a + b == b;
    }
  }

  /** `querySelector` returns the first element `querySelectorAll` lists. */
  lemma {:induction false} QuerySelectorIsFirstOfAll(form: Form, sel: Selector)
    ensures QuerySelector(form, sel) ==
            if QuerySelectorAll(form, sel) == [] then None else Some(QuerySelectorAll(form, sel)[0])
  {
    if form != [] && !Selects(sel, form[0]) {
      QuerySelectorIsFirstOfAll(form[1..], sel);
      assert QuerySelectorAll(form, sel) == QuerySelectorAll(form[1..], sel);
    }
  }

  /** `querySelectorAll('input[required]')`. */
  function RequiredInputs(form: Form): Form
  {
    QuerySelectorAll(form, Required)
  }

  // ---------------------------------------------------------------------------
  // The four checks of validateForm

  /** Both password inputs present implies their raw values are identical. */
  predicate PasswordsMatch(form: Form)
  {
    match (QuerySelector(form, NameIs(PasswordName)), QuerySelector(form, NameIs(ConfirmName)))
    case (Some(p), Some(c)) => p.value == c.value
    case _ => true
  }

  /** The first email input, when present with a non-empty raw value, matches the
      email pattern on that raw, untrimmed value. */
  predicate EmailAccepted(form: Form)
  {
    match QuerySelector(form, TypeIs(EmailType))
    case Some(e) => e.value != [] ==> Matches(EmailPattern, e.value)
    case None => true
  }

  /** The first phone input, when present with a non-empty value, matches the phone pattern. */
  predicate PhoneAccepted(form: Form)
  {
    match QuerySelector(form, NameIs(PhoneName))
    case Some(p) => p.value != [] ==> Matches(PhonePattern, p.value)
    case None => true
  }

  /** Every input of `inputs` passes `check`. */
  predicate AllPass(inputs: seq<Input>, check: Input -> bool)
  {
    forall j :: 0 <= j < |inputs| ==> check(inputs[j])
  }

  /** The verdict `validateForm` returns. */
  predicate FormAccepts(form: Form)
  {
    AllPass(RequiredInputs(form), ValidateField) &&
    PasswordsMatch(form) && EmailAccepted(form) && PhoneAccepted(form)
  }

  /** The `forEach` over the required inputs: applies `check` to every input, with
      no early exit, and records the positions of the inputs it rejects. */
  method CheckEach(inputs: seq<Input>, check: Input -> bool) returns (allPass: bool, rejected: seq<nat>)
    ensures allPass == AllPass(inputs, check)
    ensures forall j :: j in rejected <==> 0 <= j < |inputs| && !check(inputs[j])
    ensures forall a, b :: 0 <= a < b < |rejected| ==> rejected[a] < rejected[b]
  {
    allPass := true;
    rejected := [];
    var i := 0;
    while i < |inputs|
      invariant 0 <= i <= |inputs|
      invariant allPass <==> forall j :: 0 <= j < i ==> check(inputs[j])
      invariant forall j :: j in rejected <==> 0 <= j < i && !check(inputs[j])
      invariant forall a, b :: 0 <= a < b < |rejected| ==> rejected[a] < rejected[b]
      invariant forall a :: 0 <= a < |rejected| ==> rejected[a] < i
    {
      if !check(inputs[i]) {
        allPass := false;
        rejected := rejected + [i];
      }
      i := i + 1;
    }
  }

  /** `validateForm`: visits every required input (no early exit), then checks the
      password confirmation, the email and the phone. Besides the verdict it
      returns the positions, among the required inputs, of those `validateField`
      rejected, in document order: the inputs the script marks with an error. */
  method ValidateForm(form: Form) returns (isValid: bool, rejected: seq<nat>)
    ensures isValid == FormAccepts(form)
    ensures forall j :: j in rejected <==> 0 <= j < |RequiredInputs(form)| && !ValidateField(RequiredInputs(form)[j])
    ensures forall a, b :: 0 <= a < b < |rejected| ==> rejected[a] < rejected[b]
  {
    var inputs := RequiredInputs(form);
    isValid, rejected := CheckEach(inputs, ValidateField);

    var password := QuerySelector(form, NameIs(PasswordName));
    var confirm := QuerySelector(form, NameIs(ConfirmName));
    if password.Some? && confirm.Some? {
      if password.value.value != confirm.value.value {
        isValid := false;
      }
    }

    var email := QuerySelector(form, TypeIs(EmailType));
    if email.Some? && email.value.value != [] {
      if !Matches(EmailPattern, email.value.value) {
        isValid := false;
      }
    }

    var phone := QuerySelector(form, NameIs(PhoneName));
    if phone.Some? && phone.value.value != [] {
      if !Matches(PhonePattern, phone.value.value) {
        isValid := false;
      }
    }
  }

  // ---------------------------------------------------------------------------
  // Properties of the verdict

  /** Every required input passing, stated over the form itself. */
  lemma AllRequiredPass(form: Form)
    ensures AllPass(RequiredInputs(form), ValidateField) <==> forall f :: f in form && f.required ==> ValidateField(f)
  {
    var inputs := RequiredInputs(form);
    if AllPass(inputs, ValidateField) {
      forall f | f in form && f.required ensures ValidateField(f) {
        var j :| 0 <= j < |inputs| && inputs[j] == f;
      }
    }
    if forall f :: f in form && f.required ==> ValidateField(f) {
      forall j | 0 <= j < |inputs| ensures ValidateField(inputs[j]) {
        assert inputs[j] in inputs;
      }
    }
  }

  /** The verdict in plain terms: every required input passes `validateField`, the
      passwords agree, the first email input's raw value (if non-empty) has the
      email shape, and the first phone input's value (if non-empty) is `ddd-ddd-dddd`. */
  lemma FormAcceptsIff(form: Form)
    ensures FormAccepts(form) <==>
      (forall f :: f in form && f.required ==> ValidateField(f)) &&
      PasswordsMatch(form) &&
      (forall e :: QuerySelector(form, TypeIs(EmailType)) == Some(e) && e.value != [] ==> IsEmailShape(e.value)) &&
      (forall p :: QuerySelector(form, NameIs(PhoneName)) == Some(p) && p.value != [] ==> IsPhoneShape(p.value))
  {
    AllRequiredPass(form);
    var email := QuerySelector(form, TypeIs(EmailType));
    if email.Some? {
      EmailPatternIff(email.value.value);
    }
    var phone := QuerySelector(form, NameIs(PhoneName));
    if phone.Some? {
      PhonePatternIff(phone.value.value);
    }
  }

  /** Differing password and confirmation values reject the form, with no trimming. */
  lemma PasswordMismatchRejected(form: Form, p: Input, c: Input)
    requires QuerySelector(form, NameIs(PasswordName)) == Some(p) && QuerySelector(form, NameIs(ConfirmName)) == Some(c)
    requires p.value != c.value
    ensures !FormAccepts(form)
  {
  }

  /** A blank or missing phone never rejects the form; a non-empty one that is not
      `ddd-ddd-dddd` always does. */
  lemma PhoneOnlyCheckedWhenPresent(form: Form)
    ensures (forall p :: QuerySelector(form, NameIs(PhoneName)) == Some(p) ==> p.value == []) ==> PhoneAccepted(form)
    ensures (exists p :: QuerySelector(form, NameIs(PhoneName)) == Some(p) && p.value != [] && !IsPhoneShape(p.value)) ==>
            !FormAccepts(form)
  {
    if QuerySelector(form, NameIs(PhoneName)).Some? {
      PhonePatternIff(QuerySelector(form, NameIs(PhoneName)).value.value);
    }
  }

  /** The form checks the untrimmed email value, so leading or trailing whitespace
      rejects the form even though `validateField` trims it away. */
  lemma EmailSurroundingSpaceRejected(form: Form, e: Input)
    requires QuerySelector(form, TypeIs(EmailType)) == Some(e) && e.value != []
    requires IsSpace(e.value[0]) || IsSpace(e.value[|e.value| - 1])
    ensures !FormAccepts(form)
  {
    EmailPatternIff(e.value);
  }

  /** The two email checks disagree: an email input holding a well-formed address
      behind a no-break space (U+00A0) passes `validateField`, which trims it, and
      the form containing it is still rejected, because the form tests the raw
      value. A browser's own cleanup of an email input's value strips only ASCII
      whitespace, so this value does reach the script. */
  lemma EmailTrimDisagreement(name: string, address: string, required: bool)
    requires IsEmailShape(address)
    ensures var e := Input(name, EmailType, ['\U{A0}'] + address, required);
            ValidateField(e) && !FormAccepts([e])
  {
    var e := Input(name, EmailType, ['\U{A0}'] + address, required);
    TrimLeadingSpace('\U{A0}', address);
    ValidateFieldCases(e);
    assert QuerySelector([e], TypeIs(EmailType)) == Some(e);
    EmailSurroundingSpaceRejected([e], e);
  }
}
