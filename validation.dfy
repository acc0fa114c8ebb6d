/** `validateField`, `validateEmail` and the loop of `validateContactForm`:
    the checks the sign-up, login and contact forms run on each input before
    anything reaches the user store. The DOM is reduced to what the checks
    read: an input's `name` attribute, its `value`, and whether the page has
    an element for its error text. */
module Validation {
  import opened Wrappers
  import opened JsString
  import opened Patterns

  /** The cases of the `switch` on the input's `name`. */
  datatype FieldKind =
    | PersonName            // "firstName", "lastName"
    | EmailAddress          // "email"
    | PhoneNumber           // "phone"
    | NewPassword           // "password"
    | PasswordConfirmation  // "confirmPassword"
    | Unchecked             // any other name: no case applies

  /** The case an input's `name` attribute selects, compared exactly. */
  function KindOf(name: string): FieldKind {
    if name == "firstName" || name == "lastName" then PersonName
    else if name == "email" then EmailAddress
    else if name == "phone" then PhoneNumber
    else if name == "password" then NewPassword
    else if name == "confirmPassword" then PasswordConfirmation
    else Unchecked
  }

  /** The names the `switch` has a case for. */
  predicate IsSwitchName(name: string) {
    name in ["firstName", "lastName", "email", "phone", "password", "confirmPassword"]
  }

  /** The two name inputs share a case, every other listed name has a case of
      its own, and a name the `switch` does not list leaves `isValid` true
      whatever the value. */
  lemma KindOfSwitch(name: string, value: string, password: string)
    ensures KindOf(name) != Unchecked <==> IsSwitchName(name)
    ensures !IsSwitchName(name) ==> CheckValue(KindOf(name), value, password) == Accepted
    ensures KindOf("firstName") == KindOf("lastName") == PersonName
    ensures KindOf("email") == EmailAddress && KindOf("phone") == PhoneNumber
    ensures KindOf("password") == NewPassword && KindOf("confirmPassword") == PasswordConfirmation
  {
  }

  /** An input element: the `switch` case its `name` selects, its raw
      `value`, and whether the page holds an element with id `name + "Error"`. */
  datatype Field = Field(kind: FieldKind, value: string, hasErrorSlot: bool)

  /** What a check decides: `isValid`, and the error text when it is false. */
  datatype Verdict = Accepted | Rejected(message: string)

  /** The `switch` of `validateField` on the already trimmed `value`; the
      first failing test decides the message. `password` is the raw value of
      the page's `password` input, read only by the confirmation case. */
  function CheckValue(kind: FieldKind, value: string, password: string): Verdict {
    match kind
    case PersonName =>
      if value == [] then Rejected("This field is required")
      else if CodeUnits(value) < 2 then Rejected("Must be at least 2 characters")
      else if !NamePattern(value) then Rejected("Only letters and spaces allowed")
      else Accepted
    case EmailAddress =>
      if value == [] then Rejected("Email is required")
      else if !EmailPattern(value) then Rejected("Please enter a valid email address")
      else Accepted
    case PhoneNumber =>
      if value == [] then Rejected("Phone number is required")
      else if !PhonePattern(value) then Rejected("Please enter a valid phone number")
      else Accepted
    case NewPassword =>
      if value == [] then Rejected("Password is required")
      else if CodeUnits(value) < 8 then Rejected("Password must be at least 8 characters")
      else if !PasswordPattern(value) then Rejected("Password must contain uppercase, lowercase, and number")
      else Accepted
    case PasswordConfirmation =>
      if value == [] then Rejected("Please confirm your password")
      else if value != password then Rejected("Passwords do not match")
      else Accepted
    case Unchecked => Accepted
  }

  /** `validateField(field)`: an input without an error element passes
      unchecked; otherwise its trimmed value goes through the `switch`. */
  function ValidateField(f: Field, password: string): Verdict {
    if !f.hasErrorSlot then Accepted else CheckValue(f.kind, Trim(f.value), password)
  }

  /** `validateEmail(email)`: the email pattern on the value as given. */
  predicate ValidateEmail(email: string) {
    EmailPattern(email)
  }

  // ------------------------------------------------------------ the rules

  /** A name the sign-up form accepts: at least two characters, ASCII letters
      and spaces only. */
  predicate IsValidName(v: string) {
    |v| >= 2 && forall i :: 0 <= i < |v| ==> IsAsciiLetter(v[i]) || IsSpace(v[i])
  }

  /** At least 8 UTF-16 code units, with a lowercase letter, an uppercase
      letter and a digit. */
  predicate IsStrongPassword(v: string) {
    CodeUnits(v) >= 8 && Contains(v, Lowercase) && Contains(v, Uppercase) && Contains(v, Digit)
  }

  /** A first or last name passes exactly when it is non-empty, at least two
      characters long and made only of ASCII letters and spaces. Each message
      belongs to the first test that fails. */
  lemma NameRule(value: string, password: string)
    ensures CheckValue(PersonName, value, password).Accepted? <==> IsValidName(value)
    ensures CheckValue(PersonName, value, password) == Rejected("This field is required") <==> value == []
    ensures |value| == 1 && value[0] as int < 0x10000 ==>
      CheckValue(PersonName, value, password) == Rejected("Must be at least 2 characters")
  {
    NamePatternIff(value);
    if forall i :: 0 <= i < |value| ==> IsAsciiLetter(value[i]) || IsSpace(value[i]) {
      assert forall i :: 0 <= i < |value| ==> value[i] as int < 0x10000;
    }
  }

  /** The email case of `validateField` and `validateEmail` agree on every
      input, and both accept exactly the well-formed addresses. */
  lemma EmailRule(value: string, password: string)
    ensures CheckValue(EmailAddress, value, password).Accepted? <==> ValidateEmail(value)
    ensures ValidateEmail(value) <==> WellFormedEmail(value)
  {
    EmailPatternIff(value);
  }

  /** A phone number passes exactly when it is an optional `+` followed by one
      or more digits, spaces, `-`, `(` and `)`. */
  lemma PhoneRule(value: string, password: string)
    ensures CheckValue(PhoneNumber, value, password).Accepted? <==> PhoneShape(value)
  {
    PhonePatternIff(value);
  }

  /** A password passes only when it is at least 8 code units long and holds
      a lowercase letter, an uppercase letter and a digit; on a single line
      that is also enough. */
  lemma PasswordRule(value: string, password: string)
    ensures CheckValue(NewPassword, value, password).Accepted? ==> IsStrongPassword(value)
    ensures NoLineTerminator(value) ==>
      (CheckValue(NewPassword, value, password).Accepted? <==> IsStrongPassword(value))
  {
    if CheckValue(NewPassword, value, password).Accepted? {
      PasswordPatternSound(value);
    }
    if NoLineTerminator(value) && CodeUnits(value) >= 8
      && Contains(value, Lowercase) && Contains(value, Uppercase) && Contains(value, Digit) {
      PasswordPatternComplete(value);
    }
  }

  /** The confirmation passes exactly when its trimmed value is the password
      as typed, and that is not empty. */
  lemma ConfirmationRule(f: Field, password: string)
    requires f.hasErrorSlot && f.kind == PasswordConfirmation
    ensures ValidateField(f, password).Accepted? <==> password != [] && Trim(f.value) == password
  {
  }

  /** What an accepted input with an error element says about its trimmed
      value, case by case. */
  lemma AcceptedFieldMeans(f: Field, password: string)
    requires f.hasErrorSlot && ValidateField(f, password).Accepted?
    ensures f.kind == PersonName ==> IsValidName(Trim(f.value))
    ensures f.kind == EmailAddress ==> WellFormedEmail(Trim(f.value))
    ensures f.kind == PhoneNumber ==> PhoneShape(Trim(f.value))
    ensures f.kind == NewPassword ==> IsStrongPassword(Trim(f.value))
    ensures f.kind == PasswordConfirmation ==> password != [] && Trim(f.value) == password
  {
    var v := Trim(f.value);
    match f.kind
    case PersonName => NameRule(v, password);
    case EmailAddress => EmailRule(v, password);
    case PhoneNumber => PhoneRule(v, password);
    case NewPassword => PasswordRule(v, password);
    case PasswordConfirmation =>
    case Unchecked =>
  }

  /** The confirmation is compared after trimming but the password is not, so
      a password that starts or ends with a space can never be confirmed. */
  lemma PaddedPasswordNeverConfirms(f: Field, password: string)
    requires f.hasErrorSlot && f.kind == PasswordConfirmation
    requires password != [] && (IsSpace(password[0]) || IsSpace(password[|password| - 1]))
    ensures ValidateField(f, password).Rejected?
  {
    TrimSpec(f.value);
  }

  /** `validateField` judges the trimmed value: surrounding spaces never
      change the verdict. */
  lemma ValidateFieldIgnoresPadding(f: Field, before: string, after: string, password: string)
    requires AllSpace(before) && AllSpace(after)
    ensures ValidateField(f.(value := before + f.value + after), password) == ValidateField(f, password)
  {
    TrimPadded(f.value, before, after);
  }

  // ------------------------------------------------------------ forms

  /** Every input present passes `validateField`. */
  predicate AllPass(fields: seq<Option<Field>>, password: string) {
    forall i :: 0 <= i < |fields| && fields[i].Some? ==> ValidateField(fields[i].value, password).Accepted?
  }

  /** The `forEach` of `validateSignupForm` and `validateContactForm`: every
      input that exists is validated, none is skipped once one has failed, and
      the form is valid when all of them pass. `None` is an id the page lacks. */
  method ValidateAll(fields: seq<Option<Field>>, password: string) returns (ok: bool, verdicts: seq<Option<Verdict>>)
    ensures |verdicts| == |fields|
    ensures forall i :: 0 <= i < |fields| ==>
      verdicts[i] == if fields[i].None? then None else Some(ValidateField(fields[i].value, password))
    ensures ok <==> AllPass(fields, password)
  {
    ok := true;
    verdicts := [];
    var n := 0;
    while n < |fields|
      invariant 0 <= n <= |fields|
      invariant |verdicts| == n
      invariant forall i :: 0 <= i < n ==>
        verdicts[i] == if fields[i].None? then None else Some(ValidateField(fields[i].value, password))
      invariant ok <==> forall i :: 0 <= i < n && fields[i].Some? ==> ValidateField(fields[i].value, password).Accepted?
    {
      if fields[n].None? {
        verdicts := verdicts + [None];
      } else {
        var v := ValidateField(fields[n].value, password);
        if v.Rejected? {
          ok := false;
        }
        verdicts := verdicts + [Some(v)];
      }
      n := n + 1;
    }
  }

  /** No input of the page is named "confirmPassword": the login and contact
      pages have no `password` input for that case to read. */
  predicate NoConfirmation(fields: seq<Option<Field>>) {
    forall i :: 0 <= i < |fields| && fields[i].Some? ==> fields[i].value.kind != PasswordConfirmation
  }

  /** `validateLoginForm`: the email input through `validateField`, then a
      password that is not blank. */
  predicate LoginAccepted(email: Field, password: Field)
    requires email.kind != PasswordConfirmation
  {
    ValidateField(email, []).Accepted? && Trim(password.value) != []
  }

  /** With an error element for it and the name "email", the login form is
      accepted exactly when it holds a well-formed address and a non-blank
      password. */
  lemma LoginAcceptedMeans(email: Field, password: Field)
    requires email.hasErrorSlot && email.kind == EmailAddress
    ensures LoginAccepted(email, password) <==> WellFormedEmail(Trim(email.value)) && !AllSpace(password.value)
  {
    EmailRule(Trim(email.value), []);
    TrimEmpty(password.value);
  }

  /** `validateContactForm`: the four inputs, then a chosen subject (`None`
      when the page has no subject element). */
  method ValidateContactForm(fields: seq<Option<Field>>, subject: Option<string>) returns (ok: bool)
    requires NoConfirmation(fields)
    ensures ok <==> AllPass(fields, []) && subject != Some([])
  {
    var verdicts;
    ok, verdicts := ValidateAll(fields, []);
    if subject.Some? && subject.value == [] {
      ok := false;
    }
  }
}
