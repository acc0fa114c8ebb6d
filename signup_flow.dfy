/** `validateSignupForm` and the sign-up submit handler: the six inputs are
    validated, the terms box is looked at, and the trimmed email is looked up
    in the user store before `addUser` is called with the trimmed fields. */
module SignupFlow {
  import opened Wrappers
  import opened JsString
  import opened Patterns
  import opened Validation
  import opened Auth

  /** The sign-up page: its six inputs and the terms checkbox (`None` when the
      page has none, otherwise whether it is ticked). */
  datatype SignupPage = SignupPage(
    firstName: Field,
    lastName: Field,
    email: Field,
    phone: Field,
    password: Field,
    confirmPassword: Field,
    terms: Option<bool>)

  /** The inputs in the order the form looks them up. */
  function Inputs(page: SignupPage): seq<Option<Field>> {
    [Some(page.firstName), Some(page.lastName), Some(page.email),
     Some(page.phone), Some(page.password), Some(page.confirmPassword)]
  }

  /** Every input passes `validateField`. */
  predicate InputsPass(page: SignupPage) {
    var pw := page.password.value;
    && ValidateField(page.firstName, pw).Accepted?
    && ValidateField(page.lastName, pw).Accepted?
    && ValidateField(page.email, pw).Accepted?
    && ValidateField(page.phone, pw).Accepted?
    && ValidateField(page.password, pw).Accepted?
    && ValidateField(page.confirmPassword, pw).Accepted?
  }

  /** The loop over `Inputs(page)` passes exactly when every input does. */
  lemma InputsPassAll(page: SignupPage)
    ensures AllPass(Inputs(page), page.password.value) <==> InputsPass(page)
  {
    if AllPass(Inputs(page), page.password.value) {
      AllPassGivesEach(page);
    }
    if InputsPass(page) {
      EachGivesAllPass(page);
    }
  }

  lemma AllPassGivesEach(page: SignupPage)
    requires AllPass(Inputs(page), page.password.value)
    ensures InputsPass(page)
  {
    var inputs := Inputs(page);
    assert inputs[0].value == page.firstName && inputs[1].value == page.lastName;
    assert inputs[2].value == page.email && inputs[3].value == page.phone;
    assert inputs[4].value == page.password && inputs[5].value == page.confirmPassword;
  }

  lemma EachGivesAllPass(page: SignupPage)
    requires InputsPass(page)
    ensures AllPass(Inputs(page), page.password.value)
  {
    var inputs := Inputs(page);
    assert inputs[0].value == page.firstName && inputs[1].value == page.lastName;
    assert inputs[2].value == page.email && inputs[3].value == page.phone;
    assert inputs[4].value == page.password && inputs[5].value == page.confirmPassword;
  }

  /** The profile the submit handler hands to `addUser`: trimmed fields and
      the password as typed. */
  function ProfileFrom(page: SignupPage): Profile {
    Profile(Trim(page.firstName.value), Trim(page.lastName.value), Trim(page.email.value),
            Trim(page.phone.value), page.password.value)
  }

  /** `validateSignupForm()`: all inputs are validated, then an unticked terms
      box or an email already in the store makes the form invalid. */
  method ValidateSignupForm(page: SignupPage, store: AuthSystem) returns (ok: bool)
    ensures ok <==> InputsPass(page) && page.terms != Some(false) && !EmailTaken(store.Users(), ProfileFrom(page).email)
  {
    var verdicts;
    ok, verdicts := ValidateAll(Inputs(page), page.password.value);
    InputsPassAll(page);
    if page.terms == Some(false) {
      ok := false;
    }
    if ok {
      var users := store.Users();
      if FindByEmail(users, Trim(page.email.value)).Some? {
        ok := false;
      }
    }
  }

  /** The page as the sign-up form builds it: each input named as its id and
      with its error element. */
  predicate StandardPage(page: SignupPage) {
    && page.firstName.kind == KindOf("firstName") && page.lastName.kind == KindOf("lastName")
    && page.email.kind == KindOf("email") && page.phone.kind == KindOf("phone")
    && page.password.kind == KindOf("password") && page.confirmPassword.kind == KindOf("confirmPassword")
    && page.firstName.hasErrorSlot && page.lastName.hasErrorSlot && page.email.hasErrorSlot
    && page.phone.hasErrorSlot && page.password.hasErrorSlot && page.confirmPassword.hasErrorSlot
  }

  /** What an accepted standard sign-up form guarantees about the profile
      handed to `addUser`: valid names and phone, a well-formed email that no
      stored record carries, a non-empty password typed twice, and a strong
      one once trimmed. */
  lemma AcceptedSignupProfile(page: SignupPage, users: seq<User>)
    requires StandardPage(page)
    ensures InputsPass(page) && !EmailTaken(users, ProfileFrom(page).email) ==>
      var p := ProfileFrom(page);
      && IsValidName(p.firstName) && IsValidName(p.lastName)
      && WellFormedEmail(p.email)
      && PhoneShape(p.phone)
      && IsStrongPassword(Trim(p.password))
      && p.password != [] && Trim(page.confirmPassword.value) == p.password
      && !EmailTaken(users, p.email)
  {
    var pw := page.password.value;
    if !InputsPass(page) {
      return;
    }
    KindOfSwitch([], [], pw);
    AcceptedFieldMeans(page.firstName, pw);
    AcceptedFieldMeans(page.lastName, pw);
    AcceptedFieldMeans(page.email, pw);
    AcceptedFieldMeans(page.phone, pw);
    AcceptedFieldMeans(page.password, pw);
    AcceptedFieldMeans(page.confirmPassword, pw);
  }

  /** The submit handler on an accepted standard form: `addUser` succeeds,
      and `setCurrentUser` then logs the new user in. */
  method SubmitSignup(page: SignupPage, store: AuthSystem, now: nat, stamp: string) returns (accepted: bool, r: Option<Result<User, AuthError>>)
    modifies store
    ensures accepted <==> InputsPass(page) && page.terms != Some(false) && !EmailTaken(old(store.Users()), ProfileFrom(page).email)
    ensures !accepted ==> r == None && store.usersEntry == old(store.usersEntry) && store.sessionEntry == old(store.sessionEntry)
    ensures accepted ==>
      && r.Some? && r.value.Success?
      && store.Users() == old(store.Users()) + [r.value.value]
      && store.CurrentUser() == Some(r.value.value)
      && r.value.value == NewRecord(ProfileFrom(page), now, stamp)
      && ProfileOf(r.value.value) == ProfileFrom(page)
  {
    accepted := ValidateSignupForm(page, store);
    if !accepted {
      return accepted, None;
    }
    var added := store.AddUser(ProfileFrom(page), now, stamp);
    if added.Success? {
      store.SetCurrentUser(added.value);
    }
    r := Some(added);
  }
}
