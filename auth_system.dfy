/** `AuthSystem`: the list of registered users and the "current user" slot,
    both kept in the browser's local storage under `smarthome_users` and
    `smarthome_current_user`. What is saved under a key is what is read back
    from it; the JSON encoding in between is not modelled. */
module Auth {
  import opened Wrappers
  import opened JsString

  /** A stored user record. `id` is the creation time in milliseconds written
      in decimal; `createdAt` and `lastLogin` are ISO time stamps. */
  datatype User = User(
    id: string,
    firstName: string,
    lastName: string,
    email: string,
    phone: string,
    password: string,
    createdAt: string,
    lastLogin: Option<string>)

  /** What the sign-up form hands to `addUser`. */
  datatype Profile = Profile(firstName: string, lastName: string, email: string, phone: string, password: string)

  /** The errors `addUser` and `authenticateUser` throw. */
  datatype AuthError = EmailExists | UserNotFound | InvalidPassword

  /** The `message` of each error, which the forms display. */
  function ErrorMessage(e: AuthError): string {
    match e
    case EmailExists => "Email already exists"
    case UserNotFound => "User not found"
    case InvalidPassword => "Invalid password"
  }

  /** The displayed text tells the three errors apart. */
  lemma ErrorMessagesDistinct(e1: AuthError, e2: AuthError)
    ensures ErrorMessage(e1) != [] && (ErrorMessage(e1) == ErrorMessage(e2) <==> e1 == e2)
  {
    if e1 != e2 {
      assert ErrorMessage(e1)[0] != ErrorMessage(e2)[0] || |ErrorMessage(e1)| != |ErrorMessage(e2)|;
    }
  }

  /** The profile a stored record was created from. */
  function ProfileOf(u: User): Profile {
    Profile(u.firstName, u.lastName, u.email, u.phone, u.password)
  }

  /** Some record carries this email (compared exactly, as `===` does). */
  predicate EmailTaken(users: seq<User>, email: string) {
    exists j :: 0 <= j < |users| && users[j].email == email
  }

  /** No two records share an email. */
  predicate EmailsUnique(users: seq<User>) {
    forall i, j :: 0 <= i < j < |users| ==> users[i].email != users[j].email
  }

  /** `users.find(user => user.email === email)`, as the index of the record
      it returns: the first one with that email, or none. */
  function FindByEmail(users: seq<User>, email: string): (r: Option<nat>)
    ensures r.Some? ==> r.value < |users| && users[r.value].email == email
    ensures r.Some? ==> forall j :: 0 <= j < r.value ==> users[j].email != email
    ensures r.None? <==> !EmailTaken(users, email)
  {
    if users == [] then None
    else if users[0].email == email then Some(0)
    else
      match FindByEmail(users[1..], email)
      case None => (assert forall j :: 1 <= j < |users| ==> users[j] == users[1..][j - 1]; None)
      case Some(i) => Some(i + 1)
  }

  /** With unique emails, the record `find` returns is the only one with that
      email. */
  lemma FindByEmailUnique(users: seq<User>, email: string, k: nat)
    requires EmailsUnique(users)
    requires k < |users| && users[k].email == email
    ensures FindByEmail(users, email) == Some(k)
  {
    var r := FindByEmail(users, email);
    assert r.Some?;
    assert r.value <= k;
  }

  /** The record `addUser` builds: a new id from the clock, the profile's
      fields, the creation stamp and no login yet. */
  function NewRecord(p: Profile, now: nat, stamp: string): User {
    User(DecimalString(now), p.firstName, p.lastName, p.email, p.phone, p.password, stamp, None)
  }

  /** Appending a record whose email is not taken keeps emails unique. */
  lemma AppendKeepsUnique(users: seq<User>, u: User)
    requires EmailsUnique(users) && !EmailTaken(users, u.email)
    ensures EmailsUnique(users + [u])
  {
    var all := users + [u];
    forall i, j | 0 <= i < j < |all| ensures all[i].email != all[j].email {
      if j == |users| {
        assert all[i] == users[i];
      } else {
        assert all[i] == users[i] && all[j] == users[j];
      }
    }
  }

  /** The list after a successful login: the record at `k` gets `lastLogin`,
      everything else stays as it was. */
  function Touched(users: seq<User>, k: nat, stamp: string): (r: seq<User>)
    requires k < |users|
    ensures |r| == |users|
    ensures r[k] == users[k].(lastLogin := Some(stamp))
    ensures forall j :: 0 <= j < |users| && j != k ==> r[j] == users[j]
  {
    users[k := users[k].(lastLogin := Some(stamp))]
  }

  /** Recording a login changes no email, so uniqueness is kept. */
  lemma TouchedKeepsUnique(users: seq<User>, k: nat, stamp: string)
    requires k < |users| && EmailsUnique(users)
    ensures EmailsUnique(Touched(users, k, stamp))
  {
    var r := Touched(users, k, stamp);
    assert forall j :: 0 <= j < |users| ==> r[j].email == users[j].email;
  }

  /** The outcome of `authenticateUser` on a list: the error it throws, or the
      index of the record whose login it records. */
  function LoginOutcome(users: seq<User>, email: string, password: string): Result<nat, AuthError> {
    match FindByEmail(users, email)
    case None => Failure(UserNotFound)
    case Some(k) => if users[k].password != password then Failure(InvalidPassword) else Success(k)
  }

  /** With unique emails, a login succeeds exactly when some record carries
      both the email and the password, and it then records the login on that
      record. */
  lemma LoginSucceedsIff(users: seq<User>, email: string, password: string)
    requires EmailsUnique(users)
    ensures LoginOutcome(users, email, password).Success? <==>
      exists k :: 0 <= k < |users| && users[k].email == email && users[k].password == password
    ensures forall k :: 0 <= k < |users| && users[k].email == email && users[k].password == password ==>
      LoginOutcome(users, email, password) == Success(k)
  {
    forall k | 0 <= k < |users| && users[k].email == email && users[k].password == password
      ensures LoginOutcome(users, email, password) == Success(k)
    {
      FindByEmailUnique(users, email, k);
    }
  }

  /** Right after a sign-up on a list with unique emails, logging in with the
      new email and its password succeeds on the new record. */
  lemma SignupThenLogin(users: seq<User>, p: Profile, now: nat, stamp: string)
    requires !EmailTaken(users, p.email)
    ensures LoginOutcome(users + [NewRecord(p, now, stamp)], p.email, p.password) == Success(|users|)
  {
    var all := users + [NewRecord(p, now, stamp)];
    assert forall j :: 0 <= j < |users| ==> all[j] == users[j];
    assert all[|users|].email == p.email;
  }

  /** The user store and the session slot of one browser profile. */
  class AuthSystem {
    /** What is stored under `smarthome_users`, `None` while the key is absent. */
    var usersEntry: Option<seq<User>>
    /** What is stored under `smarthome_current_user`, `None` while absent. */
    var sessionEntry: Option<User>

    /** A page load over whatever the browser profile already stores; on an
        empty profile `getUsers()` is the empty list and nobody is logged in. */
    constructor (users: Option<seq<User>>, session: Option<User>)
      ensures usersEntry == users && sessionEntry == session
      ensures users.None? ==> Users() == []
      ensures users.Some? ==> Users() == users.value
      ensures session.None? <==> !IsLoggedIn()
    {
      usersEntry := users;
      sessionEntry := session;
    }

    /** `getUsers()`: the stored list, or the empty list when nothing has been
      stored yet. */
    function Users(): seq<User>
      reads this
    {
      if usersEntry.Some? then usersEntry.value else []
    }

    /** `saveUsers(users)`: the whole list replaces what was stored, and reading
        it back gives the same list. */
    method SaveUsers(users: seq<User>)
      modifies this
      ensures usersEntry == Some(users) && sessionEntry == old(sessionEntry)
      ensures Users() == users
    {
      usersEntry := Some(users);
    }

    /** `addUser(userData)`. A taken email throws and nothing is saved;
        otherwise exactly one record, built from the profile and the clock, is
        appended and the list saved. `now` is what `Date.now()` returns and
        `stamp` what `new Date().toISOString()` returns. */
    method AddUser(p: Profile, now: nat, stamp: string) returns (r: Result<User, AuthError>)
      modifies this
      ensures sessionEntry == old(sessionEntry)
      ensures EmailTaken(old(Users()), p.email) ==>
        r == Failure(EmailExists) && usersEntry == old(usersEntry)
      ensures !EmailTaken(old(Users()), p.email) ==>
        && r.Success?
        && ProfileOf(r.value) == p
        && r.value.id == DecimalString(now)
        && r.value.createdAt == stamp
        && r.value.lastLogin == None
        && usersEntry == Some(old(Users()) + [r.value])
      ensures EmailsUnique(old(Users())) ==> EmailsUnique(Users())
    {
      var users := Users();
      if FindByEmail(users, p.email).Some? {
        return Failure(EmailExists);
      }
      var u := NewRecord(p, now, stamp);
      AppendKeepsUniqueWhen(users, u);
      users := users + [u];
      SaveUsers(users);
      r := Success(u);
    }

    /** `authenticateUser(email, password)`. No record with the email, or a
        different password on the first one, throws and saves nothing;
        otherwise that record alone gets `lastLogin := stamp`, the list is
        saved, and the updated record is returned. */
    method Authenticate(email: string, password: string, stamp: string) returns (r: Result<User, AuthError>)
      modifies this
      ensures sessionEntry == old(sessionEntry)
      ensures !EmailTaken(old(Users()), email) ==>
        r == Failure(UserNotFound) && usersEntry == old(usersEntry)
      ensures LoginOutcome(old(Users()), email, password) == Failure(InvalidPassword) ==>
        r == Failure(InvalidPassword) && usersEntry == old(usersEntry)
      ensures LoginOutcome(old(Users()), email, password).Success? ==>
        var k := LoginOutcome(old(Users()), email, password).value;
        && k < |old(Users())|
        && old(Users())[k].email == email && old(Users())[k].password == password
        && |Users()| == |old(Users())|
        && Users()[k] == old(Users())[k].(lastLogin := Some(stamp))
        && (forall j :: 0 <= j < |Users()| && j != k ==> Users()[j] == old(Users())[j])
        && usersEntry.Some?
        && r == Success(Users()[k])
      ensures r.Failure? <==> LoginOutcome(old(Users()), email, password).Failure?
      ensures EmailsUnique(old(Users())) ==> EmailsUnique(Users())
    {
      var users := Users();
      var found := FindByEmail(users, email);
      if found.None? {
        return Failure(UserNotFound);
      }
      var k := found.value;
      if users[k].password != password {
        return Failure(InvalidPassword);
      }
      TouchedKeepsUniqueWhen(users, k, stamp);
      users := Touched(users, k, stamp);
      SaveUsers(users);
      r := Success(users[k]);
    }

    /** `getCurrentUser()`: the stored session record, or none. */
    function CurrentUser(): Option<User>
      reads this
    {
      sessionEntry
    }

    /** `setCurrentUser(user)`: afterwards `getCurrentUser()` returns `u` and
        the user is logged in; the user list is untouched. */
    method SetCurrentUser(u: User)
      modifies this
      ensures usersEntry == old(usersEntry)
      ensures CurrentUser() == Some(u) && IsLoggedIn()
    {
      sessionEntry := Some(u);
    }

    /** The storage part of `logout()`: the session key is removed, so nobody
        is logged in; the user list is untouched. */
    method Logout()
      modifies this
      ensures usersEntry == old(usersEntry)
      ensures CurrentUser() == None && !IsLoggedIn()
    {
      sessionEntry := None;
    }

    /** `isLoggedIn()`: `getCurrentUser()` is not null. */
    predicate IsLoggedIn()
      reads this
    {
      CurrentUser() != None
    }
  }

  lemma AppendKeepsUniqueWhen(users: seq<User>, u: User)
    requires !EmailTaken(users, u.email)
    ensures EmailsUnique(users) ==> EmailsUnique(users + [u])
  {
    if EmailsUnique(users) {
      AppendKeepsUnique(users, u);
    }
  }

  lemma TouchedKeepsUniqueWhen(users: seq<User>, k: nat, stamp: string)
    requires k < |users|
    ensures EmailsUnique(users) ==> EmailsUnique(Touched(users, k, stamp))
  {
    if EmailsUnique(users) {
      TouchedKeepsUnique(users, k, stamp);
    }
  }
}
