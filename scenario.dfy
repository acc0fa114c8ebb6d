/** A client of the user store: one sign-up followed by a repeated sign-up, a
    wrong password and a correct login, on a fresh browser profile. */
module Scenario {
  import opened Wrappers
  import opened Auth

  method AmyScenario() returns (first: Result<User, AuthError>, again: Result<User, AuthError>,
                                wrong: Result<User, AuthError>, right: Result<User, AuthError>)
    ensures first.Success? && first.value.email == "amy@x.com" && first.value.lastLogin == None
    ensures again == Failure(EmailExists)
    ensures wrong == Failure(InvalidPassword)
    ensures right.Success? && right.value.id == first.value.id && right.value.lastLogin == Some("t4")
  {
    var store := new AuthSystem(None, None);
    assert store.Users() == [];
    var amy := Profile("Amy", "Lee", "amy@x.com", "555-1234", "Abcdef12");
    first := store.AddUser(amy, 1700000000000, "t1");
    assert store.Users() == [first.value];
    assert EmailTaken(store.Users(), amy.email) by { assert store.Users()[0].email == amy.email; }
    again := store.AddUser(amy, 1700000000001, "t2");
    assert store.Users() == [first.value];
    wrong := store.Authenticate("amy@x.com", "wrong", "t3");
    assert store.Users() == [first.value];
    right := store.Authenticate("amy@x.com", "Abcdef12", "t4");
  }
}
