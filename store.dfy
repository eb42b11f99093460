/** The persisted user list as one object: registration validates against it and appends,
    login reads it. Loading and saving are the constructor and the field assignment. */
module Store {
  import opened Text
  import opened Users
  import opened Registration
  import opened Login

  class UserStore {
    /** The records in the order they were registered. */
    var users: seq<UserRecord>

    /** The list as loaded when the page starts. */
    constructor(stored: seq<UserRecord>)
      ensures users == stored
    {
      users := stored;
    }

    /** Runs the registration chain against the current list; a successful registration appends
        exactly its record at the end and keeps every earlier record, any refusal leaves the list
        as it was, and the invariant of a well-formed list is kept. */
    method Register(form: RegistrationForm) returns (outcome: RegOutcome)
      modifies this
      ensures outcome == ValidateRegistration(form, old(users))
      ensures outcome.Registered? ==> users == old(users) + [outcome.record]
      ensures outcome.Rejected? ==> users == old(users)
      ensures outcome.Registered? ==> !IsTaken(old(users), outcome.record.username)
      ensures StoreInvariant(old(users)) ==> StoreInvariant(users)
    {
      outcome := ValidateRegistration(form, users);
      if outcome.Registered? {
        RegisteredRecord(form, users);
        if StoreInvariant(users) {
          RegistrationKeepsInvariant(form, users);
        }
        users := users + [outcome.record];
      }
    }

    /** Runs the login check against the current list, which it does not change. */
    method LogIn(form: LoginForm) returns (outcome: LoginOutcome)
      ensures outcome == CheckLogin(form, users)
      ensures users == old(users)
      ensures outcome.LoggedIn? ==> outcome.user in users && outcome.user.password == form.password
    {
      outcome := CheckLogin(form, users);
    }
  }

  /** Right after a successful registration, logging in with the same username, in any letter
      case and with any surrounding whitespace, and the same password succeeds on that record. */
  lemma {:induction false} RegisteredUserCanLogIn(form: RegistrationForm, users: seq<UserRecord>, login: LoginForm)
    requires ValidateRegistration(form, users).Registered?
    requires ToLower(Trim(login.username)) == ToLower(Trim(form.username))
    requires login.password == form.password
    ensures var r := ValidateRegistration(form, users).record;
      CheckLogin(login, users + [r]) == LoggedIn(r, login.persist)
  {
    var r := ValidateRegistration(form, users).record;
    RegisteredRecord(form, users);
    TakenIsCheckedLast(form, users);
    FindUserAppend(users, r, r.username);
    assert Trim(form.username) != "";
    assert form.password != "";
  }
}
