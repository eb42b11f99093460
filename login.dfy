/** The login handler's decision logic: a blank-username check, a lookup of the lowered
    username in the stored list, a blank-password check and a password comparison. */
module Login {
  import opened Wrappers
  import opened Text
  import opened Users

  /** The raw values of the login form's fields; `persist` is the "remain logged in" box. */
  datatype LoginForm = LoginForm(username: string, password: string, persist: bool)

  /** One value per way the handler refuses a login. */
  datatype LoginError = BlankUsername | UnknownUsername | BlankPassword | WrongPassword

  datatype LoginOutcome = Refused(error: LoginError) | LoggedIn(user: UserRecord, persist: bool)

  /** The text shown when a login is refused for failing credentials, whichever half failed. */
  const InvalidCredentials := "Invalid username or password."

  /** The text shown for each refusal; an unknown name and a wrong password read the same. */
  function Message(e: LoginError): (r: string)
    ensures r == InvalidCredentials <==> e == UnknownUsername || e == WrongPassword
  {
    match e
    case BlankUsername => "Username cannot be blank."
    case UnknownUsername => InvalidCredentials
    case BlankPassword => "Password cannot be blank."
    case WrongPassword => InvalidCredentials
  }

  const SuccessText := "Login successful!"
  const PersistNotice := " You will remain logged in."

  /** The success text: the fixed greeting, with the persistence notice appended exactly
      when the box was ticked. */
  function SuccessMessage(persist: bool): (r: string)
    ensures |SuccessText| <= |r| && r[..|SuccessText|] == SuccessText
    ensures persist <==> EndsWith(r, PersistNotice)
    ensures !persist ==> r == SuccessText
    ensures |r| == |SuccessText| + (if persist then |PersistNotice| else 0)
  {
    if persist then SuccessText + PersistNotice else SuccessText
  }

  /** The decision of `validateLoginForm`: refusal reason, or the stored record that matched.
      A successful login names a stored record whose username is the lowered, trimmed input
      and whose password is the non-blank password typed. */
  function CheckLogin(form: LoginForm, users: seq<UserRecord>): (r: LoginOutcome)
    ensures r.LoggedIn? ==>
      r.user in users && r.user.username == ToLower(Trim(form.username))
      && r.user.password == form.password && form.password != "" && r.persist == form.persist
  {
    var name := ToLower(Trim(form.username));
    if name == "" then Refused(BlankUsername)
    else
      match FindUser(users, name)
      case None => Refused(UnknownUsername)
      case Some(user) =>
        if form.password == "" then Refused(BlankPassword)
        else if user.password != form.password then Refused(WrongPassword)
        else LoggedIn(user, form.persist)
  }

  /** The text the handler shows for an outcome; it starts with the greeting exactly when the
      login succeeded, so no refusal reads as a success. */
  function OutcomeMessage(o: LoginOutcome): (r: string)
    ensures o.Refused? ==> r == Message(o.error)
    ensures o.LoggedIn? ==> r == SuccessMessage(o.persist)
    ensures o.LoggedIn? <==> |SuccessText| <= |r| && r[..|SuccessText|] == SuccessText
  {
    match o
    case Refused(e) =>
      var r := Message(e);
      assert r[0] != SuccessText[0];
      assert |SuccessText| <= |r| ==> r[..|SuccessText|][0] == r[0];
      r
    case LoggedIn(_, persist) => SuccessMessage(persist)
  }

  // ---------------------------------------------------------------- order of the checks

  /** A blank username is reported whatever the list and the password hold, so before any lookup. */
  lemma {:induction false} BlankUsernameFirst(form: LoginForm, users: seq<UserRecord>)
    ensures CheckLogin(form, users) == Refused(BlankUsername) <==> Trim(form.username) == ""
  {
  }

  /** An unknown username is reported whatever the password holds, blank or not. */
  lemma {:induction false} UnknownBeforeBlankPassword(form: LoginForm, users: seq<UserRecord>)
    ensures CheckLogin(form, users) == Refused(UnknownUsername) <==>
      Trim(form.username) != "" && !IsTaken(users, ToLower(Trim(form.username)))
  {
  }

  /** A blank password is reported only for a known username. */
  lemma {:induction false} BlankPasswordOnlyForKnownName(form: LoginForm, users: seq<UserRecord>)
    ensures CheckLogin(form, users) == Refused(BlankPassword) <==>
      Trim(form.username) != "" && IsTaken(users, ToLower(Trim(form.username))) && form.password == ""
  {
  }

  /** A wrong password is reported for a known username and a non-blank password that differs
      from the first stored record with that username. */
  lemma {:induction false} WrongPasswordIff(form: LoginForm, users: seq<UserRecord>)
    ensures CheckLogin(form, users) == Refused(WrongPassword) <==>
      Trim(form.username) != "" && IsTaken(users, ToLower(Trim(form.username))) && form.password != ""
      && FindUser(users, ToLower(Trim(form.username))).value.password != form.password
  {
  }

  /** With unique usernames, the login succeeds exactly when some stored record carries the
      lowered username and the typed, non-blank password; the outcome names that record. */
  lemma {:induction false} LoginSucceedsIff(form: LoginForm, users: seq<UserRecord>)
    requires UniqueUsernames(users)
    ensures CheckLogin(form, users).LoggedIn? <==>
      Trim(form.username) != "" && form.password != ""
      && exists i :: 0 <= i < |users| && users[i].username == ToLower(Trim(form.username))
                                                          && users[i].password == form.password
    ensures forall i :: 0 <= i < |users| && users[i].username == ToLower(Trim(form.username))
                        && users[i].password == form.password && Trim(form.username) != "" && form.password != ""
                        ==> CheckLogin(form, users) == LoggedIn(users[i], form.persist)
  {
    var name := ToLower(Trim(form.username));
    forall i | 0 <= i < |users| && users[i].username == name
      ensures FindUser(users, name) == Some(users[i])
    {
      FindUserUnique(users, i);
    }
  }
}
