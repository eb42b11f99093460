/** The registration handler's decision logic: a fail-fast chain of field rules, then the
    terms box, then username uniqueness against the stored list; on success the new record. */
module Registration {
  import opened Wrappers
  import opened Search
  import opened Text
  import EmailPattern
  import opened Users

  /** The raw values of the registration form's fields. */
  datatype RegistrationForm = RegistrationForm(
    username: string, email: string, password: string, passwordCheck: string, terms: bool)

  /** The rules of the username block. */
  datatype UsernameRule = UsernameBlank | UsernameTooShort | UsernameFewUnique | UsernameSpecialChars

  /** The rules of the email block. */
  datatype EmailRule = EmailBlank | EmailInvalid | EmailExampleDomain

  /** The rules of the password block. */
  datatype PasswordRule =
    | PasswordBlank | PasswordTooShort | PasswordCase | PasswordNoDigit | PasswordNoSpecial | PasswordHasWord

  /** One value per rule of the form, each with its own error message. */
  datatype RegError =
    | Username(usernameRule: UsernameRule)
    | Email(emailRule: EmailRule)
    | Password(passwordRule: PasswordRule)
    | PasswordMismatch
    | TermsNotAccepted
    | UsernameTaken

  datatype RegOutcome = Rejected(error: RegError) | Registered(record: UserRecord)

  /** The text shown for each username rule. */
  function UsernameMessage(rule: UsernameRule): (r: string)
    ensures RuleOfMessage(r) == Some(Username(rule))
  {
    match rule
    case UsernameBlank => "Username cannot be blank."
    case UsernameTooShort => "Username must be at least 4 characters long."
    case UsernameFewUnique => "Username must contain at least 2 unique characters."
    case UsernameSpecialChars => "Username cannot contain any special characters or whitespace."
  }

  /** The text shown for each email rule. */
  function EmailMessage(rule: EmailRule): (r: string)
    ensures RuleOfMessage(r) == Some(Email(rule))
  {
    match rule
    case EmailBlank => "Email cannot be blank."
    case EmailInvalid => "Please enter a valid email address."
    case EmailExampleDomain => "Email cannot be from the domain \"example.com\"."
  }

  /** The text shown for each password rule. */
  function PasswordMessage(rule: PasswordRule): (r: string)
    ensures RuleOfMessage(r) == Some(Password(rule))
  {
    match rule
    case PasswordBlank => "Password cannot be blank."
    case PasswordTooShort => "Password must be at least 12 characters long."
    case PasswordCase => "Password must have at least one uppercase and one lowercase letter."
    case PasswordNoDigit => "Password must contain at least one number."
    case PasswordNoSpecial => "Password must contain at least one special character."
    case PasswordHasWord => "Password cannot contain the word \"password\"."
  }

  /** The text shown for each rule; `RuleOfMessage` reads the rule back from it, so no two rules
      share a message. */
  function Message(e: RegError): (r: string)
    ensures RuleOfMessage(r) == Some(e)
  {
    match e
    case Username(rule) => UsernameMessage(rule)
    case Email(rule) => EmailMessage(rule)
    case Password(rule) => PasswordMessage(rule)
    case PasswordMismatch => "Passwords do not match."
    case TermsNotAccepted => "You must agree to the Terms of Use."
    case UsernameTaken => "That username is already taken."
  }

  /** The rule a message reports, or `None` for any other text. The sixteen messages differ in
      their length, except for three pairs of equal length, each told apart by one character. */
  function RuleOfMessage(m: string): Option<RegError> {
    match |m|
    case 25 => if m[0] == 'U' then Some(Username(UsernameBlank)) else Some(Password(PasswordBlank))
    case 44 => if m[42] == 'g' then Some(Username(UsernameTooShort)) else Some(Password(PasswordHasWord))
    case 35 => if m[33] == 's' then Some(Email(EmailInvalid)) else Some(TermsNotAccepted)
    case 51 => Some(Username(UsernameFewUnique))
    case 61 => Some(Username(UsernameSpecialChars))
    case 22 => Some(Email(EmailBlank))
    case 46 => Some(Email(EmailExampleDomain))
    case 45 => Some(Password(PasswordTooShort))
    case 67 => Some(Password(PasswordCase))
    case 42 => Some(Password(PasswordNoDigit))
    case 53 => Some(Password(PasswordNoSpecial))
    case 23 => Some(PasswordMismatch)
    case 31 => Some(UsernameTaken)
    case _ => None
  }

  const RegistrationSuccessMessage := "Registration successful!"

  /** The text the handler shows for an outcome. It names the broken rule of a rejection, and the
      success alert names none, so the text alone tells every outcome apart. */
  function OutcomeMessage(o: RegOutcome): (r: string)
    ensures o.Rejected? ==> r == Message(o.error) && RuleOfMessage(r) == Some(o.error)
    ensures o.Registered? ==> r == RegistrationSuccessMessage && RuleOfMessage(r) == None
  {
    match o
    case Rejected(e) => Message(e)
    case Registered(_) => RegistrationSuccessMessage
  }

  /** Two outcomes show the same text only when both are rejections for the same rule or both
      are registrations. */
  lemma {:induction false} OutcomeMessageDistinct(o1: RegOutcome, o2: RegOutcome)
    requires OutcomeMessage(o1) == OutcomeMessage(o2)
    ensures o1.Rejected? <==> o2.Rejected?
    ensures o1.Rejected? ==> o1.error == o2.error
  {
  }

  const MinUsernameLength := 4
  const MinPasswordLength := 12
  const ForbiddenEmailSuffix := "@example.com"
  const ForbiddenPasswordWord := "password"

  /** The class `[!@#$%^&*()_+\-=\[\]{};':"\\|,.<>\/?]`, the 30 characters it lists: visible
      ASCII characters that are neither letters nor digits. */
  function IsSpecial(c: char): (r: bool)
    ensures r ==> '!' <= c <= '~' && !IsAlphanumeric(c)
  {
    c == '!' || c == '@' || c == '#' || c == '$' || c == '%' || c == '^' || c == '&' || c == '*'
    || c == '(' || c == ')' || c == '_' || c == '+' || c == '-' || c == '=' || c == '[' || c == ']'
    || c == '{' || c == '}' || c == ';' || c == '\'' || c == ':' || c == '"' || c == '\\' || c == '|'
    || c == ',' || c == '.' || c == '<' || c == '>' || c == '/' || c == '?'
  }

  // ---------------------------------------------------------------- field tests

  /** `/^[a-zA-Z0-9]+$/` */
  predicate IsAlphanumericString(s: string) {
    |s| > 0 && forall i :: 0 <= i < |s| ==> IsAlphanumeric(s[i])
  }

  /** `/[A-Z]/` */
  predicate HasUpper(s: string) { exists i :: 0 <= i < |s| && IsUpper(s[i]) }

  /** `/[a-z]/` */
  predicate HasLower(s: string) { exists i :: 0 <= i < |s| && IsLower(s[i]) }

  /** `/\d/` */
  predicate HasDigit(s: string) { exists i :: 0 <= i < |s| && IsDigit(s[i]) }

  /** `/[!@#$%^&*()_+\-=\[\]{};':"\\|,.<>\/?]/` */
  predicate HasSpecial(s: string) { exists i :: 0 <= i < |s| && IsSpecial(s[i]) }

  // ---------------------------------------------------------------- the chain, block by block

  /** The username block, on the trimmed username: the rule it reports is broken, and a name it
      accepts is long enough and made of letters and digits only. */
  function UsernameError(u: string): (r: Option<UsernameRule>)
    ensures r.Some? ==> UsernameViolates(r.value, u)
    ensures r == None ==> |u| >= MinUsernameLength && IsAlphanumericString(u)
  {
    if u == "" then Some(UsernameBlank)
    else if |u| < MinUsernameLength then Some(UsernameTooShort)
    else if |UniqueChars(u)| < 2 then Some(UsernameFewUnique)
    else if !IsAlphanumericString(u) then Some(UsernameSpecialChars)
    else None
  }

  /** The email block, on the trimmed and lowered email: the rule it reports is broken, and an
      email it accepts matches the pattern as its grammar reads and lies outside "@example.com". */
  function EmailError(e: string): (r: Option<EmailRule>)
    ensures r.Some? ==> EmailViolates(r.value, e)
    ensures r == None ==> EmailPattern.MatchesRegex(e) && !EndsWith(e, ForbiddenEmailSuffix)
  {
    EmailPattern.MatchesIffRegex(e);
    if e == "" then Some(EmailBlank)
    else if !EmailPattern.Matches(e) then Some(EmailInvalid)
    else if EndsWith(e, ForbiddenEmailSuffix) then Some(EmailExampleDomain)
    else None
  }

  /** The password block, on the password as typed: the rule it reports is broken, and a password
      it accepts is long enough and has every required kind of character. */
  function PasswordError(p: string): (r: Option<PasswordRule>)
    ensures r.Some? ==> PasswordViolates(r.value, p)
    ensures r == None ==> |p| >= MinPasswordLength && HasUpper(p) && HasLower(p) && HasDigit(p) && HasSpecial(p)
  {
    if p == "" then Some(PasswordBlank)
    else if |p| < MinPasswordLength then Some(PasswordTooShort)
    else if !HasUpper(p) || !HasLower(p) then Some(PasswordCase)
    else if !HasDigit(p) then Some(PasswordNoDigit)
    else if !HasSpecial(p) then Some(PasswordNoSpecial)
    else if Includes(ToLower(p), ForbiddenPasswordWord) then Some(PasswordHasWord)
    else None
  }

  /** The record a successful registration stores: its username and email are already in lower
      case, and its password is the one typed. */
  function NewRecord(form: RegistrationForm): (r: UserRecord)
    ensures ToLower(r.username) == r.username && ToLower(r.email) == r.email
    ensures |r.username| == |Trim(form.username)| && r.password == form.password
  {
    ToLowerIdempotent(Trim(form.username));
    ToLowerIdempotent(Trim(form.email));
    UserRecord(ToLower(Trim(form.username)), ToLower(Trim(form.email)), form.password)
  }

  /** The handler's decision once each field block has reported its first failing rule, if any:
      the blocks in source order, then the confirmation, the terms box and uniqueness. */
  function Decide(usernameErr: Option<UsernameRule>, emailErr: Option<EmailRule>, passwordErr: Option<PasswordRule>,
                  form: RegistrationForm, users: seq<UserRecord>): RegOutcome {
    match usernameErr
    case Some(rule) => Rejected(Username(rule))
    case None =>
    match emailErr
    case Some(rule) => Rejected(Email(rule))
    case None =>
    match passwordErr
    case Some(rule) => Rejected(Password(rule))
    case None =>
    if form.password != form.passwordCheck then Rejected(PasswordMismatch)
    else if !form.terms then Rejected(TermsNotAccepted)
    else if IsTaken(users, ToLower(Trim(form.username))) then Rejected(UsernameTaken)
    else Registered(NewRecord(form))
  }

  /** The whole registration decision against the stored list `users`: a rejection names a rule
      the form really breaks, and a registration happens only for a form passing every field rule,
      the confirmation and the terms, whose lowered username is not yet stored. */
  function ValidateRegistration(form: RegistrationForm, users: seq<UserRecord>): (r: RegOutcome)
    ensures r.Rejected? ==> Violates(r.error, form, users)
    ensures r.Registered? ==> FieldsAccepted(form) && r.record == NewRecord(form) && !IsTaken(users, r.record.username)
  {
    var u, e, p := UsernameError(Trim(form.username)), EmailError(ToLower(Trim(form.email))), PasswordError(form.password);
    DecideReportsBroken(u, e, p, form, users);
    DecideCases(u, e, p, form, users);
    Decide(u, e, p, form, users)
  }

  /** When each late check is reached, whatever the blocks reported. */
  lemma {:induction false} DecideCases(u: Option<UsernameRule>, e: Option<EmailRule>, p: Option<PasswordRule>,
                                       form: RegistrationForm, users: seq<UserRecord>)
    ensures Decide(u, e, p, form, users) == Rejected(PasswordMismatch) <==>
      u == None && e == None && p == None && form.password != form.passwordCheck
    ensures Decide(u, e, p, form, users) == Rejected(TermsNotAccepted) <==>
      u == None && e == None && p == None && form.password == form.passwordCheck && !form.terms
    ensures Decide(u, e, p, form, users) == Rejected(UsernameTaken) <==>
      u == None && e == None && p == None && form.password == form.passwordCheck && form.terms
      && IsTaken(users, ToLower(Trim(form.username)))
    ensures Decide(u, e, p, form, users).Registered? <==>
      u == None && e == None && p == None && form.password == form.passwordCheck && form.terms
      && !IsTaken(users, ToLower(Trim(form.username)))
    ensures Decide(u, e, p, form, users).Registered? ==> Decide(u, e, p, form, users).record == NewRecord(form)
  {
  }

  /** When every rule a block reports is broken, so is the rule the decision reports. */
  lemma {:induction false} DecideReportsBroken(u: Option<UsernameRule>, e: Option<EmailRule>, p: Option<PasswordRule>,
                                               form: RegistrationForm, users: seq<UserRecord>)
    requires u.Some? ==> Violates(Username(u.value), form, users)
    requires e.Some? ==> Violates(Email(e.value), form, users)
    requires p.Some? ==> Violates(Password(p.value), form, users)
    ensures Decide(u, e, p, form, users).Rejected? ==> Violates(Decide(u, e, p, form, users).error, form, users)
  {
  }

  /** Before uniqueness, nothing depends on the stored list. */
  lemma {:induction false} DecideIgnoresStore(u: Option<UsernameRule>, e: Option<EmailRule>, p: Option<PasswordRule>,
                                              form: RegistrationForm, users: seq<UserRecord>, others: seq<UserRecord>)
    requires !(u == None && e == None && p == None && form.password == form.passwordCheck && form.terms)
    ensures Decide(u, e, p, form, users).Rejected?
    ensures Decide(u, e, p, form, users) == Decide(u, e, p, form, others)
  {
  }

  // ---------------------------------------------------------------- the rules as a catalogue

  /** Whether a username rule, on its own, is broken by the trimmed username. */
  ghost predicate UsernameViolates(rule: UsernameRule, u: string) {
    match rule
    case UsernameBlank => u == ""
    case UsernameTooShort => |u| < MinUsernameLength
    case UsernameFewUnique => |UniqueChars(u)| < 2
    case UsernameSpecialChars => !IsAlphanumericString(u)
  }

  /** Whether an email rule, on its own, is broken by the trimmed and lowered email. */
  ghost predicate EmailViolates(rule: EmailRule, e: string) {
    match rule
    case EmailBlank => e == ""
    case EmailInvalid => !EmailPattern.MatchesRegex(e)
    case EmailExampleDomain => EndsWith(e, ForbiddenEmailSuffix)
  }

  /** Whether a password rule, on its own, is broken by the password as typed. */
  ghost predicate PasswordViolates(rule: PasswordRule, p: string) {
    match rule
    case PasswordBlank => p == ""
    case PasswordTooShort => |p| < MinPasswordLength
    case PasswordCase => !(HasUpper(p) && HasLower(p))
    case PasswordNoDigit => !HasDigit(p)
    case PasswordNoSpecial => !HasSpecial(p)
    case PasswordHasWord => exists i :: 0 <= i && OccursAt(ToLower(p), ForbiddenPasswordWord, i)
  }

  /** Whether `rule` on its own is broken by the form, independently of every other rule. */
  ghost predicate Violates(rule: RegError, form: RegistrationForm, users: seq<UserRecord>) {
    match rule
    case Username(r) => UsernameViolates(r, Trim(form.username))
    case Email(r) => EmailViolates(r, ToLower(Trim(form.email)))
    case Password(r) => PasswordViolates(r, form.password)
    case PasswordMismatch => form.password != form.passwordCheck
    case TermsNotAccepted => !form.terms
    case UsernameTaken => IsTaken(users, ToLower(Trim(form.username)))
  }

  /** The order in which the handler consults the rules, in the source's four blocks. */
  const UsernameRules: seq<RegError> :=
    [Username(UsernameBlank), Username(UsernameTooShort), Username(UsernameFewUnique), Username(UsernameSpecialChars)]
  const EmailRules: seq<RegError> := [Email(EmailBlank), Email(EmailInvalid), Email(EmailExampleDomain)]
  const PasswordRules: seq<RegError> := [
    Password(PasswordBlank), Password(PasswordTooShort), Password(PasswordCase),
    Password(PasswordNoDigit), Password(PasswordNoSpecial), Password(PasswordHasWord)]
  const FinalRules: seq<RegError> := [PasswordMismatch, TermsNotAccepted, UsernameTaken]
  const RuleOrder: seq<RegError> := UsernameRules + EmailRules + PasswordRules + FinalRules

  ghost function Broken(form: RegistrationForm, users: seq<UserRecord>): RegError -> bool {
    (rule: RegError) => Violates(rule, form, users)
  }

  /** The first rule of `rules` that the form breaks. */
  ghost function FirstBroken(rules: seq<RegError>, form: RegistrationForm, users: seq<UserRecord>): Option<RegError> {
    match FirstIndex(rules, Broken(form, users))
    case None => None
    case Some(k) => Some(rules[k])
  }

  lemma {:induction false} FirstBrokenCons(rule: RegError, rest: seq<RegError>, form: RegistrationForm, users: seq<UserRecord>)
    ensures FirstBroken([rule] + rest, form, users) ==
      if Violates(rule, form, users) then Some(rule) else FirstBroken(rest, form, users)
  {
    var s := [rule] + rest;
    assert s[0] == rule && s[1..] == rest;
  }

  lemma {:induction false} FirstBrokenConcat(a: seq<RegError>, b: seq<RegError>, form: RegistrationForm, users: seq<UserRecord>)
    ensures FirstBroken(a + b, form, users) ==
      if FirstBroken(a, form, users).Some? then FirstBroken(a, form, users) else FirstBroken(b, form, users)
  {
    FirstIndexConcat(a, b, Broken(form, users));
    var s := a + b;
    match FirstIndex(a, Broken(form, users))
    case Some(i) => assert s[i] == a[i];
    case None =>
      match FirstIndex(b, Broken(form, users))
      case None =>
      case Some(j) => assert s[|a| + j] == b[j];
  }

  /** The username block reports the first username rule broken, in source order. */
  lemma {:induction false} UsernameErrorIsFirst(u: string)
    ensures UsernameError(u) ==
      if UsernameViolates(UsernameBlank, u) then Some(UsernameBlank)
      else if UsernameViolates(UsernameTooShort, u) then Some(UsernameTooShort)
      else if UsernameViolates(UsernameFewUnique, u) then Some(UsernameFewUnique)
      else if UsernameViolates(UsernameSpecialChars, u) then Some(UsernameSpecialChars)
      else None
  {
  }

  /** The email block reports the first email rule broken, in source order. */
  lemma {:induction false} EmailErrorIsFirst(e: string)
    ensures EmailError(e) ==
      if EmailViolates(EmailBlank, e) then Some(EmailBlank)
      else if EmailViolates(EmailInvalid, e) then Some(EmailInvalid)
      else if EmailViolates(EmailExampleDomain, e) then Some(EmailExampleDomain)
      else None
  {
    EmailPattern.MatchesIffRegex(e);
  }

  /** The password block reports the first password rule broken, in source order. */
  lemma {:induction false} PasswordErrorIsFirst(p: string)
    ensures PasswordError(p) ==
      if PasswordViolates(PasswordBlank, p) then Some(PasswordBlank)
      else if PasswordViolates(PasswordTooShort, p) then Some(PasswordTooShort)
      else if PasswordViolates(PasswordCase, p) then Some(PasswordCase)
      else if PasswordViolates(PasswordNoDigit, p) then Some(PasswordNoDigit)
      else if PasswordViolates(PasswordNoSpecial, p) then Some(PasswordNoSpecial)
      else if PasswordViolates(PasswordHasWord, p) then Some(PasswordHasWord)
      else None
  {
  }

  lemma {:induction false} FirstBrokenUsername(form: RegistrationForm, users: seq<UserRecord>)
    ensures FirstBroken(UsernameRules, form, users) ==
      match UsernameError(Trim(form.username))
      case None => None
      case Some(rule) => Some(Username(rule))
  {
    UsernameErrorIsFirst(Trim(form.username));
    var tail := [Username(UsernameSpecialChars)];
    FirstBrokenCons(Username(UsernameSpecialChars), [], form, users);
    FirstBrokenCons(Username(UsernameFewUnique), tail, form, users);
    tail := [Username(UsernameFewUnique)] + tail;
    FirstBrokenCons(Username(UsernameTooShort), tail, form, users);
    tail := [Username(UsernameTooShort)] + tail;
    FirstBrokenCons(Username(UsernameBlank), tail, form, users);
    tail := [Username(UsernameBlank)] + tail;
    assert tail == UsernameRules;
  }

  lemma {:induction false} FirstBrokenEmail(form: RegistrationForm, users: seq<UserRecord>)
    ensures FirstBroken(EmailRules, form, users) ==
      match EmailError(ToLower(Trim(form.email)))
      case None => None
      case Some(rule) => Some(Email(rule))
  {
    EmailErrorIsFirst(ToLower(Trim(form.email)));
    var tail := [Email(EmailExampleDomain)];
    FirstBrokenCons(Email(EmailExampleDomain), [], form, users);
    FirstBrokenCons(Email(EmailInvalid), tail, form, users);
    tail := [Email(EmailInvalid)] + tail;
    FirstBrokenCons(Email(EmailBlank), tail, form, users);
    tail := [Email(EmailBlank)] + tail;
    assert tail == EmailRules;
  }

  lemma {:induction false} FirstBrokenPassword(form: RegistrationForm, users: seq<UserRecord>)
    ensures FirstBroken(PasswordRules, form, users) ==
      match PasswordError(form.password)
      case None => None
      case Some(rule) => Some(Password(rule))
  {
    PasswordErrorIsFirst(form.password);
    var tail := [Password(PasswordHasWord)];
    FirstBrokenCons(Password(PasswordHasWord), [], form, users);
    FirstBrokenCons(Password(PasswordNoSpecial), tail, form, users);
    tail := [Password(PasswordNoSpecial)] + tail;
    FirstBrokenCons(Password(PasswordNoDigit), tail, form, users);
    tail := [Password(PasswordNoDigit)] + tail;
    FirstBrokenCons(Password(PasswordCase), tail, form, users);
    tail := [Password(PasswordCase)] + tail;
    FirstBrokenCons(Password(PasswordTooShort), tail, form, users);
    tail := [Password(PasswordTooShort)] + tail;
    FirstBrokenCons(Password(PasswordBlank), tail, form, users);
    tail := [Password(PasswordBlank)] + tail;
    assert tail == PasswordRules;
  }

  lemma {:induction false} FirstBrokenFinal(form: RegistrationForm, users: seq<UserRecord>)
    ensures FirstBroken(FinalRules, form, users) ==
      if form.password != form.passwordCheck then Some(PasswordMismatch)
      else if !form.terms then Some(TermsNotAccepted)
      else if IsTaken(users, ToLower(Trim(form.username))) then Some(UsernameTaken)
      else None
  {
    var tail := [UsernameTaken];
    FirstBrokenCons(UsernameTaken, [], form, users);
    FirstBrokenCons(TermsNotAccepted, tail, form, users);
    tail := [TermsNotAccepted] + tail;
    FirstBrokenCons(PasswordMismatch, tail, form, users);
    tail := [PasswordMismatch] + tail;
    assert tail == FinalRules;
  }

  /** The handler reports the first rule of `RuleOrder` that the form breaks,
      and registers the normalised record when it breaks none. */
  lemma {:induction false} ValidateIsFirstBroken(form: RegistrationForm, users: seq<UserRecord>)
    ensures ValidateRegistration(form, users) ==
      match FirstBroken(RuleOrder, form, users)
      case Some(rule) => Rejected(rule)
      case None => Registered(NewRecord(form))
  {
    FirstBrokenUsername(form, users);
    FirstBrokenEmail(form, users);
    FirstBrokenPassword(form, users);
    FirstBrokenFinal(form, users);
    FirstBrokenConcat(UsernameRules, EmailRules, form, users);
    FirstBrokenConcat(UsernameRules + EmailRules, PasswordRules, form, users);
    FirstBrokenConcat(UsernameRules + EmailRules + PasswordRules, FinalRules, form, users);
  }

  /** The place of each rule in `RuleOrder`. */
  function Position(rule: RegError): nat {
    match rule
    case Username(UsernameBlank) => 0
    case Username(UsernameTooShort) => 1
    case Username(UsernameFewUnique) => 2
    case Username(UsernameSpecialChars) => 3
    case Email(EmailBlank) => 4
    case Email(EmailInvalid) => 5
    case Email(EmailExampleDomain) => 6
    case Password(PasswordBlank) => 7
    case Password(PasswordTooShort) => 8
    case Password(PasswordCase) => 9
    case Password(PasswordNoDigit) => 10
    case Password(PasswordNoSpecial) => 11
    case Password(PasswordHasWord) => 12
    case PasswordMismatch => 13
    case TermsNotAccepted => 14
    case UsernameTaken => 15
  }

  /** Every rule occurs in `RuleOrder` exactly once, at its `Position`. */
  lemma {:induction false} RuleOrderPositions()
    ensures |RuleOrder| == 16
    ensures forall j :: 0 <= j < |RuleOrder| ==> Position(RuleOrder[j]) == j
    ensures forall rule :: Position(rule) < |RuleOrder| && RuleOrder[Position(rule)] == rule
  {
    assert RuleOrder == [
      Username(UsernameBlank), Username(UsernameTooShort), Username(UsernameFewUnique), Username(UsernameSpecialChars),
      Email(EmailBlank), Email(EmailInvalid), Email(EmailExampleDomain),
      Password(PasswordBlank), Password(PasswordTooShort), Password(PasswordCase),
      Password(PasswordNoDigit), Password(PasswordNoSpecial), Password(PasswordHasWord),
      PasswordMismatch, TermsNotAccepted, UsernameTaken];
  }

  /** Fail-fast, rule by rule: the handler reports the rule at place `k` exactly when that rule
      is broken and every rule before it holds; it registers exactly when no rule is broken. */
  lemma {:induction false} FailFast(form: RegistrationForm, users: seq<UserRecord>, k: nat)
    requires k < |RuleOrder|
    ensures ValidateRegistration(form, users) == Rejected(RuleOrder[k]) <==>
      Violates(RuleOrder[k], form, users) && forall j :: 0 <= j < k ==> !Violates(RuleOrder[j], form, users)
    ensures ValidateRegistration(form, users).Registered? <==>
      forall j :: 0 <= j < |RuleOrder| ==> !Violates(RuleOrder[j], form, users)
  {
    ValidateIsFirstBroken(form, users);
    RuleOrderPositions();
    var p := Broken(form, users);
    match FirstIndex(RuleOrder, p)
    case None =>
    case Some(i) =>
      assert Position(RuleOrder[i]) == i && Position(RuleOrder[k]) == k;
      if i < k { assert p(RuleOrder[i]); }
      if k < i { assert !p(RuleOrder[k]); }
  }

  // ---------------------------------------------------------------- the username block

  /** A blank username is reported whatever the other fields and the stored list hold. */
  lemma {:induction false} BlankUsernameFirst(form: RegistrationForm, users: seq<UserRecord>)
    requires Trim(form.username) == ""
    ensures ValidateRegistration(form, users) == Rejected(Username(UsernameBlank))
    ensures OutcomeMessage(ValidateRegistration(form, users)) == "Username cannot be blank."
  {
  }

  /** The username checks pass exactly for names of at least four ASCII letters and digits
      that are not one character repeated. */
  lemma {:induction false} UsernameAcceptedIff(u: string)
    ensures UsernameError(u) == None <==>
      |u| >= MinUsernameLength
      && (exists i :: 0 <= i < |u| && u[i] != u[0])
      && (forall i :: 0 <= i < |u| ==> IsAlphanumeric(u[i]))
  {
    TwoUniqueCharsIff(u);
  }

  /** "ab1" is too short; "aaaa" has only one distinct character. */
  lemma {:induction false} UsernameExamples()
    ensures UsernameError("ab1") == Some(UsernameTooShort)
    ensures UsernameError("aaaa") == Some(UsernameFewUnique)
  {
    TwoUniqueCharsIff("aaaa");
  }

  /** The distinct-character rule looks at the username before it is lowered, so "Aaaa"
      passes every username check and is stored as "aaaa", a single repeated character. */
  lemma {:induction false} LoweredNameMayRepeatOneChar()
    ensures UsernameError("Aaaa") == None
    ensures ToLower("Aaaa") == "aaaa" && UsernameError("aaaa") == Some(UsernameFewUnique)
  {
    UsernameAcceptedIff("Aaaa");
    assert "Aaaa"[1] != "Aaaa"[0];
    UsernameExamples();
  }

  // ---------------------------------------------------------------- the email block

  /** The email checks pass exactly for strings the pattern matches that do not end in "@example.com". */
  lemma {:induction false} EmailAcceptedIff(e: string)
    ensures EmailError(e) == None <==> EmailPattern.MatchesRegex(e) && !EndsWith(e, ForbiddenEmailSuffix)
  {
    EmailPattern.MatchesIffRegex(e);
    if e == "" {
      assert !EmailPattern.Matches(e);
    }
  }

  /** With a valid username, an email that matches the pattern but ends in "@example.com"
      (after trimming and lowering) is rejected with the domain message. */
  lemma {:induction false} ExampleDomainRejected(form: RegistrationForm, users: seq<UserRecord>)
    requires UsernameError(Trim(form.username)) == None
    requires EmailPattern.MatchesRegex(ToLower(Trim(form.email)))
    requires EndsWith(ToLower(Trim(form.email)), ForbiddenEmailSuffix)
    ensures ValidateRegistration(form, users) == Rejected(Email(EmailExampleDomain))
  {
    EmailPattern.MatchesIffRegex(ToLower(Trim(form.email)));
  }

  /** "x@example.com" passes the pattern and fails on the domain. */
  lemma {:induction false} ExampleDomainExample()
    ensures EmailError("x@example.com") == Some(EmailExampleDomain)
  {
    assert IndexOf("x@example.com", '@') == Some(1);
  }

  /** "x@mail.example.com" passes both: the domain rule is a suffix test, not a domain comparison. */
  lemma {:induction false} SubdomainExample()
    ensures EmailError("x@mail.example.com") == None
  {
    assert IndexOf("x@mail.example.com", '@') == Some(1);
  }

  // ---------------------------------------------------------------- the password block

  /** The password checks pass exactly for passwords of at least twelve characters with an
      upper-case letter, a lower-case letter, a digit and a listed special character, and
      with no eight-character stretch that reads "password" in any letter case. */
  lemma {:induction false} PasswordAcceptedIff(p: string)
    ensures PasswordError(p) == None <==>
      |p| >= MinPasswordLength && HasUpper(p) && HasLower(p) && HasDigit(p) && HasSpecial(p)
      && forall i, j :: 0 <= i && j == i + |ForbiddenPasswordWord| <= |p| ==> ToLower(p[i..j]) != ForbiddenPasswordWord
  {
    var w := ForbiddenPasswordWord;
    forall i, j | 0 <= i && j == i + |w| <= |p|
      ensures OccursAt(ToLower(p), w, i) <==> ToLower(p[i..j]) == w
    {
      ToLowerSlice(p, i, j);
    }
    if Includes(ToLower(p), w) {
      var i :| 0 <= i && OccursAt(ToLower(p), w, i);
      assert ToLower(p[i..i + |w|]) == w;
    }
  }

  /** A password with no letter p, in either case, cannot contain "password" in any case. */
  lemma {:induction false} NoLetterPNoWord(p: string)
    requires forall i :: 0 <= i < |p| ==> p[i] != 'p' && p[i] != 'P'
    ensures !Includes(ToLower(p), ForbiddenPasswordWord)
  {
    var w := ForbiddenPasswordWord;
    if Includes(ToLower(p), w) {
      var i :| 0 <= i && OccursAt(ToLower(p), w, i);
      assert ToLower(p)[i] == w[0] == 'p';
      ToLowerAt(p, i);
    }
  }

  /** A password of twelve or more characters with every required kind of character and no
      letter p is accepted: the case-insensitive word test cannot fire on it. */
  lemma {:induction false} PasswordWithoutLetterPAccepted(p: string)
    requires |p| >= MinPasswordLength && HasUpper(p) && HasLower(p) && HasDigit(p) && HasSpecial(p)
    requires forall i :: 0 <= i < |p| ==> p[i] != 'p' && p[i] != 'P'
    ensures PasswordError(p) == None
  {
    NoLetterPNoWord(p);
  }

  /** "Abcdefghij1!" passes every password check. */
  lemma {:induction false} PasswordExample()
    ensures PasswordError("Abcdefghij1!") == None
  {
    var p := "Abcdefghij1!";
    assert IsUpper(p[0]) && IsLower(p[1]) && IsDigit(p[10]) && IsSpecial(p[11]);
    PasswordWithoutLetterPAccepted(p);
  }

  // ---------------------------------------------------------------- confirmation, terms, uniqueness

  /** "Passwords do not match." is reported exactly when every username, email and password
      rule holds and the confirmation differs. */
  lemma {:induction false} MismatchOnlyAfterFieldRules(form: RegistrationForm, users: seq<UserRecord>)
    ensures ValidateRegistration(form, users) == Rejected(PasswordMismatch) <==>
      UsernameError(Trim(form.username)) == None
      && EmailError(ToLower(Trim(form.email))) == None
      && PasswordError(form.password) == None
      && form.password != form.passwordCheck
  {
    DecideCases(UsernameError(Trim(form.username)), EmailError(ToLower(Trim(form.email))), PasswordError(form.password),
                form, users);
  }

  /** The terms box is consulted only once the passwords match. */
  lemma {:induction false} TermsOnlyWhenPasswordsMatch(form: RegistrationForm, users: seq<UserRecord>)
    ensures ValidateRegistration(form, users) == Rejected(TermsNotAccepted) <==>
      UsernameError(Trim(form.username)) == None
      && EmailError(ToLower(Trim(form.email))) == None
      && PasswordError(form.password) == None
      && form.password == form.passwordCheck
      && !form.terms
  {
    DecideCases(UsernameError(Trim(form.username)), EmailError(ToLower(Trim(form.email))), PasswordError(form.password),
                form, users);
  }

  /** Every field rule and the terms pass: the outcome then depends on the stored list alone,
      through whether the lowered username is already there. */
  predicate FieldsAccepted(form: RegistrationForm) {
    UsernameError(Trim(form.username)) == None
    && EmailError(ToLower(Trim(form.email))) == None
    && PasswordError(form.password) == None
    && form.password == form.passwordCheck
    && form.terms
  }

  /** Uniqueness is checked last, against the lowered username. */
  lemma {:induction false} TakenIsCheckedLast(form: RegistrationForm, users: seq<UserRecord>)
    ensures ValidateRegistration(form, users) == Rejected(UsernameTaken) <==>
      FieldsAccepted(form) && IsTaken(users, ToLower(Trim(form.username)))
    ensures ValidateRegistration(form, users).Registered? <==>
      FieldsAccepted(form) && !IsTaken(users, ToLower(Trim(form.username)))
  {
    DecideCases(UsernameError(Trim(form.username)), EmailError(ToLower(Trim(form.email))), PasswordError(form.password),
                form, users);
  }

  /** What a stored record satisfies: a lower-case alphanumeric username of at least four
      characters, a lower-case email that the pattern accepts outside "@example.com", and a
      password that passes every password check. */
  ghost predicate ValidRecord(r: UserRecord) {
    IsAlphanumericString(r.username) && |r.username| >= MinUsernameLength && ToLower(r.username) == r.username
    && EmailPattern.MatchesRegex(r.email) && !EndsWith(r.email, ForbiddenEmailSuffix) && ToLower(r.email) == r.email
    && PasswordError(r.password) == None
  }

  /** The record built from a form that passes every field rule is valid. */
  lemma {:induction false} NewRecordValid(form: RegistrationForm)
    requires FieldsAccepted(form)
    ensures ValidRecord(NewRecord(form))
  {
    var u := Trim(form.username);
    UsernameAcceptedIff(u);
    ToLowerCharacters(u);
    ToLowerIdempotent(u);
    ToLowerIdempotent(Trim(form.email));
    EmailAcceptedIff(ToLower(Trim(form.email)));
  }

  /** A successful registration yields the lowered username, the trimmed and lowered email and the
      password as typed; that username was not stored before, and the record is valid. */
  lemma {:induction false} RegisteredRecord(form: RegistrationForm, users: seq<UserRecord>)
    requires ValidateRegistration(form, users).Registered?
    ensures var r := ValidateRegistration(form, users).record;
      r == UserRecord(ToLower(Trim(form.username)), ToLower(Trim(form.email)), form.password)
      && !IsTaken(users, r.username)
      && ValidRecord(r)
  {
    TakenIsCheckedLast(form, users);
    NewRecordValid(form);
  }

  /** A form that fails a field rule or the terms is refused the same way whatever is stored. */
  lemma {:induction false} FieldRejectionIgnoresStore(form: RegistrationForm, users: seq<UserRecord>, others: seq<UserRecord>)
    requires !FieldsAccepted(form)
    ensures ValidateRegistration(form, users).Rejected?
    ensures ValidateRegistration(form, users) == ValidateRegistration(form, others)
  {
    DecideIgnoresStore(UsernameError(Trim(form.username)), EmailError(ToLower(Trim(form.email))),
                       PasswordError(form.password), form, users, others);
  }

  /** The stored list's invariant: unique usernames and valid records. */
  ghost predicate StoreInvariant(users: seq<UserRecord>) {
    UniqueUsernames(users) && forall i :: 0 <= i < |users| ==> ValidRecord(users[i])
  }

  /** Appending a valid record with a fresh username keeps the invariant. */
  lemma {:induction false} AppendKeepsInvariant(users: seq<UserRecord>, r: UserRecord)
    requires StoreInvariant(users) && ValidRecord(r) && !IsTaken(users, r.username)
    ensures StoreInvariant(users + [r])
  {
    AppendKeepsUnique(users, r);
    var t := users + [r];
    forall i | 0 <= i < |t| ensures ValidRecord(t[i]) {
      if i < |users| { assert t[i] == users[i]; }
    }
  }

  /** Appending the record of a successful registration keeps the invariant. */
  lemma {:induction false} RegistrationKeepsInvariant(form: RegistrationForm, users: seq<UserRecord>)
    requires StoreInvariant(users)
    requires ValidateRegistration(form, users).Registered?
    ensures StoreInvariant(users + [ValidateRegistration(form, users).record])
  {
    RegisteredRecord(form, users);
    AppendKeepsInvariant(users, ValidateRegistration(form, users).record);
  }

  /** Once a registration has succeeded, any later form whose lowered username is the same is
      refused: with "That username is already taken." if it passes every other rule, and with
      the same error as before otherwise. */
  lemma {:induction false} SecondRegistrationRefused(first: RegistrationForm, second: RegistrationForm, users: seq<UserRecord>)
    requires ValidateRegistration(first, users).Registered?
    requires ToLower(Trim(second.username)) == ToLower(Trim(first.username))
    ensures var after := users + [ValidateRegistration(first, users).record];
      ValidateRegistration(second, after) ==
        if FieldsAccepted(second) then Rejected(UsernameTaken) else ValidateRegistration(second, users)
  {
    var r := ValidateRegistration(first, users).record;
    var after := users + [r];
    RegisteredRecord(first, users);
    assert after[|users|] == r;
    assert IsTaken(after, ToLower(Trim(second.username)));
    TakenIsCheckedLast(second, after);
    if !FieldsAccepted(second) {
      FieldRejectionIgnoresStore(second, after, users);
    }
  }
}
