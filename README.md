# Registration and login form validation, modelled in Dafny

The system is a browser page with two forms.

- **Registration** trims the username and email, lower-cases the email and then checks rules in a fixed order:
  - four username rules;
  - three email rules (blank, a regular expression, not `@example.com`);
  - six password rules;
  - the password confirmation;
  - the terms box;
  - finally, whether the lower-cased username is already stored.

  It stops at the first rule that fails and shows that rule's message. When every rule passes, it appends
  `{username: lower(username), email, password}` to the stored user list and saves the list.
- **Login** trims and lower-cases the username. Then:
  - it rejects a blank name;
  - it looks the name up with `find`;
  - it rejects a blank password;
  - it compares passwords;
  - on success it shows "Login successful!", adding " You will remain logged in." when the persist box is ticked.

The project models the decision logic of both handlers and the user list they share:

| file | module | contents |
|---|---|---|
| `wrappers.dfy` | `Wrappers` | `Option` |
| `search.dfy` | `Search` | `FirstIndex`, the first element that satisfies a predicate (the `find`/`some` scan) |
| `text.dfy` | `Text` | `trim` (full ECMAScript whitespace set), ASCII `toLowerCase`, `includes`, `endsWith`, the first-position search that splits an email at its `@`, `new Set(s).size`, the character classes of the regular expressions |
| `email_pattern.dfy` | `EmailPattern` | the email regular expression, twice: as its grammar reads (`MatchesRegex`) and as a direct character test (`Matches`), proved equivalent |
| `users.dfy` | `Users` | the stored record, `some` (`IsTaken`), `find` (`FindUser`), unique usernames |
| `registration.dfy` | `Registration` | the rule chain `ValidateRegistration`, a separate catalogue of the rules (`Violates`, `RuleOrder`), and the fail-fast and record theorems |
| `login.dfy` | `Login` | `CheckLogin`, messages, and the order of the login checks |
| `store.dfy` | `Store` | class `UserStore`: the loaded list as a field, `Register` (validate, then append), `LogIn` (read only) |

The form handlers' early-return chains are pure functions. The store, which the source mutates with
`users.push` and `saveUsers`, is a class whose `Register` method reassigns its `users` field.

The fail-fast theorem compares the chain against a catalogue:

- `Violates(rule, form, users)` states each rule on its own.
- `RuleOrder` lists the rules in source order.
- `FailFast` proves that the handler reports rule `k` exactly when rule `k` is broken and no earlier rule is.
- It also proves that the handler registers exactly when no rule is broken.

The regex rule in the catalogue uses the grammar form of the pattern. The handler uses the direct test.

Where the project's written specification and `src/index.js` disagree, the model follows the code:

- The store is an array of records appended with `push`. The specification describes a map keyed by username with upsert.
- Only fail-fast validation exists. There is no collect-all mode.
- No rule forbids the username inside the password.
- Uniqueness is checked last, after the terms box. It is not checked right after the username rules.
- The domain rule is a suffix test on `@example.com`, not a domain comparison. So `x@mail.example.com` is accepted (`SubdomainExample`).
- Stored data that fails to parse is not read as an empty store. `JSON.parse` is not guarded, so the handler throws.

## Model

| member | source | states |
|---|---|---|
| Search.FirstIndex | src/index.js:139 | `find`: `Some(i)` is the first index whose element satisfies the predicate; `None` exactly when no element does |
| Text.Trim | src/index.js:22-23 | the result is the infix of the input after its leading whitespace, all input outside it is whitespace, and it neither starts nor ends with whitespace |
| Text.TrimEmptyIff | src/index.js:28 | a trimmed string is blank exactly when the input was all whitespace |
| Text.TrimIdempotent | src/index.js:22 | trimming a trimmed string changes nothing |
| Text.ToLower | src/index.js:23 | lowering keeps the length |
| Text.ToLowerAt | src/index.js:23 | lowering maps each character on its own |
| Text.ToLowerCharacters | src/index.js:118 | a lowered string has no upper-case letter and keeps which characters are alphanumeric or word characters |
| Text.ToLowerIdempotent | src/index.js:118 | lowering a lowered string changes nothing |
| Text.ToLowerNoUpper | src/index.js:23 | a string without upper-case letters is its own lower-case form |
| Text.ToLowerSlice | src/index.js:93 | lowering commutes with taking a slice |
| Text.Includes | src/index.js:93 | `includes` holds exactly when the substring occurs at some position |
| Text.EndsWith | src/index.js:59 | `endsWith` holds exactly when the suffix occurs at the last position it fits; a string that ends with a suffix also includes it |
| Text.IndexOf | src/index.js:53 | the first position of a character, or `None` when it is absent |
| Text.TwoUniqueCharsIff | src/index.js:37 | the set of characters has at least two elements exactly when some character differs from the first |
| Users.IsTaken | src/index.js:111 | `some` finds a record with the name exactly when the left-to-right `find` scan stops at one |
| Users.FindUser | src/index.js:139 | the lookup finds a record exactly when the name is stored; the record carries that name and is the first such record |
| Users.FindUserUnique | src/index.js:139 | with unique usernames, looking up a stored name returns that very record |
| Users.FindUserAppend | src/index.js:118 | after appending a record with a fresh name, that name finds it and other names find what they found before |
| Users.AppendKeepsUnique | src/index.js:111-118 | appending a record whose name is not taken keeps usernames unique |
| EmailPattern.Matches | src/index.js:53 | an email the direct test accepts holds exactly one `@`, neither first nor last |
| EmailPattern.OnlyAt | src/index.js:53 | an `@` between two names is the only `@` of the string |
| EmailPattern.NameIff | src/index.js:53 | the grammar `\w+([\.-]?\w+)*` holds exactly for non-empty strings that start with a word character and where every separator is followed by a word character |
| EmailPattern.SuffixesShape | src/index.js:53 | a run of `(\.\w{2,3})+` starts with a dot, contains only separated words, and ends in a dot and two or three word characters |
| EmailPattern.SuffixesDomain | src/index.js:53 | a name followed by suffixes passes the direct domain test |
| EmailPattern.DomainSplits | src/index.js:53 | a domain that passes the direct test splits into a name and a final suffix |
| EmailPattern.FirstAtAfterName | src/index.js:53 | a name holds no `@`, so the first `@` is the one after the local part |
| EmailPattern.MatchesIffRegex | src/index.js:53 | the direct test accepts exactly the strings the regular expression matches |
| Registration.UsernameMessage | src/index.js:28-48 | each username rule's message reads back, through `RuleOfMessage`, as that rule |
| Registration.EmailMessage | src/index.js:50-64 | each email rule's message reads back as that rule |
| Registration.PasswordMessage | src/index.js:66-98 | each password rule's message reads back as that rule |
| Registration.Message | src/index.js:28-116 | every one of the sixteen messages reads back as its own rule, so no two rules share a text |
| Registration.OutcomeMessage | src/index.js:28-122 | a rejection shows the broken rule's message, which reads back as that rule; "Registration successful!" reads back as no rule |
| Registration.OutcomeMessageDistinct | src/index.js:28-122 | two outcomes show the same text only when both are registrations or both are rejections for the same rule |
| Registration.IsSpecial | src/index.js:87 | every character of the special class is a visible ASCII character that is neither a letter nor a digit |
| Registration.UsernameError | src/index.js:28-48 | the rule the username block reports is broken by the trimmed name; an accepted name has at least 4 characters, all letters or digits |
| Registration.EmailError | src/index.js:50-64 | the rule the email block reports is broken by the trimmed, lowered email; an accepted email matches the regular expression as its grammar reads and does not end in "@example.com" |
| Registration.PasswordError | src/index.js:66-98 | the rule the password block reports is broken by the password; an accepted password has at least 12 characters, both cases, a digit and a special character |
| Registration.NewRecord | src/index.js:118 | the stored username and email are already lower case (lowering them again changes nothing), the username keeps the trimmed length, and the password is the one typed |
| Registration.ValidateRegistration | src/index.js:17-123 | a rejection names a rule the form really breaks; a registration happens only for a form passing every field rule, the confirmation and the terms, and stores the normalised record under a username not yet taken |
| Registration.FirstBrokenUsername | src/index.js:28-48 | the username block reports the first rule of the username list, in source order, that the trimmed name breaks |
| Registration.FirstBrokenEmail | src/index.js:50-64 | the email block reports the first rule of the email list that the email breaks |
| Registration.FirstBrokenPassword | src/index.js:66-98 | the password block reports the first rule of the password list that the password breaks |
| Registration.EmailErrorIsFirst | src/index.js:50-64 | the email block reports the first of blank, pattern, `@example.com` suffix that the email breaks |
| Registration.ValidateIsFirstBroken | src/index.js:28-119 | the handler rejects with the first rule of `RuleOrder` the form breaks, and otherwise registers the normalised record |
| Registration.RuleOrderPositions | src/index.js:28-116 | the sixteen rules each occur once in `RuleOrder`, in source order |
| Registration.FailFast | src/index.js:28-116 | the handler reports rule `k` exactly when rule `k` is broken and every earlier rule holds; it registers exactly when no rule is broken |
| Registration.BlankUsernameFirst | src/index.js:28-30 | a blank username yields "Username cannot be blank." whatever the other fields and the stored list hold |
| Registration.UsernameAcceptedIff | src/index.js:28-48 | the username rules pass exactly for names of at least 4 characters, not all one character, made of `[a-zA-Z0-9]` only |
| Registration.UsernameExamples | src/index.js:31-42 | "ab1" fails on length; "aaaa" fails on distinct characters |
| Registration.LoweredNameMayRepeatOneChar | src/index.js:37 | "Aaaa" passes every username rule but is stored as "aaaa", which has one distinct character |
| Registration.EmailAcceptedIff | src/index.js:50-64 | the email rules pass exactly when the pattern matches and the email does not end in "@example.com" |
| Registration.ExampleDomainRejected | src/index.js:53-64 | with a valid username, an email that matches the pattern and ends in "@example.com" after trimming and lowering is rejected with the domain message |
| Registration.ExampleDomainExample | src/index.js:59-64 | "x@example.com" passes the pattern and fails the domain rule |
| Registration.SubdomainExample | src/index.js:59 | "x@mail.example.com" passes both email rules |
| Registration.PasswordAcceptedIff | src/index.js:66-98 | the password rules pass exactly when all of these hold: 12 or more characters; an upper-case letter, a lower-case letter, a digit and a listed special character; no 8-character stretch that reads "password" in any case |
| Registration.NoLetterPNoWord | src/index.js:93 | a password without the letter p in either case never contains "password" after lowering |
| Registration.PasswordWithoutLetterPAccepted | src/index.js:66-98 | a password of 12 or more characters that has every required kind of character and no letter p is accepted |
| Registration.PasswordExample | src/index.js:66-98 | "Abcdefghij1!" passes every password rule |
| Registration.MismatchOnlyAfterFieldRules | src/index.js:99-101 | "Passwords do not match." is reported exactly when every username, email and password rule passed and the confirmation differs |
| Registration.TermsOnlyWhenPasswordsMatch | src/index.js:103-108 | the terms message is reported exactly when the field rules passed, the passwords match and the box is unticked |
| Registration.TakenIsCheckedLast | src/index.js:110-116 | "That username is already taken." is reported exactly when every earlier rule (fields, confirmation, terms) passed and the lowered name is stored; registration succeeds exactly when they passed and it is not stored |
| Registration.FieldRejectionIgnoresStore | src/index.js:28-110 | a form failing a field rule or the terms is rejected identically whatever list is stored |
| Registration.NewRecordValid | src/index.js:118 | the record built from accepted fields has a lower-case alphanumeric username of at least 4 characters, a lower-case email the pattern accepts outside "@example.com", and a password passing every password rule |
| Registration.RegisteredRecord | src/index.js:110-118 | a registration yields `{lower(trim(username)), lower(trim(email)), password}`; that username was not stored before, and the record is valid |
| Registration.AppendKeepsInvariant | src/index.js:111-119 | appending a valid record with a fresh name keeps usernames unique and every record valid |
| Registration.RegistrationKeepsInvariant | src/index.js:110-119 | appending a registered record keeps the stored list's invariant |
| Registration.SecondRegistrationRefused | src/index.js:110-119 | after a registration, a form with the same lowered username is refused: "already taken" when its other rules pass, otherwise with the same error as before |
| Login.Message | src/index.js:134-150 | "Invalid username or password." is shown exactly for an unknown name and a wrong password |
| Login.SuccessMessage | src/index.js:153-157 | the success text starts with "Login successful!", ends with " You will remain logged in." exactly when the persist box is ticked, and is exactly as long as the greeting plus, when ticked, the notice; so it is one of those two texts |
| Login.CheckLogin | src/index.js:125-151 | a successful login names a stored record whose username is the trimmed, lowered input and whose password equals the non-blank password typed |
| Login.OutcomeMessage | src/index.js:134-157 | a refusal shows its message and a success the success text for its persist flag; the text starts with "Login successful!" exactly when the login succeeded |
| Login.BlankUsernameFirst | src/index.js:134-136 | a blank username is reported exactly when the trimmed name is empty, whatever is stored or typed as password |
| Login.UnknownBeforeBlankPassword | src/index.js:138-143 | an unknown username is reported exactly when the name is non-blank and not stored, whether or not the password is blank |
| Login.BlankPasswordOnlyForKnownName | src/index.js:145-147 | a blank password is reported exactly when the name is non-blank and stored |
| Login.WrongPasswordIff | src/index.js:148-150 | a wrong password is reported exactly when the name is stored, the password is non-blank and differs from the first stored record's |
| Login.LoginSucceedsIff | src/index.js:138-151 | with unique usernames, a login succeeds exactly when some stored record has the lowered name and the typed non-blank password, and it returns that record |
| Store.UserStore.constructor | src/index.js:160-163 | the store starts from the loaded list |
| Store.UserStore.Register | src/index.js:110-119 | returns the handler's decision on the current list. A registration appends exactly its record and keeps earlier records. A refusal leaves the list unchanged. The stored list's invariant is kept |
| Store.UserStore.LogIn | src/index.js:138-139 | returns the login decision on the current list and leaves the list unchanged |
| Store.RegisteredUserCanLogIn | src/index.js:118-151 | right after registering, logging in with the same password and the same username in any case, with any surrounding whitespace, succeeds on the new record |

## Left out

- DOM glue has no model. This covers `showError`, `hideError`, focusing the offending field, `reset`, `alert`, `addEventListener` and `preventDefault`. The handlers' effect is modelled as the returned outcome and its message text.
- `localStorage` and JSON (de)serialisation (src/index.js:160-167) have no model. The stored list is the `UserStore.users` field:
  - the constructor stands for `loadUsers`;
  - reassigning the field stands for `saveUsers`.

  Malformed stored JSON, which makes `JSON.parse` throw, is not modelled.
- Text.ToLower: lowers ASCII letters only. JavaScript's `toLowerCase` also maps other Unicode letters, some of them onto ASCII (U+212A KELVIN SIGN becomes `k`). Characters are Dafny `char`s, not UTF-16 code units. So `length` and `new Set(...)` count code points.
- Regular expressions are hand-written predicates, not a regex engine. `\w`, `\d`, `[A-Z]`, `[a-z]` and the special-character class are ASCII, as in JavaScript without the `u` flag.
- Login.LoginSucceedsIff: assumes unique usernames. On a list with repeated names, the login checks the first matching record only; `WrongPasswordIff` states that case.
- Stored records that lack fields, or hold non-string values, are not modelled. The model's records always hold three strings.
