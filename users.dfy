/** The stored user list: records, the `find` and `some` searches the handlers run over it,
    and the uniqueness of usernames that registration maintains. */
module Users {
  import opened Wrappers
  import opened Search

  /** One stored account, the object `{ username, email, password }` pushed onto the list. */
  datatype UserRecord = UserRecord(username: string, email: string, password: string)

  /** `users.some((user) => user.username === name)`: some record has that username, which is
      exactly when the left-to-right scan of `find` stops at one. */
  function IsTaken(users: seq<UserRecord>, name: string): (r: bool)
    ensures r <==> FindIndex(users, name).Some?
  {
    exists i :: 0 <= i < |users| && users[i].username == name
  }

  /** No two records share a username. */
  predicate UniqueUsernames(users: seq<UserRecord>) {
    forall i, j :: 0 <= i < j < |users| ==> users[i].username != users[j].username
  }

  /** The position of the first record whose username is `name`. */
  function FindIndex(users: seq<UserRecord>, name: string): Option<nat> {
    FirstIndex(users, (u: UserRecord) => u.username == name)
  }

  /** `users.find((user) => user.username === name)`: the first record with that username, if any. */
  function FindUser(users: seq<UserRecord>, name: string): (r: Option<UserRecord>)
    ensures r.Some? <==> IsTaken(users, name)
    ensures r.Some? ==> r.value.username == name
    ensures r.Some? ==> exists i :: 0 <= i < |users| && users[i] == r.value
                                  && forall j :: 0 <= j < i ==> users[j].username != name
  {
    match FindIndex(users, name)
    case None => None
    case Some(i) => Some(users[i])
  }

  /** With unique usernames, looking a stored username up finds that very record. */
  lemma {:induction false} FindUserUnique(users: seq<UserRecord>, i: nat)
    requires UniqueUsernames(users) && i < |users|
    ensures FindUser(users, users[i].username) == Some(users[i])
  {
    var name := users[i].username;
    var k := FindIndex(users, name);
    assert k.Some?;
    assert k.value == i;
  }

  /** Appending a record with a fresh username: lookups of that name find it, others are unaffected. */
  lemma {:induction false} FindUserAppend(users: seq<UserRecord>, rec: UserRecord, name: string)
    requires !IsTaken(users, rec.username)
    ensures FindUser(users + [rec], name) ==
      if name == rec.username then Some(rec) else FindUser(users, name)
  {
    FirstIndexAppend(users, rec, (u: UserRecord) => u.username == name);
    assert (users + [rec])[|users|] == rec;
    forall i | 0 <= i < |users| ensures (users + [rec])[i] == users[i] { }
  }

  /** Appending a record with a fresh username keeps usernames unique. */
  lemma {:induction false} AppendKeepsUnique(users: seq<UserRecord>, rec: UserRecord)
    requires UniqueUsernames(users) && !IsTaken(users, rec.username)
    ensures UniqueUsernames(users + [rec])
  {
    var t := users + [rec];
    forall i, j | 0 <= i < j < |t| ensures t[i].username != t[j].username {
      assert t[i] == users[i];
      if j < |users| { assert t[j] == users[j]; } else { assert t[j] == rec; }
    }
  }
}
