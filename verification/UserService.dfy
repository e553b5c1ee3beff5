/**
 * The authentication service: login, registration and deletion of users
 * over three repositories (users, salts, key pairs). The hashing service,
 * the token service and the identifier generator are collaborators whose
 * internals are not modelled; they enter as function values.
 *
 * Every operation is a pure function of the repositories' contents. A
 * successful registration or deletion returns the repository calls it makes,
 * in order; `Perform` gives the repository contents after those calls.
 */
module UserService {
  import opened Wrappers
  import opened Bytes

  type UserId = string
  type Salt = seq<byte>

  /** A stored user: the password is kept only as its salted hash. */
  datatype User = User(id: UserId, email: string, passwordHash: string)

  /** A user's RSA key pair, as key documents. */
  datatype Keypair = Keypair(userId: UserId, publicKey: string, privateKey: string)

  /** The contents of the user, salt and key pair repositories. */
  datatype State = State(users: seq<User>, salts: map<UserId, Salt>, keypairs: map<UserId, Keypair>)

  /** The two results of hashing a password under a freshly generated salt. */
  datatype Salted = Salted(hash: string, salt: Salt)

  /** The collaborators the service calls. */
  datatype Collaborators = Collaborators(
    hash: (string, Salt) -> string,       // hash of a password under a given salt
    hashWithNewSalt: string -> Salted,    // hash of a password under a salt it generates
    token: (User, string) -> string)      // token for a user, signed with a private key

  /** Failures the service reports. */
  datatype AuthError =
    | AuthenticationFailed  // the credentials do not match: unknown email or wrong password
    | NotFound              // a record the operation needs is missing

  /** A call the service makes on a repository. */
  datatype RepoCall =
    | InsertUser(id: UserId, email: string, passwordHash: string)
    | InsertSalt(userId: UserId, salt: Salt)
    | DeleteUserRecord(id: UserId)
    | DeleteSalt(userId: UserId)

  // ---------------------------------------------------------------------
  // Repository lookups
  // ---------------------------------------------------------------------

  /** The first user with an email address. */
  function FindByEmail(users: seq<User>, email: string): (r: Option<User>)
    ensures r.Some? ==> r.value in users && r.value.email == email
    ensures r.None? ==> forall i :: 0 <= i < |users| ==> users[i].email != email
    decreases |users|
  {
    if |users| == 0 then None
    else if users[0].email == email then Some(users[0])
    else FindByEmail(users[1..], email)
  }

  /** The first user with an identifier. */
  function FindById(users: seq<User>, id: UserId): (r: Option<User>)
    ensures r.Some? ==> r.value in users && r.value.id == id
    ensures r.None? ==> forall i :: 0 <= i < |users| ==> users[i].id != id
    decreases |users|
  {
    if |users| == 0 then None
    else if users[0].id == id then Some(users[0])
    else FindById(users[1..], id)
  }

  /** The password matches: its hash under the user's stored salt is the stored hash. */
  predicate PasswordMatches(env: Collaborators, user: User, salt: Salt, password: string) {
    env.hash(password, salt) == user.passwordHash
  }

  // ---------------------------------------------------------------------
  // Operations
  // ---------------------------------------------------------------------

  /**
   * Logs a user in by email and password. With the user, their salt and
   * their key pair on record, the result is the token for that user and
   * private key when the password matches, and an authentication failure
   * when it does not.
   */
  function Login(env: Collaborators, st: State, email: string, password: string): (r: Result<string, AuthError>)
    ensures forall u :: FindByEmail(st.users, email) == Some(u) && u.id in st.salts && u.id in st.keypairs ==>
      (PasswordMatches(env, u, st.salts[u.id], password) ==> r == Success(env.token(u, st.keypairs[u.id].privateKey)))
      && (!PasswordMatches(env, u, st.salts[u.id], password) ==> r == Failure(AuthenticationFailed))
  {
    match FindByEmail(st.users, email)
    case None => Failure(AuthenticationFailed)
    case Some(user) =>
      if user.id !in st.salts then Failure(NotFound)
      else if !PasswordMatches(env, user, st.salts[user.id], password) then Failure(AuthenticationFailed)
      else if user.id !in st.keypairs then Failure(NotFound)
      else Success(env.token(user, st.keypairs[user.id].privateKey))
  }

  /**
   * Registers a user. The password is hashed under a freshly generated salt;
   * the service inserts one user record with the email and that hash, and
   * stores that salt. `userId` and `saltKey` are the identifiers the
   * service generates for the two records.
   */
  function AddUser(env: Collaborators, email: string, password: string, userId: UserId, saltKey: UserId): (r: seq<RepoCall>)
    ensures CountInsertUser(r, email, env.hashWithNewSalt(password).hash) == 1
    ensures exists k :: InsertSalt(k, env.hashWithNewSalt(password).salt) in r
  {
    var salted := env.hashWithNewSalt(password);
    var calls := [InsertUser(userId, email, salted.hash), InsertSalt(saltKey, salted.salt)];
    assert calls[1..][1..] == [];
    assert CountInsertUser(calls[1..], email, salted.hash) == 0;
    assert calls[1] in calls;
    calls
  }

  /**
   * Deletes a user after checking their password. With the user and their
   * salt on record, a matching password deletes the user record and the
   * salt record once each; a wrong password is an authentication failure.
   */
  function DeleteUser(env: Collaborators, st: State, id: UserId, password: string): (r: Result<seq<RepoCall>, AuthError>)
    ensures forall u :: FindById(st.users, id) == Some(u) && id in st.salts ==>
      (PasswordMatches(env, u, st.salts[id], password) ==>
        r.Success? && multiset(r.value)[DeleteUserRecord(id)] == 1 && multiset(r.value)[DeleteSalt(id)] == 1)
      && (!PasswordMatches(env, u, st.salts[id], password) ==> r == Failure(AuthenticationFailed))
  {
    match FindById(st.users, id)
    case None => Failure(NotFound)
    case Some(user) =>
      if id !in st.salts then Failure(NotFound)
      else if !PasswordMatches(env, user, st.salts[id], password) then Failure(AuthenticationFailed)
      else Success([DeleteUserRecord(id), DeleteSalt(id)])
  }

  // ---------------------------------------------------------------------
  // Repository effects
  // ---------------------------------------------------------------------

  /** Number of `InsertUser` calls with an email and hash, whatever the identifier. */
  function CountInsertUser(calls: seq<RepoCall>, email: string, hash: string): nat
    decreases |calls|
  {
    if |calls| == 0 then 0
    else
      (if calls[0].InsertUser? && calls[0].email == email && calls[0].passwordHash == hash then 1 else 0)
      + CountInsertUser(calls[1..], email, hash)
  }

  /** The users without those that carry an identifier. */
  function RemoveUsers(users: seq<User>, id: UserId): (r: seq<User>)
    ensures forall u :: u in r <==> u in users && u.id != id
    ensures |r| <= |users|
    decreases |users|
  {
    if |users| == 0 then []
    else if users[0].id == id then RemoveUsers(users[1..], id)
    else [users[0]] + RemoveUsers(users[1..], id)
  }

  /** The repositories after one call. */
  function Apply(st: State, call: RepoCall): State {
    match call
    case InsertUser(id, email, hash) => st.(users := st.users + [User(id, email, hash)])
    case InsertSalt(k, salt) => st.(salts := st.salts[k := salt])
    case DeleteUserRecord(id) => st.(users := RemoveUsers(st.users, id))
    case DeleteSalt(k) => st.(salts := st.salts - {k})
  }

  /** The repositories after a sequence of calls, in order. */
  function Perform(st: State, calls: seq<RepoCall>): State
    decreases |calls|
  {
    if |calls| == 0 then st else Perform(Apply(st, calls[0]), calls[1..])
  }

  // ---------------------------------------------------------------------
  // Properties
  // ---------------------------------------------------------------------

  /**
   * After registration the user table holds the old records followed by
   * exactly one new record with the email and the salted hash; the salt is
   * stored under its key.
   */
  lemma AddUserEffect(env: Collaborators, st: State, email: string, password: string, userId: UserId, saltKey: UserId)
    ensures var after := Perform(st, AddUser(env, email, password, userId, saltKey));
      && after.users == st.users + [User(userId, email, env.hashWithNewSalt(password).hash)]
      && after.salts == st.salts[saltKey := env.hashWithNewSalt(password).salt]
  {
    var calls := AddUser(env, email, password, userId, saltKey);
    PerformPair(st, calls[0], calls[1]);
  }

  /**
   * After a successful deletion no record with the identifier is left in the
   * user table, the salt is gone, and every other user and salt is kept.
   */
  lemma DeleteUserEffect(env: Collaborators, st: State, id: UserId, password: string)
    requires DeleteUser(env, st, id, password).Success?
    ensures var after := Perform(st, DeleteUser(env, st, id, password).value);
      && (forall u :: u in after.users <==> u in st.users && u.id != id)
      && id !in after.salts
      && (forall k :: k != id ==> (k in after.salts <==> k in st.salts))
      && (forall k :: k != id && k in st.salts ==> after.salts[k] == st.salts[k])
  {
    var calls := DeleteUser(env, st, id, password).value;
    PerformPair(st, calls[0], calls[1]);
  }

  /** Performing two calls is applying one, then the other. */
  lemma PerformPair(st: State, first: RepoCall, second: RepoCall)
    ensures Perform(st, [first, second]) == Apply(Apply(st, first), second)
  {
    var s1 := Apply(st, first);
    var s2 := Apply(s1, second);
    assert [first, second][1..] == [second];
    assert [second][1..] == [];
    assert Perform(s1, [second]) == Perform(s2, []);
  }

  /**
   * A registered user can log in with the password they registered with,
   * provided the salt is stored under the user's identifier, the hash
   * service reproduces its own hash from that salt, no earlier user holds
   * the email, and a key pair is on record for the user.
   */
  lemma AddUserThenLogin(env: Collaborators, st: State, email: string, password: string, userId: UserId)
    requires env.hash(password, env.hashWithNewSalt(password).salt) == env.hashWithNewSalt(password).hash
    requires FindByEmail(st.users, email).None?
    requires userId in st.keypairs
    ensures var after := Perform(st, AddUser(env, email, password, userId, userId));
      Login(env, after, email, password) ==
        Success(env.token(User(userId, email, env.hashWithNewSalt(password).hash), st.keypairs[userId].privateKey))
  {
    var salted := env.hashWithNewSalt(password);
    var user := User(userId, email, salted.hash);
    var calls := AddUser(env, email, password, userId, userId);
    PerformPair(st, calls[0], calls[1]);
    FindByEmailAppend(st.users, user);
  }

  /** Looking up an email absent from a table, after appending a user with it, finds that user. */
  lemma {:induction false} FindByEmailAppend(users: seq<User>, user: User)
    requires FindByEmail(users, user.email).None?
    ensures FindByEmail(users + [user], user.email) == Some(user)
    decreases |users|
  {
    if |users| > 0 {
      assert (users + [user])[1..] == users[1..] + [user];
      FindByEmailAppend(users[1..], user);
    }
  }

  /**
   * Deleting a freshly registered user with the registration password
   * succeeds and gives back the user table and the salts as they were,
   * provided the salt is stored under the user's identifier, the hash
   * service reproduces its own hash, and the identifier was unused.
   */
  lemma AddUserThenDeleteUser(env: Collaborators, st: State, email: string, password: string, userId: UserId)
    requires env.hash(password, env.hashWithNewSalt(password).salt) == env.hashWithNewSalt(password).hash
    requires FindById(st.users, userId).None?
    requires userId !in st.salts
    ensures var added := Perform(st, AddUser(env, email, password, userId, userId));
      && DeleteUser(env, added, userId, password).Success?
      && Perform(added, DeleteUser(env, added, userId, password).value).users == st.users
      && Perform(added, DeleteUser(env, added, userId, password).value).salts == st.salts
  {
    var user := User(userId, email, env.hashWithNewSalt(password).hash);
    var added := Perform(st, AddUser(env, email, password, userId, userId));
    AddUserEffect(env, st, email, password, userId, userId);
    DeleteAppended(env, st, added, user, env.hashWithNewSalt(password).salt, password);
  }

  /**
   * Deleting the user last appended to the table, whose salt was added
   * under their identifier, with the password matching that salt: the
   * deletion succeeds and leaves the table and salts as before the append.
   */
  lemma {:induction false} DeleteAppended(env: Collaborators, st: State, added: State, user: User, salt: Salt, password: string)
    requires FindById(st.users, user.id).None?
    requires user.id !in st.salts
    requires added.users == st.users + [user]
    requires added.salts == st.salts[user.id := salt]
    requires env.hash(password, salt) == user.passwordHash
    ensures DeleteUser(env, added, user.id, password).Success?
    ensures Perform(added, DeleteUser(env, added, user.id, password).value).users == st.users
    ensures Perform(added, DeleteUser(env, added, user.id, password).value).salts == st.salts
  {
    var id := user.id;
    FindByIdAppend(st.users, user);
    assert FindById(added.users, id) == Some(user);
    assert id in added.salts && added.salts[id] == salt;
    var calls := [DeleteUserRecord(id), DeleteSalt(id)];
    assert DeleteUser(env, added, id, password) == Success(calls);
    PerformDeletion(added, id);
    RemoveUsersAppend(st.users, user);
    DropAddedKey(st.salts, id, salt);
  }

  /** The two deletion calls remove the users with the identifier and the salt stored under it. */
  lemma PerformDeletion(st: State, id: UserId)
    ensures Perform(st, [DeleteUserRecord(id), DeleteSalt(id)]) ==
      st.(users := RemoveUsers(st.users, id), salts := st.salts - {id})
  {
    PerformPair(st, DeleteUserRecord(id), DeleteSalt(id));
  }

  /** Removing a key just added to a map that lacked it gives the map back. */
  lemma DropAddedKey<K, V>(m: map<K, V>, k: K, v: V)
    requires k !in m
    ensures m[k := v] - {k} == m
  {
  }

  /** Looking up an identifier absent from a table, after appending a user with it, finds that user. */
  lemma {:induction false} FindByIdAppend(users: seq<User>, user: User)
    requires FindById(users, user.id).None?
    ensures FindById(users + [user], user.id) == Some(user)
    decreases |users|
  {
    if |users| > 0 {
      assert (users + [user])[1..] == users[1..] + [user];
      FindByIdAppend(users[1..], user);
    }
  }

  /** Removing an identifier no old user carries undoes appending a user with it. */
  lemma {:induction false} RemoveUsersAppend(users: seq<User>, user: User)
    requires FindById(users, user.id).None?
    ensures RemoveUsers(users + [user], user.id) == users
    decreases |users|
  {
    if |users| == 0 {
      assert [user][1..] == [];
    } else {
      assert (users + [user])[1..] == users[1..] + [user];
      RemoveUsersAppend(users[1..], user);
      assert [users[0]] + users[1..] == users;
    }
  }
}
