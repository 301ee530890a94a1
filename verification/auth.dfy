/**
  Registration and login over the users table. The password hash
  (bcrypt), its comparison and token signing (JWT) are foreign code: the
  model receives them as the function fields of a `Crypto` value and
  assumes of them only that a password matches its own hash. bcrypt's
  random salt is an explicit argument of `Register`.
 */
module Auth {
  import opened Wrappers
  import opened Tables
  import opened Store

  /** bcrypt's cost factor: `bcrypt.hash(password, 10)`. */
  const SaltRounds: nat := 10

  /** The token payload `{ sub, email, username }`. */
  datatype Claims = Claims(sub: Id, email: string, username: string)

  datatype Crypto = Crypto(
    hash: (string, nat, string) -> string,  // (password, rounds, salt) to stored hash
    compare: (string, string) -> bool,      // (password, stored hash) to "matches"
    sign: Claims -> string)                 // payload to signed token

  /** The one property the model relies on: a password matches its hash. */
  ghost predicate Sound(c: Crypto) {
    forall password, rounds, salt :: c.compare(password, c.hash(password, rounds, salt))
  }

  datatype Registered = Registered(message: string, user: UserSummary)
  datatype LoggedIn = LoggedIn(message: string, token: string, user: UserSummary)

  /** Some user already has this email or this username. */
  predicate Taken(s: Store, username: string, email: string) {
    exists u :: u in s.users && (u.email == email || u.username == username)
  }

  /**
    `register`: refuses an email or username already in use; otherwise
    stores one new user whose password column holds the hash, and returns
    the user's public projection.
   */
  function Register(s: Store, c: Crypto, salt: string, username: string, email: string, password: string): (r: Step<Registered>)
    ensures r.result.Err? <==> Taken(s, username, email)
    ensures r.result.Err? ==> r.result.error == BadRequest("User already exists") && r.store == s
    ensures r.result.Ok? ==>
      var u := User(r.result.value.user.id, username, email, c.hash(password, SaltRounds, salt));
      && r.result.value.user == Summary(u)
      && r.store == s.(users := s.users + [u], nextId := r.store.nextId)
      && r.store.nextId > s.nextId
    ensures r.result.Ok? && Wf(s) ==> forall v :: v in s.users ==> v.id != r.result.value.user.id
    ensures Wf(s) ==> Wf(r.store)
  {
    match FindFirst(s.users, (u: User) => u.email == email || u.username == username)
    case Some(_) => Step(Err(BadRequest("User already exists")), s)
    case None =>
      var u := User(MintId('u', s.nextId), username, email, c.hash(password, SaltRounds, salt));
      var s' := s.(users := s.users + [u], nextId := s.nextId + 1);
      assert Wf(s) ==> Wf(s') by {
        if Wf(s) {
          UniqueAppend(s.users, u, UserId);
          UniqueAppend(s.users, u, Email);
          UniqueAppend(s.users, u, Username);
        }
      }
      Step(Ok(Registered("User registered successfully", Summary(u))), s')
  }

  /** `user.findUnique({ where: { email } })`. */
  function FindUserByEmail(s: Store, email: string): (r: Option<User>)
    ensures r.Some? ==> r.value in s.users && r.value.email == email
    ensures r.None? <==> forall u :: u in s.users ==> u.email != email
  {
    FindFirst(s.users, (u: User) => u.email == email)
  }

  /**
    `login`: the same Unauthorized error for an unknown email and for a
    wrong password; on success a token signed over the user's claims and
    the user's public projection. The store is an input only.
   */
  function Login(s: Store, c: Crypto, email: string, password: string): (r: Result<LoggedIn, Error>)
    ensures r.Err? ==> r.error == Unauthorized("Invalid credentials")
    ensures (forall u :: u in s.users ==> u.email != email) ==> r.Err?
    ensures r.Ok? ==> exists u :: u in s.users && u.email == email && c.compare(password, u.password)
                                  && r.value.token == c.sign(Claims(u.id, u.email, u.username))
                                  && r.value.user == Summary(u)
  {
    match FindUserByEmail(s, email)
    case None => Err(Unauthorized("Invalid credentials"))
    case Some(u) =>
      if !c.compare(password, u.password) then Err(Unauthorized("Invalid credentials"))
      else
        var token := c.sign(Claims(u.id, u.email, u.username));
        Ok(LoggedIn("Login successful", token, Summary(u)))
  }

  /**
    In a well-formed store the email names at most one user, and login
    succeeds exactly when the password matches that user's stored hash,
    signing that user's claims.
   */
  lemma LoginCharacterised(s: Store, c: Crypto, email: string, password: string, u: User)
    requires Wf(s)
    requires u in s.users && u.email == email
    ensures Login(s, c, email, password).Ok? <==> c.compare(password, u.password)
    ensures Login(s, c, email, password).Ok? ==>
      Login(s, c, email, password).value == LoggedIn("Login successful", c.sign(Claims(u.id, email, u.username)), Summary(u))
  {
    var found := FindUserByEmail(s, email);
    UniqueKeyDetermines(s.users, Email, found.value, u);
  }

  /** Registering twice with the same email or username fails the second time. */
  lemma DuplicateRegisterFails(s: Store, c: Crypto, salt1: string, salt2: string,
                               username: string, email: string, password: string,
                               username2: string, email2: string, password2: string)
    requires Register(s, c, salt1, username, email, password).result.Ok?
    requires username2 == username || email2 == email
    ensures
      var s' := Register(s, c, salt1, username, email, password).store;
      Register(s', c, salt2, username2, email2, password2) == Step(Err(BadRequest("User already exists")), s')
  {
    var r := Register(s, c, salt1, username, email, password);
    var u := r.store.users[|r.store.users| - 1];
    assert u in r.store.users && (u.email == email2 || u.username == username2);
  }

  /**
    With a sound hash, whoever registers can then log in with the same
    email and password, and the token carries the new user's id.
   */
  lemma RegisterThenLogin(s: Store, c: Crypto, salt: string, username: string, email: string, password: string)
    requires Wf(s) && Sound(c)
    requires Register(s, c, salt, username, email, password).result.Ok?
    ensures
      var r := Register(s, c, salt, username, email, password);
      var id := r.result.value.user.id;
      Login(r.store, c, email, password) ==
        Ok(LoggedIn("Login successful", c.sign(Claims(id, email, username)), UserSummary(id, username, email)))
  {
    var r := Register(s, c, salt, username, email, password);
    var u := User(r.result.value.user.id, username, email, c.hash(password, SaltRounds, salt));
    assert u in r.store.users;
    LoginCharacterised(r.store, c, email, password, u);
  }
}
