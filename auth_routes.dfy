/**
 * The auth router (server/routes/auth.js): `/register` saves a user and issues a token for it,
 * `/login` looks the user up by email and checks the password through the hash comparison.
 * Users are kept in a map from email to user document; bcrypt's `compare` and the JWT library
 * are parameters.
 */
module AuthRoutes {
  import opened Wrappers
  import opened ServerCommon
  import BooksRoutes

  /** A user document: identifier and the fields `new User({ name, email, password })` gets. */
  datatype User = User(id: ObjectId, name: string, email: string, password: string)

  datatype Body =
    | UserAndToken(user: User, token: string)   // `{ user, token }`
    | ErrorField(error: string)                 // `{ error: ... }`
    | SaveError                                 // `send(error)` for the error `save()` threw
    | ThrownError                               // `send(error)` for an `Error`, which serializes as `{}`

  datatype Reply = Reply(status: nat, body: Body)

  /** The refusal login gives for an unknown email or a password that does not match. */
  const InvalidCredentials: Reply := Reply(400, ErrorField("Invalid login credentials"))

  /** The reply of the `catch` when `bcrypt.compare` rejects ("Illegal arguments"). */
  const CompareFailed: Reply := Reply(400, ThrownError)

  /** `bcrypt.compare(candidate, storedHash)` on two strings. */
  type PasswordCheck = (string, string) -> bool

  /**
   * `POST /login`. `password` is `None` when the body's `password` is not a string (missing,
   * a number, an object): `bcrypt.compare` then rejects, and the `catch` answers 400 with the
   * error object. That happens only once the email has been found.
   */
  function Login(users: map<string, User>, email: string, password: Option<string>, compare: PasswordCheck,
                 jwtSecret: Option<string>, jwt: Jwt): Reply
  {
    if email !in users then InvalidCredentials
    else
      var user := users[email];
      if password.None? then CompareFailed
      else if !compare(password.value, user.password) then InvalidCredentials
      else Reply(200, UserAndToken(user, IssueToken(user.id, jwtSecret, jwt)))
  }

  /** Login succeeds exactly for a known email and a string password whose stored hash it
      matches, with that user and a token signed over its id. A known email with a password
      that is not a string gets the serialized error; every other failure is the same 400. */
  lemma LoginOutcomes(users: map<string, User>, email: string, password: Option<string>, compare: PasswordCheck,
                      jwtSecret: Option<string>, jwt: Jwt)
    ensures var r := Login(users, email, password, compare, jwtSecret, jwt);
      && (r.status == 200 <==> email in users && password.Some? && compare(password.value, users[email].password))
      && (r.status == 200 ==> r.body == UserAndToken(users[email], jwt.sign(users[email].id, SigningKey(jwtSecret))))
      && (email in users && password.None? ==> r == CompareFailed)
      && (r.status != 200 && !(email in users && password.None?) ==> r == InvalidCredentials)
  {
  }

  /** No user enumeration among string passwords: an unknown email and a known email with a
      wrong password get identical replies. */
  lemma LoginNonEnumeration(users: map<string, User>, unknown: string, anyPassword: Option<string>,
                            known: string, wrongPassword: string, compare: PasswordCheck,
                            jwtSecret: Option<string>, jwt: Jwt)
    requires unknown !in users
    requires known in users && !compare(wrongPassword, users[known].password)
    ensures Login(users, unknown, anyPassword, compare, jwtSecret, jwt)
         == Login(users, known, Some(wrongPassword), compare, jwtSecret, jwt)
    ensures Login(users, unknown, anyPassword, compare, jwtSecret, jwt) == InvalidCredentials
  {
  }

  /** Leaving the password out tells registered emails from unregistered ones: the first get
      the serialized error, the second "Invalid login credentials". */
  lemma LoginMissingPasswordReveals(users: map<string, User>, known: string, unknown: string,
                                    compare: PasswordCheck, jwtSecret: Option<string>, jwt: Jwt)
    requires known in users && unknown !in users
    ensures Login(users, known, None, compare, jwtSecret, jwt) == CompareFailed
    ensures Login(users, unknown, None, compare, jwtSecret, jwt) == InvalidCredentials
    ensures Login(users, known, None, compare, jwtSecret, jwt) != Login(users, unknown, None, compare, jwtSecret, jwt)
  {
  }

  /** Login as evidently intended: a password that is not a string is refused like a wrong one. */
  function LoginChecked(users: map<string, User>, email: string, password: Option<string>, compare: PasswordCheck,
                        jwtSecret: Option<string>, jwt: Jwt): (r: Reply)
    ensures password.Some? ==> r == Login(users, email, password, compare, jwtSecret, jwt)
    ensures password.None? ==> r == InvalidCredentials
  {
    if password.None? then InvalidCredentials else Login(users, email, password, compare, jwtSecret, jwt)
  }

  /** With the correction, every refusal is the same reply, whatever the body holds: an unknown
      email and a known one with a missing or wrong password cannot be told apart. */
  lemma LoginCheckedNonEnumeration(users: map<string, User>, unknown: string, anyPassword: Option<string>,
                                   known: string, badPassword: Option<string>, compare: PasswordCheck,
                                   jwtSecret: Option<string>, jwt: Jwt)
    requires unknown !in users
    requires known in users && (badPassword.None? || !compare(badPassword.value, users[known].password))
    ensures LoginChecked(users, unknown, anyPassword, compare, jwtSecret, jwt) == InvalidCredentials
    ensures LoginChecked(users, known, badPassword, compare, jwtSecret, jwt) == InvalidCredentials
  {
  }

  /** The password enters only through the hash comparison: two candidates the comparison treats
      alike get the same reply, so equality with the stored value decides nothing by itself. */
  lemma LoginUsesOnlyHashCompare(users: map<string, User>, email: string, p1: string, p2: string,
                                 compare: PasswordCheck, jwtSecret: Option<string>, jwt: Jwt)
    requires email in users ==> compare(p1, users[email].password) == compare(p2, users[email].password)
    ensures Login(users, email, Some(p1), compare, jwtSecret, jwt) == Login(users, email, Some(p2), compare, jwtSecret, jwt)
  {
  }

  /** The token login issues is accepted by the books gate as the logged-in user. */
  lemma LoginTokenResolves(users: map<string, User>, email: string, password: Option<string>, compare: PasswordCheck,
                           jwtSecret: Option<string>, jwt: Jwt)
    requires VerifiesOwnTokens(jwt)
    requires Login(users, email, password, compare, jwtSecret, jwt).status == 200
    ensures var r := Login(users, email, password, compare, jwtSecret, jwt);
      BooksRoutes.Authenticate(Some(BooksRoutes.BearerPrefix + r.body.token), jwtSecret, jwt) == Some(r.body.user.id)
  {
    BooksRoutes.AuthenticateIssued(users[email].id, jwtSecret, jwt);
  }

  /** The `users` collection, seen as a map from email to user, and the counter that stands for
      ObjectId generation. */
  class UserStore {
    var users: map<string, User>
    var nextId: ObjectId

    /** Each user sits under its own email and has an id below the counter. */
    ghost predicate Valid()
      reads this
    {
      forall e :: e in users ==> users[e].email == e && users[e].id < nextId
    }

    constructor ()
      ensures Valid() && users == map[] && nextId == 0
    {
      users := map[];
      nextId := 0;
    }

    /**
     * `POST /register`. Whether `user.save()` succeeds is decided by the User model, which is
     * not part of this model, and is given as `saved`. On success the user is stored first and
     * the reply is 201 with the user and a token for its id; otherwise the reply is 400, no
     * token is issued and nothing is stored.
     */
    method Register(name: string, email: string, password: string, saved: bool,
                    jwtSecret: Option<string>, jwt: Jwt) returns (reply: Reply)
      requires Valid()
      modifies this
      ensures Valid()
      ensures saved ==>
        var u := User(old(nextId), name, email, password);
        && users == old(users)[email := u]
        && nextId == old(nextId) + 1
        && reply == Reply(201, UserAndToken(u, IssueToken(u.id, jwtSecret, jwt)))
      ensures !saved ==> users == old(users) && nextId == old(nextId) && reply == Reply(400, SaveError)
      ensures saved ==> forall e :: e in old(users) ==> old(users)[e].id != users[email].id
    {
      if !saved {
        reply := Reply(400, SaveError);
        return;
      }
      var user := User(nextId, name, email, password);
      users := users[email := user];
      nextId := nextId + 1;
      reply := Reply(201, UserAndToken(user, IssueToken(user.id, jwtSecret, jwt)));
    }
  }

  /** A just-registered user logs in with any password the hash comparison accepts against the
      stored value, and gets a token that the books gate resolves to the same id register's did. */
  lemma LoginAfterRegister(users: map<string, User>, u: User, password: string, compare: PasswordCheck,
                           jwtSecret: Option<string>, jwt: Jwt)
    requires VerifiesOwnTokens(jwt)
    requires compare(password, u.password)
    ensures Login(users[u.email := u], u.email, Some(password), compare, jwtSecret, jwt)
         == Reply(200, UserAndToken(u, IssueToken(u.id, jwtSecret, jwt)))
    ensures BooksRoutes.Authenticate(Some(BooksRoutes.BearerPrefix + IssueToken(u.id, jwtSecret, jwt)), jwtSecret, jwt) == Some(u.id)
  {
    BooksRoutes.AuthenticateIssued(u.id, jwtSecret, jwt);
  }
}
