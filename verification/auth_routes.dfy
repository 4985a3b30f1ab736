/** Registration, login and `/me` of `backend/src/authRoutes.js` over the `users`
    table. bcrypt's `hash` and `compare` and jwt's `sign` are parameters. The
    table is a sequence of rows in insertion order; `SELECT ... WHERE email = ?`
    yields the first row with that email. */
module AuthRoutes {
  import opened Wrappers
  import opened Strings
  import opened AuthMiddleware
  import EmailRoutes
  import Http
  import Rows

  /** One `users` row. */
  datatype User = User(id: nat, email: string, passwordHash: string, name: Option<string>, emailVerified: bool)

  /** The table and its next auto-increment id. */
  datatype Users = Users(rows: seq<User>, nextId: nat)

  /** Ids ascend and stay below the next id; no email is registered twice. */
  ghost predicate Valid(u: Users) {
    && (forall i, j :: 0 <= i < j < |u.rows| ==> u.rows[i].id < u.rows[j].id && u.rows[i].email != u.rows[j].email)
    && (forall i :: 0 <= i < |u.rows| ==> u.rows[i].id < u.nextId)
  }

  /** `String(email || '').trim().toLowerCase()`. */
  function NormalEmail(email: Option<string>): string {
    TrimLower(email.GetOr(""))
  }

  /** `SELECT ... WHERE email = ?`, first row. */
  function ByEmail(rows: seq<User>, email: string): (r: Option<User>)
    ensures r.Some? ==> r.value in rows && r.value.email == email
    ensures r.None? <==> forall i :: 0 <= i < |rows| ==> rows[i].email != email
  {
    Rows.First(rows, (u: User) => u.email == email)
  }

  /** `SELECT ... WHERE id = ?`, first row. */
  function ById(rows: seq<User>, id: nat): (r: Option<User>)
    ensures r.Some? ==> r.value in rows && r.value.id == id
    ensures r.None? <==> forall i :: 0 <= i < |rows| ==> rows[i].id != id
  {
    Rows.First(rows, (u: User) => u.id == id)
  }

  /** The user object the routes answer with (no password hash). */
  datatype PublicUser = PublicUser(id: nat, email: string, name: Option<string>, emailVerified: bool)

  function Public(u: User): PublicUser {
    PublicUser(u.id, u.email, u.name, u.emailVerified)
  }

  // ---------------------------------------------------------------------------
  // POST /register
  // ---------------------------------------------------------------------------

  datatype RegisterReply = RegisterReply(status: int, requiresEmailVerification: bool, user: Option<PublicUser>)

  /** `POST /register`: a blank normalised email or a missing password is 400; an
      email already registered is 400 with nothing inserted; otherwise one row is
      appended, unverified, and the answer is 201 with `requiresEmailVerification`.
      `insertFails` is the database refusing the INSERT (for one, the `UNIQUE`
      email when a concurrent registration got there first), which the `catch`
      answers with 500 and nothing stored. */
  function Register(users: Users, email: Option<string>, password: Option<string>, name: Option<string>,
                    hash: string -> string, insertFails: bool): (r: (Users, RegisterReply))
    ensures NormalEmail(email) == "" || !Truthy(password) ==> r == (users, RegisterReply(Http.BadRequest, false, None))
    ensures NormalEmail(email) != "" && Truthy(password) && ByEmail(users.rows, NormalEmail(email)).Some? ==>
      r == (users, RegisterReply(Http.BadRequest, false, None))
    ensures NormalEmail(email) != "" && Truthy(password) && ByEmail(users.rows, NormalEmail(email)).None? && insertFails ==>
      r == (users, RegisterReply(Http.ServerError, false, None))
    ensures r.1.status == Http.Created <==>
      NormalEmail(email) != "" && Truthy(password) && ByEmail(users.rows, NormalEmail(email)).None? && !insertFails
    ensures r.1.status == Http.Created ==>
      && r.0.rows == users.rows + [User(users.nextId, NormalEmail(email), hash(password.value), OrNull(name), false)]
      && r.0.nextId == users.nextId + 1
      && r.1.requiresEmailVerification
      && r.1.user == Some(PublicUser(users.nextId, NormalEmail(email), OrNull(name), false))
  {
    var normalized := NormalEmail(email);
    if normalized == "" || !Truthy(password) then (users, RegisterReply(Http.BadRequest, false, None))
    else if ByEmail(users.rows, normalized).Some? then (users, RegisterReply(Http.BadRequest, false, None))
    else if insertFails then (users, RegisterReply(Http.ServerError, false, None))
    else
      var row := User(users.nextId, normalized, hash(password.value), OrNull(name), false);
      (Users(users.rows + [row], users.nextId + 1), RegisterReply(Http.Created, true, Some(Public(row))))
  }

  /** Registration keeps ids ascending and emails unique. */
  lemma RegisterPreservesValid(users: Users, email: Option<string>, password: Option<string>, name: Option<string>,
                               hash: string -> string, insertFails: bool)
    requires Valid(users)
    ensures Valid(Register(users, email, password, name, hash, insertFails).0)
  {
    var r := Register(users, email, password, name, hash, insertFails);
    if r.1.status == Http.Created {
      var n := NormalEmail(email);
      AppendUserPreservesValid(users, User(users.nextId, n, hash(password.value), OrNull(name), false), r.0);
    }
  }

  /** Appending a row with the next id and an email not yet present keeps the invariant. */
  lemma AppendUserPreservesValid(users: Users, row: User, users': Users)
    requires Valid(users) && row.id == users.nextId
    requires forall i :: 0 <= i < |users.rows| ==> users.rows[i].email != row.email
    requires users' == Users(users.rows + [row], users.nextId + 1)
    ensures Valid(users')
  {
    var rows := users'.rows;
    forall i, j | 0 <= i < j < |rows|
      ensures rows[i].id < rows[j].id && rows[i].email != rows[j].email
    {
      assert rows[i] == users.rows[i];
      if j == |users.rows| {
        assert rows[j] == row;
      }
    }
  }

  // ---------------------------------------------------------------------------
  // POST /login
  // ---------------------------------------------------------------------------

  /** `maxAge` of the session cookie: 7 days in milliseconds, like the token's `7d`. */
  const SessionMaxAge := 7 * 24 * 60 * 60 * 1000

  /** The one message for an unknown email and for a wrong password. */
  const InvalidCredentials := "Invalid email or password"

  datatype Cookie = Cookie(name: string, value: string, httpOnly: bool, maxAge: int, sameSite: string)

  datatype LoginReply = LoginReply(
    status: int,
    error: Option<string>,
    code: Option<string>,
    token: Option<string>,
    cookie: Option<Cookie>,
    user: Option<PublicUser>)

  function Failure(status: int, error: string): LoginReply {
    LoginReply(status, Some(error), None, None, None, None)
  }

  /** `POST /login`: a blank email or a missing password is 400; otherwise the
      answer depends only on the first account with the normalised email. */
  function Login(users: Users, email: Option<string>, password: Option<string>,
                 compare: (string, string) -> bool, sign: Payload -> string): (r: LoginReply)
    ensures NormalEmail(email) == "" || !Truthy(password) ==> r.status == Http.BadRequest && r.token.None?
    ensures NormalEmail(email) != "" && Truthy(password) ==>
      r == Answer(ByEmail(users.rows, NormalEmail(email)), password.value, compare, sign)
  {
    var normalized := NormalEmail(email);
    if normalized == "" || !Truthy(password) then Failure(Http.BadRequest, "Email and password are required")
    else Answer(ByEmail(users.rows, normalized), password.value, compare, sign)
  }

  /** The rest of `POST /login`, given the account found. In order: unknown email
      401; an unverified account 403 `EMAIL_NOT_VERIFIED` before the password is
      looked at; a wrong password 401 with the same answer as an unknown email;
      otherwise a token for `{userId, email}` in a 7-day cookie. */
  function Answer(found: Option<User>, password: string, compare: (string, string) -> bool,
                  sign: Payload -> string): (r: LoginReply)
    ensures found.None? ==> r == Failure(Http.Unauthorized, InvalidCredentials)
    ensures found.Some? && !found.value.emailVerified ==>
      r.status == Http.Forbidden && r.code == Some("EMAIL_NOT_VERIFIED") && r.token.None?
    ensures found.Some? && found.value.emailVerified && !compare(password, found.value.passwordHash) ==>
      r == Failure(Http.Unauthorized, InvalidCredentials)
    ensures r.status == Http.OK <==>
      found.Some? && found.value.emailVerified && compare(password, found.value.passwordHash)
    ensures r.status == Http.OK ==>
      var u := found.value;
      && r.token == Some(sign(Payload(u.id, u.email)))
      && r.cookie == Some(Cookie("token", sign(Payload(u.id, u.email)), true, 604800000, "lax"))
      && r.user == Some(PublicUser(u.id, u.email, u.name, true))
    ensures r.status == Http.OK <==> r.token.Some?
  {
    match found
    case None => Failure(Http.Unauthorized, InvalidCredentials)
    case Some(u) =>
      if !u.emailVerified then
        LoginReply(Http.Forbidden, Some("Please verify your email before logging in."), Some("EMAIL_NOT_VERIFIED"), None, None, None)
      else if !compare(password, u.passwordHash) then Failure(Http.Unauthorized, InvalidCredentials)
      else
        var token := sign(Payload(u.id, u.email));
        LoginReply(Http.OK, None, None, Some(token), Some(Cookie("token", token, true, SessionMaxAge, "lax")), Some(Public(u)))
  }

  /** An attacker learns nothing from the 401: a wrong password for a verified
      account is answered exactly like an email nobody registered. */
  lemma WrongPasswordLooksUnknown(users: Users, email: string, password: string, other: Users,
                                  compare: (string, string) -> bool, sign: Payload -> string)
    requires TrimLower(email) != "" && password != ""
    requires ByEmail(users.rows, TrimLower(email)).Some?
    requires ByEmail(users.rows, TrimLower(email)).value.emailVerified
    requires !compare(password, ByEmail(users.rows, TrimLower(email)).value.passwordHash)
    requires ByEmail(other.rows, TrimLower(email)).None?
    ensures Login(users, Some(email), Some(password), compare, sign) == Login(other, Some(email), Some(password), compare, sign)
  {
  }

  // ---------------------------------------------------------------------------
  // GET /me
  // ---------------------------------------------------------------------------

  datatype MeReply = MeReply(status: int, user: Option<PublicUser>)

  /** `GET /me` behind `authenticateToken`: the token's user, or 404 when that id
      is no longer in the table. */
  function Me(users: Users, cred: Credentials, verify: string -> Option<Payload>): (r: MeReply)
    ensures Authenticate(cred, verify).Halt? ==> r == MeReply(Authenticate(cred, verify).status, None)
    ensures Authenticate(cred, verify).Next? ==>
      var id := Authenticate(cred, verify).user.userId;
      && (ById(users.rows, id).None? <==> r.status == Http.NotFound)
      && (ById(users.rows, id).Some? ==> r == MeReply(Http.OK, Some(Public(ById(users.rows, id).value))))
  {
    match Authenticate(cred, verify)
    case Halt(status) => MeReply(status, None)
    case Next(payload) =>
      match ById(users.rows, payload.userId)
      case None => MeReply(Http.NotFound, None)
      case Some(u) => MeReply(Http.OK, Some(Public(u)))
  }

  // ---------------------------------------------------------------------------
  // Verification and login together
  // ---------------------------------------------------------------------------

  /** `POST /verify-code` as written: it consumes the code but never writes the
      `users` table. */
  function VerifyEmailAsWritten(users: Users, store: EmailRoutes.Store, email: Option<string>, code: Option<string>, now: int): (r: (Users, EmailRoutes.Store, int))
    ensures r.0 == users
    ensures (r.1, r.2) == EmailRoutes.VerifyCode(store, email, code, now)
  {
    var (store', status) := EmailRoutes.VerifyCode(store, email, code, now);
    (users, store', status)
  }

  /** A freshly registered account cannot log in, whatever code it verifies and
      whatever password it tries, because nothing ever sets `email_verified`. */
  lemma AsWrittenLockedOut(users: Users, email: string, password: string, name: Option<string>, hash: string -> string,
                           store: EmailRoutes.Store, verifyEmail: Option<string>, code: Option<string>, now: int,
                           attempt: string, compare: (string, string) -> bool, sign: Payload -> string)
    requires Register(users, Some(email), Some(password), name, hash, false).1.status == Http.Created
    requires attempt != ""
    ensures var users1 := Register(users, Some(email), Some(password), name, hash, false).0;
      var users2 := VerifyEmailAsWritten(users1, store, verifyEmail, code, now).0;
      Login(users2, Some(email), Some(attempt), compare, sign).status == Http.Forbidden
  {
    RegisteredFound(users, email, password, name, hash);
  }

  /** After a successful registration, a lookup by the normalised email finds the
      new, unverified row. */
  lemma RegisteredFound(users: Users, email: string, password: string, name: Option<string>, hash: string -> string)
    requires Register(users, Some(email), Some(password), name, hash, false).1.status == Http.Created
    ensures ByEmail(Register(users, Some(email), Some(password), name, hash, false).0.rows, NormalEmail(Some(email)))
      == Some(User(users.nextId, NormalEmail(Some(email)), hash(password), OrNull(name), false))
  {
    var n := NormalEmail(Some(email));
    NewRowFound(users.rows, n, User(users.nextId, n, hash(password), OrNull(name), false));
  }

  /** The row registration appended is the one a lookup by its email finds. */
  lemma {:induction false} NewRowFound(rows: seq<User>, email: string, row: User)
    requires ByEmail(rows, email).None? && row.email == email
    ensures ByEmail(rows + [row], email) == Some(row)
    decreases |rows|
  {
    if rows != [] {
      assert (rows + [row])[1..] == rows[1..] + [row];
      NewRowFound(rows[1..], email, row);
    }
  }

  /** Mark every account with this email as verified. */
  function MarkVerified(rows: seq<User>, email: string): (r: seq<User>)
    ensures |r| == |rows|
    ensures forall i :: 0 <= i < |r| ==>
      r[i] == if rows[i].email == email then rows[i].(emailVerified := true) else rows[i]
  {
    seq(|rows|, i requires 0 <= i < |rows| =>
      if rows[i].email == email then rows[i].(emailVerified := true) else rows[i])
  }

  /** `POST /verify-code` as evidently intended: a successful check also marks the
      account registered under the normalised email as verified. */
  function VerifyEmail(users: Users, store: EmailRoutes.Store, email: Option<string>, code: Option<string>, now: int): (r: (Users, EmailRoutes.Store, int))
    ensures (r.1, r.2) == EmailRoutes.VerifyCode(store, email, code, now)
    ensures r.2 != Http.OK ==> r.0 == users
    ensures r.2 == Http.OK ==> r.0 == Users(MarkVerified(users.rows, NormalEmail(email)), users.nextId)
  {
    var (store', status) := EmailRoutes.VerifyCode(store, email, code, now);
    if status == Http.OK then (Users(MarkVerified(users.rows, NormalEmail(email)), users.nextId), store', status)
    else (users, store', status)
  }

  /** Marking accounts verified keeps the table invariant. */
  lemma VerifyEmailPreservesValid(users: Users, store: EmailRoutes.Store, email: Option<string>, code: Option<string>, now: int)
    requires Valid(users)
    ensures Valid(VerifyEmail(users, store, email, code, now).0)
  {
    var r := VerifyEmail(users, store, email, code, now);
    if r.2 == Http.OK {
      MarkPreservesValid(users, NormalEmail(email), r.0);
    }
  }

  /** Marking changes no id and no email. */
  lemma MarkPreservesValid(users: Users, email: string, users': Users)
    requires Valid(users) && users' == Users(MarkVerified(users.rows, email), users.nextId)
    ensures Valid(users')
  {
    var rows := users'.rows;
    assert forall i :: 0 <= i < |rows| ==> rows[i].id == users.rows[i].id && rows[i].email == users.rows[i].email;
  }

  /** With the correction, register, verify the emailed code, then log in with the
      same password succeeds (given that bcrypt accepts a password against its own
      hash). */
  lemma CorrectedUnlocks(users: Users, email: string, password: string, name: Option<string>, hash: string -> string,
                         store: EmailRoutes.Store, verifyEmail: string, code: string, now: int,
                         compare: (string, string) -> bool, sign: Payload -> string)
    requires Register(users, Some(email), Some(password), name, hash, false).1.status == Http.Created
    requires TrimLower(verifyEmail) == TrimLower(email)
    requires EmailRoutes.VerifyCode(store, Some(verifyEmail), Some(code), now).1 == Http.OK
    requires compare(password, hash(password))
    ensures var users1 := Register(users, Some(email), Some(password), name, hash, false).0;
      var users2 := VerifyEmail(users1, store, Some(verifyEmail), Some(code), now).0;
      Login(users2, Some(email), Some(password), compare, sign).status == Http.OK
  {
    var n := NormalEmail(Some(email));
    var users1 := Register(users, Some(email), Some(password), name, hash, false).0;
    RegisteredFound(users, email, password, name, hash);
    MarkedFound(users1.rows, n, User(users.nextId, n, hash(password), OrNull(name), false));
  }

  /** After marking, the lookup by that email finds the same row, now verified. */
  lemma {:induction false} MarkedFound(rows: seq<User>, email: string, row: User)
    requires ByEmail(rows, email) == Some(row)
    ensures ByEmail(MarkVerified(rows, email), email) == Some(row.(emailVerified := true))
    decreases |rows|
  {
    if rows[0].email != email {
      assert MarkVerified(rows, email)[1..] == MarkVerified(rows[1..], email);
      MarkedFound(rows[1..], email, row);
    }
  }
}
