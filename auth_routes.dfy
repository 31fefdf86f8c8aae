/** The `/signup` and `/login` routes (routers/auth.py). */
module AuthRoutes {
  import opened Base
  import opened Jwt
  import opened Auth
  import opened Tables

  /** Both routes issue sessions valid for 30 days (`timedelta(days=30)`). */
  const SessionTtl: int := 30 * 86400

  /** The `max_age` of the cookie `/signup` sets, in seconds. */
  const SignupCookieMaxAge: int := 2592000

  /** The response body `{"success": true}` with the `session` cookie it sets. */
  datatype Session = Session(token: string, maxAge: Option<int>)

  /** The record `/signup` writes for a new user. */
  function NewUserRecord(passwordHash: string): (rec: UserRecord)
    ensures rec.password == passwordHash && rec.stores == []
  {
    UserRecord(passwordHash, [])
  }

  /** `/signup` at time `now`; `hash` stands for bcrypt's hash. */
  method Signup(db: Database, username: string, password: string, hash: string -> string,
                encode: Claims -> string, now: int) returns (r: Response<Session>)
    requires db.Valid()
    modifies db
    ensures db.Valid()
    ensures db.stores == old(db.stores)
    ensures username in old(db.users) ==>
              r == Err(BadRequest, "Username already in use.") && db.users == old(db.users)
    ensures username !in old(db.users) ==>
              db.users == old(db.users)[username := NewUserRecord(hash(password))] &&
              r == Ok(Session(UserAccessToken(encode, User(username), now, SessionTtl), Some(SignupCookieMaxAge)))
    ensures r.Ok? ==> r.value.maxAge == Some(SessionTtl)
  {
    if username in db.users {
      return Err(BadRequest, "Username already in use.");
    }
    db.users := db.users[username := NewUserRecord(hash(password))];
    var token := UserAccessToken(encode, User(username), now, SessionTtl);
    r := Ok(Session(token, Some(SignupCookieMaxAge)));
  }

  /** `/login` at time `now`; it reads `users` and writes nothing. */
  function Login(users: Users, username: string, password: string, verify: (string, string) -> bool,
                 encode: Claims -> string, now: int): (r: Response<Session>)
    ensures username !in users ==> r == Err(BadRequest, "Unkown username.")
    ensures username in users && !verify(password, users[username].password) ==>
              r == Err(BadRequest, "Wrong password.")
    ensures r.Ok? <==> Authenticate(users, username, password, verify).Authenticated?
    ensures r.Ok? ==>
              r.value.maxAge.None? &&
              r.value.token == encode(map["usr" := JStr(username), "exp" := JNum(now + SessionTtl)])
  {
    match Authenticate(users, username, password, verify)
    case UnknownUsernameError => Err(BadRequest, "Unkown username.")
    case WrongPasswordError => Err(BadRequest, "Wrong password.")
    case Authenticated(user) => Ok(Session(UserAccessToken(encode, user, now, SessionTtl), None))
  }

  /** With bcrypt's `verify(p, hash(p))`, a user who signed up can log in with
      the same password, and the session names that user. */
  lemma LoginAfterSignup(users: Users, username: string, password: string, hash: string -> string,
                         verify: (string, string) -> bool, encode: Claims -> string, now: int)
    requires username !in users
    requires verify(password, hash(password))
    ensures Login(users[username := NewUserRecord(hash(password))], username, password, verify, encode, now)
              == Ok(Session(UserAccessToken(encode, User(username), now, SessionTtl), None))
  {
  }
}
