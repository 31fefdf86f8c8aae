/** Password authentication and session resolution (utilities/auth.py).
    bcrypt is passed in as `verify`; the token codec as `encode`/`decode`. */
module Auth {
  import opened Base
  import opened Jwt
  import Tables

  datatype User = User(username: string)

  /** What `User.authenticate` does: return a User or raise one of its two errors. */
  datatype AuthResult = Authenticated(user: User) | UnknownUsernameError | WrongPasswordError

  /** `User.authenticate(username, password)`. */
  function Authenticate(users: Tables.Users, username: string, password: string,
                        verify: (string, string) -> bool): (r: AuthResult)
    ensures r == UnknownUsernameError <==> username !in users
    ensures r == WrongPasswordError <==> username in users && !verify(password, users[username].password)
    ensures r.Authenticated? <==> username in users && verify(password, users[username].password)
    ensures r.Authenticated? ==> r.user == User(username)
  {
    if username !in users then UnknownUsernameError
    else if !verify(password, users[username].password) then WrongPasswordError
    else Authenticated(User(username))
  }

  /** `User.create_access_token(expires_delta)`: the only claim besides `exp`
      is `usr`, the username. */
  function UserAccessToken(encode: Claims -> string, user: User, now: int, expiresDelta: int): (token: string)
    ensures token == encode(map["usr" := JStr(user.username), "exp" := JNum(now + expiresDelta)])
  {
    CreateAccessToken(encode, map["usr" := JStr(user.username)], now, expiresDelta)
  }

  /** A user's session carries exactly two claims: `usr`, which names the
      user, and `exp`. */
  lemma UserTokenCarriesName(user: User, now: int, expiresDelta: int)
    ensures var c := AccessTokenClaims(map["usr" := JStr(user.username)], now, expiresDelta);
            && c.Keys == {"usr", "exp"}
            && ClaimedUsername(c) == Some(user.username)
            && Expiry(c) == Some(now + expiresDelta)
  {
  }

  /** The `usr` claim of a payload when it is a string. */
  function ClaimedUsername(payload: Claims): (name: Option<string>)
    ensures name.Some? <==> "usr" in payload && payload["usr"].JStr?
    ensures name.Some? ==> payload["usr"] == JStr(name.value)
  {
    if "usr" in payload && payload["usr"].JStr? then Some(payload["usr"].s) else None
  }

  /** `get_active_user(session)` with the existence check given as `userExists`:
      the user named by an unexpired token's string `usr` claim, if `userExists`
      says so; None when there is no session, the token does not decode or has
      expired, the claim is missing or not a string, or the user does not exist. */
  function ActiveUser(decode: string -> Option<Claims>, session: Option<string>, now: int,
                      userExists: string -> bool): (r: Outcome<Option<User>>)
    ensures session.None? ==> r == Normal(None)
    ensures session.Some? && decode(session.value).None? ==> r == Normal(None)
    ensures r == Raised <==> session.Some? && ReadUnexpiredAccessToken(decode, session.value, now) == Raised
    ensures r.Normal? && r.value.Some? ==>
              session.Some? &&
              var read := ReadUnexpiredAccessToken(decode, session.value, now);
              read.Normal? && read.value.Some? &&
              ClaimedUsername(read.value.value) == Some(r.value.value.username) &&
              userExists(r.value.value.username)
    ensures (session.Some? &&
             var read := ReadUnexpiredAccessToken(decode, session.value, now);
             read.Normal? && read.value.Some? &&
             ClaimedUsername(read.value.value).Some? && userExists(ClaimedUsername(read.value.value).value))
            ==> r.Normal? && r.value.Some?
  {
    if session.None? then Normal(None)
    else
      match ReadUnexpiredAccessToken(decode, session.value, now)
      case Raised => Raised
      case Normal(None) => Normal(None)
      case Normal(Some(payload)) =>
        match ClaimedUsername(payload)
        case None => Normal(None)
        case Some(name) => if userExists(name) then Normal(Some(User(name))) else Normal(None)
  }

  /** `get_active_user_required(session)`: 403 "unauthorized" exactly when
      `get_active_user` gives None, and that same user otherwise. */
  function ActiveUserRequired(decode: string -> Option<Claims>, session: Option<string>, now: int,
                              userExists: string -> bool): (r: Response<User>)
    ensures r == Err(Forbidden, "unauthorized") <==> ActiveUser(decode, session, now, userExists) == Normal(None)
    ensures r.Ok? <==> ActiveUser(decode, session, now, userExists).Normal? && ActiveUser(decode, session, now, userExists).value.Some?
    ensures r.Ok? ==> ActiveUser(decode, session, now, userExists) == Normal(Some(r.value))
    ensures r.Crash? <==> ActiveUser(decode, session, now, userExists) == Raised
  {
    match ActiveUser(decode, session, now, userExists)
    case Raised => Crash
    case Normal(None) => Err(Forbidden, "unauthorized")
    case Normal(Some(user)) => Ok(user)
  }

  /** `cache_first_result`: the state the decorator's closure keeps. The wrapped
      function is called on the first call only; every call returns that first
      result, whatever its argument. `calls` counts calls of the wrapped function. */
  class FirstResultCache<A, R> {
    var hasResult: bool
    var result: Option<R>
    ghost var calls: nat

    ghost predicate Valid()
      reads this
    {
      hasResult == result.Some? && calls == (if hasResult then 1 else 0)
    }

    constructor ()
      ensures Valid() && !hasResult
    {
      hasResult := false;
      result := None;
      calls := 0;
    }

    method Call(func: A -> R, arg: A) returns (r: R)
      requires Valid()
      modifies this
      ensures Valid() && hasResult && calls <= 1
      ensures old(hasResult) ==> r == old(result).value && result == old(result)
      ensures !old(hasResult) ==> r == func(arg) && result == Some(r)
    {
      if !hasResult {
        result := Some(func(arg));
        hasResult := true;
        calls := calls + 1;
      }
      r := result.value;
    }
  }

  /** What `User.exists()` answers for `name` given the cache's state before the
      call: the cached answer once there is one, otherwise a lookup in `users`. */
  function CachedExists(cached: Option<bool>, users: Tables.Users): string -> bool
  {
    match cached
    case Some(b) => _ => b
    case None => name => name in users
  }

  /** `User.exists()`. The decorator runs once, on the class, so one cache serves
      every User object and every request. */
  method Exists(cache: FirstResultCache<User, bool>, users: Tables.Users, user: User) returns (b: bool)
    requires cache.Valid()
    modifies cache
    ensures cache.Valid()
    ensures b == CachedExists(old(cache.result), users)(user.username)
    ensures cache.result == Some(b)
  {
    b := cache.Call((u: User) => u.username in users, user);
  }

  /** Two `exists()` calls on two User objects, the cache fresh before the
      first: the second answers whatever the first did. */
  method SecondExistsRepeatsFirst(users: Tables.Users, first: User, second: User) returns (a: bool, b: bool)
    ensures a == (first.username in users)
    ensures b == a
  {
    var cache := new FirstResultCache<User, bool>();
    a := Exists(cache, users, first);
    b := Exists(cache, users, second);
  }

  /** The name `get_active_user` passes to `exists()`: the string `usr` claim
      of an unexpired token; None when the code returns or raises before the
      check. */
  function CheckedName(decode: string -> Option<Claims>, session: Option<string>, now: int): (name: Option<string>)
    ensures name.Some? ==> forall userExists: string -> bool ::
              ActiveUser(decode, session, now, userExists) ==
                if userExists(name.value) then Normal(Some(User(name.value))) else Normal(None)
    ensures name.None? ==> forall userExists: string -> bool ::
              ActiveUser(decode, session, now, userExists) == ActiveUser(decode, session, now, _ => false)
  {
    if session.None? then None
    else
      match ReadUnexpiredAccessToken(decode, session.value, now)
      case Normal(Some(payload)) => ClaimedUsername(payload)
      case _ => None
  }

  /** `get_active_user` as the code runs it, with the shared cache. */
  method GetActiveUser(cache: FirstResultCache<User, bool>, users: Tables.Users,
                       decode: string -> Option<Claims>, session: Option<string>, now: int)
    returns (r: Outcome<Option<User>>)
    requires cache.Valid()
    modifies cache
    ensures cache.Valid()
    ensures r == ActiveUser(decode, session, now, CachedExists(old(cache.result), users))
    ensures old(cache.hasResult) ==> cache.result == old(cache.result)
    ensures !old(cache.hasResult) ==>
              cache.result == match CheckedName(decode, session, now)
                              case None => None
                              case Some(name) => Some(name in users)
  {
    if session.None? {
      return Normal(None);
    }
    var payload := ReadUnexpiredAccessToken(decode, session.value, now);
    match payload
    case Raised =>
      r := Raised;
    case Normal(None) =>
      r := Normal(None);
    case Normal(Some(p)) =>
      r := Normal(None);
      if "usr" in p && p["usr"].JStr? {
        var user := User(p["usr"].s);
        var present := Exists(cache, users, user);
        if present {
          r := Normal(Some(user));
        }
      }
  }

  /** `get_active_user_required` as the code runs it, with the shared cache. */
  method GetActiveUserRequired(cache: FirstResultCache<User, bool>, users: Tables.Users,
                               decode: string -> Option<Claims>, session: Option<string>, now: int)
    returns (r: Response<User>)
    requires cache.Valid()
    modifies cache
    ensures cache.Valid()
    ensures r == ActiveUserRequired(decode, session, now, CachedExists(old(cache.result), users))
    ensures old(cache.hasResult) ==> cache.result == old(cache.result)
    ensures !old(cache.hasResult) ==>
              cache.result == match CheckedName(decode, session, now)
                              case None => None
                              case Some(name) => Some(name in users)
  {
    var active := GetActiveUser(cache, users, decode, session, now);
    match active
    case Raised =>
      r := Crash;
    case Normal(None) =>
      r := Err(Forbidden, "unauthorized");
    case Normal(Some(user)) =>
      r := Ok(user);
  }

  /** Two requests served by the same process, the cache fresh before the
      first: a session of a registered user, then a session naming a user who
      has no record. The second request is admitted too. */
  method StrangerAdmittedAfterFirstRequest(users: Tables.Users, decode: string -> Option<Claims>,
                                           first: string, second: string, member: string, stranger: string,
                                           exp1: int, exp2: int, now: int)
    returns (r1: Outcome<Option<User>>, r2: Outcome<Option<User>>)
    requires member in users && stranger !in users
    requires decode(first) == Some(map["usr" := JStr(member), "exp" := JNum(exp1)]) && now <= exp1
    requires decode(second) == Some(map["usr" := JStr(stranger), "exp" := JNum(exp2)]) && now <= exp2
    ensures r1 == Normal(Some(User(member)))
    ensures r2 == Normal(Some(User(stranger)))
  {
    var cache := new FirstResultCache<User, bool>();
    r1 := GetActiveUser(cache, users, decode, Some(first), now);
    r2 := GetActiveUser(cache, users, decode, Some(second), now);
  }

  /** Once the shared cache holds `true` (the first request with a valid session
      filled it), a token naming a user who is not in `users` is accepted. */
  lemma SharedCacheAdmitsUnknownUser(users: Tables.Users, decode: string -> Option<Claims>,
                                     session: string, name: string, exp: int, now: int)
    requires name !in users
    requires decode(session) == Some(map["usr" := JStr(name), "exp" := JNum(exp)])
    requires now <= exp
    ensures ActiveUser(decode, Some(session), now, CachedExists(Some(true), users)) == Normal(Some(User(name)))
  {
  }

  /** Once the shared cache holds `false`, no session resolves to a user, even
      one naming a user who is in `users`. */
  lemma SharedCacheRejectsEveryone(users: Tables.Users, decode: string -> Option<Claims>,
                                   session: Option<string>, now: int)
    ensures ActiveUser(decode, session, now, CachedExists(Some(false), users)).Normal? ==>
              ActiveUser(decode, session, now, CachedExists(Some(false), users)) == Normal(None)
  {
  }

  /** `get_active_user` with the existence check looking the user up every time,
      as the docstring of `exists` (utilities/auth.py:44) describes it. */
  function ResolveActiveUser(decode: string -> Option<Claims>, session: Option<string>, now: int,
                             users: Tables.Users): (r: Outcome<Option<User>>)
    ensures r.Normal? && r.value.Some? ==> r.value.value.username in users
  {
    ActiveUser(decode, session, now, name => name in users)
  }

  /** A session issued for a registered user resolves back to that user until
      it expires, and is refused with 403 afterwards. */
  lemma SessionResolvesToIssuer(encode: Claims -> string, decode: string -> Option<Claims>,
                                                   users: Tables.Users, user: User, issued: int, ttl: int, now: int)
    requires user.username in users
    requires RoundTrips(encode, decode, map["usr" := JStr(user.username), "exp" := JNum(issued + ttl)])
    ensures now <= issued + ttl ==>
              ResolveActiveUser(decode, Some(UserAccessToken(encode, user, issued, ttl)), now, users) == Normal(Some(user))
    ensures issued + ttl < now ==>
              ActiveUserRequired(decode, Some(UserAccessToken(encode, user, issued, ttl)), now, name => name in users)
                == Err(Forbidden, "unauthorized")
  {
  }
}
