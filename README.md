# jottdapp backend — a Dafny model of its session and store logic

jottdapp's backend is a small FastAPI service for notes. Users sign up and
log in with a username and password. The backend then gives them a signed,
time-limited session token (a JWT in the `session` cookie). A logged-in user
owns *stores*, which are shared notebooks. Each store has a view, a list of
notes, and a membership table in which each member's permission is `owner`,
`write` or `read`. Users find their stores through *shortcuts*: a per-user
ordered dict from a name the user picks to the store's uuid. The data lives
in two key-value tables, `users` and `stores`.

This project models, in Dafny:

* the token helpers in `utilities/jwt.py` (module `Jwt`): claim construction
  with an `exp` claim, decoding, and the expiry check;
* authentication and session resolution in `utilities/auth.py` (module
  `Auth`), including the `cache_first_result` decorator as a class with the
  state its closure keeps;
* the routes in `routers/auth.py` (`AuthRoutes`), `routers/store.py`
  (`StoreRoutes`) and `routers/note.py` (`NoteRoutes`).

The two tables are fields of a `Tables.Database` object, and the routes
update them. Python dicts whose insertion order is observable are modelled
as association lists (`Dict.Dict`): a user's shortcuts, the `/list` answer,
and the loops that stop at the first match. `Tables.Consistent` is the
invariant every route preserves (`Database.Valid`):

* no store is left without members;
* every member of a store is a user;
* a user's shortcut names are unique, and no two shortcuts point at the same store;
* every shortcut points at a store the user is a member of.

Routes that change the tables are methods with `modifies db`. Each one
states its whole new state, and each keeps `Valid`. Routes that only read
are functions, or a method over a read-only loop. A route whose Python would
raise, such as a `KeyError` on a missing record or a `TypeError` on a
comparison, answers `Crash`. `Err(status, detail)` is a JSON error response,
and its detail strings are the ones the code sends.

The following come in as parameters:

* the signing codec, as `encode`/`decode`;
* bcrypt, as `hash`/`verify`;
* `uuid4().hex`, as a fresh-uuid argument;
* `datetime.utcnow()`, as `now`, in whole seconds.

## Model

| member | source | states |
|---|---|---|
| Dict.Set | routers/store.py:49 | `d[k] = v` on an ordered dict: afterwards `k` maps to `v` and every other key keeps its value; a new key is appended at the end; an existing key keeps its position, the entry at `KeyIndex` being replaced and every other entry staying where it was; unique keys are preserved, and distinct values are preserved when `v` is new |
| Dict.Remove | routers/store.py:113 | `del d[k]`: the result is `d` without the entry at `KeyIndex(d, k)`, the other entries keeping their order; no new key appears; `k` is absent and every other key is unchanged (under unique keys); unique keys and distinct values are preserved |
| Dict.FindFirstWithValue | routers/store.py:80-81 | the `for ... items(): if value == uuid` scan: returns the index of the first entry holding the value, or the length if there is none; no earlier entry holds it; the index agrees with `FirstKeyOf` |
| Dict.FirstKeyOf | routers/store.py:111-112 | the first key holding a value: None exactly when no entry holds it; otherwise a present key that, under unique keys, maps to that value |
| Dict.RemoveDropsValue | routers/store.py:111-114 | with unique keys and distinct values, deleting the key that holds `v` leaves no entry holding `v` |
| Jwt.AccessTokenClaims | utilities/jwt.py:11-13 | the claims are a copy of `data` plus `exp`: the same keys plus `exp`, every other claim unchanged, and the expiry is `now + expires_delta` |
| Jwt.ReadUnexpiredAccessToken | utilities/jwt.py:24-31 | returns None for a bad token; raises exactly when a decoded payload has no numeric `exp`; returns None exactly when `exp < now`; otherwise returns the payload unchanged, with `now <= exp` |
| Jwt.FreshTokenReadsBack | utilities/jwt.py:9-31 | if the codec round-trips, a token created at `issued` with lifetime `ttl` reads back as `data` plus `exp` at any time up to `issued + ttl` |
| Jwt.StaleTokenRejected | utilities/jwt.py:24-31 | the same token read after `issued + ttl` gives None |
| Auth.Authenticate | utilities/auth.py:47-55 | unknown username iff there is no record; wrong password iff there is a record and `verify` refuses; success iff `verify` accepts, with the User of that username |
| Auth.UserTokenCarriesName | utilities/auth.py:57-58 | the claims of a user's session are exactly `usr` and `exp`; `usr` is the username as a string claim, and the expiry is `now + expires_delta` |
| Auth.ActiveUser | utilities/auth.py:61-78 | None without a session or for a token that does not decode; raises exactly when the token reader raises; a returned user is the token's string `usr` claim and passes the existence check; conversely an unexpired token with a string `usr` that passes the check yields a user |
| Auth.ActiveUserRequired | utilities/auth.py:80-97 | 403 "unauthorized" exactly when `get_active_user` gives None; otherwise the user it gives; raises when it raises |
| Auth.FirstResultCache.constructor | utilities/auth.py:24-25 | a new cache holds no result |
| Auth.FirstResultCache.Call | utilities/auth.py:27-34 | the first call runs the function on its argument and stores the result; every later call returns the stored result, whatever its argument; the function runs at most once |
| Auth.Exists | utilities/auth.py:42-45 | `User.exists()` answers the cached result when there is one, and otherwise whether the user has a record; the cache then holds that answer |
| Auth.SecondExistsRepeatsFirst | utilities/auth.py:22-45 | with a fresh cache, `exists()` on one User answers whether that user has a record, and `exists()` on any second User answers the same |
| Auth.CheckedName | utilities/auth.py:70-76 | the name `get_active_user` passes to `exists()`: when there is one, the result is that user exactly when the check says yes, and None otherwise; when there is none, the check makes no difference to the result |
| Auth.GetActiveUser | utilities/auth.py:61-78 | `get_active_user` as the code runs it: `ActiveUser` with the existence check the shared cache gives; a filled cache stays as it was; an empty cache afterwards holds whether the checked name has a record, or stays empty when no name reached the check |
| Auth.GetActiveUserRequired | utilities/auth.py:80-97 | `get_active_user_required` as the code runs it: `ActiveUserRequired` with the shared cache's existence check, and the same new cache state as `get_active_user` |
| Auth.StrangerAdmittedAfterFirstRequest | utilities/auth.py:22-45 | two requests in one process, the cache empty before the first: a session of a registered user resolves to that user, and then a session naming a user with no record resolves to that user too |
| Auth.SharedCacheAdmitsUnknownUser | utilities/auth.py:22-45 | once the cache holds `true`, an unexpired token naming a user with no record resolves to that user |
| Auth.SharedCacheRejectsEveryone | utilities/auth.py:22-45 | once the cache holds `false`, no session resolves to a user |
| Auth.ResolveActiveUser | utilities/auth.py:61-78 | `get_active_user` with an uncached lookup: a resolved user always has a record |
| Auth.SessionResolvesToIssuer | utilities/auth.py:57-78 | if the codec round-trips, a registered user's token resolves to that user until it expires, and gives 403 "unauthorized" afterwards |
| AuthRoutes.Signup | routers/auth.py:30-45 | a taken username gives 400 "Username already in use." and leaves the table unchanged; otherwise the record is inserted and a 30-day session is returned with cookie `max_age` 2592000 (equal to the token's lifetime); stores are untouched; consistency is kept |
| AuthRoutes.Login | routers/auth.py:48-62 | 400 "Unkown username." / "Wrong password." in the same cases as `authenticate`; otherwise a 30-day token naming the user, with a session cookie that has no `max_age` |
| AuthRoutes.LoginAfterSignup | routers/auth.py:30-62 | if `verify(p, hash(p))` holds, logging in after signing up with the same password succeeds with that user's session |
| StoreRoutes.ListStores | routers/store.py:12-25 | for every shortcut, in the user's order, the answer holds the shortcut with the store's uuid and view; a missing user record raises |
| StoreRoutes.NewStore | routers/store.py:33-62 | a taken shortcut gives 400 and changes nothing; otherwise the shortcut is appended, the fresh store has the user as its only member (as owner) and no notes, the fresh uuid is returned, and consistency is kept |
| StoreRoutes.NewStoreKeepsConsistent | routers/store.py:47-60 | adding a shortcut to a fresh store owned by the user keeps the tables consistent |
| StoreRoutes.EditStoreShortcut | routers/store.py:70-94 | a store the user holds no shortcut to gives 400 "User does not have this store." and changes nothing; otherwise the first shortcut to it is removed and the new name maps to it, overwriting any previous target of that name; every other shortcut and every store is unchanged; consistency is kept |
| StoreRoutes.RenameKeepsConsistent | routers/store.py:80-89 | moving a store's shortcut to a new name keeps the tables consistent |
| StoreRoutes.RemoveMember | routers/store.py:98-106 | only store `uuid` changes: it loses the member and survives exactly when other members remain |
| StoreRoutes.WithoutStore | routers/store.py:109-115 | the first shortcut to the store is dropped, in place: the other shortcuts keep their order and their targets; with unique names the dropped entry is the one pointing at the store, and with distinct targets too no shortcut to it remains |
| StoreRoutes.DeleteStoreUser | routers/store.py:97-115 | `_delete_store_user`: the stores table becomes `RemoveMember` and only that user's record changes (`DropShortcut`); consistency is kept |
| StoreRoutes.LeaveKeepsConsistent | routers/store.py:97-115 | a member leaving a store, together with dropping their shortcut, keeps the tables consistent |
| StoreRoutes.ClearingStep | routers/store.py:156-157 | one more member of the snapshot leaving advances the delete-for-all loop state |
| StoreRoutes.ClearingDone | routers/store.py:155-157 | when no member remains, the store is gone, every other store is unchanged, and exactly the snapshot's members have dropped their shortcut |
| StoreRoutes.RemoveAllMembers | routers/store.py:155-157 | the delete-for-all loop runs `_delete_store_user` for every member of the copied membership and ends with no member remaining; consistency is kept |
| StoreRoutes.DeleteStore | routers/store.py:123-159 | errors in order (missing store, not a member, not the owner for delete-for-all), each changing nothing; delete-for-all removes the store and every member's shortcut to it, and no user can reach it afterwards; otherwise only the caller leaves, and the store survives exactly when others remain |
| NoteRoutes.WriteGate | routers/note.py:41-43 | write access implies membership; a member can write exactly when their permission is owner or write |
| NoteRoutes.ListNotes | routers/note.py:13-26 | a missing store gives 400 "Store does not exist." before a non-member gives "User does not have access to this store."; success exactly for members, with the store's items; it never raises |
| NoteRoutes.ReaderCanListButNotWrite | routers/note.py:13-47 | a `read` member gets the notes from `/list` and fails the write gate of `/new` |
| NoteRoutes.NewNote | routers/note.py:34-57 | a missing store, or a user who is not a member or is only a reader, gives 400 and changes nothing; otherwise `{id, note}` is appended to the items (a null field starts a one-element list), the users table is untouched, the fresh id is returned and is the id of the last note; consistency is kept |

## Left out

- HTTP plumbing (FastAPI routing, `Depends`, cookies, JSON encoding, CORS in `main.py`) is not modelled. The routes receive the already resolved `User`, and a response is its status and detail. `main.py` mounts only the auth router; that does not change the route logic modelled here.
- The signing codec (python-jose, HS256, `SECRET_KEY`) is the `encode`/`decode` parameter pair. The lemmas assume only that it round-trips. jose's own expiry check, which makes decoding fail on an expired token, is folded into `decode`.
- bcrypt is the `hash`/`verify` parameters. `hash` is a function here, so it drops bcrypt's random salt: hashing the same password twice gives the same string in the model. Only `verify(p, hash(p))` is assumed, in AuthRoutes.LoginAfterSignup. `uuid4().hex` is an argument that the caller guarantees is not yet a store key. The clock is an integer `now` in whole seconds. `utcnow()` plus `timestamp()` reads naive UTC as local time, which shifts `exp` by the host's UTC offset; that shift is not modelled.
- Jwt.ReadUnexpiredAccessToken: `exp` is modelled as an integer. A float `exp` and the comparison of a non-numeric `exp` (raises) are both collapsed into "not a number, raises".
- The key-value store client is modelled as two in-memory maps. Each `put`/`update`/`delete` becomes an assignment, and concurrent requests, partial failure and network errors are not modelled. Dotted field paths (`"stores.<shortcut>"`) are read as a plain key, so a shortcut containing a dot is not distinguished.
- A user record whose `stores` field is null is not modelled. The code reads such a field as `{}`, and every record this model writes has a list. In the same way `users.get(name)` is treated as missing exactly when the key is absent: every record the routes write is a non-empty dict, so "falsy" and "missing" agree.
- Permissions are the three values `owner`, `write` and `read`. Any other string would behave like `write` at the note gate; such a string is not modelled.
- A note's payload (`Dict` in pydantic) is modelled as a map from strings to strings.
- `new_store` writes `"items": {}`, and `new_note` appends to a non-null `items`. The model treats the new store's items as the empty list, so the first note is appended to `[]`. What the client library does when appending to an empty dict is not modelled.
- StoreRoutes.RemoveAllMembers: the code visits the members in dict order, and the model picks them in any order. Every order leads to the same final state, and the contract states that final state rather than the intermediate ones.
- StoreRoutes.RemoveMember: `del members[username]` raises for a non-member. The model's removal is total, because every caller passes a member.
- Auth.FirstResultCache.Call: the wrapper calls `func(*args, *kwargs)`, spreading keyword-argument *names* as positional arguments. `exists` takes no keyword arguments, so this makes no difference here and is not modelled.
- `verify_password` and `get_password_hash` are bcrypt itself and are the `verify`/`hash` parameters.
- The docstring of `exists` (utilities/auth.py:44) describes a lookup in the database; the code answers from a cache kept for the whole process. The model follows the code (see Findings).

## Findings

| source | as written | input that shows it | evidently intended | confidence | as-written member | corrected member |
|---|---|---|---|---|---|---|
| utilities/auth.py:22-45 | `@cache_first_result` wraps `User.exists` once, at class definition, so one `result` is shared by every `User` object and every request; the first `exists()` answer is returned forever | The first request carries the session of an existing user, so the cache holds `true`. A later request carries an unexpired token whose `usr` names a user with no record (deleted, or never signed up), and `get_active_user` returns that user. If the first answer was `false`, every later session is refused with 403 | look the user up on every call (or cache per `User` object, for one request only) | medium; not executed | Auth.GetActiveUser (with Auth.StrangerAdmittedAfterFirstRequest, Auth.SharedCacheAdmitsUnknownUser, Auth.SharedCacheRejectsEveryone, Auth.SecondExistsRepeatsFirst) | Auth.ResolveActiveUser (with Auth.SessionResolvesToIssuer) |
