/** Session tokens: claim construction and the two readers of
    utilities/jwt.py. The signing codec (HS256 with the process secret) is not
    modelled; it is passed in as an `encode` and a `decode` function, and the
    only thing assumed of it, where a lemma needs it, is that decoding what it
    encoded gives the claims back. Times are whole seconds since the epoch. */
module Jwt {
  import opened Base

  /** A claim value in a decoded token: a string, a number, or any other JSON
      value (list, object, boolean, null). */
  datatype Claim = JStr(s: string) | JNum(n: int) | JOther

  type Claims = map<string, Claim>

  /** The expiry of a payload: `payload["exp"]` when it is a number. */
  function Expiry(payload: Claims): (e: Option<int>)
    ensures e.Some? <==> "exp" in payload && payload["exp"].JNum?
    ensures e.Some? ==> payload["exp"] == JNum(e.value)
  {
    if "exp" in payload && payload["exp"].JNum? then Some(payload["exp"].n) else None
  }

  /** The claims `create_access_token` signs: a copy of `data` with `exp` set to
      `now + expiresDelta`. */
  function AccessTokenClaims(data: Claims, now: int, expiresDelta: int): (c: Claims)
    ensures c.Keys == data.Keys + {"exp"}
    ensures Expiry(c) == Some(now + expiresDelta)
    ensures forall k :: k in data && k != "exp" ==> c[k] == data[k]
  {
    data["exp" := JNum(now + expiresDelta)]
  }

  /** `create_access_token(data, expires_delta)` at time `now`. The caller's
      `data` is a value here, so nothing the caller holds can change. */
  function CreateAccessToken(encode: Claims -> string, data: Claims, now: int, expiresDelta: int): (token: string)
    ensures token == encode(data["exp" := JNum(now + expiresDelta)])
  {
    encode(AccessTokenClaims(data, now, expiresDelta))
  }

  /** `read_access_token`: the decoded payload, or None when decoding fails. */
  function ReadAccessToken(decode: string -> Option<Claims>, token: string): (r: Option<Claims>)
    ensures r.None? <==> decode(token).None?
    ensures r.Some? ==> r == decode(token)
  {
    decode(token)
  }

  /** `read_unexpired_access_token` at time `now`. A payload without a numeric
      `exp` makes `payload["exp"] < now` raise. */
  function ReadUnexpiredAccessToken(decode: string -> Option<Claims>, token: string, now: int): (r: Outcome<Option<Claims>>)
    ensures ReadAccessToken(decode, token).None? ==> r == Normal(None)
    ensures r == Raised <==> decode(token).Some? && Expiry(decode(token).value).None?
    ensures decode(token).Some? && Expiry(decode(token).value).Some? ==>
              (r == Normal(None) <==> Expiry(decode(token).value).value < now)
    ensures r.Normal? && r.value.Some? ==>
              r.value == decode(token) && Expiry(r.value.value).Some? && now <= Expiry(r.value.value).value
  {
    match ReadAccessToken(decode, token)
    case None => Normal(None)
    case Some(payload) =>
      match Expiry(payload)
      case None => Raised
      case Some(exp) => if exp < now then Normal(None) else Normal(Some(payload))
  }

  /** The codec property the round trip relies on, for one set of claims. */
  predicate RoundTrips(encode: Claims -> string, decode: string -> Option<Claims>, c: Claims)
  {
    decode(encode(c)) == Some(c)
  }

  /** A token created at `issued` with lifetime `ttl` reads back, at any time up
      to and including `issued + ttl`, as the original claims plus `exp`. */
  lemma FreshTokenReadsBack(encode: Claims -> string, decode: string -> Option<Claims>,
                            data: Claims, issued: int, ttl: int, now: int)
    requires RoundTrips(encode, decode, AccessTokenClaims(data, issued, ttl))
    requires now <= issued + ttl
    ensures ReadUnexpiredAccessToken(decode, CreateAccessToken(encode, data, issued, ttl), now)
              == Normal(Some(data["exp" := JNum(issued + ttl)]))
  {
  }

  /** The same token, read after `issued + ttl`, is rejected. */
  lemma StaleTokenRejected(encode: Claims -> string, decode: string -> Option<Claims>,
                           data: Claims, issued: int, ttl: int, now: int)
    requires RoundTrips(encode, decode, AccessTokenClaims(data, issued, ttl))
    requires issued + ttl < now
    ensures ReadUnexpiredAccessToken(decode, CreateAccessToken(encode, data, issued, ttl), now) == Normal(None)
  {
  }
}
