/** The bearer-token request gate `AuthenticatedUser::from_request` (src/utils/auth_middleware.rs).
    The JWT decoder and the Redis connection are external: both enter as function values. */
module AuthMiddleware {
  import opened Wrappers

  newtype byte = b: int | 0 <= b < 256

  /** The claims `decode_jwt` returns; only `sub` is read here. */
  datatype Claims = Claims(sub: string)

  datatype JwtError = JwtError

  datatype RedisError = RedisError

  /** A Redis connection, seen through the one command the gate sends: `EXISTS key`. */
  datatype RedisConn = RedisConn(existsKey: string -> Result<bool, RedisError>)

  datatype AuthenticatedUser = AuthenticatedUser(username: string)

  /** The two actix errors the gate raises, each with its message. */
  datatype GateError = ErrorUnauthorized(reason: string) | ErrorInternalServerError(reason: string) {
    function StatusCode(): int {
      if ErrorUnauthorized? then 401 else 500
    }
  }

  // ---------------------------------------------------------------------------
  // Header value to string (HeaderValue::to_str)
  // ---------------------------------------------------------------------------

  /** The bytes `HeaderValue::to_str` accepts: visible ASCII and horizontal tab. */
  predicate IsVisibleAscii(b: byte) {
    (32 <= b < 127) || b == 9
  }

  predicate IsVisibleChar(c: char) {
    (32 <= c as int < 127) || c as int == 9
  }

  /** `HeaderValue::to_str`: the value as a string when every byte is visible ASCII. */
  function ToStr(v: seq<byte>): (r: Option<string>)
    ensures r.Some? <==> forall i :: 0 <= i < |v| ==> IsVisibleAscii(v[i])
    ensures r.Some? ==> |r.value| == |v| && forall i :: 0 <= i < |v| ==> r.value[i] as int == v[i] as int
  {
    if v == [] then Some("")
    else if !IsVisibleAscii(v[0]) then None
    else
      match ToStr(v[1..])
      case None => None
      case Some(rest) => Some([v[0] as int as char] + rest)
  }

  /** A string a client can put in a header value unchanged. */
  predicate IsVisibleString(s: string) {
    forall i :: 0 <= i < |s| ==> IsVisibleChar(s[i])
  }

  /** The bytes of a visible string, as a client puts them on the wire. */
  function AsciiBytes(s: string): (v: seq<byte>)
    requires IsVisibleString(s)
    ensures |v| == |s| && forall i :: 0 <= i < |s| ==> v[i] as int == s[i] as int
  {
    if s == [] then [] else [s[0] as int as byte] + AsciiBytes(s[1..])
  }

  /** A header made of visible strings reads back through `to_str` as their concatenation. */
  lemma {:induction false} ToStrOfAsciiBytes(a: string, b: string)
    requires IsVisibleString(a) && IsVisibleString(b)
    ensures ToStr(AsciiBytes(a) + AsciiBytes(b)) == Some(a + b)
  {
    var v := AsciiBytes(a) + AsciiBytes(b);
    var s := a + b;
    assert |v| == |s|;
    forall i | 0 <= i < |v| ensures IsVisibleAscii(v[i]) && v[i] as int == s[i] as int {
      if i < |a| {
        assert v[i] == AsciiBytes(a)[i];
        assert s[i] == a[i];
      } else {
        assert v[i] == AsciiBytes(b)[i - |a|];
        assert s[i] == b[i - |a|];
      }
    }
    var r := ToStr(v);
    assert r.Some?;
    forall i | 0 <= i < |s| ensures r.value[i] == s[i] {
      assert r.value[i] as int == v[i] as int == s[i] as int;
    }
    assert r.value == s;
  }

  // ---------------------------------------------------------------------------
  // Scheme and token
  // ---------------------------------------------------------------------------

  const BearerScheme: string := "Bearer "

  const BlacklistPrefix: string := "bl:"

  /** `str::starts_with`, exact and case-sensitive. */
  predicate StartsWith(s: string, prefix: string) {
    |prefix| <= |s| && s[..|prefix|] == prefix
  }

  /** The first three checks of the gate and the token slice `&auth_str[7..]`. */
  function BearerToken(authHeader: Option<seq<byte>>): (r: Result<string, GateError>)
    ensures r.Success? <==>
      authHeader.Some? && ToStr(authHeader.value).Some? && StartsWith(ToStr(authHeader.value).value, "Bearer ")
    ensures r.Success? ==> "Bearer " + r.value == ToStr(authHeader.value).value
    ensures r.Failure? ==> r.error.ErrorUnauthorized?
  {
    match authHeader
    case None => Failure(ErrorUnauthorized("Authorization header missing"))
    case Some(header) =>
      match ToStr(header)
      case None => Failure(ErrorUnauthorized("Invalid Authorization header"))
      case Some(authStr) =>
        if !StartsWith(authStr, BearerScheme) then Failure(ErrorUnauthorized("Invalid Authorization scheme"))
        else Success(authStr[|BearerScheme|..])
  }

  /** The Redis key under which a revoked token is recorded: `format!("bl:{}", token)`. */
  function BlacklistKey(token: string): (key: string)
    ensures |key| == |token| + 3
    ensures key[..3] == "bl:" && key[3..] == token
  {
    BlacklistPrefix + token
  }

  /** `AuthenticatedUser::from_request`, once the header and the app data have been read. */
  function FromRequest(
    authHeader: Option<seq<byte>>,
    decodeJwt: string -> Result<Claims, JwtError>,
    redis: Option<RedisConn>): (r: Result<AuthenticatedUser, GateError>)
    ensures r.Success? ==>
      && BearerToken(authHeader).Success?
      && decodeJwt(BearerToken(authHeader).value).Success?
      && r.value.username == decodeJwt(BearerToken(authHeader).value).value.sub
  {
    match BearerToken(authHeader)
    case Failure(e) => Failure(e)
    case Success(token) =>
      match decodeJwt(token)
      case Failure(_) => Failure(ErrorUnauthorized("Invalid or expired token"))
      case Success(claims) =>
        match redis
        case None => Failure(ErrorInternalServerError("Redis not configured"))
        case Some(conn) =>
          match conn.existsKey(BlacklistKey(token))
          case Failure(_) => Failure(ErrorInternalServerError("Redis query failed"))
          case Success(isBlacklisted) =>
            if isBlacklisted then Failure(ErrorUnauthorized("Token revoked"))
            else Success(AuthenticatedUser(claims.sub))
  }

  // ---------------------------------------------------------------------------
  // Properties of the gate
  // ---------------------------------------------------------------------------

  /** No header: rejected before anything else is consulted. */
  lemma MissingHeaderRejected(decodeJwt: string -> Result<Claims, JwtError>, redis: Option<RedisConn>)
    ensures FromRequest(None, decodeJwt, redis) == Failure(ErrorUnauthorized("Authorization header missing"))
  {
  }

  /** A header holding a byte outside visible ASCII is rejected as invalid. */
  lemma NonVisibleHeaderRejected(
    header: seq<byte>, k: nat, decodeJwt: string -> Result<Claims, JwtError>, redis: Option<RedisConn>)
    requires k < |header| && !IsVisibleAscii(header[k])
    ensures FromRequest(Some(header), decodeJwt, redis) == Failure(ErrorUnauthorized("Invalid Authorization header"))
  {
  }

  /** A readable header without the exact `Bearer ` prefix is rejected as a wrong scheme. */
  lemma WrongSchemeRejected(
    header: seq<byte>, decodeJwt: string -> Result<Claims, JwtError>, redis: Option<RedisConn>)
    requires ToStr(header).Some? && !StartsWith(ToStr(header).value, "Bearer ")
    ensures FromRequest(Some(header), decodeJwt, redis) == Failure(ErrorUnauthorized("Invalid Authorization scheme"))
  {
  }

  /** The scheme is case-sensitive: `bearer <t>` is a wrong scheme. */
  lemma LowerCaseSchemeRejected(t: string)
    requires IsVisibleString(t)
    ensures BearerToken(Some(AsciiBytes("bearer ") + AsciiBytes(t))) == Failure(ErrorUnauthorized("Invalid Authorization scheme"))
  {
    var scheme := "bearer ";
    ToStrOfAsciiBytes(scheme, t);
    assert (scheme + t)[..7][0] == 'b';
  }

  /** The scheme needs its space: `Bearer<t>` is a wrong scheme unless `t` begins with one. */
  lemma SchemeWithoutSpaceRejected(t: string)
    requires IsVisibleString(t)
    requires |t| == 0 || t[0] != ' '
    ensures BearerToken(Some(AsciiBytes("Bearer") + AsciiBytes(t))) == Failure(ErrorUnauthorized("Invalid Authorization scheme"))
  {
    var scheme := "Bearer";
    ToStrOfAsciiBytes(scheme, t);
    if |t| > 0 {
      assert (scheme + t)[..7][6] == t[0];
    }
  }

  /** Round trip: the header `Bearer <t>` yields exactly `t`, for every visible token `t`. */
  lemma {:induction false} BearerTokenRoundTrip(t: string)
    requires IsVisibleString(t)
    ensures BearerToken(Some(AsciiBytes(BearerScheme) + AsciiBytes(t))) == Success(t)
  {
    ToStrOfAsciiBytes(BearerScheme, t);
    var s := BearerScheme + t;
    assert s[..7] == BearerScheme;
    assert s[7..] == t;
  }

  /** A token the decoder refuses is unauthorized, whether or not Redis is configured:
      an invalid token never produces a 500. */
  lemma DecodeFailureUnauthorized(
    authHeader: Option<seq<byte>>, decodeJwt: string -> Result<Claims, JwtError>, redis: Option<RedisConn>)
    requires BearerToken(authHeader).Success? && decodeJwt(BearerToken(authHeader).value).Failure?
    ensures FromRequest(authHeader, decodeJwt, redis) == Failure(ErrorUnauthorized("Invalid or expired token"))
    ensures FromRequest(authHeader, decodeJwt, redis) == FromRequest(authHeader, decodeJwt, None)
    ensures FromRequest(authHeader, decodeJwt, redis).error.StatusCode() == 401
  {
  }

  /** A 500 comes only from the Redis side: a well-formed header, a decoded token, and then
      Redis missing or its query failing. */
  lemma InternalErrorOnlyFromRedis(
    authHeader: Option<seq<byte>>, decodeJwt: string -> Result<Claims, JwtError>, redis: Option<RedisConn>)
    requires FromRequest(authHeader, decodeJwt, redis).Failure?
    requires FromRequest(authHeader, decodeJwt, redis).error.ErrorInternalServerError?
    ensures BearerToken(authHeader).Success?
    ensures decodeJwt(BearerToken(authHeader).value).Success?
    ensures redis.None? || redis.value.existsKey(BlacklistKey(BearerToken(authHeader).value)).Failure?
  {
  }

  /** The blacklist key carries the `bl:` namespace and gives the token back. */
  lemma BlacklistKeyRecoverable(token: string, other: string)
    ensures StartsWith(BlacklistKey(token), "bl:")
    ensures BlacklistKey(token)[3..] == token
    ensures BlacklistKey(token) == BlacklistKey(other) ==> token == other
  {
  }

  /** Fail-closed: a failing Redis query is a 500, never an acceptance. */
  lemma RedisQueryFailureFailsClosed(
    authHeader: Option<seq<byte>>, decodeJwt: string -> Result<Claims, JwtError>, conn: RedisConn)
    requires BearerToken(authHeader).Success? && decodeJwt(BearerToken(authHeader).value).Success?
    requires conn.existsKey(BlacklistKey(BearerToken(authHeader).value)).Failure?
    ensures FromRequest(authHeader, decodeJwt, Some(conn)) == Failure(ErrorInternalServerError("Redis query failed"))
  {
  }

  /** A token recorded under its blacklist key is refused, however valid its signature. */
  lemma RevokedTokenRejected(t: string, decodeJwt: string -> Result<Claims, JwtError>, conn: RedisConn)
    requires IsVisibleString(t)
    requires decodeJwt(t).Success?
    requires conn.existsKey("bl:" + t) == Success(true)
    ensures FromRequest(Some(AsciiBytes("Bearer ") + AsciiBytes(t)), decodeJwt, Some(conn)) == Failure(ErrorUnauthorized("Token revoked"))
  {
    BearerTokenRoundTrip(t);
  }

  /** Acceptance exactly when every check passes; the identity is the token's subject. */
  lemma AcceptedIff(
    authHeader: Option<seq<byte>>, decodeJwt: string -> Result<Claims, JwtError>, redis: Option<RedisConn>)
    ensures FromRequest(authHeader, decodeJwt, redis).Success? <==>
      && BearerToken(authHeader).Success?
      && decodeJwt(BearerToken(authHeader).value).Success?
      && redis.Some?
      && redis.value.existsKey(BlacklistKey(BearerToken(authHeader).value)) == Success(false)
    ensures FromRequest(authHeader, decodeJwt, redis).Success? ==>
      FromRequest(authHeader, decodeJwt, redis).value.username == decodeJwt(BearerToken(authHeader).value).value.sub
  {
  }

  /** Scenario: a visible token for `bob`, not blacklisted, is accepted as `bob`. */
  lemma AcceptsValidToken(t: string, decodeJwt: string -> Result<Claims, JwtError>, conn: RedisConn)
    requires IsVisibleString(t)
    requires decodeJwt(t) == Success(Claims("bob"))
    requires conn.existsKey("bl:" + t) == Success(false)
    ensures FromRequest(Some(AsciiBytes("Bearer ") + AsciiBytes(t)), decodeJwt, Some(conn)) == Success(AuthenticatedUser("bob"))
  {
    BearerTokenRoundTrip(t);
  }
}
