/** auth.py: password hashing and verification, access-token issue and decoding, and resolving the
    caller of a protected endpoint from its bearer token. Time is a number of seconds. */
module Auth {
  import opened Wrappers
  import opened Http
  import opened PyText
  import opened Crypto
  import opened ObjectIds
  import Store
  import Models

  const MaxPasswordBytes := 4096
  const DefaultAlgorithm := "HS256"
  const DefaultExpireMinutes := 60

  /** The module-level settings: `SECRET_KEY` (possibly unset), `ALGORITHM`, `ACCESS_TOKEN_EXPIRE_MINUTES`. */
  datatype Config = Config(secretKey: Option<string>, algorithm: string, accessTokenExpireMinutes: int)

  /** The settings read from the environment, each variable given or unset, with the source's defaults. */
  function LoadConfig(secretKey: Option<string>, algorithm: Option<string>, expireMinutes: Option<int>)
    : (c: Config)
    ensures c.secretKey == secretKey
    ensures algorithm.None? ==> c.algorithm == "HS256"
    ensures expireMinutes.None? ==> c.accessTokenExpireMinutes == 60
    ensures algorithm.Some? ==> c.algorithm == algorithm.value
    ensures expireMinutes.Some? ==> c.accessTokenExpireMinutes == expireMinutes.value
  {
    Config(secretKey, algorithm.GetOr(DefaultAlgorithm), expireMinutes.GetOr(DefaultExpireMinutes))
  }

  // ---- passwords ----------------------------------------------------------------------------------

  /** `get_password_hash`: None hashes as the empty password; more than 4096 UTF-8 bytes raises
      ValueError("Password too long"); otherwise the pbkdf2 hash under the drawn salt. A string within
      the byte bound is within passlib's character bound too, so passlib's own size check never fires. */
  function GetPasswordHash(password: Option<string>, salt: nat): (r: Result<PasswordHash, string>)
    ensures r.Success? <==> Utf8Length(password.GetOr("")) <= MaxPasswordBytes
    ensures r.Success? ==> r.value.salt == salt && VerifyPassword(password, r.value) == Success(true)
    ensures r.Failure? ==> r.error == "Password too long"
  {
    var p := password.GetOr("");
    if Utf8Length(p) > MaxPasswordBytes then Failure("Password too long") else Pbkdf2Hash(p, salt)
  }

  /** `verify_password`: None is checked as the empty password; a plain text of more than 4096
      characters makes passlib raise PasswordSizeError, which nothing on the way catches. */
  function VerifyPassword(plain: Option<string>, hashed: PasswordHash): (r: Result<bool, string>)
    ensures r.Failure? <==> |plain.GetOr("")| > MaxPasswordSize
  {
    Pbkdf2Verify(plain.GetOr(""), hashed)
  }

  /** A hash made by get_password_hash verifies the password it was made from and no other; None and ""
      are the same password to both functions; a plain text over passlib's bound raises instead. */
  lemma {:induction false} HashThenVerify(p: Option<string>, q: Option<string>, salt: nat)
    requires Utf8Length(p.GetOr("")) <= MaxPasswordBytes
    ensures GetPasswordHash(p, salt).Success?
    ensures VerifyPassword(q, GetPasswordHash(p, salt).value) == Success(true) <==> q.GetOr("") == p.GetOr("")
    ensures VerifyPassword(q, GetPasswordHash(p, salt).value).Failure? <==> |q.GetOr("")| > MaxPasswordSize
  {
    HashVerifiesExactlyItsPassword(p.GetOr(""), q.GetOr(""), salt);
  }

  /** The byte bound is inclusive: 4096 one-byte characters hash, 4097 do not. */
  lemma PasswordBoundIsInclusive(salt: nat)
    ensures GetPasswordHash(Some(seq(4096, _ => 'a')), salt).Success?
    ensures GetPasswordHash(Some(seq(4097, _ => 'a')), salt).Failure?
  {
    Utf8LengthOfAscii(seq(4096, _ => 'a'));
    Utf8LengthOfAscii(seq(4097, _ => 'a'));
  }

  /** A password longer than 1024 characters may already exceed the bound: 1025 four-byte characters do. */
  lemma BoundIsOnBytesNotCharacters(salt: nat)
    ensures GetPasswordHash(Some(seq(1025, _ => '\U{1F600}')), salt).Failure?
  {
    var s := seq(1025, _ => '\U{1F600}');
    FourByteLength(s);
  }

  lemma {:induction false} FourByteLength(s: string)
    requires forall i :: 0 <= i < |s| ==> s[i] as int >= 0x10000
    ensures Utf8Length(s) == 4 * |s|
  {
    if s != [] {
      FourByteLength(s[1..]);
    }
  }

  // ---- access tokens ------------------------------------------------------------------------------

  /** `expires_delta or timedelta(minutes=ACCESS_TOKEN_EXPIRE_MINUTES)` in seconds: an absent delta and a
      zero delta (a falsy timedelta) both give the configured lifetime; any other delta, negative ones
      included, is used as it is. */
  function TokenLifetime(expiresDelta: Option<int>, config: Config): (seconds: int)
    ensures expiresDelta.Some? && expiresDelta.value != 0 ==> seconds == expiresDelta.value
    ensures expiresDelta.None? || expiresDelta.value == 0 ==> seconds == 60 * config.accessTokenExpireMinutes
  {
    if expiresDelta.Some? && expiresDelta.value != 0 then expiresDelta.value
    else 60 * config.accessTokenExpireMinutes
  }

  /** The payload create_access_token signs: the caller's claims, with `exp` and `iat` added (replacing
      any the caller gave) and every other claim kept. */
  predicate IssuedClaims(claims: Claims, data: Claims, iat: int, exp: int) {
    && claims.Keys == data.Keys + {"exp", "iat"}
    && claims["iat"] == Instant(iat)
    && claims["exp"] == Instant(exp)
    && forall k :: k in data && k != "exp" && k != "iat" ==> claims[k] == data[k]
  }

  /** `create_access_token(data, expires_delta)` at time `now`: raises RuntimeError when SECRET_KEY is
      unset; otherwise signs a copy of `data` with `iat = now` and `exp = now + lifetime`. */
  function CreateAccessToken(data: Claims, expiresDelta: Option<int>, config: Config, now: int)
    : (r: Result<CompactToken, string>)
    ensures r.Failure? <==> config.secretKey.None?
    ensures r.Failure? ==> r.error == "SECRET_KEY is not set in environment"
    ensures r.Success? ==>
      && r.value.Compact?
      && r.value.jwt.key == config.secretKey.value
      && r.value.jwt.algorithm == config.algorithm
      && IssuedClaims(r.value.jwt.claims, data, now, now + TokenLifetime(expiresDelta, config))
  {
    if config.secretKey.None? then
      Failure("SECRET_KEY is not set in environment")
    else
      var toEncode := data["exp" := Instant(now + TokenLifetime(expiresDelta, config))]["iat" := Instant(now)];
      Success(JwtEncode(toEncode, config.secretKey.value, config.algorithm))
  }

  /** `decode_access_token`: an expired signature is 401 "Token expired", any other decoding failure is
      401 "Invalid token". */
  function DecodeAccessToken(token: CompactToken, config: Config, now: int): (r: Result<Claims, HttpError>)
    ensures var decoded := JwtDecode(token, config.secretKey, [config.algorithm], now);
      && (r.Success? <==> decoded.Success?)
      && (r.Success? ==> r.value == decoded.value)
      && (r.Failure? ==> r.error.status == 401)
      && (r.Failure? ==> r.error.detail == (if decoded == Failure(ExpiredSignature) then "Token expired"
                                           else "Invalid token"))
  {
    match JwtDecode(token, config.secretKey, [config.algorithm], now)
    case Success(payload) => Success(payload)
    case Failure(ExpiredSignature) => Failure(HttpError(401, "Token expired"))
    case Failure(_) => Failure(HttpError(401, "Invalid token"))
  }

  /** A token create_access_token issued decodes to the payload it signed while `later` is before its
      `exp`, and reads as expired from `exp` on. */
  lemma IssuedTokenDecodes(data: Claims, expiresDelta: Option<int>, config: Config, now: int, later: int)
    requires config.secretKey.Some?
    ensures var t := CreateAccessToken(data, expiresDelta, config, now).value;
      DecodeAccessToken(t, config, later)
      == if later < now + TokenLifetime(expiresDelta, config) then Success(t.jwt.claims)
         else Failure(HttpError(401, "Token expired"))
  {
  }

  /** A zero `expires_delta` is falsy, so the token gets the configured lifetime and is not expired when
      issued. */
  lemma ZeroDeltaFallsBackToDefault(data: Claims, config: Config, now: int)
    requires config.secretKey.Some? && config.accessTokenExpireMinutes > 0
    ensures CreateAccessToken(data, Some(0), config, now) == CreateAccessToken(data, None, config, now)
    ensures DecodeAccessToken(CreateAccessToken(data, Some(0), config, now).value, config, now).Success?
  {
    IssuedTokenDecodes(data, Some(0), config, now, now);
  }

  /** A token signed with another key, or under another algorithm, is an invalid token. */
  lemma ForeignTokensAreInvalid(jwt: Jwt, config: Config, now: int)
    requires config.secretKey.Some?
    requires jwt.key != config.secretKey.value || jwt.algorithm != config.algorithm
    ensures DecodeAccessToken(Compact(jwt), config, now) == Failure(HttpError(401, "Invalid token"))
  {
  }

  // ---- the current user ---------------------------------------------------------------------------

  /** `get_current_user` over the users documents it reads. No bearer token: 401 "Not authenticated"; a
      token that does not decode: the 401 of decode_access_token; a missing or falsy `sub`: 401 "Invalid
      token payload"; a `sub` that `ObjectId()` rejects: an unhandled error, so 500; no user with that
      `_id`: 401 "User not found"; otherwise exactly the user's `{id, email}`. */
  function GetCurrentUser(token: Option<CompactToken>, config: Config, now: int, users: seq<Store.UserDoc>)
    : (r: Result<Models.UserInDB, HttpError>)
    ensures r.Success? ==>
      && IsCanonical(r.value.id)
      && Store.FindUserById(users, r.value.id).Some?
      && Store.FindUserById(users, r.value.id).value.email == r.value.email
    ensures r.Success? ==>
      && token.Some?
      && DecodeAccessToken(token.value, config, now).Success?
      && "sub" in DecodeAccessToken(token.value, config, now).value
      && DecodeAccessToken(token.value, config, now).value["sub"].Text?
      && IsValid(DecodeAccessToken(token.value, config, now).value["sub"].text)
      && r.value.id == Parse(DecodeAccessToken(token.value, config, now).value["sub"].text)
    ensures r.Failure? ==> r.error.status == 401 || r.error == InternalServerError
    ensures token.None? ==> r == Failure(HttpError(401, "Not authenticated"))
    ensures token.Some? && DecodeAccessToken(token.value, config, now).Failure? ==>
      r == Failure(DecodeAccessToken(token.value, config, now).error)
    ensures token.Some? && DecodeAccessToken(token.value, config, now).Success? ==>
      var payload := DecodeAccessToken(token.value, config, now).value;
      && ("sub" !in payload || payload["sub"] == Text("") || payload["sub"] == Instant(0) ==>
            r == Failure(HttpError(401, "Invalid token payload")))
      && ("sub" in payload && payload["sub"].Text? && IsValid(payload["sub"].text)
          && Store.FindUserById(users, Parse(payload["sub"].text)).None? ==>
            r == Failure(HttpError(401, "User not found")))
    ensures r == Failure(InternalServerError) ==>
      && token.Some? && DecodeAccessToken(token.value, config, now).Success?
      && var payload := DecodeAccessToken(token.value, config, now).value;
      && "sub" in payload
      && match payload["sub"]
         case Instant(n) => n != 0
         case Text(t) => t != "" && !IsValid(t)
  {
    if token.None? then Failure(HttpError(401, "Not authenticated"))
    else
      match DecodeAccessToken(token.value, config, now)
      case Failure(e) => Failure(e)
      case Success(payload) =>
        if "sub" !in payload then Failure(HttpError(401, "Invalid token payload"))
        else
          match payload["sub"]
          case Instant(n) =>
            if n == 0 then Failure(HttpError(401, "Invalid token payload")) else Failure(InternalServerError)
          case Text(s) =>
            if s == "" then Failure(HttpError(401, "Invalid token payload"))
            else if !IsValid(s) then Failure(InternalServerError)
            else
              match Store.FindUserById(users, Parse(s))
              case None => Failure(HttpError(401, "User not found"))
              case Some(u) => Success(Models.UserInDB(u.id, u.email))
  }

  /** A token that decodes to a `sub` naming a user of the collection resolves to that user. */
  lemma {:induction false} SubjectResolves(token: CompactToken, config: Config, now: int,
                                          users: seq<Store.UserDoc>, i: nat)
    requires i < |users|
    requires forall j :: 0 <= j < i ==> users[j].id != users[i].id
    requires DecodeAccessToken(token, config, now).Success?
    requires "sub" in DecodeAccessToken(token, config, now).value
    requires DecodeAccessToken(token, config, now).value["sub"] == Text(users[i].id)
    ensures GetCurrentUser(Some(token), config, now, users) == Success(Models.UserInDB(users[i].id, users[i].email))
  {
    ParseRendering(users[i].id);
    assert Store.UserIndexById(users, users[i].id) == i;
  }
}
