/** Stand-ins for the two libraries auth.py calls: passlib's pbkdf2_sha256 and PyJWT's HS256 tokens.
    Both are symbolic: a hash records the salt drawn for the call and the password it was computed from,
    a token records its claims, the key it was signed with and the algorithm named in its header. The
    model never reads a password out of a hash; only the verify functions below look inside. */
module Crypto {
  import opened Wrappers

  /** A passlib pbkdf2_sha256 hash string. */
  datatype PasswordHash = Pbkdf2Sha256(salt: nat, preimage: string)

  /** passlib's MAX_PASSWORD_SIZE: both hash and verify refuse a longer secret, counted in characters. */
  const MaxPasswordSize := 4096
  const PasswordSizeError := "PasswordSizeError"

  /** `pwd_context.hash(password)` with the per-call random salt passed in; a secret over
      MAX_PASSWORD_SIZE raises PasswordSizeError. */
  function Pbkdf2Hash(password: string, salt: nat): (r: Result<PasswordHash, string>)
    ensures r.Success? <==> |password| <= MaxPasswordSize
    ensures r.Success? ==> r.value.salt == salt && Pbkdf2Verify(password, r.value) == Success(true)
    ensures r.Failure? ==> r.error == PasswordSizeError
  {
    if |password| > MaxPasswordSize then Failure(PasswordSizeError) else Success(Pbkdf2Sha256(salt, password))
  }

  /** `pwd_context.verify(password, h)`. The size check comes first and raises PasswordSizeError; then an
      ideal hash: only the hashed password verifies. */
  function Pbkdf2Verify(password: string, h: PasswordHash): (r: Result<bool, string>)
    ensures r.Failure? <==> |password| > MaxPasswordSize
    ensures r.Failure? ==> r.error == PasswordSizeError
  {
    if |password| > MaxPasswordSize then Failure(PasswordSizeError) else Success(h.preimage == password)
  }

  /** The properties the rest of the model relies on: a hash verifies the password it was made from, and
      no other password, whatever the salt; a secret over the size bound raises instead of answering. */
  lemma HashVerifiesExactlyItsPassword(p: string, q: string, salt: nat)
    requires |p| <= MaxPasswordSize
    ensures Pbkdf2Hash(p, salt).Success?
    ensures |q| <= MaxPasswordSize ==> Pbkdf2Verify(q, Pbkdf2Hash(p, salt).value) == Success(p == q)
    ensures |q| > MaxPasswordSize ==> Pbkdf2Verify(q, Pbkdf2Hash(p, salt).value) == Failure(PasswordSizeError)
  {
  }

  /** A claim value in a JWT payload: a string or a NumericDate (seconds since the epoch). */
  datatype ClaimValue = Text(text: string) | Instant(seconds: int)

  type Claims = map<string, ClaimValue>

  /** A signed JWT. */
  datatype Jwt = Jwt(claims: Claims, key: string, algorithm: string)

  /** What a client presents as a bearer token: a well-formed compact JWT, or text that is not one. */
  datatype CompactToken = Compact(jwt: Jwt) | Unparsable(text: string)

  /** The exceptions `jwt.decode` raises. */
  datatype JwtError = DecodeError | InvalidAlgorithm | InvalidKey | InvalidSignature | ExpiredSignature

  /** `jwt.encode(claims, key, algorithm=algorithm)`. */
  function JwtEncode(claims: Claims, key: string, algorithm: string): (t: CompactToken)
    ensures t.Compact? && t.jwt.claims == claims
  {
    Compact(Jwt(claims, key, algorithm))
  }

  /** `jwt.decode(token, key, algorithms=algorithms)` at time `now`, with no leeway: the header's
      algorithm must be allowed, the key must be present and match the signature, and a token whose
      `exp` is at or before `now` is expired. Expiry is only judged once the signature checks out. */
  function JwtDecode(token: CompactToken, key: Option<string>, algorithms: seq<string>, now: int)
    : (r: Result<Claims, JwtError>)
    ensures r.Success? <==>
      && token.Compact? && token.jwt.algorithm in algorithms && key == Some(token.jwt.key)
      && ("exp" in token.jwt.claims ==> token.jwt.claims["exp"].Instant? && token.jwt.claims["exp"].seconds > now)
    ensures r.Success? ==> r.value == token.jwt.claims
    ensures r == Failure(ExpiredSignature) ==>
      token.Compact? && "exp" in token.jwt.claims && token.jwt.claims["exp"].Instant?
      && token.jwt.claims["exp"].seconds <= now
  {
    if token.Unparsable? then Failure(DecodeError)
    else if token.jwt.algorithm !in algorithms then Failure(InvalidAlgorithm)
    else if key.None? then Failure(InvalidKey)
    else if token.jwt.key != key.value then Failure(InvalidSignature)
    else if "exp" in token.jwt.claims && !token.jwt.claims["exp"].Instant? then Failure(DecodeError)
    else if "exp" in token.jwt.claims && token.jwt.claims["exp"].seconds <= now then Failure(ExpiredSignature)
    else Success(token.jwt.claims)
  }

  /** A token decodes with the key and algorithm it was signed with, until its `exp`. */
  lemma DecodeEncoded(claims: Claims, key: string, algorithm: string, now: int)
    requires "exp" in claims && claims["exp"].Instant?
    ensures JwtDecode(JwtEncode(claims, key, algorithm), Some(key), [algorithm], now)
            == if now < claims["exp"].seconds then Success(claims) else Failure(ExpiredSignature)
  {
  }
}
