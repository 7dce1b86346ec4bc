/**
 * Bearer tokens as records: the claims the controller puts in, the `exp`
 * time (section 4.1.4 of RFC 7519) and the key bytes the token was signed
 * with, which stand for its HMAC-SHA-256 signature (RFC 2104): a signature
 * checks out exactly when the verifying key is the signing key.
 */
module Jwt {
  import opened Models
  import opened Utf8
  import opened Decimal

  /** `DateTime.UtcNow.AddDays(1)`, in the seconds of a NumericDate. */
  const SecondsPerDay: int := 86400

  datatype ClaimType = NameIdentifier | Name
  datatype Claim = Claim(kind: ClaimType, value: string)

  datatype Token = Token(claims: seq<Claim>, expires: int, signingKey: seq<byte>)

  /** The two claims the controller puts in every token. */
  function IdentityClaims(user: User): seq<Claim> {
    [Claim(NameIdentifier, IntToString(user.id)), Claim(Name, user.username)]
  }

  /** The value of the first claim of the given type, if any. */
  function FindClaim(claims: seq<Claim>, kind: ClaimType): (r: Option<string>)
    ensures r.None? <==> forall i :: 0 <= i < |claims| ==> claims[i].kind != kind
    ensures r.Some? ==> exists i :: 0 <= i < |claims| && claims[i] == Claim(kind, r.value)
  {
    if claims == [] then None
    else if claims[0].kind == kind then Some(claims[0].value)
    else FindClaim(claims[1..], kind)
  }

  /** The user id a validated request carries: its NameIdentifier claim read as an integer. */
  function SubjectId(claims: seq<Claim>): Option<int> {
    match FindClaim(claims, NameIdentifier)
    case None => None
    case Some(s) => ParseInt(s)
  }

  /**
   * `new JwtSecurityToken(claims, expires: now + 1 day, HMAC-SHA-256 over
   * UTF-8(key))`: the token names its user by id and by name, and by nothing
   * else, and is signed with the key's bytes.
   */
  function Issue(user: User, key: string, now: int): (t: Token)
    ensures |t.claims| == 2
    ensures SubjectId(t.claims) == Some(user.id)
    ensures FindClaim(t.claims, Name) == Some(user.username)
    ensures t.expires == now + SecondsPerDay
    ensures t.signingKey == Encode(key)
  {
    ParseIntToString(user.id);
    Token(IdentityClaims(user), now + SecondsPerDay, Encode(key))
  }

  /** The `TokenValidationParameters` a bearer-token check runs with. */
  datatype ValidationParameters = ValidationParameters(
    issuerSigningKey: seq<byte>,
    validateIssuer: bool,
    validateAudience: bool,
    validateLifetime: bool,
    clockSkew: int)

  datatype AuthError = InvalidSignature | InvalidIssuer | InvalidAudience | Expired

  /**
   * The bearer check in the order IdentityModel runs it: the signature first,
   * then the lifetime (a token is expired once `now - clockSkew` has passed
   * `expires`), then audience and issuer when asked for (the tokens here carry
   * neither, so asking rejects them). On success the request is authenticated with the
   * token's claims.
   */
  function Validate(p: ValidationParameters, t: Token, now: int): (r: Result<seq<Claim>, AuthError>)
    ensures r.Success? ==> r.value == t.claims && t.signingKey == p.issuerSigningKey
    ensures r == Failure(InvalidSignature) <==> t.signingKey != p.issuerSigningKey
    ensures r == Failure(Expired) <==>
      t.signingKey == p.issuerSigningKey && p.validateLifetime && t.expires < now - p.clockSkew
    ensures r.Success? <==>
      && t.signingKey == p.issuerSigningKey
      && !(p.validateLifetime && t.expires < now - p.clockSkew)
      && !p.validateAudience && !p.validateIssuer
  {
    if t.signingKey != p.issuerSigningKey then Failure(InvalidSignature)
    else if p.validateLifetime && t.expires < now - p.clockSkew then Failure(Expired)
    else if p.validateAudience then Failure(InvalidAudience)
    else if p.validateIssuer then Failure(InvalidIssuer)
    else Success(t.claims)
  }
}
