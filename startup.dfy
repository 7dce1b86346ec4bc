/**
 * Process start-up (Tienda/Program.cs): read the configured signing key,
 * expand it like the token issuer does, and fix the parameters every bearer
 * token is checked with.
 */
module Startup {
  import opened Models
  import opened Utf8
  import opened SigningKey
  import opened Jwt

  const TokenNotConfigured: string := "Token no configurado en appsettings.json"

  datatype StartupError = InvalidOperation(message: string)

  /**
   * The parameters bearer tokens are checked with: the token must carry the
   * key's bytes, issuer and audience are not checked, and the lifetime is
   * checked with zero clock skew, so a token is accepted up to and including
   * its expiry second.
   */
  function BearerParameters(key: string): (p: ValidationParameters)
    ensures forall t: Token, now: int ::
              Validate(p, t, now) ==
                if t.signingKey != Encode(key) then Failure(InvalidSignature)
                else if now > t.expires then Failure(Expired)
                else Success(t.claims)
  {
    ValidationParameters(Encode(key), false, false, true, 0)
  }

  /**
   * The start-up guard as written: `?? throw` rejects a null key only. It
   * accepts every key the token issuer accepts, and differs from the issuer's
   * null-or-empty check exactly on the empty key, which it lets through to the
   * doubling loop.
   */
  function KeyAcceptedAsWritten(config: Option<string>): (ok: bool)
    ensures !IsNullOrEmpty(config) ==> ok
    ensures config.None? ==> !ok
    ensures ok && IsNullOrEmpty(config) <==> config == Some("")
  {
    config.Some?
  }

  /**
   * An empty configured key passes the guard as written and then keeps the
   * doubling loop's condition true after every number of turns: start-up never
   * gets past the loop.
   */
  lemma EmptyKeyHangsStartup(n: nat)
    ensures KeyAcceptedAsWritten(Some(""))
    ensures |Encode(Doubled("", n))| < MinKeyBytes
  {
    EmptyKeyStaysEmpty(n);
  }

  /**
   * Start-up with the guard the token issuer uses (null or empty rejected):
   * it fails exactly when no usable key is configured, and otherwise checks
   * tokens against the same expanded key the issuer signs with.
   */
  method ConfigureAuthentication(config: Option<string>) returns (r: Result<ValidationParameters, StartupError>)
    ensures r.Failure? <==> IsNullOrEmpty(config)
    ensures r.Failure? ==> r.error == InvalidOperation(TokenNotConfigured)
    ensures r.Success? ==> r.value == BearerParameters(Expanded(config.value))
    ensures r.Success? ==> |r.value.issuerSigningKey| >= MinKeyBytes
  {
    if IsNullOrEmpty(config) {
      return Failure(InvalidOperation(TokenNotConfigured));
    }
    var tokenKey := ExpandKey(config.value);
    r := Success(BearerParameters(tokenKey));
  }

  /**
   * A token the issuer signs with a configured key is accepted by start-up's
   * check for that key until (and including) its expiry second, one day after
   * issuance, and rejected as expired afterwards; it is never rejected for its
   * issuer, audience or signature.
   */
  lemma IssuedTokenAcceptedUntilExpiry(user: User, config: string, issuedAt: int, now: int)
    requires config != ""
    ensures var key := Expanded(config);
      Validate(BearerParameters(key), Issue(user, key, issuedAt), now)
        == if now <= issuedAt + SecondsPerDay then Success(IdentityClaims(user)) else Failure(Expired)
  {
  }

  /**
   * A token signed under one expanded key is rejected as wrongly signed by a
   * check that uses different key bytes.
   */
  lemma OtherKeyRejected(user: User, signing: string, checking: string, issuedAt: int, now: int)
    requires Encode(signing) != Encode(checking)
    ensures Validate(BearerParameters(checking), Issue(user, signing, issuedAt), now) == Failure(InvalidSignature)
  {
  }

  /**
   * Self-concatenation makes distinct short secrets interchangeable: a key
   * shorter than 64 bytes and the same key written twice expand to the same
   * signing key, so each accepts the other's tokens.
   */
  lemma DoubledSecretSameKey(config: string)
    requires config != "" && |Encode(config)| < MinKeyBytes
    ensures config + config != config
    ensures Expanded(config + config) == Expanded(config)
  {
    assert |config + config| > |config|;
  }
}
