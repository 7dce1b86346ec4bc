/**
 * The authentication endpoints (Tienda/Controllers/AuthController.cs):
 * registration, login and token generation over the Users table.
 */
module Auth {
  import opened Models
  import opened SigningKey
  import opened Jwt

  /** The random salt BCrypt draws for every hash, passed in by the caller. */
  type Salt = nat

  /**
   * The password hasher as its two operations; the model assumes nothing of
   * them except, where a property needs it, `Sound`.
   */
  datatype PasswordHasher = PasswordHasher(hash: (string, Salt) -> string, verify: (string, string) -> bool)

  /** Every hash of a password verifies against that password, whatever its salt. */
  ghost predicate Sound(h: PasswordHasher) {
    forall p, s :: h.verify(p, h.hash(p, s))
  }

  /** The register and login request bodies; a field left out of the JSON is null. */
  datatype Credentials = Credentials(username: Option<string>, password: Option<string>)

  datatype Status = Ok | BadRequest | InternalServerError

  /** Status and body of an endpoint's answer: `success`, `message`, and `token` and `username` where present. */
  datatype Response = Response(status: Status, success: bool, message: string, token: Option<Token>, username: Option<string>)

  const FieldsRequired: string := "Usuario y contraseña son requeridos"
  const UserExists: string := "El usuario ya existe"
  const Registered: string := "Usuario registrado exitosamente"
  const BadCredentialsMessage: string := "Usuario o contraseña incorrectos"
  const LoggedIn: string := "Login exitoso"
  const InternalError: string := "Error interno del servidor"
  const KeyNotFound: string := "Token key no encontrada en la configuración"
  const TokenFailed: string := "Error al generar el token de autenticación"

  /**
   * `[StringLength(100)]` on `User.Username`: the width of the nvarchar column
   * the Users table is created with, counted in UTF-16 code units.
   */
  const MaxUsernameLength: nat := 100

  /** The number of UTF-16 code units of `s`: two for a character outside the Basic Multilingual Plane. */
  function Utf16Length(s: string): (n: nat)
    ensures |s| <= n <= 2 * |s|
  {
    if s == [] then 0 else (if s[0] as int >= 0x1_0000 then 2 else 1) + Utf16Length(s[1..])
  }

  function Rejection(message: string): Response {
    Response(BadRequest, false, message, None, None)
  }

  function ServerError(): Response {
    Response(InternalServerError, false, InternalError, None, None)
  }

  predicate MissingFields(req: Credentials) {
    IsNullOrEmpty(req.username) || IsNullOrEmpty(req.password)
  }

  ghost predicate UniqueUsernames(users: seq<User>) {
    forall i, j :: 0 <= i < j < |users| ==> users[i].username != users[j].username
  }

  /** `FirstOrDefaultAsync(u => u.Username == name)`: the position of the first user with that exact name. */
  function FindUsername(users: seq<User>, name: string): (r: Option<nat>)
    ensures r.None? <==> forall i :: 0 <= i < |users| ==> users[i].username != name
    ensures r.Some? ==> r.value < |users| && users[r.value].username == name
    ensures r.Some? ==> forall j :: 0 <= j < r.value ==> users[j].username != name
  {
    if users == [] then None
    else if users[0].username == name then Some(0)
    else match FindUsername(users[1..], name)
      case None => None
      case Some(i) => Some(i + 1)
  }

  /** Number of stored users with the given name. */
  function CountNamed(users: seq<User>, name: string): nat {
    if users == [] then 0
    else (if users[0].username == name then 1 else 0) + CountNamed(users[1..], name)
  }

  /**
   * What Register does with the table: reject the request, have the insert
   * fail in the store because the name does not fit its column, or insert.
   */
  datatype RegisterStep = RejectMissing | RejectDuplicate | NameTooLong | Insert

  function RegisterDecision(users: seq<User>, req: Credentials): (r: RegisterStep)
    ensures r == RejectMissing <==> MissingFields(req)
    ensures r == RejectDuplicate <==>
      !MissingFields(req) && exists i :: 0 <= i < |users| && Some(users[i].username) == req.username
    ensures r == NameTooLong <==>
      && !MissingFields(req)
      && (forall i :: 0 <= i < |users| ==> Some(users[i].username) != req.username)
      && Utf16Length(req.username.value) > MaxUsernameLength
    ensures r == Insert <==>
      && !MissingFields(req)
      && (forall i :: 0 <= i < |users| ==> Some(users[i].username) != req.username)
      && Utf16Length(req.username.value) <= MaxUsernameLength
  {
    if MissingFields(req) then RejectMissing
    else if FindUsername(users, req.username.value).Some? then RejectDuplicate
    else if Utf16Length(req.username.value) > MaxUsernameLength then NameTooLong
    else Insert
  }

  /** The decision Login takes; no-such-user and wrong-password are one outcome. */
  datatype LoginStep = LoginMissing | InvalidCredentials | Authenticated(user: User)

  function LoginDecision(users: seq<User>, hasher: PasswordHasher, req: Credentials): (r: LoginStep)
    ensures r == LoginMissing <==> MissingFields(req)
    ensures r.Authenticated? ==>
      && r.user in users
      && Some(r.user.username) == req.username
      && hasher.verify(req.password.value, r.user.passwordHash)
    ensures UniqueUsernames(users) && !MissingFields(req) ==>
      (r.Authenticated? <==>
        exists i :: 0 <= i < |users| && Some(users[i].username) == req.username
                    && hasher.verify(req.password.value, users[i].passwordHash))
  {
    if MissingFields(req) then LoginMissing
    else match FindUsername(users, req.username.value)
      case None => InvalidCredentials
      case Some(i) =>
        if hasher.verify(req.password.value, users[i].passwordHash) then Authenticated(users[i])
        else InvalidCredentials
  }

  /**
   * The answer Login gives for a decision: 400 with the fixed messages for a
   * rejection, 500 when a user is authenticated but no key is configured, and
   * otherwise the only answer that carries a token and a name: the
   * authenticated user's, signed with the expanded key.
   */
  function LoginResponse(step: LoginStep, tokenKey: Option<string>, now: int): (r: Response)
    ensures step.LoginMissing? ==> r == Rejection(FieldsRequired)
    ensures step.InvalidCredentials? ==> r == Rejection(BadCredentialsMessage)
    ensures r.status == InternalServerError <==> step.Authenticated? && IsNullOrEmpty(tokenKey)
    ensures r.status == Ok <==> step.Authenticated? && !IsNullOrEmpty(tokenKey)
    ensures r.success <==> r.status == Ok
    ensures r.token.Some? <==> r.success
    ensures r.username.Some? <==> r.success
    ensures r.success ==>
      && r.message == LoggedIn
      && r.token.value == Issue(step.user, Expanded(tokenKey.value), now)
      && r.username == Some(step.user.username)
      && |r.token.value.signingKey| >= MinKeyBytes
  {
    match step
    case LoginMissing => Rejection(FieldsRequired)
    case InvalidCredentials => Rejection(BadCredentialsMessage)
    case Authenticated(user) =>
      if IsNullOrEmpty(tokenKey) then ServerError()
      else Response(Ok, true, LoggedIn, Some(Issue(user, Expanded(tokenKey.value), now)), Some(user.username))
  }

  class AuthController {
    /** The Users table, in storage order, and the next value of its identity column. */
    var users: seq<User>
    var nextUserId: int
    const hasher: PasswordHasher
    /** The configured `AppSettings:Token` value; null when absent. */
    const tokenKey: Option<string>

    ghost predicate Valid()
      reads this
    {
      && UniqueUsernames(users)
      && forall i :: 0 <= i < |users| ==> users[i].id < nextUserId && Utf16Length(users[i].username) <= MaxUsernameLength
    }

    constructor (hasher: PasswordHasher, tokenKey: Option<string>)
      ensures Valid()
      ensures users == [] && nextUserId == 1
      ensures this.hasher == hasher && this.tokenKey == tokenKey
    {
      users := [];
      nextUserId := 1;
      this.hasher := hasher;
      this.tokenKey := tokenKey;
    }

    /**
     * GenerateToken: fails, with the wrapped message, exactly when no key is
     * configured; otherwise signs the user's two claims with the expanded key
     * and an expiry one day from `now`.
     */
    method GenerateToken(user: User, now: int) returns (r: Result<Token, string>)
      ensures r.Failure? <==> IsNullOrEmpty(tokenKey)
      ensures r.Failure? ==> r.error == TokenFailed
      ensures r.Success? ==> r.value == Issue(user, Expanded(tokenKey.value), now)
      ensures r.Success? ==> |r.value.signingKey| >= MinKeyBytes
    {
      var attempt: Result<Token, string>;
      if IsNullOrEmpty(tokenKey) {
        attempt := Failure(KeyNotFound);
      } else {
        var key := ExpandKey(tokenKey.value);
        attempt := Success(Issue(user, key, now));
      }
      // every failure inside is rethrown with one fixed message
      r := if attempt.Failure? then Failure(TokenFailed) else attempt;
    }

    /**
     * Register: missing fields and taken names are rejected with the table
     * untouched; a name too long for its column makes the insert fail in the
     * store, which the catch answers with 500, and nothing is stored;
     * otherwise exactly one user is appended, with the next id, the given name
     * and a hash of the password, and it stays stored even when the token
     * cannot be generated afterwards.
     */
    method Register(req: Credentials, salt: Salt, now: int) returns (resp: Response)
      requires Valid()
      modifies this`users, this`nextUserId
      ensures Valid()
      ensures RegisterDecision(old(users), req) == RejectMissing ==>
        resp == Rejection(FieldsRequired) && users == old(users) && nextUserId == old(nextUserId)
      ensures RegisterDecision(old(users), req) == RejectDuplicate ==>
        resp == Rejection(UserExists) && users == old(users) && nextUserId == old(nextUserId)
      ensures RegisterDecision(old(users), req) == NameTooLong ==>
        resp == ServerError() && users == old(users) && nextUserId == old(nextUserId)
      ensures RegisterDecision(old(users), req) == Insert ==>
        var user := User(old(nextUserId), req.username.value, hasher.hash(req.password.value, salt));
        && users == old(users) + [user]
        && nextUserId == old(nextUserId) + 1
        && resp == if IsNullOrEmpty(tokenKey) then ServerError()
                   else Response(Ok, true, Registered, Some(Issue(user, Expanded(tokenKey.value), now)), None)
    {
      if MissingFields(req) {
        return Rejection(FieldsRequired);
      }
      var existing := FindUsername(users, req.username.value);
      if existing.Some? {
        return Rejection(UserExists);
      }
      var passwordHash := hasher.hash(req.password.value, salt);
      var user := User(nextUserId, req.username.value, passwordHash);
      if Utf16Length(user.username) > MaxUsernameLength {
        // SaveChangesAsync fails on the nvarchar(100) column
        return ServerError();
      }
      users := users + [user];
      nextUserId := nextUserId + 1;
      var token := GenerateToken(user, now);
      if token.Failure? {
        return ServerError();
      }
      resp := Response(Ok, true, Registered, Some(token.value), None);
    }

    /**
     * Login: read-only. Missing fields, an unknown name and a wrong password
     * are rejected, the last two with one and the same answer; a match gets a
     * token for the stored user and that user's name.
     */
    method Login(req: Credentials, now: int) returns (resp: Response)
      ensures resp == LoginResponse(LoginDecision(users, hasher, req), tokenKey, now)
    {
      if MissingFields(req) {
        return Rejection(FieldsRequired);
      }
      var found := FindUsername(users, req.username.value);
      if found.None? {
        return Rejection(BadCredentialsMessage);
      }
      var user := users[found.value];
      if !hasher.verify(req.password.value, user.passwordHash) {
        return Rejection(BadCredentialsMessage);
      }
      var token := GenerateToken(user, now);
      if token.Failure? {
        return ServerError();
      }
      resp := Response(Ok, true, LoggedIn, Some(token.value), Some(user.username));
    }
  }

  /** A user appended to a table where the name is free is the one the name now finds. */
  lemma {:induction false} FindAppended(users: seq<User>, user: User)
    requires forall i :: 0 <= i < |users| ==> users[i].username != user.username
    ensures FindUsername(users + [user], user.username) == Some(|users|)
  {
    if users != [] {
      assert (users + [user])[1..] == users[1..] + [user];
      FindAppended(users[1..], user);
    }
  }

  lemma {:induction false} CountAppend(users: seq<User>, user: User, name: string)
    ensures CountNamed(users + [user], name) == CountNamed(users, name) + (if user.username == name then 1 else 0)
  {
    if users != [] {
      assert (users + [user])[1..] == users[1..] + [user];
      CountAppend(users[1..], user, name);
    }
  }

  lemma {:induction false} CountAbsent(users: seq<User>, name: string)
    requires forall i :: 0 <= i < |users| ==> users[i].username != name
    ensures CountNamed(users, name) == 0
  {
    if users != [] {
      CountAbsent(users[1..], name);
    }
  }

  /**
   * Registering the same name twice: the second attempt is a duplicate, and
   * exactly one user of that name is stored.
   */
  lemma RegisterTwice(users: seq<User>, req: Credentials, id: int, hash: string)
    requires RegisterDecision(users, req) == Insert
    ensures var after := users + [User(id, req.username.value, hash)];
      && RegisterDecision(after, req) == RejectDuplicate
      && CountNamed(after, req.username.value) == 1
  {
    var user := User(id, req.username.value, hash);
    var after := users + [user];
    assert after[|users|] == user;
    CountAppend(users, user, user.username);
    CountAbsent(users, user.username);
  }

  /** A registration that inserts keeps usernames unique. */
  lemma RegisterKeepsUsernamesUnique(users: seq<User>, req: Credentials, id: int, hash: string)
    requires UniqueUsernames(users)
    requires RegisterDecision(users, req) == Insert
    ensures UniqueUsernames(users + [User(id, req.username.value, hash)])
  {
  }

  /**
   * Register then login: with a sound hasher, the credentials just registered
   * log in as the user just stored.
   */
  lemma RegisterThenLogin(users: seq<User>, hasher: PasswordHasher, req: Credentials, id: int, salt: Salt)
    requires Sound(hasher)
    requires RegisterDecision(users, req) == Insert
    ensures var user := User(id, req.username.value, hasher.hash(req.password.value, salt));
      LoginDecision(users + [user], hasher, req) == Authenticated(user)
  {
    var user := User(id, req.username.value, hasher.hash(req.password.value, salt));
    FindAppended(users, user);
    assert hasher.verify(req.password.value, hasher.hash(req.password.value, salt));
  }

  /**
   * No enumeration: with non-empty fields, an unknown name and a known name
   * with a wrong password get the same answer.
   */
  lemma UnknownUserLikeWrongPassword(users: seq<User>, hasher: PasswordHasher, unknown: Credentials, wrong: Credentials, tokenKey: Option<string>, now: int)
    requires !MissingFields(unknown) && !MissingFields(wrong)
    requires forall i :: 0 <= i < |users| ==> Some(users[i].username) != unknown.username
    requires forall i :: 0 <= i < |users| && Some(users[i].username) == wrong.username ==>
               !hasher.verify(wrong.password.value, users[i].passwordHash)
    ensures LoginResponse(LoginDecision(users, hasher, unknown), tokenKey, now)
         == LoginResponse(LoginDecision(users, hasher, wrong), tokenKey, now)
         == Rejection(BadCredentialsMessage)
  {
  }
}
