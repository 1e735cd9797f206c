/**
 * The identity service of backend/services/auth_service.go: registration,
 * login, token issue, token validation and refresh. Configuration,
 * the clock, the random salt, bcrypt and the JWS codec are parameters.
 */
module AuthService {
  import opened Wrappers
  import opened Uuids
  import opened Models
  import opened Crypto
  import opened UserRepository

  /**
   * The three sentinel errors of the service, the parser's own error passed
   * through unchanged, the errors of the collaborators, and the run-time
   * panic of an unchecked claim type assertion.
   */
  datatype AuthError =
    | InvalidCredentials
    | UserAlreadyExists
    | InvalidToken
    | TokenRejected
    | HashFailed
    | SigningFailed
    | Store(cause: StoreError)
    | ClaimTypePanic

  /**
   * `auth.jwt_secret`, and `auth.token_expiry` / `auth.refresh_token_expiry`
   * after `time.ParseDuration`: the duration in nanoseconds, or None when
   * the setting does not parse.
   */
  datatype Config = Config(secret: string, tokenExpiry: Option<int>, refreshTokenExpiry: Option<int>)

  const Second: int := 1_000_000_000
  const Hour: int := 3600 * Second
  const DefaultTokenExpiry: int := 24 * Hour
  const DefaultRefreshTokenExpiry: int := 7 * 24 * Hour

  /** The one signing method tokens are issued with (section 3.2 of RFC 7518). */
  const IssueAlg: string := "HS256"

  /** The zero UUID of a user record that has not been stored yet. */
  const NilUuid: Uuid := [0, 0, 0, 0, 0, 0, 0, 0, 0, 0, 0, 0, 0, 0, 0, 0]

  function AccessLifetime(cfg: Config): int {
    cfg.tokenExpiry.GetOr(DefaultTokenExpiry)
  }

  function RefreshLifetime(cfg: Config): int {
    cfg.refreshTokenExpiry.GetOr(DefaultRefreshTokenExpiry)
  }

  /** `time.Time.Unix`: whole seconds, rounded down. */
  function UnixSeconds(t: int): int {
    t / Second
  }

  // ---------------------------------------------------------------------------
  // Token issue
  // ---------------------------------------------------------------------------

  /** The claims both tokens carry: identity, expiry and issue time in Unix seconds. */
  function IdentityClaims(u: User, expiresAt: int, now: int): ClaimMap {
    map[
      "user_id" := Str(Format(u.id)),
      "email" := Str(u.email),
      "role" := Str(u.role),
      "exp" := Num(UnixSeconds(expiresAt)),
      "issued_at" := Num(UnixSeconds(now))]
  }

  function AccessClaims(u: User, cfg: Config, now: int): ClaimMap {
    IdentityClaims(u, now + AccessLifetime(cfg), now)
  }

  function RefreshClaims(u: User, cfg: Config, now: int): ClaimMap {
    IdentityClaims(u, now + RefreshLifetime(cfg), now)["is_refresh" := Flag(true)]
  }

  /** The claims name `u`: its id in text form, its e-mail address and its role. */
  ghost predicate NamesUser(claims: ClaimMap, u: User) {
    && "user_id" in claims && claims["user_id"] == Str(Format(u.id))
    && "email" in claims && claims["email"] == Str(u.email)
    && "role" in claims && claims["role"] == Str(u.role)
  }

  /**
   * `generateToken`: the access token and its expiry instant. Issuing
   * fails exactly when signing the HS256 access claims fails.
   */
  function GenerateToken(u: User, codec: Codec, cfg: Config, now: int): (r: Result<(string, int), AuthError>)
    ensures r.Success? <==> codec.sign(Jws(IssueAlg, AccessClaims(u, cfg, now)), cfg.secret).Some?
    ensures r.Failure? ==> r.error == SigningFailed
    ensures r.Success? ==> r.value.0 == codec.sign(Jws(IssueAlg, AccessClaims(u, cfg, now)), cfg.secret).value
  {
    var expiresAt := now + AccessLifetime(cfg);
    match codec.sign(Jws(IssueAlg, AccessClaims(u, cfg, now)), cfg.secret)
    case None => Failure(SigningFailed)
    case Some(token) => Success((token, expiresAt))
  }

  /**
   * What an access token carries: an HS256 token naming the user, without
   * `is_refresh`, whose `exp` claim is the returned expiry in Unix seconds
   * and whose `issued_at` claim is the issue instant. The expiry is the
   * configured lifetime after `now`, 24 hours when the setting does not parse.
   */
  lemma GeneratedToken(u: User, codec: Codec, cfg: Config, now: int)
    requires CodecLaws(codec)
    requires GenerateToken(u, codec, cfg, now).Success?
    ensures var (token, expiresAt) := GenerateToken(u, codec, cfg, now).value;
      var claims := AccessClaims(u, cfg, now);
      && codec.decode(token) == Some(Jws("HS256", claims))
      && NamesUser(claims, u)
      && "is_refresh" !in claims
      && claims["exp"] == Num(UnixSeconds(expiresAt))
      && claims["issued_at"] == Num(UnixSeconds(now))
      && (cfg.tokenExpiry.None? ==> expiresAt == now + 24 * 3600 * 1_000_000_000)
      && (cfg.tokenExpiry.Some? ==> expiresAt == now + cfg.tokenExpiry.value)
  {
    assert codec.sign(Jws(IssueAlg, AccessClaims(u, cfg, now)), cfg.secret).Some?;
  }

  /**
   * `generateRefreshToken`: the refresh token and its expiry instant.
   * Issuing fails exactly when signing the HS256 refresh claims fails.
   */
  function GenerateRefreshToken(u: User, codec: Codec, cfg: Config, now: int): (r: Result<(string, int), AuthError>)
    ensures r.Success? <==> codec.sign(Jws(IssueAlg, RefreshClaims(u, cfg, now)), cfg.secret).Some?
    ensures r.Failure? ==> r.error == SigningFailed
    ensures r.Success? ==> r.value.0 == codec.sign(Jws(IssueAlg, RefreshClaims(u, cfg, now)), cfg.secret).value
  {
    var expiresAt := now + RefreshLifetime(cfg);
    match codec.sign(Jws(IssueAlg, RefreshClaims(u, cfg, now)), cfg.secret)
    case None => Failure(SigningFailed)
    case Some(token) => Success((token, expiresAt))
  }

  /**
   * What a refresh token carries: an HS256 token naming the user, marked
   * `is_refresh`, whose `exp` claim is the returned expiry in Unix seconds
   * and whose `issued_at` claim is the issue instant. The expiry is the
   * configured lifetime after `now`, 7 days when the setting does not parse.
   */
  lemma GeneratedRefreshToken(u: User, codec: Codec, cfg: Config, now: int)
    requires CodecLaws(codec)
    requires GenerateRefreshToken(u, codec, cfg, now).Success?
    ensures var (token, expiresAt) := GenerateRefreshToken(u, codec, cfg, now).value;
      var claims := RefreshClaims(u, cfg, now);
      && codec.decode(token) == Some(Jws("HS256", claims))
      && NamesUser(claims, u)
      && claims["is_refresh"] == Flag(true)
      && claims["exp"] == Num(UnixSeconds(expiresAt))
      && claims["issued_at"] == Num(UnixSeconds(now))
      && (cfg.refreshTokenExpiry.None? ==> expiresAt == now + 7 * 24 * 3600 * 1_000_000_000)
      && (cfg.refreshTokenExpiry.Some? ==> expiresAt == now + cfg.refreshTokenExpiry.value)
  {
    assert codec.sign(Jws(IssueAlg, RefreshClaims(u, cfg, now)), cfg.secret).Some?;
  }

  /** The token response Login and RefreshToken build for a user: access token first, then refresh token. */
  function IssuePair(u: User, codec: Codec, cfg: Config, now: int): (r: Result<TokenResponse, AuthError>)
    ensures r.Failure? ==> r.error == SigningFailed
    ensures r.Success? <==> GenerateToken(u, codec, cfg, now).Success? && GenerateRefreshToken(u, codec, cfg, now).Success?
    ensures r.Success? ==> r.value.user == u && r.value.expiresAt == now + AccessLifetime(cfg)
    ensures r.Success? ==>
      && r.value.token == GenerateToken(u, codec, cfg, now).value.0
      && r.value.refreshToken == GenerateRefreshToken(u, codec, cfg, now).value.0
  {
    match GenerateToken(u, codec, cfg, now)
    case Failure(e) => Failure(e)
    case Success((token, expiresAt)) =>
      match GenerateRefreshToken(u, codec, cfg, now)
      case Failure(e) => Failure(e)
      case Success((refreshToken, _)) => Success(TokenResponse(token, refreshToken, expiresAt, u))
  }

  /**
   * What an issued pair carries. Both tokens are HS256 tokens naming the
   * user; only the refresh token is marked `is_refresh`; the response's
   * expiry is the access token's, whose `exp` claim is that instant in Unix
   * seconds; an unparsable lifetime setting falls back to 24 hours for the
   * access token and 7 days for the refresh token.
   */
  lemma IssuedPair(u: User, codec: Codec, cfg: Config, now: int)
    requires CodecLaws(codec)
    requires IssuePair(u, codec, cfg, now).Success?
    ensures var r := IssuePair(u, codec, cfg, now).value;
      && codec.decode(r.token) == Some(Jws("HS256", AccessClaims(u, cfg, now)))
      && codec.decode(r.refreshToken) == Some(Jws("HS256", RefreshClaims(u, cfg, now)))
      && NamesUser(AccessClaims(u, cfg, now), u)
      && NamesUser(RefreshClaims(u, cfg, now), u)
      && "is_refresh" !in AccessClaims(u, cfg, now)
      && RefreshClaims(u, cfg, now)["is_refresh"] == Flag(true)
      && AccessClaims(u, cfg, now)["exp"] == Num(UnixSeconds(r.expiresAt))
      && (cfg.tokenExpiry.None? ==> r.expiresAt == now + 24 * 3600 * 1_000_000_000)
      && (cfg.tokenExpiry.Some? ==> r.expiresAt == now + cfg.tokenExpiry.value)
      && RefreshClaims(u, cfg, now)["exp"] == Num(UnixSeconds(now + RefreshLifetime(cfg)))
      && (cfg.refreshTokenExpiry.None? ==> RefreshLifetime(cfg) == 7 * 24 * 3600 * 1_000_000_000)
  {
    var access := Jws(IssueAlg, AccessClaims(u, cfg, now));
    var refresh := Jws(IssueAlg, RefreshClaims(u, cfg, now));
    assert codec.sign(access, cfg.secret).Some?;
    assert codec.sign(refresh, cfg.secret).Some?;
  }

  /**
   * A codec that knows only the two tokens of one pair: the access claims
   * of `u` sign to "A", the refresh claims to "B", both only under the
   * configured secret, and every time check passes.
   */
  function PairCodec(u: User, cfg: Config, now: int): Codec {
    var access := Jws(IssueAlg, AccessClaims(u, cfg, now));
    var refresh := Jws(IssueAlg, RefreshClaims(u, cfg, now));
    Codec(
      (j: Jws, secret: string) =>
        if secret != cfg.secret then None
        else if j == access then Some("A")
        else if j == refresh then Some("B")
        else None,
      (token: string) =>
        if token == "A" then Some(access) else if token == "B" then Some(refresh) else None,
      (token: string, secret: string) => (token == "A" || token == "B") && secret == cfg.secret,
      (claims: ClaimMap, at: int) => true)
  }

  /**
   * The codec laws can be met together with a successful issue whose
   * tokens pass the time check, so the lemmas assuming all of these
   * exclude no behaviour by accident.
   */
  lemma CodecLawsSatisfiable(u: User, cfg: Config, now: int)
    ensures var c := PairCodec(u, cfg, now);
      && CodecLaws(c)
      && IssuePair(u, c, cfg, now).Success?
      && c.claimsValid(AccessClaims(u, cfg, now), now)
      && c.claimsValid(RefreshClaims(u, cfg, now), now)
  {
    var c := PairCodec(u, cfg, now);
    var access := Jws(IssueAlg, AccessClaims(u, cfg, now));
    var refresh := Jws(IssueAlg, RefreshClaims(u, cfg, now));
    assert "is_refresh" in refresh.claims && "is_refresh" !in access.claims;
    assert c.sign(access, cfg.secret) == Some("A");
    assert c.sign(refresh, cfg.secret) == Some("B");
  }

  // ---------------------------------------------------------------------------
  // Token validation
  // ---------------------------------------------------------------------------

  /** The claims yield `c`: the user id parses to `c.userId`, e-mail and role are the strings of `c`. */
  ghost predicate Yields(claims: ClaimMap, c: JwtClaims) {
    && "user_id" in claims && claims["user_id"].Str? && Parse(claims["user_id"].s) == Some(c.userId)
    && "email" in claims && claims["email"] == Str(c.email)
    && "role" in claims && claims["role"] == Str(c.role)
  }

  /**
   * Reading the identity out of verified claims. A `user_id` that is not a
   * UUID is an invalid token; a claim that is missing or not a string makes
   * the unchecked type assertion panic.
   */
  function ExtractClaims(claims: ClaimMap): (r: Result<JwtClaims, AuthError>)
    ensures r.Success? <==> exists c :: Yields(claims, c)
    ensures r.Success? ==> Yields(claims, r.value)
    ensures r == Failure(InvalidToken) <==>
      "user_id" in claims && claims["user_id"].Str? && Parse(claims["user_id"].s).None?
    ensures r.Failure? ==> r.error in {InvalidToken, ClaimTypePanic}
  {
    if "user_id" !in claims || !claims["user_id"].Str? then Failure(ClaimTypePanic)
    else
      match Parse(claims["user_id"].s)
      case None => Failure(InvalidToken)
      case Some(id) =>
        if "email" !in claims || !claims["email"].Str? || "role" !in claims || !claims["role"].Str? then
          Failure(ClaimTypePanic)
        else
          var c := JwtClaims(id, claims["email"].s, claims["role"].s);
          assert Yields(claims, c);
          Success(c)
  }

  /** The token's header names an HMAC method (what the key function admits). */
  predicate HmacHeader(jws: Jws) {
    MethodFor(jws.alg).Some? && MethodFor(jws.alg).value.Hmac?
  }

  /**
   * `ValidateToken`: parse, refuse any method that is not HMAC before the
   * secret is handed out, check the time claims and the signature, then
   * read the identity. Every parser failure is the one error TokenRejected.
   */
  function ValidateToken(codec: Codec, secret: string, now: int, token: string): (r: Result<JwtClaims, AuthError>)
    ensures r.Success? ==>
      && codec.decode(token).Some?
      && HmacHeader(codec.decode(token).value)
      && codec.verify(token, secret)
      && codec.claimsValid(codec.decode(token).value.claims, now)
      && Yields(codec.decode(token).value.claims, r.value)
    ensures codec.decode(token).Some? && !HmacHeader(codec.decode(token).value) ==> r == Failure(TokenRejected)
    ensures !codec.verify(token, secret) ==> r == Failure(TokenRejected)
    ensures r.Failure? ==> r.error in {TokenRejected, InvalidToken, ClaimTypePanic}
    ensures r == Failure(TokenRejected) <==>
      !(&& codec.decode(token).Some? && HmacHeader(codec.decode(token).value)
        && codec.claimsValid(codec.decode(token).value.claims, now) && codec.verify(token, secret))
    ensures codec.decode(token).Some? && HmacHeader(codec.decode(token).value)
            && codec.claimsValid(codec.decode(token).value.claims, now) && codec.verify(token, secret) ==>
      r == ExtractClaims(codec.decode(token).value.claims)
  {
    match codec.decode(token)
    case None => Failure(TokenRejected)
    case Some(jws) =>
      match MethodFor(jws.alg)
      case None => Failure(TokenRejected)
      case Some(m) =>
        if !m.Hmac? then Failure(TokenRejected)
        else if !codec.claimsValid(jws.claims, now) || !codec.verify(token, secret) then Failure(TokenRejected)
        else ExtractClaims(jws.claims)
  }

  /**
   * Round trip: a token signed with HMAC over claims naming `u` validates,
   * under the same secret and while the time claims hold, to exactly `u`'s
   * id, e-mail address and role.
   */
  lemma ValidateSigned(codec: Codec, secret: string, now: int, jws: Jws, u: User)
    requires CodecLaws(codec)
    requires codec.sign(jws, secret).Some?
    requires HmacHeader(jws) && NamesUser(jws.claims, u)
    requires codec.claimsValid(jws.claims, now)
    ensures ValidateToken(codec, secret, now, codec.sign(jws, secret).value) == Success(JwtClaims(u.id, u.email, u.role))
  {
    FormatThenParse(u.id);
  }

  /** A token signed under one secret is rejected under any other. */
  lemma OtherSecretRejected(codec: Codec, jws: Jws, secret: string, other: string, now: int)
    requires CodecLaws(codec)
    requires codec.sign(jws, secret).Some?
    requires other != secret
    ensures ValidateToken(codec, other, now, codec.sign(jws, secret).value) == Failure(TokenRejected)
  {
    assert !codec.verify(codec.sign(jws, secret).value, other);
  }

  /**
   * Both tokens of an issued pair validate, while their time claims hold,
   * to the same identity: validation cannot tell an access token from a
   * refresh token.
   */
  lemma PairValidatesAlike(u: User, codec: Codec, cfg: Config, issued: int, now: int)
    requires CodecLaws(codec)
    requires IssuePair(u, codec, cfg, issued).Success?
    requires codec.claimsValid(AccessClaims(u, cfg, issued), now)
    requires codec.claimsValid(RefreshClaims(u, cfg, issued), now)
    ensures var r := IssuePair(u, codec, cfg, issued).value;
      && ValidateToken(codec, cfg.secret, now, r.token) == Success(JwtClaims(u.id, u.email, u.role))
      && ValidateToken(codec, cfg.secret, now, r.refreshToken) == Success(JwtClaims(u.id, u.email, u.role))
  {
    var access := Jws(IssueAlg, AccessClaims(u, cfg, issued));
    var refresh := Jws(IssueAlg, RefreshClaims(u, cfg, issued));
    ValidateSigned(codec, cfg.secret, now, access, u);
    ValidateSigned(codec, cfg.secret, now, refresh, u);
  }

  // ---------------------------------------------------------------------------
  // Refresh
  // ---------------------------------------------------------------------------

  /**
   * `RefreshToken`: validate (the `is_refresh` claim is never looked at),
   * look the user up again by id, and issue a new pair for the stored record.
   */
  function RefreshToken(store: UserTable, codec: Codec, cfg: Config, now: int, token: string): (r: Result<TokenResponse, AuthError>)
    ensures ValidateToken(codec, cfg.secret, now, token).Failure? ==>
      r == Failure(ValidateToken(codec, cfg.secret, now, token).error)
    ensures ValidateToken(codec, cfg.secret, now, token).Success? &&
            ValidateToken(codec, cfg.secret, now, token).value.userId !in store ==>
      r == Failure(InvalidToken)
    ensures ValidateToken(codec, cfg.secret, now, token).Success? &&
            ValidateToken(codec, cfg.secret, now, token).value.userId in store ==>
      r == IssuePair(store[ValidateToken(codec, cfg.secret, now, token).value.userId], codec, cfg, now)
    ensures r.Success? ==>
      var c := ValidateToken(codec, cfg.secret, now, token).value;
      && ValidateToken(codec, cfg.secret, now, token).Success?
      && c.userId in store
      && r == IssuePair(store[c.userId], codec, cfg, now)
  {
    match ValidateToken(codec, cfg.secret, now, token)
    case Failure(e) => Failure(e)
    case Success(claims) =>
      match GetById(store, claims.userId)
      case None => Failure(InvalidToken)
      case Some(user) => IssuePair(user, codec, cfg, now)
  }

  /**
   * An access token is accepted as a refresh token: presented to
   * RefreshToken while its time claims hold, it yields a new pair for the
   * user's current record.
   */
  lemma RefreshAcceptsAccessToken(store: UserTable, u: User, codec: Codec, cfg: Config, issued: int, now: int)
    requires CodecLaws(codec)
    requires IssuePair(u, codec, cfg, issued).Success?
    requires codec.claimsValid(AccessClaims(u, cfg, issued), now)
    requires u.id in store
    ensures "is_refresh" !in AccessClaims(u, cfg, issued)
    ensures RefreshToken(store, codec, cfg, now, IssuePair(u, codec, cfg, issued).value.token)
         == IssuePair(store[u.id], codec, cfg, now)
  {
    ValidateSigned(codec, cfg.secret, now, Jws(IssueAlg, AccessClaims(u, cfg, issued)), u);
  }

  /**
   * The new pair is built from the stored record, not from the presented
   * token: after a profile change both new tokens name the current e-mail
   * address and role. A user removed since is an invalid token.
   */
  lemma RefreshUsesStoredRecord(store: UserTable, codec: Codec, cfg: Config, now: int, token: string)
    requires CodecLaws(codec)
    requires RefreshToken(store, codec, cfg, now, token).Success?
    ensures var r := RefreshToken(store, codec, cfg, now, token).value;
      var id := ValidateToken(codec, cfg.secret, now, token).value.userId;
      && r.user == store[id]
      && codec.decode(r.token) == Some(Jws("HS256", AccessClaims(store[id], cfg, now)))
      && NamesUser(AccessClaims(store[id], cfg, now), store[id])
      && NamesUser(RefreshClaims(store[id], cfg, now), store[id])
    ensures var id := ValidateToken(codec, cfg.secret, now, token).value.userId;
      RefreshToken(Delete(store, id), codec, cfg, now, token) == Failure(InvalidToken)
  {
    var id := ValidateToken(codec, cfg.secret, now, token).value.userId;
    IssuedPair(store[id], codec, cfg, now);
  }

  // ---------------------------------------------------------------------------
  // Login
  // ---------------------------------------------------------------------------

  /** The credential check after the e-mail lookup: one error for both ways of failing. */
  function CheckCredentials(found: Option<User>, password: string, hasher: Hasher): (r: Result<User, AuthError>)
    ensures r.Success? <==> found.Some? && hasher.compare(found.value.passwordHash, password)
    ensures r.Success? ==> r.value == found.value
    ensures r.Failure? ==> r.error == InvalidCredentials
  {
    match found
    case None => Failure(InvalidCredentials)
    case Some(user) =>
      if hasher.compare(user.passwordHash, password) then Success(user) else Failure(InvalidCredentials)
  }

  /** `Login` once the e-mail lookup has answered `found`. */
  function LoginWith(found: Option<User>, req: LoginRequest, hasher: Hasher, codec: Codec, cfg: Config, now: int): (r: Result<TokenResponse, AuthError>)
    ensures r.Success? ==> found.Some? && r.value.user == found.value
                           && hasher.compare(found.value.passwordHash, req.password)
    ensures r.Success? ==> r == IssuePair(r.value.user, codec, cfg, now)
    ensures found.Some? && hasher.compare(found.value.passwordHash, req.password) ==>
      r == IssuePair(found.value, codec, cfg, now)
    ensures !(found.Some? && hasher.compare(found.value.passwordHash, req.password)) ==>
      r == Failure(InvalidCredentials)
  {
    match CheckCredentials(found, req.password, hasher)
    case Failure(e) => Failure(e)
    case Success(user) => IssuePair(user, codec, cfg, now)
  }

  /** An unknown e-mail address and a wrong password are indistinguishable to the caller. */
  lemma LoginErrorParity(u: User, req: LoginRequest, hasher: Hasher, codec: Codec, cfg: Config, now: int)
    requires !hasher.compare(u.passwordHash, req.password)
    ensures LoginWith(None, req, hasher, codec, cfg, now) == Failure(InvalidCredentials)
    ensures LoginWith(Some(u), req, hasher, codec, cfg, now) == LoginWith(None, req, hasher, codec, cfg, now)
  {
  }

  /** The single user stored under an e-mail address, when addresses are unique. */
  ghost function UserWithEmail(store: UserTable, email: string): (u: User)
    requires HasEmail(store, email)
    ensures u.id in store && store[u.id] == u && u.email == email
  {
    var id :| id in store && store[id].email == email;
    store[id]
  }

  /**
   * `Login`: look the user up by e-mail address, check the password, issue
   * a pair. Both failures of the check are InvalidCredentials.
   */
  method Login(store: UserTable, req: LoginRequest, hasher: Hasher, codec: Codec, cfg: Config, now: int)
    returns (r: Result<TokenResponse, AuthError>)
    ensures !HasEmail(store, req.email) ==> r == Failure(InvalidCredentials)
    ensures UniqueEmails(store) && HasEmail(store, req.email) ==>
      r == LoginWith(Some(UserWithEmail(store, req.email)), req, hasher, codec, cfg, now)
    ensures r.Success? ==>
      && r.value.user.id in store && store[r.value.user.id] == r.value.user
      && r.value.user.email == req.email
      && hasher.compare(r.value.user.passwordHash, req.password)
    ensures r.Success? ==> r == IssuePair(r.value.user, codec, cfg, now)
  {
    var found := GetByEmail(store, req.email);
    if found.Some? && UniqueEmails(store) {
      EmailLookupDetermined(store, req.email, found.value, UserWithEmail(store, req.email));
    }
    r := LoginWith(found, req, hasher, codec, cfg, now);
  }

  // ---------------------------------------------------------------------------
  // Registration
  // ---------------------------------------------------------------------------

  /**
   * `Register` once the e-mail lookup has answered `found`: refuse a known
   * address, hash the password, insert the record. The database assigns
   * `id` and the time `now`.
   */
  function RegisterWith(store: UserTable, found: Option<User>, req: RegisterRequest, hasher: Hasher,
                        salt: nat, id: Uuid, now: int): (r: Result<(UserTable, User), AuthError>)
    ensures found.Some? ==> r == Failure(UserAlreadyExists)
    ensures found.None? && hasher.generate(req.password, salt).None? ==> r == Failure(HashFailed)
    ensures found.None? && hasher.generate(req.password, salt).Some? && id in store ==>
      r == Failure(Store(DuplicateKey))
    ensures found.None? && hasher.generate(req.password, salt).Some? && id !in store ==> r.Success?
    ensures r.Success? ==>
      var (store', u) := r.value;
      && u == User(id, req.email, hasher.generate(req.password, salt).value, req.fullName, req.role, "", now, now)
      && store'.Keys == store.Keys + {id} && id !in store
      && store'[id] == u
      && (forall other | other in store :: store'[other] == store[other])
  {
    match found
    case Some(_) => Failure(UserAlreadyExists)
    case None =>
      match hasher.generate(req.password, salt)
      case None => Failure(HashFailed)
      case Some(hash) =>
        match Create(store, User(NilUuid, req.email, hash, req.fullName, req.role, "", 0, 0), id, now)
        case Failure(e) => Failure(Store(e))
        case Success(created) => Success(created)
  }

  /** `Register`: a duplicate e-mail address is refused before anything is hashed or stored. */
  method Register(store: UserTable, req: RegisterRequest, hasher: Hasher, salt: nat, id: Uuid, now: int)
    returns (r: Result<(UserTable, User), AuthError>)
    ensures HasEmail(store, req.email) ==> r == Failure(UserAlreadyExists)
    ensures !HasEmail(store, req.email) ==> r == RegisterWith(store, None, req, hasher, salt, id, now)
  {
    var found := GetByEmail(store, req.email);
    r := RegisterWith(store, found, req, hasher, salt, id, now);
  }

  /**
   * The stored hash accepts the registered password and no other, and the
   * registration lookup keeps e-mail addresses unique.
   */
  lemma RegisteredUser(store: UserTable, req: RegisterRequest, hasher: Hasher, salt: nat, id: Uuid, now: int, attempt: string)
    requires HasherLaws(hasher)
    requires RegisterWith(store, None, req, hasher, salt, id, now).Success?
    ensures var (store', u) := RegisterWith(store, None, req, hasher, salt, id, now).value;
      (hasher.compare(u.passwordHash, attempt) <==> attempt == req.password)
    ensures UniqueEmails(store) && !HasEmail(store, req.email) ==>
      UniqueEmails(RegisterWith(store, None, req, hasher, salt, id, now).value.0)
  {
    var (store', u) := RegisterWith(store, None, req, hasher, salt, id, now).value;
    if UniqueEmails(store) && !HasEmail(store, req.email) {
      forall a, b | a in store' && b in store' && store'[a].email == store'[b].email
        ensures a == b
      {
      }
    }
  }

  /**
   * Registration followed by login: the new user logs in with the
   * registered password (when signing succeeds) and with no other.
   */
  lemma RegisterThenLogin(store: UserTable, req: RegisterRequest, hasher: Hasher, salt: nat, id: Uuid,
                          dbNow: int, codec: Codec, cfg: Config, now: int, attempt: string)
    requires HasherLaws(hasher)
    requires RegisterWith(store, None, req, hasher, salt, id, dbNow).Success?
    ensures var u := RegisterWith(store, None, req, hasher, salt, id, dbNow).value.1;
      && LoginWith(Some(u), LoginRequest(req.email, req.password), hasher, codec, cfg, now) == IssuePair(u, codec, cfg, now)
      && (attempt != req.password ==>
            LoginWith(Some(u), LoginRequest(req.email, attempt), hasher, codec, cfg, now) == Failure(InvalidCredentials))
  {
    RegisteredUser(store, req, hasher, salt, id, dbNow, req.password);
    RegisteredUser(store, req, hasher, salt, id, dbNow, attempt);
  }
}
