/**
 * End-to-end consequences of the service and the gates together:
 * registration, login, and a request to a role-restricted route.
 */
module Scenarios {
  import opened Wrappers
  import opened Uuids
  import opened Models
  import opened Crypto
  import opened UserRepository
  import opened AuthService
  import opened AuthMiddleware

  /** The validator the access gate is given: `ValidateToken` with the configured secret at time `now`. */
  function Validator(codec: Codec, cfg: Config, now: int): string -> Result<JwtClaims, AuthError> {
    (token: string) => ValidateToken(codec, cfg.secret, now, token)
  }

  /** A header with another scheme is refused without validation. */
  lemma WrongSchemeRefused(ctx: Context, validate: string -> Result<JwtClaims, AuthError>)
    ensures Authenticate("Token abc", ctx, validate) == Abort(Unauthorized, HeaderFormat)
    ensures Authenticate("bearer abc", ctx, validate) == Abort(Unauthorized, HeaderFormat)
  {
    assert "Token abc"[..7][0] != "Bearer "[0];
    SchemeMustBeBearer("Token abc");
    assert "bearer abc"[..7][0] != "Bearer "[0];
    SchemeMustBeBearer("bearer abc");
  }

  /** A header with an extra piece or a doubled space is refused without validation. */
  lemma ExtraSpaceRefused(ctx: Context, validate: string -> Result<JwtClaims, AuthError>)
    ensures Authenticate("Bearer a b", ctx, validate) == Abort(Unauthorized, HeaderFormat)
    ensures Authenticate("Bearer  abc", ctx, validate) == Abort(Unauthorized, HeaderFormat)
  {
    NoSpaceInToken("Bearer a b", 8);
    NoSpaceInToken("Bearer  abc", 7);
  }

  /**
   * A well-formed token that does not decode, or whose time claims no
   * longer hold, gets the fixed 401 at the access gate and never a panic.
   */
  lemma ExpiredTokenRefused(codec: Codec, cfg: Config, now: int, token: string, ctx: Context)
    requires ' ' !in token
    requires codec.decode(token).None? || !codec.claimsValid(codec.decode(token).value.claims, now)
    ensures Authenticate("Bearer " + token, ctx, Validator(codec, cfg, now)) == Abort(Unauthorized, TokenInvalid)
  {
    WellFormedHeaderValidatesToken(token, ctx, Validator(codec, cfg, now));
  }

  /**
   * An issued access token with role "customer" passes a route open to
   * customers and is refused with 403 on a route open only to admins.
   */
  lemma CustomerTokenAtAdminRoute(u: User, codec: Codec, cfg: Config, issued: int, now: int, ctx: Context)
    requires CodecLaws(codec)
    requires u.role == "customer"
    requires IssuePair(u, codec, cfg, issued).Success?
    requires codec.claimsValid(AccessClaims(u, cfg, issued), now)
    ensures var header := "Bearer " + IssuePair(u, codec, cfg, issued).value.token;
      && Protect(header, ctx, Validator(codec, cfg, now), ["admin"]) == Abort(Forbidden, PermissionDenied)
      && Protect(header, ctx, Validator(codec, cfg, now), ["admin", "customer"]).Next?
  {
    var token := IssuePair(u, codec, cfg, issued).value.token;
    ValidateSigned(codec, cfg.secret, now, Jws(IssueAlg, AccessClaims(u, cfg, issued)), u);
    assert ' ' !in codec.sign(Jws(IssueAlg, AccessClaims(u, cfg, issued)), cfg.secret).value;
    WellFormedHeaderValidatesToken(token, ctx, Validator(codec, cfg, now));
  }

  /**
   * Register a customer, log in with the registered password, present the
   * access token: an admin-only route refuses with 403, and registering
   * the same address again is refused.
   */
  lemma RegisterLoginRequest(store: UserTable, req: RegisterRequest, hasher: Hasher, salt: nat, id: Uuid,
                             dbNow: int, codec: Codec, cfg: Config, now: int, later: int, ctx: Context)
    requires HasherLaws(hasher) && CodecLaws(codec)
    requires req.role == "customer"
    requires RegisterWith(store, None, req, hasher, salt, id, dbNow).Success?
    requires var u := RegisterWith(store, None, req, hasher, salt, id, dbNow).value.1;
      && IssuePair(u, codec, cfg, now).Success?
      && codec.claimsValid(AccessClaims(u, cfg, now), later)
    ensures var (store', u) := RegisterWith(store, None, req, hasher, salt, id, dbNow).value;
      var login := LoginWith(Some(u), LoginRequest(req.email, req.password), hasher, codec, cfg, now);
      && login.Success?
      && Protect("Bearer " + login.value.token, ctx, Validator(codec, cfg, later), ["admin"]) == Abort(Forbidden, PermissionDenied)
      && HasEmail(store', req.email)
  {
    var (store', u) := RegisterWith(store, None, req, hasher, salt, id, dbNow).value;
    RegisterThenLogin(store, req, hasher, salt, id, dbNow, codec, cfg, now, req.password);
    CustomerTokenAtAdminRoute(u, codec, cfg, now, later, ctx);
    assert store'[id].email == req.email;
  }
}
