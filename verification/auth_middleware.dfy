/**
 * The access gate and role gate of backend/middleware/auth_middleware.go.
 * A gate either passes the request on with its context (the downstream
 * handler runs), aborts it with a status and a fixed message, or panics.
 * Token validation is a parameter, so a gate can be run with any
 * validator and shown not to depend on it.
 */
module AuthMiddleware {
  import opened Wrappers
  import opened Uuids
  import opened Models
  import opened AuthService

  /** The values the gates store in and read from the request context. */
  datatype ContextValue = IdValue(id: Uuid) | Text(s: string)

  type Context = map<string, ContextValue>

  datatype Outcome =
    | Next(ctx: Context)                  // c.Next(): the downstream handler runs
    | Abort(status: int, message: string) // c.JSON(status, {"error": message}); c.Abort()
    | Panic                               // an unchecked type assertion failed

  const Unauthorized: int := 401
  const Forbidden: int := 403

  const HeaderRequired: string := "Authorization header is required"
  const HeaderFormat: string := "Authorization header format must be Bearer {token}"
  const TokenInvalid: string := "Invalid or expired token"
  const NotAuthenticated: string := "User not authenticated"
  const PermissionDenied: string := "Permission denied"

  // ---------------------------------------------------------------------------
  // strings.Split on a one-character separator
  // ---------------------------------------------------------------------------

  /** The pieces between separators; n separators give n + 1 pieces, possibly empty. */
  function Split(s: string, sep: char): (parts: seq<string>)
    ensures |parts| >= 1
  {
    if s == [] then [""]
    else
      var rest := Split(s[1..], sep);
      if s[0] == sep then [""] + rest else [[s[0]] + rest[0]] + rest[1..]
  }

  /** strings.Join, the inverse of Split. */
  function Join(parts: seq<string>, sep: char): string
    requires |parts| >= 1
  {
    if |parts| == 1 then parts[0] else parts[0] + [sep] + Join(parts[1..], sep)
  }

  /** Joining the pieces with the separator gives back the string, and no piece holds a separator. */
  lemma {:induction false} SplitJoin(s: string, sep: char)
    ensures Join(Split(s, sep), sep) == s
    ensures forall i | 0 <= i < |Split(s, sep)| :: sep !in Split(s, sep)[i]
  {
    if s != [] {
      var rest := Split(s[1..], sep);
      SplitJoin(s[1..], sep);
      assert s == [s[0]] + s[1..];
      if s[0] != sep {
        var parts := Split(s, sep);
        assert parts == [[s[0]] + rest[0]] + rest[1..];
        if |rest| > 1 {
          assert parts[1..] == rest[1..];
          assert Join(rest, sep) == rest[0] + [sep] + Join(rest[1..], sep);
        }
        forall i | 0 <= i < |parts|
          ensures sep !in parts[i]
        {
          if i > 0 {
            assert parts[i] == rest[i];
          }
        }
      } else {
        assert Split(s, sep)[1..] == rest;
        forall i | 0 <= i < |Split(s, sep)|
          ensures sep !in Split(s, sep)[i]
        {
          if i > 0 {
            assert Split(s, sep)[i] == rest[i - 1];
          }
        }
      }
    }
  }

  /** A string without the separator is a single piece. */
  lemma {:induction false} SplitWithoutSep(s: string, sep: char)
    requires sep !in s
    ensures Split(s, sep) == [s]
  {
    if s != [] {
      SplitWithoutSep(s[1..], sep);
      assert [s[0]] + s[1..] == s;
    }
  }

  /** A separator after a separator-free prefix cuts off exactly that prefix. */
  lemma {:induction false} SplitAfterPrefix(a: string, sep: char, b: string)
    requires sep !in a
    ensures Split(a + [sep] + b, sep) == [a] + Split(b, sep)
  {
    if a == [] {
      assert a + [sep] + b == [sep] + b;
      assert ([sep] + b)[1..] == b;
    } else {
      var s := a + [sep] + b;
      assert s[0] == a[0];
      assert s[1..] == a[1..] + [sep] + b;
      SplitAfterPrefix(a[1..], sep, b);
      assert [a[0]] + a[1..] == a;
    }
  }

  // ---------------------------------------------------------------------------
  // The access gate
  // ---------------------------------------------------------------------------

  /**
   * The token of a non-empty Authorization header: split on single spaces,
   * there must be exactly two pieces and the first must be "Bearer".
   */
  function BearerToken(header: string): Option<string> {
    var parts := Split(header, ' ');
    if |parts| != 2 || parts[0] != "Bearer" then None else Some(parts[1])
  }

  /**
   * The headers the gate accepts are exactly "Bearer " followed by a token
   * without spaces, and the token it extracts is that remainder (possibly
   * empty). So "Token abc", "Bearer a b", "Bearer  abc" and "bearer abc"
   * are all refused.
   */
  lemma BearerTokenAccepts(header: string, token: string)
    ensures BearerToken(header) == Some(token) <==> header == "Bearer " + token && ' ' !in token
  {
    if header == "Bearer " + token && ' ' !in token {
      assert "Bearer " + token == "Bearer" + [' '] + token;
      SplitAfterPrefix("Bearer", ' ', token);
      SplitWithoutSep(token, ' ');
    }
    if BearerToken(header) == Some(token) {
      var parts := Split(header, ' ');
      SplitJoin(header, ' ');
      assert parts == [parts[0]] + parts[1..];
      assert Join(parts, ' ') == parts[0] + [' '] + parts[1];
      assert ' ' !in parts[1];
    }
  }

  /** A header that does not start with "Bearer " is refused. */
  lemma SchemeMustBeBearer(header: string)
    requires |header| < 7 || header[..7] != "Bearer "
    ensures BearerToken(header).None?
  {
    if BearerToken(header).Some? {
      BearerTokenAccepts(header, BearerToken(header).value);
    }
  }

  /** A header with a further space after "Bearer " is refused. */
  lemma NoSpaceInToken(header: string, i: int)
    requires 7 <= i < |header| && header[i] == ' '
    ensures BearerToken(header).None?
  {
    if BearerToken(header).Some? {
      var t := BearerToken(header).value;
      BearerTokenAccepts(header, t);
    }
  }

  /** What the gate does with the validator's answer. */
  function Admit(validated: Result<JwtClaims, AuthError>, ctx: Context): (o: Outcome)
    ensures o.Next? <==> validated.Success?
    ensures validated == Failure(ClaimTypePanic) ==> o == Panic
    ensures validated.Failure? && validated.error != ClaimTypePanic ==> o == Abort(Unauthorized, TokenInvalid)
    ensures validated.Success? ==>
      && o.Next?
      && o.ctx.Keys == ctx.Keys + {"user_id", "email", "role"}
      && o.ctx["user_id"] == IdValue(validated.value.userId)
      && o.ctx["email"] == Text(validated.value.email)
      && o.ctx["role"] == Text(validated.value.role)
      && (forall k | k in ctx && k !in {"user_id", "email", "role"} :: o.ctx[k] == ctx[k])
  {
    match validated
    case Failure(ClaimTypePanic) => Panic
    case Failure(_) => Abort(Unauthorized, TokenInvalid)
    case Success(claims) =>
      Next(ctx["user_id" := IdValue(claims.userId)]["email" := Text(claims.email)]["role" := Text(claims.role)])
  }

  /** `AuthMiddleware`: header present, well formed, token valid, identity into the context. */
  function Authenticate(header: string, ctx: Context, validate: string -> Result<JwtClaims, AuthError>): (o: Outcome)
    ensures header == "" ==> o == Abort(Unauthorized, HeaderRequired)
    ensures header != "" && BearerToken(header).None? ==> o == Abort(Unauthorized, HeaderFormat)
    ensures o.Next? || o.Panic? ==> header != "" && BearerToken(header).Some?
  {
    if header == "" then Abort(Unauthorized, HeaderRequired)
    else
      match BearerToken(header)
      case None => Abort(Unauthorized, HeaderFormat)
      case Some(token) => Admit(validate(token), ctx)
  }

  /**
   * A missing or malformed header is refused with 401 whatever the
   * validator would have said: the validator is not consulted.
   */
  lemma MalformedHeaderSkipsValidation(header: string, ctx: Context,
                                       v1: string -> Result<JwtClaims, AuthError>,
                                       v2: string -> Result<JwtClaims, AuthError>)
    requires header == "" || BearerToken(header).None?
    ensures Authenticate(header, ctx, v1) == Authenticate(header, ctx, v2)
    ensures Authenticate(header, ctx, v1).Abort? && Authenticate(header, ctx, v1).status == Unauthorized
  {
  }

  /**
   * For a well-formed header the validator is asked about exactly the text
   * after "Bearer ", and its answer alone decides the outcome; every
   * validation error other than a panic gives the same 401 and message.
   */
  lemma WellFormedHeaderValidatesToken(token: string, ctx: Context, validate: string -> Result<JwtClaims, AuthError>)
    requires ' ' !in token
    ensures Authenticate("Bearer " + token, ctx, validate) == Admit(validate(token), ctx)
    ensures validate(token).Failure? && validate(token).error != ClaimTypePanic ==>
      Authenticate("Bearer " + token, ctx, validate) == Abort(Unauthorized, TokenInvalid)
  {
    BearerTokenAccepts("Bearer " + token, token);
  }

  // ---------------------------------------------------------------------------
  // The role gate
  // ---------------------------------------------------------------------------

  /** The linear scan over the allowed roles. */
  function Listed(role: string, roles: seq<string>): (found: bool)
    ensures found <==> role in roles
  {
    if roles == [] then false
    else roles[0] == role || Listed(role, roles[1..])
  }

  /**
   * `RoleMiddleware(roles...)`: 401 without a role in the context, 403 when
   * the role is not allowed, otherwise on to the handler with the context
   * untouched. A role that is not a string makes the type assertion panic.
   */
  function Authorize(ctx: Context, roles: seq<string>): (o: Outcome)
    ensures "role" !in ctx <==> o == Abort(Unauthorized, NotAuthenticated)
    ensures o.Next? <==> "role" in ctx && ctx["role"].Text? && ctx["role"].s in roles
    ensures o.Next? ==> o.ctx == ctx
    ensures o == Abort(Forbidden, PermissionDenied) <==>
      "role" in ctx && ctx["role"].Text? && ctx["role"].s !in roles
    ensures roles == [] ==> !o.Next?
  {
    if "role" !in ctx then Abort(Unauthorized, NotAuthenticated)
    else if !ctx["role"].Text? then Panic
    else if Listed(ctx["role"].s, roles) then Next(ctx)
    else Abort(Forbidden, PermissionDenied)
  }

  /** A route guarded by the access gate and then the role gate. */
  function Protect(header: string, ctx: Context, validate: string -> Result<JwtClaims, AuthError>, roles: seq<string>): (o: Outcome)
  {
    match Authenticate(header, ctx, validate)
    case Next(identified) => Authorize(identified, roles)
    case other => other
  }

  /**
   * Gate ordering: the handler runs exactly when the header is well formed,
   * the token validates and its role is allowed; a 403 only ever follows a
   * successful validation; an empty allow-list lets nothing through.
   */
  lemma ProtectOrdering(header: string, ctx: Context, validate: string -> Result<JwtClaims, AuthError>, roles: seq<string>)
    ensures Protect(header, ctx, validate, roles).Next? <==>
      && header != ""
      && BearerToken(header).Some?
      && validate(BearerToken(header).value).Success?
      && validate(BearerToken(header).value).value.role in roles
    ensures Protect(header, ctx, validate, roles) == Abort(Forbidden, PermissionDenied) ==>
      && header != ""
      && BearerToken(header).Some?
      && validate(BearerToken(header).value).Success?
      && validate(BearerToken(header).value).value.role !in roles
    ensures roles == [] ==> !Protect(header, ctx, validate, roles).Next?
  {
  }
}
