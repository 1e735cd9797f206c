/**
 * The authentication records of backend/models/models.go: the user record,
 * the claims recovered from a token, the login and registration requests
 * with the acceptance rules their binding tags declare, and the token
 * response together with the JSON form the client receives.
 */
module Models {
  import opened Uuids

  /**
   * A stored user. Times are nanoseconds since the Unix epoch.
   * The password hash never leaves the server (see `UserJson`).
   */
  datatype User = User(
    id: Uuid,
    email: string,
    passwordHash: string,
    fullName: string,
    role: string,
    avatarUrl: string,
    createdAt: int,
    updatedAt: int)

  /** What a validated token yields: identity only, no expiry and no refresh marker. */
  datatype JwtClaims = JwtClaims(userId: Uuid, email: string, role: string)

  datatype LoginRequest = LoginRequest(email: string, password: string)

  datatype RegisterRequest = RegisterRequest(email: string, password: string, fullName: string, role: string)

  /** One access token, one refresh token, the access token's expiry (ns) and the user. */
  datatype TokenResponse = TokenResponse(token: string, refreshToken: string, expiresAt: int, user: User)

  /** The closed role list of the `oneof` tag, compared as exact strings. */
  const Roles: seq<string> := ["admin", "customer", "contributor"]

  /** The `min=6` bound on passwords, counted in characters (runes). */
  const MinPasswordLength: nat := 6

  predicate IsRole(s: string) {
    s in Roles
  }

  // ---------------------------------------------------------------------------
  // Binding validation. The validator checks each field's tags left to right
  // and reports the first tag that fails, one error per field, fields in
  // declaration order. Whether a string is an e-mail address is the
  // validator's regular expression, passed in as `isEmail`.
  // ---------------------------------------------------------------------------

  datatype FieldError = FieldError(field: string, tag: string)

  /** Tags `required,email`. */
  function EmailErrors(value: string, isEmail: string -> bool): seq<FieldError> {
    if value == "" then [FieldError("Email", "required")]
    else if !isEmail(value) then [FieldError("Email", "email")]
    else []
  }

  /** Tags `required,min=6`. */
  function PasswordErrors(value: string): seq<FieldError> {
    if value == "" then [FieldError("Password", "required")]
    else if |value| < MinPasswordLength as int then [FieldError("Password", "min")]
    else []
  }

  /** Tag `required`. */
  function FullNameErrors(value: string): seq<FieldError> {
    if value == "" then [FieldError("FullName", "required")] else []
  }

  /** Tags `required,oneof=admin customer contributor`. */
  function RoleErrors(value: string): seq<FieldError> {
    if value == "" then [FieldError("Role", "required")]
    else if !IsRole(value) then [FieldError("Role", "oneof")]
    else []
  }

  function LoginErrors(req: LoginRequest, isEmail: string -> bool): seq<FieldError> {
    EmailErrors(req.email, isEmail) + PasswordErrors(req.password)
  }

  function RegisterErrors(req: RegisterRequest, isEmail: string -> bool): seq<FieldError> {
    EmailErrors(req.email, isEmail) + PasswordErrors(req.password)
      + FullNameErrors(req.fullName) + RoleErrors(req.role)
  }

  /** The acceptance rule for a login request, stated field by field. */
  predicate LoginAcceptable(req: LoginRequest, isEmail: string -> bool) {
    && req.email != "" && isEmail(req.email)
    && |req.password| >= MinPasswordLength as int
  }

  /** The acceptance rule for a registration request, stated field by field. */
  predicate RegisterAcceptable(req: RegisterRequest, isEmail: string -> bool) {
    && req.email != "" && isEmail(req.email)
    && |req.password| >= MinPasswordLength as int
    && req.fullName != ""
    && (req.role == "admin" || req.role == "customer" || req.role == "contributor")
  }

  /** Binding a login request succeeds exactly when the request is acceptable. */
  lemma LoginBinding(req: LoginRequest, isEmail: string -> bool)
    ensures LoginErrors(req, isEmail) == [] <==> LoginAcceptable(req, isEmail)
    ensures |LoginErrors(req, isEmail)| <= 2
    ensures forall i, j | 0 <= i < j < |LoginErrors(req, isEmail)| ::
      LoginErrors(req, isEmail)[i].field != LoginErrors(req, isEmail)[j].field
  {
  }

  /**
   * Binding a registration request succeeds exactly when the request is
   * acceptable; otherwise every failing field is reported once.
   */
  lemma RegisterBinding(req: RegisterRequest, isEmail: string -> bool)
    ensures RegisterErrors(req, isEmail) == [] <==> RegisterAcceptable(req, isEmail)
    ensures |RegisterErrors(req, isEmail)| <= 4
    ensures forall i, j | 0 <= i < j < |RegisterErrors(req, isEmail)| ::
      RegisterErrors(req, isEmail)[i].field != RegisterErrors(req, isEmail)[j].field
    ensures (FieldError("Role", "oneof") in RegisterErrors(req, isEmail)) <==> req.role != "" && !IsRole(req.role)
  {
    var errs := RegisterErrors(req, isEmail);
    var before := EmailErrors(req.email, isEmail) + PasswordErrors(req.password) + FullNameErrors(req.fullName);
    assert errs == before + RoleErrors(req.role);
    assert forall e | e in before :: e.field != "Role";
  }

  /** Whoever may register may also log in with the same e-mail address and password. */
  lemma RegisterAcceptableLogsIn(req: RegisterRequest, isEmail: string -> bool)
    requires RegisterAcceptable(req, isEmail)
    ensures LoginAcceptable(LoginRequest(req.email, req.password), isEmail)
  {
  }

  // ---------------------------------------------------------------------------
  // Case sensitivity of the role list.
  // ---------------------------------------------------------------------------

  function ToLowerAscii(s: string): (r: string)
    ensures |r| == |s|
  {
    if s == [] then []
    else [if 'A' <= s[0] <= 'Z' then (s[0] as int + 32) as char else s[0]] + ToLowerAscii(s[1..])
  }

  predicate IsLowerAscii(s: string) {
    forall i | 0 <= i < |s| :: !('A' <= s[i] <= 'Z')
  }

  lemma {:induction false} LowerOfLowerIsSame(s: string)
    requires IsLowerAscii(s)
    ensures ToLowerAscii(s) == s
  {
    if s != [] {
      LowerOfLowerIsSame(s[1..]);
    }
  }

  /**
   * The role list is compared exactly: a case variant of a role (for
   * instance "Admin" for "admin") is never a role itself.
   */
  lemma CaseVariantIsNoRole(role: string, variant: string)
    requires IsRole(role)
    requires ToLowerAscii(variant) == role && variant != role
    ensures !IsRole(variant)
  {
    RolesAreLower();
    if IsRole(variant) {
      LowerOfLowerIsSame(variant);
    }
  }

  lemma RolesAreLower()
    ensures forall r | r in Roles :: IsLowerAscii(r)
  {
    assert IsLowerAscii("admin");
    assert IsLowerAscii("customer");
    assert IsLowerAscii("contributor");
  }

  // ---------------------------------------------------------------------------
  // JSON form. The password hash carries the tag `json:"-"` and the avatar
  // URL is omitted when empty; times marshal as time values.
  // ---------------------------------------------------------------------------

  datatype Json = JString(s: string) | JTime(ns: int) | JObject(fields: map<string, Json>)

  function UserJson(u: User): (j: map<string, Json>)
    ensures j.Keys <= {"id", "email", "full_name", "role", "avatar_url", "created_at", "updated_at"}
    ensures "password_hash" !in j
    ensures ("avatar_url" in j) <==> u.avatarUrl != ""
  {
    var base := map[
      "id" := JString(Format(u.id)),
      "email" := JString(u.email),
      "full_name" := JString(u.fullName),
      "role" := JString(u.role),
      "created_at" := JTime(u.createdAt),
      "updated_at" := JTime(u.updatedAt)];
    if u.avatarUrl == "" then base else base["avatar_url" := JString(u.avatarUrl)]
  }

  function TokenResponseJson(r: TokenResponse): map<string, Json> {
    map[
      "token" := JString(r.token),
      "refresh_token" := JString(r.refreshToken),
      "expires_at" := JTime(r.expiresAt),
      "user" := JObject(UserJson(r.user))]
  }

  /**
   * The JSON a client receives does not depend on the stored password hash:
   * two responses that differ only in the hash serialize identically.
   */
  lemma ResponseJsonHidesHash(r: TokenResponse, otherHash: string)
    ensures TokenResponseJson(r.(user := r.user.(passwordHash := otherHash))) == TokenResponseJson(r)
    ensures UserJson(r.user.(passwordHash := otherHash)) == UserJson(r.user)
  {
  }
}
