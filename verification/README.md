# Authentication core of the integrated-site backend, modelled in Dafny

This project models the authentication and authorization core of the Go
backend: the request and claim records with their binding rules, the
identity service (registration, login, token issue, token validation,
refresh), the bearer-token access gate and the role gate, and the
credential store behind them. Everything is a pure function over immutable
values, except four methods whose result is the database's
non-deterministic choice or needs a loop: the e-mail lookup, login and
registration on top of it, and the paged listing.

Parameters stand in for what the code gets from its surroundings:

- the wall clock is `now`, an integer count of nanoseconds since the Unix
  epoch. Go durations are nanoseconds, and the `exp` claim is
  `Time.Unix()`, which is whole seconds rounded down;
- the configuration (`auth.jwt_secret`, `auth.token_expiry`,
  `auth.refresh_token_expiry`) is a `Config` value. Each lifetime is
  already parsed: `None` stands for a setting that `time.ParseDuration`
  rejects;
- bcrypt is a `Hasher` of two functions. The random salt is an argument.
  `HasherLaws` says a generated hash accepts its own password and no
  other;
- the JWS codec of jwt-go is a `Codec` of four functions: `sign`,
  `decode`, `verify`, and the parser's time-claim check `claimsValid`.
  `CodecLaws` says a signed token decodes to what was signed, verifies
  under its own secret and no other, and contains no space;
- the database supplies new ids and their creation time as arguments.
  The `auth.users` table is a map from id to user record;
- the validator's e-mail regular expression is a parameter `isEmail`.

Modules follow the source: `Models` (backend/models/models.go),
`AuthService` (backend/services/auth_service.go), `AuthMiddleware`
(backend/middleware/auth_middleware.go) and `UserRepository`
(backend/repositories/user_repository.go). Four helper modules complete
it: `Wrappers` holds Option and Result, `Uuids` the UUID text form,
`Crypto` the collaborator interfaces, and `Scenarios` the end-to-end
lemmas.

Behaviour of the code that the model keeps as written:

- Validation does not tell a refresh token from an access token.
  `RefreshToken` never reads `is_refresh`, and the access gate accepts a
  refresh token. Both gaps are stated as lemmas: `PairValidatesAlike`
  and `RefreshAcceptsAccessToken`.
- A token the parser rejects comes back as the parser's own error, which
  the model calls `TokenRejected`. `ErrInvalidToken` is returned only for
  a `user_id` that is not a UUID and for a user who no longer exists.
- `Register` checks nothing about its input. The e-mail, password-length
  and role rules are binding tags on `RegisterRequest`, modelled by
  `RegisterErrors`.
- `Create` does not enforce unique e-mail addresses in the Go code. The only
  guard there is the lookup in `Register`.
- The issue time is carried in a custom `issued_at` claim, not in the
  registered `iat` claim.

## Model

| member | source | states |
|---|---|---|
| Models.LoginBinding | backend/models/models.go:201-204 | binding a login request reports no error exactly when the e-mail is present and well formed and the password has at least 6 characters; at most two errors, no two for the same field |
| Models.RegisterBinding | backend/models/models.go:206-211 | binding a registration request reports no error exactly when e-mail, password (at least 6 characters), a non-empty full name and a role in {admin, customer, contributor} are all acceptable; at most four errors, no two for the same field; a `oneof` error is reported exactly for a non-empty role outside the list |
| Models.RegisterAcceptableLogsIn | backend/models/models.go:201-211 | every acceptable registration request yields an acceptable login request with the same e-mail and password |
| Models.CaseVariantIsNoRole | backend/models/models.go:210 | the role list is compared exactly: an upper/lower-case variant of a role, such as "Admin", is not a role |
| Models.UserJson | backend/models/models.go:10-19 | the JSON form of a user has no password-hash field, and has `avatar_url` exactly when the avatar URL is non-empty |
| Models.ResponseJsonHidesHash | backend/models/models.go:213-218 | the JSON of a token response, and of its embedded user, is the same whatever the stored password hash is |
| Uuids.FormatThenParse | backend/services/auth_service.go:114-117 | the text form written into `user_id` parses back to the same 16 bytes, so a UUID written by the service is never the invalid-token case |
| Crypto.MethodFor | backend/services/auth_service.go:101-103 | the key function admits exactly the `alg` values HS256, HS384 and HS512 (the HMAC family); `none`, RSA, RSA-PSS, ECDSA and unregistered names are not admitted |
| UserRepository.Create | backend/repositories/user_repository.go:21-35 | an insert fails exactly when the id is already in use, and then with a duplicate key; otherwise the new row has the database's id and time and exactly the given email, password hash, full name, role and avatar URL, and every other row is unchanged |
| UserRepository.GetById | backend/repositories/user_repository.go:37-64 | lookup by id is absent, not an error, exactly when no row has that id, and otherwise returns that row |
| UserRepository.GetByEmail | backend/repositories/user_repository.go:66-93 | lookup by e-mail is absent, not an error, exactly when no row has that address, and otherwise returns a stored row with that address |
| UserRepository.EmailLookupDetermined | backend/repositories/user_repository.go:66-93 | when addresses are unique, any two answers of the e-mail lookup are the same row |
| UserRepository.Update | backend/repositories/user_repository.go:95-110 | a profile update fails exactly when the id is unknown, and then with no rows; otherwise only email, full name, role and avatar URL of that row change, and the hash, the timestamps and all other rows stay |
| UserRepository.UpdatePassword | backend/repositories/user_repository.go:112-121 | a password update changes only that row's hash; an unknown id changes nothing and is not an error |
| UserRepository.Delete | backend/repositories/user_repository.go:123-131 | after a delete, lookup by that id is absent and lookups of every other id are unchanged |
| UserRepository.InsertKeepsNewestFirst | backend/repositories/user_repository.go:137 | inserting a row into a list ordered by creation time, newest first, keeps that order |
| UserRepository.List | backend/repositories/user_repository.go:133-170 | a listing fails exactly for a negative limit or offset; otherwise it is the slice after `offset` rows, at most `limit` rows long, of some ordering of the table that lists every row once, newest first |
| UserRepository.CreateThenGet | backend/repositories/user_repository.go:21-64 | a row inserted under a fresh id reads back by that id, and the row count grows by one |
| UserRepository.DeleteCount | backend/repositories/user_repository.go:172-181 | the count drops by one when a row was deleted and is unchanged when the id was unknown |
| UserRepository.UpdatesAreIndependent | backend/repositories/user_repository.go:95-121 | a profile update never changes the password hash, and a password update changes nothing else |
| UserRepository.CreateAllowsDuplicateEmail | backend/repositories/user_repository.go:21-35 | the insert performs no e-mail check: inserting an address already present leaves two rows sharing it |
| AuthService.IssuePair | backend/services/auth_service.go:79-94 | the pair is issued exactly when both tokens are, and then carries the two generated tokens, the given user and the access token's expiry; every failure is a signing failure |
| AuthService.GenerateToken | backend/services/auth_service.go:164-191 | issuing an access token fails exactly when signing the HS256 access claims fails, with the signing error; a success returns the signed token |
| AuthService.GeneratedToken | backend/services/auth_service.go:164-191 | the access token decodes to HS256 claims naming the user's id, e-mail and role, without `is_refresh`; `exp` is the returned expiry and `issued_at` the issue instant, in Unix seconds; the expiry is the configured lifetime after now, or 24 hours when it does not parse |
| AuthService.GenerateRefreshToken | backend/services/auth_service.go:193-221 | issuing a refresh token fails exactly when signing the HS256 refresh claims fails, with the signing error; a success returns the signed token |
| AuthService.GeneratedRefreshToken | backend/services/auth_service.go:193-221 | the refresh token decodes to HS256 claims naming the user's id, e-mail and role, with `is_refresh` = true; `exp` is the returned expiry and `issued_at` the issue instant, in Unix seconds; the expiry is the configured lifetime after now, or 7 days when it does not parse |
| AuthService.CodecLawsSatisfiable | backend/services/auth_service.go:97-109 | a codec meeting the laws exists together with a successful issue whose tokens pass the time check, so the lemmas assuming these exclude no behaviour by accident |
| AuthService.IssuedPair | backend/services/auth_service.go:79-94 | both tokens are HS256 tokens naming the user's id, e-mail and role; only the refresh token has `is_refresh` = true; the response expiry is the access token's, and its `exp` claim is that instant in Unix seconds; an unparsable lifetime falls back to 24 hours (access) and 7 days (refresh) |
| AuthService.ExtractClaims | backend/services/auth_service.go:111-124 | identity is returned exactly when `user_id` is a UUID string and email and role are strings, and it is what those claims say; a non-UUID `user_id` is ErrInvalidToken; every other failure (a missing or non-string claim) is the type-assertion panic |
| AuthService.ValidateToken | backend/services/auth_service.go:97-127 | a token is accepted only if it decodes, names an HMAC method, passes the time check and verifies under the secret, and the result is what its claims say; a token is refused with the parser's own error (TokenRejected) exactly when it does not decode, names no HMAC method, fails the time check or does not verify, so an expired or undecodable token is never a panic; a token that decodes, names an HMAC method, passes the time check and verifies gives exactly what reading its claims gives, so a non-UUID `user_id` is ErrInvalidToken |
| AuthService.ValidateSigned | backend/services/auth_service.go:97-124 | round trip: an HMAC token signed over claims naming a user validates under the same secret, while the time check holds, to exactly that user's id, e-mail and role |
| AuthService.OtherSecretRejected | backend/services/auth_service.go:99-109 | under the codec's secret law, a token signed under one secret is rejected under any other secret |
| AuthService.PairValidatesAlike | backend/services/auth_service.go:97-127 | the access token and the refresh token of one pair validate to the same identity; validation ignores `is_refresh` |
| AuthService.RefreshToken | backend/services/auth_service.go:129-162 | a validation error is passed through unchanged; a user id no longer stored is ErrInvalidToken; a validated token whose user is stored always yields the pair issued for the stored record, and every success is of that kind |
| AuthService.RefreshAcceptsAccessToken | backend/services/auth_service.go:129-134 | an access token, which has no `is_refresh` claim, is accepted for refresh and yields a new pair for the user's current record |
| AuthService.RefreshUsesStoredRecord | backend/services/auth_service.go:136-161 | the new pair names the stored record's current e-mail and role, not the presented token's; after the user is deleted the same token is ErrInvalidToken |
| AuthService.CheckCredentials | backend/services/auth_service.go:68-76 | the check passes exactly when a user was found and its hash accepts the password; both failures are ErrInvalidCredentials |
| AuthService.LoginWith | backend/services/auth_service.go:62-95 | a found user whose hash accepts the password gets exactly the token pair issued for that user; an unknown e-mail or a wrong password is ErrInvalidCredentials |
| AuthService.LoginErrorParity | backend/services/auth_service.go:64-76 | an unknown e-mail and a wrong password give the identical result, ErrInvalidCredentials |
| AuthService.Login | backend/services/auth_service.go:62-95 | an unknown e-mail is ErrInvalidCredentials; with unique addresses the login is the credential check on the one matching user; a success returns a stored user with that e-mail whose hash accepts the password, with the token pair issued for that user |
| AuthService.RegisterWith | backend/services/auth_service.go:36-59 | a known e-mail is ErrUserAlreadyExists; hashing and insert failures are reported; with no match, a successful hash and a free id it succeeds; on success exactly one row is added, holding the request's e-mail, full name and role, an empty avatar and the bcrypt hash of the password, and no other row changes |
| AuthService.Register | backend/services/auth_service.go:30-60 | an e-mail already stored is refused with ErrUserAlreadyExists, before anything is hashed or stored; otherwise the registration proceeds as in RegisterWith |
| AuthService.RegisteredUser | backend/services/auth_service.go:40-54 | the stored hash accepts the registered password and no other, and registration keeps e-mail addresses unique |
| AuthService.RegisterThenLogin | backend/services/auth_service.go:30-95 | a newly registered user logs in with the registered password, and any other password is ErrInvalidCredentials |
| AuthMiddleware.SplitJoin | backend/middleware/auth_middleware.go:22 | splitting on a space and joining the pieces back gives the header again, and no piece contains a space |
| AuthMiddleware.BearerTokenAccepts | backend/middleware/auth_middleware.go:22-30 | a header is accepted with token t exactly when it is "Bearer " followed by t and t has no space (t may be empty) |
| AuthMiddleware.SchemeMustBeBearer | backend/middleware/auth_middleware.go:22-27 | a header that does not begin with the exact, case-sensitive "Bearer " is refused |
| AuthMiddleware.NoSpaceInToken | backend/middleware/auth_middleware.go:22-27 | a header with any further space after "Bearer " is refused |
| AuthMiddleware.Admit | backend/middleware/auth_middleware.go:33-45 | the handler runs exactly when validation succeeded; the claim-type panic propagates as a panic; every other validation error gives 401 with one fixed message; on success the context gains user_id, email and role equal to the claims, other keys unchanged, and the handler runs |
| AuthMiddleware.Authenticate | backend/middleware/auth_middleware.go:11-47 | an empty header gives 401 "Authorization header is required"; a malformed one gives 401 with the format message; the handler runs only after a well-formed header |
| AuthMiddleware.MalformedHeaderSkipsValidation | backend/middleware/auth_middleware.go:14-27 | for an empty or malformed header the outcome is a 401 that is the same for every validator: validation is never consulted |
| AuthMiddleware.WellFormedHeaderValidatesToken | backend/middleware/auth_middleware.go:30-38 | for "Bearer t" the validator is asked about exactly t, and its answer alone decides the outcome |
| AuthMiddleware.Listed | backend/middleware/auth_middleware.go:61-66 | the scan over the allowed roles finds the role exactly when it is in the list |
| AuthMiddleware.Authorize | backend/middleware/auth_middleware.go:49-72 | no role in the context gives 401; the handler runs, with the context unchanged, exactly when the role is in the allow-list; a role outside it gives 403 "Permission denied"; an empty list never lets through |
| AuthMiddleware.ProtectOrdering | backend/middleware/auth_middleware.go:11-72 | behind both gates the handler runs exactly when the header is well formed, the token validates and its role is allowed; a 403 only follows a successful validation; an empty allow-list lets nothing through |
| Scenarios.WrongSchemeRefused | backend/middleware/auth_middleware.go:22-27 | "Token abc" and "bearer abc" are refused with the format 401 |
| Scenarios.ExtraSpaceRefused | backend/middleware/auth_middleware.go:22-27 | "Bearer a b" and "Bearer  abc" (double space) are refused with the format 401 |
| Scenarios.ExpiredTokenRefused | backend/middleware/auth_middleware.go:33-45 | a well-formed bearer token that does not decode or fails the parser's time check gets the fixed 401 and never a panic |
| Scenarios.CustomerTokenAtAdminRoute | backend/middleware/auth_middleware.go:49-72 | an issued access token for a customer passes a route open to customers and gets 403 on a route open only to admins |
| Scenarios.RegisterLoginRequest | backend/services/auth_service.go:30-95 | a customer who registers and logs in gets 403 from an admin-only route, and the address is then taken, so a second registration is refused |

## Left out

- Database I/O errors are not modelled: the store's `err != nil` branches at backend/services/auth_service.go:33-35, 55-57, 65-67, 138-140 and the scan errors in the repository. Only errors the statements raise themselves are kept: a duplicate id on insert and no rows on a profile update.
- Update: the `RETURNING updated_at` value written back into the caller's struct is not returned. The SQL does not set `updated_at`, and any schema trigger that would is not part of this model.
- Uuids.Parse: accepts only the 36-character hyphenated form. The library's braced, `urn:uuid:` and 32-digit forms are not modelled; the service only ever writes the 36-character form.
- AuthService.ValidateToken: the parser's expiry comparison is the abstract `claimsValid`, so "an expired token is rejected" is not proved. Decoding (base64url, JSON, numbers as float64) is the abstract `decode`. All parser failures are one error value.
- AuthService.GenerateToken: the four `time.Now()` calls of one pair (two in each generator, which Login and RefreshToken call one after the other) are one instant `now`. This hides that a generator's `exp` and `issued_at` are read at slightly different instants, and that the refresh token's `issued_at` and `exp` can fall a second later than the access token's. `Time.Add` saturation at the int64 range is not modelled, because integers are unbounded.
- AuthService.IssuedPair: ties both tokens' `issued_at` and `exp` to the same `now`; in the program the refresh token's clock readings come after the access token's.
- UserRepository.CreateAllowsDuplicateEmail: the `auth.users` table definition is not part of this model, so the store assumes only the primary key on `id`. A UNIQUE constraint on `email`, if the schema has one, would make the second insert fail with a unique-violation error that is not modelled.
- Crypto.HasherLaws: says a hash accepts no other password. Real bcrypt looks only at the first 72 bytes of a password, which this law does not reflect.
- Crypto.CodecLaws: says a token verifies only under the secret that signed it. HMAC (RFC 2104) pads a key with zero bytes to the 64-byte block and hashes a longer key first, so a secret and the same secret with trailing zero bytes, or a long secret and its SHA-256 digest, verify the same tokens. AuthService.OtherSecretRejected therefore holds of the law, not of every pair of distinct secrets.
- AuthService.OtherSecretRejected: proved under the codec law above; HMAC's equivalent keys (zero-padded or pre-hashed) are not distinguished by the program and are outside this lemma.
- The e-mail regular expression of the validator is a parameter, not a definition.
- Panics from unchecked type assertions (backend/services/auth_service.go:114, 121-122 and backend/middleware/auth_middleware.go:60) are the error value `ClaimTypePanic` and the outcome `Panic`. What a recovery handler would answer is not modelled.
- Timing parity of the two login failures is not modelled. Only the returned values are compared.
- backend/main.go (server start-up, configuration loading, routes with stub handlers) and backend/repositories/post_repository.go (post CRUD) are not part of this model.
