/**
 * The two cryptographic collaborators of the identity service, kept
 * abstract: bcrypt (golang.org/x/crypto/bcrypt) and the JWS compact
 * serialization of jwt-go. Each is a record of functions supplied by the
 * caller, and a predicate states the laws the rest of the model relies on.
 */
module Crypto {
  import opened Wrappers

  // ---------------------------------------------------------------------------
  // Password hashing
  // ---------------------------------------------------------------------------

  /**
   * `generate(password, salt)` is `bcrypt.GenerateFromPassword` with the salt
   * drawn by the caller (None when bcrypt reports an error);
   * `compare(hash, password)` is `bcrypt.CompareHashAndPassword` succeeding.
   */
  datatype Hasher = Hasher(generate: (string, nat) -> Option<string>, compare: (string, string) -> bool)

  /** A generated hash accepts its own password and no other. */
  ghost predicate HasherLaws(h: Hasher) {
    forall password, salt, attempt ::
      h.generate(password, salt).Some? ==>
        (h.compare(h.generate(password, salt).value, attempt) <==> attempt == password)
  }

  /** The laws can be met, so assuming them excludes no behaviour by accident. */
  lemma HasherLawsSatisfiable()
    ensures HasherLaws(Hasher((p: string, salt: nat) => Some(p), (hash: string, p: string) => hash == p))
  {
  }

  // ---------------------------------------------------------------------------
  // Signed tokens (JWT, RFC 7519, in the JWS compact serialization of RFC 7515)
  // ---------------------------------------------------------------------------

  /** A claim value after JSON decoding into jwt-go's `MapClaims`. */
  datatype ClaimValue = Str(s: string) | Num(n: int) | Flag(b: bool)

  type ClaimMap = map<string, ClaimValue>

  /** The protected header's `alg` parameter (section 4.1.1 of RFC 7515) and the claims. */
  datatype Jws = Jws(alg: string, claims: ClaimMap)

  /** The algorithm families jwt-go registers; the key function only admits `Hmac`. */
  datatype SigningMethod = Hmac(name: string) | Rsa(name: string) | RsaPss(name: string) | Ecdsa(name: string) | Unsecured

  /**
   * The signing method registered for an `alg` value (`jwt.GetSigningMethod`);
   * None when no method is registered, which the parser reports as an error.
   */
  function MethodFor(alg: string): (m: Option<SigningMethod>)
    ensures m.Some? && m.value.Hmac? <==> alg in {"HS256", "HS384", "HS512"}
  {
    if alg in {"HS256", "HS384", "HS512"} then Some(Hmac(alg))
    else if alg in {"RS256", "RS384", "RS512"} then Some(Rsa(alg))
    else if alg in {"PS256", "PS384", "PS512"} then Some(RsaPss(alg))
    else if alg in {"ES256", "ES384", "ES512"} then Some(Ecdsa(alg))
    else if alg == "none" then Some(Unsecured)
    else None
  }

  /**
   * The codec: `sign` produces the compact token for a header and claims
   * under a secret (None when signing reports an error); `decode` splits and
   * decodes a token without checking anything; `verify` recomputes the
   * signature under a secret; `claimsValid` is the parser's own check of
   * the registered time claims at a given instant (ns).
   */
  datatype Codec = Codec(
    sign: (Jws, string) -> Option<string>,
    decode: string -> Option<Jws>,
    verify: (string, string) -> bool,
    claimsValid: (ClaimMap, int) -> bool)

  /**
   * A signed token decodes to what was signed, verifies under its own secret
   * and under no other, and contains no space (the compact serialization
   * uses base64url text and dots only).
   */
  ghost predicate CodecLaws(c: Codec) {
    && (forall j, secret :: c.sign(j, secret).Some? ==> c.decode(c.sign(j, secret).value) == Some(j))
    && (forall j, secret, other ::
          c.sign(j, secret).Some? ==> (c.verify(c.sign(j, secret).value, other) <==> other == secret))
    && (forall j, secret :: c.sign(j, secret).Some? ==> ' ' !in c.sign(j, secret).value)
  }
}
