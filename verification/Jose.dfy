/**
 What the crate takes from `jsonwebtoken`: keys, headers, the validation settings and one `decode`.
 Signing, verifying and parsing are functions of a `Library` record; nothing is known about them but
 the hypotheses a lemma names. The checks on registered claims follow section 4.1 of RFC 7519, but
 what section 4.1.3 asks of a reader that expects no audience is up to the library.
 */
module Jose {
  import opened Wrappers

  datatype Algorithm =
    | HS256 | HS384 | HS512
    | ES256 | ES384
    | RS256 | RS384 | RS512
    | PS256 | PS384 | PS512
    | EdDSA

  // What a published key may be for: signing under one of these, or something no token is signed with.
  datatype KeyAlgorithm = Signing(alg: Algorithm) | Other(name: string)

  datatype Family = Hmac | Rsa | Ec | Ed

  function FamilyOf(algorithm: Algorithm): Family {
    match algorithm
    case HS256 | HS384 | HS512 => Hmac
    case ES256 | ES384 => Ec
    case RS256 | RS384 | RS512 | PS256 | PS384 | PS512 => Rsa
    case EdDSA => Ed
  }

  datatype Key =
    | SecretKey(secret: string)
    | PemKey(family: Family, pem: string)
    | DerKey(family: Family, der: seq<int>)

  datatype Header = Header(alg: Algorithm, kid: Option<string>)

  // The registered claims of a token body; times are whole seconds.
  datatype Registered = Registered(
    exp: Option<int>, nbf: Option<int>, iss: Option<string>, aud: Option<string>, sub: Option<string>)

  datatype Validation = Validation(
    algorithms: set<Algorithm>,
    leeway: nat,
    validateExp: bool,
    validateNbf: bool,
    required: set<string>,
    iss: Option<set<string>>,
    aud: Option<set<string>>)

  datatype ClaimFault = MissingClaim | Expired | Immature | WrongIssuer | WrongAudience

  datatype Cause =
    | Malformed
    | WrongAlgorithm
    | BadSignature
    | Rejected(fault: ClaimFault)
    | UnknownKid(kid: string)
    | NoKeysConfigured

  datatype JwksFault =
    | NoUrl
    | FetchFailed
    | NoUsableKeys
    | NotInStaticSet(kid: string)
    | NotAfterRefresh(kid: string)

  datatype JwtError =
    | EncodingFailed
    | DecodingFailed(cause: Cause)
    | Revoked
    | KeyLoading
    | Jwks(fault: JwksFault)
    | AlgorithmMismatch(tokenAlg: Algorithm, keyAlg: KeyAlgorithm)

  // `anyAudience`: a token may carry an audience although the policy names none.
  datatype Library<!P> = Library(
    anyAudience: bool,
    decodeHeader: string -> Option<Header>,
    verifies: (string, Algorithm, Key) -> bool,
    parse: string -> Option<P>,
    registered: P -> Registered,
    sign: (Header, P, Key) -> Option<string>,
    privatePemLoads: (Family, string) -> bool,
    publicPemLoads: (Family, string) -> bool)

  predicate HasRequired(required: set<string>, r: Registered) {
    && ("exp" in required ==> r.exp.Some?)
    && ("nbf" in required ==> r.nbf.Some?)
    && ("iss" in required ==> r.iss.Some?)
    && ("aud" in required ==> r.aud.Some?)
    && ("sub" in required ==> r.sub.Some?)
  }

  function CheckClaims<P>(lib: Library<P>, v: Validation, body: P, nowSecs: int): Option<ClaimFault> {
    var r := lib.registered(body);
    if !HasRequired(v.required, r) then Some(MissingClaim)
    else if v.validateExp && r.exp.Some? && r.exp.value < nowSecs - v.leeway then Some(Expired)
    else if v.validateNbf && r.nbf.Some? && r.nbf.value > nowSecs + v.leeway then Some(Immature)
    else if v.iss.Some? && r.iss.Some? && r.iss.value !in v.iss.value then Some(WrongIssuer)
    else if r.aud.Some? && (if v.aud.Some? then r.aud.value !in v.aud.value else !lib.anyAudience)
    then Some(WrongAudience)
    else None
  }

  // A fault is reported only if it is there.
  lemma FaultsAreTrue<P>(lib: Library<P>, v: Validation, body: P, nowSecs: int)
    ensures var r, fault := lib.registered(body), CheckClaims(lib, v, body, nowSecs);
            match fault
            case None => true
            case Some(MissingClaim) =>
              || ("exp" in v.required && r.exp.None?) || ("nbf" in v.required && r.nbf.None?)
              || ("iss" in v.required && r.iss.None?) || ("aud" in v.required && r.aud.None?)
              || ("sub" in v.required && r.sub.None?)
            case Some(Expired) => v.validateExp && r.exp.Some? && r.exp.value + v.leeway < nowSecs
            case Some(Immature) => v.validateNbf && r.nbf.Some? && nowSecs + v.leeway < r.nbf.value
            case Some(WrongIssuer) => v.iss.Some? && r.iss.Some? && r.iss.value !in v.iss.value
            case Some(WrongAudience) => r.aud.Some? && (v.aud.Some? ==> r.aud.value !in v.aud.value)
  {
  }

  function Decode<P>(lib: Library<P>, token: string, key: Key, v: Validation, nowSecs: int): Result<P, Cause> {
    match lib.decodeHeader(token)
    case None => Failure(Malformed)
    case Some(header) =>
      if header.alg !in v.algorithms then Failure(WrongAlgorithm)
      else if !lib.verifies(token, header.alg, key) then Failure(BadSignature)
      else
        match lib.parse(token)
        case None => Failure(Malformed)
        case Some(body) =>
          match CheckClaims(lib, v, body, nowSecs)
          case Some(fault) => Failure(Rejected(fault))
          case None => Success(body)
  }

  // Signing this header and body with a shared secret works, both are read back from the token, and
  // it verifies under the same secret.
  ghost predicate Signs<P>(lib: Library<P>, header: Header, body: P, secret: string) {
    var token := lib.sign(header, body, SecretKey(secret));
    && token.Some?
    && lib.decodeHeader(token.value) == Some(header)
    && lib.parse(token.value) == Some(body)
    && lib.verifies(token.value, header.alg, SecretKey(secret))
  }

  ghost function Signed<P>(lib: Library<P>, header: Header, body: P, secret: string): (token: string)
    requires Signs(lib, header, body, secret)
    ensures lib.sign(header, body, SecretKey(secret)) == Some(token)
    ensures lib.decodeHeader(token) == Some(header) && lib.parse(token) == Some(body)
    ensures lib.verifies(token, header.alg, SecretKey(secret))
  {
    lib.sign(header, body, SecretKey(secret)).value
  }
}
