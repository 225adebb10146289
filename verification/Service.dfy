/**
 `JwtService`: key selection, the rotation-aware decode, claim stamping and the validation policy.
 Wall-clock instants are nanoseconds since the epoch; token claims carry whole seconds.
 */
module Service {
  import opened Instants
  import opened Wrappers
  import opened Jose

  const DEFAULT_LEEWAY_SECS: nat := 60
  const DEFAULT_REQUIRED_CLAIMS: seq<string> := ["exp", "iss"]

  datatype RotationKey = RotationKey(
    secret: string, keyId: Option<string>, publicKey: Option<string>, derPublicKey: Option<seq<int>>)

  datatype JwtConfig = JwtConfig(
    algorithm: Algorithm,
    secret: string,
    derPrivateKey: Option<seq<int>>,
    publicKey: Option<string>,
    derPublicKey: Option<seq<int>>,
    issuer: Option<string>,
    audience: Option<string>,
    audiences: seq<string>,
    leeway: Option<nat>,
    requiredClaims: seq<string>,
    validateExp: bool,
    validateNbf: bool,
    accessTokenTtl: int,
    refreshTokenTtl: int,
    keyId: Option<string>,
    rotationKeys: seq<RotationKey>)

  function WithRotationKeys(algorithm: Algorithm, keys: seq<RotationKey>): JwtConfig {
    var primary := if keys == [] then RotationKey("", None, None, None) else keys[0];
    JwtConfig(algorithm, primary.secret, None, None, None, None, None, [], None, DEFAULT_REQUIRED_CLAIMS,
              true, false, 3600, 604800, primary.keyId, keys)
  }

  function DefaultConfig(secret: string): JwtConfig {
    JwtConfig(HS256, secret, None, None, None, None, None, [], None, DEFAULT_REQUIRED_CLAIMS,
              true, false, 3600, 604800, None, [])
  }

  function Or<T>(first: Option<T>, second: Option<T>): Option<T> {
    if first.Some? then first else second
  }

  function EncodingKeyFor<P>(lib: Library<P>, algorithm: Algorithm, secret: string, der: Option<seq<int>>)
    : Result<Key, JwtError>
  {
    var family := FamilyOf(algorithm);
    match family
    case Hmac => Success(SecretKey(secret))
    case Rsa => if lib.privatePemLoads(family, secret) then Success(PemKey(family, secret)) else Failure(KeyLoading)
    case Ec | Ed =>
      if der.Some? then Success(DerKey(family, der.value))
      else if lib.privatePemLoads(family, secret) then Success(PemKey(family, secret))
      else Failure(KeyLoading)
  }

  function DecodingKeyFor<P>(lib: Library<P>, algorithm: Algorithm, publicPem: Option<string>,
                             publicDer: Option<seq<int>>, secret: string): Result<Key, JwtError>
  {
    var family := FamilyOf(algorithm);
    if family == Hmac then Success(SecretKey(secret))
    else if publicDer.Some? then Success(DerKey(family, publicDer.value))
    else
      var pem := if publicPem.Some? then publicPem.value else secret;
      if lib.publicPemLoads(family, pem) then Success(PemKey(family, pem)) else Failure(KeyLoading)
  }

  // The configured keys in the order they are tried: the signing key, then the rotation keys.
  function Entries(cfg: JwtConfig): (entries: seq<RotationKey>)
    ensures |entries| == 1 + |cfg.rotationKeys|
  {
    [RotationKey(cfg.secret, cfg.keyId, cfg.publicKey, cfg.derPublicKey)] + cfg.rotationKeys
  }

  // An entry without public material of its own falls back to that of the config.
  function LoadEntry<P>(lib: Library<P>, cfg: JwtConfig, entry: RotationKey): Result<Key, JwtError> {
    DecodingKeyFor(lib, cfg.algorithm, Or(entry.publicKey, cfg.publicKey),
                   Or(entry.derPublicKey, cfg.derPublicKey), entry.secret)
  }

  datatype Candidate = Candidate(keyId: Option<string>, key: Key)

  ghost predicate AllLoad<P>(lib: Library<P>, cfg: JwtConfig) {
    forall i :: 0 <= i < |Entries(cfg)| ==> LoadEntry(lib, cfg, Entries(cfg)[i]).Success?
  }

  ghost predicate Loaded<P>(lib: Library<P>, cfg: JwtConfig, candidates: seq<Candidate>) {
    && |candidates| <= |Entries(cfg)|
    && forall i :: 0 <= i < |candidates| ==>
         && LoadEntry(lib, cfg, Entries(cfg)[i]).Success?
         && candidates[i] == Candidate(Entries(cfg)[i].keyId, LoadEntry(lib, cfg, Entries(cfg)[i]).value)
  }

  // One candidate per configured key, the signing key first; an error iff some key does not load.
  method DecodingKeys<P>(lib: Library<P>, cfg: JwtConfig) returns (r: Result<seq<Candidate>, JwtError>)
    ensures r.Success? <==> AllLoad(lib, cfg)
    ensures r.Success? ==> Loaded(lib, cfg, r.value) && |r.value| == 1 + |cfg.rotationKeys|
    ensures r.Failure? ==> r.error == KeyLoading
  {
    assert Entries(cfg)[0] == RotationKey(cfg.secret, cfg.keyId, cfg.publicKey, cfg.derPublicKey);
    var primary := DecodingKeyFor(lib, cfg.algorithm, cfg.publicKey, cfg.derPublicKey, cfg.secret);
    assert LoadEntry(lib, cfg, Entries(cfg)[0]) == primary;
    if primary.Failure? {
      return Failure(primary.error);
    }
    var keys := [Candidate(cfg.keyId, primary.value)];
    for i := 0 to |cfg.rotationKeys|
      invariant |keys| == i + 1 && Loaded(lib, cfg, keys)
    {
      var entry := cfg.rotationKeys[i];
      assert Entries(cfg)[i + 1] == entry;
      var key := DecodingKeyFor(lib, cfg.algorithm, Or(entry.publicKey, cfg.publicKey),
                                Or(entry.derPublicKey, cfg.derPublicKey), entry.secret);
      if key.Failure? {
        return Failure(key.error);
      }
      keys := keys + [Candidate(entry.keyId, key.value)];
    }
    r := Success(keys);
  }

  function FirstWith(candidates: seq<Candidate>, kid: string): Option<Key> {
    if candidates == [] then None
    else if candidates[0].keyId == Some(kid) then Some(candidates[0].key)
    else FirstWith(candidates[1..], kid)
  }

  function TryAll<P>(lib: Library<P>, candidates: seq<Candidate>, token: string, v: Validation, nowSecs: int,
                     lastErr: Cause): Result<P, JwtError>
  {
    if candidates == [] then Failure(DecodingFailed(lastErr))
    else
      match Decode(lib, token, candidates[0].key, v, nowSecs)
      case Success(body) => Success(body)
      case Failure(cause) => TryAll(lib, candidates[1..], token, v, nowSecs, cause)
  }

  // The `kid` of a token, if its header can be read and carries one.
  function KidOfToken<P>(lib: Library<P>, token: string): Option<string> {
    match lib.decodeHeader(token)
    case None => None
    case Some(header) => header.kid
  }

  function Lift<P>(r: Result<P, Cause>): Result<P, JwtError> {
    match r
    case Success(body) => Success(body)
    case Failure(cause) => Failure(DecodingFailed(cause))
  }

  function DecodeAmong<P>(lib: Library<P>, candidates: seq<Candidate>, token: string, v: Validation, nowSecs: int)
    : Result<P, JwtError>
  {
    var kid := KidOfToken(lib, token);
    if kid.Some? then
      var key := FirstWith(candidates, kid.value);
      if key.Some? then Lift(Decode(lib, token, key.value, v, nowSecs))
      else Failure(DecodingFailed(UnknownKid(kid.value)))
    else TryAll(lib, candidates, token, v, nowSecs, NoKeysConfigured)
  }

  ghost function CandidatesOf<P>(lib: Library<P>, cfg: JwtConfig): (candidates: seq<Candidate>)
    requires AllLoad(lib, cfg)
    ensures Loaded(lib, cfg, candidates) && |candidates| == 1 + |cfg.rotationKeys|
  {
    seq(|Entries(cfg)|, i requires 0 <= i < |Entries(cfg)| && AllLoad(lib, cfg) =>
      Candidate(Entries(cfg)[i].keyId, LoadEntry(lib, cfg, Entries(cfg)[i]).value))
  }

  ghost function DecodeUnder<P>(lib: Library<P>, cfg: JwtConfig, token: string, v: Validation, nowSecs: int)
    : Result<P, JwtError>
  {
    if !AllLoad(lib, cfg) then Failure(KeyLoading)
    else DecodeAmong(lib, CandidatesOf(lib, cfg), token, v, nowSecs)
  }

  ghost function DecodeToken<P>(lib: Library<P>, cfg: JwtConfig, token: string, nowSecs: int): Result<P, JwtError> {
    DecodeUnder(lib, cfg, token, ValidationOf(cfg), nowSecs)
  }

  method DecodeWithRotation<P>(lib: Library<P>, cfg: JwtConfig, token: string, v: Validation, nowSecs: int)
    returns (r: Result<P, JwtError>)
    ensures r == DecodeUnder(lib, cfg, token, v, nowSecs)
  {
    var loaded := DecodingKeys(lib, cfg);
    if loaded.Failure? {
      return Failure(loaded.error);
    }
    var candidates := loaded.value;
    assert candidates == CandidatesOf(lib, cfg);
    var header := lib.decodeHeader(token);
    if header.Some? && header.value.kid.Some? {
      var kid := header.value.kid.value;
      var key := FirstWith(candidates, kid);
      if key.Some? {
        match Decode(lib, token, key.value, v, nowSecs) {
          case Success(body) => return Success(body);
          case Failure(cause) => return Failure(DecodingFailed(cause));
        }
      }
      return Failure(DecodingFailed(UnknownKid(kid)));
    }
    var lastErr := NoKeysConfigured;
    for i := 0 to |candidates|
      invariant TryAll(lib, candidates, token, v, nowSecs, NoKeysConfigured)
             == TryAll(lib, candidates[i..], token, v, nowSecs, lastErr)
    {
      assert candidates[i..][1..] == candidates[i + 1..];
      match Decode(lib, token, candidates[i].key, v, nowSecs) {
        case Success(body) => return Success(body);
        case Failure(cause) => lastErr := cause;
      }
    }
    r := Failure(DecodingFailed(lastErr));
  }

  // Both places that need the accepted audiences compute them on their own.
  function Audiences(cfg: JwtConfig): seq<string> {
    if cfg.audience.Some? && cfg.audience.value !in cfg.audiences then cfg.audiences + [cfg.audience.value]
    else cfg.audiences
  }

  function Members(names: seq<string>): set<string> {
    set name | name in names
  }

  function Leeway(cfg: JwtConfig): nat {
    if cfg.leeway.Some? then cfg.leeway.value else DEFAULT_LEEWAY_SECS
  }

  function ValidationOf(cfg: JwtConfig): Validation {
    Validation(
      {cfg.algorithm},
      Leeway(cfg),
      cfg.validateExp,
      cfg.validateNbf,
      Members(cfg.requiredClaims),
      if cfg.issuer.Some? then Some({cfg.issuer.value}) else None,
      if Audiences(cfg) == [] then None else Some(Members(Audiences(cfg))))
  }

  method BuildValidation(cfg: JwtConfig) returns (v: Validation)
    ensures v == ValidationOf(cfg)
    ensures v.aud.Some? <==> cfg.audience.Some? || cfg.audiences != []
    ensures v.aud.Some? ==> forall name :: name in v.aud.value <==> name in cfg.audiences || cfg.audience == Some(name)
  {
    v := Validation({cfg.algorithm}, 0, true, false, {"exp"}, None, None);
    v := v.(leeway := Leeway(cfg));
    v := v.(validateExp := cfg.validateExp);
    v := v.(validateNbf := cfg.validateNbf);
    v := v.(required := Members(cfg.requiredClaims));
    if cfg.issuer.Some? {
      v := v.(iss := Some({cfg.issuer.value}));
    }
    var audiences := cfg.audiences;
    if cfg.audience.Some? && cfg.audience.value !in audiences {
      audiences := audiences + [cfg.audience.value];
    }
    if audiences != [] {
      v := v.(aud := Some(Members(audiences)));
    }
  }

  // What the configuration asks of registered claims, given a leeway in seconds.
  predicate PolicyAllows<P>(lib: Library<P>, cfg: JwtConfig, r: Registered, leeway: nat, nowSecs: int) {
    && ("exp" in cfg.requiredClaims ==> r.exp.Some?)
    && ("nbf" in cfg.requiredClaims ==> r.nbf.Some?)
    && ("iss" in cfg.requiredClaims ==> r.iss.Some?)
    && ("aud" in cfg.requiredClaims ==> r.aud.Some?)
    && ("sub" in cfg.requiredClaims ==> r.sub.Some?)
    && (cfg.validateExp && r.exp.Some? ==> nowSecs <= r.exp.value + leeway)
    && (cfg.validateNbf && r.nbf.Some? ==> r.nbf.value <= nowSecs + leeway)
    && (cfg.issuer.Some? && r.iss.Some? ==> r.iss == cfg.issuer)
    && (r.aud.Some? ==>
          if cfg.audience.None? && cfg.audiences == [] then lib.anyAudience
          else r.aud == cfg.audience || r.aud.value in cfg.audiences)
  }

  // Over all bodies: the claims pass iff the configuration allows them, with the configured leeway, or
  // 60 seconds if none is.
  lemma PolicyExactly<P>(lib: Library<P>, cfg: JwtConfig, body: P, nowSecs: int)
    ensures CheckClaims(lib, ValidationOf(cfg), body, nowSecs).None?
       <==> PolicyAllows(lib, cfg, lib.registered(body), if cfg.leeway.Some? then cfg.leeway.value else 60, nowSecs)
  {
    if cfg.audience.Some? || cfg.audiences != [] {
      assert Audiences(cfg) != [];
      assert forall name :: name in Audiences(cfg) <==> name in cfg.audiences || cfg.audience == Some(name);
    }
  }

  // The constructor for rotation keys and the default configuration ask for `exp` and `iss`, allow 60
  // seconds past the expiry, accept any issuer and any start, and have no audience of their own.
  lemma DefaultPolicyExactly<P>(lib: Library<P>, cfg: JwtConfig, algorithm: Algorithm, keys: seq<RotationKey>,
                                secret: string, body: P, nowSecs: int)
    requires cfg == WithRotationKeys(algorithm, keys) || cfg == DefaultConfig(secret)
    ensures CheckClaims(lib, ValidationOf(cfg), body, nowSecs).None?
       <==> var r := lib.registered(body);
            && r.exp.Some? && r.iss.Some? && nowSecs <= r.exp.value + 60 && (r.aud.Some? ==> lib.anyAudience)
  {
    assert cfg.requiredClaims[0] == "exp" && cfg.requiredClaims[1] == "iss";
    PolicyExactly(lib, cfg, body, nowSecs);
  }

  // `nbf` is the member of that name among the extra claims, in whole seconds.
  datatype StandardClaims = StandardClaims(
    sub: Option<string>,
    iss: Option<string>,
    aud: Option<string>,
    exp: Option<int>,
    iat: Option<int>,
    jti: Option<string>,
    role: Option<string>,
    permissions: seq<string>,
    nbf: Option<int>,
    extra: map<string, string>)

  // What is left of the claims once they are written to a token: whole seconds.
  function Written(c: StandardClaims): StandardClaims {
    c.(exp := if c.exp.Some? then Some(Nanos(Seconds(c.exp.value))) else None,
       iat := if c.iat.Some? then Some(Nanos(Seconds(c.iat.value))) else None)
  }

  function RegisteredOf(c: StandardClaims): Registered {
    Registered(if c.exp.Some? then Some(Seconds(c.exp.value)) else None, c.nbf, c.iss, c.aud, c.sub)
  }

  // The library reads standard claims as they were written.
  ghost predicate ReadsStandardClaims(lib: Library<StandardClaims>) {
    forall c: StandardClaims :: lib.registered(c) == RegisteredOf(c)
  }

  function Stamped(cfg: JwtConfig, c: StandardClaims, ttlSecs: int, now: int, freshJti: string): StandardClaims {
    c.(iat := Or(c.iat, Some(now)),
       exp := Or(c.exp, Some(now + Nanos(ttlSecs))),
       iss := Or(c.iss, cfg.issuer),
       aud := Or(c.aud, if Audiences(cfg) == [] then None else Some(Audiences(cfg)[0])),
       jti := Or(c.jti, Some(freshJti)))
  }

  // Stamping keeps every claim the caller set and leaves the others alone but for five: `iat`, `exp` and
  // `jti` are set in any case, `iss` and `aud` if they are configured. It is idempotent, and the written
  // lifetime is exactly the configured one however the instant falls within its second.
  method StampedStandard(cfg: JwtConfig, given: StandardClaims, ttlSecs: int, now: int, freshJti: string)
    returns (claims: StandardClaims)
    ensures claims == Stamped(cfg, given, ttlSecs, now, freshJti)
    ensures && claims.sub == given.sub && claims.role == given.role && claims.permissions == given.permissions
            && claims.nbf == given.nbf && claims.extra == given.extra
    ensures claims.iat == if given.iat.Some? then given.iat else Some(now)
    ensures claims.exp == if given.exp.Some? then given.exp else Some(now + Nanos(ttlSecs))
    ensures claims.iss == if given.iss.Some? then given.iss else cfg.issuer
    ensures claims.aud == if given.aud.Some? then given.aud
                          else if cfg.audiences != [] then Some(cfg.audiences[0])
                          else cfg.audience
    ensures claims.jti == if given.jti.Some? then given.jti else Some(freshJti)
    ensures given.iat.None? && given.exp.None? ==> Seconds(claims.exp.value) - Seconds(claims.iat.value) == ttlSecs
    ensures forall ttl, later, jti :: Stamped(cfg, claims, ttl, later, jti) == claims
  {
    claims := given;
    if claims.iat.None? {
      claims := claims.(iat := Some(now));
    }
    if claims.exp.None? {
      claims := claims.(exp := Some(now + Nanos(ttlSecs)));
    }
    if claims.iss.None? {
      claims := claims.(iss := cfg.issuer);
    }
    if claims.aud.None? {
      var audiences := cfg.audiences;
      if cfg.audience.Some? && cfg.audience.value !in audiences {
        audiences := audiences + [cfg.audience.value];
      }
      claims := claims.(aud := if audiences == [] then None else Some(audiences[0]));
    }
    if claims.jti.None? {
      claims := claims.(jti := Some(freshJti));
    }
    WholeLifetime(now, ttlSecs);
  }

  lemma WholeLifetime(now: int, ttlSecs: int)
    ensures Seconds(now + Nanos(ttlSecs)) == Seconds(now) + ttlSecs
  {
  }

  function Encode<P>(lib: Library<P>, cfg: JwtConfig, body: P): Result<string, JwtError> {
    match EncodingKeyFor(lib, cfg.algorithm, cfg.secret, cfg.derPrivateKey)
    case Failure(e) => Failure(e)
    case Success(key) =>
      match lib.sign(Header(cfg.algorithm, cfg.keyId), body, key)
      case None => Failure(EncodingFailed)
      case Some(token) => Success(token)
  }

  // The outcome of signing under the key of a header.
  function Emitted<P>(lib: Library<P>, cfg: JwtConfig, body: P, key: Key): Result<string, JwtError> {
    var token := lib.sign(Header(cfg.algorithm, cfg.keyId), body, key);
    if token.Some? then Success(token.value) else Failure(EncodingFailed)
  }

  // Which key signs, for every algorithm and body. Raw private keys are for elliptic curves only: for
  // RSA one is ignored and the PEM is needed all the same.
  lemma SigningKeyExactly<P>(lib: Library<P>, cfg: JwtConfig, body: P)
    ensures cfg.algorithm in {HS256, HS384, HS512} ==>
              Encode(lib, cfg, body) == Emitted(lib, cfg, body, SecretKey(cfg.secret))
    ensures cfg.algorithm in {RS256, RS384, RS512, PS256, PS384, PS512} ==>
              Encode(lib, cfg, body)
              == if lib.privatePemLoads(Rsa, cfg.secret) then Emitted(lib, cfg, body, PemKey(Rsa, cfg.secret))
                 else Failure(KeyLoading)
    ensures cfg.algorithm in {ES256, ES384, EdDSA} ==>
              var family := if cfg.algorithm == EdDSA then Ed else Ec;
              Encode(lib, cfg, body)
              == if cfg.derPrivateKey.Some? then Emitted(lib, cfg, body, DerKey(family, cfg.derPrivateKey.value))
                 else if lib.privatePemLoads(family, cfg.secret)
                      then Emitted(lib, cfg, body, PemKey(family, cfg.secret))
                 else Failure(KeyLoading)
  {
  }

  // What the two constructors sign with: the first rotation key, or the given secret. Without any key
  // the first one signs with the empty secret.
  lemma ConstructorsSign<P>(lib: Library<P>, algorithm: Algorithm, keys: seq<RotationKey>, secret: string, body: P)
    ensures Encode(lib, DefaultConfig(secret), body)
         == var token := lib.sign(Header(HS256, None), body, SecretKey(secret));
            if token.Some? then Success(token.value) else Failure(EncodingFailed)
    ensures algorithm in {HS256, HS384, HS512} ==>
              var kid := if keys == [] then None else keys[0].keyId;
              var token := lib.sign(Header(algorithm, kid), body, SecretKey(if keys == [] then "" else keys[0].secret));
              Encode(lib, WithRotationKeys(algorithm, keys), body)
              == if token.Some? then Success(token.value) else Failure(EncodingFailed)
    ensures algorithm !in {HS256, HS384, HS512} && keys != [] ==>
              var token := lib.sign(Header(algorithm, keys[0].keyId), body,
                                    PemKey(FamilyOf(algorithm), keys[0].secret));
              Encode(lib, WithRotationKeys(algorithm, keys), body)
              == if !lib.privatePemLoads(FamilyOf(algorithm), keys[0].secret) then Failure(KeyLoading)
                 else if token.Some? then Success(token.value)
                 else Failure(EncodingFailed)
  {
  }

  // Which key verifies for an entry, named or not: for shared secrets its own; otherwise raw material
  // before PEM, the entry's before the config's within each, and at last its secret read as a PEM.
  lemma VerifyingKeyExactly<P>(lib: Library<P>, cfg: JwtConfig, entry: RotationKey)
    ensures cfg.algorithm in {HS256, HS384, HS512} ==> LoadEntry(lib, cfg, entry) == Success(SecretKey(entry.secret))
    ensures cfg.algorithm !in {HS256, HS384, HS512} ==>
              var family := if cfg.algorithm == EdDSA then Ed
                            else if cfg.algorithm in {ES256, ES384} then Ec
                            else Rsa;
              var pem := if entry.publicKey.Some? then entry.publicKey.value
                         else if cfg.publicKey.Some? then cfg.publicKey.value
                         else entry.secret;
              LoadEntry(lib, cfg, entry)
              == if entry.derPublicKey.Some? then Success(DerKey(family, entry.derPublicKey.value))
                 else if cfg.derPublicKey.Some? then Success(DerKey(family, cfg.derPublicKey.value))
                 else if lib.publicPemLoads(family, pem) then Success(PemKey(family, pem))
                 else Failure(KeyLoading)
  {
  }

  function EncodeFor(lib: Library<StandardClaims>, cfg: JwtConfig, c: StandardClaims, ttlSecs: int, now: int,
                     freshJti: string): Result<string, JwtError>
  {
    Encode(lib, cfg, Written(Stamped(cfg, c, ttlSecs, now, freshJti)))
  }

  function EncodeStandard(lib: Library<StandardClaims>, cfg: JwtConfig, c: StandardClaims, now: int,
                          freshJti: string): Result<string, JwtError>
  {
    EncodeFor(lib, cfg, c, cfg.accessTokenTtl, now, freshJti)
  }

  function EncodeRefreshStandard(lib: Library<StandardClaims>, cfg: JwtConfig, c: StandardClaims, now: int,
                                 freshJti: string): Result<string, JwtError>
  {
    EncodeFor(lib, cfg, c, cfg.refreshTokenTtl, now, freshJti)
  }

  // A revocation store as `decode_standard` sees it: an answer per jti, or an error.
  type Lookup = string -> Option<bool>

  ghost function DecodeStandard(lib: Library<StandardClaims>, cfg: JwtConfig, store: Option<Lookup>,
                                token: string, now: int): Result<StandardClaims, JwtError>
  {
    match DecodeToken(lib, cfg, token, Seconds(now))
    case Failure(e) => Failure(e)
    case Success(claims) =>
      if store.Some? && claims.jti.Some? then
        match store.value(claims.jti.value)
        case None => Failure(Revoked)
        case Some(revoked) => if revoked then Failure(Revoked) else Success(claims)
      else Success(claims)
  }
}
