/** Whether a service accepts the tokens it mints itself: stamping and validation against each other. */
module Minting {
  import opened Instants
  import opened Wrappers
  import opened Jose
  import opened Service
  import opened Rotation

  // One minting: the caller's claims, the lifetime, the instant and the jti drawn for it.
  datatype Mint = Mint(claims: StandardClaims, ttlSecs: int, at: int, freshJti: string)

  function StampedBy(cfg: JwtConfig, m: Mint): StandardClaims {
    Written(Stamped(cfg, m.claims, m.ttlSecs, m.at, m.freshJti))
  }

  // The jti and the expiry, in whole seconds, of the token.
  function JtiOf(m: Mint): string {
    if m.claims.jti.Some? then m.claims.jti.value else m.freshJti
  }

  function ExpiryOf(m: Mint): int {
    if m.claims.exp.Some? then Seconds(m.claims.exp.value) else Seconds(m.at) + m.ttlSecs
  }

  // In terms of what the caller passed and configured: the claims the policy asks for are given or
  // stamped, given ones match the policy, and the expiry is not over.
  predicate OwnPolicyAccepts(lib: Library<StandardClaims>, cfg: JwtConfig, m: Mint, now: int) {
    var c := m.claims;
    && ("iss" in cfg.requiredClaims ==> c.iss.Some? || cfg.issuer.Some?)
    && ("aud" in cfg.requiredClaims ==> c.aud.Some? || cfg.audience.Some? || cfg.audiences != [])
    && ("sub" in cfg.requiredClaims ==> c.sub.Some?)
    && ("nbf" in cfg.requiredClaims ==> c.nbf.Some?)
    && (c.iss.Some? && cfg.issuer.Some? ==> c.iss == cfg.issuer)
    && (c.aud.Some? ==>
          if cfg.audience.Some? || cfg.audiences != [] then c.aud.value in cfg.audiences || c.aud == cfg.audience
          else lib.anyAudience)
    && (cfg.validateExp ==> Seconds(now) <= ExpiryOf(m) + Leeway(cfg))
    && (cfg.validateNbf && c.nbf.Some? ==> c.nbf.value <= Seconds(now) + Leeway(cfg))
  }

  lemma WrittenTwice(instant: int)
    ensures Seconds(Nanos(Seconds(instant))) == Seconds(instant)
  {
  }

  lemma StampedClaimsPass(lib: Library<StandardClaims>, cfg: JwtConfig, m: Mint, now: int)
    requires ReadsStandardClaims(lib)
    ensures CheckClaims(lib, ValidationOf(cfg), StampedBy(cfg, m), Seconds(now)).None?
       <==> OwnPolicyAccepts(lib, cfg, m, now)
  {
    var stamped := Stamped(cfg, m.claims, m.ttlSecs, m.at, m.freshJti);
    WrittenTwice(stamped.exp.value);
    WholeLifetime(m.at, m.ttlSecs);
    assert RegisteredOf(Written(stamped)).exp == Some(ExpiryOf(m));
    assert lib.registered(StampedBy(cfg, m)) == RegisteredOf(StampedBy(cfg, m));
    assert Audiences(cfg) != [] ==> Audiences(cfg)[0] in Members(Audiences(cfg));
  }

  // The service's signing and verifying keys belong together on this body: it signs, header and body
  // are read back, its own verifying key accepts the signature, and the other configured keys load.
  ghost predicate Mints<P>(lib: Library<P>, cfg: JwtConfig, body: P) {
    && AllLoad(lib, cfg) && Encode(lib, cfg, body).Success?
    && var token := Encode(lib, cfg, body).value;
    && lib.decodeHeader(token) == Some(Header(cfg.algorithm, cfg.keyId))
    && lib.parse(token) == Some(body)
    && VerifiesUnder(lib, cfg, token, 0)
  }

  // With a shared secret the two keys are the same, so round-tripping through it is all it takes.
  lemma SharedSecretMints<P>(lib: Library<P>, cfg: JwtConfig, body: P)
    requires FamilyOf(cfg.algorithm) == Hmac && Signs(lib, Header(cfg.algorithm, cfg.keyId), body, cfg.secret)
    ensures Mints(lib, cfg, body)
  {
    HmacLoads(lib, cfg);
  }

  ghost predicate CanMint(lib: Library<StandardClaims>, cfg: JwtConfig, m: Mint) {
    Mints(lib, cfg, StampedBy(cfg, m))
  }

  ghost function Minted(lib: Library<StandardClaims>, cfg: JwtConfig, m: Mint): (token: string)
    requires CanMint(lib, cfg, m)
    ensures EncodeFor(lib, cfg, m.claims, m.ttlSecs, m.at, m.freshJti) == Success(token)
    ensures lib.parse(token) == Some(StampedBy(cfg, m))
  {
    Encode(lib, cfg, StampedBy(cfg, m)).value
  }

  // `c` is what the caller passed with the bookkeeping claims filled in, instants cut to the second.
  predicate FilledIn(cfg: JwtConfig, m: Mint, c: StandardClaims) {
    && c.sub == m.claims.sub && c.role == m.claims.role && c.permissions == m.claims.permissions
    && c.nbf == m.claims.nbf && c.extra == m.claims.extra
    && c.iat == Some(Nanos(Seconds(if m.claims.iat.Some? then m.claims.iat.value else m.at)))
    && c.exp == Some(if m.claims.exp.Some? then Nanos(Seconds(m.claims.exp.value))
                     else Nanos(Seconds(m.at) + m.ttlSecs))
    && c.iss == (if m.claims.iss.Some? then m.claims.iss else cfg.issuer)
    && c.aud == (if m.claims.aud.Some? then m.claims.aud
                 else if cfg.audiences != [] then Some(cfg.audiences[0])
                 else cfg.audience)
    && c.jti == (if m.claims.jti.Some? then m.claims.jti else Some(m.freshJti))
  }

  lemma StampedIsFilledIn(cfg: JwtConfig, m: Mint)
    ensures FilledIn(cfg, m, StampedBy(cfg, m))
  {
    WholeLifetime(m.at, m.ttlSecs);
  }

  // An access token and a refresh token of the same claims: each lives as long as configured for its
  // kind, to the second, unless the caller set an expiry.
  lemma LifetimesExactly(lib: Library<StandardClaims>, cfg: JwtConfig, c: StandardClaims, at: int, freshJti: string)
    requires CanMint(lib, cfg, Mint(c, cfg.accessTokenTtl, at, freshJti))
    requires CanMint(lib, cfg, Mint(c, cfg.refreshTokenTtl, at, freshJti))
    ensures var access := EncodeStandard(lib, cfg, c, at, freshJti);
            var refresh := EncodeRefreshStandard(lib, cfg, c, at, freshJti);
            && access.Success? && refresh.Success?
            && lib.parse(access.value).Some? && lib.parse(refresh.value).Some?
            && FilledIn(cfg, Mint(c, cfg.accessTokenTtl, at, freshJti), lib.parse(access.value).value)
            && FilledIn(cfg, Mint(c, cfg.refreshTokenTtl, at, freshJti), lib.parse(refresh.value).value)
            && (c.exp.None? && c.iat.None? ==>
                  && Lifetime(lib.parse(access.value).value) == cfg.accessTokenTtl
                  && Lifetime(lib.parse(refresh.value).value) == cfg.refreshTokenTtl)
  {
    StampedIsFilledIn(cfg, Mint(c, cfg.accessTokenTtl, at, freshJti));
    StampedIsFilledIn(cfg, Mint(c, cfg.refreshTokenTtl, at, freshJti));
  }

  function Lifetime(c: StandardClaims): int {
    if c.exp.Some? && c.iat.Some? then Seconds(c.exp.value) - Seconds(c.iat.value) else 0
  }

  // The round trip through one service, for every algorithm: a minted token is accepted iff its own
  // policy allows what the caller passed, and then every claim of the caller's comes back, with the
  // bookkeeping filled in, to the second.
  lemma MintedTokenExactly(lib: Library<StandardClaims>, cfg: JwtConfig, m: Mint, now: int)
    requires CanMint(lib, cfg, m) && ReadsStandardClaims(lib)
    ensures var r := DecodeToken(lib, cfg, Minted(lib, cfg, m), Seconds(now));
            && (r.Success? <==> OwnPolicyAccepts(lib, cfg, m, now))
            && (r.Success? ==> r.value == StampedBy(cfg, m) && FilledIn(cfg, m, r.value))
  {
    var token, body := Minted(lib, cfg, m), StampedBy(cfg, m);
    var r := DecodeToken(lib, cfg, token, Seconds(now));
    StampedClaimsPass(lib, cfg, m, now);
    StampedIsFilledIn(cfg, m);
    assert Entries(cfg)[0].keyId == cfg.keyId;
    assert Decides(cfg, cfg.keyId, 0);
    AcceptedExactly(lib, cfg, token, body, Seconds(now));
    if r.Success? {
      AcceptedExactly(lib, cfg, token, r.value, Seconds(now));
    }
  }

  // So for shared secrets: what a service signs and can read back, it accepts iff its policy allows it.
  lemma SharedSecretRoundTrip(lib: Library<StandardClaims>, cfg: JwtConfig, m: Mint, now: int)
    requires FamilyOf(cfg.algorithm) == Hmac && ReadsStandardClaims(lib)
    requires Signs(lib, Header(cfg.algorithm, cfg.keyId), StampedBy(cfg, m), cfg.secret)
    ensures var token := EncodeFor(lib, cfg, m.claims, m.ttlSecs, m.at, m.freshJti);
            && token.Success?
            && var r := DecodeToken(lib, cfg, token.value, Seconds(now));
            && (r.Success? <==> OwnPolicyAccepts(lib, cfg, m, now))
            && (r.Success? ==> r.value == StampedBy(cfg, m) && FilledIn(cfg, m, r.value))
  {
    SharedSecretMints(lib, cfg, StampedBy(cfg, m));
    MintedTokenExactly(lib, cfg, m, now);
  }

  // The default configuration asks for `iss` and stamps none: every access or refresh token it mints
  // for a caller who sets no issuer is rejected by its own policy, whenever it is read back.
  lemma DefaultConfigRejectsItsOwn(lib: Library<StandardClaims>, secret: string, c: StandardClaims,
                                   mintedAt: int, freshJti: string, store: Option<Lookup>, now: int)
    requires ReadsStandardClaims(lib) && c.iss.None?
    requires var cfg := DefaultConfig(secret);
             && CanMint(lib, cfg, Mint(c, cfg.accessTokenTtl, mintedAt, freshJti))
             && CanMint(lib, cfg, Mint(c, cfg.refreshTokenTtl, mintedAt, freshJti))
    ensures var cfg := DefaultConfig(secret);
            var access := EncodeStandard(lib, cfg, c, mintedAt, freshJti);
            var refresh := EncodeRefreshStandard(lib, cfg, c, mintedAt, freshJti);
            && access.Success? && DecodeStandard(lib, cfg, store, access.value, now).Failure?
            && refresh.Success? && DecodeStandard(lib, cfg, store, refresh.value, now).Failure?
  {
    var cfg := DefaultConfig(secret);
    assert cfg.requiredClaims[1] == "iss";
    MintedTokenExactly(lib, cfg, Mint(c, cfg.accessTokenTtl, mintedAt, freshJti), now);
    MintedTokenExactly(lib, cfg, Mint(c, cfg.refreshTokenTtl, mintedAt, freshJti), now);
  }

  // With an issuer the same configuration accepts its own tokens: an access token for an hour, a refresh
  // token for a week, and both for 60 seconds more.
  lemma DefaultConfigAccepts(lib: Library<StandardClaims>, secret: string, c: StandardClaims, mintedAt: int,
                             freshJti: string, now: int)
    requires ReadsStandardClaims(lib) && c.iss.Some? && c.exp.None? && c.aud.None?
    requires CanMint(lib, DefaultConfig(secret), Mint(c, 3600, mintedAt, freshJti))
    requires CanMint(lib, DefaultConfig(secret), Mint(c, 604800, mintedAt, freshJti))
    ensures var cfg := DefaultConfig(secret);
            var access := EncodeStandard(lib, cfg, c, mintedAt, freshJti);
            var refresh := EncodeRefreshStandard(lib, cfg, c, mintedAt, freshJti);
            && access.Success? && refresh.Success?
            && (DecodeStandard(lib, cfg, None, access.value, now).Success?
                <==> Seconds(now) <= Seconds(mintedAt) + 3600 + 60)
            && (DecodeStandard(lib, cfg, None, refresh.value, now).Success?
                <==> Seconds(now) <= Seconds(mintedAt) + 604800 + 60)
  {
    var cfg := DefaultConfig(secret);
    MintedTokenExactly(lib, cfg, Mint(c, 3600, mintedAt, freshJti), now);
    MintedTokenExactly(lib, cfg, Mint(c, 604800, mintedAt, freshJti), now);
  }
}
