/**
 A revoked token is never accepted again, and exactly when that is so: the revocation store and the
 expiry policy joined. Both read one clock; `decode_standard` checks the expiry first and asks the
 store a moment later, and that delay is part of the condition.
 */
module NoResurrection {
  import opened Instants
  import opened Wrappers
  import opened Jose
  import opened Service
  import opened Rotation
  import opened Minting
  import Rev = RevocationState
  import Evict = RevocationEviction
  import Inter = RevocationInterleaving
  import RevocationStore
  import Redis = RedisStore

  // The in-memory store as `decode_standard` consults it; it never fails.
  ghost function InMemory(limits: Rev.Limits, s: Rev.Inner, askedAt: int): Lookup {
    jti => Some(Rev.IsRevoked(s, limits.ttl, jti, askedAt))
  }

  // `decode_standard` for every token, configuration and store: it returns `c` iff the token is
  // acceptable with that body and no store look-up speaks against it; a token without a jti is not
  // looked up. It says "revoked" iff the token decodes and the look-up finds it revoked or fails.
  lemma DecodeStandardExactly(lib: Library<StandardClaims>, cfg: JwtConfig, store: Option<Lookup>, token: string,
                              c: StandardClaims, now: int)
    ensures DecodeStandard(lib, cfg, store, token, now) == Success(c)
       <==> && Acceptable(lib, cfg, token, c, Seconds(now))
            && (store.None? || c.jti.None? || store.value(c.jti.value) == Some(false))
    ensures DecodeStandard(lib, cfg, store, token, now) == Failure(Revoked)
       <==> exists body :: && Acceptable(lib, cfg, token, body, Seconds(now))
                           && store.Some? && body.jti.Some? && store.value(body.jti.value) != Some(false)
    ensures DecodeToken(lib, cfg, token, Seconds(now)).Failure? ==>
              DecodeStandard(lib, cfg, store, token, now) == DecodeToken(lib, cfg, token, Seconds(now))
  {
    var decoded := DecodeToken(lib, cfg, token, Seconds(now));
    AcceptedExactly(lib, cfg, token, c, Seconds(now));
    forall body
      ensures Acceptable(lib, cfg, token, body, Seconds(now)) <==> decoded == Success(body)
    {
      AcceptedExactly(lib, cfg, token, body, Seconds(now));
    }
    NeverRevoked(lib, cfg, token, Seconds(now));
  }

  // Decoding alone never says "revoked".
  lemma NeverRevoked<P>(lib: Library<P>, cfg: JwtConfig, token: string, nowSecs: int)
    ensures DecodeToken(lib, cfg, token, nowSecs) != Failure(Revoked)
  {
    if AllLoad(lib, cfg) {
      var kid := KidOfToken(lib, token);
      if kid.Some? {
        NamedTokenExactly(lib, cfg, token, kid.value, nowSecs);
      } else {
        var i := UnnamedTokenExactly(lib, cfg, token, nowSecs);
      }
    }
  }

  // `decode_standard` with an in-memory store attached, or none.
  method DecodeStandardWith(lib: Library<StandardClaims>, cfg: JwtConfig,
                            store: RevocationStore.InMemoryRevocationStore?, token: string, now: int,
                            askedAt: int)
    returns (r: Result<StandardClaims, JwtError>)
    ensures r == DecodeStandard(lib, cfg,
                   if store == null then None else Some(InMemory(store.limits, store.State(), askedAt)), token, now)
    ensures forall c :: r == Success(c) <==>
              && Acceptable(lib, cfg, token, c, Seconds(now))
              && (store == null || c.jti.None?
                  || !Rev.IsRevoked(store.State(), store.limits.ttl, c.jti.value, askedAt))
  {
    var v := BuildValidation(cfg);
    var decoded := DecodeWithRotation(lib, cfg, token, v, Seconds(now));
    forall c
      ensures decoded == Success(c) <==> Acceptable(lib, cfg, token, c, Seconds(now))
    {
      AcceptedExactly(lib, cfg, token, c, Seconds(now));
    }
    if decoded.Failure? {
      return Failure(decoded.error);
    }
    var claims := decoded.value;
    if store != null && claims.jti.Some? {
      var revoked := store.IsRevokedAt(claims.jti.value, askedAt);
      if revoked {
        return Failure(Revoked);
      }
    }
    r := Success(claims);
  }

  // The store remembers a revocation made at `revokedAt` for as long as a token of expiry `expSecs`
  // can pass the expiry check and be looked up `delay` later; the last second counts in full.
  predicate Outlasts(ttl: Option<nat>, cfg: JwtConfig, expSecs: int, revokedAt: int, delay: nat) {
    ttl.None? || (cfg.validateExp && revokedAt + ttl.value >= Nanos(expSecs + Leeway(cfg) + 1) + delay)
  }

  // Expiry, for every body: a token acceptable in all else is accepted until its expiry plus the
  // configured leeway, or plus 60 seconds if none is.
  lemma ExpiryExactly(lib: Library<StandardClaims>, cfg: JwtConfig, token: string, c: StandardClaims, now: int)
    requires ReadsStandardClaims(lib) && cfg.validateExp
    requires Acceptable(lib, cfg.(validateExp := false), token, c, Seconds(now))
    ensures DecodeToken(lib, cfg, token, Seconds(now)) == Success(c)
       <==> || c.exp.None?
            || Seconds(now) <= Seconds(c.exp.value) + (if cfg.leeway.Some? then cfg.leeway.value else 60)
  {
    var lenient := cfg.(validateExp := false);
    PolicyExactly(lib, lenient, c, Seconds(now));
    PolicyExactly(lib, cfg, c, Seconds(now));
    SameKeysAcceptable(lib, lenient, cfg, token, c, Seconds(now));
    AcceptedExactly(lib, cfg, token, c, Seconds(now));
  }

  // And whatever else a token carries: it is not accepted later than that, nor without an expiry if one
  // is required.
  lemma AcceptedInTime(lib: Library<StandardClaims>, cfg: JwtConfig, token: string, c: StandardClaims, now: int)
    requires ReadsStandardClaims(lib) && DecodeToken(lib, cfg, token, Seconds(now)) == Success(c)
    ensures "exp" in cfg.requiredClaims ==> c.exp.Some?
    ensures cfg.validateExp && c.exp.Some? ==>
              Seconds(now) <= Seconds(c.exp.value) + (if cfg.leeway.Some? then cfg.leeway.value else 60)
  {
    AcceptedExactly(lib, cfg, token, c, Seconds(now));
    PolicyExactly(lib, cfg, c, Seconds(now));
  }

  // Two configurations with the same keys differ on a token only by their claims policy.
  lemma SameKeysAcceptable<P>(lib: Library<P>, a: JwtConfig, b: JwtConfig, token: string, body: P, nowSecs: int)
    requires Acceptable(lib, a, token, body, nowSecs) && Entries(a) == Entries(b)
    requires a.algorithm == b.algorithm && a.publicKey == b.publicKey && a.derPublicKey == b.derPublicKey
    ensures Acceptable(lib, b, token, body, nowSecs) <==> CheckClaims(lib, ValidationOf(b), body, nowSecs).None?
  {
    assert forall entry :: LoadEntry(lib, a, entry) == LoadEntry(lib, b, entry);
    var kid := lib.decodeHeader(token).value.kid;
    var i :| Decides(a, kid, i) && VerifiesUnder(lib, a, token, i);
    assert Decides(b, kid, i);
    assert VerifiesUnder(lib, b, token, i);
  }

  lemma AcceptedBeforeExpiry(lib: Library<StandardClaims>, cfg: JwtConfig, token: string, now: int)
    requires ReadsStandardClaims(lib) && cfg.validateExp
    ensures var r := DecodeToken(lib, cfg, token, Seconds(now));
            r.Success? && r.value.exp.Some? ==> now < Nanos(Seconds(r.value.exp.value) + Leeway(cfg) + 1)
  {
    var r := DecodeToken(lib, cfg, token, Seconds(now));
    if r.Success? {
      AcceptedExactly(lib, cfg, token, r.value, Seconds(now));
      assert lib.registered(r.value) == RegisteredOf(r.value);
    }
  }

  // Safety, end to end and over every interleaving: once the jti of a token is revoked, with no older
  // slot in the queue, the token is rejected by every later look-up, as revoked if not for another
  // reason, provided the store outlasts the token and there is room for the insertions behind it.
  lemma RevokedStaysRejected(lib: Library<StandardClaims>, cfg: JwtConfig, limits: Rev.Limits, s: Rev.Inner,
                             token: string, claims: StandardClaims, jti: string, revokedAt: int,
                             later: seq<Rev.Event>, now: int, askedAt: int)
    requires ReadsStandardClaims(lib) && lib.parse(token) == Some(claims)
    requires claims.jti == Some(jti)
    requires limits.maxEntries >= 1 && Rev.Agree(s) && jti !in s.order
    requires revokedAt <= askedAt && now <= askedAt
    requires Inter.Between(later, revokedAt, askedAt) && Inter.RoomLeft(limits, later)
    requires limits.ttl.Some? ==>
               claims.exp.Some? && Outlasts(limits.ttl, cfg, Seconds(claims.exp.value), revokedAt, askedAt - now)
    ensures var t := Rev.ApplyAll(limits, Rev.Insert(s, jti, revokedAt), later);
            var r := DecodeStandard(lib, cfg, Some(InMemory(limits, t, askedAt)), token, now);
            && r.Failure?
            && (DecodeToken(lib, cfg, token, Seconds(now)).Success? ==> r.error == Revoked)
  {
    var decoded := DecodeToken(lib, cfg, token, Seconds(now));
    if decoded.Success? {
      AcceptedExactly(lib, cfg, token, decoded.value, Seconds(now));
      if limits.ttl.Some? {
        AcceptedBeforeExpiry(lib, cfg, token, now);
      }
      Inter.StaysRevoked(limits, s, jti, revokedAt, later, askedAt);
    }
  }

  // In terms of callers, for every algorithm and every interleaving: a token minted with a lifetime of T
  // seconds whose revocation is inserted at any later time, without an older slot in the queue, is
  // never accepted again if the store's time to live is unlimited or at least T + leeway + 1 seconds
  // plus the delay of the look-up, and the calls still in flight then and those that begin later are
  // fewer than `maxEntries`. They may repeat one another and this one.
  lemma MintedTokenStaysRejected(lib: Library<StandardClaims>, cfg: JwtConfig, limits: Rev.Limits, n: nat, m: Mint,
                                 first: seq<Inter.Step>, task: nat, revokedAt: int, after: seq<Inter.Step>,
                                 now: int, askedAt: int)
    requires CanMint(lib, cfg, m) && ReadsStandardClaims(lib) && m.claims.exp.None?
    requires limits.maxEntries >= 1 && n >= 1 && Inter.InsertsNew(limits, n, first, task, revokedAt, JtiOf(m))
    requires Inter.Exec(limits, n, first + after).Some? && Inter.StepsBetween(after, revokedAt, askedAt)
    requires Inter.InFlight(Inter.Exec(limits, n, first).value) + Inter.Begins(after) < limits.maxEntries
    requires limits.ttl.Some? ==>
               cfg.validateExp && limits.ttl.value >= Nanos(m.ttlSecs + Leeway(cfg) + 1) + (askedAt - now)
    requires m.at <= revokedAt <= askedAt && now <= askedAt
    ensures var s := Inter.Exec(limits, n, first + after).value.inner;
            DecodeStandard(lib, cfg, Some(InMemory(limits, s, askedAt)), Minted(lib, cfg, m), now).Failure?
  {
    WholeLifetime(m.at, m.ttlSecs);
    WrittenTwice(m.at + Nanos(m.ttlSecs));
    var before := first[..|first| - 1];
    var later := Inter.CallsLeaveRoom(limits, n, first, after, revokedAt, askedAt);
    Inter.CapacityBound(limits, n, before);
    RevokedStaysRejected(lib, cfg, limits, Inter.Exec(limits, n, before).value.inner, Minted(lib, cfg, m),
                         StampedBy(cfg, m), JtiOf(m), revokedAt, later, now, askedAt);
  }

  // The minted token, looked up at `askedAt` in a store that did nothing since revoking it.
  ghost predicate RejectedAt(lib: Library<StandardClaims>, cfg: JwtConfig, limits: Rev.Limits, s: Rev.Inner,
                             m: Mint, revokedAt: int, delay: nat, askedAt: int)
    requires CanMint(lib, cfg, m)
  {
    DecodeStandard(lib, cfg, Some(InMemory(limits, Rev.Insert(s, JtiOf(m), revokedAt), askedAt)),
                   Minted(lib, cfg, m), askedAt - delay).Failure?
  }

  lemma MintedLookedUp(lib: Library<StandardClaims>, cfg: JwtConfig, store: Option<Lookup>, m: Mint, now: int)
    requires CanMint(lib, cfg, m) && ReadsStandardClaims(lib) && store.Some?
    ensures DecodeStandard(lib, cfg, store, Minted(lib, cfg, m), now).Success?
       <==> OwnPolicyAccepts(lib, cfg, m, now) && store.value(JtiOf(m)) == Some(false)
  {
    MintedTokenExactly(lib, cfg, m, now);
  }

  // Acceptable but for its expiry: the rest of the policy does not depend on the time.
  predicate OnlyExpiryDecides(lib: Library<StandardClaims>, cfg: JwtConfig, m: Mint) {
    && OwnPolicyAccepts(lib, cfg.(validateExp := false, validateNbf := false), m, 0)
    && (!cfg.validateNbf || m.claims.nbf.None?)
  }

  lemma ExpiryDecides(lib: Library<StandardClaims>, cfg: JwtConfig, m: Mint, now: int)
    requires OnlyExpiryDecides(lib, cfg, m)
    ensures OwnPolicyAccepts(lib, cfg, m, now) <==> (cfg.validateExp ==> now < Nanos(ExpiryOf(m) + Leeway(cfg) + 1))
  {
  }

  lemma RejectedUnless(lib: Library<StandardClaims>, cfg: JwtConfig, limits: Rev.Limits, s: Rev.Inner,
                       m: Mint, revokedAt: int, delay: nat, askedAt: int)
    requires CanMint(lib, cfg, m) && ReadsStandardClaims(lib)
    ensures RejectedAt(lib, cfg, limits, s, m, revokedAt, delay, askedAt)
       <==> !(OwnPolicyAccepts(lib, cfg, m, askedAt - delay)
              && InMemory(limits, Rev.Insert(s, JtiOf(m), revokedAt), askedAt)(JtiOf(m)) == Some(false))
  {
    MintedLookedUp(lib, cfg, Some(InMemory(limits, Rev.Insert(s, JtiOf(m), revokedAt), askedAt)), m, askedAt - delay);
  }

  // The arithmetic condition is exact. Left alone after the revocation, a minted token its own policy
  // would otherwise accept stays rejected for good iff the store outlasts it; failing that, it is
  // accepted again at the look-up made when the entry has just expired.
  lemma OutlastingIsExact(lib: Library<StandardClaims>, cfg: JwtConfig, limits: Rev.Limits, s: Rev.Inner,
                          m: Mint, revokedAt: int, delay: nat)
    requires CanMint(lib, cfg, m) && ReadsStandardClaims(lib)
    requires OnlyExpiryDecides(lib, cfg, m)
    ensures (forall askedAt :: revokedAt <= askedAt ==> RejectedAt(lib, cfg, limits, s, m, revokedAt, delay, askedAt))
       <==> Outlasts(limits.ttl, cfg, ExpiryOf(m), revokedAt, delay)
  {
    forall askedAt | revokedAt <= askedAt
      ensures RejectedAt(lib, cfg, limits, s, m, revokedAt, delay, askedAt)
         <==> || limits.ttl.None? || askedAt - revokedAt < limits.ttl.value
              || (cfg.validateExp && askedAt - delay >= Nanos(ExpiryOf(m) + Leeway(cfg) + 1))
    {
      RejectedUnless(lib, cfg, limits, s, m, revokedAt, delay, askedAt);
      ExpiryDecides(lib, cfg, m, askedAt - delay);
    }
    if limits.ttl.Some? {
      var askedAt := revokedAt + limits.ttl.value;
      assert RejectedAt(lib, cfg, limits, s, m, revokedAt, delay, askedAt)
        <==> cfg.validateExp && askedAt - delay >= Nanos(ExpiryOf(m) + Leeway(cfg) + 1);
    }
  }

  // Every token minted from these claims with this lifetime is signed and read back.
  ghost predicate AlwaysMints(lib: Library<StandardClaims>, cfg: JwtConfig, c: StandardClaims, ttlSecs: int,
                              jti: string) {
    forall at :: CanMint(lib, cfg, Mint(c, ttlSecs, at, jti))
  }

  // Minted and revoked at any two instants in this order, the token is rejected from then on.
  ghost predicate AlwaysRejected(lib: Library<StandardClaims>, cfg: JwtConfig, limits: Rev.Limits, s: Rev.Inner,
                                 c: StandardClaims, ttlSecs: int, jti: string, delay: nat)
    requires AlwaysMints(lib, cfg, c, ttlSecs, jti)
  {
    forall mintedAt, revokedAt, askedAt :: mintedAt <= revokedAt <= askedAt ==>
      RejectedAt(lib, cfg, limits, s, Mint(c, ttlSecs, mintedAt, jti), revokedAt, delay, askedAt)
  }

  // For all tokens of a lifetime at once: they are rejected for good, whatever the instants of minting,
  // revoking and asking, iff nothing in the store expires or its time to live is at least
  // T + leeway + 1 seconds plus the delay. That is the least one that works.
  lemma LeastStoreTtl(lib: Library<StandardClaims>, cfg: JwtConfig, limits: Rev.Limits, s: Rev.Inner,
                      c: StandardClaims, ttlSecs: int, jti: string, delay: nat)
    requires AlwaysMints(lib, cfg, c, ttlSecs, jti) && ReadsStandardClaims(lib)
    requires c.exp.None? && OnlyExpiryDecides(lib, cfg, Mint(c, ttlSecs, 0, jti))
    ensures AlwaysRejected(lib, cfg, limits, s, c, ttlSecs, jti, delay)
       <==> || limits.ttl.None?
            || (cfg.validateExp && limits.ttl.value >= Nanos(ttlSecs + Leeway(cfg) + 1) + delay)
  {
    forall mintedAt
      ensures OnlyExpiryDecides(lib, cfg, Mint(c, ttlSecs, mintedAt, jti))
    {
    }
    if AlwaysRejected(lib, cfg, limits, s, c, ttlSecs, jti, delay) {
      OutlastingIsExact(lib, cfg, limits, s, Mint(c, ttlSecs, 0, jti), 0, delay);
    }
    if limits.ttl.None? || (cfg.validateExp && limits.ttl.value >= Nanos(ttlSecs + Leeway(cfg) + 1) + delay) {
      forall mintedAt, revokedAt, askedAt | mintedAt <= revokedAt <= askedAt
        ensures RejectedAt(lib, cfg, limits, s, Mint(c, ttlSecs, mintedAt, jti), revokedAt, delay, askedAt)
      {
        assert Nanos(Seconds(mintedAt)) <= mintedAt;
        OutlastingIsExact(lib, cfg, limits, s, Mint(c, ttlSecs, mintedAt, jti), revokedAt, delay);
      }
    }
  }

  // The bound on later revocations is tight as well: from every state of the store, after `maxEntries`
  // new ones within one time to live a token its own policy still accepts is accepted, revoked or not.
  lemma FloodResurrects(lib: Library<StandardClaims>, cfg: JwtConfig, limits: Rev.Limits, s: Rev.Inner, m: Mint,
                        flood: seq<Rev.Revocation>, now: int, askedAt: int)
    requires CanMint(lib, cfg, m) && ReadsStandardClaims(lib) && OwnPolicyAccepts(lib, cfg, m, now)
    requires limits.maxEntries >= 1 && Rev.Agree(s) && JtiOf(m) in s.entries && |flood| >= limits.maxEntries
    requires Evict.Fresh(s, flood) && Evict.SweptInOrder(limits, flood)
    requires Evict.AllUnexpired(limits, flood, flood[|flood| - 1].sweptAt)
    ensures var t := Rev.RevokeAll(limits, s, flood);
            DecodeStandard(lib, cfg, Some(InMemory(limits, t, askedAt)), Minted(lib, cfg, m), now).Success?
  {
    Evict.FloodForgets(limits, s, JtiOf(m), flood);
    MintedLookedUp(lib, cfg, Some(InMemory(limits, Rev.RevokeAll(limits, s, flood), askedAt)), m, now);
  }

  // The same over Redis, in every interleaving with lost answers and reconnects: if `revoke` has
  // returned Ok before a look-up begins, the look-up rejects the token if it gets an answer, and fails
  // closed if it gets none. Nothing is evicted there, so only the arithmetic condition remains.
  lemma RedisRevokedStaysRejected(lib: Library<StandardClaims>, cfg: JwtConfig, ttl: nat, began: int,
                                  first: seq<Redis.Step>, revoker: nat, asker: nat, jti: string,
                                  rest: seq<Redis.Step>, store: Lookup, token: string, claims: StandardClaims,
                                  now: int)
    requires ReadsStandardClaims(lib) && lib.parse(token) == Some(claims) && claims.jti == Some(jti)
    requires Redis.Exec(ttl, began, first + [Redis.Begin(asker, Redis.Exists(jti))] + rest).Some?
    requires Redis.NoNewCall(rest, asker) && Redis.Exec(ttl, began, first).Some?
    requires Redis.HasRevoked(Redis.Exec(ttl, began, first).value, revoker, jti)
    requires var f := Redis.Exec(ttl, began, first).value;
             var s := Redis.Exec(ttl, began, first + [Redis.Begin(asker, Redis.Exists(jti))] + rest).value;
             && asker in s.pcs && s.pcs[asker].Done?
             && if Redis.HasAnswer(s, asker) then
                  && store(jti) == Some(s.pcs[asker].reply.present)
                  && now <= s.pcs[asker].reply.at && claims.exp.Some?
                  && Outlasts(Some(Nanos(ttl)), cfg, Seconds(claims.exp.value), f.pcs[revoker].call.began,
                              s.pcs[asker].reply.at - now)
                else store(jti) == None
    ensures var r := DecodeStandard(lib, cfg, Some(store), token, now);
            r.Failure? && (DecodeToken(lib, cfg, token, Seconds(now)).Success? ==> r.error == Revoked)
  {
    var decoded := DecodeToken(lib, cfg, token, Seconds(now));
    var s := Redis.Exec(ttl, began, first + [Redis.Begin(asker, Redis.Exists(jti))] + rest).value;
    if decoded.Success? {
      AcceptedExactly(lib, cfg, token, decoded.value, Seconds(now));
      if Redis.HasAnswer(s, asker) {
        AcceptedBeforeExpiry(lib, cfg, token, now);
        Redis.RevokedUntilExpiry(ttl, began, first, revoker, asker, jti, rest);
      }
    }
  }
}
