/** Exactly which tokens the rotation-aware decode accepts, and what that means along key histories. */
module Rotation {
  import opened Wrappers
  import opened Jose
  import opened Service

  ghost predicate FirstUnder(entries: seq<RotationKey>, kid: string, i: int) {
    && 0 <= i < |entries| && entries[i].keyId == Some(kid)
    && forall j :: 0 <= j < i ==> entries[j].keyId != Some(kid)
  }

  ghost function Attempt<P>(lib: Library<P>, cfg: JwtConfig, i: nat, token: string, nowSecs: int): Result<P, Cause>
    requires AllLoad(lib, cfg) && i < |Entries(cfg)|
  {
    Decode(lib, token, LoadEntry(lib, cfg, Entries(cfg)[i]).value, ValidationOf(cfg), nowSecs)
  }

  lemma FirstWithFinds(candidates: seq<Candidate>, kid: string) returns (i: nat)
    ensures FirstWith(candidates, kid).None? ==> forall j :: 0 <= j < |candidates| ==> candidates[j].keyId != Some(kid)
    ensures FirstWith(candidates, kid).Some? ==>
              && i < |candidates| && candidates[i].keyId == Some(kid)
              && FirstWith(candidates, kid).value == candidates[i].key
              && forall j :: 0 <= j < i ==> candidates[j].keyId != Some(kid)
  {
    if candidates == [] || candidates[0].keyId == Some(kid) {
      i := 0;
    } else {
      var n := FirstWithFinds(candidates[1..], kid);
      i := n + 1;
      assert forall j :: 0 < j < |candidates| ==> candidates[j] == candidates[1..][j - 1];
    }
  }

  // A token that names a key is decided by the first configured key of that name alone.
  lemma NamedTokenExactly<P>(lib: Library<P>, cfg: JwtConfig, token: string, kid: string, nowSecs: int)
    requires AllLoad(lib, cfg) && KidOfToken(lib, token) == Some(kid)
    ensures forall i :: FirstUnder(Entries(cfg), kid, i) ==>
              DecodeToken(lib, cfg, token, nowSecs) == Lift(Attempt(lib, cfg, i, token, nowSecs))
    ensures (forall i :: !FirstUnder(Entries(cfg), kid, i)) ==>
              DecodeToken(lib, cfg, token, nowSecs) == Failure(DecodingFailed(UnknownKid(kid)))
  {
    var candidates := CandidatesOf(lib, cfg);
    var n := FirstWithFinds(candidates, kid);
    if FirstWith(candidates, kid).Some? {
      assert FirstUnder(Entries(cfg), kid, n);
      forall i | FirstUnder(Entries(cfg), kid, i)
        ensures i == n
      {
        assert candidates[i].keyId == Some(kid);
      }
    } else {
      forall i | 0 <= i < |Entries(cfg)|
        ensures Entries(cfg)[i].keyId != Some(kid)
      {
        assert candidates[i].keyId == Entries(cfg)[i].keyId;
      }
    }
  }

  // The public key that decides a named token of an asymmetric algorithm. Raw material wins over PEM
  // wherever it comes from, and within each the entry's over the config's; the secret comes last. So
  // an entry with a PEM key of its own is decided by that key iff neither has a raw one.
  lemma NamedTokenPublicKey<P>(lib: Library<P>, cfg: JwtConfig, token: string, kid: string, i: nat, nowSecs: int)
    requires FamilyOf(cfg.algorithm) != Hmac && AllLoad(lib, cfg)
    requires KidOfToken(lib, token) == Some(kid) && FirstUnder(Entries(cfg), kid, i)
    ensures var family := FamilyOf(cfg.algorithm);
            var entry := Entries(cfg)[i];
            var key := LoadEntry(lib, cfg, entry).value;
            && DecodeToken(lib, cfg, token, nowSecs)
               == Lift(Decode(lib, token, key, ValidationOf(cfg), nowSecs))
            && (entry.derPublicKey.Some? ==> key == DerKey(family, entry.derPublicKey.value))
            && (entry.derPublicKey.None? && cfg.derPublicKey.Some? ==> key == DerKey(family, cfg.derPublicKey.value))
            && (entry.derPublicKey.None? && cfg.derPublicKey.None? && entry.publicKey.None? ==>
                  key == PemKey(family, if cfg.publicKey.Some? then cfg.publicKey.value else entry.secret))
            && (entry.publicKey.Some? ==>
                  (entry.derPublicKey.None? && cfg.derPublicKey.None?
                   <==> key == PemKey(family, entry.publicKey.value)))
  {
    NamedTokenExactly(lib, cfg, token, kid, nowSecs);
  }

  // What that costs: a token that verifies under its entry's own PEM key is rejected whatever its
  // claims, and at all times, if the config has a raw key under which it does not verify.
  lemma OwnPublicKeyOverridden<P>(lib: Library<P>, cfg: JwtConfig, token: string, kid: string, i: nat, nowSecs: int)
    requires FamilyOf(cfg.algorithm) != Hmac && lib.decodeHeader(token) == Some(Header(cfg.algorithm, Some(kid)))
    requires FirstUnder(Entries(cfg), kid, i)
    requires Entries(cfg)[i].publicKey.Some? && Entries(cfg)[i].derPublicKey.None? && cfg.derPublicKey.Some?
    requires lib.verifies(token, cfg.algorithm, PemKey(FamilyOf(cfg.algorithm), Entries(cfg)[i].publicKey.value))
    requires !lib.verifies(token, cfg.algorithm, DerKey(FamilyOf(cfg.algorithm), cfg.derPublicKey.value))
    ensures DecodeToken(lib, cfg, token, nowSecs)
         == Failure(if AllLoad(lib, cfg) then DecodingFailed(BadSignature) else KeyLoading)
  {
    if AllLoad(lib, cfg) {
      NamedTokenExactly(lib, cfg, token, kid, nowSecs);
    }
  }

  lemma TryAllFinds<P>(lib: Library<P>, candidates: seq<Candidate>, token: string, v: Validation, nowSecs: int,
                       lastErr: Cause) returns (i: nat)
    ensures i <= |candidates|
    ensures forall j :: 0 <= j < i ==> Decode(lib, token, candidates[j].key, v, nowSecs).Failure?
    ensures i < |candidates| ==>
              && Decode(lib, token, candidates[i].key, v, nowSecs).Success?
              && TryAll(lib, candidates, token, v, nowSecs, lastErr)
                 == Lift(Decode(lib, token, candidates[i].key, v, nowSecs))
    ensures i == |candidates| > 0 ==>
              TryAll(lib, candidates, token, v, nowSecs, lastErr)
              == Lift(Decode(lib, token, candidates[|candidates| - 1].key, v, nowSecs))
    ensures i == |candidates| == 0 ==>
              TryAll(lib, candidates, token, v, nowSecs, lastErr) == Failure(DecodingFailed(lastErr))
  {
    if candidates == [] || Decode(lib, token, candidates[0].key, v, nowSecs).Success? {
      i := 0;
    } else {
      var cause := Decode(lib, token, candidates[0].key, v, nowSecs).error;
      var n := TryAllFinds(lib, candidates[1..], token, v, nowSecs, cause);
      i := n + 1;
      assert forall j :: 0 < j < |candidates| ==> candidates[j] == candidates[1..][j - 1];
    }
  }

  // A token that names none is decided by the first configured key that accepts it; if none does the
  // error is that of the last key. There is always a key, so "no keys configured" never comes back.
  lemma UnnamedTokenExactly<P>(lib: Library<P>, cfg: JwtConfig, token: string, nowSecs: int) returns (i: nat)
    requires AllLoad(lib, cfg) && KidOfToken(lib, token).None?
    ensures i < |Entries(cfg)|
    ensures DecodeToken(lib, cfg, token, nowSecs) == Lift(Attempt(lib, cfg, i, token, nowSecs))
    ensures forall j :: 0 <= j < i ==> Attempt(lib, cfg, j, token, nowSecs).Failure?
    ensures DecodeToken(lib, cfg, token, nowSecs).Failure? ==> i == |Entries(cfg)| - 1
    ensures DecodeToken(lib, cfg, token, nowSecs) != Failure(DecodingFailed(NoKeysConfigured))
  {
    var candidates := CandidatesOf(lib, cfg);
    var n := TryAllFinds(lib, candidates, token, ValidationOf(cfg), nowSecs, NoKeysConfigured);
    i := if n == |candidates| then n - 1 else n;
    assert forall j :: 0 <= j < |candidates| ==>
        candidates[j].key == LoadEntry(lib, cfg, Entries(cfg)[j]).value;
  }

  // Key loading fails for every token or for none, and for none iff every configured key loads.
  lemma KeyLoadingExactly<P>(lib: Library<P>, cfg: JwtConfig, token: string, nowSecs: int)
    ensures DecodeToken(lib, cfg, token, nowSecs) == Failure(KeyLoading) <==> !AllLoad(lib, cfg)
  {
    if AllLoad(lib, cfg) {
      var kid := KidOfToken(lib, token);
      if kid.Some? {
        NamedTokenExactly(lib, cfg, token, kid.value, nowSecs);
      } else {
        var i := UnnamedTokenExactly(lib, cfg, token, nowSecs);
      }
    }
  }

  // The public key of an asymmetric entry on its own: raw, else PEM, else read from the private PEM.
  ghost predicate PublicKeyLoads<P>(lib: Library<P>, family: Family, entry: RotationKey) {
    || entry.derPublicKey.Some?
    || lib.publicPemLoads(family, if entry.publicKey.Some? then entry.publicKey.value else entry.secret)
  }

  lemma RotationEntriesLoad<P>(lib: Library<P>, algorithm: Algorithm, keys: seq<RotationKey>)
    requires FamilyOf(algorithm) != Hmac && keys != []
    ensures AllLoad(lib, WithRotationKeys(algorithm, keys))
       <==> && lib.publicPemLoads(FamilyOf(algorithm), keys[0].secret)
            && forall i :: 0 <= i < |keys| ==> PublicKeyLoads(lib, FamilyOf(algorithm), keys[i])
  {
    var cfg := WithRotationKeys(algorithm, keys);
    assert LoadEntry(lib, cfg, Entries(cfg)[0]).Success? <==> lib.publicPemLoads(FamilyOf(algorithm), keys[0].secret);
    forall i | 0 <= i < |keys|
      ensures LoadEntry(lib, cfg, Entries(cfg)[i + 1]).Success?
         <==> PublicKeyLoads(lib, FamilyOf(algorithm), keys[i])
    {
      assert Entries(cfg)[i + 1] == keys[i];
    }
    if lib.publicPemLoads(FamilyOf(algorithm), keys[0].secret)
       && forall i :: 0 <= i < |keys| ==> PublicKeyLoads(lib, FamilyOf(algorithm), keys[i]) {
      forall j | 0 <= j < |Entries(cfg)|
        ensures LoadEntry(lib, cfg, Entries(cfg)[j]).Success?
      {
        assert j > 0 ==> PublicKeyLoads(lib, FamilyOf(algorithm), keys[j - 1]);
      }
    }
  }

  // For asymmetric algorithms the constructor for rotation keys does not take over the public material
  // of the first key, which is then read from its private one: every token is refused unless that
  // private key reads as a public one, and the public key of each entry loads.
  lemma AsymmetricRotationLoads<P>(lib: Library<P>, algorithm: Algorithm, keys: seq<RotationKey>, token: string,
                                   nowSecs: int)
    requires FamilyOf(algorithm) != Hmac && keys != []
    ensures DecodeToken(lib, WithRotationKeys(algorithm, keys), token, nowSecs) == Failure(KeyLoading)
       <==> || !lib.publicPemLoads(FamilyOf(algorithm), keys[0].secret)
            || exists i :: 0 <= i < |keys| && !PublicKeyLoads(lib, FamilyOf(algorithm), keys[i])
  {
    KeyLoadingExactly(lib, WithRotationKeys(algorithm, keys), token, nowSecs);
    RotationEntriesLoad(lib, algorithm, keys);
  }

  // Entry `i` has a say on tokens named `kid`: the first of that name, or any if there is no name.
  ghost predicate Decides(cfg: JwtConfig, kid: Option<string>, i: int) {
    if kid.Some? then FirstUnder(Entries(cfg), kid.value, i) else 0 <= i < |Entries(cfg)|
  }

  ghost predicate VerifiesUnder<P>(lib: Library<P>, cfg: JwtConfig, token: string, i: nat)
    requires AllLoad(lib, cfg) && i < |Entries(cfg)|
  {
    lib.verifies(token, cfg.algorithm, LoadEntry(lib, cfg, Entries(cfg)[i]).value)
  }

  // What it takes for a token with body `body` to be accepted; nothing here is about order or errors.
  ghost predicate Acceptable<P>(lib: Library<P>, cfg: JwtConfig, token: string, body: P, nowSecs: int) {
    && AllLoad(lib, cfg)
    && lib.parse(token) == Some(body)
    && CheckClaims(lib, ValidationOf(cfg), body, nowSecs).None?
    && var header := lib.decodeHeader(token);
    && header.Some? && header.value.alg == cfg.algorithm
    && exists i :: Decides(cfg, header.value.kid, i) && VerifiesUnder(lib, cfg, token, i)
  }

  // For every token, algorithm and configuration: accepted with `body` iff it has that body and the
  // policy's algorithm, its claims pass, and a key that has a say on it verifies it.
  lemma AcceptedExactly<P>(lib: Library<P>, cfg: JwtConfig, token: string, body: P, nowSecs: int)
    ensures DecodeToken(lib, cfg, token, nowSecs) == Success(body) <==> Acceptable(lib, cfg, token, body, nowSecs)
  {
    if AllLoad(lib, cfg) {
      var kid := KidOfToken(lib, token);
      if kid.Some? {
        NamedTokenExactly(lib, cfg, token, kid.value, nowSecs);
        if i :| FirstUnder(Entries(cfg), kid.value, i) {
          assert Decides(cfg, kid, i) && forall j :: Decides(cfg, kid, j) ==> j == i;
        }
      } else {
        var i := UnnamedTokenExactly(lib, cfg, token, nowSecs);
        assert Decides(cfg, kid, i);
        forall j: nat | j < |Entries(cfg)|
          ensures Attempt(lib, cfg, j, token, nowSecs) == Success(body) ==> VerifiesUnder(lib, cfg, token, j)
          ensures Acceptable(lib, cfg, token, body, nowSecs) && VerifiesUnder(lib, cfg, token, j) ==>
                    Attempt(lib, cfg, j, token, nowSecs) == Success(body)
        {
        }
      }
    }
  }

  // Some configured key that decides a token named `kid` carries `secret`.
  ghost predicate Selects(cfg: JwtConfig, kid: Option<string>, secret: string) {
    exists i :: Decides(cfg, kid, i) && Entries(cfg)[i].secret == secret
  }

  // Of the configured secrets only `secret` verifies the token.
  ghost predicate NoOtherVerifies<P>(lib: Library<P>, cfg: JwtConfig, token: string, secret: string) {
    forall i :: 0 <= i < |Entries(cfg)| && lib.verifies(token, cfg.algorithm, SecretKey(Entries(cfg)[i].secret))
      ==> Entries(cfg)[i].secret == secret
  }

  // A token signed with a shared secret is accepted if the key its name selects is that secret and
  // its claims pass; what comes back is its own body. Rejection otherwise needs that none of the
  // other configured secrets verifies it.
  lemma SignedTokenExactly<P>(lib: Library<P>, cfg: JwtConfig, kid: Option<string>, secret: string, body: P,
                              nowSecs: int)
    requires FamilyOf(cfg.algorithm) == Hmac && Signs(lib, Header(cfg.algorithm, kid), body, secret)
    ensures var token := Signed(lib, Header(cfg.algorithm, kid), body, secret);
            var r := DecodeToken(lib, cfg, token, nowSecs);
            var pass := CheckClaims(lib, ValidationOf(cfg), body, nowSecs).None?;
            && (Selects(cfg, kid, secret) && pass ==> r == Success(body))
            && (r.Success? ==> r.value == body && pass)
            && (NoOtherVerifies(lib, cfg, token, secret) ==> (r.Success? <==> Selects(cfg, kid, secret) && pass))
  {
    var token := Signed(lib, Header(cfg.algorithm, kid), body, secret);
    var r := DecodeToken(lib, cfg, token, nowSecs);
    HmacLoads(lib, cfg);
    AcceptedExactly(lib, cfg, token, body, nowSecs);
    if r.Success? {
      AcceptedExactly(lib, cfg, token, r.value, nowSecs);
    }
    if Selects(cfg, kid, secret) {
      var i :| Decides(cfg, kid, i) && Entries(cfg)[i].secret == secret;
      assert VerifiesUnder(lib, cfg, token, i);
    }
  }

  lemma HmacLoads<P>(lib: Library<P>, cfg: JwtConfig)
    requires FamilyOf(cfg.algorithm) == Hmac
    ensures AllLoad(lib, cfg)
    ensures forall i :: 0 <= i < |Entries(cfg)| ==>
              LoadEntry(lib, cfg, Entries(cfg)[i]) == Success(SecretKey(Entries(cfg)[i].secret))
  {
  }

  // One rotation: put a new signing key in front, or drop the oldest keys.
  datatype Change = Prepend(key: RotationKey) | Keep(first: nat)

  function Apply(keys: seq<RotationKey>, change: Change): seq<RotationKey> {
    match change
    case Prepend(key) => [key] + keys
    case Keep(first) => if first < |keys| then keys[..first] else keys
  }

  function ApplyAll(keys: seq<RotationKey>, changes: seq<Change>): seq<RotationKey> {
    if changes == [] then keys
    else Apply(ApplyAll(keys, changes[..|changes| - 1]), changes[|changes| - 1])
  }

  ghost predicate DistinctKids(keys: seq<RotationKey>) {
    forall i, j :: 0 <= i < j < |keys| && keys[i].keyId.Some? ==> keys[i].keyId != keys[j].keyId
  }

  // Every new key has a name no current key has, or no name.
  ghost predicate FreshKids(keys: seq<RotationKey>, changes: seq<Change>) {
    changes != [] ==>
      var before, change := changes[..|changes| - 1], changes[|changes| - 1];
      && FreshKids(keys, before)
      && (change.Prepend? && change.key.keyId.Some? ==>
            forall i :: 0 <= i < |ApplyAll(keys, before)| ==> ApplyAll(keys, before)[i].keyId != change.key.keyId)
  }

  lemma {:induction false} HistoryDistinct(keys: seq<RotationKey>, changes: seq<Change>)
    requires DistinctKids(keys) && FreshKids(keys, changes)
    ensures DistinctKids(ApplyAll(keys, changes))
  {
    if changes != [] {
      HistoryDistinct(keys, changes[..|changes| - 1]);
    }
  }

  // The key set holds `secret`, under the name `kid` if there is one.
  ghost predicate Holds(keys: seq<RotationKey>, kid: Option<string>, secret: string) {
    exists n :: 0 <= n < |keys| && keys[n].secret == secret && (kid.Some? ==> keys[n].keyId == kid)
  }

  // The signing key comes first and once more at the head of the rotation keys.
  function Position(i: nat): nat {
    if i == 0 then 0 else i - 1
  }

  lemma EntriesAreKeys(algorithm: Algorithm, keys: seq<RotationKey>)
    requires keys != []
    ensures var entries := Entries(WithRotationKeys(algorithm, keys));
            && |entries| == |keys| + 1
            && forall i: nat :: i < |entries| ==>
                 entries[i].secret == keys[Position(i)].secret && entries[i].keyId == keys[Position(i)].keyId
  {
  }

  // Any configuration over these keys, whatever its policy: issuer, audiences, leeway, required claims.
  predicate Configures(cfg: JwtConfig, algorithm: Algorithm, keys: seq<RotationKey>) {
    && keys != [] && cfg.algorithm == algorithm
    && Entries(cfg) == Entries(WithRotationKeys(algorithm, keys))
  }

  // Among keys of distinct names, a named token selects the key of its name and no other.
  lemma HeldKeySelects(cfg: JwtConfig, keys: seq<RotationKey>, kid: Option<string>, secret: string)
    requires DistinctKids(keys) && Configures(cfg, cfg.algorithm, keys)
    ensures Selects(cfg, kid, secret) <==> Holds(keys, kid, secret)
  {
    var entries := Entries(cfg);
    EntriesAreKeys(cfg.algorithm, keys);
    if Holds(keys, kid, secret) {
      var n: nat :| n < |keys| && keys[n].secret == secret && (kid.Some? ==> keys[n].keyId == kid);
      var i := if n == 0 then 0 else n + 1;
      assert Position(i) == n && entries[i].secret == secret;
      if kid.Some? {
        forall j: nat | j < i
          ensures entries[j].keyId != kid
        {
          assert Position(j) < n;
        }
        assert FirstUnder(entries, kid.value, i);
      }
      assert Decides(cfg, kid, i);
    }
    if Selects(cfg, kid, secret) {
      var i :| Decides(cfg, kid, i) && entries[i].secret == secret;
      assert keys[Position(i)].secret == secret;
    }
  }

  // Retention along whole histories of prepending keys with fresh names and dropping old ones, for
  // all policies: a token minted under the signing key at one point decodes to its own body at any
  // other as long as a key of its name and secret is held there (of its secret, when it carries no
  // name) and its claims pass; and no longer, unless another configured secret happens to verify it.
  // Named and unnamed keys may be mixed.
  lemma RetainedExactly<P>(lib: Library<P>, keys: seq<RotationKey>, changes: seq<Change>, minted: nat,
                           minting: JwtConfig, reading: JwtConfig, body: P, nowSecs: int)
    requires FamilyOf(minting.algorithm) == Hmac
    requires DistinctKids(keys) && FreshKids(keys, changes) && minted <= |changes|
    requires Configures(minting, minting.algorithm, ApplyAll(keys, changes[..minted]))
    requires Configures(reading, minting.algorithm, ApplyAll(keys, changes))
    requires Signs(lib, Header(minting.algorithm, minting.keyId), body, minting.secret)
    ensures Encode(lib, minting, body).Success?
    ensures var key := ApplyAll(keys, changes[..minted])[0];
            var later := ApplyAll(keys, changes);
            var token := Encode(lib, minting, body).value;
            var r := DecodeToken(lib, reading, token, nowSecs);
            var pass := CheckClaims(lib, ValidationOf(reading), body, nowSecs).None?;
            && (key in later && pass ==> r == Success(body))
            && (Holds(later, key.keyId, key.secret) && pass ==> r == Success(body))
            && (r.Success? ==> r.value == body && pass)
            && (NoOtherVerifies(lib, reading, token, key.secret) ==>
                  (r.Success? <==> Holds(later, key.keyId, key.secret) && pass))
  {
    var held := ApplyAll(keys, changes[..minted]);
    var later := ApplyAll(keys, changes);
    EntriesAreKeys(minting.algorithm, held);
    assert Entries(minting)[0].secret == held[0].secret && Entries(minting)[0].keyId == held[0].keyId;
    HistoryDistinct(keys, changes);
    HeldKeySelects(reading, later, held[0].keyId, held[0].secret);
    SignedTokenExactly(lib, reading, held[0].keyId, held[0].secret, body, nowSecs);
  }

  // Fresh names are needed: under a reused name the new key shadows the old one. Tokens of the old key
  // are accepted only if the new secret verifies them, although the old key is still configured.
  lemma ReusedKidShadows<P>(lib: Library<P>, keys: seq<RotationKey>, key: RotationKey, shadow: RotationKey,
                            cfg: JwtConfig, body: P, nowSecs: int)
    requires FamilyOf(cfg.algorithm) == Hmac && Signs(lib, Header(cfg.algorithm, key.keyId), body, key.secret)
    requires key in keys && key.keyId.Some? && shadow.keyId == key.keyId
    requires Configures(cfg, cfg.algorithm, Apply(keys, Prepend(shadow)))
    ensures var token := Signed(lib, Header(cfg.algorithm, key.keyId), body, key.secret);
            && Holds(Apply(keys, Prepend(shadow)), key.keyId, key.secret)
            && (DecodeToken(lib, cfg, token, nowSecs).Success? <==>
                  && lib.verifies(token, cfg.algorithm, SecretKey(shadow.secret))
                  && CheckClaims(lib, ValidationOf(cfg), body, nowSecs).None?)
  {
    var n :| 0 <= n < |keys| && keys[n] == key;
    assert Apply(keys, Prepend(shadow))[n + 1] == key;
    var token := Signed(lib, Header(cfg.algorithm, key.keyId), body, key.secret);
    HmacLoads(lib, cfg);
    EntriesAreKeys(cfg.algorithm, Apply(keys, Prepend(shadow)));
    assert FirstUnder(Entries(cfg), key.keyId.value, 0);
    NamedTokenExactly(lib, cfg, token, key.keyId.value, nowSecs);
  }
}
