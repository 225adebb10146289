/** Key sets: the map built from a published document, and what counts as fresh. */
module Jwks {
  import opened Instants
  import opened Wrappers
  import opened Jose

  // One published key. `key` is what the library makes of it: nothing for an unsupported key type.
  datatype Jwk = Jwk(kid: Option<string>, alg: Option<KeyAlgorithm>, key: Option<Key>)

  type JwkSet = seq<Jwk>

  datatype CachedKey = CachedKey(key: Key, alg: Option<KeyAlgorithm>)

  // The kid under which the key of a token is looked up.
  function WantedBy(header: Header): string {
    if header.kid.Some? then header.kid.value else ""
  }

  // Nothing is published about the key's algorithm, or this one.
  predicate Pinned(cached: CachedKey, alg: Algorithm) {
    cached.alg.Some? ==> cached.alg.value == Signing(alg)
  }

  // What `decode` does once the key is resolved.
  function DecodeWith<P>(lib: Library<P>, token: string, cached: CachedKey, v: Validation, nowSecs: int)
    : Result<P, JwtError>
    requires lib.decodeHeader(token).Some?
  {
    var alg := lib.decodeHeader(token).value.alg;
    if cached.alg.Some? && cached.alg.value != Signing(alg) then Failure(AlgorithmMismatch(alg, cached.alg.value))
    else
      match Decode(lib, token, cached.key, v, nowSecs)
      case Success(body) => Success(body)
      case Failure(cause) => Failure(DecodingFailed(cause))
  }

  // A token is accepted iff its algorithm is the one published for the key if one was and one the
  // policy lists, the key verifies it, and its claims pass. A key published for another algorithm is
  // the one cause of the mismatch error.
  lemma DecodedWith<P>(lib: Library<P>, token: string, cached: CachedKey, v: Validation, nowSecs: int)
    requires lib.decodeHeader(token).Some?
    ensures var alg, r := lib.decodeHeader(token).value.alg, DecodeWith(lib, token, cached, v, nowSecs);
            && (r.Success? <==>
                  && Pinned(cached, alg) && alg in v.algorithms && lib.verifies(token, alg, cached.key)
                  && lib.parse(token).Some? && CheckClaims(lib, v, lib.parse(token).value, nowSecs).None?)
            && (r.Success? ==> lib.parse(token) == Some(r.value))
            && (r.Failure? && r.error.AlgorithmMismatch? <==> !Pinned(cached, alg))
  {
  }

  function KidOf(jwk: Jwk): string {
    if jwk.kid.Some? then jwk.kid.value else ""
  }

  predicate Usable(jwks: JwkSet) {
    exists i :: 0 <= i < |jwks| && jwks[i].key.Some?
  }

  function KeyMap(jwks: JwkSet): map<string, CachedKey> {
    if jwks == [] then map[]
    else
      var before, jwk := KeyMap(jwks[..|jwks| - 1]), jwks[|jwks| - 1];
      if jwk.key.Some? then before[KidOf(jwk) := CachedKey(jwk.key.value, jwk.alg)] else before
  }

  predicate IsFresh(fetchedAt: Option<int>, ttl: nat, now: int) {
    fetchedAt.Some? && Elapsed(fetchedAt.value, now) < ttl
  }

  // Entry `i` is the last convertible one published under `kid`.
  ghost predicate LastUnder(jwks: JwkSet, kid: string, i: int) {
    && 0 <= i < |jwks| && jwks[i].key.Some? && KidOf(jwks[i]) == kid
    && forall j :: i < j < |jwks| && KidOf(jwks[j]) == kid ==> jwks[j].key.None?
  }

  // The last convertible key under each kid wins, with the algorithm published beside it.
  lemma {:induction false} KeyMapIsLastUnder(jwks: JwkSet, kid: string)
    ensures kid in KeyMap(jwks) <==> exists i :: LastUnder(jwks, kid, i)
    ensures forall i :: LastUnder(jwks, kid, i) ==>
              kid in KeyMap(jwks) && KeyMap(jwks)[kid] == CachedKey(jwks[i].key.value, jwks[i].alg)
  {
    if jwks != [] {
      var n := |jwks| - 1;
      var before := jwks[..n];
      KeyMapIsLastUnder(before, kid);
      if jwks[n].key.Some? && KidOf(jwks[n]) == kid {
        assert LastUnder(jwks, kid, n);
      } else {
        forall i
          ensures LastUnder(jwks, kid, i) <==> LastUnder(before, kid, i)
        {
          if LastUnder(before, kid, i) {
            assert jwks[i] == before[i];
            forall j | i < j < |jwks| && KidOf(jwks[j]) == kid
              ensures jwks[j].key.None?
            {
              assert j < n ==> jwks[j] == before[j];
            }
          }
          if LastUnder(jwks, kid, i) {
            assert jwks[i] == before[i];
            forall j | i < j < |before| && KidOf(before[j]) == kid
              ensures before[j].key.None?
            {
              assert jwks[j] == before[j];
            }
          }
        }
      }
    }
  }

  // Nothing convertible is the only way to an empty map.
  lemma {:induction false} KeyMapEmpty(jwks: JwkSet)
    ensures KeyMap(jwks) == map[] <==> !Usable(jwks)
  {
    if jwks != [] {
      KeyMapEmpty(jwks[..|jwks| - 1]);
      UsableLast(jwks);
      if jwks[|jwks| - 1].key.Some? {
        assert KidOf(jwks[|jwks| - 1]) in KeyMap(jwks);
      }
    }
  }

  lemma UsableLast(jwks: JwkSet)
    requires jwks != []
    ensures Usable(jwks) <==> Usable(jwks[..|jwks| - 1]) || jwks[|jwks| - 1].key.Some?
  {
    var before := jwks[..|jwks| - 1];
    if Usable(before) {
      var i :| 0 <= i < |before| && before[i].key.Some?;
      assert jwks[i].key.Some?;
    }
    if Usable(jwks) {
      var i :| 0 <= i < |jwks| && jwks[i].key.Some?;
      assert i < |before| ==> before[i].key.Some?;
    }
  }

  method BuildKeyMap(jwks: JwkSet) returns (r: Result<map<string, CachedKey>, JwtError>)
    ensures r.Success? <==> Usable(jwks)
    ensures r.Success? ==> r.value == KeyMap(jwks) && r.value != map[]
    ensures r.Success? ==>
              forall kid, i :: LastUnder(jwks, kid, i) ==>
                kid in r.value && r.value[kid] == CachedKey(jwks[i].key.value, jwks[i].alg)
    ensures r.Failure? ==> r.error == JwtError.Jwks(NoUsableKeys)
  {
    var keys: map<string, CachedKey> := map[];
    for i := 0 to |jwks|
      invariant keys == KeyMap(jwks[..i])
    {
      assert jwks[..i + 1][..i] == jwks[..i];
      var kid := if jwks[i].kid.Some? then jwks[i].kid.value else "";
      if jwks[i].key.Some? {
        keys := keys[kid := CachedKey(jwks[i].key.value, jwks[i].alg)];
      }
    }
    assert jwks[..|jwks|] == jwks;
    KeyMapEmpty(jwks);
    if keys == map[] {
      return Failure(JwtError.Jwks(NoUsableKeys));
    }
    forall kid, i | LastUnder(jwks, kid, i)
      ensures kid in keys && keys[kid] == CachedKey(jwks[i].key.value, jwks[i].alg)
    {
      KeyMapIsLastUnder(jwks, kid);
    }
    r := Success(keys);
  }
}
