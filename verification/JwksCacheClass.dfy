/**
 `JwksCache` as one task sees it, its two fields overwritten in place. What the endpoint answers and
 the clock readings are parameters; `requests` counts the requests sent.
 */
module JwksCacheClass {
  import opened Wrappers
  import opened Jose
  import opened Jwks

  // What the endpoint answers; an error status or a body that does not parse is no document.
  datatype Fetch = NoDocument | Document(jwks: JwkSet)

  class JwksCache {
    var keys: map<string, CachedKey>
    var fetchedAt: Option<int>
    ghost var requests: nat
    const hasUrl: bool
    const staticKeys: bool
    const ttl: nat
    const minRefreshInterval: nat

    ghost predicate Valid()
      reads this
    {
      && (staticKeys ==> !hasUrl && fetchedAt.Some? && requests == 0)
      && (!staticKeys ==> (fetchedAt.None? <==> keys == map[]))
    }

    constructor New(hasUrl: bool, ttl: nat, minRefreshInterval: nat)
      ensures Valid() && keys == map[] && fetchedAt == None && requests == 0 && !staticKeys
      ensures this.hasUrl == hasUrl && this.ttl == ttl && this.minRefreshInterval == minRefreshInterval
    {
      keys, fetchedAt, requests := map[], None, 0;
      staticKeys := false;
      this.hasUrl, this.ttl, this.minRefreshInterval := hasUrl, ttl, minRefreshInterval;
    }

    constructor FromStaticKeys(given: map<string, Key>, ttl: nat, minRefreshInterval: nat, now: int)
      ensures Valid() && staticKeys && fetchedAt == Some(now)
      ensures keys.Keys == given.Keys && forall kid :: kid in given ==> keys[kid] == CachedKey(given[kid], None)
      ensures this.ttl == ttl && this.minRefreshInterval == minRefreshInterval
    {
      keys := map kid | kid in given :: CachedKey(given[kid], None);
      fetchedAt, requests := Some(now), 0;
      staticKeys, hasUrl := true, false;
      this.ttl, this.minRefreshInterval := ttl, minRefreshInterval;
    }

    // The forced refresh: all or nothing.
    method Refresh(fetch: Fetch, now: int) returns (r: Result<(), JwtError>)
      requires Valid()
      modifies this
      ensures Valid()
      ensures r.Success? <==> hasUrl && fetch.Document? && Usable(fetch.jwks)
      ensures r.Success? ==> keys == KeyMap(fetch.jwks) && keys != map[] && fetchedAt == Some(now)
      ensures r.Failure? ==> keys == old(keys) && fetchedAt == old(fetchedAt)
      ensures r.Failure? ==> r.error == JwtError.Jwks(
                if !hasUrl then NoUrl else if fetch.NoDocument? then FetchFailed else NoUsableKeys)
      ensures requests == old(requests) + if hasUrl then 1 else 0
    {
      if !hasUrl {
        return Failure(JwtError.Jwks(NoUrl));
      }
      requests := requests + 1;
      if fetch.NoDocument? {
        return Failure(JwtError.Jwks(FetchFailed));
      }
      var built := BuildKeyMap(fetch.jwks);
      match built
      case Failure(e) => r := Failure(e);
      case Success(usable) =>
        keys := usable;
        fetchedAt := Some(now);
        r := Success(());
    }

    method RefreshCoalesced(checkedAt: int, fetch: Fetch, now: int) returns (r: Result<(), JwtError>)
      requires Valid()
      modifies this
      ensures Valid()
      ensures IsFresh(old(fetchedAt), minRefreshInterval, checkedAt) ==>
                r.Success? && keys == old(keys) && fetchedAt == old(fetchedAt) && requests == old(requests)
      ensures !IsFresh(old(fetchedAt), minRefreshInterval, checkedAt) ==>
                && requests == old(requests) + (if hasUrl then 1 else 0)
                && (r.Success? <==> hasUrl && fetch.Document? && Usable(fetch.jwks))
                && (r.Success? ==> keys == KeyMap(fetch.jwks) && fetchedAt == Some(now))
                && (r.Failure? ==> keys == old(keys) && fetchedAt == old(fetchedAt) && r.error.Jwks?)
    {
      if IsFresh(fetchedAt, minRefreshInterval, checkedAt) {
        return Success(());
      }
      r := Refresh(fetch, now);
    }

    // Whatever is returned is in the map at the end, and it was served without a request only while
    // the map was younger than the time to live or, after the lock, than the refresh interval.
    method ResolveKey(kid: Option<string>, askedAt: int, checkedAt: int, fetch: Fetch, now: int)
      returns (r: Result<CachedKey, JwtError>)
      requires Valid()
      modifies this
      ensures Valid()
      ensures var want := if kid.Some? then kid.value else "";
              r.Success? ==> want in keys && keys[want] == r.value
      ensures requests == old(requests) ==> keys == old(keys) && fetchedAt == old(fetchedAt)
      ensures r.Success? && requests == old(requests) ==>
                || IsFresh(fetchedAt, ttl, askedAt)
                || IsFresh(fetchedAt, minRefreshInterval, checkedAt)
      ensures requests > old(requests) ==>
                && requests == old(requests) + 1 && hasUrl
                && !IsFresh(old(fetchedAt), minRefreshInterval, checkedAt)
                && (fetchedAt != old(fetchedAt) || keys != old(keys) ==>
                      fetch.Document? && keys == KeyMap(fetch.jwks) && fetchedAt == Some(now))
      ensures var want := if kid.Some? then kid.value else "";
              IsFresh(old(fetchedAt), ttl, askedAt) && want in old(keys) ==>
                r == Success(old(keys)[want]) && requests == old(requests)
      ensures var want := if kid.Some? then kid.value else "";
              staticKeys && !(IsFresh(old(fetchedAt), ttl, askedAt) && want in old(keys)) ==>
                r == Failure(JwtError.Jwks(NotInStaticSet(want)))
      ensures var want := if kid.Some? then kid.value else "";
              !staticKeys && !(IsFresh(old(fetchedAt), ttl, askedAt) && want in old(keys)) ==>
                if || IsFresh(old(fetchedAt), minRefreshInterval, checkedAt)
                   || (hasUrl && fetch.Document? && Usable(fetch.jwks))
                then r == if want in keys then Success(keys[want]) else Failure(JwtError.Jwks(NotAfterRefresh(want)))
                else r.Failure? && r.error.Jwks? && keys == old(keys) && fetchedAt == old(fetchedAt)
    {
      var want := if kid.Some? then kid.value else "";
      if IsFresh(fetchedAt, ttl, askedAt) && want in keys {
        return Success(keys[want]);
      }
      if staticKeys {
        return Failure(JwtError.Jwks(NotInStaticSet(want)));
      }
      var refreshed := RefreshCoalesced(checkedAt, fetch, now);
      match refreshed
      case Failure(e) => r := Failure(e);
      case Success(_) =>
        r := if want in keys then Success(keys[want]) else Failure(JwtError.Jwks(NotAfterRefresh(want)));
    }

    // A token is decided by the entry its kid names once that is resolved; it is accepted iff its
    // algorithm is the one published for that key if one was and one the policy lists, that key
    // verifies it, and its claims pass. A key published for another algorithm is the one cause of the
    // mismatch error.
    method DecodeToken<P>(lib: Library<P>, token: string, v: Validation, nowSecs: int,
                          askedAt: int, checkedAt: int, fetch: Fetch, now: int)
      returns (r: Result<P, JwtError>)
      requires Valid()
      modifies this
      ensures Valid()
      ensures lib.decodeHeader(token).Some? ==>
                var header := lib.decodeHeader(token).value;
                var want := WantedBy(header);
                var refreshed := IsFresh(old(fetchedAt), minRefreshInterval, checkedAt)
                              || (hasUrl && fetch.Document? && Usable(fetch.jwks));
                var resolved := || (IsFresh(old(fetchedAt), ttl, askedAt) && want in old(keys))
                                || (!staticKeys && refreshed && want in keys);
                && (resolved ==> want in keys && r == DecodeWith(lib, token, keys[want], v, nowSecs))
                && (r.Success? <==>
                      && resolved && Pinned(keys[want], header.alg) && header.alg in v.algorithms
                      && lib.verifies(token, header.alg, keys[want].key) && lib.parse(token).Some?
                      && CheckClaims(lib, v, lib.parse(token).value, nowSecs).None?)
                && (r.Success? ==> lib.parse(token) == Some(r.value))
                && (resolved && !Pinned(keys[want], header.alg) <==> r.Failure? && r.error.AlgorithmMismatch?)
                && (!resolved ==> r.Failure? && r.error.Jwks?)
      ensures lib.decodeHeader(token).None? ==>
                && r == Failure(DecodingFailed(Malformed))
                && keys == old(keys) && fetchedAt == old(fetchedAt) && requests == old(requests)
    {
      var header := lib.decodeHeader(token);
      if header.None? {
        return Failure(DecodingFailed(Malformed));
      }
      var resolved := ResolveKey(header.value.kid, askedAt, checkedAt, fetch, now);
      if resolved.Failure? {
        return Failure(resolved.error);
      }
      var cached := resolved.value;
      if cached.alg.Some? && cached.alg.value != Signing(header.value.alg) {
        return Failure(AlgorithmMismatch(header.value.alg, cached.alg.value));
      }
      match Decode(lib, token, cached.key, v, nowSecs)
      case Success(body) => r := Success(body);
      case Failure(cause) => r := Failure(DecodingFailed(cause));
    }
  }
}
