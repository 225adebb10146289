/** `InMemoryRevocationStore`: the two collections changed in place, one method per source method. */
module RevocationStore {
  import opened Instants
  import opened Wrappers
  import opened RevocationState

  const DEFAULT_MAX_ENTRIES: nat := 100_000

  class InMemoryRevocationStore {
    var entries: map<string, int>
    var order: seq<string>
    const limits: Limits

    ghost function State(): Inner
      reads this
    {
      Inner(entries, order)
    }

    ghost predicate Valid()
      reads this
    {
      limits.maxEntries >= 1 && Agree(State())
    }

    constructor WithLimits(maxEntries: nat, ttl: Option<nat>)
      ensures Valid() && State() == EMPTY
      ensures limits == Limits(if maxEntries == 0 then 1 else maxEntries, ttl)
    {
      entries, order := map[], [];
      limits := Limits(if maxEntries > 1 then maxEntries else 1, ttl);
    }

    constructor Default()
      ensures Valid() && State() == EMPTY && limits == Limits(DEFAULT_MAX_ENTRIES, None)
    {
      entries, order := map[], [];
      limits := Limits(DEFAULT_MAX_ENTRIES, None);
    }

    method SweepExpired(now: int)
      modifies this
      ensures State() == RevocationState.SweepExpired(old(State()), limits.ttl, now)
      ensures old(Valid()) ==> Valid()
    {
      if limits.ttl.None? {
        return;
      }
      entries := LiveEntries(entries, limits.ttl, now);
      order := KeepHeld(order, entries.Keys);
      KeepHeldMembers(old(order), entries.Keys);
    }

    method EvictOldestTo(maxEntries: nat)
      modifies this
      ensures State() == RevocationState.EvictOldestTo(old(State()), maxEntries)
      ensures old(Valid()) && maxEntries >= 1 ==> Valid() && |entries| < maxEntries
    {
      while |entries| >= maxEntries
        invariant RevocationState.EvictOldestTo(State(), maxEntries)
               == RevocationState.EvictOldestTo(old(State()), maxEntries)
        decreases |order|
      {
        if order == [] {
          break;
        }
        var oldest := order[0];
        order := order[1..];
        entries := entries - {oldest};
      }
      if old(Valid()) && maxEntries >= 1 {
        EvictionMakesRoom(old(State()), maxEntries);
      }
    }

    // The live entries, counted after a sweep: as many as there are jtis that read as revoked now.
    method Len(now: int) returns (n: nat)
      modifies this
      ensures State() == RevocationState.SweepExpired(old(State()), limits.ttl, now)
      ensures n == |set jti | jti in old(entries) && IsRevoked(old(State()), limits.ttl, jti, now)|
      ensures old(Valid()) ==> Valid()
    {
      SweepUnobservable(limits, State(), now, now);
      SweepExpired(now);
      n := |entries|;
    }

    method IsEmpty(now: int) returns (empty: bool)
      modifies this
      ensures State() == RevocationState.SweepExpired(old(State()), limits.ttl, now)
      ensures empty <==> forall jti :: !IsRevoked(old(State()), limits.ttl, jti, now)
      ensures old(Valid()) ==> Valid()
    {
      ghost var revoked := set jti | jti in entries && IsRevoked(State(), limits.ttl, jti, now);
      var n := Len(now);
      empty := n == 0;
      if n != 0 {
        ghost var jti :| jti in revoked;
        assert IsRevoked(old(State()), limits.ttl, jti, now);
      } else {
        assert forall jti :: IsRevoked(old(State()), limits.ttl, jti, now) ==> jti in revoked;
      }
    }

    // First critical section of `revoke`.
    method MakeRoom(now: int)
      requires Valid()
      modifies this
      ensures Valid() && |entries| < limits.maxEntries
      ensures State() == RevocationState.MakeRoom(limits, old(State()), now)
    {
      SweepExpired(now);
      EvictOldestTo(limits.maxEntries);
    }

    // Second critical section of `revoke`.
    method Insert(jti: string, now: int)
      requires Valid()
      modifies this
      ensures Valid() && State() == RevocationState.Insert(old(State()), jti, now)
    {
      entries := entries[jti := now];
      order := order + [jti];
    }

    // An undisturbed call: the bound holds and the jti reads as revoked until its time to live is over.
    method Revoke(jti: string, sweptAt: int, at: int)
      requires Valid() && sweptAt <= at
      modifies this
      ensures Valid() && |entries| <= limits.maxEntries
      ensures State() == RevocationState.Revoke(limits, old(State()), Revocation(jti, sweptAt, at))
      ensures forall now :: at <= now && (limits.ttl.Some? ==> now - at < limits.ttl.value)
                       ==> IsRevoked(State(), limits.ttl, jti, now)
    {
      MakeRoom(sweptAt);
      Insert(jti, at);
    }

    method IsRevokedAt(jti: string, now: int) returns (revoked: bool)
      ensures revoked == IsRevoked(State(), limits.ttl, jti, now)
    {
      if jti !in entries {
        return false;
      }
      match limits.ttl
      case None => revoked := true;
      case Some(ttl) => revoked := Elapsed(entries[jti], now) < ttl;
    }
  }
}
