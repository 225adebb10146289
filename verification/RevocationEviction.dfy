/**
 Which jti eviction takes, for every reachable state: the one whose first queue slot is earliest.
 Re-revoking a held jti adds a second slot, so "oldest first" fails.
 */
module RevocationEviction {
  import opened Wrappers
  import opened RevocationState

  function FirstSlot(order: seq<string>, jti: string): (i: nat)
    requires jti in order
    ensures i < |order| && order[i] == jti && jti !in order[..i]
  {
    if order[0] == jti then 0 else 1 + FirstSlot(order[1..], jti)
  }

  // The held jtis none of whose slots come before the first slot of `jti`; `jti` is one of them.
  function NotBefore(s: Inner, jti: string): set<string>
    requires jti in s.order
  {
    s.entries.Keys - Names(s.order[..FirstSlot(s.order, jti)])
  }

  // The exact eviction law: a held jti stays iff those not before it, itself included, fit below the bound.
  lemma {:induction false} EvictionKeeps(s: Inner, maxEntries: nat, jti: string)
    requires Agree(s) && jti in s.entries
    ensures jti in EvictOldestTo(s, maxEntries).entries <==> |NotBefore(s, jti)| < maxEntries
    decreases |s.order|
  {
    if |s.entries| < maxEntries {
      Cardinality(NotBefore(s, jti), s.entries.Keys);
    } else {
      var rest := Inner(s.entries - {s.order[0]}, s.order[1..]);
      if s.order[0] == jti {
        HeadNotBefore(s, jti);
        EvictionOnlyRemoves(rest, maxEntries);
      } else {
        RestAgrees(s, jti);
        EvictionKeeps(rest, maxEntries, jti);
      }
    }
  }

  lemma HeadNotBefore(s: Inner, jti: string)
    requires s.order != [] && s.order[0] == jti
    ensures NotBefore(s, jti) == s.entries.Keys
  {
    assert s.order[..0] == [];
  }

  lemma RestAgrees(s: Inner, jti: string)
    requires Agree(s) && jti in s.entries && jti != s.order[0]
    ensures var rest := Inner(s.entries - {s.order[0]}, s.order[1..]);
            Agree(rest) && NotBefore(rest, jti) == NotBefore(s, jti)
  {
    var rest := Inner(s.entries - {s.order[0]}, s.order[1..]);
    assert s.order == [s.order[0]] + s.order[1..];
    assert Agree(rest);
    var i := FirstSlot(rest.order, jti);
    EvictPrefix(s, i);
    assert rest.entries.Keys == s.entries.Keys - {s.order[0]};
    assert s.order[0] in s.order[..i + 1];
  }

  lemma EvictionOnlyRemoves(s: Inner, maxEntries: nat)
    ensures EvictOldestTo(s, maxEntries).entries.Keys <= s.entries.Keys
    ensures forall jti :: jti in EvictOldestTo(s, maxEntries).entries
                     ==> EvictOldestTo(s, maxEntries).entries[jti] == s.entries[jti]
    decreases |s.order|
  {
  }

  lemma Cardinality(a: set<string>, b: set<string>)
    requires a <= b
    ensures |a| <= |b|
  {
    if a != {} {
      var x :| x in a;
      Cardinality(a - {x}, b - {x});
    }
  }

  // What one `revoke` call does to any other held jti, whatever the queue looks like.
  lemma RevokeKeeps(limits: Limits, s: Inner, r: Revocation, jti: string)
    requires Agree(s) && jti in s.entries && jti != r.jti
    ensures jti in Revoke(limits, s, r).entries
       <==> && IsRevoked(s, limits.ttl, jti, r.sweptAt)
            && var swept := SweepExpired(s, limits.ttl, r.sweptAt);
               jti in swept.order && |NotBefore(swept, jti)| < limits.maxEntries
  {
    var swept := SweepExpired(s, limits.ttl, r.sweptAt);
    SweepAgree(s, limits.ttl, r.sweptAt);
    if jti in swept.entries {
      EvictionKeeps(swept, limits.maxEntries, jti);
    } else {
      EvictionOnlyRemoves(swept, limits.maxEntries);
    }
  }

  // Eviction that spares a jti leaves alone everything not before it.
  lemma EvictionSpares(s: Inner, maxEntries: nat, jti: string)
    requires Agree(s) && jti in EvictOldestTo(s, maxEntries).entries && maxEntries >= 1
    ensures jti in s.entries && jti in EvictOldestTo(s, maxEntries).order
    ensures NotBefore(EvictOldestTo(s, maxEntries), jti) == NotBefore(s, jti)
    ensures forall k :: k in EvictOldestTo(s, maxEntries).order ==> k in s.order
    decreases |s.order|
  {
    if |s.entries| >= maxEntries && s.order != [] {
      var rest := Inner(s.entries - {s.order[0]}, s.order[1..]);
      EvictionOnlyRemoves(rest, maxEntries);
      RestAgrees(s, jti);
      EvictionSpares(rest, maxEntries, jti);
    }
  }

  lemma InsertBehind(s: Inner, jti: string, r: Revocation)
    requires Agree(s) && jti in s.entries && r.jti !in s.order
    ensures NotBefore(Insert(s, r.jti, r.at), jti) == NotBefore(s, jti) + {r.jti}
    ensures r.jti !in NotBefore(s, jti)
  {
    FirstSlotAppend(s.order, jti, r.jti);
    var i := FirstSlot(s.order, jti);
    assert (s.order + [r.jti])[..i] == s.order[..i];
  }

  lemma FirstSlotAppend(order: seq<string>, jti: string, last: string)
    requires jti in order
    ensures FirstSlot(order + [last], jti) == FirstSlot(order, jti)
  {
    if order[0] != jti {
      assert (order + [last])[1..] == order[1..] + [last];
      FirstSlotAppend(order[1..], jti, last);
    }
  }

  // New revocations, none of which has a slot in the queue.
  ghost predicate Fresh(s: Inner, log: seq<Revocation>) {
    Distinct(log) && forall i :: 0 <= i < |log| ==> log[i].jti !in s.order
  }

  // The times of the sweeps never run backwards; without a time to live they do not matter.
  ghost predicate SweptInOrder(limits: Limits, log: seq<Revocation>) {
    limits.ttl.Some? ==> forall i, j :: 0 <= i < j < |log| ==> log[i].sweptAt <= log[j].sweptAt
  }

  // What has not expired at `now` of the jtis not before `jti` and of the revocations of `log`.
  function Behind(limits: Limits, s: Inner, jti: string, log: seq<Revocation>, now: int): set<string>
    requires jti in s.order
  {
    (set k | k in NotBefore(s, jti) && Live(limits.ttl, s.entries[k], now)) +
    (set i | 0 <= i < |log| && Live(limits.ttl, log[i].at, now) :: log[i].jti)
  }

  // Room for `jti` when the call of `r` makes it, after those of `before`.
  ghost predicate HasRoom(limits: Limits, s: Inner, jti: string, before: seq<Revocation>, r: Revocation)
    requires jti in s.order && jti in s.entries
  {
    && Live(limits.ttl, s.entries[jti], r.sweptAt)
    && |Behind(limits, s, jti, before, r.sweptAt)| < limits.maxEntries
  }

  ghost predicate AlwaysRoom(limits: Limits, s: Inner, jti: string, log: seq<Revocation>)
    requires jti in s.order && jti in s.entries
  {
    log != [] ==>
      && AlwaysRoom(limits, s, jti, log[..|log| - 1])
      && HasRoom(limits, s, jti, log[..|log| - 1], log[|log| - 1])
  }

  // From the last sweep of `log` on, what stands behind `jti` in `t` is what `log` left standing or added.
  ghost predicate SameBehind(limits: Limits, s: Inner, log: seq<Revocation>, t: Inner, jti: string)
    requires jti in s.order && jti in t.order
  {
    forall now :: log == [] || log[|log| - 1].sweptAt <= now || limits.ttl.None? ==>
      Behind(limits, t, jti, [], now) == Behind(limits, s, jti, log, now)
  }

  ghost predicate Survives(limits: Limits, s: Inner, jti: string, log: seq<Revocation>, t: Inner)
    requires jti in s.order && jti in s.entries
  {
    && Agree(t) && (jti in t.entries <==> AlwaysRoom(limits, s, jti, log))
    && (jti in t.entries ==> t.entries[jti] == s.entries[jti] && SameBehind(limits, s, log, t, jti))
    && (forall k :: k in t.order ==> k in s.order || k in Jtis(log))
  }

  // A held jti survives fresh revocations iff it has not expired by the last of them and at each of
  // them there is room for what has not expired behind its first slot; from every state the store can
  // be in, whatever expires in between.
  lemma {:induction false} SurvivesExactly(limits: Limits, s: Inner, jti: string, log: seq<Revocation>)
    requires limits.maxEntries >= 1 && Agree(s) && jti in s.entries && Fresh(s, log) && SweptInOrder(limits, log)
    ensures jti in RevokeAll(limits, s, log).entries <==> AlwaysRoom(limits, s, jti, log)
    ensures Survives(limits, s, jti, log, RevokeAll(limits, s, log))
  {
    if log != [] {
      var before, r := log[..|log| - 1], log[|log| - 1];
      assert log == before + [r];
      FreshLast(limits, s, before, r);
      SurvivesExactly(limits, s, jti, before);
      SurvivesNext(limits, s, jti, before, RevokeAll(limits, s, before), r);
    }
  }

  lemma FreshLast(limits: Limits, s: Inner, before: seq<Revocation>, r: Revocation)
    requires Fresh(s, before + [r]) && SweptInOrder(limits, before + [r])
    ensures Fresh(s, before) && SweptInOrder(limits, before)
    ensures r.jti !in s.order && r.jti !in Jtis(before)
    ensures before != [] && limits.ttl.Some? ==> before[|before| - 1].sweptAt <= r.sweptAt
  {
    var log := before + [r];
    assert log[|before|] == r && forall i :: 0 <= i < |before| ==> log[i] == before[i];
  }

  lemma SurvivesNext(limits: Limits, s: Inner, jti: string, before: seq<Revocation>, t: Inner, r: Revocation)
    requires limits.maxEntries >= 1 && Agree(s) && jti in s.entries && Survives(limits, s, jti, before, t)
    requires r.jti !in s.order && r.jti !in Jtis(before)
    requires before != [] && limits.ttl.Some? ==> before[|before| - 1].sweptAt <= r.sweptAt
    ensures Survives(limits, s, jti, before + [r], Revoke(limits, t, r))
  {
    var u := Revoke(limits, t, r);
    SurvivesOne(limits, t, jti, r);
    assert (before + [r])[..|before|] == before;
    if jti in t.entries {
      assert Behind(limits, t, jti, [], r.sweptAt) == Behind(limits, s, jti, before, r.sweptAt);
    }
    if jti in u.entries {
      SameBehindThen(limits, s, before, t, r, u, jti);
    }
    JtisLast(before + [r]);
  }

  lemma SameBehindThen(limits: Limits, s: Inner, before: seq<Revocation>, t: Inner, r: Revocation, u: Inner,
                       jti: string)
    requires jti in s.order && jti in t.order && jti in u.order
    requires before != [] && limits.ttl.Some? ==> before[|before| - 1].sweptAt <= r.sweptAt
    requires SameBehind(limits, s, before, t, jti) && SameBehind(limits, t, [r], u, jti)
    ensures SameBehind(limits, s, before + [r], u, jti)
  {
    forall now | r.sweptAt <= now || limits.ttl.None?
      ensures Behind(limits, u, jti, [], now) == Behind(limits, s, jti, before + [r], now)
    {
      BehindLast(limits, s, jti, before, r, now);
      BehindLast(limits, t, jti, [], r, now);
      assert [] + [r] == [r];
    }
  }

  lemma BehindLast(limits: Limits, s: Inner, jti: string, before: seq<Revocation>, r: Revocation, now: int)
    requires jti in s.order
    ensures Behind(limits, s, jti, before + [r], now)
         == Behind(limits, s, jti, before, now) + (if Live(limits.ttl, r.at, now) then {r.jti} else {})
  {
    var log := before + [r];
    assert log[|before|] == r && forall i :: 0 <= i < |before| ==> log[i] == before[i];
  }

  lemma SurvivesOne(limits: Limits, s: Inner, jti: string, r: Revocation)
    requires limits.maxEntries >= 1 && Agree(s) && r.jti !in s.order && r.jti != jti
    ensures var t := Revoke(limits, s, r);
            && Agree(t)
            && (jti in t.entries <==>
                  && jti in s.entries && Live(limits.ttl, s.entries[jti], r.sweptAt)
                  && |Behind(limits, s, jti, [], r.sweptAt)| < limits.maxEntries)
            && (jti in t.entries ==> t.entries[jti] == s.entries[jti] && SameBehind(limits, s, [r], t, jti))
            && (forall k :: k in t.order ==> k in s.order || k == r.jti)
  {
    var swept := SweepExpired(s, limits.ttl, r.sweptAt);
    var room := EvictOldestTo(swept, limits.maxEntries);
    SweepAgree(s, limits.ttl, r.sweptAt);
    KeepHeldMembers(s.order, LiveEntries(s.entries, limits.ttl, r.sweptAt).Keys);
    EvictionMakesRoom(swept, limits.maxEntries);
    EvictionOnlyRemoves(swept, limits.maxEntries);
    EvictedOrder(swept, limits.maxEntries);
    if jti in swept.entries {
      EvictionKeeps(swept, limits.maxEntries, jti);
      SweptNotBefore(limits, s, jti, r.sweptAt);
    }
    if jti in room.entries {
      EvictionSpares(swept, limits.maxEntries, jti);
      InsertBehind(room, jti, r);
      forall now | r.sweptAt <= now || limits.ttl.None?
        ensures Behind(limits, Insert(room, r.jti, r.at), jti, [], now) == Behind(limits, s, jti, [r], now)
      {
        LaterBehind(limits, s, room, jti, r, now);
        BehindLast(limits, s, jti, [], r, now);
        assert [] + [r] == [r];
      }
    }
  }

  // A sweep takes the expired ones out of those not before `jti`, and changes nothing else there.
  lemma SweptNotBefore(limits: Limits, s: Inner, jti: string, at: int)
    requires Agree(s) && jti in SweepExpired(s, limits.ttl, at).entries
    ensures jti in SweepExpired(s, limits.ttl, at).order
    ensures NotBefore(SweepExpired(s, limits.ttl, at), jti) == Behind(limits, s, jti, [], at)
  {
    if limits.ttl.Some? {
      var live := LiveEntries(s.entries, limits.ttl, at);
      KeepHeldMembers(s.order, live.Keys);
      KeepHeldPrefix(s.order, live.Keys, jti);
      var i := FirstSlot(s.order, jti);
      KeepHeldMembers(s.order[..i], live.Keys);
      forall k
        ensures k in NotBefore(SweepExpired(s, limits.ttl, at), jti) <==> k in Behind(limits, s, jti, [], at)
      {
      }
    }
  }

  lemma KeepHeldAround(pre: seq<string>, jti: string, post: seq<string>, held: set<string>)
    requires jti in held && jti !in pre
    ensures KeepHeld(pre + [jti] + post, held) == KeepHeld(pre, held) + [jti] + KeepHeld(post, held)
    ensures jti !in KeepHeld(pre, held) && |KeepHeld(post, held)| <= |post|
  {
    KeepHeldConcat(pre + [jti], post, held);
    KeepHeldConcat(pre, [jti], held);
    assert KeepHeld([jti], held) == [jti];
    KeepHeldMembers(pre, held);
    KeepHeldShorter(post, held);
  }

  lemma FirstSlotIs(order: seq<string>, jti: string, pre: seq<string>, post: seq<string>)
    requires order == pre + [jti] + post && jti !in pre
    ensures jti in order && FirstSlot(order, jti) == |pre|
  {
    assert order[|pre|] == jti;
    if pre != [] {
      FirstSlotIs(order[1..], jti, pre[1..], post);
    }
  }

  lemma KeepHeldPrefix(order: seq<string>, held: set<string>, jti: string)
    requires jti in order && jti in held
    ensures var kept := KeepHeld(order, held);
            jti in kept && kept[..FirstSlot(kept, jti)] == KeepHeld(order[..FirstSlot(order, jti)], held)
  {
    var pre, post := order[..FirstSlot(order, jti)], order[FirstSlot(order, jti) + 1..];
    assert order == pre + [jti] + post;
    KeepHeldAround(pre, jti, post, held);
    FirstSlotIs(KeepHeld(order, held), jti, KeepHeld(pre, held), KeepHeld(post, held));
  }

  lemma LaterBehind(limits: Limits, s: Inner, room: Inner, jti: string, r: Revocation, now: int)
    requires r.sweptAt <= now || limits.ttl.None?
    requires jti in s.order && jti in room.entries && Agree(room) && r.jti !in room.order
    requires NotBefore(room, jti) == Behind(limits, s, jti, [], r.sweptAt)
    requires forall k :: k in room.entries ==> k in s.entries && room.entries[k] == s.entries[k]
    requires NotBefore(Insert(room, r.jti, r.at), jti) == NotBefore(room, jti) + {r.jti}
    ensures Behind(limits, Insert(room, r.jti, r.at), jti, [], now)
         == Behind(limits, s, jti, [], now) + (if Live(limits.ttl, r.at, now) then {r.jti} else {})
  {
    var t := Insert(room, r.jti, r.at);
    forall k
      ensures k in Behind(limits, t, jti, [], now)
         <==> k in Behind(limits, s, jti, [], now) || (k == r.jti && Live(limits.ttl, r.at, now))
    {
      if k in NotBefore(room, jti) {
        assert k in room.entries;
      }
    }
  }

  // Nothing in the store or the log expires by `now`.
  ghost predicate Unexpired(limits: Limits, s: Inner, log: seq<Revocation>, now: int) {
    && (forall k :: k in s.entries ==> Live(limits.ttl, s.entries[k], now))
    && AllUnexpired(limits, log, now)
  }

  ghost predicate AllUnexpired(limits: Limits, log: seq<Revocation>, now: int) {
    forall i :: 0 <= i < |log| ==> Live(limits.ttl, log[i].at, now)
  }

  lemma NotYetBehind(limits: Limits, s: Inner, jti: string, before: seq<Revocation>, r: Revocation, now: int)
    requires Agree(s) && jti in s.order && r.jti !in s.order
    requires forall i :: 0 <= i < |before| ==> before[i].jti != r.jti
    ensures r.jti !in Behind(limits, s, jti, before, now)
  {
  }

  lemma UnexpiredLast(limits: Limits, s: Inner, before: seq<Revocation>, r: Revocation, now: int)
    requires Fresh(s, before + [r]) && AllUnexpired(limits, before + [r], now)
    ensures Fresh(s, before) && AllUnexpired(limits, before, now) && Live(limits.ttl, r.at, now)
    ensures r.jti !in s.order && forall i :: 0 <= i < |before| ==> before[i].jti != r.jti
  {
    var log := before + [r];
    assert log[|before|] == r && forall i :: 0 <= i < |before| ==> log[i] == before[i];
  }

  lemma {:induction false} BehindCount(limits: Limits, s: Inner, jti: string, log: seq<Revocation>, now: int)
    requires Agree(s) && jti in s.order && Fresh(s, log) && AllUnexpired(limits, log, now)
    ensures |Behind(limits, s, jti, log, now)| == |Behind(limits, s, jti, [], now)| + |log|
  {
    if log != [] {
      var before, r := log[..|log| - 1], log[|log| - 1];
      assert log == before + [r];
      UnexpiredLast(limits, s, before, r, now);
      BehindCount(limits, s, jti, before, now);
      BehindOneMore(limits, s, jti, before, r, now);
    }
  }

  lemma BehindOneMore(limits: Limits, s: Inner, jti: string, before: seq<Revocation>, r: Revocation, now: int)
    requires Agree(s) && jti in s.order && Live(limits.ttl, r.at, now) && r.jti !in s.order
    requires forall i :: 0 <= i < |before| ==> before[i].jti != r.jti
    ensures |Behind(limits, s, jti, before + [r], now)| == |Behind(limits, s, jti, before, now)| + 1
  {
    BehindLast(limits, s, jti, before, r, now);
    NotYetBehind(limits, s, jti, before, r, now);
  }

  lemma UnexpiredRoom(limits: Limits, s: Inner, jti: string, before: seq<Revocation>, r: Revocation)
    requires Agree(s) && jti in s.entries && Fresh(s, before) && Unexpired(limits, s, before, r.sweptAt)
    ensures HasRoom(limits, s, jti, before, r) <==> |NotBefore(s, jti)| + |before| < limits.maxEntries
  {
    BehindCount(limits, s, jti, before, r.sweptAt);
    assert Behind(limits, s, jti, [], r.sweptAt) == NotBefore(s, jti);
  }

  lemma {:induction false} UnexpiredAlwaysRoom(limits: Limits, s: Inner, jti: string, log: seq<Revocation>)
    requires limits.maxEntries >= 1 && Agree(s) && jti in s.entries && Fresh(s, log) && SweptInOrder(limits, log)
    requires log != [] ==> Unexpired(limits, s, log, log[|log| - 1].sweptAt)
    ensures AlwaysRoom(limits, s, jti, log) <==> log == [] || |NotBefore(s, jti)| + |log| <= limits.maxEntries
  {
    if log != [] {
      var before, r := log[..|log| - 1], log[|log| - 1];
      assert log == before + [r];
      FreshLast(limits, s, before, r);
      UnexpiredAlwaysRoom(limits, s, jti, before);
      UnexpiredRoom(limits, s, jti, before, r);
    }
  }

  // If nothing expires in between, a held jti survives exactly as many fresh revocations as there is
  // room for behind its first slot.
  lemma SurvivesUnexpired(limits: Limits, s: Inner, jti: string, log: seq<Revocation>)
    requires limits.maxEntries >= 1 && Agree(s) && jti in s.entries && Fresh(s, log) && SweptInOrder(limits, log)
    requires log != [] ==> Unexpired(limits, s, log, log[|log| - 1].sweptAt)
    ensures jti in RevokeAll(limits, s, log).entries
       <==> log == [] || |NotBefore(s, jti)| + |log| <= limits.maxEntries
  {
    SurvivesExactly(limits, s, jti, log);
    UnexpiredAlwaysRoom(limits, s, jti, log);
  }

  lemma EvictedOrder(s: Inner, maxEntries: nat)
    ensures forall k :: k in EvictOldestTo(s, maxEntries).order ==> k in s.order
    decreases |s.order|
  {
  }

  // The promise that the newest revocation outlives `maxEntries - 1` later ones holds, as long as
  // nothing expires in between, iff no held jti's first slot comes after that of the one just revoked.
  lemma NewestSurvives(limits: Limits, s: Inner, r: Revocation, log: seq<Revocation>)
    requires limits.maxEntries >= 2 && Agree(s) && |log| == limits.maxEntries - 1
    requires Fresh(Revoke(limits, s, r), log) && SweptInOrder(limits, log)
    requires Unexpired(limits, Revoke(limits, s, r), log, log[|log| - 1].sweptAt)
    ensures var t := Revoke(limits, s, r);
            && r.jti in t.order
            && (r.jti in RevokeAll(limits, t, log).entries <==> NotBefore(t, r.jti) == {r.jti})
  {
    SweepAgree(s, limits.ttl, r.sweptAt);
    EvictionMakesRoom(SweepExpired(s, limits.ttl, r.sweptAt), limits.maxEntries);
    var t := Revoke(limits, s, r);
    assert r.jti in t.entries && Agree(t);
    SurvivesUnexpired(limits, t, r.jti, log);
    AtMostOne(NotBefore(t, r.jti), r.jti);
  }

  lemma AtMostOne(jtis: set<string>, jti: string)
    requires jti in jtis
    ensures |jtis| <= 1 <==> jtis == {jti}
  {
    if jtis != {jti} {
      var other :| other in jtis && other != jti;
      Cardinality({jti, other}, jtis);
    }
  }

  // How many of the last revocations of one jti found the one before still held.
  function Unbroken(limits: Limits, log: seq<Revocation>): nat {
    var n := |log|;
    if n == 0 then 0
    else if n > 1 && limits.maxEntries > 1 && Live(limits.ttl, log[n - 2].at, log[n - 1].sweptAt)
    then Unbroken(limits, log[..n - 1]) + 1
    else 1
  }

  function Slots(jti: string, n: nat): (slots: seq<string>)
    ensures |slots| == n && forall i :: 0 <= i < n ==> slots[i] == jti
  {
    seq(n, _ => jti)
  }

  // Revocations of one jti keep one entry, and one slot for each since the jti last expired or, if the
  // bound is one, for the last alone.
  lemma {:induction false} RevokingOneJtiAgain(limits: Limits, log: seq<Revocation>, jti: string)
    requires limits.maxEntries >= 1 && log != []
    requires forall i :: 0 <= i < |log| ==> log[i].jti == jti
    ensures RevokeAll(limits, EMPTY, log) == Inner(map[jti := log[|log| - 1].at], Slots(jti, Unbroken(limits, log)))
  {
    var before, r := log[..|log| - 1], log[|log| - 1];
    if before == [] {
      assert RevokeAll(limits, EMPTY, before) == EMPTY;
      RoomInEmpty(limits, r.sweptAt);
      assert [] + [jti] == Slots(jti, 1);
    } else {
      var n, at := Unbroken(limits, before), before[|before| - 1].at;
      RevokingOneJtiAgain(limits, before, jti);
      RoomForOne(limits, Inner(map[jti := at], Slots(jti, n)), jti, at, r.sweptAt);
      assert Slots(jti, n) + [jti] == Slots(jti, n + 1) && [] + [jti] == Slots(jti, 1);
    }
  }

  lemma RoomInEmpty(limits: Limits, at: int)
    requires limits.maxEntries >= 1
    ensures MakeRoom(limits, EMPTY, at) == EMPTY
  {
    assert LiveEntries(map[], limits.ttl, at) == map[];
  }

  lemma RoomForOne(limits: Limits, s: Inner, jti: string, insertedAt: int, at: int)
    requires limits.maxEntries >= 1 && s.entries == map[jti := insertedAt]
    requires s.order != [] && forall i :: 0 <= i < |s.order| ==> s.order[i] == jti
    requires limits.maxEntries == 1 ==> |s.order| == 1
    ensures MakeRoom(limits, s, at)
         == if limits.maxEntries > 1 && Live(limits.ttl, insertedAt, at) then s else EMPTY
  {
    if Live(limits.ttl, insertedAt, at) {
      SweepIdle(limits, s, at);
      if limits.maxEntries == 1 {
        assert s.entries - {jti} == map[] && s.order[1..] == [];
        assert EvictOldestTo(s, 1) == EvictOldestTo(EMPTY, 1) == EMPTY;
      }
    } else {
      assert LiveEntries(s.entries, limits.ttl, at) == map[];
      KeepHeldNone(s.order, {});
    }
  }

  // A sweep that finds nothing expired, and no slot of a jti no longer held, changes nothing.
  lemma SweepIdle(limits: Limits, s: Inner, at: int)
    requires forall jti :: jti in s.entries ==> Live(limits.ttl, s.entries[jti], at)
    requires forall i :: 0 <= i < |s.order| ==> s.order[i] in s.entries
    ensures SweepExpired(s, limits.ttl, at) == s
  {
    if limits.ttl.Some? {
      assert LiveEntries(s.entries, limits.ttl, at) == s.entries;
      KeepHeldAll(s.order, s.entries.Keys);
    }
  }

  lemma KeepHeldNone(order: seq<string>, held: set<string>)
    requires forall i :: 0 <= i < |order| ==> order[i] !in held
    ensures KeepHeld(order, held) == []
  {
  }

  // At capacity, revoking a held jti again costs another one its entry, although none is added: the
  // one at the head of the queue is forgotten, and the store is left one below its bound.
  lemma RepetitionEvicts(limits: Limits, s: Inner, r: Revocation)
    requires limits.maxEntries >= 1 && |s.entries| == limits.maxEntries && r.jti in s.entries
    requires forall jti :: jti in s.entries ==> Live(limits.ttl, s.entries[jti], r.sweptAt)
    requires s.order != [] && s.order[0] in s.entries && s.order[0] != r.jti
    ensures var t := Revoke(limits, s, r);
            t.entries.Keys == s.entries.Keys - {s.order[0]} && |t.entries| == limits.maxEntries - 1
  {
    var swept := SweepExpired(s, limits.ttl, r.sweptAt);
    assert LiveEntries(s.entries, limits.ttl, r.sweptAt) == s.entries;
    assert swept.entries == s.entries && swept.order[0] == s.order[0];
    EvictOnce(swept, limits.maxEntries);
    assert Revoke(limits, s, r).entries.Keys == s.entries.Keys - {s.order[0]};
  }

  // `t` is `s` with `added` revoked on top, nothing evicted.
  ghost predicate Filled(s: Inner, t: Inner, added: seq<string>) {
    && t.order == s.order + added
    && (forall jti :: jti in t.entries <==> jti in s.entries || jti in added)
    && |t.entries| == |s.entries| + |added|
    && forall jti :: jti in s.entries ==> t.entries[jti] == s.entries[jti]
  }

  // Nothing has expired when a later call of the log sweeps.
  ghost predicate NoneExpires(limits: Limits, log: seq<Revocation>) {
    forall i, j :: 0 <= i < j < |log| ==> Live(limits.ttl, log[i].at, log[j].sweptAt)
  }

  // Nothing held expires by the sweeps of `log`, and there is no slot of a jti no longer held.
  ghost predicate HeldThroughout(limits: Limits, s: Inner, log: seq<Revocation>) {
    && (forall i :: 0 <= i < |s.order| ==> s.order[i] in s.entries)
    && forall jti, j :: jti in s.entries && 0 <= j < |log| ==> Live(limits.ttl, s.entries[jti], log[j].sweptAt)
  }

  ghost predicate AllHeld(s: Inner, log: seq<Revocation>) {
    forall i :: 0 <= i < |log| ==> log[i].jti in s.entries && s.entries[log[i].jti] == log[i].at
  }

  // Distinct jtis not held in `s`, and nothing expires.
  ghost predicate Fills(limits: Limits, s: Inner, log: seq<Revocation>) {
    && HeldThroughout(limits, s, log) && NoneExpires(limits, log) && Distinct(log)
    && forall i :: 0 <= i < |log| ==> log[i].jti !in s.entries
  }

  // Revocations of `log` in turn, none of them held, while there is room for all and nothing expires.
  lemma {:induction false} FillingUp(limits: Limits, s: Inner, log: seq<Revocation>)
    requires Fills(limits, s, log) && |s.entries| + |log| <= limits.maxEntries
    ensures Filled(s, RevokeAll(limits, s, log), Jtis(log)) && AllHeld(RevokeAll(limits, s, log), log)
  {
    if log == [] {
      assert s.order + Jtis([]) == s.order;
    } else {
      var before, last := log[..|log| - 1], log[|log| - 1];
      assert log == before + [last];
      FillsBefore(limits, s, before, last);
      FillingUp(limits, s, before);
      FillingNext(limits, s, before, RevokeAll(limits, s, before), last);
    }
  }

  lemma FillsBefore(limits: Limits, s: Inner, before: seq<Revocation>, last: Revocation)
    requires Fills(limits, s, before + [last])
    ensures Fills(limits, s, before) && HeldThroughout(limits, s, [last])
    ensures forall i :: 0 <= i < |before| ==> Live(limits.ttl, before[i].at, last.sweptAt)
    ensures last.jti !in s.entries && last.jti !in Jtis(before)
  {
    var log := before + [last];
    assert log[|before|] == last && forall i :: 0 <= i < |before| ==> log[i] == before[i];
  }

  lemma FillingNext(limits: Limits, s: Inner, before: seq<Revocation>, t: Inner, last: Revocation)
    requires Filled(s, t, Jtis(before)) && AllHeld(t, before) && HeldThroughout(limits, s, [last])
    requires forall i :: 0 <= i < |before| ==> Live(limits.ttl, before[i].at, last.sweptAt)
    requires last.jti !in s.entries && last.jti !in Jtis(before) && |t.entries| < limits.maxEntries
    ensures Filled(s, Revoke(limits, t, last), Jtis(before + [last]))
    ensures AllHeld(Revoke(limits, t, last), before + [last])
  {
    FilledIdle(limits, s, t, before, last);
    RoomToSpare(limits, t, last);
    FilledBy(s, t, Jtis(before), last);
    JtisLast(before + [last]);
    assert (before + [last])[..|before|] == before;
    AllHeldNext(t, before, last);
  }

  lemma AllHeldNext(t: Inner, before: seq<Revocation>, last: Revocation)
    requires AllHeld(t, before) && last.jti !in Jtis(before)
    ensures AllHeld(Inner(t.entries[last.jti := last.at], t.order + [last.jti]), before + [last])
  {
    forall i | 0 <= i < |before|
      ensures before[i].jti != last.jti
    {
      assert Jtis(before)[i] in Jtis(before);
    }
  }

  lemma FilledIdle(limits: Limits, s: Inner, t: Inner, before: seq<Revocation>, last: Revocation)
    requires Filled(s, t, Jtis(before)) && AllHeld(t, before) && HeldThroughout(limits, s, [last])
    requires forall i :: 0 <= i < |before| ==> Live(limits.ttl, before[i].at, last.sweptAt)
    ensures SweepExpired(t, limits.ttl, last.sweptAt) == t
  {
    forall i | 0 <= i < |t.order|
      ensures t.order[i] in t.entries
    {
      assert i < |s.order| ==> t.order[i] == s.order[i];
      assert i >= |s.order| ==> t.order[i] == Jtis(before)[i - |s.order|];
    }
    forall jti | jti in t.entries
      ensures Live(limits.ttl, t.entries[jti], last.sweptAt)
    {
      if jti in s.entries {
        assert Live(limits.ttl, s.entries[jti], [last][0].sweptAt);
      } else {
        var i :| 0 <= i < |before| && Jtis(before)[i] == jti;
        assert before[i].jti == jti;
      }
    }
    SweepIdle(limits, t, last.sweptAt);
  }

  lemma FilledBy(s: Inner, t: Inner, added: seq<string>, last: Revocation)
    requires Filled(s, t, added) && last.jti !in s.entries && last.jti !in added
    ensures Filled(s, Inner(t.entries[last.jti := last.at], t.order + [last.jti]), added + [last.jti])
  {
    assert t.order + [last.jti] == s.order + (added + [last.jti]);
  }

  lemma JtisLast(log: seq<Revocation>)
    requires log != []
    ensures Jtis(log) == Jtis(log[..|log| - 1]) + [log[|log| - 1].jti]
  {
  }

  lemma RoomToSpare(limits: Limits, s: Inner, r: Revocation)
    requires SweepExpired(s, limits.ttl, r.sweptAt) == s && |s.entries| < limits.maxEntries && r.jti !in s.entries
    ensures Revoke(limits, s, r) == Inner(s.entries[r.jti := r.at], s.order + [r.jti])
    ensures Revoke(limits, s, r).entries.Keys == s.entries.Keys + {r.jti}
    ensures |Revoke(limits, s, r).entries| == |s.entries| + 1
  {
  }

  function Jtis(log: seq<Revocation>): (jtis: seq<string>)
    ensures |jtis| == |log|
    ensures forall i :: 0 <= i < |log| ==> jtis[i] == log[i].jti
  {
    seq(|log|, i requires 0 <= i < |log| => log[i].jti)
  }

  ghost predicate Distinct(log: seq<Revocation>) {
    forall i, j :: 0 <= i < j < |log| ==> log[i].jti != log[j].jti
  }

  lemma RevokeAllSplit(limits: Limits, s: Inner, a: seq<Revocation>, b: seq<Revocation>)
    ensures RevokeAll(limits, s, a + b) == RevokeAll(limits, RevokeAll(limits, s, a), b)
  {
    if b == [] {
      assert a + b == a;
    } else {
      assert (a + b)[..|a + b| - 1] == a + b[..|b| - 1];
      RevokeAllSplit(limits, s, a, b[..|b| - 1]);
    }
  }

  // For every bound of at least two, as long as nothing expires in between: revoke `jti` twice, fill up
  // with `others`, revoke `jti` once more. It is now the most recent revocation, and the very next one
  // makes it valid again while every older one stays.
  lemma NewestEvictedFirst(limits: Limits, twice: seq<Revocation>, others: seq<Revocation>,
                           again: Revocation, next: Revocation)
    requires limits.maxEntries >= 2 && NoneExpires(limits, twice + others + [again] + [next])
    requires |twice| == 2 && twice[0].jti == twice[1].jti == again.jti
    requires |others| == limits.maxEntries - 1 && Distinct(others)
    requires again.jti !in Jtis(others) && next.jti != again.jti
    ensures var s := RevokeAll(limits, EMPTY, twice + others + [again]);
            var t := Revoke(limits, s, next);
            && (forall now :: IsRevoked(s, limits.ttl, again.jti, now) <==> Live(limits.ttl, again.at, now))
            && (forall now :: !IsRevoked(t, limits.ttl, again.jti, now))
            && (forall i, now :: 0 <= i < |others| ==>
                  var at := if others[i].jti == next.jti then next.at else others[i].at;
                  IsRevoked(t, limits.ttl, others[i].jti, now) <==> Live(limits.ttl, at, now))
  {
    var history := twice + others;
    NoneExpiresBefore(limits, history + [again], next);
    NoneExpiresBefore(limits, history, again);
    TwiceThenFull(limits, twice, others);
    var s1 := RevokeAll(limits, EMPTY, history);
    assert (history + [again])[..|history|] == history;
    FullIdle(limits, s1, twice, others, again.sweptAt);
    EvictOnce(s1, limits.maxEntries);
    var s := Insert(Inner(s1.entries - {again.jti}, s1.order[1..]), again.jti, again.at);
    assert s == RevokeAll(limits, EMPTY, history + [again]);
    AgainIdle(limits, s, s1, twice, others, again, next.sweptAt);
    OlderSlotFirst(limits, s, s1, again, next);
    forall i | 0 <= i < |others|
      ensures others[i].jti in s1.entries && others[i].jti != again.jti
    {
      assert Jtis(others)[i] in Jtis(others);
    }
  }

  lemma NoneExpiresBefore(limits: Limits, before: seq<Revocation>, r: Revocation)
    requires NoneExpires(limits, before + [r])
    ensures NoneExpires(limits, before)
    ensures forall i :: 0 <= i < |before| ==> Live(limits.ttl, before[i].at, r.sweptAt)
  {
    var log := before + [r];
    assert log[|before|] == r && forall i :: 0 <= i < |before| ==> log[i] == before[i];
  }

  // The store after `twice` and `others`.
  ghost predicate Full(limits: Limits, s: Inner, twice: seq<Revocation>, others: seq<Revocation>)
    requires |twice| == 2
  {
    && |s.entries| == limits.maxEntries
    && s.order == [twice[0].jti, twice[0].jti] + Jtis(others)
    && (forall jti :: jti in s.entries <==> jti == twice[0].jti || jti in Jtis(others))
    && s.entries[twice[0].jti] == twice[1].at
    && AllHeld(s, others)
  }

  lemma TwiceThenFull(limits: Limits, twice: seq<Revocation>, others: seq<Revocation>)
    requires limits.maxEntries >= 2 && NoneExpires(limits, twice + others)
    requires |twice| == 2 && twice[0].jti == twice[1].jti && twice[0].jti !in Jtis(others)
    requires |others| == limits.maxEntries - 1 && Distinct(others)
    ensures Full(limits, RevokeAll(limits, EMPTY, twice + others), twice, others)
  {
    var jti := twice[0].jti;
    TwiceFirst(limits, twice, others);
    RevokingOneJtiAgain(limits, twice, jti);
    var s := RevokeAll(limits, EMPTY, twice);
    assert Unbroken(limits, twice[..1]) == 1 && s.order == [jti, jti] && s.entries.Keys == {jti};
    assert Fills(limits, s, others);
    FillingUp(limits, s, others);
    RevokeAllSplit(limits, EMPTY, twice, others);
  }

  lemma TwiceFirst(limits: Limits, twice: seq<Revocation>, others: seq<Revocation>)
    requires |twice| == 2 && NoneExpires(limits, twice + others) && twice[0].jti !in Jtis(others)
    ensures Live(limits.ttl, twice[0].at, twice[1].sweptAt) && NoneExpires(limits, others)
    ensures forall i :: 0 <= i < |others| ==>
              Live(limits.ttl, twice[1].at, others[i].sweptAt) && others[i].jti != twice[0].jti
  {
    var log := twice + others;
    assert log[0] == twice[0] && log[1] == twice[1] && forall i :: 0 <= i < |others| ==> log[i + 2] == others[i];
    forall i | 0 <= i < |others|
      ensures others[i].jti != twice[0].jti
    {
      assert Jtis(others)[i] in Jtis(others);
    }
  }

  lemma FullLive(limits: Limits, s: Inner, twice: seq<Revocation>, others: seq<Revocation>, at: int)
    requires |twice| == 2 && Full(limits, s, twice, others)
    requires forall i :: 0 <= i < |twice + others| ==> Live(limits.ttl, (twice + others)[i].at, at)
    ensures forall jti :: jti in s.entries ==> Live(limits.ttl, s.entries[jti], at)
  {
    var log := twice + others;
    assert log[1] == twice[1] && forall i :: 0 <= i < |others| ==> log[i + 2] == others[i];
    forall jti | jti in s.entries
      ensures Live(limits.ttl, s.entries[jti], at)
    {
      if jti != twice[0].jti {
        var i :| 0 <= i < |others| && Jtis(others)[i] == jti;
        assert others[i].jti == jti;
      }
    }
  }

  lemma FullIdle(limits: Limits, s: Inner, twice: seq<Revocation>, others: seq<Revocation>, at: int)
    requires |twice| == 2 && Full(limits, s, twice, others)
    requires forall i :: 0 <= i < |twice + others| ==> Live(limits.ttl, (twice + others)[i].at, at)
    ensures SweepExpired(s, limits.ttl, at) == s
  {
    FullLive(limits, s, twice, others, at);
    FullHeld(limits, s, twice, others);
    SweepIdle(limits, s, at);
  }

  lemma FullHeld(limits: Limits, s: Inner, twice: seq<Revocation>, others: seq<Revocation>)
    requires |twice| == 2 && Full(limits, s, twice, others)
    ensures forall i :: 0 <= i < |s.order| ==> s.order[i] in s.entries
  {
    forall i | 0 <= i < |s.order|
      ensures s.order[i] in s.entries
    {
      assert i >= 2 ==> s.order[i] == Jtis(others)[i - 2];
    }
  }

  lemma AgainIdle(limits: Limits, s: Inner, full: Inner, twice: seq<Revocation>, others: seq<Revocation>,
                  again: Revocation, at: int)
    requires |twice| == 2 && twice[0].jti == again.jti && Full(limits, full, twice, others)
    requires s == Insert(Inner(full.entries - {again.jti}, full.order[1..]), again.jti, again.at)
    requires forall i :: 0 <= i < |twice + others + [again]| ==> Live(limits.ttl, (twice + others + [again])[i].at, at)
    ensures SweepExpired(s, limits.ttl, at) == s
  {
    var log := twice + others + [again];
    assert log[|log| - 1] == again && forall i :: 0 <= i < |twice + others| ==> log[i] == (twice + others)[i];
    FullLive(limits, full, twice, others, at);
    FullHeld(limits, full, twice, others);
    assert s.entries.Keys == full.entries.Keys;
    forall i | 0 <= i < |s.order|
      ensures s.order[i] in s.entries
    {
      assert i < |s.order| - 1 ==> s.order[i] == full.order[i + 1];
    }
    SweepIdle(limits, s, at);
  }

  // At capacity, with an older slot of `again` still at the head of the queue.
  lemma OlderSlotFirst(limits: Limits, s: Inner, full: Inner, again: Revocation, next: Revocation)
    requires |full.entries| == limits.maxEntries >= 2 && next.jti != again.jti
    requires |full.order| >= 2 && full.order[0] == full.order[1] == again.jti && again.jti in full.entries
    requires s == Insert(Inner(full.entries - {again.jti}, full.order[1..]), again.jti, again.at)
    requires SweepExpired(s, limits.ttl, next.sweptAt) == s
    ensures again.jti in s.entries && s.entries[again.jti] == again.at
    ensures again.jti !in Revoke(limits, s, next).entries
    ensures forall jti :: jti in full.entries && jti != again.jti ==>
              && jti in Revoke(limits, s, next).entries
              && (jti != next.jti ==> Revoke(limits, s, next).entries[jti] == full.entries[jti])
  {
    assert s.entries.Keys == full.entries.Keys;
    assert s.order[0] == again.jti;
    EvictOnce(s, limits.maxEntries);
  }

  lemma EvictOnce(s: Inner, maxEntries: nat)
    requires s.order != [] && s.order[0] in s.entries && |s.entries| == maxEntries
    ensures EvictOldestTo(s, maxEntries) == Inner(s.entries - {s.order[0]}, s.order[1..])
    ensures |s.entries - {s.order[0]}| == maxEntries - 1
  {
    assert (s.entries - {s.order[0]}).Keys == s.entries.Keys - {s.order[0]};
  }

  lemma NoRoomLeft(limits: Limits, s: Inner, jti: string, before: seq<Revocation>, r: Revocation)
    requires Agree(s) && jti in s.entries && Fresh(s, before) && |before| + 1 >= limits.maxEntries
    requires AllUnexpired(limits, before, r.sweptAt)
    ensures !HasRoom(limits, s, jti, before, r)
  {
    if Live(limits.ttl, s.entries[jti], r.sweptAt) {
      BehindCount(limits, s, jti, before, r.sweptAt);
      assert jti in Behind(limits, s, jti, [], r.sweptAt);
    }
  }

  // From every state, `maxEntries` new revocations within one time to live forget whatever was held.
  lemma FloodForgets(limits: Limits, s: Inner, jti: string, flood: seq<Revocation>)
    requires limits.maxEntries >= 1 && Agree(s) && |flood| >= limits.maxEntries
    requires jti in s.entries && Fresh(s, flood) && SweptInOrder(limits, flood)
    requires AllUnexpired(limits, flood, flood[|flood| - 1].sweptAt)
    ensures jti !in RevokeAll(limits, s, flood).entries
  {
    var before, r := flood[..|flood| - 1], flood[|flood| - 1];
    assert flood == before + [r];
    FreshLast(limits, s, before, r);
    SurvivesExactly(limits, s, jti, flood);
    NoRoomLeft(limits, s, jti, before, r);
  }
}
