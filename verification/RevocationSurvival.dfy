/**
 Exactly when a held jti survives other calls, over every sequence of critical sections: sweeps, rooms
 and insertions of any calls in any order.
 */
module RevocationSurvival {
  import opened Wrappers
  import opened RevocationState
  import opened RevocationEviction
  import opened RevocationInterleaving

  function PutJtis(es: seq<Event>): set<string> {
    if es == [] then {}
    else PutJtis(es[..|es| - 1]) + (if es[|es| - 1].Put? then {es[|es| - 1].jti} else {})
  }

  // The inserted jtis that have not expired at `now`.
  function PutAlive(limits: Limits, es: seq<Event>, now: int): set<string> {
    if es == [] then {}
    else
      var e := es[|es| - 1];
      PutAlive(limits, es[..|es| - 1], now) + (if e.Put? && Live(limits.ttl, e.at, now) then {e.jti} else {})
  }

  // Distinct insertions, none of which has a slot yet.
  ghost predicate FreshPuts(s: Inner, es: seq<Event>) {
    es != [] ==>
      var before, e := es[..|es| - 1], es[|es| - 1];
      FreshPuts(s, before) && (e.Put? ==> e.jti !in s.order && e.jti !in PutJtis(before))
  }

  // All sweeps of `es` are over at `now`; without a time to live the times do not matter.
  ghost predicate SweptBy(limits: Limits, es: seq<Event>, now: int) {
    limits.ttl.Some? ==> forall k :: 0 <= k < |es| && !es[k].Put? ==> es[k].at <= now
  }

  ghost predicate SweepsInOrder(limits: Limits, es: seq<Event>) {
    es != [] ==>
      var before, e := es[..|es| - 1], es[|es| - 1];
      SweepsInOrder(limits, before) && (!e.Put? ==> SweptBy(limits, before, e.at))
  }

  // What has not expired of the jtis not before `jti` and of the insertions behind them.
  function Stands(limits: Limits, s: Inner, jti: string, es: seq<Event>, now: int): set<string>
    requires jti in s.order
  {
    Behind(limits, s, jti, [], now) + PutAlive(limits, es, now)
  }

  // The critical section `e`, after those of `before`, does not take `jti`.
  ghost predicate Spares(limits: Limits, s: Inner, jti: string, before: seq<Event>, e: Event)
    requires jti in s.order && jti in s.entries
  {
    && (!e.Put? ==> Live(limits.ttl, s.entries[jti], e.at))
    && (e.Room? ==> |Stands(limits, s, jti, before, e.at)| < limits.maxEntries)
  }

  ghost predicate AlwaysSpares(limits: Limits, s: Inner, jti: string, es: seq<Event>)
    requires jti in s.order && jti in s.entries
  {
    es != [] ==>
      AlwaysSpares(limits, s, jti, es[..|es| - 1]) && Spares(limits, s, jti, es[..|es| - 1], es[|es| - 1])
  }

  // From the last sweep of `es` on, what stands behind `jti` in `t` is what `es` left standing or added.
  ghost predicate StillBehind(limits: Limits, s: Inner, es: seq<Event>, t: Inner, jti: string)
    requires jti in s.order && jti in t.order
  {
    forall now :: SweptBy(limits, es, now) ==> Behind(limits, t, jti, [], now) == Stands(limits, s, jti, es, now)
  }

  ghost predicate Outlives(limits: Limits, s: Inner, jti: string, es: seq<Event>, t: Inner)
    requires jti in s.order && jti in s.entries
  {
    && Agree(t) && (jti in t.entries <==> AlwaysSpares(limits, s, jti, es))
    && (jti in t.entries ==> t.entries[jti] == s.entries[jti] && StillBehind(limits, s, es, t, jti))
    && (forall k :: k in t.order ==> k in s.order || k in PutJtis(es))
  }

  // The exact law of survival, from every state the store can be in: a held jti survives fresh
  // insertions iff at every critical section in between it has not expired and, where room is made,
  // what has not expired behind its first slot fits the bound.
  lemma {:induction false} OutlivesExactly(limits: Limits, s: Inner, jti: string, es: seq<Event>)
    requires limits.maxEntries >= 1 && Agree(s) && jti in s.entries
    requires FreshPuts(s, es) && SweepsInOrder(limits, es)
    ensures jti in ApplyAll(limits, s, es).entries <==> AlwaysSpares(limits, s, jti, es)
    ensures Outlives(limits, s, jti, es, ApplyAll(limits, s, es))
  {
    if es != [] {
      var before, e := es[..|es| - 1], es[|es| - 1];
      assert es == before + [e];
      OutlivesExactly(limits, s, jti, before);
      var t := ApplyAll(limits, s, before);
      match e
      case Put(other, at) => OutlivesPut(limits, s, jti, before, t, other, at);
      case Sweep(at) => OutlivesSweep(limits, s, jti, before, t, at);
      case Room(at) => OutlivesRoom(limits, s, jti, before, t, at);
    }
  }

  lemma OutlivesPut(limits: Limits, s: Inner, jti: string, before: seq<Event>, t: Inner, other: string, at: int)
    requires Agree(s) && jti in s.entries && Outlives(limits, s, jti, before, t)
    requires other !in s.order && other !in PutJtis(before)
    ensures Outlives(limits, s, jti, before + [Put(other, at)], Insert(t, other, at))
  {
    var es, u := before + [Put(other, at)], Insert(t, other, at);
    assert es[..|before|] == before;
    if jti in t.entries {
      InsertBehind(t, jti, Revocation(other, at, at));
      forall now | SweptBy(limits, es, now)
        ensures Behind(limits, u, jti, [], now) == Stands(limits, s, jti, es, now)
      {
        SweptByBefore(limits, before, Put(other, at), now);
        PutBehind(limits, t, jti, other, at, now);
      }
    }
  }

  lemma SweptByBefore(limits: Limits, before: seq<Event>, e: Event, now: int)
    requires SweptBy(limits, before + [e], now)
    ensures SweptBy(limits, before, now)
    ensures limits.ttl.Some? && !e.Put? ==> e.at <= now
  {
    var es := before + [e];
    assert es[|before|] == e && forall k :: 0 <= k < |before| ==> es[k] == before[k];
  }

  lemma PutBehind(limits: Limits, t: Inner, jti: string, other: string, at: int, now: int)
    requires jti in t.order && other !in t.order && Agree(t)
    requires jti in Insert(t, other, at).order
    requires NotBefore(Insert(t, other, at), jti) == NotBefore(t, jti) + {other}
    ensures Behind(limits, Insert(t, other, at), jti, [], now)
         == Behind(limits, t, jti, [], now) + (if Live(limits.ttl, at, now) then {other} else {})
  {
    forall k
      ensures k in Behind(limits, Insert(t, other, at), jti, [], now)
         <==> k in Behind(limits, t, jti, [], now) || (k == other && Live(limits.ttl, at, now))
    {
    }
  }

  lemma OutlivesSweep(limits: Limits, s: Inner, jti: string, before: seq<Event>, t: Inner, at: int)
    requires Agree(s) && jti in s.entries && Outlives(limits, s, jti, before, t) && SweptBy(limits, before, at)
    ensures Outlives(limits, s, jti, before + [Sweep(at)], SweepExpired(t, limits.ttl, at))
  {
    var es, u := before + [Sweep(at)], SweepExpired(t, limits.ttl, at);
    assert es[..|before|] == before;
    SweepAgree(t, limits.ttl, at);
    KeepHeldMembers(t.order, LiveEntries(t.entries, limits.ttl, at).Keys);
    if jti in u.entries {
      SweptNotBefore(limits, t, jti, at);
      UnsweptBehind(limits, s, before, Sweep(at), t, u, jti);
    }
  }

  // What making room does to a held jti: it stays iff it has not expired and what has not expired
  // behind its first slot fits; then nothing of that is lost.
  lemma RoomSpares(limits: Limits, t: Inner, jti: string, at: int)
    requires limits.maxEntries >= 1 && Agree(t) && jti in t.entries
    ensures var u := MakeRoom(limits, t, at);
            && (jti in u.entries <==>
                  Live(limits.ttl, t.entries[jti], at) && |Behind(limits, t, jti, [], at)| < limits.maxEntries)
            && (jti in u.entries ==> jti in u.order && NotBefore(u, jti) == Behind(limits, t, jti, [], at))
  {
    var swept := SweepExpired(t, limits.ttl, at);
    SweepAgree(t, limits.ttl, at);
    EvictionOnlyRemoves(swept, limits.maxEntries);
    if jti in swept.entries {
      SweptNotBefore(limits, t, jti, at);
      EvictionKeeps(swept, limits.maxEntries, jti);
    }
    if jti in MakeRoom(limits, t, at).entries {
      EvictionSpares(swept, limits.maxEntries, jti);
    }
  }

  lemma RoomOnlyRemoves(limits: Limits, t: Inner, at: int)
    requires limits.maxEntries >= 1 && Agree(t)
    ensures var u := MakeRoom(limits, t, at);
            && Agree(u)
            && (forall k :: k in u.entries ==> k in t.entries && u.entries[k] == t.entries[k])
            && (forall k :: k in u.order ==> k in t.order)
  {
    EvictionOnlyRemoves(SweepExpired(t, limits.ttl, at), limits.maxEntries);
    RoomShrinks(limits, t, at);
  }

  lemma OutlivesRoom(limits: Limits, s: Inner, jti: string, before: seq<Event>, t: Inner, at: int)
    requires limits.maxEntries >= 1 && Agree(s) && jti in s.entries && Outlives(limits, s, jti, before, t)
    requires SweptBy(limits, before, at)
    ensures Outlives(limits, s, jti, before + [Room(at)], MakeRoom(limits, t, at))
  {
    var es, u := before + [Room(at)], MakeRoom(limits, t, at);
    assert es[..|before|] == before;
    RoomOnlyRemoves(limits, t, at);
    if jti in t.entries {
      RoomSpares(limits, t, jti, at);
      assert Behind(limits, t, jti, [], at) == Stands(limits, s, jti, before, at);
    }
    if jti in u.entries {
      UnsweptBehind(limits, s, before, Room(at), t, u, jti);
    }
  }

  // Whatever else `e` took, it left behind `jti` what had not expired.
  lemma UnsweptBehind(limits: Limits, s: Inner, before: seq<Event>, e: Event, t: Inner, u: Inner, jti: string)
    requires jti in s.order && jti in t.order && jti in u.order && !e.Put?
    requires StillBehind(limits, s, before, t, jti) && NotBefore(u, jti) == Behind(limits, t, jti, [], e.at)
    requires forall k :: k in u.entries ==> k in t.entries && u.entries[k] == t.entries[k]
    ensures StillBehind(limits, s, before + [e], u, jti)
  {
    assert (before + [e])[..|before|] == before;
    forall now | SweptBy(limits, before + [e], now)
      ensures Behind(limits, u, jti, [], now) == Stands(limits, s, jti, before + [e], now)
    {
      SweptByBefore(limits, before, e, now);
      LaterUnexpired(limits, t, u, jti, e.at, now);
    }
  }

  lemma LaterUnexpired(limits: Limits, t: Inner, u: Inner, jti: string, at: int, now: int)
    requires jti in t.order && jti in u.order && NotBefore(u, jti) == Behind(limits, t, jti, [], at)
    requires forall k :: k in u.entries ==> k in t.entries && u.entries[k] == t.entries[k]
    requires limits.ttl.None? || at <= now
    ensures Behind(limits, u, jti, [], now) == Behind(limits, t, jti, [], now)
  {
    forall k
      ensures k in Behind(limits, u, jti, [], now) <==> k in Behind(limits, t, jti, [], now)
    {
      if k in Behind(limits, t, jti, [], now) {
        assert k in Behind(limits, t, jti, [], at);
        assert k in u.entries;
      }
      if k in Behind(limits, u, jti, [], now) {
        assert k in NotBefore(u, jti);
      }
    }
  }

  lemma {:induction false} PutsCount(limits: Limits, s: Inner, es: seq<Event>, now: int)
    requires FreshPuts(s, es) && forall k :: 0 <= k < |es| && es[k].Put? ==> Live(limits.ttl, es[k].at, now)
    ensures PutAlive(limits, es, now) == PutJtis(es) && |PutJtis(es)| == Puts(es)
    ensures forall jti :: jti in PutJtis(es) ==> jti !in s.order
  {
    if es != [] {
      PutsCount(limits, s, es[..|es| - 1], now);
    }
  }

  lemma RoomLeftLast(limits: Limits, before: seq<Event>, e: Event)
    ensures RoomLeft(limits, before + [e])
       <==> RoomLeft(limits, before) && (e.Room? ==> Puts(before) + 1 < limits.maxEntries)
  {
    var es := before + [e];
    assert es[..|before|] == before && es[|before|] == e;
    forall k | 0 <= k < |before|
      ensures es[..k] == before[..k] && es[k] == before[k]
    {
    }
    if RoomLeft(limits, before) && (e.Room? ==> Puts(before) + 1 < limits.maxEntries) {
      RoomLeftThen(limits, before, e);
    }
    if RoomLeft(limits, es) {
      forall k | 0 <= k < |before| && before[k].Room?
        ensures Puts(before[..k]) + 1 < limits.maxEntries
      {
        assert es[k].Room?;
      }
    }
  }

  // The insertion of a jti without an older slot: only it stands there.
  lemma AloneBehind(limits: Limits, s: Inner, jti: string, at: int, now: int)
    requires Agree(s) && jti !in s.order && Live(limits.ttl, at, now)
    ensures Behind(limits, Insert(s, jti, at), jti, [], now) == {jti}
  {
    var t := Insert(s, jti, at);
    FirstSlotIs(t.order, jti, s.order, []);
    assert t.order[..|s.order|] == s.order;
    assert NotBefore(t, jti) == {jti};
  }

  lemma StandsCount(limits: Limits, s: Inner, jti: string, at: int, before: seq<Event>, now: int)
    requires Agree(s) && jti !in s.order && FreshPuts(Insert(s, jti, at), before) && Live(limits.ttl, at, now)
    requires forall k :: 0 <= k < |before| && before[k].Put? ==> Live(limits.ttl, before[k].at, now)
    ensures |Stands(limits, Insert(s, jti, at), jti, before, now)| == 1 + Puts(before)
  {
    AloneBehind(limits, s, jti, at, now);
    PutsCount(limits, Insert(s, jti, at), before, now);
    assert jti in Insert(s, jti, at).order;
    assert Stands(limits, Insert(s, jti, at), jti, before, now) == {jti} + PutJtis(before);
  }

  lemma BetweenBefore(limits: Limits, before: seq<Event>, e: Event, from: int, to: int)
    requires Between(before + [e], from, to) && (limits.ttl.Some? ==> to - from < limits.ttl.value)
    ensures Between(before, from, to) && from <= e.at <= to && Live(limits.ttl, from, e.at)
    ensures forall k :: 0 <= k < |before| ==> Live(limits.ttl, before[k].at, e.at)
  {
    var es := before + [e];
    assert es[|before|] == e && forall k :: 0 <= k < |before| ==> es[k] == before[k];
  }

  lemma {:induction false} SparesIfRoomLeft(limits: Limits, s: Inner, jti: string, at: int, es: seq<Event>, now: int)
    requires Agree(s) && jti !in s.order && FreshPuts(Insert(s, jti, at), es)
    requires Between(es, at, now) && (limits.ttl.Some? ==> now - at < limits.ttl.value)
    ensures AlwaysSpares(limits, Insert(s, jti, at), jti, es) <==> RoomLeft(limits, es)
  {
    if es != [] {
      var before, e := es[..|es| - 1], es[|es| - 1];
      assert es == before + [e];
      BetweenBefore(limits, before, e, at, now);
      SparesIfRoomLeft(limits, s, jti, at, before, now);
      RoomLeftLast(limits, before, e);
      StandsCount(limits, s, jti, at, before, e.at);
    }
  }

  // Within its time to live a jti inserted without an older slot reads as revoked, in every
  // interleaving with fresh insertions, iff room was left behind it whenever other calls made room.
  lemma StaysRevokedExactly(limits: Limits, s: Inner, jti: string, at: int, later: seq<Event>, now: int)
    requires limits.maxEntries >= 1 && Agree(s) && jti !in s.order
    requires FreshPuts(Insert(s, jti, at), later) && SweepsInOrder(limits, later)
    requires at <= now && Between(later, at, now) && (limits.ttl.Some? ==> now - at < limits.ttl.value)
    ensures IsRevoked(ApplyAll(limits, Insert(s, jti, at), later), limits.ttl, jti, now) <==> RoomLeft(limits, later)
  {
    OutlivesExactly(limits, Insert(s, jti, at), jti, later);
    SparesIfRoomLeft(limits, s, jti, at, later, now);
  }
}
