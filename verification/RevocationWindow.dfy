/**
 The map and the queue refine a window on the log: as long as no call repeats a jti that is still
 held, a jti is revoked exactly when one of the last `maxEntries` revocations names it and is
 younger than the time to live.
 */
module RevocationWindow {
  import opened Wrappers
  import opened RevocationState
  import opened RevocationEviction

  // The simple form: no map, no queue, only the log of calls.
  ghost predicate RevokedInWindow(limits: Limits, log: seq<Revocation>, jti: string, now: int) {
    exists i :: |log| - limits.maxEntries <= i < |log| && 0 <= i
             && log[i].jti == jti && Live(limits.ttl, log[i].at, now)
  }

  // The clock never runs backwards along a sequential history.
  ghost predicate InOrder(log: seq<Revocation>) {
    && (forall i :: 0 <= i < |log| ==> log[i].sweptAt <= log[i].at)
    && (forall i, j :: 0 <= i < j < |log| ==> log[i].at <= log[j].sweptAt)
  }

  // No call repeats a jti that is still held once room has been made for it.
  ghost predicate NeverRepeats(limits: Limits, log: seq<Revocation>) {
    log != [] ==>
      var before, r := log[..|log| - 1], log[|log| - 1];
      && NeverRepeats(limits, before)
      && r.jti !in MakeRoom(limits, RevokeAll(limits, EMPTY, before), r.sweptAt).entries
  }

  // The store shows exactly the log from position `k` on.
  ghost predicate Shows(s: Inner, log: seq<Revocation>, k: nat) {
    && k <= |log|
    && |s.order| == |log| - k
    && (forall i :: k <= i < |log| ==> s.order[i - k] == log[i].jti)
    && (forall i, j :: k <= i < j < |log| ==> log[i].jti != log[j].jti)
    && (forall i :: k <= i < |log| ==> log[i].jti in s.entries && s.entries[log[i].jti] == log[i].at)
    && (forall jti :: jti in s.entries ==> jti in s.order)
  }

  // Positions of the window the store no longer shows are past their time to live.
  ghost predicate Dropped(limits: Limits, log: seq<Revocation>, k: nat, now: int) {
    forall i :: |log| - limits.maxEntries <= i < k && 0 <= i < |log| ==> !Live(limits.ttl, log[i].at, now)
  }

  lemma ShowsSize(s: Inner, log: seq<Revocation>, k: nat)
    requires Shows(s, log, k)
    ensures |s.entries| == |log| - k
    decreases |log| - k
  {
    if k == |log| {
      assert s.order == [];
      assert s.entries.Keys == {};
    } else {
      ShowsNext(s, log, k);
      ShowsSize(Inner(s.entries - {log[k].jti}, s.order[1..]), log, k + 1);
      assert (s.entries - {log[k].jti}).Keys == s.entries.Keys - {log[k].jti};
    }
  }

  // Dropping the oldest shown jti shows the log from the next position on.
  lemma ShowsNext(s: Inner, log: seq<Revocation>, k: nat)
    requires Shows(s, log, k) && k < |log|
    ensures s.order[0] == log[k].jti
    ensures Shows(Inner(s.entries - {log[k].jti}, s.order[1..]), log, k + 1)
  {
    assert s.order[k - k] == log[k].jti;
    var rest := Inner(s.entries - {log[k].jti}, s.order[1..]);
    forall i | k + 1 <= i < |log|
      ensures rest.order[i - (k + 1)] == log[i].jti
    {
      assert s.order[i - k] == log[i].jti;
    }
    assert s.order == [s.order[0]] + s.order[1..];
  }

  lemma EvictShows(s: Inner, log: seq<Revocation>, k: nat, maxEntries: nat) returns (k': nat)
    requires Shows(s, log, k) && maxEntries >= 1
    ensures Shows(EvictOldestTo(s, maxEntries), log, k')
    ensures k' == if |log| - k < maxEntries then k else |log| - maxEntries + 1
    decreases |log| - k
  {
    ShowsSize(s, log, k);
    if |s.entries| < maxEntries {
      k' := k;
    } else {
      ShowsNext(s, log, k);
      k' := EvictShows(Inner(s.entries - {log[k].jti}, s.order[1..]), log, k + 1, maxEntries);
    }
  }

  // A sweep drops a prefix: revocations are shown in the order they were made.
  lemma SweepShows(s: Inner, log: seq<Revocation>, k: nat, ttl: Option<nat>, now: int) returns (k': nat)
    requires Shows(s, log, k) && InOrder(log)
    ensures k <= k' && Shows(SweepExpired(s, ttl, now), log, k')
    ensures forall i :: k <= i < k' && i < |log| ==> !Live(ttl, log[i].at, now)
    decreases |log| - k
  {
    if k == |log| || Live(ttl, log[k].at, now) {
      k' := k;
      forall i | k <= i < |log|
        ensures Live(ttl, s.entries[log[i].jti], now)
      {
      }
      AllLive(s, log, k, ttl, now);
    } else {
      ShowsNext(s, log, k);
      var rest := Inner(s.entries - {log[k].jti}, s.order[1..]);
      k' := SweepShows(rest, log, k + 1, ttl, now);
      var live := LiveEntries(s.entries, ttl, now);
      assert LiveEntries(rest.entries, ttl, now) == live;
      assert s.order == [s.order[0]] + s.order[1..];
      assert log[k].jti !in live;
      assert SweepExpired(s, ttl, now) == SweepExpired(rest, ttl, now);
    }
  }

  lemma AllLive(s: Inner, log: seq<Revocation>, k: nat, ttl: Option<nat>, now: int)
    requires Shows(s, log, k)
    requires forall i :: k <= i < |log| ==> Live(ttl, s.entries[log[i].jti], now)
    ensures SweepExpired(s, ttl, now) == s
  {
    if ttl.Some? {
      forall jti | jti in s.entries
        ensures Live(ttl, s.entries[jti], now)
      {
        var n :| 0 <= n < |s.order| && s.order[n] == jti;
        assert s.order[k + n - k] == log[k + n].jti;
      }
      assert LiveEntries(s.entries, ttl, now) == s.entries;
      forall n | 0 <= n < |s.order|
        ensures s.order[n] in s.entries
      {
        assert s.order[k + n - k] == log[k + n].jti;
      }
      KeepHeldAll(s.order, s.entries.Keys);
    }
  }

  // The refinement relation holds after every call of a history without repetitions.
  lemma {:induction false} HistoryShows(limits: Limits, log: seq<Revocation>) returns (k: nat)
    requires limits.maxEntries >= 1 && InOrder(log) && NeverRepeats(limits, log)
    ensures Shows(RevokeAll(limits, EMPTY, log), log, k)
    ensures |log| - limits.maxEntries <= k
    ensures log != [] ==> Dropped(limits, log, k, log[|log| - 1].at)
    decreases |log|
  {
    if log == [] {
      k := 0;
    } else {
      var before, r := log[..|log| - 1], log[|log| - 1];
      assert before + [r] == log;
      BeforeInOrder(before, r);
      var k0 := HistoryShows(limits, before);
      k := RevokeShows(limits, RevokeAll(limits, EMPTY, before), before, k0, r);
    }
  }

  lemma RevokeShows(limits: Limits, s: Inner, before: seq<Revocation>, k0: nat, r: Revocation) returns (k: nat)
    requires limits.maxEntries >= 1 && InOrder(before + [r])
    requires Shows(s, before, k0) && |before| - limits.maxEntries <= k0
    requires before != [] ==> Dropped(limits, before, k0, before[|before| - 1].at)
    requires r.jti !in MakeRoom(limits, s, r.sweptAt).entries
    ensures Shows(Revoke(limits, s, r), before + [r], k)
    ensures |before + [r]| - limits.maxEntries <= k
    ensures Dropped(limits, before + [r], k, r.at)
  {
    var log := before + [r];
    BeforeInOrder(before, r);
    var k1 := SweepShows(s, before, k0, limits.ttl, r.sweptAt);
    k := EvictShows(SweepExpired(s, limits.ttl, r.sweptAt), before, k1, limits.maxEntries);
    ShowsInsert(MakeRoom(limits, s, r.sweptAt), before, k, r);
    forall i | |log| - limits.maxEntries <= i < k && 0 <= i < |log|
      ensures !Live(limits.ttl, log[i].at, r.at)
    {
      assert log[i] == before[i] && before[|before| - 1].at <= r.sweptAt;
    }
  }

  lemma BeforeInOrder(before: seq<Revocation>, r: Revocation)
    requires InOrder(before + [r])
    ensures InOrder(before) && r.sweptAt <= r.at
    ensures forall i :: 0 <= i < |before| ==> before[i].at <= r.sweptAt
  {
    var log := before + [r];
    assert log[|before|] == r;
    forall i | 0 <= i < |before|
      ensures before[i].sweptAt <= before[i].at <= r.sweptAt
    {
      assert log[i] == before[i];
    }
    forall i, j | 0 <= i < j < |before|
      ensures before[i].at <= before[j].sweptAt
    {
      assert log[i] == before[i] && log[j] == before[j];
    }
  }

  lemma ShowsInsert(s: Inner, log: seq<Revocation>, k: nat, r: Revocation)
    requires Shows(s, log, k) && r.jti !in s.entries
    ensures Shows(Insert(s, r.jti, r.at), log + [r], k)
  {
  }

  // The store and the window agree on every jti at every later time, and fresh revocations survive
  // at least `maxEntries - 1` later ones.
  lemma StoreRefinesWindow(limits: Limits, log: seq<Revocation>, jti: string, now: int)
    requires limits.maxEntries >= 1 && InOrder(log) && NeverRepeats(limits, log)
    requires log != [] ==> log[|log| - 1].at <= now
    ensures IsRevoked(RevokeAll(limits, EMPTY, log), limits.ttl, jti, now)
       <==> RevokedInWindow(limits, log, jti, now)
  {
    var k := HistoryShows(limits, log);
    var s := RevokeAll(limits, EMPTY, log);
    if IsRevoked(s, limits.ttl, jti, now) {
      var n :| 0 <= n < |s.order| && s.order[n] == jti;
      assert s.order[k + n - k] == log[k + n].jti;
      assert RevokedInWindow(limits, log, jti, now);
    }
    if RevokedInWindow(limits, log, jti, now) {
      var i :| |log| - limits.maxEntries <= i < |log| && 0 <= i
            && log[i].jti == jti && Live(limits.ttl, log[i].at, now);
      if i < k {
        assert !Live(limits.ttl, log[i].at, log[|log| - 1].at);
      }
    }
  }

  // A caller can tell before the call: a jti that reads as not revoked is not held once room is made.
  lemma NotRevokedNotHeld(limits: Limits, s: Inner, jti: string, now: int)
    requires !IsRevoked(s, limits.ttl, jti, now)
    ensures jti !in MakeRoom(limits, s, now).entries
  {
    var swept := SweepExpired(s, limits.ttl, now);
    var popped := EvictShape(swept, limits.maxEntries);
  }

  // The hypothesis is needed: this history names `again` in the window and the store has dropped it.
  lemma RepetitionLeavesWindow(limits: Limits, twice: seq<Revocation>, others: seq<Revocation>,
                               again: Revocation, next: Revocation, now: int)
    requires limits.maxEntries >= 2 && NoneExpires(limits, twice + others + [again] + [next])
    requires |twice| == 2 && twice[0].jti == twice[1].jti == again.jti
    requires |others| == limits.maxEntries - 1 && Distinct(others)
    requires again.jti !in Jtis(others) && next.jti != again.jti && Live(limits.ttl, again.at, now)
    ensures var log := twice + others + [again] + [next];
            && RevokedInWindow(limits, log, again.jti, now)
            && !IsRevoked(RevokeAll(limits, EMPTY, log), limits.ttl, again.jti, now)
  {
    var history := twice + others + [again];
    var log := history + [next];
    NewestEvictedFirst(limits, twice, others, again, next);
    assert log[..|log| - 1] == history;
    assert !IsRevoked(Revoke(limits, RevokeAll(limits, EMPTY, history), next), limits.ttl, again.jti, now);
    assert log[|log| - 2].jti == again.jti;
  }
}
