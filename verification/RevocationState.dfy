/**
 The value of the in-memory revocation store and the steps its methods take under one lock:
 sweeping, evicting, inserting and looking up. Instants are nanoseconds on a monotone clock.
 */
module RevocationState {
  import opened Instants
  import opened Wrappers

  datatype Inner = Inner(entries: map<string, int>, order: seq<string>)

  datatype Limits = Limits(maxEntries: nat, ttl: Option<nat>)

  const EMPTY := Inner(map[], [])

  function Names(slots: seq<string>): set<string> {
    set jti | jti in slots
  }

  predicate Live(ttl: Option<nat>, insertedAt: int, now: int) {
    ttl.None? || Elapsed(insertedAt, now) < ttl.value
  }

  predicate IsRevoked(s: Inner, ttl: Option<nat>, jti: string, now: int) {
    jti in s.entries && Live(ttl, s.entries[jti], now)
  }

  function LiveEntries(entries: map<string, int>, ttl: Option<nat>, now: int): map<string, int> {
    map jti | jti in entries && Live(ttl, entries[jti], now) :: entries[jti]
  }

  function KeepHeld(order: seq<string>, held: set<string>): seq<string> {
    if order == [] then []
    else (if order[0] in held then [order[0]] else []) + KeepHeld(order[1..], held)
  }

  function SweepExpired(s: Inner, ttl: Option<nat>, now: int): Inner {
    if ttl.None? then s
    else
      var live := LiveEntries(s.entries, ttl, now);
      Inner(live, KeepHeld(s.order, live.Keys))
  }

  function EvictOldestTo(s: Inner, maxEntries: nat): Inner
    decreases |s.order|
  {
    if |s.entries| < maxEntries || s.order == [] then s
    else EvictOldestTo(Inner(s.entries - {s.order[0]}, s.order[1..]), maxEntries)
  }

  function MakeRoom(limits: Limits, s: Inner, now: int): Inner {
    EvictOldestTo(SweepExpired(s, limits.ttl, now), limits.maxEntries)
  }

  function Insert(s: Inner, jti: string, now: int): Inner {
    Inner(s.entries[jti := now], s.order + [jti])
  }

  // One undisturbed `revoke` call; the two critical sections read the clock separately.
  datatype Revocation = Revocation(jti: string, sweptAt: int, at: int)

  function Revoke(limits: Limits, s: Inner, r: Revocation): Inner {
    Insert(MakeRoom(limits, s, r.sweptAt), r.jti, r.at)
  }

  function RevokeAll(limits: Limits, s: Inner, log: seq<Revocation>): Inner {
    if log == [] then s
    else Revoke(limits, RevokeAll(limits, s, log[..|log| - 1]), log[|log| - 1])
  }

  // Each critical section of the store, as it can be interleaved with those of other calls.
  datatype Event = Sweep(at: int) | Room(at: int) | Put(jti: string, at: int)

  function Apply(limits: Limits, s: Inner, e: Event): Inner {
    match e
    case Sweep(at) => SweepExpired(s, limits.ttl, at)
    case Room(at) => MakeRoom(limits, s, at)
    case Put(jti, at) => Insert(s, jti, at)
  }

  function ApplyAll(limits: Limits, s: Inner, es: seq<Event>): Inner {
    if es == [] then s
    else Apply(limits, ApplyAll(limits, s, es[..|es| - 1]), es[|es| - 1])
  }

  // Every held jti has a slot in the queue. Slots of jtis no longer held are possible.
  ghost predicate Agree(s: Inner) {
    forall jti :: jti in s.entries ==> jti in s.order
  }

  lemma KeepHeldMembers(order: seq<string>, held: set<string>)
    ensures forall jti :: jti in KeepHeld(order, held) <==> jti in order && jti in held
  {
    if order != [] {
      KeepHeldMembers(order[1..], held);
      assert order == [order[0]] + order[1..];
    }
  }

  lemma KeepHeldConcat(a: seq<string>, b: seq<string>, held: set<string>)
    ensures KeepHeld(a + b, held) == KeepHeld(a, held) + KeepHeld(b, held)
  {
    if a == [] {
      assert a + b == b;
    } else {
      assert (a + b)[0] == a[0] && (a + b)[1..] == a[1..] + b;
      KeepHeldConcat(a[1..], b, held);
      Regroup(if a[0] in held then [a[0]] else [], KeepHeld(a[1..], held), KeepHeld(b, held));
    }
  }

  lemma Regroup(a: seq<string>, b: seq<string>, c: seq<string>)
    ensures a + (b + c) == a + b + c
  {
  }

  lemma KeepHeldTwice(order: seq<string>, wide: set<string>, narrow: set<string>)
    requires narrow <= wide
    ensures KeepHeld(KeepHeld(order, wide), narrow) == KeepHeld(order, narrow)
  {
    if order != [] {
      var head := if order[0] in wide then [order[0]] else [];
      KeepHeldTwice(order[1..], wide, narrow);
      KeepHeldConcat(head, KeepHeld(order[1..], wide), narrow);
      assert KeepHeld(head, narrow) == if order[0] in narrow then [order[0]] else [];
    }
  }

  lemma KeepHeldAll(order: seq<string>, held: set<string>)
    requires forall n :: 0 <= n < |order| ==> order[n] in held
    ensures KeepHeld(order, held) == order
  {
    if order != [] {
      KeepHeldAll(order[1..], held);
    }
  }

  lemma KeepHeldShorter(order: seq<string>, held: set<string>)
    ensures |KeepHeld(order, held)| <= |order|
  {
  }

  // What eviction leaves: it pops some number of slots, drops exactly the jtis in them, and stops
  // as soon as there is room.
  lemma EvictShape(s: Inner, maxEntries: nat) returns (popped: nat)
    ensures popped <= |s.order|
    ensures EvictOldestTo(s, maxEntries)
         == Inner(s.entries - Names(s.order[..popped]), s.order[popped..])
    ensures popped > 0 ==> |s.entries - Names(s.order[..popped - 1])| >= maxEntries
    ensures popped == 0 <==> |s.entries| < maxEntries || s.order == []
    ensures popped < |s.order| ==> |EvictOldestTo(s, maxEntries).entries| < maxEntries
    decreases |s.order|
  {
    if |s.entries| < maxEntries || s.order == [] {
      popped := 0;
      assert s.entries - Names(s.order[..0]) == s.entries;
    } else {
      var rest := Inner(s.entries - {s.order[0]}, s.order[1..]);
      var n := EvictShape(rest, maxEntries);
      popped := n + 1;
      EvictPrefix(s, n);
      if n > 0 {
        EvictPrefix(s, n - 1);
      } else {
        assert s.entries - Names(s.order[..0]) == s.entries;
      }
    }
  }

  lemma EvictPrefix(s: Inner, n: nat)
    requires n < |s.order|
    ensures s.order[..n + 1] == [s.order[0]] + s.order[1..][..n]
    ensures (s.entries - {s.order[0]}) - Names(s.order[1..][..n])
         == s.entries - Names(s.order[..n + 1])
  {
    assert s.order[..n + 1] == [s.order[0]] + s.order[1..][..n];
    forall jti
      ensures jti in s.order[..n + 1] <==> jti == s.order[0] || jti in s.order[1..][..n]
    {
    }
  }

  lemma SweepAgree(s: Inner, ttl: Option<nat>, now: int)
    requires Agree(s)
    ensures Agree(SweepExpired(s, ttl, now))
  {
    KeepHeldMembers(s.order, LiveEntries(s.entries, ttl, now).Keys);
  }

  // Eviction always makes room: the queue never runs dry first, so the loop's `else break` is dead.
  lemma EvictionMakesRoom(s: Inner, maxEntries: nat)
    requires Agree(s) && maxEntries >= 1
    ensures |EvictOldestTo(s, maxEntries).entries| < maxEntries
    ensures Agree(EvictOldestTo(s, maxEntries))
  {
    var popped := EvictShape(s, maxEntries);
    var left := EvictOldestTo(s, maxEntries);
    assert s.order == s.order[..popped] + s.order[popped..];
    forall jti | jti in left.entries
      ensures jti in left.order
    {
      assert jti in s.order && jti !in s.order[..popped];
    }
    if left.order == [] {
      assert left.entries.Keys == {};
    }
  }

  // Every state the critical sections can reach, in any interleaving, keeps a slot per held jti.
  lemma {:induction false} ReachableAgree(limits: Limits, es: seq<Event>)
    requires limits.maxEntries >= 1
    ensures Agree(ApplyAll(limits, EMPTY, es))
    ensures forall at :: |MakeRoom(limits, ApplyAll(limits, EMPTY, es), at).entries| < limits.maxEntries
  {
    if es != [] {
      ReachableAgree(limits, es[..|es| - 1]);
      ApplyAgree(limits, ApplyAll(limits, EMPTY, es[..|es| - 1]), es[|es| - 1]);
    }
    var s := ApplyAll(limits, EMPTY, es);
    forall at
      ensures |MakeRoom(limits, s, at).entries| < limits.maxEntries
    {
      SweepAgree(s, limits.ttl, at);
      EvictionMakesRoom(SweepExpired(s, limits.ttl, at), limits.maxEntries);
    }
  }

  lemma ApplyAgree(limits: Limits, s: Inner, e: Event)
    requires limits.maxEntries >= 1 && Agree(s)
    ensures Agree(Apply(limits, s, e))
  {
    match e
    case Sweep(at) => SweepAgree(s, limits.ttl, at);
    case Room(at) =>
      SweepAgree(s, limits.ttl, at);
      EvictionMakesRoom(SweepExpired(s, limits.ttl, at), limits.maxEntries);
    case Put(_, _) =>
  }

  // Sweeping is unobservable: lookups, the count and the next critical section all answer as if
  // expired entries had never been dropped early.
  lemma SweepUnobservable(limits: Limits, s: Inner, t: int, later: int)
    requires t <= later
    ensures forall jti :: IsRevoked(SweepExpired(s, limits.ttl, t), limits.ttl, jti, later)
                     <==> IsRevoked(s, limits.ttl, jti, later)
    ensures SweepExpired(SweepExpired(s, limits.ttl, t), limits.ttl, later) == SweepExpired(s, limits.ttl, later)
    ensures MakeRoom(limits, SweepExpired(s, limits.ttl, t), later) == MakeRoom(limits, s, later)
    ensures |SweepExpired(s, limits.ttl, t).entries|
         == |set jti | jti in s.entries && IsRevoked(s, limits.ttl, jti, t)|
  {
    var live := LiveEntries(s.entries, limits.ttl, t);
    var liveLater := LiveEntries(s.entries, limits.ttl, later);
    assert LiveEntries(live, limits.ttl, later) == liveLater;
    KeepHeldTwice(s.order, live.Keys, liveLater.Keys);
    assert SweepExpired(s, limits.ttl, t).entries.Keys
        == set jti | jti in s.entries && IsRevoked(s, limits.ttl, jti, t);
  }
}
