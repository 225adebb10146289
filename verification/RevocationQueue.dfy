/**
 The queue is there so that memory stays bounded, and only entries are counted. When the queue is
 bounded with them, over all concurrent runs: by configuration, and by what callers do.
 */
module RevocationQueue {
  import opened Wrappers
  import opened RevocationState
  import opened RevocationEviction
  import opened RevocationWindow
  import opened RevocationInterleaving

  ghost predicate QueueNeverAbove(limits: Limits, n: nat, bound: nat) {
    forall steps: seq<Step> :: Exec(limits, n, steps).Some? ==> |Exec(limits, n, steps).value.inner.order| <= bound
  }

  // Making room empties the queue, or takes a slot for the one to come.
  predicate RoomTakesSlots(limits: Limits, n: nat) {
    limits.ttl == Some(0) || (limits.maxEntries == 1 && (limits.ttl.Some? || n == 1))
  }

  // By configuration, over all runs: the least bound on the queue is the number of calls in flight, and
  // there is one only if the time to live is zero, or the store holds one entry and either has a time
  // to live or serves one call at a time.
  lemma QueueBoundedExactly(limits: Limits, n: nat)
    requires limits.maxEntries >= 1 && n >= 1
    ensures forall bound: nat :: QueueNeverAbove(limits, n, bound) <==> RoomTakesSlots(limits, n) && bound >= n
    ensures (exists bound: nat :: QueueNeverAbove(limits, n, bound)) <==> RoomTakesSlots(limits, n)
  {
    if RoomTakesSlots(limits, n) {
      var worst := OvershootAttained(limits, n);
      CapacityBound(limits, n, worst);
      SlotPerEntry(Exec(limits, n, worst).value.inner);
      forall steps: seq<Step> | Exec(limits, n, steps).Some?
        ensures |Exec(limits, n, steps).value.inner.order| <= n
      {
        QueueStaysSmall(limits, n, steps);
      }
      assert QueueNeverAbove(limits, n, n);
    } else {
      forall bound: nat
        ensures !QueueNeverAbove(limits, n, bound)
      {
        var steps := QueueGrows(limits, n, bound + 1);
        assert |Exec(limits, n, steps).value.inner.order| == bound + 1;
      }
    }
  }

  lemma SlotPerEntry(s: Inner)
    requires Agree(s)
    ensures |s.entries| <= |s.order|
  {
    Cardinality(s.entries.Keys, Names(s.order));
    NamesCount(s.order);
  }

  // The slots and the insertions still to come; without a time to live every slot is held.
  ghost predicate SmallQueue(limits: Limits, n: nat, s: System) {
    && |s.inner.order| + |s.roomed| <= n
    && (limits.ttl.None? ==> forall i :: 0 <= i < |s.inner.order| ==> s.inner.order[i] in s.inner.entries)
  }

  lemma {:induction false} QueueStaysSmall(limits: Limits, n: nat, steps: seq<Step>)
    requires limits.maxEntries >= 1 && n >= 1 && RoomTakesSlots(limits, n) && Exec(limits, n, steps).Some?
    ensures SmallQueue(limits, n, Exec(limits, n, steps).value)
  {
    if steps != [] {
      var before := steps[..|steps| - 1];
      QueueStaysSmall(limits, n, before);
      CapacityBound(limits, n, before);
      StepKeepsSmall(limits, n, Exec(limits, n, before).value, steps[|steps| - 1]);
    }
  }

  lemma StepKeepsSmall(limits: Limits, n: nat, s: System, step: Step)
    requires limits.maxEntries >= 1 && RoomTakesSlots(limits, n) && Enabled(n, s, step)
    requires InFlight(s) <= n && Agree(s.inner) && SmallQueue(limits, n, s)
    ensures SmallQueue(limits, n, Next(limits, n, s, step))
  {
    match step
    case Begin(_, _) =>
    case RoomBy(task, at) =>
      TaskLeaves(s.called, task);
      RoomShortens(limits, s.inner, at);
    case PutBy(task, _) => TaskLeaves(s.roomed, task);
    case Count(at) => KeepHeldShorter(s.inner.order, LiveEntries(s.inner.entries, limits.ttl, at).Keys);
  }

  lemma RoomShortens(limits: Limits, s: Inner, at: int)
    requires Agree(s) && (limits.ttl == Some(0) || limits.maxEntries == 1)
    ensures var order := MakeRoom(limits, s, at).order;
            && (limits.ttl.Some? ==> order == [] || |order| < |s.order|)
            && (|s.order| <= 1 && (forall i :: 0 <= i < |s.order| ==> s.order[i] in s.entries) ==> order == [])
  {
    var swept := SweepExpired(s, limits.ttl, at);
    var live := LiveEntries(s.entries, limits.ttl, at);
    SweepAgree(s, limits.ttl, at);
    KeepHeldShorter(s.order, live.Keys);
    if swept.entries == map[] {
      if limits.ttl.Some? {
        KeepHeldNone(s.order, live.Keys);
      }
    } else {
      var jti :| jti in swept.entries;
      assert jti in swept.order;
      var popped := EvictShape(swept, limits.maxEntries);
    }
  }

  // `k` slots of one held jti, and no call in flight.
  function Repeated(k: nat): System {
    System(Inner(map["" := 0], Slots("", k)), map[], map[])
  }

  ghost predicate Reaches(limits: Limits, n: nat, steps: seq<Step>, k: nat) {
    Exec(limits, n, steps) == Some(Repeated(k))
  }

  // Otherwise some run exceeds any bound: the same jti revoked over and over, by one call at a time, or
  // in a store of one entry by two at a time, both of which make room before either inserts.
  lemma {:induction false} QueueGrows(limits: Limits, n: nat, k: nat) returns (steps: seq<Step>)
    requires limits.maxEntries >= 1 && n >= 1 && !RoomTakesSlots(limits, n) && k >= 1
    ensures Reaches(limits, n, steps, k)
  {
    if k == 1 {
      steps := GrowFirst(limits, n);
    } else {
      var before := QueueGrows(limits, n, k - 1);
      steps := GrowOnce(limits, n, before, k - 1);
    }
  }

  lemma GrowOnce(limits: Limits, n: nat, before: seq<Step>, k: nat) returns (steps: seq<Step>)
    requires limits.maxEntries >= 1 && n >= 1 && !RoomTakesSlots(limits, n) && k >= 1
    requires Reaches(limits, n, before, k)
    ensures Reaches(limits, n, steps, k + 1)
  {
    if limits.maxEntries > 1 {
      steps := GrowAlone(limits, n, before, k);
    } else {
      steps := GrowTogether(limits, n, before, k);
    }
  }

  lemma GrowFirst(limits: Limits, n: nat) returns (steps: seq<Step>)
    requires limits.maxEntries >= 1 && n >= 1
    ensures Reaches(limits, n, steps, 1)
  {
    FirstSlotAdded(limits);
    steps := CallAlone(limits, n, [], EMPTY, Revocation("", 0, 0));
  }

  lemma GrowAlone(limits: Limits, n: nat, before: seq<Step>, k: nat) returns (steps: seq<Step>)
    requires limits.maxEntries > 1 && limits.ttl != Some(0) && n >= 1 && k >= 1
    requires Reaches(limits, n, before, k)
    ensures Reaches(limits, n, steps, k + 1)
  {
    SlotAdded(limits, k);
    steps := CallAlone(limits, n, before, Repeated(k).inner, Revocation("", 0, 0));
  }

  lemma GrowTogether(limits: Limits, n: nat, before: seq<Step>, k: nat) returns (steps: seq<Step>)
    requires limits.maxEntries == 1 && limits.ttl.None? && n >= 2 && k >= 1
    requires Reaches(limits, n, before, k)
    ensures Reaches(limits, n, steps, k + 1)
  {
    TwoSlotsForOne(limits, k);
    steps := CallsTogether(limits, n, before, Repeated(k).inner, "");
  }

  lemma InsertSlot(entries: map<string, int>, k: nat)
    requires entries.Keys <= {""}
    ensures Insert(Inner(entries, Slots("", k)), "", 0) == Repeated(k + 1).inner
  {
    assert entries["" := 0] == map["" := 0];
    assert Slots("", k) + [""] == Slots("", k + 1);
  }

  lemma FirstSlotAdded(limits: Limits)
    requires limits.maxEntries >= 1
    ensures Revoke(limits, EMPTY, Revocation("", 0, 0)) == Repeated(1).inner
  {
    RoomInEmpty(limits, 0);
    assert Slots("", 0) == [];
    InsertSlot(map[], 0);
  }

  lemma SlotAdded(limits: Limits, k: nat)
    requires limits.maxEntries > 1 && limits.ttl != Some(0) && k >= 1
    ensures Revoke(limits, Repeated(k).inner, Revocation("", 0, 0)) == Repeated(k + 1).inner
  {
    RoomForOne(limits, Repeated(k).inner, "", 0, 0);
    InsertSlot(map["" := 0], k);
  }

  lemma TwoSlotsForOne(limits: Limits, k: nat)
    requires limits.maxEntries == 1 && limits.ttl.None? && k >= 1
    ensures var room := MakeRoom(limits, MakeRoom(limits, Repeated(k).inner, 0), 0);
            Insert(Insert(room, "", 0), "", 0) == Repeated(k + 1).inner
  {
    OneSlotFewer(limits, Repeated(k).inner, k);
    InsertSlot(map[], k - 1);
    InsertSlot(map["" := 0], k);
  }

  lemma OneSlotFewer(limits: Limits, s: Inner, k: nat)
    requires limits.maxEntries == 1 && limits.ttl.None? && k >= 1 && s == Inner(map["" := 0], Slots("", k))
    ensures MakeRoom(limits, s, 0) == Inner(map[], Slots("", k - 1))
    ensures MakeRoom(limits, Inner(map[], Slots("", k - 1)), 0) == Inner(map[], Slots("", k - 1))
  {
    assert s.entries - {s.order[0]} == map[];
    assert s.order[1..] == Slots("", k - 1);
    assert EvictOldestTo(s, 1) == EvictOldestTo(Inner(map[], Slots("", k - 1)), 1);
  }

  // One undisturbed call, as a run.
  lemma CallAlone(limits: Limits, n: nat, before: seq<Step>, s: Inner, r: Revocation) returns (steps: seq<Step>)
    requires n >= 1 && Exec(limits, n, before) == Some(System(s, map[], map[]))
    ensures Exec(limits, n, steps) == Some(System(Revoke(limits, s, r), map[], map[]))
  {
    Then(limits, n, before, Begin(0, r.jti));
    var begun := before + [Begin(0, r.jti)];
    assert Exec(limits, n, begun) == Some(System(s, map[0 := r.jti], map[]));
    Then(limits, n, begun, RoomBy(0, r.sweptAt));
    var roomed := begun + [RoomBy(0, r.sweptAt)];
    assert map[0 := r.jti] - {0} == map[];
    assert Exec(limits, n, roomed) == Some(System(MakeRoom(limits, s, r.sweptAt), map[], map[0 := r.jti]));
    Then(limits, n, roomed, PutBy(0, r.at));
    steps := roomed + [PutBy(0, r.at)];
  }

  // Two calls for one jti that both make room before either inserts.
  lemma CallsTogether(limits: Limits, n: nat, before: seq<Step>, s: Inner, jti: string) returns (steps: seq<Step>)
    requires n >= 2 && Exec(limits, n, before) == Some(System(s, map[], map[]))
    ensures Exec(limits, n, steps) == Some(System(
              Insert(Insert(MakeRoom(limits, MakeRoom(limits, s, 0), 0), jti, 0), jti, 0), map[], map[]))
  {
    var roomed := BothMakeRoom(limits, n, before, s, jti);
    var room := MakeRoom(limits, MakeRoom(limits, s, 0), 0);
    Then(limits, n, roomed, PutBy(0, 0));
    var first := roomed + [PutBy(0, 0)];
    assert map[0 := jti, 1 := jti] - {0} == map[1 := jti];
    assert Exec(limits, n, first) == Some(System(Insert(room, jti, 0), map[], map[1 := jti]));
    Then(limits, n, first, PutBy(1, 0));
    steps := first + [PutBy(1, 0)];
    assert map[1 := jti] - {1} == map[];
  }

  lemma BothMakeRoom(limits: Limits, n: nat, before: seq<Step>, s: Inner, jti: string) returns (steps: seq<Step>)
    requires n >= 2 && Exec(limits, n, before) == Some(System(s, map[], map[]))
    ensures Exec(limits, n, steps) == Some(System(
              MakeRoom(limits, MakeRoom(limits, s, 0), 0), map[], map[0 := jti, 1 := jti]))
  {
    Then(limits, n, before, Begin(0, jti));
    var one := before + [Begin(0, jti)];
    assert Exec(limits, n, one) == Some(System(s, map[0 := jti], map[]));
    Then(limits, n, one, Begin(1, jti));
    var two := one + [Begin(1, jti)];
    assert Exec(limits, n, two) == Some(System(s, map[0 := jti, 1 := jti], map[]));
    Then(limits, n, two, RoomBy(0, 0));
    var first := two + [RoomBy(0, 0)];
    assert map[0 := jti, 1 := jti] - {0} == map[1 := jti];
    assert Exec(limits, n, first) == Some(System(MakeRoom(limits, s, 0), map[1 := jti], map[0 := jti]));
    Then(limits, n, first, RoomBy(1, 0));
    steps := first + [RoomBy(1, 0)];
    assert map[1 := jti] - {1} == map[];
  }

  // Undisturbed calls are the runs with one call in flight at a time.
  lemma {:induction false} HistoryIsRun(limits: Limits, log: seq<Revocation>) returns (steps: seq<Step>)
    ensures Exec(limits, 1, steps) == Some(System(RevokeAll(limits, EMPTY, log), map[], map[]))
  {
    if log == [] {
      steps := [];
    } else {
      var before := HistoryIsRun(limits, log[..|log| - 1]);
      steps := CallAlone(limits, 1, before, RevokeAll(limits, EMPTY, log[..|log| - 1]), log[|log| - 1]);
    }
  }

  ghost predicate HistoriesBounded(limits: Limits, bound: nat) {
    forall log: seq<Revocation> :: InOrder(log) ==> |RevokeAll(limits, EMPTY, log).order| <= bound
  }

  // For undisturbed calls alone: iff the store holds one entry or its time to live is zero.
  lemma HistoriesBoundedExactly(limits: Limits)
    requires limits.maxEntries >= 1
    ensures (exists bound: nat :: HistoriesBounded(limits, bound)) <==> limits.maxEntries == 1 || limits.ttl == Some(0)
    ensures limits.maxEntries == 1 || limits.ttl == Some(0) ==> HistoriesBounded(limits, 1)
  {
    if limits.maxEntries == 1 || limits.ttl == Some(0) {
      QueueBoundedExactly(limits, 1);
      assert QueueNeverAbove(limits, 1, 1);
      forall log: seq<Revocation> | InOrder(log)
        ensures |RevokeAll(limits, EMPTY, log).order| <= 1
      {
        var steps := HistoryIsRun(limits, log);
      }
      assert HistoriesBounded(limits, 1);
    } else {
      forall bound: nat
        ensures !HistoriesBounded(limits, bound)
      {
        var log := Repeat("", bound + 1);
        RepeatUnbroken(limits, "", bound + 1);
        RevokingOneJtiAgain(limits, log, "");
        assert InOrder(log) && |RevokeAll(limits, EMPTY, log).order| == bound + 1;
      }
    }
  }

  // The same jti `n` times, at one instant.
  function Repeat(jti: string, n: nat): (log: seq<Revocation>)
    ensures |log| == n && forall i :: 0 <= i < n ==> log[i] == Revocation(jti, 0, 0)
  {
    seq(n, _ => Revocation(jti, 0, 0))
  }

  lemma {:induction false} RepeatUnbroken(limits: Limits, jti: string, n: nat)
    requires limits.maxEntries > 1 && limits.ttl != Some(0)
    ensures Unbroken(limits, Repeat(jti, n)) == n
  {
    if n > 0 {
      RepeatUnbroken(limits, jti, n - 1);
      assert Repeat(jti, n)[..n - 1] == Repeat(jti, n - 1);
    }
  }

  ghost predicate DistinctSlots(order: seq<string>) {
    forall i, j :: 0 <= i < j < |order| ==> order[i] != order[j]
  }

  // Distinct slots, exactly those of the held jtis.
  ghost predicate OneSlotEach(s: Inner) {
    && DistinctSlots(s.order)
    && forall jti :: jti in s.entries <==> jti in s.order
  }

  // After every critical section there are as many slots as entries.
  ghost predicate AlwaysOneSlot(limits: Limits, es: seq<Event>) {
    var s := ApplyAll(limits, EMPTY, es);
    && |s.order| == |s.entries|
    && (es != [] ==> AlwaysOneSlot(limits, es[..|es| - 1]))
  }

  // No insertion finds its jti held.
  ghost predicate PutsUnheld(limits: Limits, es: seq<Event>) {
    es != [] ==>
      var before, e := es[..|es| - 1], es[|es| - 1];
      PutsUnheld(limits, before) && (e.Put? ==> e.jti !in ApplyAll(limits, EMPTY, before).entries)
  }

  // By caller, in every interleaving: queue and map have the same size all along iff no insertion finds
  // its jti held.
  lemma {:induction false} OneSlotExactly(limits: Limits, es: seq<Event>)
    requires limits.maxEntries >= 1
    ensures AlwaysOneSlot(limits, es) <==> PutsUnheld(limits, es)
    ensures PutsUnheld(limits, es) ==> OneSlotEach(ApplyAll(limits, EMPTY, es))
  {
    if es != [] {
      var before, e := es[..|es| - 1], es[|es| - 1];
      OneSlotExactly(limits, before);
      if PutsUnheld(limits, before) {
        SectionOneSlot(limits, ApplyAll(limits, EMPTY, before), e);
      }
    }
  }

  lemma SectionOneSlot(limits: Limits, s: Inner, e: Event)
    requires limits.maxEntries >= 1 && OneSlotEach(s)
    ensures var t := Apply(limits, s, e);
            && (|t.order| == |t.entries| <==> (e.Put? ==> e.jti !in s.entries))
            && ((e.Put? ==> e.jti !in s.entries) ==> OneSlotEach(t))
  {
    OneSlotCount(s);
    match e
    case Sweep(at) =>
      SweepOneSlot(s, limits.ttl, at);
      OneSlotCount(SweepExpired(s, limits.ttl, at));
    case Room(at) =>
      SweepOneSlot(s, limits.ttl, at);
      EvictOneSlot(SweepExpired(s, limits.ttl, at), limits.maxEntries);
      OneSlotCount(MakeRoom(limits, s, at));
    case Put(_, _) =>
  }

  // What a caller can see to: when a call makes room its jti reads as not revoked, and no other call that
  // has made room is about to insert it.
  ghost predicate Careful(limits: Limits, n: nat, steps: seq<Step>)
    requires Exec(limits, n, steps).Some?
  {
    steps != [] ==>
      var before, step := steps[..|steps| - 1], steps[|steps| - 1];
      var s := Exec(limits, n, before).value;
      && Careful(limits, n, before)
      && (step.RoomBy? ==>
            && !IsRevoked(s.inner, limits.ttl, s.called[step.task], step.at)
            && s.called[step.task] !in s.roomed.Values)
  }

  // Distinct insertions to come, none of a held jti.
  ghost predicate NoneTwice(s: System) {
    && OneSlotEach(s.inner)
    && (forall t :: t in s.roomed ==> s.roomed[t] !in s.inner.entries)
    && forall t, u :: t in s.roomed && u in s.roomed && t != u ==> s.roomed[t] != s.roomed[u]
  }

  lemma RoomNoneTwice(limits: Limits, s: System, task: nat, at: int)
    requires limits.maxEntries >= 1 && NoneTwice(s) && task in s.called
    requires !IsRevoked(s.inner, limits.ttl, s.called[task], at) && s.called[task] !in s.roomed.Values
    ensures NoneTwice(System(MakeRoom(limits, s.inner, at), s.called - {task}, s.roomed[task := s.called[task]]))
  {
    SectionOneSlot(limits, s.inner, Room(at));
    NotRevokedNotHeld(limits, s.inner, s.called[task], at);
    RoomHolds(limits, s.inner, at);
  }

  lemma RoomHolds(limits: Limits, s: Inner, at: int)
    ensures MakeRoom(limits, s, at).entries.Keys <= s.entries.Keys
  {
    EvictionOnlyRemoves(SweepExpired(s, limits.ttl, at), limits.maxEntries);
  }

  lemma PutNoneTwice(limits: Limits, s: System, task: nat, at: int)
    requires limits.maxEntries >= 1 && NoneTwice(s) && task in s.roomed
    ensures NoneTwice(System(Insert(s.inner, s.roomed[task], at), s.called, s.roomed - {task}))
  {
    SectionOneSlot(limits, s.inner, Put(s.roomed[task], at));
  }

  lemma StepNoneTwice(limits: Limits, n: nat, s: System, step: Step)
    requires limits.maxEntries >= 1 && Enabled(n, s, step) && NoneTwice(s)
    requires step.RoomBy? ==>
               && !IsRevoked(s.inner, limits.ttl, s.called[step.task], step.at)
               && s.called[step.task] !in s.roomed.Values
    ensures NoneTwice(Next(limits, n, s, step))
  {
    match step
    case Begin(_, _) =>
    case RoomBy(task, at) => RoomNoneTwice(limits, s, task, at);
    case PutBy(task, at) => PutNoneTwice(limits, s, task, at);
    case Count(at) => SectionOneSlot(limits, s.inner, Sweep(at));
  }

  // Then the bound on entries bounds the queue as well, in every run.
  lemma {:induction false} CarefulCallsOneSlot(limits: Limits, n: nat, steps: seq<Step>)
    requires limits.maxEntries >= 1 && n >= 1 && Exec(limits, n, steps).Some? && Careful(limits, n, steps)
    ensures NoneTwice(Exec(limits, n, steps).value)
    ensures var s := Exec(limits, n, steps).value.inner; |s.order| == |s.entries| <= Peak(limits, n)
  {
    if steps != [] {
      var before := steps[..|steps| - 1];
      CarefulCallsOneSlot(limits, n, before);
      StepNoneTwice(limits, n, Exec(limits, n, before).value, steps[|steps| - 1]);
    }
    CapacityBound(limits, n, steps);
    OneSlotCount(Exec(limits, n, steps).value.inner);
  }

  // After every undisturbed call there are as many slots as entries.
  ghost predicate OneSlotAfterCalls(limits: Limits, log: seq<Revocation>) {
    var s := RevokeAll(limits, EMPTY, log);
    && |s.order| == |s.entries|
    && (log != [] ==> OneSlotAfterCalls(limits, log[..|log| - 1]))
  }

  // For undisturbed calls alone: iff no call repeats a jti still held once room has been made for it.
  lemma {:induction false} HistoryOneSlotExactly(limits: Limits, log: seq<Revocation>)
    requires limits.maxEntries >= 1
    ensures OneSlotAfterCalls(limits, log) <==> NeverRepeats(limits, log)
    ensures NeverRepeats(limits, log) ==> |RevokeAll(limits, EMPTY, log).order| <= limits.maxEntries
    ensures NeverRepeats(limits, log) ==> OneSlotEach(RevokeAll(limits, EMPTY, log))
  {
    if log != [] {
      var before, r := log[..|log| - 1], log[|log| - 1];
      HistoryOneSlotExactly(limits, before);
      if NeverRepeats(limits, before) {
        RevokeOneSlot(limits, RevokeAll(limits, EMPTY, before), r);
      }
    }
  }

  lemma RevokeOneSlot(limits: Limits, s: Inner, r: Revocation)
    requires limits.maxEntries >= 1 && OneSlotEach(s)
    ensures var t := Revoke(limits, s, r);
            && (|t.order| == |t.entries| <==> r.jti !in MakeRoom(limits, s, r.sweptAt).entries)
            && (r.jti !in MakeRoom(limits, s, r.sweptAt).entries ==>
                  OneSlotEach(t) && |t.order| <= limits.maxEntries)
  {
    var room := MakeRoom(limits, s, r.sweptAt);
    SectionOneSlot(limits, s, Room(r.sweptAt));
    SectionOneSlot(limits, room, Put(r.jti, r.at));
    RoomShrinks(limits, s, r.sweptAt);
  }

  lemma SweepOneSlot(s: Inner, ttl: Option<nat>, at: int)
    requires OneSlotEach(s)
    ensures OneSlotEach(SweepExpired(s, ttl, at))
  {
    if ttl.Some? {
      var live := LiveEntries(s.entries, ttl, at);
      KeepHeldMembers(s.order, live.Keys);
      KeepHeldDistinct(s.order, live.Keys);
      assert SweepExpired(s, ttl, at) == Inner(live, KeepHeld(s.order, live.Keys));
    }
  }

  lemma KeepHeldDistinct(order: seq<string>, held: set<string>)
    requires DistinctSlots(order)
    ensures DistinctSlots(KeepHeld(order, held))
  {
    if order != [] {
      KeepHeldDistinct(order[1..], held);
      KeepHeldMembers(order[1..], held);
      assert order[0] !in order[1..];
    }
  }

  lemma EvictOneSlot(s: Inner, maxEntries: nat)
    requires OneSlotEach(s)
    ensures OneSlotEach(EvictOldestTo(s, maxEntries))
    decreases |s.order|
  {
    if |s.entries| >= maxEntries && s.order != [] {
      assert s.order == [s.order[0]] + s.order[1..];
      EvictOneSlot(Inner(s.entries - {s.order[0]}, s.order[1..]), maxEntries);
    }
  }

  lemma OneSlotCount(s: Inner)
    requires OneSlotEach(s)
    ensures |s.order| == |s.entries|
    decreases |s.order|
  {
    if s.order == [] {
      assert s.entries.Keys == {};
    } else {
      var rest := Inner(s.entries - {s.order[0]}, s.order[1..]);
      assert s.order == [s.order[0]] + s.order[1..];
      OneSlotCount(rest);
      assert rest.entries.Keys == s.entries.Keys - {s.order[0]};
    }
  }
}
