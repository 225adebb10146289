/**
 The store under concurrent calls. `revoke` takes the write lock twice, once to make room and once to
 insert, so other calls run in between. A step below is one critical section of one task.
 */
module RevocationInterleaving {
  import opened Wrappers
  import opened RevocationState
  import opened RevocationEviction

  // `called` maps the tasks that entered `revoke`; `roomed` those that made room and have yet to insert.
  datatype System = System(inner: Inner, called: map<nat, string>, roomed: map<nat, string>)

  datatype Step =
    | Begin(task: nat, jti: string)
    | RoomBy(task: nat, at: int)
    | PutBy(task: nat, at: int)
    | Count(at: int)

  const START := System(EMPTY, map[], map[])

  function InFlight(s: System): nat {
    |s.called| + |s.roomed|
  }

  // At most `n` calls of `revoke` are in flight at any time.
  predicate Enabled(n: nat, s: System, step: Step) {
    match step
    case Begin(task, _) => task !in s.called && task !in s.roomed && InFlight(s) < n
    case RoomBy(task, _) => task in s.called
    case PutBy(task, _) => task in s.roomed
    case Count(_) => true
  }

  function Next(limits: Limits, n: nat, s: System, step: Step): System
    requires Enabled(n, s, step)
  {
    match step
    case Begin(task, jti) => s.(called := s.called[task := jti])
    case RoomBy(task, at) =>
      System(MakeRoom(limits, s.inner, at), s.called - {task}, s.roomed[task := s.called[task]])
    case PutBy(task, at) => System(Insert(s.inner, s.roomed[task], at), s.called, s.roomed - {task})
    case Count(at) => s.(inner := SweepExpired(s.inner, limits.ttl, at))
  }

  function Exec(limits: Limits, n: nat, steps: seq<Step>): Option<System> {
    if steps == [] then Some(START)
    else
      var before := Exec(limits, n, steps[..|steps| - 1]);
      if before.Some? && Enabled(n, before.value, steps[|steps| - 1])
      then Some(Next(limits, n, before.value, steps[|steps| - 1]))
      else None
  }

  // The event of a step, if it touches the store.
  function EventOf(s: System, step: Step): seq<Event>
    requires step.PutBy? ==> step.task in s.roomed
  {
    match step
    case Begin(_, _) => []
    case RoomBy(_, at) => [Room(at)]
    case PutBy(task, at) => [Put(s.roomed[task], at)]
    case Count(at) => [Sweep(at)]
  }

  // What a run does to the store is a sequence of its critical sections.
  function Events(limits: Limits, n: nat, steps: seq<Step>): seq<Event>
    requires Exec(limits, n, steps).Some?
  {
    if steps == [] then []
    else
      var before := steps[..|steps| - 1];
      Events(limits, n, before) + EventOf(Exec(limits, n, before).value, steps[|steps| - 1])
  }

  lemma ApplyThen(limits: Limits, from: Inner, es: seq<Event>, e: Event)
    ensures ApplyAll(limits, from, es + [e]) == Apply(limits, ApplyAll(limits, from, es), e)
  {
    assert (es + [e])[..|es|] == es;
  }

  lemma StepIsEvent(limits: Limits, n: nat, s: System, from: Inner, es: seq<Event>, step: Step)
    requires Enabled(n, s, step) && s.inner == ApplyAll(limits, from, es)
    ensures Next(limits, n, s, step).inner == ApplyAll(limits, from, es + EventOf(s, step))
  {
    match step
    case Begin(_, _) => assert es + EventOf(s, step) == es;
    case RoomBy(_, at) => ApplyThen(limits, from, es, Room(at));
    case PutBy(task, at) => ApplyThen(limits, from, es, Put(s.roomed[task], at));
    case Count(at) => ApplyThen(limits, from, es, Sweep(at));
  }

  lemma {:induction false} RunsAreEvents(limits: Limits, n: nat, steps: seq<Step>)
    requires Exec(limits, n, steps).Some?
    ensures Exec(limits, n, steps).value.inner == ApplyAll(limits, EMPTY, Events(limits, n, steps))
  {
    if steps != [] {
      var before := steps[..|steps| - 1];
      RunsAreEvents(limits, n, before);
      StepIsEvent(limits, n, Exec(limits, n, before).value, EMPTY, Events(limits, n, before), steps[|steps| - 1]);
    }
  }

  // The largest number of entries `n` calls in flight can reach. A time to live of zero empties the
  // store whenever room is made, so only the insertions still to come count.
  function Peak(limits: Limits, n: nat): int {
    if limits.ttl == Some(0) then n else limits.maxEntries - 1 + n
  }

  // In every reachable state the entries and the insertions still to come stay within the peak: below
  // the bound plus the number of calls in flight. With one call at a time the bound itself holds.
  lemma {:induction false} CapacityBound(limits: Limits, n: nat, steps: seq<Step>)
    requires limits.maxEntries >= 1 && n >= 1 && Exec(limits, n, steps).Some?
    ensures var s := Exec(limits, n, steps).value;
            && InFlight(s) <= n
            && |s.inner.entries| + |s.roomed| <= Peak(limits, n) <= limits.maxEntries - 1 + n
            && Agree(s.inner)
  {
    if steps != [] {
      CapacityBound(limits, n, steps[..|steps| - 1]);
      var s := Exec(limits, n, steps[..|steps| - 1]).value;
      StepKeepsBound(limits, n, s, steps[|steps| - 1]);
    }
  }

  lemma StepKeepsBound(limits: Limits, n: nat, s: System, step: Step)
    requires limits.maxEntries >= 1 && Enabled(n, s, step)
    requires InFlight(s) <= n && Agree(s.inner) && |s.inner.entries| + |s.roomed| <= Peak(limits, n)
    ensures var t := Next(limits, n, s, step);
            && InFlight(t) <= n && Agree(t.inner)
            && |t.inner.entries| + |t.roomed| <= Peak(limits, n)
  {
    match step
    case Begin(_, _) =>
    case RoomBy(task, at) =>
      RoomShrinks(limits, s.inner, at);
      TaskLeaves(s.called, task);
    case PutBy(task, at) =>
      TaskLeaves(s.roomed, task);
    case Count(at) =>
      SweepAgree(s.inner, limits.ttl, at);
      Cardinality(SweepExpired(s.inner, limits.ttl, at).entries.Keys, s.inner.entries.Keys);
  }

  lemma RoomShrinks(limits: Limits, s: Inner, at: int)
    requires limits.maxEntries >= 1 && Agree(s)
    ensures Agree(MakeRoom(limits, s, at))
    ensures |MakeRoom(limits, s, at).entries| <= Peak(limits, 0)
    ensures forall jti :: jti in MakeRoom(limits, s, at).order ==> jti in s.order
  {
    var swept := SweepExpired(s, limits.ttl, at);
    SweepAgree(s, limits.ttl, at);
    EvictionMakesRoom(swept, limits.maxEntries);
    EvictedOrder(swept, limits.maxEntries);
    KeepHeldMembers(s.order, LiveEntries(s.entries, limits.ttl, at).Keys);
    if limits.ttl == Some(0) {
      assert swept.entries == map[];
      EvictionOnlyRemoves(swept, limits.maxEntries);
      assert MakeRoom(limits, s, at).entries.Keys == {};
    }
  }

  // Distinct jtis, told apart by their length.
  function Name(i: nat): (name: string)
    ensures |name| == i
  {
    seq(i, _ => 'x')
  }

  // `k` entries made at instant zero under the first `k` names.
  ghost predicate Holds(entries: map<string, int>, k: nat) {
    |entries| == k && forall name :: name in entries ==> |name| < k && entries[name] == 0
  }

  // Exactly the tasks from `lo` up to `hi` have made room, task i for Name(m + i).
  ghost predicate Pending(roomed: map<nat, string>, m: nat, lo: nat, hi: nat) {
    && lo <= hi && |roomed| == hi - lo
    && (forall i :: i in roomed <==> lo <= i < hi)
    && (forall i :: i in roomed ==> roomed[i] == Name(m + i))
  }

  ghost predicate At(s: System, k: nat, m: nat, lo: nat, hi: nat) {
    s.called == map[] && Holds(s.inner.entries, k) && Pending(s.roomed, m, lo, hi)
  }

  // The peak is attained for every number of calls: fill up to one below the bound (not at all if the
  // time to live is zero), let every call make room, then let every call insert.
  lemma OvershootAttained(limits: Limits, n: nat) returns (steps: seq<Step>)
    requires limits.maxEntries >= 1 && n >= 1
    ensures Exec(limits, n, steps).Some?
    ensures |Exec(limits, n, steps).value.inner.entries| == Peak(limits, n)
  {
    var m := if limits.ttl == Some(0) then 0 else limits.maxEntries - 1;
    steps := FillAlone(limits, n, m);
    steps := AllMakeRoom(limits, n, steps, m, n);
    steps := AllInsert(limits, n, steps, m, n);
  }

  // Making room leaves `k` entries alone.
  predicate Idle(limits: Limits, k: nat) {
    k < limits.maxEntries && (limits.ttl == Some(0) ==> k == 0)
  }

  lemma RoomIdle(limits: Limits, s: Inner, k: nat)
    requires Idle(limits, k) && Holds(s.entries, k)
    ensures MakeRoom(limits, s, 0).entries == s.entries
  {
    assert LiveEntries(s.entries, limits.ttl, 0) == s.entries;
  }

  lemma PendingNext(roomed: map<nat, string>, m: nat, lo: nat, hi: nat)
    requires Pending(roomed, m, lo, hi)
    ensures hi !in roomed && Pending(roomed[hi := Name(m + hi)], m, lo, hi + 1)
  {
    assert |roomed[hi := Name(m + hi)]| == |roomed| + 1;
  }

  // One more call begins and makes room; the entries stay as they are.
  lemma CallAndMakeRoom(limits: Limits, n: nat, steps: seq<Step>, k: nat, m: nat, lo: nat, hi: nat)
    returns (more: seq<Step>)
    requires Idle(limits, k) && hi - lo < n
    requires Exec(limits, n, steps).Some? && At(Exec(limits, n, steps).value, k, m, lo, hi)
    ensures Exec(limits, n, more).Some? && At(Exec(limits, n, more).value, k, m, lo, hi + 1)
  {
    var s := Exec(limits, n, steps).value;
    var name := Name(m + hi);
    PendingNext(s.roomed, m, lo, hi);
    Then(limits, n, steps, Begin(hi, name));
    var begun := steps + [Begin(hi, name)];
    var t := System(s.inner, map[hi := name], s.roomed);
    assert Exec(limits, n, begun) == Some(t);
    Then(limits, n, begun, RoomBy(hi, 0));
    more := begun + [RoomBy(hi, 0)];
    RoomIdle(limits, s.inner, k);
    assert map[hi := name] - {hi} == map[];
    assert Exec(limits, n, more) == Some(System(MakeRoom(limits, s.inner, 0), map[], s.roomed[hi := name]));
  }

  lemma PutFirst(limits: Limits, n: nat, steps: seq<Step>, k: nat, m: nat, lo: nat, hi: nat)
    returns (more: seq<Step>)
    requires lo < hi && k == m + lo
    requires Exec(limits, n, steps).Some? && At(Exec(limits, n, steps).value, k, m, lo, hi)
    ensures Exec(limits, n, more).Some? && At(Exec(limits, n, more).value, k + 1, m, lo + 1, hi)
  {
    var s := Exec(limits, n, steps).value;
    assert lo in s.roomed && s.roomed[lo] == Name(k) && Name(k) !in s.inner.entries;
    Then(limits, n, steps, PutBy(lo, 0));
    more := steps + [PutBy(lo, 0)];
    TaskLeaves(s.roomed, lo);
    assert s.inner.entries[Name(k) := 0].Keys == s.inner.entries.Keys + {Name(k)};
  }

  lemma Then(limits: Limits, n: nat, steps: seq<Step>, step: Step)
    requires Exec(limits, n, steps).Some? && Enabled(n, Exec(limits, n, steps).value, step)
    ensures Exec(limits, n, steps + [step]) == Some(Next(limits, n, Exec(limits, n, steps).value, step))
  {
    assert (steps + [step])[..|steps|] == steps;
  }

  lemma FillAlone(limits: Limits, n: nat, k: nat) returns (steps: seq<Step>)
    requires n >= 1 && Idle(limits, k)
    ensures Exec(limits, n, steps).Some? && At(Exec(limits, n, steps).value, k, k, 0, 0)
  {
    if k == 0 {
      steps := [];
    } else {
      steps := FillAlone(limits, n, k - 1);
      steps := CallAndMakeRoom(limits, n, steps, k - 1, k - 1, 0, 0);
      steps := PutFirst(limits, n, steps, k - 1, k - 1, 0, 1);
      assert Exec(limits, n, steps).value.roomed == map[];
    }
  }

  lemma AllMakeRoom(limits: Limits, n: nat, filled: seq<Step>, m: nat, k: nat) returns (steps: seq<Step>)
    requires Idle(limits, m) && k <= n
    requires Exec(limits, n, filled).Some? && At(Exec(limits, n, filled).value, m, m, 0, 0)
    ensures Exec(limits, n, steps).Some? && At(Exec(limits, n, steps).value, m, m, 0, k)
  {
    if k == 0 {
      steps := filled;
    } else {
      var before := AllMakeRoom(limits, n, filled, m, k - 1);
      assert At(Exec(limits, n, before).value, m, m, 0, k - 1);
      steps := CallAndMakeRoom(limits, n, before, m, m, 0, k - 1);
    }
  }

  lemma AllInsert(limits: Limits, n: nat, roomed: seq<Step>, m: nat, k: nat) returns (steps: seq<Step>)
    requires k <= n
    requires Exec(limits, n, roomed).Some? && At(Exec(limits, n, roomed).value, m, m, 0, n)
    ensures Exec(limits, n, steps).Some? && At(Exec(limits, n, steps).value, m + k, m, k, n)
  {
    if k == 0 {
      steps := roomed;
    } else {
      var before := AllInsert(limits, n, roomed, m, k - 1);
      assert At(Exec(limits, n, before).value, m + k - 1, m, k - 1, n);
      steps := PutFirst(limits, n, before, m + k - 1, m, k - 1, n);
    }
  }

  ghost predicate NeverAbove(limits: Limits, n: nat, bound: nat) {
    forall steps: seq<Step> :: Exec(limits, n, steps).Some? ==> |Exec(limits, n, steps).value.inner.entries| <= bound
  }

  // The peak is the least bound. So the documented hard cap is one exactly when at most one call is in
  // flight at a time, or, with a time to live of zero, at most as many as the cap allows entries.
  lemma HardCapExactly(limits: Limits, n: nat)
    requires limits.maxEntries >= 1 && n >= 1
    ensures forall bound: nat :: NeverAbove(limits, n, bound) <==> bound >= Peak(limits, n)
    ensures NeverAbove(limits, n, limits.maxEntries)
       <==> if limits.ttl == Some(0) then n <= limits.maxEntries else n == 1
  {
    var worst := OvershootAttained(limits, n);
    forall steps: seq<Step> | Exec(limits, n, steps).Some?
      ensures |Exec(limits, n, steps).value.inner.entries| <= Peak(limits, n)
    {
      CapacityBound(limits, n, steps);
    }
  }

  function Puts(es: seq<Event>): nat {
    if es == [] then 0 else Puts(es[..|es| - 1]) + (if es[|es| - 1].Put? then 1 else 0)
  }

  // Whenever room is made, fewer than `maxEntries - 1` insertions have followed.
  ghost predicate RoomLeft(limits: Limits, es: seq<Event>) {
    forall k :: 0 <= k < |es| && es[k].Room? ==> Puts(es[..k]) + 1 < limits.maxEntries
  }

  ghost predicate Between(es: seq<Event>, from: int, to: int) {
    forall k :: 0 <= k < |es| ==> from <= es[k].at <= to
  }

  // `jti` is held with one slot before all of `post`, and none before it.
  ghost predicate Placed(s: Inner, jti: string, from: int, pre: seq<string>, post: seq<string>) {
    && s.order == pre + [jti] + post && jti !in pre
    && jti in s.entries && s.entries[jti] >= from
    && Agree(s)
  }

  // Safety over every interleaving: a jti inserted without an older slot in the queue reads as
  // revoked until its time to live is over, whatever other calls do to the store meanwhile, itself
  // revoked again included, as long as there is room for the insertions behind it.
  lemma StaysRevoked(limits: Limits, s: Inner, jti: string, at: int, later: seq<Event>, now: int)
    requires limits.maxEntries >= 1 && Agree(s) && jti !in s.order
    requires at <= now && Between(later, at, now) && RoomLeft(limits, later)
    requires limits.ttl.Some? ==> now - at < limits.ttl.value
    ensures IsRevoked(ApplyAll(limits, Insert(s, jti, at), later), limits.ttl, jti, now)
  {
    var pre, post := StaysPlaced(limits, s, jti, at, later, now);
  }

  lemma {:induction false} StaysPlaced(limits: Limits, s: Inner, jti: string, at: int, later: seq<Event>, now: int)
    returns (pre: seq<string>, post: seq<string>)
    requires limits.maxEntries >= 1 && Agree(s) && jti !in s.order
    requires at <= now && Between(later, at, now) && RoomLeft(limits, later)
    requires limits.ttl.Some? ==> now - at < limits.ttl.value
    ensures Placed(ApplyAll(limits, Insert(s, jti, at), later), jti, at, pre, post)
    ensures |post| <= Puts(later)
  {
    if later == [] {
      pre, post := s.order, [];
      assert Insert(s, jti, at).order == pre + [jti] + post;
    } else {
      var before, e := later[..|later| - 1], later[|later| - 1];
      forall k | 0 <= k < |before| && before[k].Room?
        ensures Puts(before[..k]) + 1 < limits.maxEntries
      {
        assert before[..k] == later[..k] && later[k].Room?;
      }
      pre, post := StaysPlaced(limits, s, jti, at, before, now);
      var t := ApplyAll(limits, Insert(s, jti, at), before);
      match e
      case Sweep(swept) =>
        pre, post := SweepPlaced(limits, t, jti, at, pre, post, swept, now);
      case Room(swept) =>
        assert later[..|later| - 1] == before && later[|later| - 1].Room?;
        pre, post := SweepPlaced(limits, t, jti, at, pre, post, swept, now);
        pre := EvictPlaced(SweepExpired(t, limits.ttl, swept), limits.maxEntries, jti, at, pre, post);
      case Put(other, put) =>
        assert Insert(t, other, put).order == pre + [jti] + (post + [other]);
        post := post + [other];
    }
  }

  lemma SweepPlaced(limits: Limits, s: Inner, jti: string, from: int, pre: seq<string>, post: seq<string>,
                    swept: int, now: int) returns (pre': seq<string>, post': seq<string>)
    requires Placed(s, jti, from, pre, post) && from <= swept <= now
    requires limits.ttl.Some? ==> now - from < limits.ttl.value
    ensures Placed(SweepExpired(s, limits.ttl, swept), jti, from, pre', post')
    ensures |post'| <= |post|
  {
    SweepAgree(s, limits.ttl, swept);
    if limits.ttl.None? {
      pre', post' := pre, post;
    } else {
      var held := LiveEntries(s.entries, limits.ttl, swept).Keys;
      pre', post' := KeepHeld(pre, held), KeepHeld(post, held);
      KeepHeldAround(pre, jti, post, held);
    }
  }

  lemma EvictPlaced(s: Inner, maxEntries: nat, jti: string, from: int, pre: seq<string>, post: seq<string>)
    returns (pre': seq<string>)
    requires Placed(s, jti, from, pre, post) && 1 + |post| < maxEntries
    ensures Placed(EvictOldestTo(s, maxEntries), jti, from, pre', post)
  {
    NotBeforeFits(s, jti, pre, post);
    EvictionKeeps(s, maxEntries, jti);
    EvictionMakesRoom(s, maxEntries);
    EvictionOnlyRemoves(s, maxEntries);
    var popped := EvictShape(s, maxEntries);
    InPrefix(s.order, |pre|, popped);
    assert s.order[|pre|] == jti;
    pre' := SuffixSplit(s.order, pre, jti, post, popped);
  }

  lemma SuffixSplit(order: seq<string>, pre: seq<string>, jti: string, post: seq<string>, n: nat)
    returns (pre': seq<string>)
    requires order == pre + [jti] + post && jti !in pre && n <= |pre|
    ensures order[n..] == pre' + [jti] + post && jti !in pre'
  {
    pre' := pre[n..];
  }

  lemma InPrefix(order: seq<string>, i: nat, n: nat)
    requires i < |order| && n <= |order|
    ensures i < n ==> order[i] in Names(order[..n])
  {
    if i < n {
      assert order[..n][i] == order[i];
    }
  }

  lemma NotBeforeFits(s: Inner, jti: string, pre: seq<string>, post: seq<string>)
    requires s.order == pre + [jti] + post && jti !in pre && Agree(s)
    ensures jti in s.order && |NotBefore(s, jti)| <= 1 + |post|
  {
    FirstSlotIs(s.order, jti, pre, post);
    assert s.order[..|pre|] == pre;
    Cardinality(NotBefore(s, jti), Names([jti] + post));
    NamesCount([jti] + post);
  }

  lemma NamesCount(slots: seq<string>)
    ensures |Names(slots)| <= |slots|
  {
    if slots != [] {
      NamesCount(slots[1..]);
      assert slots == [slots[0]] + slots[1..];
      assert Names(slots) == {slots[0]} + Names(slots[1..]);
    } else {
      assert Names(slots) == {};
    }
  }

  function Begins(steps: seq<Step>): nat {
    if steps == [] then 0 else Begins(steps[..|steps| - 1]) + (if steps[|steps| - 1].Begin? then 1 else 0)
  }

  ghost predicate StepsBetween(steps: seq<Step>, from: int, to: int) {
    forall k :: 0 <= k < |steps| && !steps[k].Begin? ==> from <= steps[k].at <= to
  }

  lemma RoomLeftThen(limits: Limits, es: seq<Event>, e: Event)
    requires RoomLeft(limits, es) && (e.Room? ==> Puts(es) + 1 < limits.maxEntries)
    ensures RoomLeft(limits, es + [e]) && Puts(es + [e]) == Puts(es) + (if e.Put? then 1 else 0)
  {
    var all := es + [e];
    assert all[..|es|] == es;
    forall k | 0 <= k < |all| && all[k].Room?
      ensures Puts(all[..k]) + 1 < limits.maxEntries
    {
      if k < |es| {
        assert all[..k] == es[..k] && es[k].Room?;
      } else {
        assert all[..k] == es;
      }
    }
  }

  lemma TaskLeaves(tasks: map<nat, string>, task: nat)
    requires task in tasks
    ensures |tasks - {task}| == |tasks| - 1
  {
    assert (tasks - {task}).Keys == tasks.Keys - {task};
  }

  lemma InFlightStep(limits: Limits, n: nat, s: System, step: Step)
    requires Enabled(n, s, step)
    ensures InFlight(Next(limits, n, s, step)) + (if step.PutBy? then 1 else 0)
         <= InFlight(s) + (if step.Begin? then 1 else 0)
    ensures step.RoomBy? ==> InFlight(s) > 0
  {
    match step
    case RoomBy(task, _) => TaskLeaves(s.called, task);
    case PutBy(task, _) => TaskLeaves(s.roomed, task);
    case _ =>
  }

  lemma StepLeavesRoom(limits: Limits, s: System, es: seq<Event>, step: Step)
    requires step.PutBy? ==> step.task in s.roomed
    requires RoomLeft(limits, es) && (step.RoomBy? ==> Puts(es) + 1 < limits.maxEntries)
    ensures RoomLeft(limits, es + EventOf(s, step))
    ensures Puts(es + EventOf(s, step)) == Puts(es) + (if step.PutBy? then 1 else 0)
  {
    match step
    case Begin(_, _) => assert es + EventOf(s, step) == es;
    case RoomBy(_, at) => RoomLeftThen(limits, es, Room(at));
    case PutBy(task, at) => RoomLeftThen(limits, es, Put(s.roomed[task], at));
    case Count(at) => RoomLeftThen(limits, es, Sweep(at));
  }

  // What the caller can count: if the calls in flight at one point of a run and those that begin later
  // are together fewer than `maxEntries`, then from there on there is always room behind that point.
  lemma {:induction false} CallsLeaveRoom(limits: Limits, n: nat, first: seq<Step>, after: seq<Step>,
                                          from: int, to: int)
    returns (later: seq<Event>)
    requires Exec(limits, n, first + after).Some? && Exec(limits, n, first).Some?
    requires InFlight(Exec(limits, n, first).value) + Begins(after) < limits.maxEntries
    requires StepsBetween(after, from, to)
    ensures Exec(limits, n, first + after).value.inner
         == ApplyAll(limits, Exec(limits, n, first).value.inner, later)
    ensures RoomLeft(limits, later) && Between(later, from, to)
    ensures Puts(later) + InFlight(Exec(limits, n, first + after).value)
         <= InFlight(Exec(limits, n, first).value) + Begins(after)
  {
    if after == [] {
      assert first + after == first;
      later := [];
    } else {
      var before, step := after[..|after| - 1], after[|after| - 1];
      assert (first + after)[..|first + after| - 1] == first + before;
      var es := CallsLeaveRoom(limits, n, first, before, from, to);
      var s := Exec(limits, n, first + before).value;
      StepIsEvent(limits, n, s, Exec(limits, n, first).value.inner, es, step);
      InFlightStep(limits, n, s, step);
      StepLeavesRoom(limits, s, es, step);
      later := es + EventOf(s, step);
    }
  }

  lemma {:induction false} RunsSplit(limits: Limits, n: nat, first: seq<Step>, after: seq<Step>)
    requires Exec(limits, n, first + after).Some?
    ensures Exec(limits, n, first).Some?
  {
    if after == [] {
      assert first + after == first;
    } else {
      assert (first + after)[..|first + after| - 1] == first + after[..|after| - 1];
      RunsSplit(limits, n, first, after[..|after| - 1]);
    }
  }

  // The last step of `first` inserts the jti of `task`, which has no older slot in the queue.
  ghost predicate InsertsNew(limits: Limits, n: nat, first: seq<Step>, task: nat, at: int, jti: string) {
    && first != [] && first[|first| - 1] == PutBy(task, at)
    && Exec(limits, n, first).Some?
    && var s := Exec(limits, n, first[..|first| - 1]).value;
       s.roomed[task] == jti && jti !in s.inner.order
  }

  // Safety for callers: a jti inserted without an older slot in the queue reads as revoked until its
  // time to live is over, in every run in which the calls still in flight after the insertion and
  // those that begin later are fewer than `maxEntries`.
  lemma RevokedThroughRun(limits: Limits, n: nat, first: seq<Step>, task: nat, at: int, jti: string,
                          after: seq<Step>, now: int)
    requires limits.maxEntries >= 1 && n >= 1 && InsertsNew(limits, n, first, task, at, jti)
    requires Exec(limits, n, first + after).Some?
    requires InFlight(Exec(limits, n, first).value) + Begins(after) < limits.maxEntries
    requires at <= now && StepsBetween(after, at, now)
    requires limits.ttl.Some? ==> now - at < limits.ttl.value
    ensures IsRevoked(Exec(limits, n, first + after).value.inner, limits.ttl, jti, now)
  {
    var later := CallsLeaveRoom(limits, n, first, after, at, now);
    var before := first[..|first| - 1];
    CapacityBound(limits, n, before);
    StaysRevoked(limits, Exec(limits, n, before).value.inner, jti, at, later, now);
  }

  // No slot of `jti` yet, and only `callers` may insert one.
  ghost predicate NoSlotYet(s: System, jti: string, callers: set<nat>) {
    && jti !in s.inner.order
    && (forall t :: t in s.called && s.called[t] == jti ==> t in callers)
    && (forall t :: t in s.roomed && s.roomed[t] == jti ==> t in callers)
  }

  // No call begins for `jti`, and none of `callers` inserts.
  ghost predicate Apart(steps: seq<Step>, jti: string, callers: set<nat>) {
    forall k :: 0 <= k < |steps| ==>
      && (steps[k].Begin? ==> steps[k].jti != jti)
      && (steps[k].PutBy? ==> steps[k].task !in callers)
  }

  lemma StepNoSlot(limits: Limits, n: nat, s: System, jti: string, callers: set<nat>, step: Step)
    requires limits.maxEntries >= 1 && Enabled(n, s, step) && Agree(s.inner)
    requires NoSlotYet(s, jti, callers) && Apart([step], jti, callers)
    ensures NoSlotYet(Next(limits, n, s, step), jti, callers)
  {
    assert [step][0] == step;
    match step
    case RoomBy(_, at) => RoomShrinks(limits, s.inner, at);
    case Count(at) => KeepHeldMembers(s.inner.order, LiveEntries(s.inner.entries, limits.ttl, at).Keys);
    case _ =>
  }

  lemma {:induction false} RunNoSlot(limits: Limits, n: nat, first: seq<Step>, after: seq<Step>, jti: string,
                                     callers: set<nat>)
    requires limits.maxEntries >= 1 && n >= 1
    requires Exec(limits, n, first).Some? && Exec(limits, n, first + after).Some?
    requires NoSlotYet(Exec(limits, n, first).value, jti, callers) && Apart(after, jti, callers)
    ensures NoSlotYet(Exec(limits, n, first + after).value, jti, callers)
  {
    if after == [] {
      assert first + after == first;
    } else {
      var before, step := after[..|after| - 1], after[|after| - 1];
      assert (first + after)[..|first + after| - 1] == first + before;
      RunNoSlot(limits, n, first, before, jti, callers);
      CapacityBound(limits, n, first + before);
      StepNoSlot(limits, n, Exec(limits, n, first + before).value, jti, callers, step);
    }
  }

  // The condition on the queue follows from what callers do: if no call for the jti began before this
  // one or begins before it inserts, it finds no slot.
  lemma FirstCallFindsNoSlot(limits: Limits, n: nat, before: seq<Step>, task: nat, jti: string, between: seq<Step>)
    requires limits.maxEntries >= 1 && n >= 1
    requires Exec(limits, n, before + [Begin(task, jti)] + between).Some?
    requires Apart(before, jti, {}) && Apart(between, jti, {task})
    ensures jti !in Exec(limits, n, before + [Begin(task, jti)] + between).value.inner.order
  {
    var begun := before + [Begin(task, jti)];
    RunsSplit(limits, n, begun, between);
    assert begun[..|before|] == before && [] + before == before;
    RunNoSlot(limits, n, [], before, jti, {});
    RunNoSlot(limits, n, begun, between, jti, {task});
  }
}
