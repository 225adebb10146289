/**
 "N concurrent misses trigger exactly one fetch": how many requests the calls that miss send in every
 run, late arrivals included, and exactly when it is one.
 */
module JwksCoalescing {
  import opened Wrappers
  import opened Jwks
  import opened JwksProtocol
  import opened JwksSafety

  ghost predicate Stale(cfg: Config, s: State) {
    cfg.hasUrl && !IsFresh(s.fetchedAt, cfg.minInterval, s.now)
  }

  // The cache is stale and nothing is under way: some calls may wait for the lock, all others are over.
  ghost predicate Quiet(cfg: Config, s: State) {
    && Stale(cfg, s) && !cfg.staticKeys && Inv(cfg, s) && s.lock == None
    && forall t :: t in s.pcs ==> s.pcs[t].Waiting? || s.pcs[t].Done?
  }

  ghost predicate AllDone(s: State) {
    forall t :: t in s.pcs ==> s.pcs[t].Done?
  }

  ghost predicate Unforced(steps: seq<Step>) {
    forall k :: 0 <= k < |steps| ==> !steps[k].Force?
  }

  predicate Queues(pc: Pc) {
    pc.Waiting? || pc.Locked?
  }

  // The calls that missed and have yet to look again under the lock.
  function Queued(s: State): set<nat> {
    set t | t in s.pcs && Queues(s.pcs[t])
  }

  predicate Misses(cfg: Config, s: State, step: Step) {
    step.Ask? && !(IsFresh(s.fetchedAt, cfg.ttl, s.now) && step.want in s.keys)
  }

  // The calls that miss on the first look: those queued in `s` and those that come during the run.
  function Missed(cfg: Config, s: State, steps: seq<Step>): nat
    requires Exec(cfg, s, steps).Some?
  {
    if steps == [] then |Queued(s)|
    else
      var before := steps[..|steps| - 1];
      Missed(cfg, s, before) + (if Misses(cfg, Exec(cfg, s, before).value, steps[|steps| - 1]) then 1 else 0)
  }

  function Checks(steps: seq<Step>): nat {
    if steps == [] then 0 else Checks(steps[..|steps| - 1]) + (if steps[|steps| - 1].Check? then 1 else 0)
  }

  // Every call that misses looks under the lock once, however the calls interleave.
  lemma {:induction false} EveryMissChecks(cfg: Config, s: State, steps: seq<Step>)
    requires !cfg.staticKeys && Exec(cfg, s, steps).Some?
    ensures Checks(steps) + |Queued(Exec(cfg, s, steps).value)| == Missed(cfg, s, steps)
  {
    if steps != [] {
      var t, step := Exec(cfg, s, steps[..|steps| - 1]).value, steps[|steps| - 1];
      EveryMissChecks(cfg, s, steps[..|steps| - 1]);
      QueueMoves(cfg, t, step);
    }
  }

  lemma QueueMoved(t: State, u: State, task: nat, pc: Pc)
    requires u.pcs == t.pcs[task := pc]
    ensures |Queued(u)| == |Queued(t)| + (if Queues(pc) then 1 else 0) - (if task in Queued(t) then 1 else 0)
  {
    assert Queued(u) == if Queues(pc) then Queued(t) - {task} + {task} else Queued(t) - {task};
    assert |Queued(t) - {task}| == |Queued(t)| - (if task in Queued(t) then 1 else 0);
  }

  lemma QueueMoves(cfg: Config, t: State, step: Step)
    requires !cfg.staticKeys && Enabled(t, step)
    ensures |Queued(Next(cfg, t, step))| + (if step.Check? then 1 else 0)
         == |Queued(t)| + (if Misses(cfg, t, step) then 1 else 0)
  {
    var u := Next(cfg, t, step);
    if step.Tick? || step.Publish? {
      assert Queued(u) == Queued(t);
    } else {
      QueueMoved(t, u, step.task, u.pcs[step.task]);
    }
  }

  function InAir(s: State): nat {
    if s.lock.Some? && s.lock.value in s.pcs && (s.pcs[s.lock.value].Sent? || s.pcs[s.lock.value].Got?) then 1 else 0
  }

  // Overwrites since `s`, and whether the first of them is still younger than the refresh interval.
  ghost predicate Recent(cfg: Config, s: State, t: State) {
    |t.commits| > |s.commits| ==> t.now - t.commits[|s.commits|].at < cfg.minInterval
  }

  ghost predicate Tally(cfg: Config, s: State, checks: nat, t: State) {
    && s.now <= t.now && s.commits <= t.commits && s.failures <= t.failures
    && (forall u :: u in t.pcs && (t.pcs[u].Sent? || t.pcs[u].Got?) ==> t.pcs[u].who.Some?)
    && t.requests - s.requests == t.failures - s.failures + (|t.commits| - |s.commits|) + InAir(t)
    && (|t.commits| == |s.commits| ==> t.fetchedAt == s.fetchedAt)
    && (|t.commits| == |s.commits| || cfg.minInterval == 0 ==> t.requests - s.requests == checks)
  }

  // At most one overwrite, and no request after it.
  ghost predicate OneOverwrite(s: State, t: State) {
    |t.commits| <= |s.commits| + 1 && (|t.commits| == |s.commits| + 1 ==> InAir(t) == 0)
  }

  // Every look under the lock comes within the refresh interval of the first overwrite, if any.
  ghost predicate ChecksInTime(cfg: Config, s: State, steps: seq<Step>)
    requires Exec(cfg, s, steps).Some?
  {
    steps != [] ==>
      var t := Exec(cfg, s, steps[..|steps| - 1]).value;
      && ChecksInTime(cfg, s, steps[..|steps| - 1])
      && (steps[|steps| - 1].Check? ==> Recent(cfg, s, t))
  }

  ghost predicate Stamped(t: State) {
    t.commits != [] ==>
      t.fetchedAt == Some(t.commits[|t.commits| - 1].at) && t.commits[|t.commits| - 1].at <= t.now
  }

  lemma {:induction false} RunTally(cfg: Config, s: State, steps: seq<Step>)
    requires Quiet(cfg, s) && Unforced(steps) && Exec(cfg, s, steps).Some?
    ensures Inv(cfg, Exec(cfg, s, steps).value) && Tally(cfg, s, Checks(steps), Exec(cfg, s, steps).value)
  {
    if steps != [] {
      var before := steps[..|steps| - 1];
      RunTally(cfg, s, before);
      var t, step := Exec(cfg, s, before).value, steps[|steps| - 1];
      assert !step.Force?;
      StepKeeps(cfg, t, step);
      StepTally(cfg, s, Checks(before), t, step);
    }
  }

  lemma StepTally(cfg: Config, s: State, checks: nat, t: State, step: Step)
    requires Stale(cfg, s) && Tally(cfg, s, checks, t) && LockOk(t) && Stamped(t)
    requires Enabled(t, step) && !step.Force?
    ensures Tally(cfg, s, checks + (if step.Check? then 1 else 0), Next(cfg, t, step))
  {
    if step.Check? {
      CheckTally(cfg, s, checks, t, step.task);
    } else if step.Install? {
      InstallTally(cfg, s, checks, t, step.task);
    } else {
      OtherTally(cfg, s, checks, t, step);
    }
  }

  lemma CheckTally(cfg: Config, s: State, checks: nat, t: State, task: nat)
    requires Stale(cfg, s) && Tally(cfg, s, checks, t) && LockOk(t) && Stamped(t)
    requires task in t.pcs && t.pcs[task].Locked?
    ensures Tally(cfg, s, checks + 1, Checked(cfg, t, task, t.pcs[task].call))
  {
    assert t.lock == Some(task);
  }

  lemma InstallTally(cfg: Config, s: State, checks: nat, t: State, task: nat)
    requires Tally(cfg, s, checks, t) && LockOk(t)
    requires task in t.pcs && t.pcs[task].Got? && t.pcs[task].version < |t.docs|
    ensures Tally(cfg, s, checks, Installed(t, task, t.pcs[task].who, t.pcs[task].flight, t.pcs[task].version))
  {
    var pc := t.pcs[task];
    var u := Installed(t, task, pc.who, pc.flight, pc.version);
    assert t.lock == Some(task) && InAir(t) == 1 && InAir(u) == 0;
  }

  lemma OtherTally(cfg: Config, s: State, checks: nat, t: State, step: Step)
    requires Tally(cfg, s, checks, t) && LockOk(t) && Enabled(t, step)
    requires !step.Force? && !step.Check? && !step.Install?
    ensures Tally(cfg, s, checks, Next(cfg, t, step))
  {
    var u := Next(cfg, t, step);
    assert u.commits == t.commits && u.fetchedAt == t.fetchedAt && u.now >= t.now;
    assert u.requests == t.requests;
    assert InAir(u) + u.failures == InAir(t) + t.failures;
  }

  lemma {:induction false} RunOverwritesOnce(cfg: Config, s: State, steps: seq<Step>)
    requires Quiet(cfg, s) && Unforced(steps) && Exec(cfg, s, steps).Some? && ChecksInTime(cfg, s, steps)
    ensures OneOverwrite(s, Exec(cfg, s, steps).value)
  {
    if steps != [] {
      var before := steps[..|steps| - 1];
      RunOverwritesOnce(cfg, s, before);
      RunTally(cfg, s, before);
      assert !steps[|steps| - 1].Force?;
      StepOverwritesOnce(cfg, s, Checks(before), Exec(cfg, s, before).value, steps[|steps| - 1]);
    }
  }

  lemma StepOverwritesOnce(cfg: Config, s: State, checks: nat, t: State, step: Step)
    requires Tally(cfg, s, checks, t) && LockOk(t) && Stamped(t) && OneOverwrite(s, t)
    requires Enabled(t, step) && !step.Force? && (step.Check? ==> Recent(cfg, s, t))
    ensures OneOverwrite(s, Next(cfg, t, step))
  {
    if step.Install? || step.Check? {
      assert t.lock == Some(step.task);
    }
  }

  // Calls may come, miss and finish at any time. If every look under the lock comes within the refresh
  // interval of the first overwrite, the N calls that miss send one request per failure plus the one
  // that succeeded, and N if none does. So two or more share exactly one request iff none fails.
  lemma CoalescingExactly(cfg: Config, s: State, steps: seq<Step>)
    requires Quiet(cfg, s) && Unforced(steps) && Exec(cfg, s, steps).Some? && ChecksInTime(cfg, s, steps)
    requires AllDone(Exec(cfg, s, steps).value)
    ensures var t, n := Exec(cfg, s, steps).value, Missed(cfg, s, steps);
            var requests, failures := t.requests - s.requests, t.failures - s.failures;
            && requests == (if |t.commits| > |s.commits| then failures + 1 else n)
            && (|t.commits| == |s.commits| ==> failures == n)
            && (n >= 2 ==> (requests == 1 <==> failures == 0))
  {
    RunTally(cfg, s, steps);
    RunOverwritesOnce(cfg, s, steps);
    EveryMissChecks(cfg, s, steps);
    assert Queued(Exec(cfg, s, steps).value) == {};
  }

  // If at most one request is sent, every look under the lock after an overwrite finds the map fresh.
  lemma {:induction false} OneRequestInTime(cfg: Config, s: State, steps: seq<Step>)
    requires Quiet(cfg, s) && Unforced(steps) && Exec(cfg, s, steps).Some?
    requires Exec(cfg, s, steps).value.requests <= s.requests + 1
    ensures ChecksInTime(cfg, s, steps)
  {
    if steps != [] {
      var before, step := steps[..|steps| - 1], steps[|steps| - 1];
      var t := Exec(cfg, s, before).value;
      RunTally(cfg, s, before);
      assert !step.Force?;
      OneRequestStep(cfg, s, Checks(before), t, step);
      OneRequestInTime(cfg, s, before);
    }
  }

  lemma OneRequestStep(cfg: Config, s: State, checks: nat, t: State, step: Step)
    requires Stale(cfg, s) && Tally(cfg, s, checks, t) && Stamped(t)
    requires Enabled(t, step) && !step.Force? && Next(cfg, t, step).requests <= s.requests + 1
    ensures t.requests <= s.requests + 1
    ensures step.Check? ==> Recent(cfg, s, t)
  {
    if step.Check? && |t.commits| > |s.commits| {
      assert IsFresh(t.fetchedAt, cfg.minInterval, t.now);
    }
  }

  // And exactly, for all such runs: two or more misses share one request iff none fails and every
  // look under the lock comes within the refresh interval of the first overwrite.
  lemma OneFetchExactly(cfg: Config, s: State, steps: seq<Step>)
    requires Quiet(cfg, s) && Unforced(steps) && Exec(cfg, s, steps).Some?
    requires AllDone(Exec(cfg, s, steps).value) && Missed(cfg, s, steps) >= 2
    ensures Exec(cfg, s, steps).value.requests == s.requests + 1
       <==> Exec(cfg, s, steps).value.failures == s.failures && ChecksInTime(cfg, s, steps)
  {
    var t := Exec(cfg, s, steps).value;
    if t.requests == s.requests + 1 {
      RunTally(cfg, s, steps);
      EveryMissChecks(cfg, s, steps);
      assert Queued(t) == {};
      OneRequestInTime(cfg, s, steps);
    }
    if ChecksInTime(cfg, s, steps) {
      CoalescingExactly(cfg, s, steps);
    }
  }

  // With a zero interval, or when every request fails, N misses send N requests one after another.
  lemma NothingShared(cfg: Config, s: State, steps: seq<Step>)
    requires Quiet(cfg, s) && Unforced(steps) && Exec(cfg, s, steps).Some?
    requires AllDone(Exec(cfg, s, steps).value)
    requires cfg.minInterval == 0 || |Exec(cfg, s, steps).value.commits| == |s.commits|
    ensures Exec(cfg, s, steps).value.requests - s.requests == Missed(cfg, s, steps)
  {
    RunTally(cfg, s, steps);
    EveryMissChecks(cfg, s, steps);
    assert Queued(Exec(cfg, s, steps).value) == {};
  }
}
