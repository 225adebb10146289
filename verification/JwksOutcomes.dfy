/**
 What calls of the key cache end with, in every run: the right answer, for the right reason, after a
 bounded number of steps.
 */
module JwksOutcomes {
  import opened Wrappers
  import opened Jwks
  import opened JwksProtocol
  import opened JwksSafety

  // The document cached now publishes a convertible key under `want`, and `key` is the last such.
  ghost predicate Publishes(s: State, want: string, key: CachedKey) {
    && s.commits != [] && s.commits[|s.commits| - 1].version < |s.docs|
    && var doc := s.docs[s.commits[|s.commits| - 1].version];
       exists i :: LastUnder(doc, want, i) && key == CachedKey(doc[i].key.value, doc[i].alg)
  }

  ghost predicate Known(s: State, want: string) {
    exists key :: Publishes(s, want, key)
  }

  // The age of the cached document.
  function Age(s: State): int
    requires s.commits != []
  {
    s.now - s.commits[|s.commits| - 1].at
  }

  lemma KeysArePublished(s: State, want: string)
    requires CacheOk(s)
    ensures want in s.keys <==> Known(s, want)
    ensures forall key :: Publishes(s, want, key) ==> want in s.keys && s.keys[want] == key
    ensures want in s.keys ==> Publishes(s, want, s.keys[want])
  {
    if s.commits != [] {
      var doc := s.docs[s.commits[|s.commits| - 1].version];
      KeyMapIsLastUnder(doc, want);
      if want in s.keys {
        var i :| LastUnder(doc, want, i);
        assert Publishes(s, want, s.keys[want]);
      }
    }
  }

  // The first look ends the call iff the cached document knows the kid and is younger than the time to
  // live; then the call gets that key, and otherwise it goes for the lock.
  lemma AskServesExactly(cfg: Config, docs: seq<JwkSet>, began: int, steps: seq<Step>, task: nat, want: string)
    requires !cfg.staticKeys && Exec(cfg, Start(docs, began), steps).Some?
    requires Enabled(Exec(cfg, Start(docs, began), steps).value, Ask(task, want))
    ensures var s := Exec(cfg, Start(docs, began), steps).value;
            var pc := Next(cfg, s, Ask(task, want)).pcs[task];
            if Known(s, want) && Age(s) < cfg.ttl
            then pc.Done? && pc.outcome.Served? && Publishes(s, want, pc.outcome.key)
            else pc.Waiting? && pc.call.want == want
  {
    RunKeeps(cfg, docs, began, steps);
    KeysArePublished(Exec(cfg, Start(docs, began), steps).value, want);
  }

  // The last look always ends the call, with the key iff the cached document knows the kid, however old.
  lemma ReadServesExactly(cfg: Config, docs: seq<JwkSet>, began: int, steps: seq<Step>, task: nat)
    requires !cfg.staticKeys && Exec(cfg, Start(docs, began), steps).Some?
    requires Enabled(Exec(cfg, Start(docs, began), steps).value, Read(task))
    ensures var s := Exec(cfg, Start(docs, began), steps).value;
            var pc, want := Next(cfg, s, Read(task)).pcs[task], s.pcs[task].call.want;
            && pc.Done?
            && if Known(s, want) then pc.outcome.Served? && Publishes(s, want, pc.outcome.key)
               else pc.outcome.Missed?
  {
    RunKeeps(cfg, docs, began, steps);
    var s := Exec(cfg, Start(docs, began), steps).value;
    KeysArePublished(s, s.pcs[task].call.want);
  }

  // The task a step belongs to, if it is not the clock's or the endpoint's.
  predicate StepOf(step: Step, task: nat) {
    !step.Tick? && !step.Publish? && step.task == task
  }

  // Whatever step ends a call, a kid is reported unknown only if the document cached then does not know it.
  lemma MissesAreTrue(cfg: Config, docs: seq<JwkSet>, began: int, steps: seq<Step>, step: Step, task: nat)
    requires !cfg.staticKeys && Exec(cfg, Start(docs, began), steps).Some? && StepOf(step, task)
    requires Enabled(Exec(cfg, Start(docs, began), steps).value, step)
    ensures var s := Exec(cfg, Start(docs, began), steps).value;
            var pc := Next(cfg, s, step).pcs[task];
            pc.Done? && pc.outcome.Missed? ==> !Known(s, pc.outcome.call.want)
  {
    var s := Exec(cfg, Start(docs, began), steps).value;
    var pc := Next(cfg, s, step).pcs[task];
    RunKeeps(cfg, docs, began, steps);
    if pc.Done? && pc.outcome.Missed? {
      KeysArePublished(s, pc.outcome.call.want);
    }
  }

  // The call `task` is in, or was last in, failed by itself: its own request got lost or brought no
  // usable key, or there is nowhere to send one.
  predicate OwnFailure(cfg: Config, start: State, steps: seq<Step>, task: nat)
    requires Exec(cfg, start, steps).Some?
  {
    if steps == [] then false
    else
      var before, step := steps[..|steps| - 1], steps[|steps| - 1];
      var s := Exec(cfg, start, before).value;
      if !StepOf(step, task) then OwnFailure(cfg, start, before, task)
      else
        match step
        case Ask(_, _) => false
        case Force(_) => !cfg.hasUrl
        case Check(_) => !cfg.hasUrl && !(s.fetchedAt.Some? && s.now - s.fetchedAt.value < cfg.minInterval)
        case Lose(_) => true
        case Install(_) =>
          var doc := s.docs[s.pcs[task].version];
          forall i :: 0 <= i < |doc| ==> doc[i].key.None?
        case _ => OwnFailure(cfg, start, before, task)
  }

  predicate Fails(pc: Pc) {
    pc.Failing? || (pc.Done? && (pc.outcome.Broken? || (pc.outcome.Forced? && !pc.outcome.ok)))
  }

  // A call ends with a failure iff its own request failed; what happens to others never breaks it.
  lemma {:induction false} FailsExactly(cfg: Config, docs: seq<JwkSet>, began: int, steps: seq<Step>, task: nat)
    requires !cfg.staticKeys && Exec(cfg, Start(docs, began), steps).Some?
    ensures task in Exec(cfg, Start(docs, began), steps).value.pcs ==>
              (Fails(Exec(cfg, Start(docs, began), steps).value.pcs[task])
               <==> OwnFailure(cfg, Start(docs, began), steps, task))
  {
    if steps != [] {
      var before, step := steps[..|steps| - 1], steps[|steps| - 1];
      FailsExactly(cfg, docs, began, before, task);
      RunKeeps(cfg, docs, began, before);
      StepFails(cfg, Start(docs, began), steps, Exec(cfg, Start(docs, began), before).value, step, task);
    }
  }

  lemma StepFails(cfg: Config, start: State, steps: seq<Step>, s: State, step: Step, task: nat)
    requires !cfg.staticKeys && steps != [] && Exec(cfg, start, steps[..|steps| - 1]) == Some(s) && Inv(cfg, s)
    requires step == steps[|steps| - 1] && Enabled(s, step)
    requires task in s.pcs ==> (Fails(s.pcs[task]) <==> OwnFailure(cfg, start, steps[..|steps| - 1], task))
    ensures var t := Next(cfg, s, step);
            task in t.pcs ==> (Fails(t.pcs[task]) <==> OwnFailure(cfg, start, steps, task))
  {
    if !StepOf(step, task) {
      assert task in Next(cfg, s, step).pcs ==> task in s.pcs && Next(cfg, s, step).pcs[task] == s.pcs[task];
    } else if step.Check? && s.commits != [] {
      assert s.commits[|s.commits| - 1].at <= s.now;
    }
  }

  // Steps a task still has to make before its call ends, at most.
  function Rank(pc: Pc): nat {
    match pc
    case Waiting(_) => 6
    case Locked(_) => 5
    case Sent(_, _) => 4
    case Got(_, _, _) => 3
    case Settled(_, _) => 2
    case Failing(_) => 1
    case Reading(_, _) => 1
    case Done(_) => 0
  }

  // The steps `task` has made in the call it is in, or was last in.
  function OwnSteps(steps: seq<Step>, task: nat): nat {
    if steps == [] then 0
    else
      var step := steps[|steps| - 1];
      if !StepOf(step, task) then OwnSteps(steps[..|steps| - 1], task)
      else if step.Ask? || step.Force? then 0
      else OwnSteps(steps[..|steps| - 1], task) + 1
  }

  // Every call ends after at most six steps of its own, in every run.
  lemma {:induction false} CallsAreShort(cfg: Config, docs: seq<JwkSet>, began: int, steps: seq<Step>, task: nat)
    requires Exec(cfg, Start(docs, began), steps).Some?
    ensures var s := Exec(cfg, Start(docs, began), steps).value;
            task in s.pcs ==> OwnSteps(steps, task) + Rank(s.pcs[task]) <= 6
  {
    if steps != [] {
      var before, step := steps[..|steps| - 1], steps[|steps| - 1];
      CallsAreShort(cfg, docs, began, before, task);
      StepAdvances(cfg, Exec(cfg, Start(docs, began), before).value, step, task);
    }
  }

  lemma StepAdvances(cfg: Config, s: State, step: Step, task: nat)
    requires Enabled(s, step)
    ensures !StepOf(step, task) && task in Next(cfg, s, step).pcs ==>
              task in s.pcs && Next(cfg, s, step).pcs[task] == s.pcs[task]
    ensures StepOf(step, task) && !step.Ask? && !step.Force? ==>
              task in s.pcs && Rank(Next(cfg, s, step).pcs[task]) < Rank(s.pcs[task])
    ensures StepOf(step, task) ==> Rank(Next(cfg, s, step).pcs[task]) <= 6
  {
  }

  // And nothing ever gets stuck: while some call is unfinished, it or the holder of the lock can make a
  // step, so no run is forced to stop before all calls end.
  lemma NoDeadlock(cfg: Config, docs: seq<JwkSet>, began: int, steps: seq<Step>, task: nat) returns (step: Step)
    requires !cfg.staticKeys && Exec(cfg, Start(docs, began), steps).Some?
    requires task in Exec(cfg, Start(docs, began), steps).value.pcs
    requires !Exec(cfg, Start(docs, began), steps).value.pcs[task].Done?
    ensures var s := Exec(cfg, Start(docs, began), steps).value;
            && Enabled(s, step) && !step.Ask? && !step.Force?
            && (StepOf(step, task) || (s.lock.Some? && StepOf(step, s.lock.value)))
  {
    RunKeeps(cfg, docs, began, steps);
    var s := Exec(cfg, Start(docs, began), steps).value;
    var next := if s.pcs[task].Waiting? && s.lock.Some? then s.lock.value else task;
    assert PcOk(cfg, s, s.pcs[next]);
    match s.pcs[next]
    case Waiting(_) => step := Acquire(next);
    case Locked(_) => step := Check(next);
    case Sent(_, _) => step := Lose(next);
    case Got(_, _, _) => step := Install(next);
    case Settled(_, _) => step := Release(next);
    case Failing(_) => step := Release(next);
    case Reading(_, _) => step := Read(next);
  }
}
