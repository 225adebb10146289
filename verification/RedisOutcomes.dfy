/**
 What calls of the Redis store end with, in every run: an error exactly when the connection or both
 attempts failed, and after a bounded number of steps.
 */
module RedisOutcomes {
  import opened Wrappers
  import opened RedisStore

  predicate StepOf(step: Step, task: nat) {
    match step
    case Tick(_) => false
    case Serve(_) => false
    case Begin(t, _) => t == task
    case Look(t) => t == task
    case Connect(t, _) => t == task
    case Send(t) => t == task
    case Answer(t) => t == task
    case GiveUp(t) => t == task
    case Reset(t) => t == task
  }

  // The attempts that failed in the call `task` is in, or was last in: given up on, or answered with an error.
  function FailedAttempts(ttl: nat, began: int, steps: seq<Step>, task: nat): nat
    requires Exec(ttl, began, steps).Some?
  {
    if steps == [] then 0
    else
      var before, step := steps[..|steps| - 1], steps[|steps| - 1];
      var s := Exec(ttl, began, before).value;
      if !StepOf(step, task) then FailedAttempts(ttl, began, before, task)
      else if step.Begin? then 0
      else if step.GiveUp? || (step.Answer? && s.messages[s.pcs[task].message].reply == Some(Error))
      then FailedAttempts(ttl, began, before, task) + 1
      else FailedAttempts(ttl, began, before, task)
  }

  // It needed a connection, and none could be opened.
  predicate Unconnected(ttl: nat, began: int, steps: seq<Step>, task: nat)
    requires Exec(ttl, began, steps).Some?
  {
    if steps == [] then false
    else
      var before, step := steps[..|steps| - 1], steps[|steps| - 1];
      var s := Exec(ttl, began, before).value;
      if !StepOf(step, task) then Unconnected(ttl, began, before, task)
      else if step.Begin? then false
      else if step.Connect? then s.connection.None? && !step.succeeds
      else Unconnected(ttl, began, before, task)
  }

  // How far a call has come, given its failures.
  ghost predicate Tracks(pc: Pc, failed: nat, unconnected: bool) {
    match pc
    case Looking(_, first) => !unconnected && failed == Attempts(first)
    case Connecting(_, first) => !unconnected && failed == Attempts(first)
    case Ready(_, first, _) => !unconnected && failed == Attempts(first)
    case Awaiting(_, first, _, _) => !unconnected && failed == Attempts(first)
    case Resetting(_, _) => !unconnected && failed == 1
    case Done(call, reply) =>
      && failed <= 2 && (reply.Error? <==> unconnected || failed == 2)
      && call.sent == (if reply.Error? then failed else failed + 1)
  }

  lemma {:induction false} RunTracks(ttl: nat, began: int, steps: seq<Step>, task: nat)
    requires Exec(ttl, began, steps).Some?
    ensures var s := Exec(ttl, began, steps).value;
            task in s.pcs ==>
              Tracks(s.pcs[task], FailedAttempts(ttl, began, steps, task), Unconnected(ttl, began, steps, task))
  {
    if steps != [] {
      var before, step := steps[..|steps| - 1], steps[|steps| - 1];
      RunTracks(ttl, began, before, task);
      RunKeeps(ttl, began, before);
      var s := Exec(ttl, began, before).value;
      if StepOf(step, task) {
        assert task in s.pcs ==> PcOk(ttl, s, s.pcs[task]);
      } else {
        OthersUnmoved(ttl, s, step, task);
      }
    }
  }

  lemma OthersUnmoved(ttl: nat, s: State, step: Step, task: nat)
    requires Enabled(s, step) && !StepOf(step, task)
    ensures task in Next(ttl, s, step).pcs <==> task in s.pcs
    ensures task in s.pcs ==> Next(ttl, s, step).pcs[task] == s.pcs[task]
  {
  }

  // A call ends in an error iff it could not connect or both of its attempts failed, so one lost answer
  // or dead connection never fails it; it sends a command for each attempt that failed and one for the
  // answer it got.
  lemma ErrorExactly(ttl: nat, began: int, steps: seq<Step>, task: nat)
    requires Exec(ttl, began, steps).Some?
    requires task in Exec(ttl, began, steps).value.pcs && Exec(ttl, began, steps).value.pcs[task].Done?
    ensures var pc := Exec(ttl, began, steps).value.pcs[task];
            var failed := FailedAttempts(ttl, began, steps, task);
            && (pc.reply.Error? <==> Unconnected(ttl, began, steps, task) || failed == 2)
            && pc.call.sent == (if pc.reply.Error? then failed else failed + 1)
            && (pc.reply.Error? && !Unconnected(ttl, began, steps, task) ==> pc.call.sent == 2)
  {
    RunTracks(ttl, began, steps, task);
  }

  // The server answers a command with an error only if it is a SETEX without a lifetime.
  lemma {:induction false} ServerErrors(ttl: nat, began: int, steps: seq<Step>)
    requires Exec(ttl, began, steps).Some?
    ensures forall m :: m in Exec(ttl, began, steps).value.messages && m.reply.Some? ==>
              (m.reply.value.Error? <==> m.command.SetEx? && ttl == 0)
  {
    if steps != [] {
      var before, step := steps[..|steps| - 1], steps[|steps| - 1];
      ServerErrors(ttl, began, before);
      var s := Exec(ttl, began, before).value;
      if step.Serve? {
        assert s.messages[step.message] in s.messages;
      }
    }
  }

  // Nothing goes wrong on the way of `task`: it gives nothing up and connects when it has to.
  ghost predicate Smooth(steps: seq<Step>, task: nat) {
    forall k :: 0 <= k < |steps| && StepOf(steps[k], task) ==>
      !steps[k].GiveUp? && (steps[k].Connect? ==> steps[k].succeeds)
  }

  // Then, with a lifetime, no call of it ends in an error: the first attempt is answered.
  lemma {:induction false} SmoothCallsSucceed(ttl: nat, began: int, steps: seq<Step>, task: nat)
    requires Exec(ttl, began, steps).Some? && ttl > 0 && Smooth(steps, task)
    ensures FailedAttempts(ttl, began, steps, task) == 0 && !Unconnected(ttl, began, steps, task)
    ensures var s := Exec(ttl, began, steps).value;
            task in s.pcs && s.pcs[task].Done? ==> !s.pcs[task].reply.Error? && s.pcs[task].call.sent == 1
  {
    if steps != [] {
      var before, step := steps[..|steps| - 1], steps[|steps| - 1];
      assert forall k :: 0 <= k < |before| ==> before[k] == steps[k];
      SmoothCallsSucceed(ttl, began, before, task);
      ServerErrors(ttl, began, before);
      var s := Exec(ttl, began, before).value;
      if step == Answer(task) {
        assert s.messages[s.pcs[task].message] in s.messages;
      }
    }
    RunTracks(ttl, began, steps, task);
  }

  function Resets(steps: seq<Step>): nat {
    if steps == [] then 0 else Resets(steps[..|steps| - 1]) + (if steps[|steps| - 1].Reset? then 1 else 0)
  }

  // One connection is shared by all calls: a new one is opened at first, and after a call has dropped
  // the cached one because its first attempt failed.
  lemma {:induction false} ConnectionIsShared(ttl: nat, began: int, steps: seq<Step>)
    requires Exec(ttl, began, steps).Some?
    ensures var s := Exec(ttl, began, steps).value;
            s.connections <= Resets(steps) + (if s.connection.Some? then 1 else 0)
  {
    if steps != [] {
      ConnectionIsShared(ttl, began, steps[..|steps| - 1]);
    }
  }

  // Steps a task still has to make before its call ends, at most.
  function Rank(pc: Pc): nat {
    match pc
    case Looking(_, first) => if first.None? then 9 else 4
    case Connecting(_, first) => if first.None? then 8 else 3
    case Ready(_, first, _) => if first.None? then 7 else 2
    case Awaiting(_, first, _, _) => if first.None? then 6 else 1
    case Resetting(_, _) => 5
    case Done(_, _) => 0
  }

  function OwnSteps(steps: seq<Step>, task: nat): nat {
    if steps == [] then 0
    else
      var step := steps[|steps| - 1];
      if !StepOf(step, task) then OwnSteps(steps[..|steps| - 1], task)
      else if step.Begin? then 0
      else OwnSteps(steps[..|steps| - 1], task) + 1
  }

  // Every call ends after at most nine steps of its own, in every run, and until then it can always make one.
  lemma {:induction false} CallsAreShort(ttl: nat, began: int, steps: seq<Step>, task: nat)
    requires Exec(ttl, began, steps).Some?
    ensures var s := Exec(ttl, began, steps).value;
            task in s.pcs ==>
              && OwnSteps(steps, task) + Rank(s.pcs[task]) <= 9
              && (!s.pcs[task].Done? ==>
                    exists step :: StepOf(step, task) && !step.Begin? && Enabled(s, step))
  {
    if steps != [] {
      var before, step := steps[..|steps| - 1], steps[|steps| - 1];
      CallsAreShort(ttl, began, before, task);
      var s := Exec(ttl, began, before).value;
      if !StepOf(step, task) {
        OthersUnmoved(ttl, s, step, task);
      }
    }
    CanStep(Exec(ttl, began, steps).value, task);
  }

  lemma CanStep(s: State, task: nat)
    ensures task in s.pcs && !s.pcs[task].Done? ==>
              exists step :: StepOf(step, task) && !step.Begin? && Enabled(s, step)
  {
    if task in s.pcs && !s.pcs[task].Done? {
      var step :=
        match s.pcs[task]
        case Looking(_, _) => Look(task)
        case Connecting(_, _) => Connect(task, true)
        case Ready(_, _, _) => Send(task)
        case Awaiting(_, _, _, _) => GiveUp(task)
        case Resetting(_, _) => Reset(task)
        case Done(_, _) => Look(task);
      assert StepOf(step, task) && !step.Begin? && Enabled(s, step);
    }
  }
}
