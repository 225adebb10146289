/**
 `RedisRevocationStore`: any number of calls over one cached connection to a server that serves each
 command once, late or never. The answer may be lost, and a command may be served after its task has
 given up on it. A step is what one task, or the server, does between two messages or lock operations.
 */
module RedisStore {
  import opened Instants
  import opened Wrappers

  datatype Command = SetEx(jti: string) | Exists(jti: string)

  // `began` is the clock when the call began and `log` the entries of the server's log then; `sent`
  // counts the commands it has sent.
  datatype Call = Call(command: Command, began: int, log: nat, sent: nat)

  datatype Entry = Entry(jti: string, at: int)

  // An answer: for SETEX where it was logged, for EXISTS what it said and after how many log entries.
  datatype Reply = Applied(index: nat) | Found(present: bool, at: int, log: nat) | Error

  // A command on its way or served: `at` and `log` are the clock and the log when it was sent.
  datatype Message = Message(command: Command, at: int, log: nat, reply: Option<Reply>)

  // `first` is the connection the first attempt used, if this is the second.
  datatype Pc =
    | Looking(call: Call, first: Option<nat>)
    | Connecting(call: Call, first: Option<nat>)
    | Ready(call: Call, first: Option<nat>, connection: nat)
    | Awaiting(call: Call, first: Option<nat>, connection: nat, message: nat)
    | Resetting(call: Call, used: nat)
    | Done(call: Call, reply: Reply)

  // `expiry` is the server's table; `log` records every SETEX it applied; connections and commands are
  // numbered.
  datatype State = State(
    now: int,
    expiry: map<string, int>,
    log: seq<Entry>,
    connection: Option<nat>,
    connections: nat,
    messages: seq<Message>,
    pcs: map<nat, Pc>)

  datatype Step =
    | Tick(elapsed: nat)
    | Begin(task: nat, command: Command)
    | Look(task: nat)
    | Connect(task: nat, succeeds: bool)
    | Send(task: nat)
    | Serve(message: nat)
    | Answer(task: nat)
    | GiveUp(task: nat)
    | Reset(task: nat)

  function Start(now: int): State {
    State(now, map[], [], None, 0, [], map[])
  }

  predicate Enabled(s: State, step: Step) {
    match step
    case Tick(_) => true
    case Begin(task, _) => task !in s.pcs || s.pcs[task].Done?
    case Look(task) => task in s.pcs && s.pcs[task].Looking?
    case Connect(task, _) => task in s.pcs && s.pcs[task].Connecting?
    case Send(task) => task in s.pcs && s.pcs[task].Ready?
    case Serve(message) => message < |s.messages| && s.messages[message].reply.None?
    case Answer(task) =>
      && task in s.pcs && s.pcs[task].Awaiting?
      && s.pcs[task].message < |s.messages| && s.messages[s.pcs[task].message].reply.Some?
    case GiveUp(task) => task in s.pcs && s.pcs[task].Awaiting?
    case Reset(task) => task in s.pcs && s.pcs[task].Resetting?
  }

  function Move(s: State, task: nat, pc: Pc): State {
    s.(pcs := s.pcs[task := pc])
  }

  predicate Present(s: State, jti: string) {
    jti in s.expiry && s.now < s.expiry[jti]
  }

  // The server: SETEX with no lifetime is an error, EXISTS sees keys that have not expired.
  function Executed(ttl: nat, s: State, command: Command): (State, Reply) {
    match command
    case SetEx(jti) =>
      if ttl == 0 then (s, Error)
      else (s.(expiry := s.expiry[jti := s.now + Nanos(ttl)], log := s.log + [Entry(jti, s.now)]), Applied(|s.log|))
    case Exists(jti) => (s, Found(Present(s, jti), s.now, |s.log|))
  }

  function Sent(s: State, task: nat, pc: Pc): State
    requires pc.Ready?
  {
    Move(s.(messages := s.messages + [Message(pc.call.command, s.now, |s.log|, None)]), task,
         Awaiting(pc.call.(sent := pc.call.sent + 1), pc.first, pc.connection, |s.messages|))
  }

  function Served(ttl: nat, s: State, message: nat): State
    requires message < |s.messages|
  {
    var (executed, reply) := Executed(ttl, s, s.messages[message].command);
    executed.(messages := s.messages[message := s.messages[message].(reply := Some(reply))])
  }

  // A first failure resets the connection, a second one ends the call.
  function Failed(s: State, task: nat, pc: Pc): State
    requires pc.Awaiting?
  {
    Move(s, task, if pc.first.None? then Resetting(pc.call, pc.connection) else Done(pc.call, Error))
  }

  function Answered(s: State, task: nat, pc: Pc, reply: Reply): State
    requires pc.Awaiting?
  {
    if reply.Error? then Failed(s, task, pc) else Move(s, task, Done(pc.call, reply))
  }

  function Next(ttl: nat, s: State, step: Step): State
    requires Enabled(s, step)
  {
    match step
    case Tick(elapsed) => s.(now := s.now + elapsed)
    case Begin(task, command) => Move(s, task, Looking(Call(command, s.now, |s.log|, 0), None))
    case Look(task) =>
      var pc := s.pcs[task];
      Move(s, task, if s.connection.Some? then Ready(pc.call, pc.first, s.connection.value)
                    else Connecting(pc.call, pc.first))
    case Connect(task, succeeds) =>
      var pc := s.pcs[task];
      if s.connection.Some? then Move(s, task, Ready(pc.call, pc.first, s.connection.value))
      else if succeeds then
        Move(s.(connection := Some(s.connections), connections := s.connections + 1), task,
             Ready(pc.call, pc.first, s.connections))
      else Move(s, task, Done(pc.call, Error))
    case Send(task) => Sent(s, task, s.pcs[task])
    case Serve(message) => Served(ttl, s, message)
    case Answer(task) => Answered(s, task, s.pcs[task], s.messages[s.pcs[task].message].reply.value)
    case GiveUp(task) => Failed(s, task, s.pcs[task])
    case Reset(task) =>
      Move(s.(connection := None), task, Looking(s.pcs[task].call, Some(s.pcs[task].used)))
  }

  function Exec(ttl: nat, began: int, steps: seq<Step>): Option<State> {
    if steps == [] then Some(Start(began))
    else
      var before := Exec(ttl, began, steps[..|steps| - 1]);
      if before.Some? && Enabled(before.value, steps[|steps| - 1])
      then Some(Next(ttl, before.value, steps[|steps| - 1]))
      else None
  }

  // Some revocation among the first `n` applied ones is still running at `at`.
  ghost predicate RunningAt(ttl: nat, log: seq<Entry>, n: nat, jti: string, at: int) {
    exists i :: 0 <= i < n && i < |log| && log[i].jti == jti && at < log[i].at + Nanos(ttl)
  }

  // The table is the log: a key is there iff it was set, until the last setting runs out.
  ghost predicate TableIsLog(ttl: nat, s: State) {
    && (forall i :: 0 <= i < |s.log| ==>
          && s.log[i].at <= s.now && s.log[i].jti in s.expiry
          && s.log[i].at + Nanos(ttl) <= s.expiry[s.log[i].jti])
    && (forall jti :: jti in s.expiry ==>
          exists i :: 0 <= i < |s.log| && s.log[i].jti == jti && s.expiry[jti] == s.log[i].at + Nanos(ttl))
  }

  // A reply to a command sent at `since` with `seen` log entries: about what was applied since.
  ghost predicate ReplyOk(ttl: nat, s: State, command: Command, since: int, seen: nat, reply: Reply) {
    match reply
    case Error => true
    case Applied(i) =>
      && command.SetEx? && seen <= i < |s.log| && s.log[i].jti == command.jti && since <= s.log[i].at <= s.now
    case Found(present, at, n) =>
      && command.Exists? && seen <= n <= |s.log| && since <= at <= s.now
      && (present <==> RunningAt(ttl, s.log, n, command.jti, at))
  }

  ghost predicate MessageOk(ttl: nat, s: State, m: Message) {
    && m.at <= s.now && m.log <= |s.log|
    && (m.reply.Some? ==> ReplyOk(ttl, s, m.command, m.at, m.log, m.reply.value))
  }

  // A second attempt never uses the connection the first one failed on, nor an older one.
  ghost predicate PcOk(ttl: nat, s: State, pc: Pc) {
    && pc.call.began <= s.now && pc.call.log <= |s.log|
    && match pc
       case Looking(call, first) => call.sent == Attempts(first) && Newer(s, first)
       case Connecting(call, first) => call.sent == Attempts(first) && Newer(s, first)
       case Ready(call, first, c) =>
         call.sent == Attempts(first) && c < s.connections && (first.Some? ==> first.value < c)
       case Awaiting(call, first, c, m) =>
         && call.sent == Attempts(first) + 1 && c < s.connections && (first.Some? ==> first.value < c)
         && m < |s.messages| && s.messages[m].command == call.command
         && call.began <= s.messages[m].at && call.log <= s.messages[m].log
       case Resetting(call, used) => call.sent == 1 && used < s.connections
       case Done(call, reply) => call.sent <= 2 && ReplyOk(ttl, s, call.command, call.began, call.log, reply)
  }

  function Attempts(first: Option<nat>): nat {
    if first.Some? then 1 else 0
  }

  // Any connection a later look can find was opened after `first`.
  ghost predicate Newer(s: State, first: Option<nat>) {
    first.Some? ==> first.value < s.connections && (s.connection.Some? ==> first.value < s.connection.value)
  }

  ghost predicate Inv(ttl: nat, s: State) {
    && TableIsLog(ttl, s)
    && (s.connection.Some? ==> s.connection.value < s.connections)
    && (forall m :: 0 <= m < |s.messages| ==> MessageOk(ttl, s, s.messages[m]))
    && forall t :: t in s.pcs ==> PcOk(ttl, s, s.pcs[t])
  }

  // The same commands, some of them answered meanwhile, and perhaps new ones.
  ghost predicate SameMessages(s: State, t: State) {
    && |s.messages| <= |t.messages|
    && forall m :: 0 <= m < |s.messages| ==>
         && t.messages[m].command == s.messages[m].command
         && t.messages[m].at == s.messages[m].at && t.messages[m].log == s.messages[m].log
  }

  ghost predicate Extends(s: State, t: State) {
    && s.now <= t.now && s.log <= t.log && s.connections <= t.connections && SameMessages(s, t)
    && (t.connection == s.connection || t.connection == None || t.connection == Some(s.connections))
  }

  lemma ReplyKept(ttl: nat, s: State, t: State, command: Command, since: int, seen: nat, reply: Reply)
    requires ReplyOk(ttl, s, command, since, seen, reply) && s.now <= t.now && s.log <= t.log
    ensures ReplyOk(ttl, t, command, since, seen, reply)
  {
    if reply.Found? {
      assert forall i :: 0 <= i < reply.log && i < |s.log| ==> t.log[i] == s.log[i];
      assert RunningAt(ttl, t.log, reply.log, command.jti, reply.at)
        <==> RunningAt(ttl, s.log, reply.log, command.jti, reply.at);
    }
  }

  lemma PcKept(ttl: nat, s: State, t: State, pc: Pc)
    requires PcOk(ttl, s, pc) && Extends(s, t)
    ensures PcOk(ttl, t, pc)
  {
    if pc.Done? {
      ReplyKept(ttl, s, t, pc.call.command, pc.call.began, pc.call.log, pc.reply);
    }
  }

  lemma MessageKept(ttl: nat, s: State, t: State, m: Message)
    requires MessageOk(ttl, s, m) && s.now <= t.now && s.log <= t.log
    ensures MessageOk(ttl, t, m)
  {
    if m.reply.Some? {
      ReplyKept(ttl, s, t, m.command, m.at, m.log, m.reply.value);
    }
  }

  // One task moves and no command is served; everything else carries over.
  lemma MoveKeeps(ttl: nat, s: State, t: State, task: nat, pc: Pc)
    requires Inv(ttl, s) && Extends(s, t) && t.pcs == s.pcs[task := pc] && t.messages == s.messages
    requires TableIsLog(ttl, t) && (t.connection.Some? ==> t.connection.value < t.connections)
    requires PcOk(ttl, t, pc)
    ensures Inv(ttl, t)
  {
    forall m | 0 <= m < |t.messages|
      ensures MessageOk(ttl, t, t.messages[m])
    {
      MessageKept(ttl, s, t, s.messages[m]);
    }
    PcsKept(ttl, s, t);
  }

  lemma PcsKept(ttl: nat, s: State, t: State)
    requires Inv(ttl, s) && Extends(s, t)
    ensures forall other :: other in s.pcs ==> PcOk(ttl, t, s.pcs[other])
  {
    forall other | other in s.pcs
      ensures PcOk(ttl, t, s.pcs[other])
    {
      PcKept(ttl, s, t, s.pcs[other]);
    }
  }

  lemma SetExKeeps(ttl: nat, s: State, jti: string)
    requires TableIsLog(ttl, s)
    ensures TableIsLog(ttl, Executed(ttl, s, SetEx(jti)).0)
  {
    var served := Executed(ttl, s, SetEx(jti)).0;
    if ttl > 0 {
      assert served.log[|s.log|] == Entry(jti, s.now);
      forall other | other in s.expiry && other != jti
        ensures exists i :: 0 <= i < |served.log| && served.log[i].jti == other
                         && served.expiry[other] == served.log[i].at + Nanos(ttl)
      {
        var i :| 0 <= i < |s.log| && s.log[i].jti == other && s.expiry[other] == s.log[i].at + Nanos(ttl);
        assert served.log[i] == s.log[i];
      }
    }
  }

  lemma ExistsIsTrue(ttl: nat, s: State, jti: string)
    requires TableIsLog(ttl, s)
    ensures Present(s, jti) <==> RunningAt(ttl, s.log, |s.log|, jti, s.now)
  {
  }

  // The server's part of a step only adds to its table and log.
  ghost predicate ServerMoves(ttl: nat, s: State, t: State) {
    TableIsLog(ttl, t) && s.log <= t.log && t == s.(expiry := t.expiry, log := t.log)
  }

  lemma ExecutedOk(ttl: nat, s: State, m: Message)
    requires TableIsLog(ttl, s) && MessageOk(ttl, s, m)
    ensures var (t, reply) := Executed(ttl, s, m.command);
            ServerMoves(ttl, s, t) && MessageOk(ttl, t, m.(reply := Some(reply)))
  {
    match m.command
    case SetEx(jti) => SetExKeeps(ttl, s, jti);
    case Exists(jti) => ExistsIsTrue(ttl, s, jti);
  }

  // `t` is `s` after one command was served.
  ghost predicate Serves(ttl: nat, s: State, t: State, message: nat) {
    && message < |s.messages| == |t.messages| && TableIsLog(ttl, t) && s.log <= t.log
    && t == s.(expiry := t.expiry, log := t.log, messages := t.messages)
    && t.messages == s.messages[message := t.messages[message]]
    && t.messages[message] == s.messages[message].(reply := t.messages[message].reply)
    && MessageOk(ttl, t, t.messages[message])
  }

  lemma ServedServes(ttl: nat, s: State, message: nat)
    requires TableIsLog(ttl, s) && message < |s.messages| && MessageOk(ttl, s, s.messages[message])
    ensures Serves(ttl, s, Served(ttl, s, message), message)
  {
    var t := Served(ttl, s, message);
    var executed := Executed(ttl, s, s.messages[message].command).0;
    ExecutedOk(ttl, s, s.messages[message]);
    MessageKept(ttl, executed, t, t.messages[message]);
    assert t.log == executed.log && t.expiry == executed.expiry;
  }

  lemma ServesKeeps(ttl: nat, s: State, t: State, message: nat)
    requires Inv(ttl, s) && Serves(ttl, s, t, message)
    ensures Inv(ttl, t)
  {
    forall m | 0 <= m < |t.messages|
      ensures MessageOk(ttl, t, t.messages[m])
    {
      if m != message {
        MessageKept(ttl, s, t, s.messages[m]);
      }
    }
    PcsKept(ttl, s, t);
  }

  // A command is served, whether or not its task still waits for it.
  lemma ServeKeeps(ttl: nat, s: State, message: nat)
    requires Inv(ttl, s) && message < |s.messages|
    ensures Inv(ttl, Served(ttl, s, message))
  {
    ServedServes(ttl, s, message);
    ServesKeeps(ttl, s, Served(ttl, s, message), message);
  }

  lemma SendKeeps(ttl: nat, s: State, task: nat)
    requires Inv(ttl, s) && task in s.pcs && s.pcs[task].Ready?
    ensures Inv(ttl, Sent(s, task, s.pcs[task]))
  {
    var t := Sent(s, task, s.pcs[task]);
    assert PcOk(ttl, s, s.pcs[task]);
    assert t.messages[|s.messages|] == Message(s.pcs[task].call.command, s.now, |s.log|, None);
    forall m | 0 <= m < |t.messages|
      ensures MessageOk(ttl, t, t.messages[m])
    {
      if m < |s.messages| {
        MessageKept(ttl, s, t, s.messages[m]);
      }
    }
    PcsKept(ttl, s, t);
  }

  lemma FailedKeeps(ttl: nat, s: State, task: nat)
    requires Inv(ttl, s) && task in s.pcs && s.pcs[task].Awaiting?
    ensures Inv(ttl, Failed(s, task, s.pcs[task]))
  {
    var t := Failed(s, task, s.pcs[task]);
    assert PcOk(ttl, s, s.pcs[task]);
    MoveKeeps(ttl, s, t, task, t.pcs[task]);
  }

  lemma AnswerKeeps(ttl: nat, s: State, task: nat)
    requires Inv(ttl, s) && Enabled(s, Answer(task))
    ensures Inv(ttl, Next(ttl, s, Answer(task)))
  {
    var pc := s.pcs[task];
    var m := s.messages[pc.message];
    assert PcOk(ttl, s, pc) && MessageOk(ttl, s, m);
    if m.reply.value.Error? {
      FailedKeeps(ttl, s, task);
    } else {
      MoveKeeps(ttl, s, Move(s, task, Done(pc.call, m.reply.value)), task, Done(pc.call, m.reply.value));
    }
  }

  lemma LinkKeeps(ttl: nat, s: State, step: Step)
    requires Inv(ttl, s) && Enabled(s, step) && (step.Look? || step.Connect? || step.Reset?)
    ensures Inv(ttl, Next(ttl, s, step))
  {
    var t := Next(ttl, s, step);
    assert PcOk(ttl, s, s.pcs[step.task]);
    MoveKeeps(ttl, s, t, step.task, t.pcs[step.task]);
  }

  lemma TickKeeps(ttl: nat, s: State, t: State)
    requires Inv(ttl, s) && t == s.(now := t.now) && s.now <= t.now
    ensures Inv(ttl, t)
  {
    forall m | 0 <= m < |t.messages|
      ensures MessageOk(ttl, t, t.messages[m])
    {
      MessageKept(ttl, s, t, s.messages[m]);
    }
    PcsKept(ttl, s, t);
  }

  lemma StepKeeps(ttl: nat, s: State, step: Step)
    requires Inv(ttl, s) && Enabled(s, step)
    ensures Inv(ttl, Next(ttl, s, step))
  {
    var t := Next(ttl, s, step);
    match step
    case Tick(_) => TickKeeps(ttl, s, t);
    case Begin(task, _) => MoveKeeps(ttl, s, t, task, t.pcs[task]);
    case Send(task) => SendKeeps(ttl, s, task);
    case Serve(message) => ServeKeeps(ttl, s, message);
    case Answer(task) => AnswerKeeps(ttl, s, task);
    case GiveUp(task) => FailedKeeps(ttl, s, task);
    case Look(_) => LinkKeeps(ttl, s, step);
    case Connect(_, _) => LinkKeeps(ttl, s, step);
    case Reset(_) => LinkKeeps(ttl, s, step);
  }

  lemma {:induction false} RunKeeps(ttl: nat, began: int, steps: seq<Step>)
    requires Exec(ttl, began, steps).Some?
    ensures Inv(ttl, Exec(ttl, began, steps).value)
  {
    if steps != [] {
      RunKeeps(ttl, began, steps[..|steps| - 1]);
      StepKeeps(ttl, Exec(ttl, began, steps[..|steps| - 1]).value, steps[|steps| - 1]);
    }
  }

  // Over all interleavings, lost answers and reconnects, an answer of `is_revoked` is the truth about
  // the SETEX commands applied up to an instant of the call.
  lemma AnswersAreTrue(ttl: nat, began: int, steps: seq<Step>, asker: nat)
    requires Exec(ttl, began, steps).Some?
    requires var pcs := Exec(ttl, began, steps).value.pcs;
             asker in pcs && pcs[asker].Done? && pcs[asker].reply.Found?
    ensures var s := Exec(ttl, began, steps).value;
            var call, answer := s.pcs[asker].call, s.pcs[asker].reply;
            && call.log <= answer.log <= |s.log| && call.began <= answer.at <= s.now
            && (answer.present <==> RunningAt(ttl, s.log, answer.log, call.command.jti, answer.at))
  {
    RunKeeps(ttl, began, steps);
    var s := Exec(ttl, began, steps).value;
    assert PcOk(ttl, s, s.pcs[asker]);
  }

  // `Ok` from `revoke` means a SETEX for its jti was applied during the call.
  lemma OkMeansApplied(ttl: nat, began: int, steps: seq<Step>, revoker: nat)
    requires Exec(ttl, began, steps).Some?
    requires var pcs := Exec(ttl, began, steps).value.pcs;
             revoker in pcs && pcs[revoker].Done? && pcs[revoker].reply.Applied?
    ensures var s := Exec(ttl, began, steps).value;
            var call, i := s.pcs[revoker].call, s.pcs[revoker].reply.index;
            call.log <= i < |s.log| && s.log[i].jti == call.command.jti && call.began <= s.log[i].at <= s.now
  {
    RunKeeps(ttl, began, steps);
    var s := Exec(ttl, began, steps).value;
    assert PcOk(ttl, s, s.pcs[revoker]);
  }

  // `task` is the same call all along.
  ghost predicate NoNewCall(steps: seq<Step>, task: nat) {
    forall k :: 0 <= k < |steps| && steps[k].Begin? ==> steps[k].task != task
  }

  // `t` comes later than `s`, and `task` is still in the call it began there.
  ghost predicate Continues(s: State, t: State, task: nat, command: Command) {
    && s.now <= t.now && s.log <= t.log
    && task in t.pcs && t.pcs[task].call.command == command
    && t.pcs[task].call.began == s.now && t.pcs[task].call.log == |s.log|
  }

  lemma StepContinues(ttl: nat, s: State, t: State, task: nat, command: Command, step: Step)
    requires Continues(s, t, task, command) && Enabled(t, step) && NoNewCall([step], task)
    ensures Continues(s, Next(ttl, t, step), task, command)
  {
    assert [step][0] == step;
  }

  lemma {:induction false} RunContinues(ttl: nat, began: int, first: seq<Step>, task: nat, command: Command,
                                        rest: seq<Step>)
    requires Exec(ttl, began, first + [Begin(task, command)] + rest).Some? && NoNewCall(rest, task)
    ensures Exec(ttl, began, first).Some?
    ensures Continues(Exec(ttl, began, first).value, Exec(ttl, began, first + [Begin(task, command)] + rest).value,
                      task, command)
  {
    var begun := first + [Begin(task, command)];
    if rest == [] {
      assert begun + rest == begun && begun[..|begun| - 1] == first;
    } else {
      var before, step := rest[..|rest| - 1], rest[|rest| - 1];
      assert (begun + rest)[..|begun + rest| - 1] == begun + before;
      assert NoNewCall([step], task);
      RunContinues(ttl, began, first, task, command, before);
      StepContinues(ttl, Exec(ttl, began, first).value, Exec(ttl, began, begun + before).value, task, command, step);
    }
  }

  // `revoker` has just seen its `revoke` of `jti` succeed.
  ghost predicate HasRevoked(s: State, revoker: nat, jti: string) {
    && revoker in s.pcs && s.pcs[revoker].Done? && s.pcs[revoker].reply.Applied?
    && s.pcs[revoker].call.command.jti == jti
  }

  // `asker` has got an answer.
  ghost predicate HasAnswer(s: State, asker: nat) {
    asker in s.pcs && s.pcs[asker].Done? && s.pcs[asker].reply.Found?
  }

  // So a jti whose `revoke` returned before `is_revoked` was called reads as revoked, or the call
  // fails, until its lifetime is over. `asker` may be the same task as `revoker`.
  lemma RevokedUntilExpiry(ttl: nat, began: int, first: seq<Step>, revoker: nat, asker: nat, jti: string,
                           rest: seq<Step>)
    requires Exec(ttl, began, first + [Begin(asker, Exists(jti))] + rest).Some? && NoNewCall(rest, asker)
    requires Exec(ttl, began, first).Some? && HasRevoked(Exec(ttl, began, first).value, revoker, jti)
    requires HasAnswer(Exec(ttl, began, first + [Begin(asker, Exists(jti))] + rest).value, asker)
    ensures var f := Exec(ttl, began, first).value;
            var s := Exec(ttl, began, first + [Begin(asker, Exists(jti))] + rest).value;
            var i, answer := f.pcs[revoker].reply.index, s.pcs[asker].reply;
            && i < |f.log| && f.log[i].jti == jti && f.pcs[revoker].call.began <= f.log[i].at <= f.now <= answer.at
            && s.pcs[asker].call.command == Exists(jti)
            && (answer.at < f.log[i].at + Nanos(ttl) ==> answer.present)
            && (answer.present ==> RunningAt(ttl, s.log, answer.log, jti, answer.at))
  {
    var steps := first + [Begin(asker, Exists(jti))] + rest;
    RunContinues(ttl, began, first, asker, Exists(jti), rest);
    OkMeansApplied(ttl, began, first, revoker);
    AnswersAreTrue(ttl, began, steps, asker);
    var f, s := Exec(ttl, began, first).value, Exec(ttl, began, steps).value;
    assert s.log[f.pcs[revoker].reply.index] == f.log[f.pcs[revoker].reply.index];
  }

  // At most two commands are sent per call, and the second only over a connection opened later than
  // the one the first failed on, whatever other tasks do to the cached one.
  lemma RetryIsFresh(ttl: nat, began: int, steps: seq<Step>, task: nat)
    requires Exec(ttl, began, steps).Some? && task in Exec(ttl, began, steps).value.pcs
    ensures var pc := Exec(ttl, began, steps).value.pcs[task];
            && ((pc.Ready? || pc.Awaiting?) && pc.first.Some? ==> pc.first.value < pc.connection)
            && pc.call.sent <= 2
  {
    RunKeeps(ttl, began, steps);
    var s := Exec(ttl, began, steps).value;
    assert PcOk(ttl, s, s.pcs[task]);
  }
}
