/**
 Any number of tasks resolving keys and forcing refreshes over one cache: the steps between the lock
 operations of `resolve_key`, `refresh_coalesced` and `refresh`, the clock, and an endpoint that
 publishes documents and may fail. `commits` records every overwrite of the cached key map.
 */
module JwksProtocol {
  import opened Wrappers
  import opened Jwks

  datatype Config = Config(hasUrl: bool, staticKeys: bool, ttl: nat, minInterval: nat)

  // `at` and `commits` are the clock and the number of overwrites when the call began.
  datatype Call = Call(want: string, at: int, commits: nat)

  // A request on its way: `base` is the newest version when it was sent, `seen` the overwrites so far.
  datatype Flight = Flight(automatic: bool, at: int, base: nat, seen: nat)

  // Why a refresh returned Ok: the map was young enough under the lock, or it was fetched.
  datatype Ground = Reused(commits: nat, at: int) | Refreshed

  // `upTo` is the number of overwrites at the lookup that served the key.
  datatype Outcome =
    | Served(call: Call, key: CachedKey, upTo: nat, ground: Option<Ground>, at: int)
    | Missed(call: Call, at: int)
    | Broken(call: Call)
    | Forced(ok: bool)

  datatype Pc =
    | Waiting(call: Call)
    | Locked(call: Call)
    | Sent(who: Option<Call>, flight: Flight)
    | Got(who: Option<Call>, flight: Flight, version: nat)
    | Settled(call: Call, ground: Ground)
    | Failing(call: Call)
    | Reading(call: Call, ground: Ground)
    | Done(outcome: Outcome)

  datatype Commit = Commit(version: nat, at: int, automatic: bool, seen: nat)

  datatype State = State(
    now: int,
    docs: seq<JwkSet>,
    keys: map<string, CachedKey>,
    fetchedAt: Option<int>,
    lock: Option<nat>,
    pcs: map<nat, Pc>,
    commits: seq<Commit>,
    requests: nat,
    failures: nat)

  function Start(docs: seq<JwkSet>, now: int): State {
    State(now, docs, map[], None, None, map[], [], 0, 0)
  }

  function StartStatic(keys: map<string, CachedKey>, now: int): State {
    State(now, [], keys, Some(now), None, map[], [], 0, 0)
  }

  datatype Step =
    | Tick(elapsed: nat)
    | Publish(doc: JwkSet)
    | Ask(task: nat, want: string)
    | Acquire(task: nat)
    | Check(task: nat)
    | Receive(task: nat, version: nat)
    | Lose(task: nat)
    | Install(task: nat)
    | Release(task: nat)
    | Read(task: nat)
    | Force(task: nat)

  function Latest(docs: seq<JwkSet>): nat {
    if docs == [] then 0 else |docs| - 1
  }

  // A task is idle until its first call and again after each result.
  predicate Free(s: State, task: nat) {
    task !in s.pcs || s.pcs[task].Done?
  }

  predicate Enabled(s: State, step: Step) {
    match step
    case Tick(_) => true
    case Publish(_) => true
    case Ask(task, _) => Free(s, task)
    case Acquire(task) => task in s.pcs && s.pcs[task].Waiting? && s.lock.None?
    case Check(task) => task in s.pcs && s.pcs[task].Locked?
    case Receive(task, version) =>
      task in s.pcs && s.pcs[task].Sent? && s.pcs[task].flight.base <= version < |s.docs|
    case Lose(task) => task in s.pcs && s.pcs[task].Sent?
    case Install(task) => task in s.pcs && s.pcs[task].Got? && s.pcs[task].version < |s.docs|
    case Release(task) => task in s.pcs && (s.pcs[task].Settled? || s.pcs[task].Failing?)
    case Read(task) => task in s.pcs && s.pcs[task].Reading?
    case Force(task) => Free(s, task)
  }

  function Move(s: State, task: nat, pc: Pc): State {
    s.(pcs := s.pcs[task := pc])
  }

  // First critical section of `resolve_key`.
  function Asked(cfg: Config, s: State, task: nat, want: string): State {
    var call := Call(want, s.now, |s.commits|);
    if IsFresh(s.fetchedAt, cfg.ttl, s.now) && want in s.keys
    then Move(s, task, Done(Served(call, s.keys[want], |s.commits|, None, s.now)))
    else if cfg.staticKeys then Move(s, task, Done(Missed(call, s.now)))
    else Move(s, task, Waiting(call))
  }

  // The freshness check of `refresh_coalesced`, and the start of `refresh` when it fails.
  function Checked(cfg: Config, s: State, task: nat, call: Call): State {
    if IsFresh(s.fetchedAt, cfg.minInterval, s.now)
    then Move(s, task, Settled(call, Reused(|s.commits|, s.now)))
    else if !cfg.hasUrl then Move(s, task, Failing(call))
    else
      Move(s.(requests := s.requests + 1), task,
           Sent(Some(call), Flight(true, s.now, Latest(s.docs), |s.commits|)))
  }

  function Gone(s: State, task: nat, who: Option<Call>): State {
    Move(s.(failures := s.failures + 1), task,
         if who.Some? then Failing(who.value) else Done(Forced(false)))
  }

  // The end of `refresh`: all usable keys at once, or nothing.
  function Installed(s: State, task: nat, who: Option<Call>, flight: Flight, version: nat): State
    requires version < |s.docs|
  {
    if !Usable(s.docs[version]) then Gone(s, task, who)
    else
      var committed := s.(
        keys := KeyMap(s.docs[version]),
        fetchedAt := Some(s.now),
        commits := s.commits + [Commit(version, s.now, flight.automatic, flight.seen)]);
      Move(committed, task, if who.Some? then Settled(who.value, Refreshed) else Done(Forced(true)))
  }

  function Next(cfg: Config, s: State, step: Step): State
    requires Enabled(s, step)
  {
    match step
    case Tick(elapsed) => s.(now := s.now + elapsed)
    case Publish(doc) => s.(docs := s.docs + [doc])
    case Ask(task, want) => Asked(cfg, s, task, want)
    case Acquire(task) => Move(s.(lock := Some(task)), task, Locked(s.pcs[task].call))
    case Check(task) => Checked(cfg, s, task, s.pcs[task].call)
    case Receive(task, version) => Move(s, task, Got(s.pcs[task].who, s.pcs[task].flight, version))
    case Lose(task) => Gone(s, task, s.pcs[task].who)
    case Install(task) => Installed(s, task, s.pcs[task].who, s.pcs[task].flight, s.pcs[task].version)
    case Release(task) =>
      Move(s.(lock := None), task,
           if s.pcs[task].Settled? then Reading(s.pcs[task].call, s.pcs[task].ground)
           else Done(Broken(s.pcs[task].call)))
    case Read(task) =>
      var call := s.pcs[task].call;
      Move(s, task,
           if call.want in s.keys
           then Done(Served(call, s.keys[call.want], |s.commits|, Some(s.pcs[task].ground), s.now))
           else Done(Missed(call, s.now)))
    case Force(task) =>
      if !cfg.hasUrl then Move(s, task, Done(Forced(false)))
      else Move(s.(requests := s.requests + 1), task,
                Sent(None, Flight(false, s.now, Latest(s.docs), |s.commits|)))
  }

  function Exec(cfg: Config, start: State, steps: seq<Step>): Option<State> {
    if steps == [] then Some(start)
    else
      var before := Exec(cfg, start, steps[..|steps| - 1]);
      if before.Some? && Enabled(before.value, steps[|steps| - 1])
      then Some(Next(cfg, before.value, steps[|steps| - 1]))
      else None
  }

  lemma Then(cfg: Config, start: State, steps: seq<Step>, step: Step)
    requires Exec(cfg, start, steps).Some? && Enabled(Exec(cfg, start, steps).value, step)
    ensures Exec(cfg, start, steps + [step]) == Some(Next(cfg, Exec(cfg, start, steps).value, step))
  {
    assert (steps + [step])[..|steps|] == steps;
  }
}
