/** What every run of the key cache keeps, forced refreshes and failing fetches included. */
module JwksSafety {
  import opened Wrappers
  import opened Jwks
  import opened JwksProtocol

  // The map is the one built from the last installed document, and its stamp is that overwrite's time.
  ghost predicate CacheOk(s: State) {
    && (forall i :: 0 <= i < |s.commits| ==> s.commits[i].version < |s.docs| && s.commits[i].at <= s.now)
    && (forall i :: 0 <= i < |s.commits| ==> Usable(s.docs[s.commits[i].version]))
    && (forall i, j :: 0 <= i < j < |s.commits| ==> s.commits[i].at <= s.commits[j].at)
    && (s.commits == [] ==> s.keys == map[] && s.fetchedAt == None)
    && (s.commits != [] ==>
          && s.keys == KeyMap(s.docs[s.commits[|s.commits| - 1].version])
          && s.fetchedAt == Some(s.commits[|s.commits| - 1].at))
  }

  // The places between acquiring and releasing the refresh lock.
  predicate HoldsLock(pc: Pc) {
    pc.Locked? || ((pc.Sent? || pc.Got?) && pc.who.Some?) || pc.Settled? || pc.Failing?
  }

  ghost predicate LockOk(s: State) {
    && (forall t :: t in s.pcs ==> (HoldsLock(s.pcs[t]) <==> s.lock == Some(t)))
    && (s.lock.Some? ==> s.lock.value in s.pcs)
  }

  // Automatic overwrites are a refresh interval apart, and the request of each was sent after the
  // one before was complete.
  ghost predicate Spaced(cfg: Config, commits: seq<Commit>) {
    forall i, j :: 0 <= i < j < |commits| && commits[i].automatic && commits[j].automatic
      ==> commits[j].at - commits[i].at >= cfg.minInterval && i < commits[j].seen
  }

  // No overwrite is older than one that was complete when its request was sent.
  ghost predicate NoStaleInstall(commits: seq<Commit>) {
    forall j :: 0 <= j < |commits| ==>
      commits[j].seen <= j && forall i :: 0 <= i < commits[j].seen ==> commits[i].version <= commits[j].version
  }

  ghost predicate CallOk(s: State, call: Call) {
    && call.commits <= |s.commits| && call.at <= s.now
    && forall i :: call.commits <= i < |s.commits| ==> s.commits[i].at >= call.at
  }

  ghost predicate FlightOk(cfg: Config, s: State, who: Option<Call>, flight: Flight) {
    && (flight.automatic <==> who.Some?)
    && (who.Some? ==> CallOk(s, who.value))
    && flight.at <= s.now && flight.seen <= |s.commits|
    && (forall i :: 0 <= i < flight.seen ==> s.commits[i].version <= flight.base)
    && (flight.automatic ==>
          forall i :: 0 <= i < |s.commits| && s.commits[i].automatic ==>
            i < flight.seen && s.commits[i].at + cfg.minInterval <= flight.at)
  }

  ghost predicate GroundOk(cfg: Config, s: State, call: Call, ground: Ground) {
    match ground
    case Refreshed => call.commits < |s.commits|
    case Reused(n, at) =>
      && call.commits <= n <= |s.commits| && 0 < n
      && call.at <= at <= s.now && at - s.commits[n - 1].at < cfg.minInterval
  }

  // Where a served key comes from, and how old its document can be.
  ghost predicate Provenance(cfg: Config, s: State, o: Outcome)
    requires o.Served?
  {
    && 0 < o.upTo <= |s.commits|
    && var source := s.commits[o.upTo - 1];
    && source.version < |s.docs|
    && o.call.want in KeyMap(s.docs[source.version])
    && o.key == KeyMap(s.docs[source.version])[o.call.want]
    && source.at <= o.at
    && (o.ground.None? ==> o.at == o.call.at && o.at - source.at < cfg.ttl)
    && (o.ground.Some? ==>
          || (o.call.commits < o.upTo && source.at >= o.call.at)
          || (&& o.ground.value.Reused? && o.call.at <= o.ground.value.at <= o.at
              && o.ground.value.at - source.at < cfg.minInterval))
  }

  ghost predicate PcOk(cfg: Config, s: State, pc: Pc) {
    match pc
    case Waiting(call) => CallOk(s, call)
    case Locked(call) => CallOk(s, call)
    case Sent(who, flight) => FlightOk(cfg, s, who, flight)
    case Got(who, flight, version) => FlightOk(cfg, s, who, flight) && flight.base <= version < |s.docs|
    case Settled(call, ground) => CallOk(s, call) && GroundOk(cfg, s, call, ground)
    case Failing(call) => CallOk(s, call)
    case Reading(call, ground) => CallOk(s, call) && GroundOk(cfg, s, call, ground)
    case Done(o) => o.Served? ==> Provenance(cfg, s, o)
  }

  ghost predicate Inv(cfg: Config, s: State) {
    && CacheOk(s) && LockOk(s) && Spaced(cfg, s.commits) && NoStaleInstall(s.commits)
    && forall t :: t in s.pcs ==> PcOk(cfg, s, s.pcs[t])
  }

  // `t` continues `s`: the clock, the documents and the overwrites only grow.
  ghost predicate Extends(s: State, t: State) {
    && s.now <= t.now && s.docs <= t.docs && s.commits <= t.commits
    && forall i :: |s.commits| <= i < |t.commits| ==> t.commits[i].at >= s.now
  }

  ghost predicate NoNewAutomatic(s: State, t: State) {
    forall i :: |s.commits| <= i < |t.commits| ==> !t.commits[i].automatic
  }

  lemma PcKept(cfg: Config, s: State, t: State, pc: Pc)
    requires PcOk(cfg, s, pc) && Extends(s, t)
    requires NoNewAutomatic(s, t) || !((pc.Sent? || pc.Got?) && pc.flight.automatic)
    ensures PcOk(cfg, t, pc)
  {
    forall i | 0 <= i < |s.commits|
      ensures t.commits[i] == s.commits[i]
    {
    }
    forall v | 0 <= v < |s.docs|
      ensures t.docs[v] == s.docs[v]
    {
    }
  }

  // One task moves; every other task's facts carry over.
  lemma MoveKeeps(cfg: Config, s: State, t: State, task: nat, pc: Pc)
    requires Inv(cfg, s) && Extends(s, t) && t.pcs == s.pcs[task := pc]
    requires NoNewAutomatic(s, t) || (task in s.pcs && HoldsLock(s.pcs[task]))
    requires CacheOk(t) && LockOk(t) && Spaced(cfg, t.commits) && NoStaleInstall(t.commits)
    requires PcOk(cfg, t, pc)
    ensures Inv(cfg, t)
  {
    forall other | other in t.pcs
      ensures PcOk(cfg, t, t.pcs[other])
    {
      if other != task {
        PcKept(cfg, s, t, s.pcs[other]);
      }
    }
  }

  lemma LockKept(s: State, t: State, task: nat, pc: Pc)
    requires LockOk(s) && t.pcs == s.pcs[task := pc]
    requires HoldsLock(pc) <==> t.lock == Some(task)
    requires t.lock == s.lock || (s.lock.None? && t.lock == Some(task)) || (s.lock == Some(task) && t.lock.None?)
    ensures LockOk(t)
  {
  }

  // A step that leaves the cache, the clock and the endpoint alone.
  lemma QuietMoveKeeps(cfg: Config, s: State, t: State, task: nat, pc: Pc)
    requires Inv(cfg, s) && t.pcs == s.pcs[task := pc] && PcOk(cfg, s, pc)
    requires t.now == s.now && t.docs == s.docs && t.keys == s.keys
    requires t.fetchedAt == s.fetchedAt && t.commits == s.commits
    requires HoldsLock(pc) <==> t.lock == Some(task)
    requires t.lock == s.lock || (s.lock.None? && t.lock == Some(task)) || (s.lock == Some(task) && t.lock.None?)
    ensures Inv(cfg, t)
  {
    LockKept(s, t, task, pc);
    PcKept(cfg, s, t, pc);
    MoveKeeps(cfg, s, t, task, pc);
  }

  lemma AskKeeps(cfg: Config, s: State, task: nat, want: string)
    requires Inv(cfg, s) && Free(s, task) && !cfg.staticKeys
    ensures Inv(cfg, Asked(cfg, s, task, want))
  {
    var t := Asked(cfg, s, task, want);
    assert PcOk(cfg, s, t.pcs[task]) by {
      var call := Call(want, s.now, |s.commits|);
      if IsFresh(s.fetchedAt, cfg.ttl, s.now) && want in s.keys {
        assert s.commits != [];
        assert s.commits[|s.commits| - 1].at <= s.now;
      } else {
        assert CallOk(s, call);
      }
    }
    QuietMoveKeeps(cfg, s, t, task, t.pcs[task]);
  }

  lemma CheckKeeps(cfg: Config, s: State, task: nat)
    requires Inv(cfg, s) && task in s.pcs && s.pcs[task].Locked?
    ensures Inv(cfg, Checked(cfg, s, task, s.pcs[task].call))
  {
    var call := s.pcs[task].call;
    var t := Checked(cfg, s, task, call);
    assert CallOk(s, call) by {
      assert PcOk(cfg, s, s.pcs[task]);
    }
    if IsFresh(s.fetchedAt, cfg.minInterval, s.now) {
      assert s.commits != [];
      assert s.commits[|s.commits| - 1].at <= s.now;
    } else if cfg.hasUrl {
      FlightStarts(cfg, s, Some(call), true);
    }
    QuietMoveKeeps(cfg, s, t, task, t.pcs[task]);
  }

  lemma FlightStarts(cfg: Config, s: State, who: Option<Call>, automatic: bool)
    requires Inv(cfg, s) && (automatic <==> who.Some?) && (who.Some? ==> CallOk(s, who.value))
    requires automatic ==> !IsFresh(s.fetchedAt, cfg.minInterval, s.now)
    ensures FlightOk(cfg, s, who, Flight(automatic, s.now, Latest(s.docs), |s.commits|))
  {
    if s.commits != [] {
      assert s.commits[|s.commits| - 1].at <= s.now;
    }
  }

  lemma GoneKeeps(cfg: Config, s: State, task: nat)
    requires Inv(cfg, s) && task in s.pcs && (s.pcs[task].Sent? || s.pcs[task].Got?)
    ensures Inv(cfg, Gone(s, task, s.pcs[task].who))
  {
    var t := Gone(s, task, s.pcs[task].who);
    assert PcOk(cfg, s, s.pcs[task]);
    QuietMoveKeeps(cfg, s, t, task, t.pcs[task]);
  }

  lemma InstallKeeps(cfg: Config, s: State, task: nat)
    requires Inv(cfg, s) && task in s.pcs && s.pcs[task].Got? && s.pcs[task].version < |s.docs|
    ensures Inv(cfg, Installed(s, task, s.pcs[task].who, s.pcs[task].flight, s.pcs[task].version))
  {
    var pc := s.pcs[task];
    assert PcOk(cfg, s, pc);
    if !Usable(s.docs[pc.version]) {
      GoneKeeps(cfg, s, task);
    } else {
      var t := Installed(s, task, pc.who, pc.flight, pc.version);
      var commit := Commit(pc.version, s.now, pc.flight.automatic, pc.flight.seen);
      assert t.commits == s.commits + [commit];
      CommitSpaced(cfg, s.commits, commit);
      CommitNotStale(s.commits, commit);
      LockKept(s, t, task, t.pcs[task]);
      InstalledOk(cfg, s, task);
      MoveKeeps(cfg, s, t, task, t.pcs[task]);
    }
  }

  lemma InstalledOk(cfg: Config, s: State, task: nat)
    requires CacheOk(s) && task in s.pcs && s.pcs[task].Got? && PcOk(cfg, s, s.pcs[task])
    requires Usable(s.docs[s.pcs[task].version])
    ensures var t := Installed(s, task, s.pcs[task].who, s.pcs[task].flight, s.pcs[task].version);
            CacheOk(t) && PcOk(cfg, t, t.pcs[task])
  {
    var t := Installed(s, task, s.pcs[task].who, s.pcs[task].flight, s.pcs[task].version);
    var n := |s.commits|;
    assert |t.commits| == n + 1 && t.commits[n].at == s.now && t.commits[n].version == s.pcs[task].version;
    assert forall i :: 0 <= i < n ==> t.commits[i] == s.commits[i];
  }

  lemma CommitSpaced(cfg: Config, commits: seq<Commit>, commit: Commit)
    requires Spaced(cfg, commits)
    requires commit.automatic ==>
               forall i :: 0 <= i < |commits| && commits[i].automatic ==>
                 commits[i].at + cfg.minInterval <= commit.at && i < commit.seen
    ensures Spaced(cfg, commits + [commit])
  {
  }

  lemma CommitNotStale(commits: seq<Commit>, commit: Commit)
    requires NoStaleInstall(commits) && commit.seen <= |commits|
    requires forall i :: 0 <= i < commit.seen ==> commits[i].version <= commit.version
    ensures NoStaleInstall(commits + [commit])
  {
  }

  lemma ReadKeeps(cfg: Config, s: State, task: nat)
    requires Inv(cfg, s) && task in s.pcs && s.pcs[task].Reading?
    ensures Inv(cfg, Next(cfg, s, Read(task)))
  {
    var t := Next(cfg, s, Read(task));
    ReadProvenance(cfg, s, task);
    QuietMoveKeeps(cfg, s, t, task, t.pcs[task]);
  }

  lemma ReadProvenance(cfg: Config, s: State, task: nat)
    requires CacheOk(s) && task in s.pcs && s.pcs[task].Reading? && PcOk(cfg, s, s.pcs[task])
    ensures PcOk(cfg, s, Next(cfg, s, Read(task)).pcs[task])
  {
    if s.commits != [] {
      assert s.commits[|s.commits| - 1].at <= s.now;
    }
  }

  lemma WorldKeeps(cfg: Config, s: State, t: State)
    requires Inv(cfg, s) && t == s.(now := t.now, docs := t.docs) && s.now <= t.now && s.docs <= t.docs
    ensures Inv(cfg, t)
  {
    forall task | task in s.pcs
      ensures PcOk(cfg, t, s.pcs[task])
    {
      PcKept(cfg, s, t, s.pcs[task]);
    }
  }

  lemma StepKeeps(cfg: Config, s: State, step: Step)
    requires Inv(cfg, s) && Enabled(s, step) && !cfg.staticKeys
    ensures Inv(cfg, Next(cfg, s, step))
  {
    match step
    case Tick(_) => WorldKeeps(cfg, s, Next(cfg, s, step));
    case Publish(_) => WorldKeeps(cfg, s, Next(cfg, s, step));
    case Ask(task, want) => AskKeeps(cfg, s, task, want);
    case Check(task) => CheckKeeps(cfg, s, task);
    case Lose(task) => GoneKeeps(cfg, s, task);
    case Install(task) => InstallKeeps(cfg, s, task);
    case Read(task) => ReadKeeps(cfg, s, task);
    case Acquire(task) => LockStepKeeps(cfg, s, step, task);
    case Receive(task, _) => LockStepKeeps(cfg, s, step, task);
    case Release(task) => LockStepKeeps(cfg, s, step, task);
    case Force(task) => ForceKeeps(cfg, s, task);
  }

  lemma LockStepKeeps(cfg: Config, s: State, step: Step, task: nat)
    requires Inv(cfg, s) && Enabled(s, step)
    requires step == Acquire(task) || (step.Receive? && step.task == task) || step == Release(task)
    ensures Inv(cfg, Next(cfg, s, step))
  {
    var t := Next(cfg, s, step);
    assert PcOk(cfg, s, s.pcs[task]);
    QuietMoveKeeps(cfg, s, t, task, t.pcs[task]);
  }

  lemma ForceKeeps(cfg: Config, s: State, task: nat)
    requires Inv(cfg, s) && Free(s, task)
    ensures Inv(cfg, Next(cfg, s, Force(task)))
  {
    var t := Next(cfg, s, Force(task));
    FlightStarts(cfg, s, None, false);
    QuietMoveKeeps(cfg, s, t, task, t.pcs[task]);
  }

  lemma {:induction false} RunKeeps(cfg: Config, docs: seq<JwkSet>, began: int, steps: seq<Step>)
    requires !cfg.staticKeys && Exec(cfg, Start(docs, began), steps).Some?
    ensures Inv(cfg, Exec(cfg, Start(docs, began), steps).value)
  {
    if steps != [] {
      RunKeeps(cfg, docs, began, steps[..|steps| - 1]);
      StepKeeps(cfg, Exec(cfg, Start(docs, began), steps[..|steps| - 1]).value, steps[|steps| - 1]);
    }
  }
}
