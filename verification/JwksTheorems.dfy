/** The promises of the key cache over all runs, read off the invariant or refuted by a run. */
module JwksTheorems {
  import opened Wrappers
  import opened Jose
  import opened Jwks
  import opened JwksProtocol
  import opened JwksSafety

  function AutomaticTimes(commits: seq<Commit>): seq<int> {
    if commits == [] then []
    else
      var last := commits[|commits| - 1];
      AutomaticTimes(commits[..|commits| - 1]) + (if last.automatic then [last.at] else [])
  }

  // Single flight: at most one automatic request is in the air, in every interleaving.
  lemma SingleFlight(cfg: Config, docs: seq<JwkSet>, began: int, steps: seq<Step>, t: nat, u: nat)
    requires !cfg.staticKeys && Exec(cfg, Start(docs, began), steps).Some?
    requires var pcs := Exec(cfg, Start(docs, began), steps).value.pcs;
             && t in pcs && (pcs[t].Sent? || pcs[t].Got?) && pcs[t].flight.automatic
             && u in pcs && (pcs[u].Sent? || pcs[u].Got?) && pcs[u].flight.automatic
    ensures t == u
  {
    RunKeeps(cfg, docs, began, steps);
    var s := Exec(cfg, Start(docs, began), steps).value;
    assert PcOk(cfg, s, s.pcs[t]) && PcOk(cfg, s, s.pcs[u]);
  }

  // Rate limit: k + 1 automatic overwrites take at least k refresh intervals, so a window of length
  // w holds at most w / minInterval + 1 of them, whatever forced refreshes do.
  lemma RateLimit(cfg: Config, docs: seq<JwkSet>, began: int, steps: seq<Step>, i: nat, j: nat)
    requires !cfg.staticKeys && Exec(cfg, Start(docs, began), steps).Some?
    requires var times := AutomaticTimes(Exec(cfg, Start(docs, began), steps).value.commits); i <= j < |times|
    ensures var times := AutomaticTimes(Exec(cfg, Start(docs, began), steps).value.commits);
            times[j] - times[i] >= (j - i) * cfg.minInterval
  {
    RunKeeps(cfg, docs, began, steps);
    var commits := Exec(cfg, Start(docs, began), steps).value.commits;
    var last := Gaps(cfg, commits);
    GapsAdd(AutomaticTimes(commits), cfg.minInterval, i, j);
  }

  // And of requests, failed ones included: whatever step sends an automatic request, the refresh
  // interval has passed since every overwrite before it, forced ones included.
  lemma RequestsSpaced(cfg: Config, docs: seq<JwkSet>, began: int, steps: seq<Step>, step: Step, i: nat)
    requires !cfg.staticKeys && Exec(cfg, Start(docs, began), steps + [step]).Some? && !step.Force?
    requires Exec(cfg, Start(docs, began), steps).Some? && i < |Exec(cfg, Start(docs, began), steps).value.commits|
    requires Exec(cfg, Start(docs, began), steps + [step]).value.requests
           > Exec(cfg, Start(docs, began), steps).value.requests
    ensures var s := Exec(cfg, Start(docs, began), steps).value;
            s.now - s.commits[i].at >= cfg.minInterval
  {
    RunKeeps(cfg, docs, began, steps);
    assert (steps + [step])[..|steps|] == steps;
    SendSpaced(cfg, Exec(cfg, Start(docs, began), steps).value, step, i);
  }

  lemma SendSpaced(cfg: Config, s: State, step: Step, i: nat)
    requires CacheOk(s) && i < |s.commits| && Enabled(s, step) && !step.Force?
    requires Next(cfg, s, step).requests > s.requests
    ensures s.now - s.commits[i].at >= cfg.minInterval
  {
    assert step.Check?;
    var last := |s.commits| - 1;
    assert s.fetchedAt == Some(s.commits[last].at) && s.commits[last].at <= s.now;
    assert i < last ==> s.commits[i].at <= s.commits[last].at;
  }

  lemma {:induction false} Gaps(cfg: Config, commits: seq<Commit>) returns (last: int)
    requires Spaced(cfg, commits)
    ensures var times := AutomaticTimes(commits);
            && (forall i :: 0 < i < |times| ==> times[i] - times[i - 1] >= cfg.minInterval)
            && (times != [] ==>
                  && 0 <= last < |commits| && commits[last].automatic
                  && commits[last].at == times[|times| - 1])
  {
    if commits == [] {
      last := -1;
    } else {
      var n := |commits| - 1;
      last := Gaps(cfg, commits[..n]);
      if commits[n].automatic {
        last := n;
      }
    }
  }

  lemma {:induction false} GapsAdd(times: seq<int>, gap: nat, i: nat, j: nat)
    requires i <= j < |times|
    requires forall k :: 0 < k < |times| ==> times[k] - times[k - 1] >= gap
    ensures times[j] - times[i] >= (j - i) * gap
    decreases j
  {
    if i < j {
      GapsAdd(times, gap, i, j - 1);
      assert (j - i) * gap == (j - 1 - i) * gap + gap;
    }
  }

  // No rollback: an overwrite is never older than one that was complete before its request was
  // sent; automatic overwrites never go back behind one another.
  lemma NoRollback(cfg: Config, docs: seq<JwkSet>, began: int, steps: seq<Step>, i: nat, j: nat)
    requires !cfg.staticKeys && Exec(cfg, Start(docs, began), steps).Some?
    requires i < j < |Exec(cfg, Start(docs, began), steps).value.commits|
    ensures var commits := Exec(cfg, Start(docs, began), steps).value.commits;
            && (i < commits[j].seen ==> commits[i].version <= commits[j].version)
            && (commits[i].automatic && commits[j].automatic ==> commits[i].version <= commits[j].version)
  {
    RunKeeps(cfg, docs, began, steps);
  }

  // So without forced refreshes the installed versions never decrease.
  lemma NoRollbackUnforced(cfg: Config, docs: seq<JwkSet>, began: int, steps: seq<Step>)
    requires !cfg.staticKeys && Exec(cfg, Start(docs, began), steps).Some?
    requires forall k :: 0 <= k < |steps| ==> !steps[k].Force?
    ensures var commits := Exec(cfg, Start(docs, began), steps).value.commits;
            forall i, j :: 0 <= i < j < |commits| ==> commits[i].version <= commits[j].version
  {
    AllAutomatic(cfg, docs, began, steps);
    var commits := Exec(cfg, Start(docs, began), steps).value.commits;
    forall i, j | 0 <= i < j < |commits|
      ensures commits[i].version <= commits[j].version
    {
      NoRollback(cfg, docs, began, steps, i, j);
    }
  }

  lemma {:induction false} AllAutomatic(cfg: Config, docs: seq<JwkSet>, began: int, steps: seq<Step>)
    requires !cfg.staticKeys && Exec(cfg, Start(docs, began), steps).Some?
    requires forall k :: 0 <= k < |steps| ==> !steps[k].Force?
    ensures var s := Exec(cfg, Start(docs, began), steps).value;
            && (forall i :: 0 <= i < |s.commits| ==> s.commits[i].automatic)
            && (forall t :: t in s.pcs && (s.pcs[t].Sent? || s.pcs[t].Got?) ==> s.pcs[t].flight.automatic)
  {
    if steps != [] {
      var before := steps[..|steps| - 1];
      AllAutomatic(cfg, docs, began, before);
      var s, step := Exec(cfg, Start(docs, began), before).value, steps[|steps| - 1];
      var t := Next(cfg, s, step);
      assert !step.Force?;
      assert t.commits == s.commits
          || (step.Install? && t.commits == s.commits + [Commit(s.pcs[step.task].version, s.now,
                                s.pcs[step.task].flight.automatic, s.pcs[step.task].flight.seen)]);
    }
  }

  // Task 1 has received the first document on a forced refresh; task 0 missed; then the second
  // document was published.
  ghost predicate Overlapping(cfg: Config, s: State, first: JwkSet, second: JwkSet) {
    && s.docs == [first, second] && s.commits == [] && s.fetchedAt == None && s.lock == None
    && 0 in s.pcs && s.pcs[0].Waiting? && 1 in s.pcs && s.pcs[1] == Got(None, Flight(false, 0, 0, 0), 0)
  }

  lemma ForcedOverlap(cfg: Config, first: JwkSet, second: JwkSet, want: string) returns (steps: seq<Step>)
    requires !cfg.staticKeys && cfg.hasUrl
    ensures Exec(cfg, Start([first], 0), steps).Some?
    ensures Overlapping(cfg, Exec(cfg, Start([first], 0), steps).value, first, second)
  {
    var start := Start([first], 0);
    Then(cfg, start, [], Force(1));
    Then(cfg, start, [Force(1)], Receive(1, 0));
    steps := [Force(1)] + [Receive(1, 0)];
    Then(cfg, start, steps, Publish(second));
    steps := steps + [Publish(second)];
    Then(cfg, start, steps, Ask(0, want));
    steps := steps + [Ask(0, want)];
    assert [first] + [second] == [first, second];
  }

  lemma AutomaticOvertakes(cfg: Config, start: State, overlap: seq<Step>, first: JwkSet, second: JwkSet)
    returns (steps: seq<Step>)
    requires cfg.hasUrl && Usable(second)
    requires Exec(cfg, start, overlap).Some? && Overlapping(cfg, Exec(cfg, start, overlap).value, first, second)
    ensures Exec(cfg, start, steps).Some?
    ensures var s := Exec(cfg, start, steps).value;
            && s.docs == [first, second] && |s.commits| == 1 && s.commits[0].version == 1
            && 1 in s.pcs && s.pcs[1] == Got(None, Flight(false, 0, 0, 0), 0)
  {
    Then(cfg, start, overlap, Acquire(0));
    steps := overlap + [Acquire(0)];
    Then(cfg, start, steps, Check(0));
    steps := steps + [Check(0)];
    Then(cfg, start, steps, Receive(0, 1));
    steps := steps + [Receive(0, 1)];
    Then(cfg, start, steps, Install(0));
    steps := steps + [Install(0)];
  }

  // The hypothesis is needed: a forced refresh that overlaps an automatic one installs the older
  // document over the newer, and the newer keys are gone again.
  lemma ForcedRefreshRollsBack(cfg: Config, first: JwkSet, second: JwkSet, want: string)
    returns (steps: seq<Step>)
    requires !cfg.staticKeys && cfg.hasUrl && Usable(first) && Usable(second)
    ensures Exec(cfg, Start([first], 0), steps).Some?
    ensures var s := Exec(cfg, Start([first], 0), steps).value;
            && |s.commits| == 2 && s.commits[1].version < s.commits[0].version
            && s.docs == [first, second] && s.keys == KeyMap(first)
  {
    steps := ForcedOverlap(cfg, first, second, want);
    steps := AutomaticOvertakes(cfg, Start([first], 0), steps, first, second);
    Then(cfg, Start([first], 0), steps, Install(1));
    steps := steps + [Install(1)];
  }

  // Every key a call got was published under that kid in the document cached at that moment; the
  // document was younger than the time to live at the first look, or younger than the refresh
  // interval at the look under the lock, or installed after the call began.
  lemma KeysHaveProvenance(cfg: Config, docs: seq<JwkSet>, began: int, steps: seq<Step>, task: nat)
    requires !cfg.staticKeys && Exec(cfg, Start(docs, began), steps).Some?
    requires var pcs := Exec(cfg, Start(docs, began), steps).value.pcs;
             task in pcs && pcs[task].Done? && pcs[task].outcome.Served?
    ensures var s := Exec(cfg, Start(docs, began), steps).value;
            var o := s.pcs[task].outcome;
            && 0 < o.upTo <= |s.commits|
            && var source := s.commits[o.upTo - 1];
            && source.version < |s.docs| && source.at <= o.at
            && (exists i :: LastUnder(s.docs[source.version], o.call.want, i)
                         && o.key == CachedKey(s.docs[source.version][i].key.value, s.docs[source.version][i].alg))
            && (|| (o.at == o.call.at && o.at - source.at < cfg.ttl)
                || (o.call.commits < o.upTo && source.at >= o.call.at)
                || (&& o.ground.Some? && o.ground.value.Reused? && o.call.at <= o.ground.value.at <= o.at
                    && o.ground.value.at - source.at < cfg.minInterval))
  {
    ServedProvenance(cfg, docs, began, steps, task);
    var s := Exec(cfg, Start(docs, began), steps).value;
    var o := s.pcs[task].outcome;
    KeyMapIsLastUnder(s.docs[s.commits[o.upTo - 1].version], o.call.want);
  }

  // What `decode` accepts with a key it got in any run: the token verified under a convertible key of
  // the document cached at that moment, published last under the kid the token names and no older
  // than `Provenance` allows, and its algorithm is the one published beside that key if one was, and
  // one the policy lists.
  lemma AcceptedTokensHaveProvenance<P>(cfg: Config, docs: seq<JwkSet>, began: int, steps: seq<Step>, task: nat,
                                        lib: Library<P>, token: string, v: Validation, nowSecs: int)
    requires !cfg.staticKeys && Exec(cfg, Start(docs, began), steps).Some?
    requires var pcs := Exec(cfg, Start(docs, began), steps).value.pcs;
             && task in pcs && pcs[task].Done? && pcs[task].outcome.Served?
             && lib.decodeHeader(token).Some?
             && pcs[task].outcome.call.want == WantedBy(lib.decodeHeader(token).value)
             && DecodeWith(lib, token, pcs[task].outcome.key, v, nowSecs).Success?
    ensures var s := Exec(cfg, Start(docs, began), steps).value;
            var o, alg := s.pcs[task].outcome, lib.decodeHeader(token).value.alg;
            && Provenance(cfg, s, o)
            && var doc := s.docs[s.commits[o.upTo - 1].version];
            && alg in v.algorithms
            && exists i :: LastUnder(doc, o.call.want, i)
                        && lib.verifies(token, alg, doc[i].key.value)
                        && (doc[i].alg.Some? ==> doc[i].alg.value == Signing(alg))
  {
    KeysHaveProvenance(cfg, docs, began, steps, task);
    ServedProvenance(cfg, docs, began, steps, task);
    var s := Exec(cfg, Start(docs, began), steps).value;
    DecodedWith(lib, token, s.pcs[task].outcome.key, v, nowSecs);
  }

  lemma ServedProvenance(cfg: Config, docs: seq<JwkSet>, began: int, steps: seq<Step>, task: nat)
    requires !cfg.staticKeys && Exec(cfg, Start(docs, began), steps).Some?
    requires var pcs := Exec(cfg, Start(docs, began), steps).value.pcs;
             task in pcs && pcs[task].Done? && pcs[task].outcome.Served?
    ensures var s := Exec(cfg, Start(docs, began), steps).value; Provenance(cfg, s, s.pcs[task].outcome)
  {
    RunKeeps(cfg, docs, began, steps);
    var s := Exec(cfg, Start(docs, began), steps).value;
    assert PcOk(cfg, s, s.pcs[task]);
  }

  // The cache and its stamp agree with the last installed document in every reachable state.
  lemma CacheAgreement(cfg: Config, docs: seq<JwkSet>, began: int, steps: seq<Step>)
    requires !cfg.staticKeys && Exec(cfg, Start(docs, began), steps).Some?
    ensures var s := Exec(cfg, Start(docs, began), steps).value;
            && (s.fetchedAt.None? <==> s.commits == [])
            && (s.keys == map[] <==> s.commits == [])
            && (s.commits != [] ==>
                  var last := s.commits[|s.commits| - 1];
                  && last.version < |s.docs| && s.keys == KeyMap(s.docs[last.version])
                  && s.fetchedAt == Some(last.at) && last.at <= s.now)
  {
    CacheStaysOk(cfg, docs, began, steps);
    var s := Exec(cfg, Start(docs, began), steps).value;
    if s.commits != [] {
      KeyMapEmpty(s.docs[s.commits[|s.commits| - 1].version]);
    }
  }

  lemma CacheStaysOk(cfg: Config, docs: seq<JwkSet>, began: int, steps: seq<Step>)
    requires !cfg.staticKeys && Exec(cfg, Start(docs, began), steps).Some?
    ensures CacheOk(Exec(cfg, Start(docs, began), steps).value)
  {
    RunKeeps(cfg, docs, began, steps);
  }

  // Only a successful install writes the cache, both fields at once and never backwards in time:
  // failed requests, unusable documents and skipped refreshes leave both alone.
  lemma OnlyInstallsWrite(cfg: Config, docs: seq<JwkSet>, began: int, steps: seq<Step>, step: Step)
    requires !cfg.staticKeys && Exec(cfg, Start(docs, began), steps).Some?
    requires Enabled(Exec(cfg, Start(docs, began), steps).value, step)
    ensures var s := Exec(cfg, Start(docs, began), steps).value;
            var t := Next(cfg, s, step);
            if step.Install? && Usable(s.docs[s.pcs[step.task].version])
            then && t.keys == KeyMap(s.docs[s.pcs[step.task].version]) && t.keys != map[]
                 && t.fetchedAt == Some(s.now) && t.failures == s.failures
                 && (s.fetchedAt.Some? ==> s.fetchedAt.value <= s.now)
            else t.keys == s.keys && t.fetchedAt == s.fetchedAt && t.commits == s.commits
  {
    CacheAgreement(cfg, docs, began, steps);
    var s := Exec(cfg, Start(docs, began), steps).value;
    if step.Install? {
      KeyMapEmpty(s.docs[s.pcs[step.task].version]);
    }
  }

  // A static cache: no run sends a request or changes the map, and a kid resolves iff it was given
  // and the time to live since construction is not over; after that every call fails for good.
  lemma {:induction false} StaticCache(cfg: Config, keys: map<string, CachedKey>, began: int, steps: seq<Step>)
    requires cfg.staticKeys && !cfg.hasUrl && Exec(cfg, StartStatic(keys, began), steps).Some?
    ensures var s := Exec(cfg, StartStatic(keys, began), steps).value;
            && s.requests == 0 && s.keys == keys && s.fetchedAt == Some(began) && s.now >= began
            && forall t :: t in s.pcs ==>
                 && s.pcs[t].Done?
                 && var o := s.pcs[t].outcome;
                 && !o.Broken? && (o.Forced? ==> !o.ok)
                 && (o.Served? ==> o.call.want in keys && o.key == keys[o.call.want] && o.at - began < cfg.ttl)
                 && (o.Missed? ==> o.call.want !in keys || o.at - began >= cfg.ttl)
  {
    if steps != [] {
      StaticCache(cfg, keys, began, steps[..|steps| - 1]);
      var s := Exec(cfg, StartStatic(keys, began), steps[..|steps| - 1]).value;
      var step := steps[|steps| - 1];
      var t := Next(cfg, s, step);
      assert step.Tick? || step.Publish? || step.Ask? || step.Force?;
    }
  }
}
