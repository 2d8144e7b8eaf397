/**
 One rollout to a VM, and rollouts to many: what any number of attempts, failing anywhere,
 leave on a guest.
 */
module VmRollout {
  import opened Wrappers
  import opened GuestShell
  import opened GuestRollout

  /** The manifest text read back names the bundle, whatever its time stamp. */
  ghost predicate ManifestNames(t: Tools, b: Bundle) {
    forall now :: t.bundleId(DeployedText(b.manifest(now))) == Some(b.id)
  }

  /** The cache holds the bundle: every file readable, no binary empty, the agent's hash right. */
  predicate Cached(t: Tools, b: Bundle) {
    && b.metadata.Some? && b.openrc.Some? && !b.iwatch.Unreadable?
    && b.agent.Some? && b.agent.value != [] && t.sha(b.agent.value) == b.agentSha
    && (b.iwatch.Present? ==> b.iwatch.bytes != [])
  }

  /** One call to clear the staging file, one for every chunk of 180 KiB, one to install. */
  function BinaryCalls(bytes: Blob): nat { 2 + (|bytes| + 184319) / 184320 }

  /** The calls that deploy a bundle: one for every file, the metadata and the OpenRC script, and
      those of its binaries. */
  function DeployCalls(b: Bundle): nat
    requires b.agent.Some?
  {
    |b.files| + 2 + BinaryCalls(b.agent.value) + if b.iwatch.Present? then BinaryCalls(b.iwatch.bytes) else 0
  }

  /** The guest is part of a rollout that started from `start` and has put `done` in place. */
  ghost predicate Underway(g: Guest, b: Bundle, start: Files, done: set<string>)
    reads g
  {
    && Attempt(g.tools, b, start, g.files) && Ready(g.tools, b, g.files, done)
    && done <= Targets(b) && Same(start, g.files, MANIFEST)
  }

  lemma StepContinues(t: Tools, b: Bundle, start: Files, before: Files, after: Files, p: string, done: set<string>)
    requires Isolated(b) && p in Targets(b) && done <= Targets(b) && StepAt(t, b, before, after, p)
    requires Attempt(t, b, start, before) && Ready(t, b, before, done) && Same(start, before, MANIFEST)
    ensures Attempt(t, b, start, after) && Ready(t, b, after, done) && Same(start, after, MANIFEST)
    ensures Good(t, b, p, At(after, p)) ==> Ready(t, b, after, done + {p})
  {
    StepIsAttempt(t, b, before, after, p);
    AttemptTransitive(t, b, start, before, after);
    ReadyKept(t, b, before, after, done);
    assert MANIFEST !in Footprint(p) by {
      assert Clear(MANIFEST, b);
    }
    assert Same(before, after, MANIFEST);
    if Good(t, b, p, At(after, p)) {
      StepExtends(t, b, before, after, p, done);
    }
  }

  method DeployFile(g: Guest, b: Bundle, file: GuestFile, ghost start: Files, ghost done: set<string>)
    returns (r: Result<(), string>)
    requires Isolated(b) && file.path in Targets(b) && Good(g.tools, b, file.path, Some(Wanted(file)))
    requires Underway(g, b, start, done)
    modifies g
    ensures Underway(g, b, start, done) && g.calls == old(g.calls) + 1
    ensures r.Ok? ==> Underway(g, b, start, done + {file.path})
    ensures g.Smooth() ==> r.Ok?
  {
    r := g.DeployGuestFile(file);
    StepContinues(g.tools, b, start, old(g.files), g.files, file.path, done);
  }

  method DeployBinary(g: Guest, b: Bundle, staging: string, target: string, bytes: Blob, sha: string,
                      ghost start: Files, ghost done: set<string>)
    returns (r: Result<(), string>)
    requires Isolated(b) && target in Targets(b) && staging in {AGENT_STAGING, IWATCH_STAGING}
    requires staging !in {target} + Scratch(target)
    requires forall f :: HashIs(g.tools, f, sha) ==> Good(g.tools, b, target, f)
    requires Underway(g, b, start, done)
    modifies g
    ensures Underway(g, b, start, done) && g.calls > old(g.calls)
    ensures r.Ok? ==> Underway(g, b, start, done + {target}) && g.calls == old(g.calls) + BinaryCalls(bytes)
    ensures g.Smooth() && bytes != [] && g.tools.sha(bytes) == sha ==> r.Ok?
  {
    r := g.DeployGuestBinary(staging, target, bytes, sha);
    ChunksCounted(bytes);
    StepContinues(g.tools, b, start, old(g.files), g.files, target, done);
  }

  method DeployFiles(g: Guest, b: Bundle, ghost start: Files) returns (r: Result<(), string>)
    requires Isolated(b) && Underway(g, b, start, {})
    modifies g
    ensures Underway(g, b, start, if r.Ok? then FilePaths(b) else {}) && g.calls >= old(g.calls)
    ensures r.Ok? ==> g.calls == old(g.calls) + |b.files|
    ensures g.Smooth() ==> r.Ok?
  {
    ghost var done: set<string> := {};
    var k := 0;
    while k < |b.files|
      invariant k <= |b.files| && Underway(g, b, start, done) && g.calls == old(g.calls) + k
      invariant done == set i | 0 <= i < k :: b.files[i].path
    {
      assert b.files[k].path in FilePaths(b);
      r := DeployFile(g, b, b.files[k], start, done);
      if r.Err? {
        return;
      }
      done := done + {b.files[k].path};
      k := k + 1;
    }
    assert done == FilePaths(b);
    r := Ok(());
  }

  method DeployBinaries(g: Guest, b: Bundle, ghost start: Files, ghost others: set<string>)
    returns (r: Result<(), string>)
    requires Isolated(b) && Underway(g, b, start, others)
    modifies g
    ensures Underway(g, b, start, others) && g.calls >= old(g.calls)
    ensures r.Ok? ==> Underway(g, b, start, others + {AGENT} + (if b.iwatch.Absent? then {} else {IWATCH}))
    ensures r.Ok? ==> b.agent.Some? && g.calls == old(g.calls) + BinaryCalls(b.agent.value)
                                         + if b.iwatch.Present? then BinaryCalls(b.iwatch.bytes) else 0
    ensures g.Smooth() && Cached(g.tools, b) ==> r.Ok?
  {
    PathsDiffer();
    if b.agent.None? {
      return Err("agent binary unreadable");
    }
    r := DeployBinary(g, b, AGENT_STAGING, AGENT, b.agent.value, b.agentSha, start, others);
    if r.Err? {
      return;
    }
    match b.iwatch {
      case Absent => assert others + {AGENT} + {} == others + {AGENT};
      case Unreadable => r := Err("iwatch binary unreadable");
      case Present(bytes) =>
        r := DeployBinary(g, b, IWATCH_STAGING, IWATCH, bytes, g.tools.sha(bytes), start, others + {AGENT});
    }
  }

  /** The files and binaries of the bundle, in the order of the rollout. */
  method DeployBundle(g: Guest, b: Bundle) returns (r: Result<(), string>)
    requires Isolated(b)
    modifies g
    ensures Attempt(g.tools, b, old(g.files), g.files) && Same(old(g.files), g.files, MANIFEST)
    ensures r.Ok? ==> Installed(g.tools, b, g.files)
    ensures g.Smooth() && Cached(g.tools, b) ==> r.Ok?
    ensures g.calls >= old(g.calls)
    ensures r.Ok? ==> b.agent.Some? && g.calls == old(g.calls) + DeployCalls(b)
  {
    ghost var start := g.files;
    r := DeployFiles(g, b, start);
    if r.Err? {
      return;
    }
    if b.metadata.None? {
      return Err("image metadata unreadable");
    }
    r := DeployFile(g, b, GuestFile(METADATA, b.metadata.value, "0644"), start, FilePaths(b));
    if r.Err? {
      return;
    }
    if b.openrc.None? {
      return Err("openrc script unreadable");
    }
    PathsDiffer();
    ghost var done := FilePaths(b) + {METADATA};
    r := DeployFile(g, b, GuestFile(OPENRC, b.openrc.value, "0755"), start, done);
    if r.Err? {
      return;
    }
    done := done + {OPENRC};
    r := DeployBinaries(g, b, start, done);
    assert Targets(b) == done + {AGENT} + (if b.iwatch.Absent? then {} else {IWATCH});
  }

  lemma PathsDiffer()
    ensures METADATA != OPENRC && METADATA != AGENT && METADATA != IWATCH
    ensures OPENRC != AGENT && OPENRC != IWATCH && AGENT != IWATCH
    ensures AGENT_STAGING !in {AGENT} + Scratch(AGENT) && IWATCH_STAGING !in {IWATCH} + Scratch(IWATCH)
  {
    assert METADATA[1] == 'u' && OPENRC[1] == 'e' && AGENT[1] == 'u' && IWATCH[1] == 'u';
    assert METADATA[5] == 'l' && AGENT[5] == 'l' && IWATCH[5] == 'l';
    assert AGENT_STAGING[1] == 't' && IWATCH_STAGING[1] == 't';
  }

  /** Restart, then wait: the guest's files stay, and both succeed exactly if the restart call does
      and the agent then answers with the bundle's version before the deadline. */
  method RestartAndWait(g: Guest, b: Bundle) returns (r: Result<(), string>)
    modifies g
    ensures g.files == old(g.files) && g.calls > old(g.calls)
    ensures r.Ok? ==> g.world(g.calls - 1).version == Some(b.version)
    ensures r.Ok? <==> Restarts(g.world(old(g.calls))) && AgentAnswers(g.world, old(g.calls) + 1, g.patience, b.version)
    ensures g.Smooth() ==> Restarts(g.world(old(g.calls)))
  {
    r := g.RestartAgent();
    if r.Ok? {
      r := g.WaitForAgent(b.version);
    }
  }

  /** The bundle's manifest as written at a time. */
  predicate ManifestAt(b: Bundle, now: nat, files: Files) {
    At(files, MANIFEST) == Some(File(DeployedText(b.manifest(now)), "0644"))
  }

  /** The last call: only now the manifest changes. */
  method WriteManifest(g: Guest, b: Bundle, now: nat, ghost start: Files) returns (r: Result<(), string>)
    requires Isolated(b) && ManifestNames(g.tools, b)
    requires Attempt(g.tools, b, start, g.files) && Installed(g.tools, b, g.files)
    modifies g
    ensures Upgrading(g.tools, b, now, start, g.files, r.Ok?)
    ensures Installed(g.tools, b, g.files) && g.calls == old(g.calls) + 1
    ensures g.Smooth() ==> r.Ok?
  {
    r := g.DeployGuestFile(GuestFile(MANIFEST, b.manifest(now), "0644"));
    ManifestStepIsAttempt(g.tools, b, old(g.files), g.files);
    AttemptTransitive(g.tools, b, start, old(g.files), g.files);
  }

  /** What an upgrade from call `from` on has done to a guest that stood at `start`. Failed or not,
      it is an attempt. Success means that everything is installed and the manifest written, in the
      call after the restarted agent answered with the bundle's version. When the calls work and
      the cache is complete, everything is installed, and the upgrade succeeds exactly if the
      restarted agent answers before the deadline. */
  ghost predicate UpgradeEffect(g: Guest, b: Bundle, now: nat, start: Files, from: nat, ok: bool)
    reads g
  {
    && g.calls >= from && Upgrading(g.tools, b, now, start, g.files, ok)
    && (ok || !Same(start, g.files, MANIFEST) ==>
          && g.calls >= 2 && g.world(g.calls - 2).version == Some(b.version)
          && b.agent.Some? && Restarts(g.world(from + DeployCalls(b)))
          && AgentAnswers(g.world, from + DeployCalls(b) + 1, g.patience, b.version))
    && (g.Smooth() && Cached(g.tools, b) ==>
          && Installed(g.tools, b, g.files)
          && (ok <==> AgentAnswers(g.world, from + DeployCalls(b) + 1, g.patience, b.version)))
  }

  ghost predicate Upgrading(t: Tools, b: Bundle, now: nat, start: Files, after: Files, ok: bool) {
    && Attempt(t, b, start, after)
    && (ok ==> Installed(t, b, after) && Names(t, b, after) && ManifestAt(b, now, after))
  }

  /** The restart, the wait and the manifest. */
  method FinishUpgrade(g: Guest, b: Bundle, now: nat, ghost start: Files, ghost from: nat)
    returns (r: Result<(), string>)
    requires Isolated(b) && ManifestNames(g.tools, b) && b.agent.Some? && g.calls == from + DeployCalls(b)
    requires Attempt(g.tools, b, start, g.files) && Installed(g.tools, b, g.files) && Same(start, g.files, MANIFEST)
    modifies g
    ensures UpgradeEffect(g, b, now, start, from, r.Ok?)
  {
    r := RestartAndWait(g, b);
    if r.Err? {
      assert Same(start, g.files, MANIFEST);
      return;
    }
    ghost var answered := g.calls - 1;
    r := WriteManifest(g, b, now, start);
    assert g.calls - 2 == answered && g.world(answered).version == Some(b.version);
  }

  /** Everything after the look at the manifest. */
  method Upgrade(g: Guest, b: Bundle, now: nat, ghost start: Files) returns (r: Result<(), string>)
    requires Isolated(b) && ManifestNames(g.tools, b) && start == g.files
    modifies g
    ensures UpgradeEffect(g, b, now, start, old(g.calls), r.Ok?)
  {
    r := DeployBundle(g, b);
    if r.Ok? {
      r := FinishUpgrade(g, b, now, start, old(g.calls));
    }
  }

  /** `rollout_to_vm`. A guest whose manifest can be read and names the bundle is left alone
      after that one call; on any other guest the bundle is deployed. */
  method RolloutToVm(g: Guest, b: Bundle, now: nat) returns (r: Result<Status, string>)
    requires Isolated(b) && ManifestNames(g.tools, b)
    modifies g
    ensures r == Ok(Unchanged) <==> ReadWorks(g.world(old(g.calls))) && Names(g.tools, b, old(g.files))
    ensures r == Ok(Unchanged) ==> g.files == old(g.files) && g.calls == old(g.calls) + 1
    ensures r != Ok(Unchanged) ==> UpgradeEffect(g, b, now, old(g.files), old(g.calls) + 1, r.Ok?)
  {
    var id := g.ReadBundleId();
    if id == Some(b.id) {
      return Ok(Unchanged);
    }
    var upgraded := Upgrade(g, b, now, old(g.files));
    r := if upgraded.Err? then Err(upgraded.error) else Ok(Upgraded);
  }

  lemma UnchangedIsAttempt(t: Tools, b: Bundle, files: Files)
    ensures Attempt(t, b, files, files)
  {
  }

  lemma NamesKept(t: Tools, b: Bundle, before: Files, after: Files)
    requires Attempt(t, b, before, after) && Names(t, b, before)
    ensures Names(t, b, after)
  {
    assert Same(before, after, MANIFEST) || Names(t, b, after);
  }

  /** Attempts since `start` have led to the guest's files, after at least `from` calls. */
  ghost predicate Tried(g: Guest, b: Bundle, start: Files, from: nat)
    reads g
  {
    g.calls >= from && Attempt(g.tools, b, start, g.files)
  }

  ghost predicate Named(g: Guest, b: Bundle)
    reads g
  {
    Names(g.tools, b, g.files)
  }

  /** One more rollout to a guest that attempts have changed since `start`. */
  method RolloutAgain(g: Guest, b: Bundle, now: nat, ghost start: Files, ghost from: nat)
    returns (r: Result<Status, string>)
    requires Isolated(b) && ManifestNames(g.tools, b) && Tried(g, b, start, from)
    modifies g
    ensures Tried(g, b, start, from + 1)
    ensures r.Ok? || old(Named(g, b)) ==> Named(g, b)
    ensures r.Err? ==> Troubled(g, b)
  {
    r := RolloutToVm(g, b, now);
    UnchangedIsAttempt(g.tools, b, old(g.files));
    assert g.Responsive(b.version) && Cached(g.tools, b) ==>
      AgentAnswers(g.world, old(g.calls) + DeployCalls(b) + 2, g.patience, b.version);
    AttemptTransitive(g.tools, b, start, old(g.files), g.files);
    if Names(g.tools, b, old(g.files)) {
      NamesKept(g.tools, b, old(g.files), g.files);
    }
  }

  /** A target whose rollout can fail: a call does not work, the agent does not always answer with
      the version before the deadline, or the cache is incomplete. */
  ghost predicate Troubled(g: Guest, b: Bundle)
    reads g
  {
    !(g.Smooth() && g.Responsive(b.version) && Cached(g.tools, b))
  }

  /** Failures are listed in the order of the first `k` targets. */
  predicate InOrder(failures: seq<(nat, string)>, k: nat) {
    && (forall i :: 0 <= i < |failures| ==> failures[i].0 < k)
    && (forall i, j :: 0 <= i < j < |failures| ==> failures[i].0 < failures[j].0)
  }

  function Failed(failures: seq<(nat, string)>): set<nat> { set i | 0 <= i < |failures| :: failures[i].0 }

  lemma OneMoreFailure(failures: seq<(nat, string)>, k: nat, message: string)
    requires InOrder(failures, k)
    ensures InOrder(failures + [(k, message)], k + 1)
    ensures Failed(failures + [(k, message)]) == Failed(failures) + {k}
  {
    var all := failures + [(k, message)];
    assert all[|failures|].0 == k;
    forall n | n in Failed(failures) ensures n in Failed(all) {
      var i :| 0 <= i < |failures| && failures[i].0 == n;
      assert all[i].0 == n;
    }
  }

  /** The answers of successful attempts, and the failed targets with their messages, in order. */
  function Oks(outcomes: seq<Result<Status, string>>): seq<Status> {
    if outcomes == [] then []
    else
      var last := outcomes[|outcomes| - 1];
      Oks(outcomes[..|outcomes| - 1]) + if last.Ok? then [last.value] else []
  }

  function Failures(outcomes: seq<Result<Status, string>>): seq<(nat, string)> {
    if outcomes == [] then []
    else
      var last := outcomes[|outcomes| - 1];
      Failures(outcomes[..|outcomes| - 1]) + if last.Err? then [(|outcomes| - 1, last.error)] else []
  }

  /** A target is listed as failed exactly if its own attempt failed. */
  lemma {:induction false} FailedIffErr(outcomes: seq<Result<Status, string>>, n: nat)
    requires n < |outcomes|
    ensures n in Failed(Failures(outcomes)) <==> outcomes[n].Err?
    ensures InOrder(Failures(outcomes), |outcomes|)
    decreases |outcomes|
  {
    var front, last := outcomes[..|outcomes| - 1], outcomes[|outcomes| - 1];
    var before := Failures(front);
    if front != [] {
      FailedIffErr(front, if n < |front| then n else 0);
    }
    assert InOrder(before, |front|);
    assert |front| !in Failed(before);
    if last.Err? {
      OneMoreFailure(before, |front|, last.error);
      assert Failures(outcomes) == before + [(|front|, last.error)];
    } else {
      assert Failures(outcomes) == before + [] == before;
    }
  }

  lemma OneMoreOutcome(outcomes: seq<Result<Status, string>>, one: Result<Status, string>)
    ensures Oks(outcomes + [one]) == Oks(outcomes) + if one.Ok? then [one.value] else []
    ensures Failures(outcomes + [one]) == Failures(outcomes) + if one.Err? then [(|outcomes|, one.error)] else []
  {
    assert (outcomes + [one])[..|outcomes|] == outcomes;
  }

  /** Where the guests of the targets stood before the loop. */
  datatype Start = Start(files: Files, calls: nat)

  function Starts(targets: seq<Guest>): (starts: seq<Start>)
    reads set g | g in targets
    ensures |starts| == |targets|
    ensures forall n: nat :: n < |targets| ==> starts[n] == Start(targets[n].files, targets[n].calls)
  {
    if targets == [] then []
    else Starts(targets[..|targets| - 1]) + [Start(targets[|targets| - 1].files, targets[|targets| - 1].calls)]
  }

  /** What is known after the first `k` targets, of which `failed` failed. */
  ghost predicate Progress(targets: seq<Guest>, b: Bundle, k: nat, failed: set<nat>, starts: seq<Start>)
    requires |starts| == |targets|
    reads set g | g in targets
  {
    && (forall n: nat :: n < |targets| ==>
          Tried(targets[n], b, starts[n].files, starts[n].calls + if n < k then 1 else 0))
    && (forall n: nat :: n in failed ==> n < k && n < |targets| && Troubled(targets[n], b))
    && (forall n: nat :: n < k && n < |targets| && n !in failed ==> Named(targets[n], b))
  }

  lemma NothingYet(targets: seq<Guest>, b: Bundle)
    ensures Progress(targets, b, 0, {}, Starts(targets))
  {
    forall n: nat | n < |targets|
      ensures Tried(targets[n], b, Starts(targets)[n].files, Starts(targets)[n].calls)
    {
      assert Attempt(targets[n].tools, b, targets[n].files, targets[n].files);
    }
  }

  /** One turn of the loop. */
  method RolloutNext(targets: seq<Guest>, k: nat, b: Bundle, now: nat, ghost failed: set<nat>, ghost starts: seq<Start>)
    returns (one: Result<Status, string>)
    requires k < |targets| && Isolated(b) && ManifestNames(targets[k].tools, b)
    requires |starts| == |targets| && Progress(targets, b, k, failed, starts)
    requires forall n: nat :: n < |targets| && targets[n] == targets[k] ==> starts[n] == starts[k]
    modifies targets[k]
    ensures Progress(targets, b, k + 1, if one.Ok? then failed else failed + {k}, starts)
  {
    assert Tried(targets[k], b, starts[k].files, starts[k].calls);
    one := RolloutAgain(targets[k], b, now, starts[k].files, starts[k].calls);
    forall n: nat | n < |targets|
      ensures Tried(targets[n], b, starts[n].files, starts[n].calls + if n < k + 1 then 1 else 0)
    {
      assert old(Tried(targets[n], b, starts[n].files, starts[n].calls + if n < k then 1 else 0));
    }
    forall n: nat | n < k && n !in failed ensures Named(targets[n], b) {
      assert old(Named(targets[n], b));
    }
  }

  /** The loop over the targets, with what is known of each of them afterwards. */
  method RolloutEach(targets: seq<Guest>, b: Bundle, now: nat, ghost starts: seq<Start>)
    returns (results: seq<Status>, failures: seq<(nat, string)>, ghost outcomes: seq<Result<Status, string>>)
    requires Isolated(b) && forall n: nat :: n < |targets| ==> ManifestNames(targets[n].tools, b)
    requires |starts| == |targets| && Progress(targets, b, 0, {}, starts)
    requires forall n: nat, m: nat ::
      n < |targets| && m < |targets| && targets[n] == targets[m] ==> starts[n] == starts[m]
    modifies set g | g in targets
    ensures |results| + |failures| == |targets| && InOrder(failures, |targets|)
    ensures Progress(targets, b, |targets|, Failed(failures), starts)
    ensures |outcomes| == |targets| && results == Oks(outcomes) && failures == Failures(outcomes)
  {
    results, failures, outcomes := [], [], [];
    var k := 0;
    assert Failed(failures) == {};
    while k < |targets|
      invariant k <= |targets| && |results| + |failures| == k && InOrder(failures, k)
      invariant Progress(targets, b, k, Failed(failures), starts)
      invariant |outcomes| == k && results == Oks(outcomes) && failures == Failures(outcomes)
    {
      var one := RolloutNext(targets, k, b, now, Failed(failures), starts);
      OneMoreOutcome(outcomes, one);
      outcomes := outcomes + [one];
      if one.Ok? {
        results := results + [one.value];
      } else {
        OneMoreFailure(failures, k, one.error);
        failures := failures + [(k, one.error)];
      }
      k := k + 1;
    }
  }

  /** `rollout_targets`: every target is attempted, whatever happened to the ones before it; the
      answer is made of the outcomes of these attempts. Ok means that every target's manifest
      names the bundle now. Otherwise the failed targets are listed in order, each in some
      trouble, and every other target's manifest names the bundle. A VM may be listed more than
      once. */
  method RolloutTargets(targets: seq<Guest>, b: Bundle, now: nat)
    returns (r: Result<seq<Status>, seq<(nat, string)>>, ghost outcomes: seq<Result<Status, string>>)
    requires Isolated(b) && forall g :: g in targets ==> ManifestNames(g.tools, b)
    modifies set g | g in targets
    ensures forall g :: g in targets ==> Attempt(g.tools, b, old(g.files), g.files) && g.calls > old(g.calls)
    ensures |outcomes| == |targets|
    ensures r == if Failures(outcomes) == [] then Ok(Oks(outcomes)) else Err(Failures(outcomes))
    ensures r.Ok? ==> |r.value| == |targets| && forall g :: g in targets ==> Named(g, b)
    ensures r.Err? ==> r.error != [] && InOrder(r.error, |targets|)
    ensures r.Err? ==> forall n: nat :: n in Failed(r.error) ==> n < |targets| && Troubled(targets[n], b)
    ensures r.Err? ==> forall n: nat :: n < |targets| && n !in Failed(r.error) ==> Named(targets[n], b)
    ensures forall g :: g in targets && Named(g, b) && Consistent(g.tools, b, old(g.files)) ==>
      Installed(g.tools, b, g.files)
  {
    ghost var starts := Starts(targets);
    NothingYet(targets, b);
    var results, failures;
    results, failures, outcomes := RolloutEach(targets, b, now, starts);
    forall g | g in targets
      ensures Attempt(g.tools, b, old(g.files), g.files) && g.calls > old(g.calls)
      ensures Consistent(g.tools, b, old(g.files)) ==> Consistent(g.tools, b, g.files)
    {
      var n: nat :| n < |targets| && targets[n] == g;
      assert Tried(targets[n], b, starts[n].files, starts[n].calls + 1);
      if Consistent(g.tools, b, old(g.files)) {
        AttemptKeepsConsistent(g.tools, b, old(g.files), g.files);
      }
    }
    r := if failures == [] then Ok(results) else Err(failures);
  }

  // ----- any number of attempts -----

  ghost predicate Attempts(t: Tools, b: Bundle, states: seq<Files>) {
    forall i :: 0 < i < |states| ==> Attempt(t, b, states[i - 1], states[i])
  }

  /** Over any number of attempts, failed at any call or not: a guest that was consistent stays
      so, and once its manifest names the bundle, it and all files stay the bundle's. */
  lemma {:induction false} AttemptsKeepConsistent(t: Tools, b: Bundle, states: seq<Files>, i: nat, j: nat)
    requires Attempts(t, b, states) && i <= j < |states| && Consistent(t, b, states[i])
    ensures Consistent(t, b, states[j])
    ensures Names(t, b, states[i]) ==> Names(t, b, states[j]) && Installed(t, b, states[j])
    decreases j
  {
    if i < j {
      AttemptsKeepConsistent(t, b, states, i, j - 1);
      AttemptKeepsConsistent(t, b, states[j - 1], states[j]);
    }
  }

  // ----- the bundle of the repository -----

  datatype Texts = Texts(virtiofsBind: Blob, routerApply: Blob, caInject: Blob, unit: Blob)

  /** `guest_deploy_files`. */
  function GuestDeployFiles(x: Texts): seq<GuestFile> {
    [GuestFile("/usr/local/lib/vzctl/virtiofs-bind", x.virtiofsBind, "0755"),
     GuestFile("/etc/sudoers.d/vzctl-virtiofs",
               Ascii("vzctl-agent ALL=(root) NOPASSWD: /usr/local/lib/vzctl/virtiofs-bind\n"), "0440"),
     GuestFile("/usr/local/lib/vzctl/router-apply", x.routerApply, "0755"),
     GuestFile("/etc/sudoers.d/vzctl-router",
               Ascii("vzctl-agent ALL=(root) NOPASSWD: /usr/local/lib/vzctl/router-apply\n"), "0440"),
     GuestFile("/usr/local/lib/vzctl/ca-inject", x.caInject, "0755"),
     GuestFile("/etc/sudoers.d/vzctl-ca",
               Ascii("vzctl-agent ALL=(root) NOPASSWD: /usr/local/lib/vzctl/ca-inject\n"), "0440"),
     GuestFile("/etc/sudoers.d/vzctl-agent", Ascii("vzctl-agent ALL=(ALL) NOPASSWD:ALL\n"), "0440"),
     GuestFile("/etc/systemd/system/vzctl-agent.service", x.unit, "0644")]
  }

  function Last(p: string): char { if p == "" then ' ' else p[|p| - 1] }

  /** A path that ends like no scratch file. */
  predicate EndsApart(p: string) { Last(p) !in {'w', 'c', 'k', 'g'} }

  lemma ScratchEnds(q: string, p: string)
    requires EndsApart(p)
    ensures p !in Scratch(q) && p !in {AGENT_STAGING, IWATCH_STAGING}
  {
    assert Last(q + ".new") == 'w' && Last(q + ".new.dec") == 'c' && Last(q + ".bak") == 'k';
    assert Last(AGENT_STAGING) == 'g' && Last(IWATCH_STAGING) == 'g';
  }

  /** Prefixes that keep the deployed files away from the other paths. */
  predicate FilePath(p: string) {
    |p| > 11 && EndsApart(p) && ((p[5] == 'l' && p[6] == 'o' && p[11] == 'l') || (p[1] == 'e' && p[5] == 's'))
  }

  lemma LibraryPaths()
    ensures FilePath("/usr/local/lib/vzctl/virtiofs-bind") && FilePath("/usr/local/lib/vzctl/router-apply")
    ensures FilePath("/usr/local/lib/vzctl/ca-inject")
  {
  }

  lemma SudoersPaths()
    ensures FilePath("/etc/sudoers.d/vzctl-virtiofs") && FilePath("/etc/sudoers.d/vzctl-router")
    ensures FilePath("/etc/sudoers.d/vzctl-ca") && FilePath("/etc/sudoers.d/vzctl-agent")
  {
  }

  lemma UnitPath()
    ensures FilePath("/etc/systemd/system/vzctl-agent.service")
  {
  }

  lemma FilePathsApart(x: Texts, file: GuestFile)
    requires file in GuestDeployFiles(x)
    ensures FilePath(file.path)
  {
    LibraryPaths();
    SudoersPaths();
    UnitPath();
  }

  lemma OtherPathsApart()
    ensures EndsApart(METADATA) && EndsApart(OPENRC) && EndsApart(AGENT) && EndsApart(IWATCH) && EndsApart(MANIFEST)
    ensures !FilePath(METADATA) && !FilePath(OPENRC) && !FilePath(AGENT) && !FilePath(IWATCH) && !FilePath(MANIFEST)
    ensures MANIFEST !in {METADATA, OPENRC, AGENT, IWATCH}
  {
    assert METADATA[1] == 'u' && METADATA[6] == 'i' && OPENRC[1] == 'e' && OPENRC[5] == 'i';
    assert AGENT[1] == 'u' && AGENT[11] == 's' && IWATCH[1] == 'u' && IWATCH[11] == 'b';
    assert MANIFEST[1] == 'v' && MANIFEST[5] == 'l' && MANIFEST[6] == 'i';
  }

  /** The paths the repository deploys to do not get in each other's way, nor in the way of
      the scratch files beside them. */
  lemma RepositoryBundleIsolated(b: Bundle, x: Texts)
    requires b.files == GuestDeployFiles(x)
    ensures Isolated(b)
  {
    OtherPathsApart();
    forall i | 0 <= i < |b.files| ensures FilePath(b.files[i].path) {
      FilePathsApart(x, b.files[i]);
    }
    forall p | p in Targets(b) + {MANIFEST} ensures Clear(p, b) {
      assert EndsApart(p);
      forall q | q in Targets(b) + {MANIFEST} ensures p !in Scratch(q) && p !in {AGENT_STAGING, IWATCH_STAGING} {
        ScratchEnds(q, p);
      }
      ScratchEnds(p, p);
    }
  }

  lemma FileLengths(x: Texts, i: nat, j: nat)
    requires i < j < 8
    ensures |GuestDeployFiles(x)| == 8 && GuestDeployFiles(x)[i].path != GuestDeployFiles(x)[j].path
  {
    var lengths := [34, 29, 33, 27, 30, 23, 26, 39];
    var f := GuestDeployFiles(x);
    assert |f[0].path| == 34 && |f[1].path| == 29 && |f[2].path| == 33 && |f[3].path| == 27;
    assert |f[4].path| == 30 && |f[5].path| == 23 && |f[6].path| == 26 && |f[7].path| == 39;
    assert |f[i].path| == lengths[i] && |f[j].path| == lengths[j];
  }

  /** What "installed" comes to, file by file. */
  ghost predicate Deployed(t: Tools, b: Bundle, files: Files) {
    && (forall i :: 0 <= i < |b.files| ==> At(files, b.files[i].path) == Some(Wanted(b.files[i])))
    && b.metadata.Some? && At(files, METADATA) == Some(File(DeployedText(b.metadata.value), "0644"))
    && b.openrc.Some? && At(files, OPENRC) == Some(File(DeployedText(b.openrc.value), "0755"))
    && b.agent.Some? && HashIs(t, At(files, AGENT), b.agentSha)
    && (b.iwatch.Absent? || (b.iwatch.Present? && HashIs(t, At(files, IWATCH), t.sha(b.iwatch.bytes))))
  }

  predicate DistinctPaths(b: Bundle) {
    forall i, j :: 0 <= i < j < |b.files| ==> b.files[i].path != b.files[j].path
  }

  lemma InstalledIffDeployed(t: Tools, b: Bundle, x: Texts, files: Files)
    requires b.files == GuestDeployFiles(x)
    ensures Installed(t, b, files) <==> Deployed(t, b, files)
  {
    RepositoryBundleIsolated(b, x);
    RepositoryPathsDistinct(b, x);
    InstalledFiles(t, b, files);
  }

  lemma InstalledFiles(t: Tools, b: Bundle, files: Files)
    requires Isolated(b) && DistinctPaths(b)
    ensures Installed(t, b, files) <==> Deployed(t, b, files)
  {
    PathsDiffer();
    forall i | 0 <= i < |b.files|
      ensures Good(t, b, b.files[i].path, At(files, b.files[i].path))
        <==> At(files, b.files[i].path) == Some(Wanted(b.files[i]))
    {
      assert b.files[i].path in FilePaths(b);
    }
    if Installed(t, b, files) {
      forall i | 0 <= i < |b.files| ensures At(files, b.files[i].path) == Some(Wanted(b.files[i])) {
        assert b.files[i].path in Targets(b);
      }
      assert {METADATA, OPENRC, AGENT} <= Targets(b);
      assert !b.iwatch.Absent? ==> IWATCH in Targets(b);
    }
  }

  lemma RepositoryPathsDistinct(b: Bundle, x: Texts)
    requires b.files == GuestDeployFiles(x)
    ensures DistinctPaths(b)
  {
    forall i, j | 0 <= i < j < |b.files| ensures b.files[i].path != b.files[j].path {
      FileLengths(x, i, j);
    }
  }
}
