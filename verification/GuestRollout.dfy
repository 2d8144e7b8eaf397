/**
 The rollout of a guest-utils bundle: every file and binary first, the manifest that names the
 bundle last, over calls that may fail at any point.
 */
module GuestRollout {
  import opened Wrappers
  import opened GuestShell

  const MANIFEST := "/var/lib/vzctl/utils.manifest.json"
  const AGENT := "/usr/local/sbin/vzctl-agent"
  const METADATA := "/usr/lib/vzctl-agent/image-metadata.json"
  const OPENRC := "/etc/init.d/vzctl-agent"
  const IWATCH := "/usr/local/bin/iwatch"
  const AGENT_STAGING := "/tmp/vzctl-agent.staging"
  const IWATCH_STAGING := "/tmp/iwatch.staging"

  const CHUNK_SIZE: nat := 180 * 1024

  datatype GuestFile = GuestFile(path: string, content: Blob, mode: string)

  datatype Staged = Absent | Unreadable | Present(bytes: Blob)

  /** A bundle as the host's cache holds it; None for a cache file that cannot be read. The
      manifest carries the time of the rollout. */
  datatype Bundle = Bundle(
    id: string, version: string, files: seq<GuestFile>, metadata: Option<Blob>, openrc: Option<Blob>,
    agent: Option<Blob>, agentSha: string, iwatch: Staged, manifest: nat -> Blob)

  datatype Status = Unchanged | Upgraded

  // ----- chunks -----

  function SplitChunks(data: Blob): (chunks: seq<Blob>)
    decreases |data|
  {
    if data == [] then []
    else if |data| <= CHUNK_SIZE then [data]
    else [data[..CHUNK_SIZE]] + SplitChunks(data[CHUNK_SIZE..])
  }

  function Concat(chunks: seq<Blob>): Blob {
    if chunks == [] then [] else Concat(chunks[..|chunks| - 1]) + chunks[|chunks| - 1]
  }

  lemma {:induction false} ConcatFront(first: Blob, chunks: seq<Blob>)
    ensures Concat([first] + chunks) == first + Concat(chunks)
    decreases |chunks|
  {
    var all := [first] + chunks;
    if chunks == [] {
      assert all[..0] == [];
    } else {
      assert all[..|all| - 1] == [first] + chunks[..|chunks| - 1];
      ConcatFront(first, chunks[..|chunks| - 1]);
    }
  }

  /** How many chunks there are. */
  lemma {:induction false} ChunksCounted(data: Blob)
    ensures |SplitChunks(data)| == (|data| + 184319) / 184320
    decreases |data|
  {
    if |data| > CHUNK_SIZE {
      ChunksCounted(data[CHUNK_SIZE..]);
    }
  }

  /** The chunks are non-empty, full except maybe the last, and put together the input. */
  lemma {:induction false} ChunksRebuild(data: Blob)
    ensures Concat(SplitChunks(data)) == data
    ensures
      var chunks := SplitChunks(data);
      forall i :: 0 <= i < |chunks| ==>
        0 < |chunks[i]| <= CHUNK_SIZE && (i < |chunks| - 1 ==> |chunks[i]| == CHUNK_SIZE)
    decreases |data|
  {
    if |data| > CHUNK_SIZE {
      ChunksRebuild(data[CHUNK_SIZE..]);
      ConcatFront(data[..CHUNK_SIZE], SplitChunks(data[CHUNK_SIZE..]));
      assert data == data[..CHUNK_SIZE] + data[CHUNK_SIZE..];
    } else if data != [] {
      assert [data][..0] == [];
    }
  }

  // ----- what a guest should hold -----

  function Wanted(file: GuestFile): File { File(DeployedText(file.content), file.mode) }

  predicate HashIs(t: Tools, f: Option<File>, sha: string) {
    f.Some? && t.sha(f.value.content) == sha && f.value.mode == "0755"
  }

  ghost predicate IsScript(files: seq<GuestFile>, p: string, f: Option<File>) {
    exists i :: 0 <= i < |files| && files[i].path == p && f == Some(Wanted(files[i]))
  }

  /** What stands at `p` is the bundle's. */
  ghost predicate Good(t: Tools, b: Bundle, p: string, f: Option<File>) {
    if p == METADATA then b.metadata.Some? && f == Some(File(DeployedText(b.metadata.value), "0644"))
    else if p == OPENRC then b.openrc.Some? && f == Some(File(DeployedText(b.openrc.value), "0755"))
    else if p == AGENT then b.agent.Some? && HashIs(t, f, b.agentSha)
    else if p == IWATCH then b.iwatch.Present? && HashIs(t, f, t.sha(b.iwatch.bytes))
    else IsScript(b.files, p, f)
  }

  function FilePaths(b: Bundle): set<string> { set i | 0 <= i < |b.files| :: b.files[i].path }

  function Targets(b: Bundle): set<string> {
    FilePaths(b) + {METADATA, OPENRC, AGENT} + (if b.iwatch.Absent? then {} else {IWATCH})
  }

  ghost predicate Ready(t: Tools, b: Bundle, files: Files, paths: set<string>) {
    forall p :: p in paths ==> Good(t, b, p, At(files, p))
  }

  ghost predicate Installed(t: Tools, b: Bundle, files: Files) { Ready(t, b, files, Targets(b)) }

  /** The manifest on the guest names the bundle. */
  predicate Names(t: Tools, b: Bundle, files: Files) {
    MANIFEST in files && t.bundleId(files[MANIFEST].content) == Some(b.id)
  }

  ghost predicate Consistent(t: Tools, b: Bundle, files: Files) { Names(t, b, files) ==> Installed(t, b, files) }

  // ----- paths that do not get in each other's way -----

  function Scratch(p: string): set<string> { {p + ".new", p + ".new.dec", p + ".bak"} }

  predicate Clear(p: string, b: Bundle) {
    && p !in {AGENT_STAGING, IWATCH_STAGING}
    && forall q :: q in Targets(b) + {MANIFEST} ==> p !in Scratch(q)
  }

  /** No file of the bundle stands where another, or its scratch files, do. */
  predicate Isolated(b: Bundle) {
    && (forall p :: p in Targets(b) + {MANIFEST} ==> Clear(p, b))
    && MANIFEST !in Targets(b) && FilePaths(b) !! {METADATA, OPENRC, AGENT, IWATCH}
  }

  function Footprint(p: string): set<string> { {p, AGENT_STAGING, IWATCH_STAGING} + Scratch(p) }

  // ----- one attempt, related to the state before it -----

  predicate Same(before: Files, after: Files, p: string) { At(before, p) == At(after, p) }

  ghost predicate Towards(t: Tools, b: Bundle, before: Files, after: Files, p: string) {
    Same(before, after, p) || Good(t, b, p, At(after, p))
  }

  predicate Owned(b: Bundle, p: string) {
    exists q :: q in Targets(b) + {MANIFEST} && p in Footprint(q)
  }

  /** What any attempt, failed or not, does: every target keeps what it held or holds the
      bundle's; the manifest changes only once everything is installed; nothing else changes. */
  ghost predicate Attempt(t: Tools, b: Bundle, before: Files, after: Files) {
    && (forall p :: p in Targets(b) ==> Towards(t, b, before, after, p))
    && (Same(before, after, MANIFEST) || (Installed(t, b, after) && Names(t, b, after)))
    && (forall p :: !Owned(b, p) ==> Same(before, after, p))
  }

  lemma AttemptTransitive(t: Tools, b: Bundle, x: Files, y: Files, z: Files)
    requires Attempt(t, b, x, y) && Attempt(t, b, y, z)
    ensures Attempt(t, b, x, z)
  {
    forall p | p in Targets(b) ensures Towards(t, b, x, z, p) {
      assert Towards(t, b, x, y, p) && Towards(t, b, y, z, p);
    }
    if Same(y, z, MANIFEST) && !Same(x, y, MANIFEST) {
      ReadyKept(t, b, y, z, Targets(b));
    }
    forall p | !Owned(b, p) ensures Same(x, z, p) {
      assert Same(x, y, p) && Same(y, z, p);
    }
  }

  /** What is the bundle's stays the bundle's. */
  lemma ReadyKept(t: Tools, b: Bundle, before: Files, after: Files, paths: set<string>)
    requires Ready(t, b, before, paths) && forall p :: p in paths ==> Towards(t, b, before, after, p)
    ensures Ready(t, b, after, paths)
  {
    forall p | p in paths ensures Good(t, b, p, At(after, p)) {
      assert Towards(t, b, before, after, p) && Good(t, b, p, At(before, p));
    }
  }

  /** An attempt keeps "the manifest names the bundle only if all its files are the bundle's". */
  lemma AttemptKeepsConsistent(t: Tools, b: Bundle, before: Files, after: Files)
    requires Attempt(t, b, before, after) && Consistent(t, b, before)
    ensures Consistent(t, b, after)
    ensures Names(t, b, before) ==> Names(t, b, after) && Installed(t, b, after)
  {
    if Installed(t, b, before) {
      ReadyKept(t, b, before, after, Targets(b));
    }
    assert Same(before, after, MANIFEST) ==> (Names(t, b, before) <==> Names(t, b, after));
  }

  /** One step of an attempt: it writes to `p`, which keeps what it held or becomes good. */
  ghost predicate StepAt(t: Tools, b: Bundle, before: Files, after: Files, p: string) {
    && (forall q :: q !in Footprint(p) ==> Same(before, after, q))
    && Towards(t, b, before, after, p)
  }

  lemma StepIsAttempt(t: Tools, b: Bundle, before: Files, after: Files, p: string)
    requires Isolated(b) && p in Targets(b) && StepAt(t, b, before, after, p)
    ensures Attempt(t, b, before, after)
  {
    forall q | q in Targets(b) + {MANIFEST} && q != p ensures q !in Footprint(p) {
      assert Clear(q, b);
    }
    forall q | q in Targets(b) ensures Towards(t, b, before, after, q) {
      assert q != p ==> Same(before, after, q);
    }
    assert Same(before, after, MANIFEST);
    forall q | !Owned(b, q) ensures Same(before, after, q) {
      assert q !in Footprint(p);
    }
  }

  lemma ManifestStepIsAttempt(t: Tools, b: Bundle, before: Files, after: Files)
    requires Isolated(b) && Installed(t, b, before)
    requires forall q :: q !in Footprint(MANIFEST) ==> Same(before, after, q)
    requires Same(before, after, MANIFEST) || Names(t, b, after)
    ensures Attempt(t, b, before, after) && Installed(t, b, after)
  {
    forall q | q in Targets(b) ensures Towards(t, b, before, after, q) {
      assert Clear(q, b) && q !in Footprint(MANIFEST);
      assert Same(before, after, q);
    }
    ReadyKept(t, b, before, after, Targets(b));
    forall q | !Owned(b, q) ensures Same(before, after, q) {
      assert MANIFEST in Targets(b) + {MANIFEST};
      assert q !in Footprint(MANIFEST);
    }
  }

  /** A successful step extends what is ready by its path. */
  lemma StepExtends(t: Tools, b: Bundle, before: Files, after: Files, p: string, done: set<string>)
    requires Isolated(b) && p in Targets(b) && done <= Targets(b)
    requires StepAt(t, b, before, after, p) && Good(t, b, p, At(after, p)) && Ready(t, b, before, done)
    ensures Ready(t, b, after, done + {p})
  {
    StepIsAttempt(t, b, before, after, p);
    ReadyKept(t, b, before, after, done);
  }

  // ----- restarting and waiting for the agent -----

  /** A restart call that counts as done: it exits with zero, or its connection is closed. */
  ghost predicate Restarts(o: Outcome) {
    if o.lost.Some? then exists a, b :: o.lost.value == a + "connection closed" + b
    else o.steps > 0 && o.exit == 0 && !o.truncated
  }

  lemma ClosedIffNamed(message: string)
    ensures ConnectionClosed(message) <==> exists a, b :: message == a + "connection closed" + b
  {
    if i :| 0 <= i <= |message| && ClosedAt(message, i) {
      var rest := message[i..];
      assert message == message[..i] + "connection closed" + rest[|"connection closed"|..];
    }
    if a, b :| message == a + "connection closed" + b {
      assert message[|a|..] == "connection closed" + b;
      assert ClosedAt(message, |a|);
    }
  }

  /** The call after some polls from call `from` on: a poll whose health call fails is one call,
      any other is two. */
  function AfterPolls(world: nat -> Outcome, from: nat, polls: nat): (next: nat)
    ensures next >= from + polls
    decreases polls
  {
    if polls == 0 then from
    else
      var at := AfterPolls(world, from, polls - 1);
      at + if world(at).healthy then 2 else 1
  }

  /** Poll `k`, counted from 0, is healthy and its version call names the version. */
  predicate ReadyAt(world: nat -> Outcome, from: nat, k: nat, version: string) {
    var at := AfterPolls(world, from, k);
    world(at).healthy && world(at + 1).version == Some(version)
  }

  predicate FirstReady(world: nat -> Outcome, from: nat, k: nat, version: string) {
    ReadyAt(world, from, k, version) && forall i: nat :: i < k ==> !ReadyAt(world, from, i, version)
  }

  /** One of the first poll and the `patience` polls that fit before the deadline succeeds. */
  predicate AgentAnswers(world: nat -> Outcome, from: nat, patience: nat, version: string) {
    exists k: nat :: k <= patience && ReadyAt(world, from, k, version)
  }

  // ----- the guest -----

  predicate ReadWorks(o: Outcome) { o.lost.None? && o.steps > 0 && o.exit == 0 }

  class Guest {
    const tools: Tools
    const world: nat -> Outcome
    /** Polls that fit between the first one and the deadline. */
    const patience: nat
    var files: Files
    var calls: nat

    constructor (tools: Tools, world: nat -> Outcome, patience: nat, files: Files)
      ensures this.tools == tools && this.world == world && this.patience == patience
      ensures this.files == files && calls == 0
    {
      this.tools, this.world, this.patience := tools, world, patience;
      this.files, calls := files, 0;
    }

    ghost predicate Faithful() reads this { forall k, b :: world(k).arrived(b) == b }

    /** Every call works, and what is sent arrives. */
    ghost predicate Smooth() reads this { Faithful() && forall k :: Calm(world(k)) }

    /** Whenever the agent is waited for, it answers in time. */
    ghost predicate Responsive(expected: string) reads this {
      forall from :: AgentAnswers(world, from, patience, expected)
    }

    method Exec(ops: seq<Op>) returns (reply: Reply)
      modifies this
      ensures calls == old(calls) + 1
      ensures (files, reply) == Called(tools, ops, old(files), world(old(calls)))
    {
      var (after, answer) := Called(tools, ops, files, world(calls));
      files, reply, calls := after, answer, calls + 1;
    }

    /** `read_guest_bundle_id`: a manifest that is missing, unreadable or not understood, and a
        call that fails, all count as no bundle. */
    method ReadBundleId() returns (id: Option<string>)
      modifies this
      ensures files == old(files) && calls == old(calls) + 1
      ensures id == if ReadWorks(world(old(calls))) && MANIFEST in files
                    then tools.bundleId(files[MANIFEST].content) else None
    {
      var o := world(calls);
      calls := calls + 1;
      if o.lost.Some? {
        return None;
      }
      var exit := if o.steps > 0 && MANIFEST in files then o.exit else 1;
      id := if exit == 0 then tools.bundleId(files[MANIFEST].content) else None;
    }

    method DeployGuestFile(file: GuestFile) returns (r: Result<(), string>)
      modifies this
      ensures calls == old(calls) + 1
      ensures r.Ok? ==> At(files, file.path) == Some(Wanted(file))
      ensures Calm(world(old(calls))) ==> r.Ok?
      ensures At(files, file.path) == At(old(files), file.path) || At(files, file.path) == Some(Wanted(file))
      ensures forall p :: p !in Footprint(file.path) ==> Same(old(files), files, p)
    {
      DeployEffect(tools, file.path, file.mode, file.content, files, world(calls));
      if Calm(world(calls)) {
        DeployEnds(tools, file.path, file.mode, file.content, files, world(calls));
      }
      var reply := Exec(DeployFileShell(file.path, file.mode, file.content));
      r := if reply.CallFailed? then Err(reply.message)
           else if reply.exit != 0 || reply.truncated then Err("deploy failed") else Ok(());
    }

    /** A script on the staging file alone: `rm -f`, or `cat >>` of one chunk. */
    method ExecStaging(op: Op, staging: string) returns (r: Result<(), string>)
      requires op == Remove(staging) || (op.Append? && op.path == staging)
      modifies this
      ensures calls == old(calls) + 1
      ensures forall p :: p != staging ==> Same(old(files), files, p)
      ensures Calm(world(old(calls))) ==> r.Ok?
      ensures r.Ok? && op.Remove? ==> At(files, staging) == None
      ensures r.Ok? && op.Append? ==> staging in files
      ensures r.Ok? && op.Append? && Faithful()
        ==> ContentAt(files, staging) == ContentAt(old(files), staging) + op.input
    {
      OneOp(tools, op, files, world(calls));
      forall p | p != staging ensures Same(files, Run(tools, [op], files, world(calls)).0, p) {
        RunFrame(tools, [op], files, world(calls), p);
      }
      var reply := Exec([op]);
      r := if reply.CallFailed? then Err(reply.message)
           else if reply.exit != 0 || reply.truncated then Err("staging failed") else Ok(());
    }

    /** `deploy_guest_binary`: whatever fails, the target keeps its old content or holds content
        with the expected hash. */
    method DeployGuestBinary(staging: string, target: string, bytes: Blob, expected: string)
      returns (r: Result<(), string>)
      requires staging in {AGENT_STAGING, IWATCH_STAGING} && staging !in {target} + Scratch(target)
      modifies this
      ensures r.Ok? ==> HashIs(tools, At(files, target), expected)
      ensures At(files, target) == At(old(files), target) || HashIs(tools, At(files, target), expected)
      ensures forall p :: p !in Footprint(target) ==> Same(old(files), files, p)
      ensures r.Ok? && Faithful() ==> At(files, target) == Some(File(bytes, "0755"))
      ensures Smooth() && bytes != [] && tools.sha(bytes) == expected ==> r.Ok?
      ensures r.Ok? ==> calls == old(calls) + |SplitChunks(bytes)| + 2
      ensures old(calls) < calls <= old(calls) + |SplitChunks(bytes)| + 2
    {
      r := ExecStaging(Remove(staging), staging);
      assert Same(old(files), files, target);
      if r.Err? {
        return;
      }
      var chunks := SplitChunks(bytes);
      var k := 0;
      while k < |chunks|
        invariant k <= |chunks| && calls == old(calls) + 1 + k
        invariant forall p :: p != staging ==> Same(old(files), files, p)
        invariant k > 0 ==> staging in files
        invariant Faithful() ==> ContentAt(files, staging) == Concat(chunks[..k])
      {
        ghost var before := files;
        assert chunks[..k + 1][..k] == chunks[..k];
        r := ExecStaging(Append(staging, chunks[k]), staging);
        forall p | p != staging ensures Same(old(files), files, p) {
          assert Same(old(files), before, p) && Same(before, files, p);
        }
        assert Same(old(files), files, target);
        if r.Err? {
          return;
        }
        k := k + 1;
      }
      assert chunks[..k] == chunks;
      ChunksRebuild(bytes);
      ghost var uploaded := files;
      r := Install(staging, target, expected);
      forall p | p !in Footprint(target) ensures Same(old(files), files, p) {
        assert Same(old(files), uploaded, p) && Same(uploaded, files, p);
      }
      assert Same(old(files), uploaded, target);
    }

    method Install(staging: string, target: string, expected: string) returns (r: Result<(), string>)
      requires staging in {AGENT_STAGING, IWATCH_STAGING} && staging !in {target} + Scratch(target)
      modifies this
      ensures calls == old(calls) + 1
      ensures At(files, target) == At(old(files), target)
        || (At(files, target) == Some(File(ContentAt(old(files), staging), "0755"))
            && HashIs(tools, At(files, target), expected))
      ensures r.Ok? ==> At(files, target) == Some(File(ContentAt(old(files), staging), "0755"))
      ensures r.Ok? ==> HashIs(tools, At(files, target), expected)
      ensures r.Ok? && target in old(files) && world(old(calls)).copies ==>
        ContentAt(files, target + ".bak") == old(files)[target].content
      ensures Calm(world(old(calls))) ==>
        staging in old(files) && tools.sha(old(files)[staging].content) == expected ==> r.Ok?
      ensures forall p :: p !in Footprint(target) ==> Same(old(files), files, p)
    {
      if Calm(world(calls)) && staging in files && tools.sha(files[staging].content) == expected {
        InstallEnds(tools, staging, target, expected, files, world(calls));
      }
      InstallEffect(tools, staging, target, expected, files, world(calls));
      var reply := Exec(InstallScript(staging, target, expected));
      r := if reply.CallFailed? then Err(reply.message)
           else if reply.exit != 0 || reply.truncated then Err("install failed") else Ok(());
    }

    /** `restart_agent`: the restart may cut off its own reply. */
    method RestartAgent() returns (r: Result<(), string>)
      modifies this
      ensures files == old(files) && calls == old(calls) + 1
      ensures r.Ok? <==> Restarts(world(old(calls)))
    {
      var o := world(calls);
      calls := calls + 1;
      if o.lost.Some? {
        ClosedIffNamed(o.lost.value);
        return if ConnectionClosed(o.lost.value) then Ok(()) else Err(o.lost.value);
      }
      r := if o.steps == 0 || o.exit != 0 || o.truncated then Err("agent restart failed") else Ok(());
    }

    /** `wait_for_agent`: it polls until a poll is healthy and its version call names the expected
        version, or until the polls that fit before the deadline are used up. */
    method WaitForAgent(expected: string) returns (r: Result<(), string>)
      modifies this
      ensures files == old(files) && calls > old(calls)
      ensures r.Ok? ==> world(calls - 1).version == Some(expected)
      ensures r.Ok? <==> AgentAnswers(world, old(calls), patience, expected)
      ensures r.Ok? ==> exists k: nat ::
        k <= patience && FirstReady(world, old(calls), k, expected) && calls == AfterPolls(world, old(calls), k) + 2
      ensures r.Err? ==> calls == AfterPolls(world, old(calls), patience + 1)
    {
      var left: nat := patience;
      while true
        invariant files == old(files) && left <= patience
        invariant calls == AfterPolls(world, old(calls), patience - left) >= old(calls)
        invariant forall k :: 0 <= k < patience - left ==> !ReadyAt(world, old(calls), k, expected)
        decreases left
      {
        ghost var k := patience - left;
        var ready := Poll(expected);
        assert ready <==> ReadyAt(world, old(calls), k, expected);
        if ready {
          return Ok(());
        }
        if left == 0 {
          return Err("agent did not become ready");
        }
        left := left - 1;
      }
    }

    /** One poll: the version is asked for only if the health call works. */
    method Poll(expected: string) returns (ready: bool)
      modifies this
      ensures files == old(files) && calls == old(calls) + if world(old(calls)).healthy then 2 else 1
      ensures ready <==> world(old(calls)).healthy && world(old(calls) + 1).version == Some(expected)
    {
      var health := world(calls);
      calls := calls + 1;
      if !health.healthy {
        return false;
      }
      var answer := world(calls);
      calls := calls + 1;
      ready := answer.version == Some(expected);
    }
  }

  predicate ConnectionClosed(message: string) {
    exists i | 0 <= i <= |message| :: ClosedAt(message, i)
  }

  predicate ClosedAt(message: string, i: nat) { i <= |message| && "connection closed" <= message[i..] }

  lemma OneOp(t: Tools, op: Op, files: Files, o: Outcome)
    ensures Run(t, [op], files, o).1 ==> Done(t, op, files, o) == Some(Run(t, [op], files, o).0)
    ensures o.steps > 0 && Done(t, op, files, o).Some? ==> Run(t, [op], files, o).1
  {
    assert [op][1..] == [];
  }
}
