/**
 Rollouts of another bundle: exactly when they keep, for the bundle that was installed before,
 that its manifest tells the truth.
 */
module BundleChange {
  import opened Wrappers
  import opened GuestShell
  import opened GuestRollout
  import opened VmRollout

  /** Two bundles that deploy to the same paths, as any two bundles of the repository do. */
  predicate Comparable(former: Bundle, next: Bundle) {
    && Isolated(former) && Isolated(next) && DistinctPaths(former) && DistinctPaths(next)
    && |former.files| == |next.files|
    && forall i :: 0 <= i < |former.files| ==> former.files[i].path == next.files[i].path
  }

  lemma RepositoryBundlesComparable(former: Bundle, next: Bundle, x: Texts, y: Texts)
    requires former.files == GuestDeployFiles(x) && next.files == GuestDeployFiles(y)
    ensures Comparable(former, next)
  {
    RepositoryBundleIsolated(former, x);
    RepositoryBundleIsolated(next, y);
    RepositoryPathsDistinct(former, x);
    RepositoryPathsDistinct(next, y);
  }

  /** Whatever both bundles deploy is the same: texts and modes, and hashes of binaries. */
  predicate Agree(t: Tools, former: Bundle, next: Bundle)
    requires Comparable(former, next) && Cached(t, former)
  {
    && (forall i :: 0 <= i < |former.files| ==> Wanted(former.files[i]) == Wanted(next.files[i]))
    && (next.metadata.Some? ==> DeployedText(next.metadata.value) == DeployedText(former.metadata.value))
    && (next.openrc.Some? ==> DeployedText(next.openrc.value) == DeployedText(former.openrc.value))
    && (next.agent.Some? ==> next.agentSha == former.agentSha)
    && (former.iwatch.Present? && next.iwatch.Present? ==> t.sha(next.iwatch.bytes) == t.sha(former.iwatch.bytes))
  }

  /** Every attempt to roll out `next`, failed or not, keeps "the manifest names the former
      bundle only if all its files are in place". */
  ghost predicate KeepsGuarantee(t: Tools, former: Bundle, next: Bundle) {
    forall before, after ::
      Attempt(t, next, before, after) && Consistent(t, former, before) ==> Consistent(t, former, after)
  }

  // ----- agreement keeps the guarantee -----

  lemma GoodTransfers(t: Tools, former: Bundle, next: Bundle, p: string, f: Option<File>)
    requires Comparable(former, next) && Cached(t, former) && Agree(t, former, next)
    requires p in Targets(former) && Good(t, next, p, f)
    ensures Good(t, former, p, f)
  {
    if p !in {METADATA, OPENRC, AGENT, IWATCH} {
      var i :| 0 <= i < |next.files| && next.files[i].path == p && f == Some(Wanted(next.files[i]));
      assert former.files[i].path == p && f == Some(Wanted(former.files[i]));
    }
  }

  /** What only the former bundle deploys, rollouts of the next one leave alone. */
  lemma OnlyFormerIsLeft(former: Bundle, next: Bundle, p: string)
    requires Comparable(former, next) && p in Targets(former) && p !in Targets(next)
    ensures !Owned(next, p)
  {
    forall q | q in FilePaths(former) ensures q in FilePaths(next) {
      var i :| 0 <= i < |former.files| && former.files[i].path == q;
      assert next.files[i].path == q;
    }
    forall q | q in FilePaths(next) ensures q in FilePaths(former) {
      var i :| 0 <= i < |next.files| && next.files[i].path == q;
      assert former.files[i].path == q;
    }
    assert p == IWATCH && Clear(p, former);
    forall q | q in Targets(next) + {MANIFEST} ensures p !in Footprint(q) {
      assert q in Targets(former) + {MANIFEST};
    }
  }

  lemma AgreementKeeps(t: Tools, former: Bundle, next: Bundle, before: Files, after: Files)
    requires Comparable(former, next) && Cached(t, former) && Agree(t, former, next) && former.id != next.id
    requires Attempt(t, next, before, after) && Consistent(t, former, before)
    ensures Consistent(t, former, after)
  {
    if Names(t, former, after) {
      assert !Names(t, next, after);
      assert Same(before, after, MANIFEST) && Names(t, former, before);
      forall p | p in Targets(former) ensures Good(t, former, p, At(after, p)) {
        assert Good(t, former, p, At(before, p));
        if p in Targets(next) {
          assert Towards(t, next, before, after, p);
          if Good(t, next, p, At(after, p)) {
            GoodTransfers(t, former, next, p, At(after, p));
          }
        } else {
          OnlyFormerIsLeft(former, next, p);
          assert Same(before, after, p);
        }
      }
    }
  }

  // ----- disagreement breaks it -----

  function PutFiles(files: seq<GuestFile>): Files {
    if files == [] then map[]
    else PutFiles(files[..|files| - 1])[files[|files| - 1].path := Wanted(files[|files| - 1])]
  }

  lemma {:induction false} PutFilesHolds(files: seq<GuestFile>, i: nat)
    requires i < |files| && forall k, l :: 0 <= k < l < |files| ==> files[k].path != files[l].path
    ensures At(PutFiles(files), files[i].path) == Some(Wanted(files[i]))
  {
    if i < |files| - 1 {
      PutFilesHolds(files[..|files| - 1], i);
    }
  }

  /** A guest on which a bundle is installed and named. */
  function InstalledGuest(b: Bundle, now: nat): Files
    requires b.metadata.Some? && b.openrc.Some? && b.agent.Some?
  {
    var base := PutFiles(b.files)[METADATA := File(DeployedText(b.metadata.value), "0644")]
      [OPENRC := File(DeployedText(b.openrc.value), "0755")][AGENT := File(b.agent.value, "0755")]
      [MANIFEST := File(DeployedText(b.manifest(now)), "0644")];
    if b.iwatch.Present? then base[IWATCH := File(b.iwatch.bytes, "0755")] else base
  }

  lemma InstalledGuestIsInstalled(t: Tools, b: Bundle)
    requires Isolated(b) && DistinctPaths(b) && Cached(t, b) && ManifestNames(t, b)
    ensures Installed(t, b, InstalledGuest(b, 0)) && Names(t, b, InstalledGuest(b, 0))
  {
    var files := InstalledGuest(b, 0);
    PathsDiffer();
    OtherPathsApart();
    forall i | 0 <= i < |b.files| ensures At(files, b.files[i].path) == Some(Wanted(b.files[i])) {
      PutFilesHolds(b.files, i);
      assert b.files[i].path in FilePaths(b) && b.files[i].path in Targets(b);
    }
    assert Deployed(t, b, files);
    InstalledFiles(t, b, files);
  }

  lemma ChangeBreaks(t: Tools, former: Bundle, next: Bundle, p: string, f: File, before: Files)
    requires Comparable(former, next) && p in Targets(former) && p in Targets(next)
    requires Good(t, next, p, Some(f)) && !Good(t, former, p, Some(f))
    requires Installed(t, former, before) && Names(t, former, before)
    ensures !KeepsGuarantee(t, former, next)
  {
    var after := before[p := f];
    forall q | q in Targets(next) ensures Towards(t, next, before, after, q) {
      assert q == p || Same(before, after, q);
    }
    assert Same(before, after, MANIFEST);
    forall q | !Owned(next, q) ensures Same(before, after, q) {
      assert p in Footprint(p);
    }
    assert Attempt(t, next, before, after);
    assert !Good(t, former, p, At(after, p));
    assert Names(t, former, after) && !Consistent(t, former, after);
  }

  /** One file of the next bundle that the former would not have there. */
  lemma OneFileBreaks(t: Tools, former: Bundle, next: Bundle, p: string, f: File)
    requires Comparable(former, next) && Cached(t, former) && ManifestNames(t, former)
    requires p in Targets(former) && p in Targets(next)
    requires Good(t, next, p, Some(f)) && !Good(t, former, p, Some(f))
    ensures !KeepsGuarantee(t, former, next)
  {
    InstalledGuestIsInstalled(t, former);
    ChangeBreaks(t, former, next, p, f, InstalledGuest(former, 0));
  }

  lemma DifferentFileBreaks(t: Tools, former: Bundle, next: Bundle, i: nat)
    requires Comparable(former, next) && Cached(t, former) && ManifestNames(t, former)
    requires i < |former.files| && Wanted(former.files[i]) != Wanted(next.files[i])
    ensures !KeepsGuarantee(t, former, next)
  {
    var p, f := former.files[i].path, Wanted(next.files[i]);
    assert p in FilePaths(former) && next.files[i].path in FilePaths(next);
    assert IsScript(next.files, p, Some(f)) && !IsScript(former.files, p, Some(f));
    OneFileBreaks(t, former, next, p, f);
  }

  lemma DisagreementBreaks(t: Tools, former: Bundle, next: Bundle)
    requires Comparable(former, next) && Cached(t, former) && Cached(t, next) && ManifestNames(t, former)
    requires !Agree(t, former, next)
    ensures !KeepsGuarantee(t, former, next)
  {
    PathsDiffer();
    if i :| 0 <= i < |former.files| && Wanted(former.files[i]) != Wanted(next.files[i]) {
      DifferentFileBreaks(t, former, next, i);
    } else if DeployedText(next.metadata.value) != DeployedText(former.metadata.value) {
      OneFileBreaks(t, former, next, METADATA, File(DeployedText(next.metadata.value), "0644"));
    } else if DeployedText(next.openrc.value) != DeployedText(former.openrc.value) {
      OneFileBreaks(t, former, next, OPENRC, File(DeployedText(next.openrc.value), "0755"));
    } else if next.agentSha != former.agentSha {
      OneFileBreaks(t, former, next, AGENT, File(next.agent.value, "0755"));
    } else {
      OneFileBreaks(t, former, next, IWATCH, File(next.iwatch.bytes, "0755"));
    }
  }

  /** Attempts to roll out another bundle keep the guarantee of the former one if and only if the
      two agree on everything both deploy. */
  lemma KeepsFormerGuaranteeIff(t: Tools, former: Bundle, next: Bundle)
    requires Comparable(former, next) && former.id != next.id
    requires Cached(t, former) && Cached(t, next) && ManifestNames(t, former)
    ensures KeepsGuarantee(t, former, next) <==> Agree(t, former, next)
  {
    if Agree(t, former, next) {
      forall before, after | Attempt(t, next, before, after) && Consistent(t, former, before)
        ensures Consistent(t, former, after) {
        AgreementKeeps(t, former, next, before, after);
      }
    } else {
      DisagreementBreaks(t, former, next);
    }
  }

  // ----- a rollout that does it -----

  /** A guest on which every call works and arrives, but no agent ever answers with a version. */
  function Unanswered(): nat -> Outcome {
    (_: nat) => Outcome(10, true, 0, (b: Blob) => b, true, None, 0, false, true, None)
  }

  /** On one guest both bundles can be installed only if they agree. */
  lemma BothInstalledAgree(t: Tools, former: Bundle, next: Bundle, files: Files)
    requires Comparable(former, next) && Cached(t, former)
    requires Installed(t, former, files) && Installed(t, next, files)
    ensures Agree(t, former, next)
  {
    InstalledFiles(t, former, files);
    InstalledFiles(t, next, files);
    assert Deployed(t, former, files) && Deployed(t, next, files);
    forall i | 0 <= i < |former.files| ensures Wanted(former.files[i]) == Wanted(next.files[i]) {
      assert At(files, former.files[i].path) == Some(Wanted(former.files[i]));
      assert At(files, next.files[i].path) == Some(Wanted(next.files[i]));
    }
  }

  /** A rollout in which everything works until the new agent is waited for in vain: it deploys the
      next bundle and fails, the manifest goes on naming the former one, and that is true exactly
      if the two agree. */
  method UnansweredUpgrade(t: Tools, former: Bundle, next: Bundle, now: nat)
    returns (g: Guest, r: Result<Status, string>)
    requires Comparable(former, next) && former.id != next.id && Cached(t, former) && Cached(t, next)
    requires ManifestNames(t, former) && ManifestNames(t, next)
    ensures fresh(g) && g.tools == t && r.Err?
    ensures Installed(t, next, g.files) && Names(t, former, g.files)
    ensures Installed(t, former, g.files) <==> Agree(t, former, next)
  {
    InstalledGuestIsInstalled(t, former);
    ghost var before := InstalledGuest(former, 0);
    g := new Guest(t, Unanswered(), 0, InstalledGuest(former, 0));
    assert g.Smooth();
    assert !Names(t, next, before);
    r := RolloutToVm(g, next, now);
    assert forall k :: g.world(k).version == None;
    assert Same(before, g.files, MANIFEST);
    if Agree(t, former, next) {
      AgreementKeeps(t, former, next, before, g.files);
    } else if Installed(t, former, g.files) {
      BothInstalledAgree(t, former, next, g.files);
    }
  }

  // ----- rollouts that stop among the files -----

  function AfterScript(t: Tools, f: GuestFile, files: Files, o: Outcome): Files {
    Run(t, DeployFileShell(f.path, f.mode, f.content), files, o).0
  }

  predicate ScriptLeads(t: Tools, f: GuestFile, o: Outcome, before: Files, after: Files) {
    Calm(o) && after == AfterScript(t, f, before, o)
  }

  /** The states that the deploy scripts of the first files lead through, on calls that work. */
  predicate ScriptRun(t: Tools, list: seq<GuestFile>, outcomes: seq<Outcome>, states: seq<Files>) {
    && |states| == |outcomes| + 1 && |outcomes| <= |list|
    && forall i :: 0 <= i < |outcomes| ==> ScriptLeads(t, list[i], outcomes[i], states[i], states[i + 1])
  }

  predicate Untouched(list: seq<GuestFile>, n: nat, p: string)
    requires n <= |list|
  {
    forall i :: 0 <= i < n ==> p !in Footprint(list[i].path)
  }

  /** The first `n` files are deployed; paths away from them are as before. */
  ghost predicate FilesDeployed(list: seq<GuestFile>, before: Files, after: Files, n: nat)
    requires n <= |list|
  {
    && (forall i :: 0 <= i < n ==> At(after, list[i].path) == Some(Wanted(list[i])))
    && (forall p :: Untouched(list, n, p) ==> Same(before, after, p))
  }

  lemma ScriptEffect(t: Tools, f: GuestFile, files: Files, o: Outcome, after: Files)
    requires Calm(o) && after == AfterScript(t, f, files, o)
    ensures At(after, f.path) == Some(Wanted(f))
    ensures forall p :: p !in Footprint(f.path) ==> Same(files, after, p)
  {
    DeployEnds(t, f.path, f.mode, f.content, files, o);
    DeployEffect(t, f.path, f.mode, f.content, files, o);
  }

  lemma OneMoreFile(b: Bundle, before: Files, middle: Files, after: Files, n: nat)
    requires Isolated(b) && DistinctPaths(b) && n < |b.files| && FilesDeployed(b.files, before, middle, n)
    requires At(after, b.files[n].path) == Some(Wanted(b.files[n]))
    requires forall p :: p !in Footprint(b.files[n].path) ==> Same(middle, after, p)
    ensures FilesDeployed(b.files, before, after, n + 1)
  {
    forall i | 0 <= i < n ensures At(after, b.files[i].path) == Some(Wanted(b.files[i])) {
      assert b.files[i].path in FilePaths(b) && b.files[n].path in FilePaths(b);
      assert Clear(b.files[i].path, b) && b.files[n].path in Targets(b) + {MANIFEST};
      assert Same(middle, after, b.files[i].path);
    }
    forall p | Untouched(b.files, n + 1, p) ensures Same(before, after, p) {
      assert p !in Footprint(b.files[n].path) && Untouched(b.files, n, p);
      assert Same(before, middle, p) && Same(middle, after, p);
    }
  }

  lemma OneMoreScript(t: Tools, b: Bundle, before: Files, middle: Files, o: Outcome, n: nat, after: Files)
    requires Isolated(b) && DistinctPaths(b) && n < |b.files| && FilesDeployed(b.files, before, middle, n)
    requires ScriptLeads(t, b.files[n], o, middle, after)
    ensures FilesDeployed(b.files, before, after, n + 1)
  {
    ScriptEffect(t, b.files[n], middle, o, after);
    OneMoreFile(b, before, middle, after, n);
  }

  lemma {:induction false} ScriptsDeploy(t: Tools, b: Bundle, outcomes: seq<Outcome>, states: seq<Files>, n: nat)
    requires Isolated(b) && DistinctPaths(b) && ScriptRun(t, b.files, outcomes, states) && n <= |outcomes|
    ensures FilesDeployed(b.files, states[0], states[n], n)
    decreases n
  {
    if n > 0 {
      ScriptsDeploy(t, b, outcomes, states, n - 1);
      assert ScriptLeads(t, b.files[n - 1], outcomes[n - 1], states[n - 1], states[n - 1 + 1]);
      OneMoreScript(t, b, states[0], states[n - 1], outcomes[n - 1], n - 1, states[n]);
    }
  }

  lemma FormerUntouched(former: Bundle, next: Bundle, n: nat, p: string)
    requires Comparable(former, next) && n <= |next.files| && p in Targets(former) + {MANIFEST}
    requires forall i :: 0 <= i < n ==> next.files[i].path != p
    ensures Untouched(next.files, n, p)
  {
    assert Clear(p, former);
    forall i | 0 <= i < n ensures p !in Footprint(next.files[i].path) {
      assert former.files[i].path in FilePaths(former);
      assert next.files[i].path in Targets(former) + {MANIFEST};
    }
  }

  predicate SameFiles(former: Bundle, next: Bundle, n: nat)
    requires |former.files| == |next.files| && n <= |next.files|
  {
    forall i :: 0 <= i < n ==> Wanted(next.files[i]) == Wanted(former.files[i])
  }

  lemma SameFilesKeep(t: Tools, former: Bundle, next: Bundle, before: Files, after: Files, n: nat)
    requires Comparable(former, next) && n <= |next.files| && FilesDeployed(next.files, before, after, n)
    requires Installed(t, former, before) && SameFiles(former, next, n)
    ensures Installed(t, former, after)
  {
    forall p | p in Targets(former) ensures Good(t, former, p, At(after, p)) {
      if i :| 0 <= i < n && next.files[i].path == p {
        assert former.files[i].path in FilePaths(former);
        assert IsScript(former.files, p, At(after, p));
      } else {
        FormerUntouched(former, next, n, p);
        assert Same(before, after, p) && Good(t, former, p, At(before, p));
      }
    }
  }

  lemma OtherFileBreaks(t: Tools, former: Bundle, next: Bundle, before: Files, after: Files, n: nat, i: nat)
    requires Comparable(former, next) && i < n <= |next.files| && FilesDeployed(next.files, before, after, n)
    requires Wanted(next.files[i]) != Wanted(former.files[i])
    ensures !Installed(t, former, after)
  {
    var path := former.files[i].path;
    assert path in FilePaths(former) && path in Targets(former);
    assert At(after, path) == Some(Wanted(next.files[i]));
    assert !IsScript(former.files, path, At(after, path));
    assert !Good(t, former, path, At(after, path));
  }

  lemma NameKept(t: Tools, former: Bundle, next: Bundle, before: Files, after: Files, n: nat)
    requires Comparable(former, next) && n <= |next.files| && FilesDeployed(next.files, before, after, n)
    requires Names(t, former, before)
    ensures Names(t, former, after)
  {
    forall i | 0 <= i < n ensures next.files[i].path != MANIFEST {
      assert next.files[i].path in FilePaths(next);
    }
    FormerUntouched(former, next, n, MANIFEST);
    assert Same(before, after, MANIFEST);
  }

  /** A rollout of another bundle that stops after deploying some first files: the guest's
      manifest still names the former bundle, truthfully exactly if those files are the same in
      both. */
  lemma StoppedUpgradeUnderminesFormerIff(t: Tools, former: Bundle, next: Bundle, outcomes: seq<Outcome>,
                                          states: seq<Files>)
    requires Comparable(former, next) && ScriptRun(t, next.files, outcomes, states)
    requires Installed(t, former, states[0]) && Names(t, former, states[0])
    ensures
      var after := states[|outcomes|];
      Names(t, former, after) && (Consistent(t, former, after) <==> SameFiles(former, next, |outcomes|))
  {
    var n, before, after := |outcomes|, states[0], states[|outcomes|];
    ScriptsDeploy(t, next, outcomes, states, n);
    NameKept(t, former, next, before, after, n);
    if SameFiles(former, next, n) {
      SameFilesKeep(t, former, next, before, after, n);
    } else {
      var i: nat :| i < n && Wanted(next.files[i]) != Wanted(former.files[i]);
      OtherFileBreaks(t, former, next, before, after, n, i);
    }
  }
}
