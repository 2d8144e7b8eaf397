/**
 What the resolver directory keeps over every sequence of installs and uninstalls by any
 projects, with any I/O faults in any call.
 */
module ResolverHistory {
  import opened Wrappers
  import opened Text
  import opened ResolverFiles
  import opened ResolverDirectory

  function Get(d: Entries, name: string): Option<Entry> { if name in d then Some(d[name]) else None }

  predicate IsManagedReverse(e: Option<Entry>) { e.Some? && e.value.Regular? && ManagedReverse(e.value.text) }

  predicate IsOwned(e: Option<Entry>, scope: Scope) { e.Some? && e.value.Regular? && Owned(e.value.text, scope) }

  predicate IsManagedProject(e: Option<Entry>) { e.Some? && e.value.Regular? && ManagedProject(e.value.text) }

  predicate ZoneNames(zones: seq<string>) { forall i :: 0 <= i < |zones| ==> ZoneName(zones[i]) }

  // ----- what single calls may touch -----

  lemma PutZoneFrame(d: Entries, zone: string, text: string, faults: Faults, n: string)
    ensures
      var after := PutZone(d, zone, text, faults);
      && (Get(after.entries, n) == Get(d, n)
          || (n == zone && (n !in d || IsManagedReverse(Get(d, n))) && Get(after.entries, n) == Some(Regular(text))))
      && (after.result.Ok? && n == zone ==> Get(after.entries, n) == Some(Regular(text)))
  {
  }

  /** The only changes publishing zones makes, and what it has achieved when it succeeds. */
  lemma {:induction false} PutZonesFrame(d: Entries, zones: seq<string>, text: string, faults: Faults, n: string)
    requires ManagedReverse(text)
    ensures
      var after := PutZones(d, zones, text, faults);
      && (Get(after.entries, n) == Get(d, n)
          || (n in zones && (n !in d || IsManagedReverse(Get(d, n))) && Get(after.entries, n) == Some(Regular(text))))
      && (after.result.Ok? && n in zones ==> Get(after.entries, n) == Some(Regular(text)))
    decreases zones
  {
    if zones != [] {
      PutZoneFrame(d, zones[0], text, faults, n);
      PutZonesFrame(PutZone(d, zones[0], text, faults).entries, zones[1..], text, faults, n);
      assert n in zones <==> n == zones[0] || n in zones[1..];
    }
  }

  lemma DropLegacyFrame(d: Entries, faults: Faults, n: string)
    ensures
      var after := DropLegacy(d, faults).entries;
      Get(after, n) == Get(d, n) || (n == LEGACY_REVERSE && IsManagedReverse(Get(d, n)) && n !in after)
  {
  }

  lemma ReverseFrame(d: Entries, zones: seq<string>, port: nat, faults: Faults, n: string)
    requires ZoneNames(zones)
    ensures
      var after := Reverse(d, port, zones, faults);
      && (Get(after.entries, n) == Get(d, n)
          || (ZoneName(n) && (n !in d || IsManagedReverse(Get(d, n)))
              && Get(after.entries, n) == Some(Regular(ReverseContent(port))))
          || (n == LEGACY_REVERSE && IsManagedReverse(Get(d, n)) && n !in after.entries))
      && (after.result.Ok? && n in zones ==> Get(after.entries, n) == Some(Regular(ReverseContent(port))))
  {
    ReverseContentIsManaged(port);
    var text := ReverseContent(port);
    PutZonesFrame(d, zones, text, faults, n);
    DropLegacyFrame(PutZones(d, zones, text, faults).entries, faults, n);
    NamesAreApart("", "", LEGACY_REVERSE);
  }

  /** `install` writes the project's own file and zone files that were absent or managed,
      removes at most a managed legacy file, and leaves every other name alone. */
  lemma InstallFrame(d: Entries, scope: Scope, port: nat, zones: seq<string>, faults: Faults, n: string)
    requires ZoneNames(zones)
    ensures
      var after := InstallEntries(d, scope, port, zones, faults).entries;
      || Get(after, n) == Get(d, n)
      || (n == ResolverName(scope.project) && (n !in d || IsOwned(Get(d, n), scope))
          && Get(after, n) == Some(Regular(ResolverContent(scope, port))))
      || (ZoneName(n) && (n !in d || IsManagedReverse(Get(d, n)))
          && Get(after, n) == Some(Regular(ReverseContent(port))))
      || (n == LEGACY_REVERSE && IsManagedReverse(Get(d, n)) && n !in after)
  {
    ReverseFrame(d, zones, port, faults, n);
    if ReverseName(n) {
      NamesAreApart(scope.project, scope.project, n);
    }
  }

  lemma ReverseMigrates(d: Entries, zones: seq<string>, port: nat, faults: Faults)
    requires ZoneNames(zones) && zones != [] && Reverse(d, port, zones, faults).result.Ok?
    ensures
      var after := Reverse(d, port, zones, faults).entries;
      !IsManagedReverse(Get(after, LEGACY_REVERSE)) && ReadExisting(after, LEGACY_REVERSE).Ok?
  {
  }

  // ----- an install, part by part -----

  lemma UnchangedHasContent(d: Entries, scope: Scope, port: nat)
    requires ForwardChange(d, scope, port) == Ok(Unchanged)
    ensures Get(d, ResolverName(scope.project)) == Some(Regular(ResolverContent(scope, port)))
  {
  }

  lemma ReverseSparesOwnFile(d: Entries, scope: Scope, port: nat, zones: seq<string>, faults: Faults)
    requires ZoneNames(zones)
    ensures
      var name := ResolverName(scope.project);
      Get(Reverse(d, port, zones, faults).entries, name) == Get(d, name)
  {
    NameIsNoZone(scope.project);
    ReverseFrame(d, zones, port, faults, ResolverName(scope.project));
  }

  lemma ForwardPuts(d: Entries, scope: Scope, port: nat, change: Change, faults: Faults)
    requires Forward(d, scope, port, change, faults).result.Ok? && change != Unchanged
    ensures Get(Forward(d, scope, port, change, faults).entries, ResolverName(scope.project))
      == Some(Regular(ResolverContent(scope, port)))
  {
  }

  lemma ForwardFrame(d: Entries, scope: Scope, port: nat, change: Change, faults: Faults, n: string)
    requires n != ResolverName(scope.project)
    ensures Get(Forward(d, scope, port, change, faults).entries, n) == Get(d, n)
  {
  }

  /** A successful install is its three parts, all successful. */
  lemma InstallParts(d: Entries, scope: Scope, port: nat, zones: seq<string>, faults: Faults)
    requires InstallEntries(d, scope, port, zones, faults).result.Ok?
    ensures ForwardChange(d, scope, port).Ok? && Reverse(d, port, zones, faults).result.Ok?
    ensures
      var forward := Forward(Reverse(d, port, zones, faults).entries, scope, port,
                             ForwardChange(d, scope, port).value, faults);
      forward.result.Ok? && InstallEntries(d, scope, port, zones, faults).entries == forward.entries
  {
  }

  lemma InstallPutsOwnFile(d: Entries, scope: Scope, port: nat, zones: seq<string>, faults: Faults)
    requires ZoneNames(zones) && InstallEntries(d, scope, port, zones, faults).result.Ok?
    ensures Get(InstallEntries(d, scope, port, zones, faults).entries, ResolverName(scope.project))
      == Some(Regular(ResolverContent(scope, port)))
  {
    InstallParts(d, scope, port, zones, faults);
    var change, middle := ForwardChange(d, scope, port).value, Reverse(d, port, zones, faults).entries;
    if change == Unchanged {
      UnchangedHasContent(d, scope, port);
      ReverseSparesOwnFile(d, scope, port, zones, faults);
    } else {
      ForwardPuts(middle, scope, port, change, faults);
    }
  }

  lemma InstallPutsZone(d: Entries, scope: Scope, port: nat, zones: seq<string>, faults: Faults, z: string)
    requires ZoneNames(zones) && InstallEntries(d, scope, port, zones, faults).result.Ok? && z in zones
    ensures Get(InstallEntries(d, scope, port, zones, faults).entries, z) == Some(Regular(ReverseContent(port)))
  {
    InstallParts(d, scope, port, zones, faults);
    ReverseFrame(d, zones, port, faults, z);
    NameIsNoZone(scope.project);
    ForwardFrame(Reverse(d, port, zones, faults).entries, scope, port, ForwardChange(d, scope, port).value, faults, z);
  }

  lemma InstallAchieves(d: Entries, scope: Scope, port: nat, zones: seq<string>, faults: Faults)
    requires ZoneNames(zones) && InstallEntries(d, scope, port, zones, faults).result.Ok?
    ensures
      var after := InstallEntries(d, scope, port, zones, faults).entries;
      && Get(after, ResolverName(scope.project)) == Some(Regular(ResolverContent(scope, port)))
      && (forall z :: z in zones ==> Get(after, z) == Some(Regular(ReverseContent(port))))
  {
    InstallPutsOwnFile(d, scope, port, zones, faults);
    forall z | z in zones
      ensures Get(InstallEntries(d, scope, port, zones, faults).entries, z) == Some(Regular(ReverseContent(port)))
    {
      InstallPutsZone(d, scope, port, zones, faults, z);
    }
  }

  lemma NameIsNoZone(project: string)
    ensures !ReverseName(ResolverName(project))
  {
    if ReverseName(ResolverName(project)) {
      NamesAreApart(project, project, ResolverName(project));
    }
  }

  lemma {:induction false} RemoveAllFrame(d: Entries, names: seq<string>, faults: Faults, n: string)
    ensures
      var after := RemoveAll(d, names, faults);
      && (Get(after.entries, n) == Get(d, n) || (n in names && n !in after.entries))
      && (after.result.Ok? && n in names ==> n !in after.entries)
    decreases names
  {
    if names != [] {
      RemoveAllFrame(RemoveFile(d, names[0], faults).entries, names[1..], faults, n);
      assert n in names <==> n == names[0] || n in names[1..];
    }
  }

  /** The collected names are exactly the listed managed reverse files. */
  lemma {:induction false} CollectedNames(d: Entries, listing: seq<string>, n: string)
    requires ManagedReverses(d, listing).Ok?
    ensures n in ManagedReverses(d, listing).value <==> n in listing && ReverseName(n) && IsManagedReverse(Get(d, n))
    decreases listing
  {
    if listing != [] {
      CollectedNames(d, listing[1..], n);
      assert n in listing <==> n == listing[0] || n in listing[1..];
    }
  }

  lemma RemoveReversesFrame(d: Entries, scope: Scope, listing: seq<string>, faults: Faults, n: string)
    ensures
      var after := RemoveReverses(d, listing, scope, faults).entries;
      Get(after, n) == Get(d, n) || (ReverseName(n) && IsManagedReverse(Get(d, n)) && n !in after)
  {
    var managed := ManagedReverses(d, listing);
    if managed.Ok? {
      RemoveAllFrame(d, managed.value, faults, n);
      CollectedNames(d, listing, n);
    }
  }

  lemma RemoveOwnEffect(d: Entries, scope: Scope, faults: Faults)
    ensures
      var name, after := ResolverName(scope.project), RemoveOwn(d, scope, faults).entries;
      Get(after, name) == Get(d, name) || (IsOwned(Get(d, name), scope) && name !in after)
  {
  }

  lemma RemoveOwnFrame(d: Entries, scope: Scope, faults: Faults, n: string)
    requires n != ResolverName(scope.project)
    ensures Get(RemoveOwn(d, scope, faults).entries, n) == Get(d, n)
  {
  }

  lemma UninstallParts(d: Entries, scope: Scope, listing: seq<string>, faults: Faults)
    ensures
      var own, after := RemoveOwn(d, scope, faults).entries, UninstallEntries(d, scope, listing, faults).entries;
      after == own || after == RemoveReverses(own, listing, scope, faults).entries
  {
  }

  /** `uninstall` removes the project's own file and managed reverse files, nothing else. */
  lemma UninstallFrame(d: Entries, scope: Scope, listing: seq<string>, faults: Faults, n: string)
    ensures
      var after := UninstallEntries(d, scope, listing, faults).entries;
      || Get(after, n) == Get(d, n)
      || (n == ResolverName(scope.project) && IsOwned(Get(d, n), scope) && n !in after)
      || (ReverseName(n) && IsManagedReverse(Get(d, n)) && n !in after)
  {
    var own := RemoveOwn(d, scope, faults).entries;
    UninstallParts(d, scope, listing, faults);
    RemoveReversesFrame(own, scope, listing, faults, n);
    if n == ResolverName(scope.project) {
      RemoveOwnEffect(d, scope, faults);
      NameIsNoZone(scope.project);
    } else {
      RemoveOwnFrame(d, scope, faults, n);
    }
  }

  // ----- runs -----

  datatype Request =
    | Install(scope: Scope, port: nat, zones: seq<string>, faults: Faults)
    | Uninstall(scope: Scope, listing: seq<string>, faults: Faults)

  function Perform(d: Entries, r: Request): Outcome<Change> {
    match r
    case Install(scope, port, zones, faults) => InstallEntries(d, scope, port, zones, faults)
    case Uninstall(scope, listing, faults) => UninstallEntries(d, scope, listing, faults)
  }

  /** Zones come from `reverse_zones_for_cidr`; a listing names every entry, in any order. */
  ghost predicate Admissible(d: Entries, r: Request) {
    && ValidScope(r.scope)
    && (r.Install? ==> ZoneNames(r.zones))
    && (r.Uninstall? ==> forall n :: n in d ==> n in r.listing)
  }

  ghost predicate AdmissibleRun(d: Entries, requests: seq<Request>)
    decreases requests
  {
    requests == [] || (Admissible(d, requests[0]) && AdmissibleRun(Perform(d, requests[0]).entries, requests[1..]))
  }

  ghost function Run(d: Entries, requests: seq<Request>): Entries
    decreases requests
  {
    if requests == [] then d else Run(Perform(d, requests[0]).entries, requests[1..])
  }

  /** Neither a regular file without the marker nor anything but a readable regular file. */
  predicate Foreign(e: Entry) { !e.Regular? || MANAGED_MARKER !in Lines(e.text) }

  lemma StepKeepsForeign(d: Entries, r: Request, n: string)
    requires Admissible(d, r) && n in d && Foreign(d[n])
    ensures Get(Perform(d, r).entries, n) == Some(d[n])
  {
    match r
    case Install(scope, port, zones, faults) => InstallFrame(d, scope, port, zones, faults, n);
    case Uninstall(scope, listing, faults) => UninstallFrame(d, scope, listing, faults, n);
  }

  /** Foreign files and non-regular entries survive every run unchanged. */
  lemma {:induction false} RunKeepsForeign(d: Entries, requests: seq<Request>, n: string)
    requires AdmissibleRun(d, requests) && n in d && Foreign(d[n])
    ensures Get(Run(d, requests), n) == Some(d[n])
    decreases requests
  {
    if requests != [] {
      StepKeepsForeign(d, requests[0], n);
      RunKeepsForeign(Perform(d, requests[0]).entries, requests[1..], n);
    }
  }

  // ----- installed zones stay -----

  /** Which scopes are installed, and with which zones so far. */
  type Ledger = map<Scope, set<string>>

  function Book(ledger: Ledger, r: Request, result: Result<Change, ResolverError>): Ledger {
    match r
    case Install(scope, _, zones, _) =>
      if result.Err? then ledger
      else ledger[scope := (set z | z in zones) + if scope in ledger then ledger[scope] else {}]
    case Uninstall(scope, _, _) => ledger - {scope}
  }

  ghost function BookRun(d: Entries, ledger: Ledger, requests: seq<Request>): Ledger
    decreases requests
  {
    if requests == [] then ledger
    else
      var step := Perform(d, requests[0]);
      BookRun(step.entries, Book(ledger, requests[0], step.result), requests[1..])
  }

  predicate HasOwnFile(d: Entries, scope: Scope, port: nat) {
    Get(d, ResolverName(scope.project)) == Some(Regular(ResolverContent(scope, port)))
  }

  /** Every booked scope has its project file, and every booked zone is present and managed. */
  ghost predicate Consistent(d: Entries, ledger: Ledger) {
    forall s :: s in ledger ==>
      && ValidScope(s) && (exists port :: HasOwnFile(d, s, port))
      && forall z :: z in ledger[s] ==> ZoneName(z) && IsManagedReverse(Get(d, z))
  }

  lemma InstallKeepsConsistent(d: Entries, ledger: Ledger, r: Request)
    requires r.Install? && Admissible(d, r) && Consistent(d, ledger)
    ensures Consistent(Perform(d, r).entries, Book(ledger, r, Perform(d, r).result))
  {
    var step := Perform(d, r);
    var after, booked := step.entries, Book(ledger, r, step.result);
    ReverseContentIsManaged(r.port);
    if step.result.Ok? {
      InstallAchieves(d, r.scope, r.port, r.zones, r.faults);
      assert HasOwnFile(after, r.scope, r.port);
    }
    forall s | s in booked
      ensures ValidScope(s) && exists port :: HasOwnFile(after, s, port)
      ensures forall z :: z in booked[s] ==> ZoneName(z) && IsManagedReverse(Get(after, z))
    {
      if s in ledger {
        var port :| HasOwnFile(d, s, port);
        InstallKeepsOwnFile(d, r, s, port);
      }
      forall z | z in booked[s] ensures ZoneName(z) && IsManagedReverse(Get(after, z)) {
        if s in ledger && z in ledger[s] {
          InstallFrame(d, r.scope, r.port, r.zones, r.faults, z);
          NamesAreApart(r.scope.project, r.scope.project, z);
        }
      }
    }
  }

  /** An install leaves another scope's file alone and at most republishes its own. */
  lemma InstallKeepsOwnFile(d: Entries, r: Request, s: Scope, port: nat)
    requires r.Install? && Admissible(d, r) && ValidScope(s) && HasOwnFile(d, s, port)
    ensures exists p :: HasOwnFile(Perform(d, r).entries, s, p)
  {
    var name := ResolverName(s.project);
    InstallFrame(d, r.scope, r.port, r.zones, r.faults, name);
    NameIsNoZone(s.project);
    if name == ResolverName(r.scope.project) {
      ContentOwnedOnlyBy(s, port, r.scope);
    }
    assert HasOwnFile(Perform(d, r).entries, s, port) || HasOwnFile(Perform(d, r).entries, s, r.port);
  }

  lemma {:induction false} OtherIsSeen(d: Entries, listing: seq<string>, current: string, n: string)
    requires n in listing && n != current && EndsWith(n, PROJECT_SUFFIX) && IsManagedProject(Get(d, n))
    ensures HasOther(d, listing, current) != Ok(false)
    decreases listing
  {
    if listing[0] != n {
      OtherIsSeen(d, listing[1..], current, n);
    }
  }

  /** Another owner's file of the same project stops the uninstall before it changes anything. */
  lemma UninstallRefusesOwner(d: Entries, r: Request, s: Scope, port: nat)
    requires r.Uninstall? && ValidScope(s) && s != r.scope && s.project == r.scope.project && HasOwnFile(d, s, port)
    ensures Perform(d, r).entries == d
  {
    ContentOwnedOnlyBy(s, port, r.scope);
  }

  lemma UninstallStopsAfterOwn(d: Entries, r: Request, own: Entries)
    requires r.Uninstall? && own == RemoveOwn(d, r.scope, r.faults).entries
    requires RemoveReverses(own, r.listing, r.scope, r.faults).entries == own
    ensures Perform(d, r).entries == own
  {
  }

  /** While another project is installed, an uninstall touches nothing but its own file. */
  lemma UninstallSparesOthers(d: Entries, r: Request, s: Scope, port: nat, n: string)
    requires r.Uninstall? && Admissible(d, r) && ValidScope(s) && s != r.scope && HasOwnFile(d, s, port)
    ensures Get(Perform(d, r).entries, n) == Get(d, n)
      || (n == ResolverName(r.scope.project) && n != ResolverName(s.project))
  {
    if s.project == r.scope.project {
      UninstallRefusesOwner(d, r, s, port);
    } else {
      var own, theirs := RemoveOwn(d, r.scope, r.faults).entries, ResolverName(s.project);
      if theirs != ResolverName(r.scope.project) {
        RemoveOwnFrame(d, r.scope, r.faults, theirs);
      }
      UninstallSeesOther(own, r, s, port);
      UninstallStopsAfterOwn(d, r, own);
      if n != ResolverName(r.scope.project) {
        RemoveOwnFrame(d, r.scope, r.faults, n);
      }
    }
  }

  lemma UninstallSeesOther(own: Entries, r: Request, s: Scope, port: nat)
    requires r.Uninstall? && ValidScope(s) && s.project != r.scope.project
    requires ResolverName(s.project) != ResolverName(r.scope.project) ==>
      HasOwnFile(own, s, port) && ResolverName(s.project) in r.listing
    ensures ResolverName(s.project) != ResolverName(r.scope.project)
    ensures RemoveReverses(own, r.listing, r.scope, r.faults).entries == own
  {
    NamesAreApart(s.project, r.scope.project, LEGACY_REVERSE);
    ContentIsManagedProject(s, port);
    OtherIsSeen(own, r.listing, ResolverName(r.scope.project), ResolverName(s.project));
  }

  lemma UninstallKeepsConsistent(d: Entries, ledger: Ledger, r: Request)
    requires r.Uninstall? && Admissible(d, r) && Consistent(d, ledger)
    ensures Consistent(Perform(d, r).entries, Book(ledger, r, Perform(d, r).result))
  {
    var after, booked := Perform(d, r).entries, Book(ledger, r, Perform(d, r).result);
    forall s | s in booked
      ensures ValidScope(s) && exists port :: HasOwnFile(after, s, port)
      ensures forall z :: z in booked[s] ==> ZoneName(z) && IsManagedReverse(Get(after, z))
    {
      var port :| HasOwnFile(d, s, port);
      UninstallSparesOthers(d, r, s, port, ResolverName(s.project));
      assert HasOwnFile(after, s, port);
      forall z | z in booked[s] ensures ZoneName(z) && IsManagedReverse(Get(after, z)) {
        UninstallSparesOthers(d, r, s, port, z);
        NamesAreApart(r.scope.project, r.scope.project, z);
      }
    }
  }

  /** Every zone a scope installed stays present and managed until that scope's own
      uninstall, whatever other calls are made in between and however they fail. */
  lemma {:induction false} RunKeepsZones(d: Entries, ledger: Ledger, requests: seq<Request>)
    requires AdmissibleRun(d, requests) && Consistent(d, ledger)
    ensures Consistent(Run(d, requests), BookRun(d, ledger, requests))
    decreases requests
  {
    if requests != [] {
      var r := requests[0];
      if r.Install? { InstallKeepsConsistent(d, ledger, r); } else { UninstallKeepsConsistent(d, ledger, r); }
      var step := Perform(d, r);
      RunKeepsZones(step.entries, Book(ledger, r, step.result), requests[1..]);
    }
  }

  // ----- the last project cleans up -----

  lemma {:induction false} SeenOtherExists(d: Entries, listing: seq<string>, current: string) returns (n: string)
    requires HasOther(d, listing, current) == Ok(true)
    ensures n != current && EndsWith(n, PROJECT_SUFFIX) && IsManagedProject(Get(d, n))
    decreases listing
  {
    n := listing[0];
    if n == current || !EndsWith(n, PROJECT_SUFFIX) || !IsManagedProject(Get(d, n)) {
      n := SeenOtherExists(d, listing[1..], current);
    }
  }

  /** After a successful uninstall the project's file is gone, and either another managed
      project file remains or no managed reverse file does. */
  lemma SuccessfulUninstallCleansUp(d: Entries, scope: Scope, listing: seq<string>, faults: Faults)
    requires forall n :: n in d ==> n in listing
    requires UninstallEntries(d, scope, listing, faults).result.Ok?
    ensures
      var after := UninstallEntries(d, scope, listing, faults).entries;
      && ResolverName(scope.project) !in after
      && ((exists n :: EndsWith(n, PROJECT_SUFFIX) && IsManagedProject(Get(after, n)))
          || forall n :: ReverseName(n) ==> !IsManagedReverse(Get(after, n)))
  {
    var name, own := ResolverName(scope.project), RemoveOwn(d, scope, faults).entries;
    var after := UninstallEntries(d, scope, listing, faults).entries;
    assert name !in own;
    UninstallFrame(d, scope, listing, faults, name);
    NameIsNoZone(scope.project);
    if HasOther(own, listing, name) == Ok(true) {
      var n := SeenOtherExists(own, listing, name);
    } else {
      var names := ManagedReverses(own, listing).value;
      forall n | ReverseName(n) ensures !IsManagedReverse(Get(after, n)) {
        RemoveAllFrame(own, names, faults, n);
        CollectedNames(own, listing, n);
      }
    }
    if name in after {
      var names := ManagedReverses(own, listing);
      if names.Ok? { RemoveAllFrame(own, names.value, faults, name); }
    }
  }
}
