/**
 Relations between installs: repetition, refusal, and order of different projects.
 */
module ResolverInstalls {
  import opened Wrappers
  import opened ResolverFiles
  import opened ResolverDirectory
  import opened ResolverHistory
  import ReverseZones
  import Ipv4

  lemma SuffixIsZoneName(head: string, name: string)
    requires name == head + "." + ReverseZones.REVERSE_DOMAIN
    ensures ZoneName(name)
  {
    assert name == head + ("." + LEGACY_REVERSE);
  }

  lemma ZoneIsZoneName(block: Ipv4.Cidr, index: nat)
    requires 8 <= block.prefix <= 30
    ensures ZoneName(ReverseZones.ZoneName(block, index))
  {
    var name := ReverseZones.ZoneName(block, index);
    SuffixIsZoneName(name[..|name| - |"." + ReverseZones.REVERSE_DOMAIN|], name);
  }

  /** The zones of every accepted CIDR are names `install` may be given. */
  lemma CidrZonesAreZoneNames(cidr: string)
    requires ReverseZones.ReverseZonesForCidr(cidr).Ok?
    ensures ZoneNames(ReverseZones.ReverseZonesForCidr(cidr).value)
  {
    var block := ReverseZones.ParseCidr(cidr).value;
    var zones := ReverseZones.ReverseZonesForCidr(cidr).value;
    forall i | 0 <= i < |zones| ensures ZoneName(zones[i]) {
      ZoneIsZoneName(block, i);
    }
  }

  // ----- repetition -----

  lemma {:induction false} PublishedZonesStay(d: Entries, zones: seq<string>, text: string, faults: Faults)
    requires ManagedReverse(text) && forall z :: z in zones ==> Get(d, z) == Some(Regular(text))
    ensures PutZones(d, zones, text, faults) == Outcome(d, Ok(false))
    decreases zones
  {
    if zones != [] {
      assert zones[0] in zones;
      PublishedZonesStay(d, zones[1..], text, faults);
    }
  }

  lemma LegacyAfterInstall(d: Entries, scope: Scope, port: nat, zones: seq<string>, faults: Faults)
    requires ZoneNames(zones) && zones != [] && InstallEntries(d, scope, port, zones, faults).result.Ok?
    ensures
      var after := InstallEntries(d, scope, port, zones, faults).entries;
      !IsManagedReverse(Get(after, LEGACY_REVERSE)) && ReadExisting(after, LEGACY_REVERSE).Ok?
  {
    ReverseMigrates(d, zones, port, faults);
    NameIsNoZone(scope.project);
    assert LEGACY_REVERSE != ResolverName(scope.project);
  }

  /** A second install after a successful one reports Unchanged, writes nothing (so no fault
      can touch it) and leaves the directory identical. */
  lemma InstallIsIdempotent(d: Entries, scope: Scope, port: nat, zones: seq<string>, faults: Faults, again: Faults)
    requires ValidScope(scope) && ZoneNames(zones) && InstallEntries(d, scope, port, zones, faults).result.Ok?
    ensures
      var after := InstallEntries(d, scope, port, zones, faults).entries;
      InstallEntries(after, scope, port, zones, again) == Outcome(after, Ok(Unchanged))
  {
    var after := InstallEntries(d, scope, port, zones, faults).entries;
    InstallAchieves(d, scope, port, zones, faults);
    ContentOwnedOnlyBy(scope, port, scope);
    assert ForwardChange(after, scope, port) == Ok(Unchanged);
    ReverseContentIsManaged(port);
    PublishedZonesStay(after, zones, ReverseContent(port), again);
    if zones != [] {
      LegacyAfterInstall(d, scope, port, zones, faults);
      assert DropLegacy(after, again) == Outcome(after, Ok(false));
    }
    assert Reverse(after, port, zones, again) == Outcome(after, Ok(false));
  }

  // ----- the exact effect of a call without faults -----

  /** A name that stops `install`: occupied by something that is no managed reverse file. */
  predicate Blocks(d: Entries, zone: string) { zone in d && !IsManagedReverse(Get(d, zone)) }

  /** How many zones are published before one blocks. */
  function Publishable(d: Entries, zones: seq<string>): (k: nat)
    ensures k <= |zones|
  {
    if zones == [] || Blocks(d, zones[0]) then 0 else 1 + Publishable(d, zones[1..])
  }

  predicate OwnFileOk(d: Entries, scope: Scope) {
    ResolverName(scope.project) !in d || IsOwned(Get(d, ResolverName(scope.project)), scope)
  }

  predicate LegacyUnreadable(d: Entries) { LEGACY_REVERSE in d && !d[LEGACY_REVERSE].Regular? }

  predicate Completes(d: Entries, scope: Scope, zones: seq<string>) {
    OwnFileOk(d, scope) && Publishable(d, zones) == |zones| && (zones == [] || !LegacyUnreadable(d))
  }

  lemma {:induction false} SameBlocksSamePublishable(d: Entries, other: Entries, zones: seq<string>)
    requires forall z :: z in zones ==> Blocks(d, z) == Blocks(other, z)
    ensures Publishable(d, zones) == Publishable(other, zones)
    decreases zones
  {
    if zones != [] {
      assert zones[0] in zones;
      SameBlocksSamePublishable(d, other, zones[1..]);
    }
  }

  lemma BlockedZoneFails(d: Entries, zone: string, text: string)
    requires Blocks(d, zone)
    ensures PutZone(d, zone, text, NO_FAULTS).result.Err? && PutZone(d, zone, text, NO_FAULTS).entries == d
  {
  }

  lemma FreeZoneIsPut(d: Entries, zone: string, text: string, n: string)
    requires ManagedReverse(text) && !Blocks(d, zone)
    ensures PutZone(d, zone, text, NO_FAULTS).result.Ok?
    ensures Get(PutZone(d, zone, text, NO_FAULTS).entries, n) == if n == zone then Some(Regular(text)) else Get(d, n)
    ensures Blocks(PutZone(d, zone, text, NO_FAULTS).entries, n) == Blocks(d, n)
  {
  }

  lemma PublishableStep(d: Entries, next: Entries, zones: seq<string>, n: string)
    requires zones != [] && !Blocks(d, zones[0]) && forall z :: z in zones[1..] ==> Blocks(d, z) == Blocks(next, z)
    ensures Publishable(d, zones) == 1 + Publishable(next, zones[1..])
    ensures n in zones[..Publishable(d, zones)]
      <==> n == zones[0] || n in zones[1..][..Publishable(next, zones[1..])]
  {
    SameBlocksSamePublishable(d, next, zones[1..]);
    var k := Publishable(d, zones);
    assert zones[..k] == [zones[0]] + zones[1..][..k - 1];
  }

  lemma {:induction false} PutZonesExact(d: Entries, zones: seq<string>, text: string, n: string)
    requires ManagedReverse(text)
    ensures
      var after, k := PutZones(d, zones, text, NO_FAULTS), Publishable(d, zones);
      && (after.result.Ok? <==> k == |zones|)
      && Get(after.entries, n) == if n in zones[..k] then Some(Regular(text)) else Get(d, n)
    decreases zones
  {
    if zones == [] {
    } else if Blocks(d, zones[0]) {
      BlockedZoneFails(d, zones[0], text);
    } else {
      var next := PutZone(d, zones[0], text, NO_FAULTS).entries;
      forall m ensures Blocks(d, m) == Blocks(next, m) {
        FreeZoneIsPut(d, zones[0], text, m);
      }
      FreeZoneIsPut(d, zones[0], text, n);
      PublishableStep(d, next, zones, n);
      PutZonesExact(next, zones[1..], text, n);
    }
  }

  /** What stands under a name after `install` without faults. */
  function Installed(d: Entries, scope: Scope, port: nat, zones: seq<string>, n: string): Option<Entry> {
    if !OwnFileOk(d, scope) then Get(d, n)
    else if n in zones[..Publishable(d, zones)] then Some(Regular(ReverseContent(port)))
    else if n == LEGACY_REVERSE && zones != [] && Publishable(d, zones) == |zones| && IsManagedReverse(Get(d, n))
    then None
    else if n == ResolverName(scope.project) && Completes(d, scope, zones)
    then Some(Regular(ResolverContent(scope, port)))
    else Get(d, n)
  }

  lemma ReverseExact(d: Entries, zones: seq<string>, port: nat, n: string)
    requires ZoneNames(zones)
    ensures
      var after, k := Reverse(d, port, zones, NO_FAULTS), Publishable(d, zones);
      && (after.result.Ok? <==> k == |zones| && (zones == [] || !LegacyUnreadable(d)))
      && Get(after.entries, n)
        == if n in zones[..k] then Some(Regular(ReverseContent(port)))
           else if n == LEGACY_REVERSE && zones != [] && k == |zones| && IsManagedReverse(Get(d, n)) then None
           else Get(d, n)
  {
    ReverseContentIsManaged(port);
    NamesAreApart("", "", LEGACY_REVERSE);
    var text, k := ReverseContent(port), Publishable(d, zones);
    var published := PutZones(d, zones, text, NO_FAULTS).entries;
    PutZonesExact(d, zones, text, n);
    PutZonesExact(d, zones, text, LEGACY_REVERSE);
    assert LEGACY_REVERSE !in zones[..k];
    DropLegacyExact(published, n);
  }

  lemma DropLegacyExact(d: Entries, n: string)
    ensures DropLegacy(d, NO_FAULTS).result.Ok? <==> !LegacyUnreadable(d)
    ensures Get(DropLegacy(d, NO_FAULTS).entries, n)
      == if n == LEGACY_REVERSE && IsManagedReverse(Get(d, n)) then None else Get(d, n)
  {
  }

  lemma PlannedIff(d: Entries, scope: Scope, port: nat)
    ensures ForwardChange(d, scope, port).Ok? <==> OwnFileOk(d, scope)
  {
  }

  lemma ForwardWorks(d: Entries, scope: Scope, port: nat, change: Change)
    ensures Forward(d, scope, port, change, NO_FAULTS).result.Ok?
  {
  }

  /** An install that does not get to its own file. */
  lemma InstallStops(d: Entries, scope: Scope, port: nat, zones: seq<string>, faults: Faults)
    ensures
      var all, reverse := InstallEntries(d, scope, port, zones, faults), Reverse(d, port, zones, faults);
      && (ForwardChange(d, scope, port).Err? ==> all.result.Err? && all.entries == d)
      && (ForwardChange(d, scope, port).Ok? && reverse.result.Err? ==>
            all.result.Err? && all.entries == reverse.entries)
  {
  }

  lemma InstallGoesOn(d: Entries, scope: Scope, port: nat, zones: seq<string>, faults: Faults)
    requires ForwardChange(d, scope, port).Ok? && Reverse(d, port, zones, faults).result.Ok?
    ensures
      var forward := Forward(Reverse(d, port, zones, faults).entries, scope, port,
                             ForwardChange(d, scope, port).value, faults);
      forward.result.Ok? ==> InstallEntries(d, scope, port, zones, faults).result.Ok?
  {
  }

  lemma InstallCompletes(d: Entries, scope: Scope, port: nat, zones: seq<string>)
    requires ZoneNames(zones)
    ensures InstallEntries(d, scope, port, zones, NO_FAULTS).result.Ok? <==> Completes(d, scope, zones)
  {
    PlannedIff(d, scope, port);
    ReverseExact(d, zones, port, LEGACY_REVERSE);
    InstallStops(d, scope, port, zones, NO_FAULTS);
    if Completes(d, scope, zones) {
      ForwardWorks(Reverse(d, port, zones, NO_FAULTS).entries, scope, port, ForwardChange(d, scope, port).value);
      InstallGoesOn(d, scope, port, zones, NO_FAULTS);
    }
  }

  lemma InstalledElsewhere(d: Entries, scope: Scope, port: nat, zones: seq<string>, n: string)
    requires ZoneNames(zones) && n != ResolverName(scope.project)
    ensures Get(InstallEntries(d, scope, port, zones, NO_FAULTS).entries, n) == Installed(d, scope, port, zones, n)
  {
    PlannedIff(d, scope, port);
    ReverseExact(d, zones, port, n);
    InstallStops(d, scope, port, zones, NO_FAULTS);
    InstallCompletes(d, scope, port, zones);
    if InstallEntries(d, scope, port, zones, NO_FAULTS).result.Ok? {
      InstallParts(d, scope, port, zones, NO_FAULTS);
      ForwardFrame(Reverse(d, port, zones, NO_FAULTS).entries, scope, port, ForwardChange(d, scope, port).value,
                   NO_FAULTS, n);
    }
  }

  lemma InstalledOwnFile(d: Entries, scope: Scope, port: nat, zones: seq<string>)
    requires ZoneNames(zones)
    ensures
      var name := ResolverName(scope.project);
      Get(InstallEntries(d, scope, port, zones, NO_FAULTS).entries, name) == Installed(d, scope, port, zones, name)
  {
    NameIsNoZone(scope.project);
    PlannedIff(d, scope, port);
    InstallCompletes(d, scope, port, zones);
    if InstallEntries(d, scope, port, zones, NO_FAULTS).result.Ok? {
      InstallPutsOwnFile(d, scope, port, zones, NO_FAULTS);
    } else {
      ReverseSparesOwnFile(d, scope, port, zones, NO_FAULTS);
      InstallStops(d, scope, port, zones, NO_FAULTS);
      ReverseExact(d, zones, port, LEGACY_REVERSE);
    }
  }

  /** `Installed` describes `install` exactly, and the call succeeds iff it completes. */
  lemma InstallExact(d: Entries, scope: Scope, port: nat, zones: seq<string>, n: string)
    requires ZoneNames(zones)
    ensures InstallEntries(d, scope, port, zones, NO_FAULTS).result.Ok? <==> Completes(d, scope, zones)
    ensures Get(InstallEntries(d, scope, port, zones, NO_FAULTS).entries, n) == Installed(d, scope, port, zones, n)
  {
    InstallCompletes(d, scope, port, zones);
    if n == ResolverName(scope.project) {
      InstalledOwnFile(d, scope, port, zones);
    } else {
      InstalledElsewhere(d, scope, port, zones, n);
    }
  }

  // ----- refusal -----

  /** A call refused for the project's own file changes nothing at all, under any faults. */
  lemma OwnCollisionChangesNothing(d: Entries, scope: Scope, port: nat, zones: seq<string>, faults: Faults)
    requires !OwnFileOk(d, scope)
    ensures InstallEntries(d, scope, port, zones, faults).result.Err?
    ensures InstallEntries(d, scope, port, zones, faults).entries == d
  {
  }

  lemma SameEntries(d: Entries, other: Entries)
    requires forall n :: Get(d, n) == Get(other, n)
    ensures d == other
  {
    forall n ensures n in d <==> n in other {
      assert Get(d, n) == Get(other, n);
    }
    forall n | n in d ensures d[n] == other[n] {
      assert Get(d, n) == Get(other, n);
    }
  }

  /** A failing install leaves the directory unchanged if and only if it is refused for the
      project's own file, or all zones before the obstacle (a foreign zone file, an unreadable
      legacy file) were already published. */
  lemma FailedInstallUnchangedIff(d: Entries, scope: Scope, port: nat, zones: seq<string>)
    requires ZoneNames(zones) && !InstallEntries(d, scope, port, zones, NO_FAULTS).result.Ok?
    ensures InstallEntries(d, scope, port, zones, NO_FAULTS).entries == d
      <==> (!OwnFileOk(d, scope)
            || forall i :: 0 <= i < Publishable(d, zones) ==> Get(d, zones[i]) == Some(Regular(ReverseContent(port))))
  {
    var after, k := InstallEntries(d, scope, port, zones, NO_FAULTS).entries, Publishable(d, zones);
    InstallExact(d, scope, port, zones, "");
    if !OwnFileOk(d, scope) {
      OwnCollisionChangesNothing(d, scope, port, zones, NO_FAULTS);
    } else if forall i :: 0 <= i < k ==> Get(d, zones[i]) == Some(Regular(ReverseContent(port))) {
      forall n ensures Get(after, n) == Get(d, n) {
        InstallExact(d, scope, port, zones, n);
      }
      SameEntries(after, d);
    } else {
      var i :| 0 <= i < k && Get(d, zones[i]) != Some(Regular(ReverseContent(port)));
      InstallExact(d, scope, port, zones, zones[i]);
      assert zones[..k][i] == zones[i];
    }
  }

  /** A refused install is not always free of effects: the second zone file is foreign here, and
      the first one has been written when that is noticed. */
  lemma ZoneCollisionLeavesEarlierZones(scope: Scope, port: nat)
    ensures
      var d: Entries := map["2.in-addr.arpa" := Regular("")];
      var after := InstallEntries(d, scope, port, ["1.in-addr.arpa", "2.in-addr.arpa"], NO_FAULTS);
      after.result.Err? && after.entries != d
  {
    var d: Entries := map["2.in-addr.arpa" := Regular("")];
    var first, second := "1.in-addr.arpa", "2.in-addr.arpa";
    assert ZoneName(first) && ZoneName(second) && first[0] != second[0];
    NameIsNoZone(scope.project);
    assert Lines("") == [];
    SecondZoneBlocks(d, scope, port, first, second);
  }

  lemma SecondZoneBlocks(d: Entries, scope: Scope, port: nat, first: string, second: string)
    requires ZoneName(first) && ZoneName(second) && first !in d && Blocks(d, second) && OwnFileOk(d, scope)
    ensures InstallEntries(d, scope, port, [first, second], NO_FAULTS).result.Err?
    ensures InstallEntries(d, scope, port, [first, second], NO_FAULTS).entries != d
  {
    var zones := [first, second];
    assert Publishable(d, zones[1..]) == 0;
    assert zones[..1][0] == first;
    InstallExact(d, scope, port, zones, first);
  }

  // ----- order -----

  lemma OthersKeepVerdict(d: Entries, a: Scope, port: nat, zonesA: seq<string>, b: Scope, zonesB: seq<string>)
    requires ZoneNames(zonesA) && ZoneNames(zonesB) && a.project != b.project
    ensures
      var after := InstallEntries(d, a, port, zonesA, NO_FAULTS).entries;
      && OwnFileOk(after, b) == OwnFileOk(d, b) && Publishable(after, zonesB) == Publishable(d, zonesB)
      && LegacyUnreadable(after) == LegacyUnreadable(d)
  {
    var after := InstallEntries(d, a, port, zonesA, NO_FAULTS).entries;
    var name := ResolverName(b.project);
    NameIsNoZone(b.project);
    NamesAreApart(a.project, b.project, LEGACY_REVERSE);
    InstallFrame(d, a, port, zonesA, NO_FAULTS, name);
    InstallFrame(d, a, port, zonesA, NO_FAULTS, LEGACY_REVERSE);
    ReverseContentIsManaged(port);
    forall z | z in zonesB ensures Blocks(d, z) == Blocks(after, z) {
      InstallFrame(d, a, port, zonesA, NO_FAULTS, z);
      NamesAreApart(a.project, a.project, z);
    }
    SameBlocksSamePublishable(d, after, zonesB);
  }

  /** Name by name, the second install makes the same difference in either order. */
  lemma CommuteAt(d: Entries, dA: Entries, dB: Entries, a: Scope, zonesA: seq<string>, b: Scope, zonesB: seq<string>,
                  port: nat, n: string)
    requires ZoneNames(zonesA) && ZoneNames(zonesB) && ResolverName(a.project) != ResolverName(b.project)
    requires !ReverseName(ResolverName(a.project)) && !ReverseName(ResolverName(b.project)) && !ZoneName(LEGACY_REVERSE)
    requires OwnFileOk(dA, b) == OwnFileOk(d, b) && OwnFileOk(dB, a) == OwnFileOk(d, a)
    requires Publishable(dA, zonesB) == Publishable(d, zonesB) && Publishable(dB, zonesA) == Publishable(d, zonesA)
    requires LegacyUnreadable(dA) == LegacyUnreadable(d) == LegacyUnreadable(dB)
    requires Get(dA, n) == Installed(d, a, port, zonesA, n) && Get(dB, n) == Installed(d, b, port, zonesB, n)
    ensures Installed(dA, b, port, zonesB, n) == Installed(dB, a, port, zonesA, n)
  {
    assert n in zonesA[..Publishable(d, zonesA)] ==> ZoneName(n);
    assert n in zonesB[..Publishable(d, zonesB)] ==> ZoneName(n);
  }

  /** Installs of two projects with the same port reach the same directory in either order,
      also when one of them, or both, fail on a foreign file. */
  lemma InstallsCommute(d: Entries, a: Scope, zonesA: seq<string>, b: Scope, zonesB: seq<string>, port: nat)
    requires ZoneNames(zonesA) && ZoneNames(zonesB) && a.project != b.project
    ensures
      InstallEntries(InstallEntries(d, a, port, zonesA, NO_FAULTS).entries, b, port, zonesB, NO_FAULTS).entries
        == InstallEntries(InstallEntries(d, b, port, zonesB, NO_FAULTS).entries, a, port, zonesA, NO_FAULTS).entries
  {
    var dA := InstallEntries(d, a, port, zonesA, NO_FAULTS).entries;
    var dB := InstallEntries(d, b, port, zonesB, NO_FAULTS).entries;
    var dAB := InstallEntries(dA, b, port, zonesB, NO_FAULTS).entries;
    var dBA := InstallEntries(dB, a, port, zonesA, NO_FAULTS).entries;
    forall n ensures Get(dAB, n) == Get(dBA, n) {
      InstallExact(d, a, port, zonesA, n);
      InstallExact(d, b, port, zonesB, n);
      InstallExact(dA, b, port, zonesB, n);
      InstallExact(dB, a, port, zonesA, n);
      OthersKeepVerdict(d, a, port, zonesA, b, zonesB);
      OthersKeepVerdict(d, b, port, zonesB, a, zonesA);
      NamesAreApart(a.project, b.project, LEGACY_REVERSE);
      NameIsNoZone(a.project);
      NameIsNoZone(b.project);
      CommuteAt(d, dA, dB, a, zonesA, b, zonesB, port, n);
    }
    SameEntries(dAB, dBA);
  }
}
