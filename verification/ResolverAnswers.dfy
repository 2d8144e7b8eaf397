/**
 What the callers of `install` and `uninstall` are told, what the written files say to whoever
 reads them, and the exact effect of an uninstall.
 */
module ResolverAnswers {
  import opened Wrappers
  import opened Text
  import opened ResolverFiles
  import opened ResolverDirectory
  import opened ResolverHistory
  import opened ResolverInstalls

  // ----- what is written -----

  /** A file that sends its readers to the local server at a port. */
  predicate NamesServer(d: Entries, name: string, port: nat) {
    name in d && d[name].Regular? && ReadResolver(d[name].text) == Some(("127.0.0.1", port))
  }

  /** A file with the three marker lines of a project and owner. */
  predicate Marked(d: Entries, name: string, project: string, owner: string) {
    && name in d && d[name].Regular?
    && var lines := Lines(d[name].text);
    "# managed-by: vzctl" in lines && "# project: " + project in lines && "# owner: " + owner in lines
  }

  /** After a successful install, whatever stood there before, the project's file and all its zone
      files send readers to the requested port, and the project's file is marked as its own. */
  lemma InstalledFilesRead(d: Entries, scope: Scope, port: nat, zones: seq<string>, faults: Faults)
    requires ValidScope(scope) && ZoneNames(zones) && port < 0x1_0000
    requires InstallEntries(d, scope, port, zones, faults).result.Ok?
    ensures
      var after := InstallEntries(d, scope, port, zones, faults).entries;
      && NamesServer(after, scope.project + ".vz.test", port)
      && Marked(after, scope.project + ".vz.test", scope.project, scope.owner)
      && forall z :: z in zones ==> NamesServer(after, z, port)
  {
    InstallAchieves(d, scope, port, zones, faults);
    ContentReads(scope, port);
    ContentOwnedOnlyBy(scope, port, scope);
  }

  // ----- what an install answers -----

  lemma PutZoneAnswer(d: Entries, zone: string, text: string, faults: Faults)
    requires PutZone(d, zone, text, faults).result.Ok?
    ensures
      var after := PutZone(d, zone, text, faults);
      && (after.result.value ==> Get(d, zone) != Some(Regular(text)))
      && (!after.result.value ==> after.entries == d)
      && Get(after.entries, zone) == Some(Regular(text))
  {
  }

  lemma {:induction false} PutZonesAnswer(d: Entries, zones: seq<string>, text: string, faults: Faults)
    returns (changed: string)
    requires ManagedReverse(text) && PutZones(d, zones, text, faults).result.Ok?
    ensures
      var after := PutZones(d, zones, text, faults);
      if after.result.value then changed in zones && Get(after.entries, changed) != Get(d, changed)
      else after.entries == d
    decreases zones
  {
    changed := "";
    if zones != [] {
      var first := PutZone(d, zones[0], text, faults);
      PutZoneAnswer(d, zones[0], text, faults);
      if first.result.value {
        changed := zones[0];
        PutZonesFrame(first.entries, zones[1..], text, faults, changed);
      } else {
        changed := PutZonesAnswer(d, zones[1..], text, faults);
      }
    }
  }

  lemma DropLegacyAnswer(d: Entries, faults: Faults)
    requires DropLegacy(d, faults).result.Ok?
    ensures
      var after := DropLegacy(d, faults);
      if after.result.value then LEGACY_REVERSE in d && LEGACY_REVERSE !in after.entries else after.entries == d
  {
  }

  lemma ReverseAnswer(d: Entries, port: nat, zones: seq<string>, faults: Faults)
    requires ZoneNames(zones) && Reverse(d, port, zones, faults).result.Ok?
    ensures
      var after := Reverse(d, port, zones, faults);
      after.result.value <==> after.entries != d
  {
    var text := ReverseContent(port);
    ReverseContentIsManaged(port);
    var published := PutZones(d, zones, text, faults);
    var z := PutZonesAnswer(d, zones, text, faults);
    if zones != [] {
      NamesAreApart("", "", LEGACY_REVERSE);
      DropLegacyAnswer(published.entries, faults);
      DropLegacyFrame(published.entries, faults, z);
      PutZonesFrame(d, zones, text, faults, LEGACY_REVERSE);
      assert LEGACY_REVERSE !in zones;
      assert Get(published.entries, LEGACY_REVERSE) == Get(d, LEGACY_REVERSE);
    }
  }

  /** A successful install says Installed exactly if the project had no file, Unchanged exactly if
      the directory is what it was, and Updated otherwise. */
  lemma InstallAnswer(d: Entries, scope: Scope, port: nat, zones: seq<string>, faults: Faults)
    requires ZoneNames(zones) && InstallEntries(d, scope, port, zones, faults).result.Ok?
    ensures
      var after := InstallEntries(d, scope, port, zones, faults);
      && (after.result.value == Installed <==> scope.project + ".vz.test" !in d)
      && (after.result.value == Unchanged <==> after.entries == d)
      && after.result.value in {Installed, Updated, Unchanged}
  {
    var name, planned := ResolverName(scope.project), ForwardChange(d, scope, port);
    InstallParts(d, scope, port, zones, faults);
    ReverseAnswer(d, port, zones, faults);
    InstallPutsOwnFile(d, scope, port, zones, faults);
    var reverse := Reverse(d, port, zones, faults);
    assert planned.value != Unchanged ==> Get(d, name) != Some(Regular(ResolverContent(scope, port)));
  }

  // ----- what a refused install answers -----

  /** Why an entry that is in the way stops a call. */
  function Obstacle(d: Entries, name: string): ResolverError {
    if name in d && d[name].NonRegular? then NotRegular(name)
    else if name in d && d[name].Unreadable? then NotReadable(name)
    else Collision(name)
  }

  lemma PutZonesOn(d: Entries, zones: seq<string>, text: string, faults: Faults)
    requires zones != [] && PutZone(d, zones[0], text, faults).result.Ok?
    ensures
      var rest := PutZones(PutZone(d, zones[0], text, faults).entries, zones[1..], text, faults);
      rest.result.Err? ==> PutZones(d, zones, text, faults).result == rest.result
  {
  }

  lemma BlockedZone(d: Entries, zone: string, text: string)
    requires Blocks(d, zone)
    ensures PutZone(d, zone, text, NO_FAULTS).result == Err(Obstacle(d, zone))
  {
  }

  lemma {:induction false} PutZonesRefused(d: Entries, zones: seq<string>, text: string)
    requires ManagedReverse(text) && Publishable(d, zones) < |zones|
    ensures PutZones(d, zones, text, NO_FAULTS).result == Err(Obstacle(d, zones[Publishable(d, zones)]))
    decreases zones
  {
    if Blocks(d, zones[0]) {
      BlockedZone(d, zones[0], text);
    } else {
      var next, z := PutZone(d, zones[0], text, NO_FAULTS).entries, zones[Publishable(d, zones)];
      forall n ensures Blocks(d, n) == Blocks(next, n) {
        FreeZoneIsPut(d, zones[0], text, n);
      }
      FreeZoneIsPut(d, zones[0], text, z);
      PublishableStep(d, next, zones, z);
      PublishableBlocks(d, zones);
      PutZonesRefused(next, zones[1..], text);
      assert Get(next, z) == Get(d, z);
      PutZonesOn(d, zones, text, NO_FAULTS);
    }
  }

  lemma {:induction false} PublishableBlocks(d: Entries, zones: seq<string>)
    requires Publishable(d, zones) < |zones|
    ensures Blocks(d, zones[Publishable(d, zones)])
  {
    if !Blocks(d, zones[0]) {
      PublishableBlocks(d, zones[1..]);
    }
  }

  lemma LegacyRefuses(d: Entries, zones: seq<string>, text: string)
    requires ManagedReverse(text) && ZoneNames(zones) && LegacyUnreadable(d)
    ensures DropLegacy(PutZones(d, zones, text, NO_FAULTS).entries, NO_FAULTS).result
      == Err(Obstacle(d, LEGACY_REVERSE))
  {
    NamesAreApart("", "", LEGACY_REVERSE);
    PutZonesFrame(d, zones, text, NO_FAULTS, LEGACY_REVERSE);
    assert LEGACY_REVERSE !in zones;
    assert Get(PutZones(d, zones, text, NO_FAULTS).entries, LEGACY_REVERSE) == Get(d, LEGACY_REVERSE);
  }

  lemma RefusedForOwnFile(d: Entries, scope: Scope, port: nat, zones: seq<string>, faults: Faults)
    requires !OwnFileOk(d, scope)
    ensures InstallEntries(d, scope, port, zones, faults)
      == Outcome(d, Err(Obstacle(d, ResolverName(scope.project))))
  {
  }

  lemma RefusedForReverse(d: Entries, scope: Scope, port: nat, zones: seq<string>, faults: Faults)
    requires OwnFileOk(d, scope) && Reverse(d, port, zones, faults).result.Err?
    ensures InstallEntries(d, scope, port, zones, faults).result == Err(Reverse(d, port, zones, faults).result.error)
  {
  }

  lemma ReverseRefused(d: Entries, zones: seq<string>, port: nat)
    requires ZoneNames(zones) && Reverse(d, port, zones, NO_FAULTS).result.Err?
    ensures
      var k := Publishable(d, zones);
      Reverse(d, port, zones, NO_FAULTS).result == Err(Obstacle(d, if k < |zones| then zones[k] else LEGACY_REVERSE))
  {
    ReverseContentIsManaged(port);
    ReverseExact(d, zones, port, LEGACY_REVERSE);
    if Publishable(d, zones) < |zones| {
      PutZonesRefused(d, zones, ReverseContent(port));
    } else {
      PutZonesExact(d, zones, ReverseContent(port), LEGACY_REVERSE);
      LegacyRefuses(d, zones, ReverseContent(port));
    }
  }

  /** Without I/O faults a refused install names the first entry in its way: the project's own
      file, the first blocked zone, or the legacy file. */
  lemma InstallRefused(d: Entries, scope: Scope, port: nat, zones: seq<string>)
    requires ZoneNames(zones) && InstallEntries(d, scope, port, zones, NO_FAULTS).result.Err?
    ensures
      var k := Publishable(d, zones);
      InstallEntries(d, scope, port, zones, NO_FAULTS).result
        == Err(Obstacle(d, if !OwnFileOk(d, scope) then ResolverName(scope.project)
                           else if k < |zones| then zones[k] else LEGACY_REVERSE))
  {
    InstallCompletes(d, scope, port, zones);
    if OwnFileOk(d, scope) {
      ReverseExact(d, zones, port, LEGACY_REVERSE);
      RefusedForReverse(d, scope, port, zones, NO_FAULTS);
      ReverseRefused(d, zones, port);
    } else {
      RefusedForOwnFile(d, scope, port, zones, NO_FAULTS);
    }
  }

  // ----- the exact effect of an uninstall without faults -----

  /** Another project's file: what decides whether the shared zone files stay. */
  predicate OtherProject(d: Entries, current: string, n: string) {
    n != current && EndsWith(n, ".vz.test") && IsManagedProject(Get(d, n))
  }

  /** A project file that cannot be looked into. */
  predicate Closed(d: Entries, current: string, n: string) {
    n != current && EndsWith(n, ".vz.test") && n in d && !d[n].Regular?
  }

  predicate ManagedZone(d: Entries, n: string) {
    (n == "in-addr.arpa" || EndsWith(n, ".in-addr.arpa")) && IsManagedReverse(Get(d, n))
  }

  /** A zone file that cannot be read; what is no regular file is skipped instead. */
  predicate UnreadableZone(d: Entries, n: string) {
    (n == "in-addr.arpa" || EndsWith(n, ".in-addr.arpa")) && n in d && d[n].Unreadable?
  }

  ghost predicate OtherListed(d: Entries, listing: seq<string>, current: string) {
    exists n :: n in listing && OtherProject(d, current, n)
  }

  lemma {:induction false} HasOtherExact(d: Entries, listing: seq<string>, current: string)
    requires forall n :: n in listing ==> !Closed(d, current, n)
    ensures HasOther(d, listing, current) == Ok(OtherListed(d, listing, current))
    decreases listing
  {
    if listing != [] {
      HasOtherExact(d, listing[1..], current);
      assert forall n :: n in listing <==> n == listing[0] || n in listing[1..];
      assert !Closed(d, current, listing[0]);
      assert OtherListed(d, listing, current)
        <==> OtherProject(d, current, listing[0]) || OtherListed(d, listing[1..], current);
    }
  }

  lemma ZoneNamesSpelled(n: string)
    ensures ReverseName(n) <==> n == "in-addr.arpa" || EndsWith(n, ".in-addr.arpa")
  {
    assert "." + LEGACY_REVERSE == ".in-addr.arpa";
  }

  predicate AllDistinct(names: seq<string>) { forall i, j :: 0 <= i < j < |names| ==> names[i] != names[j] }

  lemma {:induction false} CollectsAll(d: Entries, listing: seq<string>)
    requires AllDistinct(listing)
    ensures ManagedReverses(d, listing).Ok? <==> forall n :: n in listing ==> !UnreadableZone(d, n)
    ensures ManagedReverses(d, listing).Ok? ==> AllDistinct(ManagedReverses(d, listing).value)
    decreases listing
  {
    if listing != [] {
      var rest := ManagedReverses(d, listing[1..]);
      CollectsAll(d, listing[1..]);
      ZoneNamesSpelled(listing[0]);
      assert forall n :: n in listing <==> n == listing[0] || n in listing[1..];
      if rest.Ok? {
        CollectedNames(d, listing[1..], listing[0]);
      }
    }
  }

  lemma {:induction false} RemovesAll(d: Entries, names: seq<string>)
    requires AllDistinct(names) && forall n :: n in names ==> n in d && d[n].Regular?
    ensures RemoveAll(d, names, NO_FAULTS).result.Ok?
    decreases names
  {
    if names != [] {
      var next := RemoveFile(d, names[0], NO_FAULTS).entries;
      assert names[0] in names;
      forall n | n in names[1..] ensures n in next && next[n].Regular? {
        assert n in names;
      }
      RemovesAll(next, names[1..]);
    }
  }

  lemma OwnAbsent(d: Entries, scope: Scope, name: string)
    requires name == ResolverName(scope.project) && name !in d
    ensures RemoveOwn(d, scope, NO_FAULTS) == Outcome(d, Ok(Absent)) && d - {name} == d
  {
  }

  lemma OwnPresent(d: Entries, scope: Scope, name: string, text: string)
    requires name == ResolverName(scope.project) && name in d && d[name] == Regular(text) && Owned(text, scope)
    ensures RemoveOwn(d, scope, NO_FAULTS) == Outcome(d - {name}, Ok(Removed))
  {
  }

  /** The directory after the project's own file is gone. */
  lemma OwnRemoved(d: Entries, scope: Scope)
    requires OwnFileOk(d, scope)
    ensures RemoveOwn(d, scope, NO_FAULTS).entries == d - {ResolverName(scope.project)}
    ensures RemoveOwn(d, scope, NO_FAULTS).result == Ok(if ResolverName(scope.project) in d then Removed else Absent)
  {
    var name := ResolverName(scope.project);
    if name in d {
      OwnPresent(d, scope, name, d[name].text);
    } else {
      OwnAbsent(d, scope, name);
    }
  }

  lemma OwnRefused(d: Entries, scope: Scope, listing: seq<string>, faults: Faults)
    requires !OwnFileOk(d, scope)
    ensures UninstallEntries(d, scope, listing, faults) == Outcome(d, Err(Obstacle(d, ResolverName(scope.project))))
  {
  }

  /** Nothing an uninstall has to look at is unreadable. */
  ghost predicate Readable(d: Entries, current: string) {
    forall n :: !Closed(d, current, n) && !UnreadableZone(d, n)
  }

  ghost predicate OtherRemains(d: Entries, current: string) { exists n :: OtherProject(d, current, n) }

  lemma OtherIsListed(d: Entries, own: Entries, listing: seq<string>, current: string)
    requires own == d - {current} && forall n :: n in d ==> n in listing
    ensures OtherListed(own, listing, current) <==> OtherRemains(d, current)
  {
    if n :| OtherProject(d, current, n) {
      assert n in listing && OtherProject(own, current, n);
    }
    if n :| n in listing && OtherProject(own, current, n) {
      assert OtherProject(d, current, n);
    }
  }

  /** The zone files go, all of them, when no other project remains. */
  lemma ZonesRemoved(d: Entries, own: Entries, listing: seq<string>, current: string, n: string)
    requires own == d - {current} && !ReverseName(current) && AllDistinct(listing)
    requires (forall m :: m in d ==> m in listing) && Readable(d, current)
    ensures ManagedReverses(own, listing).Ok?
    ensures
      var after := RemoveAll(own, ManagedReverses(own, listing).value, NO_FAULTS);
      after.result.Ok? && Get(after.entries, n) == if ManagedZone(d, n) then None else Get(own, n)
  {
    forall m | m in listing ensures !UnreadableZone(own, m) {
      assert !UnreadableZone(d, m);
    }
    CollectsAll(own, listing);
    var names := ManagedReverses(own, listing).value;
    forall m | m in names ensures m in own && own[m].Regular? {
      CollectedNames(own, listing, m);
    }
    RemovesAll(own, names);
    RemoveAllFrame(own, names, NO_FAULTS, n);
    CollectedNames(own, listing, n);
    ZoneNamesSpelled(n);
    ZoneNamesSpelled(current);
  }

  /** What stands under a name after an uninstall without faults. */
  ghost function Uninstalled(d: Entries, scope: Scope, n: string): Option<Entry> {
    var name := scope.project + ".vz.test";
    if !OwnFileOk(d, scope) then Get(d, n)
    else if n == name || (ManagedZone(d, n) && !OtherRemains(d, name)) then None
    else Get(d, n)
  }

  /** Without faults and with everything readable, an uninstall succeeds exactly if the project's
      file is absent or its own; then that file is gone, and with the last project all managed zone
      files are, and nothing else. */
  lemma UninstallExact(d: Entries, scope: Scope, listing: seq<string>, n: string)
    requires AllDistinct(listing) && (forall m :: m in d ==> m in listing)
    requires Readable(d, scope.project + ".vz.test")
    ensures
      var name, after := scope.project + ".vz.test", UninstallEntries(d, scope, listing, NO_FAULTS);
      && after.result == (if !OwnFileOk(d, scope) then Err(Obstacle(d, name))
                          else Ok(if name in d then Removed else Absent))
      && Get(after.entries, n) == Uninstalled(d, scope, n)
  {
    var name := ResolverName(scope.project);
    if OwnFileOk(d, scope) {
      var own := d - {name};
      OwnRemoved(d, scope);
      forall m | m in listing ensures !Closed(own, name, m) {
        assert !Closed(d, name, m);
      }
      HasOtherExact(own, listing, name);
      OtherIsListed(d, own, listing, name);
      NameIsNoZone(scope.project);
      ZonesRemoved(d, own, listing, name, n);
      assert name !in own;
      ZoneNamesSpelled(name);
    } else {
      OwnRefused(d, scope, listing, NO_FAULTS);
    }
  }

  lemma {:induction false} ClosedStops(d: Entries, listing: seq<string>, current: string, n: string)
    requires n in listing && Closed(d, current, n) && !OtherListed(d, listing, current)
    ensures HasOther(d, listing, current).Err?
    decreases listing
  {
    assert listing[0] in listing && !OtherProject(d, current, listing[0]);
    if !Closed(d, current, listing[0]) {
      assert OtherListed(d, listing[1..], current) ==> OtherListed(d, listing, current);
      ClosedStops(d, listing[1..], current, n);
    }
  }

  /** With the last project, an entry that cannot be read fails the uninstall: its own file is
      gone by then, and the zone files all stay. */
  lemma UnreadableStopsUninstall(d: Entries, scope: Scope, listing: seq<string>, n: string)
    requires AllDistinct(listing) && (forall m :: m in d ==> m in listing) && OwnFileOk(d, scope)
    requires !OtherRemains(d, scope.project + ".vz.test")
    requires Closed(d, scope.project + ".vz.test", n) || UnreadableZone(d, n)
    ensures
      var after := UninstallEntries(d, scope, listing, NO_FAULTS);
      after.result.Err? && after.entries == d - {scope.project + ".vz.test"}
  {
    var name := ResolverName(scope.project);
    var own := d - {name};
    OwnRemoved(d, scope);
    OtherIsListed(d, own, listing, name);
    NameIsNoZone(scope.project);
    ZoneNamesSpelled(name);
    if m :| m in listing && Closed(own, name, m) {
      ClosedStops(own, listing, name, m);
    } else {
      HasOtherExact(own, listing, name);
      CollectsAll(own, listing);
      assert n in listing;
      assert Closed(d, name, n) ==> Closed(own, name, n);
      assert UnreadableZone(own, n);
    }
  }
}
