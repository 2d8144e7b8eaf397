/**
 The shared resolver directory and its two operations (`install`, `uninstall`), including
 write failures before and after the rename. The functions say what one call does to the
 directory; the class performs the calls step by step on its fields.
 */
module ResolverDirectory {
  import opened Wrappers
  import opened Text
  import opened ResolverFiles

  /** What `symlink_metadata` and `read_to_string` find under a name. */
  datatype Entry = Regular(text: string) | Unreadable | NonRegular

  type Entries = map<string, Entry>

  datatype Root = Missing | RealDirectory | LinkedDirectory | NotADirectory

  datatype Change = Installed | Updated | Unchanged | Removed | Absent

  datatype ResolverError =
    | BadRoot | NotRegular(name: string) | NotReadable(name: string) | Collision(name: string)
    | WriteFailed(name: string) | RemoveFailed(name: string)

  /** I/O faults of one call: `lost` names cannot be written or removed; writes to `late` names
      are reported as failed although the rename took place (the directory sync fails). Nothing
      follows the removal of a file, so a failed removal has had no effect. */
  datatype Faults = Faults(lost: set<string>, late: set<string>)

  const NO_FAULTS := Faults({}, {})

  datatype Outcome<T> = Outcome(entries: Entries, result: Result<T, ResolverError>)

  // ----- single steps -----

  function ReadExisting(d: Entries, name: string): Result<Option<string>, ResolverError> {
    if name !in d then Ok(None)
    else
      match d[name]
      case Regular(text) => Ok(Some(text))
      case Unreadable => Err(NotReadable(name))
      case NonRegular => Err(NotRegular(name))
  }

  function AtomicWrite(d: Entries, name: string, text: string, faults: Faults): Outcome<()> {
    if name in faults.lost then Outcome(d, Err(WriteFailed(name)))
    else Outcome(d[name := Regular(text)], if name in faults.late then Err(WriteFailed(name)) else Ok(()))
  }

  function RemoveFile(d: Entries, name: string, faults: Faults): Outcome<()> {
    if name !in d || d[name].NonRegular? || name in faults.lost then Outcome(d, Err(RemoveFailed(name)))
    else Outcome(d - {name}, Ok(()))
  }

  /** Publish one reverse zone; the value tells whether anything was written. */
  function PutZone(d: Entries, zone: string, text: string, faults: Faults): Outcome<bool> {
    match ReadExisting(d, zone)
    case Err(error) => Outcome(d, Err(error))
    case Ok(existing) =>
      if existing.Some? && !ManagedReverse(existing.value) then Outcome(d, Err(Collision(zone)))
      else if existing == Some(text) then Outcome(d, Ok(false))
      else
        var written := AtomicWrite(d, zone, text, faults);
        Outcome(written.entries, if written.result.Err? then Err(written.result.error) else Ok(true))
  }

  function Continue(changed: bool, o: Outcome<bool>): Outcome<bool> {
    Outcome(o.entries, if o.result.Ok? then Ok(changed || o.result.value) else o.result)
  }

  /** Publish the zones in order, stopping at the first that fails. */
  function PutZones(d: Entries, zones: seq<string>, text: string, faults: Faults): Outcome<bool>
    decreases zones
  {
    if zones == [] then Outcome(d, Ok(false))
    else
      var first := PutZone(d, zones[0], text, faults);
      if first.result.Err? then first
      else Continue(first.result.value, PutZones(first.entries, zones[1..], text, faults))
  }

  /** Migration: a managed legacy catch-all is removed. */
  function DropLegacy(d: Entries, faults: Faults): Outcome<bool> {
    match ReadExisting(d, LEGACY_REVERSE)
    case Err(error) => Outcome(d, Err(error))
    case Ok(existing) =>
      if existing.Some? && ManagedReverse(existing.value) then
        var removed := RemoveFile(d, LEGACY_REVERSE, faults);
        Outcome(removed.entries, if removed.result.Err? then Err(removed.result.error) else Ok(true))
      else Outcome(d, Ok(false))
  }

  /** The project's own file: what will happen to it, or why the call is refused. */
  function ForwardChange(d: Entries, scope: Scope, port: nat): Result<Change, ResolverError> {
    var name := ResolverName(scope.project);
    match ReadExisting(d, name)
    case Err(error) => Err(error)
    case Ok(None) => Ok(Installed)
    case Ok(Some(existing)) =>
      if !Owned(existing, scope) then Err(Collision(name))
      else if existing == ResolverContent(scope, port) then Ok(Unchanged)
      else Ok(Updated)
  }

  // ----- install -----

  function Reverse(d: Entries, port: nat, zones: seq<string>, faults: Faults): Outcome<bool> {
    var published := PutZones(d, zones, ReverseContent(port), faults);
    if published.result.Err? || zones == [] then published
    else Continue(published.result.value, DropLegacy(published.entries, faults))
  }

  function Forward(d: Entries, scope: Scope, port: nat, change: Change, faults: Faults): Outcome<()> {
    if change == Unchanged then Outcome(d, Ok(()))
    else AtomicWrite(d, ResolverName(scope.project), ResolverContent(scope, port), faults)
  }

  function InstallEntries(d: Entries, scope: Scope, port: nat, zones: seq<string>, faults: Faults): Outcome<Change> {
    var planned := ForwardChange(d, scope, port);
    if planned.Err? then Outcome(d, planned)
    else
      var reverse := Reverse(d, port, zones, faults);
      if reverse.result.Err? then Outcome(reverse.entries, Err(reverse.result.error))
      else
        var forward := Forward(reverse.entries, scope, port, planned.value, faults);
        Outcome(forward.entries,
                if forward.result.Err? then Err(forward.result.error)
                else Ok(if planned.value == Unchanged && reverse.result.value then Updated else planned.value))
  }

  // ----- uninstall -----

  /** `has_other_managed_resolver` over a directory listing in any order. */
  function HasOther(d: Entries, listing: seq<string>, current: string): Result<bool, ResolverError> {
    if listing == [] then Ok(false)
    else if listing[0] == current || !EndsWith(listing[0], PROJECT_SUFFIX) then HasOther(d, listing[1..], current)
    else
      match ReadExisting(d, listing[0])
      case Err(error) => Err(error)
      case Ok(existing) =>
        if existing.Some? && ManagedProject(existing.value) then Ok(true)
        else HasOther(d, listing[1..], current)
  }

  /** `managed_reverse_resolvers`: non-regular entries are skipped, unreadable files fail. */
  function ManagedReverses(d: Entries, listing: seq<string>): Result<seq<string>, ResolverError> {
    if listing == [] then Ok([])
    else
      var rest := ManagedReverses(d, listing[1..]);
      var name := listing[0];
      if !ReverseName(name) || name !in d || d[name].NonRegular? then rest
      else
        match ReadExisting(d, name)
        case Err(error) => Err(error)
        case Ok(existing) =>
          if existing.Some? && ManagedReverse(existing.value) then Prepend([name], rest) else rest
  }

  function Prepend(names: seq<string>, r: Result<seq<string>, ResolverError>): Result<seq<string>, ResolverError> {
    if r.Ok? then Ok(names + r.value) else r
  }

  lemma PrependAssociates(names: seq<string>, name: string, r: Result<seq<string>, ResolverError>)
    ensures Prepend(names, Prepend([name], r)) == Prepend(names + [name], r)
  {
    if r.Ok? {
      assert names + ([name] + r.value) == names + [name] + r.value;
    }
  }

  lemma PrependUnits(names: seq<string>, r: Result<seq<string>, ResolverError>)
    ensures Prepend([], r) == r && Prepend(names, Ok([])) == Ok(names)
  {
    assert names + [] == names;
    assert r.Ok? ==> [] + r.value == r.value;
  }

  function RemoveAll(d: Entries, names: seq<string>, faults: Faults): Outcome<()>
    decreases names
  {
    if names == [] then Outcome(d, Ok(()))
    else
      var first := RemoveFile(d, names[0], faults);
      if first.result.Err? then first else RemoveAll(first.entries, names[1..], faults)
  }

  function RemoveOwn(d: Entries, scope: Scope, faults: Faults): Outcome<Change> {
    var name := ResolverName(scope.project);
    match ReadExisting(d, name)
    case Err(error) => Outcome(d, Err(error))
    case Ok(None) => Outcome(d, Ok(Absent))
    case Ok(Some(existing)) =>
      if !Owned(existing, scope) then Outcome(d, Err(Collision(name)))
      else
        var removed := RemoveFile(d, name, faults);
        Outcome(removed.entries, if removed.result.Err? then Err(removed.result.error) else Ok(Removed))
  }

  function RemoveReverses(d: Entries, listing: seq<string>, scope: Scope, faults: Faults): Outcome<()> {
    match HasOther(d, listing, ResolverName(scope.project))
    case Err(error) => Outcome(d, Err(error))
    case Ok(true) => Outcome(d, Ok(()))
    case Ok(false) =>
      match ManagedReverses(d, listing)
      case Err(error) => Outcome(d, Err(error))
      case Ok(names) => RemoveAll(d, names, faults)
  }

  function UninstallEntries(d: Entries, scope: Scope, listing: seq<string>, faults: Faults): Outcome<Change> {
    var own := RemoveOwn(d, scope, faults);
    if own.result.Err? then own
    else
      var reverses := RemoveReverses(own.entries, listing, scope, faults);
      Outcome(reverses.entries, if reverses.result.Err? then Err(reverses.result.error) else own.result)
  }

  // ----- the operations on the directory itself -----

  class Directory {
    var root: Root
    var entries: Entries

    constructor (root: Root, entries: Entries)
      ensures this.root == root && this.entries == entries
    {
      this.root, this.entries := root, entries;
    }

    method Write(name: string, text: string, faults: Faults) returns (result: Result<(), ResolverError>)
      modifies this`entries
      ensures Outcome(entries, result) == AtomicWrite(old(entries), name, text, faults)
    {
      if name in faults.lost { return Err(WriteFailed(name)); }
      entries := entries[name := Regular(text)];
      result := if name in faults.late then Err(WriteFailed(name)) else Ok(());
    }

    method Remove(name: string, faults: Faults) returns (result: Result<(), ResolverError>)
      modifies this`entries
      ensures Outcome(entries, result) == RemoveFile(old(entries), name, faults)
    {
      if name !in entries || entries[name].NonRegular? || name in faults.lost { return Err(RemoveFailed(name)); }
      entries := entries - {name};
      result := Ok(());
    }

    method PublishZones(zones: seq<string>, text: string, faults: Faults) returns (result: Result<bool, ResolverError>)
      modifies this`entries
      ensures Outcome(entries, result) == PutZones(old(entries), zones, text, faults)
    {
      var changed := false;
      for i := 0 to |zones|
        invariant PutZones(old(entries), zones, text, faults)
          == Continue(changed, PutZones(entries, zones[i..], text, faults))
      {
        assert zones[i..][1..] == zones[i + 1..];
        var existing := ReadExisting(entries, zones[i]);
        if existing.Err? { return Err(existing.error); }
        if existing.value.Some? && !ManagedReverse(existing.value.value) { return Err(Collision(zones[i])); }
        if existing.value != Some(text) {
          var written := Write(zones[i], text, faults);
          if written.Err? { return Err(written.error); }
          changed := true;
        }
      }
      result := Ok(changed);
    }

    /** `install`: ownership check, then reverse zones, then the migration, then the project file. */
    method Install(scope: Scope, port: nat, zones: seq<string>, faults: Faults)
      returns (result: Result<Change, ResolverError>)
      modifies this
      ensures old(root) == LinkedDirectory || old(root) == NotADirectory ==>
        result == Err(BadRoot) && root == old(root) && entries == old(entries)
      ensures old(root) == RealDirectory || old(root) == Missing ==>
        root == RealDirectory && Outcome(entries, result) == InstallEntries(
          if old(root) == Missing then map[] else old(entries), scope, port, zones, faults)
    {
      if root == LinkedDirectory || root == NotADirectory { return Err(BadRoot); }
      if root == Missing { root, entries := RealDirectory, map[]; }
      var planned := ForwardChange(entries, scope, port);
      if planned.Err? { return planned; }
      var published := PublishZones(zones, ReverseContent(port), faults);
      if published.Err? { return Err(published.error); }
      var reverseChanged := published.value;
      if zones != [] {
        var legacy := ReadExisting(entries, LEGACY_REVERSE);
        if legacy.Err? { return Err(legacy.error); }
        if legacy.value.Some? && ManagedReverse(legacy.value.value) {
          var removed := Remove(LEGACY_REVERSE, faults);
          if removed.Err? { return Err(removed.error); }
          reverseChanged := true;
        }
      }
      if planned.value != Unchanged {
        var written := Write(ResolverName(scope.project), ResolverContent(scope, port), faults);
        if written.Err? { return Err(written.error); }
      }
      result := Ok(if planned.value == Unchanged && reverseChanged then Updated else planned.value);
    }

    method OtherManaged(listing: seq<string>, current: string) returns (result: Result<bool, ResolverError>)
      ensures result == HasOther(entries, listing, current)
    {
      for i := 0 to |listing|
        invariant HasOther(entries, listing, current) == HasOther(entries, listing[i..], current)
      {
        assert listing[i..][1..] == listing[i + 1..];
        if listing[i] == current || !EndsWith(listing[i], PROJECT_SUFFIX) { continue; }
        var existing := ReadExisting(entries, listing[i]);
        if existing.Err? { return Err(existing.error); }
        if existing.value.Some? && ManagedProject(existing.value.value) { return Ok(true); }
      }
      result := Ok(false);
    }

    method CollectManaged(listing: seq<string>) returns (result: Result<seq<string>, ResolverError>)
      ensures result == ManagedReverses(entries, listing)
    {
      var managed: seq<string> := [];
      PrependUnits(managed, ManagedReverses(entries, listing));
      for i := 0 to |listing|
        invariant ManagedReverses(entries, listing) == Prepend(managed, ManagedReverses(entries, listing[i..]))
      {
        assert listing[i..][1..] == listing[i + 1..];
        var name := listing[i];
        if !ReverseName(name) || name !in entries || entries[name].NonRegular? { continue; }
        var existing := ReadExisting(entries, name);
        if existing.Err? { return Err(existing.error); }
        if existing.value.Some? && ManagedReverse(existing.value.value) {
          PrependAssociates(managed, name, ManagedReverses(entries, listing[i + 1..]));
          managed := managed + [name];
        }
      }
      PrependUnits(managed, Ok([]));
      result := Ok(managed);
    }

    method RemoveEach(names: seq<string>, faults: Faults) returns (result: Result<(), ResolverError>)
      modifies this`entries
      ensures Outcome(entries, result) == RemoveAll(old(entries), names, faults)
    {
      for i := 0 to |names|
        invariant RemoveAll(old(entries), names, faults) == RemoveAll(entries, names[i..], faults)
      {
        assert names[i..][1..] == names[i + 1..];
        var removed := Remove(names[i], faults);
        if removed.Err? { return removed; }
      }
      result := Ok(());
    }

    /** `uninstall`: the project file first; shared reverse zones only with the last project. It
        does not look at the directory itself, so a link is followed, and where there is no
        directory its entries cannot be inspected. */
    method Uninstall(scope: Scope, listing: seq<string>, faults: Faults) returns (result: Result<Change, ResolverError>)
      requires root == Missing ==> entries == map[]
      modifies this`entries
      ensures old(root) == NotADirectory ==>
        result == Err(NotReadable(ResolverName(scope.project))) && entries == old(entries)
      ensures old(root) != NotADirectory ==>
        Outcome(entries, result) == UninstallEntries(old(entries), scope, listing, faults)
    {
      var name := ResolverName(scope.project);
      if root == NotADirectory { return Err(NotReadable(name)); }
      var existing := ReadExisting(entries, name);
      if existing.Err? { return Err(existing.error); }
      if existing.value.Some? && !Owned(existing.value.value, scope) { return Err(Collision(name)); }
      var change := Absent;
      if existing.value.Some? {
        var removed := Remove(name, faults);
        if removed.Err? { return Err(removed.error); }
        change := Removed;
      }
      var other := OtherManaged(listing, name);
      if other.Err? { return Err(other.error); }
      if !other.value {
        var managed := CollectManaged(listing);
        if managed.Err? { return Err(managed.error); }
        var removed := RemoveEach(managed.value, faults);
        if removed.Err? { return Err(removed.error); }
      }
      result := Ok(change);
    }
  }
}
