/**
 Host port forwards (`parse_port_forward`, `collect_port_list`, `collect_port_forwards` and the
 validator's pass over the same lists).
 */
module PortForwards {
  import opened Wrappers
  import opened Text

  const LOOPBACK := "127.0.0.1"

  datatype PortForward = PortForward(bind: string, hostPort: nat, vm: string, guestPort: nat, source: string)

  datatype ParseError = NeedsVm | InvalidPort | ZeroPort | InvalidForm | EmptyVm

  function ParsePort(value: string): (r: Result<nat, ParseError>)
    ensures r.Ok? ==> 1 <= r.value <= 65535
  {
    var port := ParseUnsigned(value, 65535);
    if port.None? then Err(InvalidPort) else if port.value == 0 then Err(ZeroPort) else Ok(port.value)
  }

  function Assemble(bind: string, host: string, vm: string, guest: string, raw: string)
    : Result<PortForward, ParseError>
  {
    var hostPort :- ParsePort(host);
    var guestPort :- ParsePort(guest);
    if vm == "" then Err(EmptyVm) else Ok(PortForward(bind, hostPort, vm, guestPort, raw))
  }

  /** `parse_port_forward`: two to four parts; a middle part of digits only is a port. */
  function ParsePortForward(raw: string, defaultVm: Option<string>): Result<PortForward, ParseError> {
    var parts := Split(raw, ':');
    if |parts| == 2 then
      if defaultVm.None? then Err(NeedsVm) else Assemble(LOOPBACK, parts[0], defaultVm.value, parts[1], raw)
    else if |parts| == 3 then
      if AllDigits(parts[1]) then
        if defaultVm.None? then Err(NeedsVm) else Assemble(parts[0], parts[1], defaultVm.value, parts[2], raw)
      else Assemble(LOOPBACK, parts[0], parts[1], parts[2], raw)
    else if |parts| == 4 then Assemble(parts[0], parts[1], parts[2], parts[3], raw)
    else Err(InvalidForm)
  }

  /** The canonical text `bind:hostPort:vm:guestPort`. */
  function Print(f: PortForward): string {
    Join([f.bind, Decimal(f.hostPort), f.vm, Decimal(f.guestPort)], ':')
  }

  /** A parsed forward has ports in range and a VM name; only a default VM can hold a colon. */
  lemma ParsedForward(raw: string, defaultVm: Option<string>)
    requires ParsePortForward(raw, defaultVm).Ok?
    ensures
      var f := ParsePortForward(raw, defaultVm).value;
      && 1 <= f.hostPort <= 65535 && 1 <= f.guestPort <= 65535 && f.vm != "" && f.source == raw
      && ':' !in f.bind && (':' in f.vm ==> defaultVm == Some(f.vm))
  {
  }

  /** Printing a parsed forward in the four-part form and parsing it, with any default VM, gives
      the same forward (apart from the remembered source text) if and only if its VM name holds
      no colon; otherwise the printed form has too many parts. */
  lemma PrintedFormParsesBack(raw: string, defaultVm: Option<string>, otherDefault: Option<string>)
    requires ParsePortForward(raw, defaultVm).Ok?
    ensures
      var f := ParsePortForward(raw, defaultVm).value;
      ParsePortForward(Print(f), otherDefault)
        == if ':' !in f.vm then Ok(f.(source := Print(f))) else Err(InvalidForm)
  {
    var f := ParsePortForward(raw, defaultVm).value;
    ParsedForward(raw, defaultVm);
    var parts := [f.bind, Decimal(f.hostPort), f.vm, Decimal(f.guestPort)];
    DecimalHasNo(f.hostPort, ':');
    DecimalHasNo(f.guestPort, ':');
    if ':' !in f.vm {
      SplitJoin(parts, ':');
      ParseDecimal(f.hostPort, 65535);
      ParseDecimal(f.guestPort, 65535);
    } else {
      ManyParts(f.bind, Decimal(f.hostPort), f.vm, Decimal(f.guestPort));
    }
  }

  // ----- the forms of an entry -----

  /** Ports are 1 to 65535. */
  lemma PortsParse(n: nat)
    ensures ParsePort(Decimal(n)) == if n == 0 then Err(ZeroPort) else if n > 65535 then Err(InvalidPort) else Ok(n)
  {
    if n <= 65535 {
      ParseDecimal(n, 65535);
    } else {
      DigitValueDecimal(n);
      assert IsDigit(Decimal(n)[0]);
    }
  }

  lemma PairJoined(a: string, b: string)
    ensures Join([a, b], ':') == a + [':'] + b
  {
    assert [a, b][1..] == [b];
  }

  lemma TwoParts(a: string, b: string)
    requires ':' !in a && ':' !in b
    ensures Split(a + [':'] + b, ':') == [a, b]
  {
    SplitJoin([a, b], ':');
    PairJoined(a, b);
  }

  lemma ThreeParts(a: string, b: string, c: string)
    requires ':' !in a && ':' !in b && ':' !in c
    ensures Split(a + [':'] + b + [':'] + c, ':') == [a, b, c]
  {
    SplitPrefix(a, b + [':'] + c, ':');
    TwoParts(b, c);
    assert a + [':'] + b + [':'] + c == a + [':'] + (b + [':'] + c);
  }

  lemma Assembled(bind: string, host: nat, vm: string, guest: nat, raw: string)
    requires 1 <= host <= 65535 && 1 <= guest <= 65535
    ensures Assemble(bind, Decimal(host), vm, Decimal(guest), raw)
      == if vm == "" then Err(EmptyVm) else Ok(PortForward(bind, host, vm, guest, raw))
  {
    PortsParse(host);
    PortsParse(guest);
  }

  /** `host:guest` is on loopback and for the list's VM. */
  lemma HostGuestForm(host: nat, guest: nat, defaultVm: Option<string>)
    requires 1 <= host <= 65535 && 1 <= guest <= 65535
    ensures
      var raw := Decimal(host) + [':'] + Decimal(guest);
      ParsePortForward(raw, defaultVm)
        == if defaultVm.None? then Err(NeedsVm)
           else if defaultVm.value == "" then Err(EmptyVm)
           else Ok(PortForward("127.0.0.1", host, defaultVm.value, guest, raw))
  {
    var raw := Decimal(host) + [':'] + Decimal(guest);
    DecimalHasNo(host, ':');
    DecimalHasNo(guest, ':');
    TwoParts(Decimal(host), Decimal(guest));
    if defaultVm.Some? {
      Assembled(LOOPBACK, host, defaultVm.value, guest, raw);
    }
  }

  /** `bind:host:guest` is for the list's VM, too. */
  lemma BindHostGuestForm(bind: string, host: nat, guest: nat, defaultVm: Option<string>)
    requires 1 <= host <= 65535 && 1 <= guest <= 65535 && ':' !in bind
    ensures
      var raw := bind + [':'] + Decimal(host) + [':'] + Decimal(guest);
      ParsePortForward(raw, defaultVm)
        == if defaultVm.None? then Err(NeedsVm)
           else if defaultVm.value == "" then Err(EmptyVm)
           else Ok(PortForward(bind, host, defaultVm.value, guest, raw))
  {
    var raw := bind + [':'] + Decimal(host) + [':'] + Decimal(guest);
    DecimalHasNo(host, ':');
    DecimalHasNo(guest, ':');
    ThreeParts(bind, Decimal(host), Decimal(guest));
    if defaultVm.Some? {
      Assembled(bind, host, defaultVm.value, guest, raw);
    }
  }

  /** `host:vm:guest` is on loopback and for the VM it names, whatever the list's, if the name is
      not made of digits only. */
  lemma HostVmGuestForm(host: nat, vm: string, guest: nat, defaultVm: Option<string>, i: nat)
    requires 1 <= host <= 65535 && 1 <= guest <= 65535 && ':' !in vm
    requires i < |vm| && !('0' <= vm[i] <= '9')
    ensures
      var raw := Decimal(host) + [':'] + vm + [':'] + Decimal(guest);
      ParsePortForward(raw, defaultVm) == Ok(PortForward("127.0.0.1", host, vm, guest, raw))
  {
    var raw := Decimal(host) + [':'] + vm + [':'] + Decimal(guest);
    DecimalHasNo(host, ':');
    DecimalHasNo(guest, ':');
    ThreeParts(Decimal(host), vm, Decimal(guest));
    Assembled(LOOPBACK, host, vm, guest, raw);
    assert !IsDigit(vm[i]);
  }

  /** `bind:host:vm:guest` says it all. */
  lemma FullForm(bind: string, host: nat, vm: string, guest: nat, defaultVm: Option<string>)
    requires 1 <= host <= 65535 && 1 <= guest <= 65535 && ':' !in bind && ':' !in vm
    ensures
      var raw := bind + [':'] + (Decimal(host) + [':'] + vm + [':'] + Decimal(guest));
      ParsePortForward(raw, defaultVm)
        == if vm == "" then Err(EmptyVm) else Ok(PortForward(bind, host, vm, guest, raw))
  {
    var tail := Decimal(host) + [':'] + vm + [':'] + Decimal(guest);
    DecimalHasNo(host, ':');
    DecimalHasNo(guest, ':');
    SplitPrefix(bind, tail, ':');
    ThreeParts(Decimal(host), vm, Decimal(guest));
    Assembled(bind, host, vm, guest, bind + [':'] + tail);
  }

  /** Any other number of parts is no form. */
  lemma OtherForms(parts: seq<string>, defaultVm: Option<string>)
    requires |parts| == 1 || |parts| > 4
    requires forall i :: 0 <= i < |parts| ==> ':' !in parts[i]
    ensures ParsePortForward(Join(parts, ':'), defaultVm) == Err(InvalidForm)
  {
    SplitJoin(parts, ':');
  }

  lemma ExamplePorts()
    ensures ParsePort("80") == Ok(80) && ParsePort("90") == Ok(90)
  {
    assert "80"[..1] == "8" && "8"[..0] == "" && "90"[..1] == "9" && "9"[..0] == "";
    assert DigitValue("8") == 8 && DigitValue("9") == 9;
  }

  lemma ExampleParts()
    ensures Split("80:90", ':') == ["80", "90"]
  {
    SplitWhole("90", ':');
    SplitPrefix("80", "90", ':');
    assert "80" + [':'] + "90" == "80:90";
  }

  lemma ExampleForward()
    ensures ParsePortForward("80:90", Some("a:b")) == Ok(PortForward(LOOPBACK, 80, "a:b", 90, "80:90"))
  {
    ExampleParts();
    ExamplePorts();
  }

  /** A VM name with a colon, as the default VM of a list: what is printed is not accepted. */
  lemma ColonInVmNameDoesNotParseBack()
    ensures
      var f := ParsePortForward("80:90", Some("a:b"));
      && f == Ok(PortForward(LOOPBACK, 80, "a:b", 90, "80:90"))
      && ParsePortForward(Print(f.value), None) == Err(InvalidForm)
  {
    ExampleForward();
    PrintedFormParsesBack("80:90", Some("a:b"), None);
    assert "a:b"[1] == ':';
  }

  lemma ManyParts(bind: string, host: string, vm: string, guest: string)
    requires ':' !in bind && ':' !in host && ':' in vm
    ensures |Split(Join([bind, host, vm, guest], ':'), ':')| > 4
  {
    var tail := vm + [':'] + guest;
    assert Join([vm, guest], ':') == tail;
    assert [bind, host, vm, guest][1..][1..] == [vm, guest];
    assert Join([bind, host, vm, guest], ':') == bind + [':'] + (host + [':'] + tail);
    SplitPrefix(bind, host + [':'] + tail, ':');
    SplitPrefix(host, tail, ':');
    SplitCounts(vm, guest, ':');
    SplitAtLeastTwo(vm, ':');
  }

  // ----- collecting -----

  datatype Problem =
    | BadEntry(error: ParseError) | WildcardBind | UnsupportedBind | UnknownVm | Collides(other: (string, nat))

  /** A problem with entry `index` of the list `owner` (empty for the stack-level list). */
  datatype Issue = Issue(owner: string, index: nat, problem: Problem)

  type Key = (string, nat)

  /** The lists in the order they are read: the stack's, then every VM's in name order. */
  datatype PortList = PortList(owner: string, defaultVm: Option<string>, entries: seq<string>)

  datatype Slot = Slot(owner: string, index: nat, defaultVm: Option<string>, entry: string)

  function Parsed(s: Slot): Result<PortForward, ParseError> { ParsePortForward(s.entry, s.defaultVm) }

  function SlotsOf(l: PortList, from: nat): seq<Slot>
    requires from <= |l.entries|
    decreases |l.entries| - from
  {
    if from == |l.entries| then [] else [Slot(l.owner, from, l.defaultVm, l.entries[from])] + SlotsOf(l, from + 1)
  }

  function AllSlots(lists: seq<PortList>): seq<Slot> {
    if lists == [] then [] else SlotsOf(lists[0], 0) + AllSlots(lists[1..])
  }

  /** Every entry of a list, with its place and the list's VM. */
  lemma {:induction false} SlotsListed(l: PortList, from: nat, i: nat)
    requires from + i < |l.entries|
    ensures |SlotsOf(l, from)| == |l.entries| - from
    ensures SlotsOf(l, from)[i] == Slot(l.owner, from + i, l.defaultVm, l.entries[from + i])
    decreases |l.entries| - from
  {
    if from + 1 < |l.entries| {
      SlotsListed(l, from + 1, if i == 0 then 0 else i - 1);
    }
  }

  // ----- what a correct configuration is -----

  predicate EntryOk(s: Slot, vms: set<string>) {
    Parsed(s).Ok? && Parsed(s).value.bind == LOOPBACK && Parsed(s).value.vm in vms
  }

  function KeyOf(f: PortForward): Key { (f.bind, f.hostPort) }

  /** Every entry parses, binds loopback and names a VM; no two share a bind and host port. */
  ghost predicate Correct(slots: seq<Slot>, vms: set<string>) {
    && (forall i :: 0 <= i < |slots| ==> EntryOk(slots[i], vms))
    && (forall i, j :: 0 <= i < j < |slots| ==> KeyOf(Parsed(slots[i]).value) != KeyOf(Parsed(slots[j]).value))
  }

  // ----- one pass over the entries -----

  datatype Pass = Pass(binds: map<Key, (string, nat)>, forwards: seq<PortForward>, issues: seq<Issue>)

  const FRESH := Pass(map[], [], [])

  function BindProblems(f: PortForward): seq<Problem> {
    if f.bind == "0.0.0.0" then [WildcardBind] else if f.bind != LOOPBACK then [UnsupportedBind] else []
  }

  function Problems(p: Pass, s: Slot, vms: set<string>): seq<Problem> {
    match Parsed(s)
    case Err(error) => [BadEntry(error)]
    case Ok(f) =>
      BindProblems(f) + (if f.vm in vms then [] else [UnknownVm])
      + if KeyOf(f) in p.binds then [Collides(p.binds[KeyOf(f)])] else []
  }

  function Located(s: Slot, problems: seq<Problem>): (issues: seq<Issue>)
    ensures |issues| == |problems|
  {
    seq(|problems|, i requires 0 <= i < |problems| => Issue(s.owner, s.index, problems[i]))
  }

  function Take(p: Pass, s: Slot, vms: set<string>): Pass {
    var issues := p.issues + Located(s, Problems(p, s, vms));
    match Parsed(s)
    case Err(_) => p.(issues := issues)
    case Ok(f) => Pass(p.binds[KeyOf(f) := (s.owner, s.index)], p.forwards + [f], issues)
  }

  function TakeAll(p: Pass, slots: seq<Slot>, vms: set<string>): Pass
    decreases slots
  {
    if slots == [] then p else TakeAll(Take(p, slots[0], vms), slots[1..], vms)
  }

  lemma {:induction false} TakeAllAppend(p: Pass, a: seq<Slot>, b: seq<Slot>, vms: set<string>)
    ensures TakeAll(p, a + b, vms) == TakeAll(TakeAll(p, a, vms), b, vms)
    decreases a
  {
    if a == [] {
      assert a + b == b;
    } else {
      assert (a + b)[1..] == a[1..] + b;
      TakeAllAppend(Take(p, a[0], vms), a[1..], b, vms);
    }
  }

  /** The loop body of `collect_port_list`. */
  method CollectEntry(s: Slot, vms: set<string>, p: Pass) returns (next: Pass)
    ensures next == Take(p, s, vms)
  {
    var found: seq<Problem> := [];
    match Parsed(s) {
      case Err(error) =>
        next := p.(issues := p.issues + Located(s, [BadEntry(error)]));
      case Ok(f) =>
        if f.bind == "0.0.0.0" {
          found := found + [WildcardBind];
        } else if f.bind != LOOPBACK {
          found := found + [UnsupportedBind];
        }
        if f.vm !in vms { found := found + [UnknownVm]; }
        if KeyOf(f) in p.binds { found := found + [Collides(p.binds[KeyOf(f)])]; }
        assert found == Problems(p, s, vms);
        next := Pass(p.binds[KeyOf(f) := (s.owner, s.index)], p.forwards + [f], p.issues + Located(s, found));
    }
  }

  /** `collect_port_list`; `validate_port_list` is the same loop with the forwards dropped. */
  method CollectPortList(l: PortList, vms: set<string>, p: Pass) returns (next: Pass)
    ensures next == TakeAll(p, SlotsOf(l, 0), vms)
  {
    next := p;
    for i := 0 to |l.entries|
      invariant TakeAll(p, SlotsOf(l, 0), vms) == TakeAll(next, SlotsOf(l, i), vms)
    {
      var slots := SlotsOf(l, i);
      assert slots[1..] == SlotsOf(l, i + 1);
      next := CollectEntry(slots[0], vms, next);
    }
  }

  /** `collect_port_forwards`. */
  method CollectPortForwards(lists: seq<PortList>, vms: set<string>)
    returns (result: Result<seq<PortForward>, seq<Issue>>)
    ensures
      var pass := TakeAll(FRESH, AllSlots(lists), vms);
      result == if pass.issues == [] then Ok(pass.forwards) else Err(pass.issues)
    ensures result.Ok? <==> Correct(AllSlots(lists), vms)
    ensures result.Ok? ==>
      var slots := AllSlots(lists);
      |result.value| == |slots| && forall i :: 0 <= i < |slots| ==> Parsed(slots[i]) == Ok(result.value[i])
  {
    var pass := FRESH;
    for i := 0 to |lists|
      invariant TakeAll(FRESH, AllSlots(lists), vms) == TakeAll(pass, AllSlots(lists[i..]), vms)
    {
      assert lists[i..][1..] == lists[i + 1..];
      TakeAllAppend(pass, SlotsOf(lists[i], 0), AllSlots(lists[i + 1..]), vms);
      pass := CollectPortList(lists[i], vms, pass);
    }
    NoIssueIffCorrect(AllSlots(lists), vms);
    if pass.issues == [] {
      CorrectIsCollected(AllSlots(lists), vms);
    }
    result := if pass.issues == [] then Ok(pass.forwards) else Err(pass.issues);
  }

  /** The validator runs over the lists with one shared bind table and only keeps the issues:
      they are those `collect_port_forwards` fails with. */
  method ValidatePorts(lists: seq<PortList>, vms: set<string>) returns (issues: seq<Issue>)
    ensures issues == TakeAll(FRESH, AllSlots(lists), vms).issues
    ensures issues == [] <==> Correct(AllSlots(lists), vms)
  {
    issues := [];
    var binds: map<Key, (string, nat)> := map[];
    ghost var forwards: seq<PortForward> := [];
    for i := 0 to |lists|
      invariant TakeAll(FRESH, AllSlots(lists), vms)
        == TakeAll(Pass(binds, forwards, issues), AllSlots(lists[i..]), vms)
    {
      assert lists[i..][1..] == lists[i + 1..];
      TakeAllAppend(Pass(binds, forwards, issues), SlotsOf(lists[i], 0), AllSlots(lists[i + 1..]), vms);
      ForwardsDoNotMatter(Pass(binds, forwards, issues), Pass(binds, [], issues), SlotsOf(lists[i], 0), vms);
      ghost var whole := TakeAll(Pass(binds, forwards, issues), SlotsOf(lists[i], 0), vms);
      var next := CollectPortList(lists[i], vms, Pass(binds, [], issues));
      binds, issues, forwards := next.binds, next.issues, whole.forwards;
    }
    NoIssueIffCorrect(AllSlots(lists), vms);
  }

  lemma {:induction false} ForwardsDoNotMatter(p: Pass, q: Pass, slots: seq<Slot>, vms: set<string>)
    requires p.binds == q.binds && p.issues == q.issues
    ensures TakeAll(p, slots, vms).binds == TakeAll(q, slots, vms).binds
    ensures TakeAll(p, slots, vms).issues == TakeAll(q, slots, vms).issues
    decreases slots
  {
    if slots != [] {
      ForwardsDoNotMatter(Take(p, slots[0], vms), Take(q, slots[0], vms), slots[1..], vms);
    }
  }

  // ----- issues against correctness -----

  /** Keys bound and forwards collected are those of the slots seen so far. */
  ghost predicate Reflects(p: Pass, seen: seq<Slot>) {
    && |p.forwards| == |seen|
    && (forall i :: 0 <= i < |seen| ==> Parsed(seen[i]) == Ok(p.forwards[i]))
    && (forall k :: k in p.binds <==> exists i :: 0 <= i < |seen| && KeyOf(p.forwards[i]) == k)
  }

  lemma IssuesOfTake(p: Pass, s: Slot, vms: set<string>)
    ensures Take(p, s, vms).issues == p.issues <==> EntryOk(s, vms) && KeyOf(Parsed(s).value) !in p.binds
    ensures |Take(p, s, vms).issues| >= |p.issues|
  {
    var found := Problems(p, s, vms);
    assert p.issues + [] == p.issues;
    assert found == [] ==> Located(s, found) == [];
    assert |Take(p, s, vms).issues| == |p.issues| + |found|;
  }

  lemma CorrectStep(seen: seq<Slot>, s: Slot, p: Pass, vms: set<string>)
    requires Correct(seen, vms) && Reflects(p, seen)
    ensures Correct(seen + [s], vms) <==> EntryOk(s, vms) && KeyOf(Parsed(s).value) !in p.binds
    ensures EntryOk(s, vms) ==> Reflects(Take(p, s, vms), seen + [s])
  {
    var all := seen + [s];
    if Correct(all, vms) {
      assert EntryOk(all[|seen|], vms);
      forall i | 0 <= i < |seen| ensures KeyOf(p.forwards[i]) != KeyOf(Parsed(s).value) {
        assert KeyOf(Parsed(all[i]).value) != KeyOf(Parsed(all[|seen|]).value);
      }
    }
    if EntryOk(s, vms) && KeyOf(Parsed(s).value) !in p.binds {
      forall i | 0 <= i < |all| ensures EntryOk(all[i], vms) {
        assert i < |seen| ==> all[i] == seen[i];
      }
      forall i, j | 0 <= i < j < |all| ensures KeyOf(Parsed(all[i]).value) != KeyOf(Parsed(all[j]).value) {
        assert all[i] == seen[i] && KeyOf(p.forwards[i]) in p.binds;
      }
    }
    if EntryOk(s, vms) {
      ReflectsStep(p, seen, s, vms);
    }
  }

  lemma ReflectsStep(p: Pass, seen: seq<Slot>, s: Slot, vms: set<string>)
    requires Reflects(p, seen) && Parsed(s).Ok?
    ensures Reflects(Take(p, s, vms), seen + [s])
  {
    var next, f := Take(p, s, vms), Parsed(s).value;
    forall k ensures k in next.binds <==> exists i :: 0 <= i < |seen + [s]| && KeyOf(next.forwards[i]) == k {
      if k in p.binds {
        var i :| 0 <= i < |seen| && KeyOf(p.forwards[i]) == k;
        assert next.forwards[i] == p.forwards[i];
      }
      assert next.forwards[|seen|] == f;
      if i :| 0 <= i < |seen + [s]| && KeyOf(next.forwards[i]) == k {
        assert i < |seen| ==> next.forwards[i] == p.forwards[i];
      }
    }
  }

  /** From a clean pass over correct slots, the rest adds no issue iff the whole is correct. */
  lemma {:induction false} NoIssueFrom(p: Pass, seen: seq<Slot>, rest: seq<Slot>, vms: set<string>)
    requires Correct(seen, vms) && Reflects(p, seen)
    ensures TakeAll(p, rest, vms).issues == p.issues <==> Correct(seen + rest, vms)
    ensures |TakeAll(p, rest, vms).issues| >= |p.issues|
    decreases rest
  {
    if rest == [] {
      assert seen + rest == seen;
    } else {
      var s := rest[0];
      assert seen + rest == seen + [s] + rest[1..];
      CorrectStep(seen, s, p, vms);
      IssuesOfTake(p, s, vms);
      if Correct(seen + [s], vms) {
        NoIssueFrom(Take(p, s, vms), seen + [s], rest[1..], vms);
      } else {
        IssuesGrow(Take(p, s, vms), rest[1..], vms);
        CorrectPrefix(seen + [s], rest[1..], vms);
      }
    }
  }

  lemma {:induction false} IssuesGrow(p: Pass, slots: seq<Slot>, vms: set<string>)
    ensures |TakeAll(p, slots, vms).issues| >= |p.issues|
    decreases slots
  {
    if slots != [] {
      IssuesOfTake(p, slots[0], vms);
      IssuesGrow(Take(p, slots[0], vms), slots[1..], vms);
    }
  }

  lemma CorrectPrefix(a: seq<Slot>, b: seq<Slot>, vms: set<string>)
    ensures Correct(a + b, vms) ==> Correct(a, vms)
  {
    if Correct(a + b, vms) {
      forall i | 0 <= i < |a| ensures EntryOk(a[i], vms) {
        assert (a + b)[i] == a[i];
      }
      forall i, j | 0 <= i < j < |a| ensures KeyOf(Parsed(a[i]).value) != KeyOf(Parsed(a[j]).value) {
        assert (a + b)[i] == a[i] && (a + b)[j] == a[j];
      }
    }
  }

  /** No issue is reported exactly for correct configurations, whatever the list structure. */
  lemma NoIssueIffCorrect(slots: seq<Slot>, vms: set<string>)
    ensures TakeAll(FRESH, slots, vms).issues == [] <==> Correct(slots, vms)
  {
    assert [] + slots == slots;
    NoIssueFrom(FRESH, [], slots, vms);
  }

  // ----- what is collected, and exactly which issues are reported -----

  /** The forwards of entries that all parse. */
  function Forwards(slots: seq<Slot>): seq<PortForward>
    requires forall i :: 0 <= i < |slots| ==> Parsed(slots[i]).Ok?
  {
    seq(|slots|, i requires 0 <= i < |slots| => Parsed(slots[i]).value)
  }

  lemma {:induction false} ForwardsCollected(p: Pass, slots: seq<Slot>, vms: set<string>)
    requires forall i :: 0 <= i < |slots| ==> Parsed(slots[i]).Ok?
    ensures TakeAll(p, slots, vms).forwards == p.forwards + Forwards(slots)
    decreases slots
  {
    if slots != [] {
      ForwardsCollected(Take(p, slots[0], vms), slots[1..], vms);
      var first := [Parsed(slots[0]).value];
      assert Forwards(slots) == first + Forwards(slots[1..]);
      Regroup(p.forwards, first, Forwards(slots[1..]));
    }
  }

  /** A correct configuration is collected entry by entry, in order. */
  lemma CorrectIsCollected(slots: seq<Slot>, vms: set<string>)
    requires Correct(slots, vms)
    ensures
      var forwards := TakeAll(FRESH, slots, vms).forwards;
      |forwards| == |slots| && forall i :: 0 <= i < |slots| ==> Parsed(slots[i]) == Ok(forwards[i])
  {
    forall i | 0 <= i < |slots| ensures Parsed(slots[i]).Ok? {
      assert EntryOk(slots[i], vms);
    }
    ForwardsCollected(FRESH, slots, vms);
    assert FRESH.forwards + Forwards(slots) == Forwards(slots);
  }

  /** The bind address and host port of an entry that parses. */
  function KeyAt(s: Slot): Option<Key> {
    if Parsed(s).Ok? then Some((Parsed(s).value.bind, Parsed(s).value.hostPort)) else None
  }

  function KeysAt(slots: seq<Slot>): (keys: seq<Option<Key>>)
    ensures |keys| == |slots|
  {
    seq(|slots|, i requires 0 <= i < |slots| => KeyAt(slots[i]))
  }

  /** `j` is the last position before `k` with this key. */
  predicate LastHolder(keys: seq<Option<Key>>, k: int, j: int, key: Key) {
    0 <= j < k <= |keys| && keys[j] == Some(key) && forall m :: j < m < k ==> keys[m] != Some(key)
  }

  ghost predicate Held(keys: seq<Option<Key>>, k: int, key: Key) { exists j :: LastHolder(keys, k, j, key) }

  ghost predicate BindsKnown(binds: map<Key, (string, nat)>, slots: seq<Slot>, keys: seq<Option<Key>>, k: nat)
    requires |keys| == |slots|
  {
    && (forall key: Key :: key in binds ==> Held(keys, k, key))
    && (forall key: Key, j: int :: LastHolder(keys, k, j, key) ==> Binds(binds, slots, key, j))
  }

  predicate Binds(binds: map<Key, (string, nat)>, slots: seq<Slot>, key: Key, j: int) {
    key in binds && 0 <= j < |slots| && binds[key] == (slots[j].owner, slots[j].index)
  }

  lemma BindsStep(binds: map<Key, (string, nat)>, slots: seq<Slot>, keys: seq<Option<Key>>, k: nat,
                  next: map<Key, (string, nat)>)
    requires |keys| == |slots| && k < |slots| && BindsKnown(binds, slots, keys, k)
    requires next == if keys[k].Some? then binds[keys[k].value := (slots[k].owner, slots[k].index)] else binds
    ensures BindsKnown(next, slots, keys, k + 1)
  {
    forall key: Key | key in next ensures Held(keys, k + 1, key) {
      if keys[k] == Some(key) {
        assert LastHolder(keys, k + 1, k, key);
      } else {
        assert key in binds;
        var j :| LastHolder(keys, k, j, key);
        assert LastHolder(keys, k + 1, j, key);
      }
    }
    forall key: Key, j: int | LastHolder(keys, k + 1, j, key) ensures Binds(next, slots, key, j) {
      if j < k {
        assert keys[k] != Some(key) && LastHolder(keys, k, j, key);
        assert Binds(binds, slots, key, j);
      }
    }
  }

  /** The problems of entry `k` of a configuration; a collision is with the last earlier entry that
      has the same bind address and host port. */
  ghost predicate HasProblem(slots: seq<Slot>, k: int, vms: set<string>, problem: Problem) {
    && 0 <= k < |slots|
    && match Parsed(slots[k])
       case Err(error) => problem == BadEntry(error)
       case Ok(f) =>
         || (problem == WildcardBind && f.bind == "0.0.0.0")
         || (problem == UnsupportedBind && f.bind != "0.0.0.0" && f.bind != "127.0.0.1")
         || (problem == UnknownVm && f.vm !in vms)
         || exists j :: LastHolder(KeysAt(slots), k, j, (f.bind, f.hostPort)) && NamesEntry(slots, j, problem)
  }

  predicate NamesEntry(slots: seq<Slot>, j: int, problem: Problem) {
    0 <= j < |slots| && problem == Collides((slots[j].owner, slots[j].index))
  }

  lemma ProblemsKnown(p: Pass, slots: seq<Slot>, k: nat, vms: set<string>, problem: Problem)
    requires k < |slots| && BindsKnown(p.binds, slots, KeysAt(slots), k)
    ensures problem in Problems(p, slots[k], vms) <==> HasProblem(slots, k, vms, problem)
  {
    if Parsed(slots[k]).Ok? {
      var key := KeyOf(Parsed(slots[k]).value);
      if key in p.binds {
        var j :| LastHolder(KeysAt(slots), k, j, key);
        assert NamesEntry(slots, j, Collides(p.binds[key]));
      }
    }
  }

  ghost predicate Reported(slots: seq<Slot>, k: int, vms: set<string>, issue: Issue) {
    HasProblem(slots, k, vms, issue.problem) && issue.owner == slots[k].owner && issue.index == slots[k].index
  }

  lemma LocatedIn(s: Slot, problems: seq<Problem>, issue: Issue)
    ensures issue in Located(s, problems)
      <==> issue.problem in problems && issue.owner == s.owner && issue.index == s.index
  {
    var located := Located(s, problems);
    if issue in located {
      var i :| 0 <= i < |located| && located[i] == issue;
      assert problems[i] == issue.problem;
    }
    if issue.problem in problems && issue.owner == s.owner && issue.index == s.index {
      var i :| 0 <= i < |problems| && problems[i] == issue.problem;
      assert located[i] == issue;
    }
  }

  lemma TakeParts(p: Pass, s: Slot, vms: set<string>)
    ensures Take(p, s, vms).issues == p.issues + Located(s, Problems(p, s, vms))
    ensures Take(p, s, vms).binds == if KeyAt(s).Some? then p.binds[KeyAt(s).value := (s.owner, s.index)] else p.binds
  {
  }

  ghost predicate ReportedBefore(slots: seq<Slot>, k: int, vms: set<string>, issue: Issue) {
    exists m :: m < k && Reported(slots, m, vms, issue)
  }

  lemma ReportedStep(slots: seq<Slot>, k: int, vms: set<string>, issue: Issue)
    ensures ReportedBefore(slots, k + 1, vms, issue)
      <==> ReportedBefore(slots, k, vms, issue) || Reported(slots, k, vms, issue)
  {
  }

  /** One entry more. */
  lemma IssuesStep(p: Pass, slots: seq<Slot>, k: nat, vms: set<string>, issue: Issue)
    requires k < |slots| && BindsKnown(p.binds, slots, KeysAt(slots), k)
    ensures BindsKnown(Take(p, slots[k], vms).binds, slots, KeysAt(slots), k + 1)
    ensures issue in Take(p, slots[k], vms).issues <==> issue in p.issues || Reported(slots, k, vms, issue)
  {
    var s := slots[k];
    TakeParts(p, s, vms);
    BindsStep(p.binds, slots, KeysAt(slots), k, Take(p, s, vms).binds);
    LocatedIn(s, Problems(p, s, vms), issue);
    ProblemsKnown(p, slots, k, vms, issue.problem);
  }

  lemma TakenAlone(p: Pass, s: Slot, vms: set<string>)
    ensures TakeAll(p, [s], vms) == Take(p, s, vms)
  {
    assert [s][1..] == [];
  }

  lemma TakenOneMore(p: Pass, slots: seq<Slot>, k: nat, vms: set<string>)
    requires 0 < k <= |slots| && p == TakeAll(FRESH, slots[..k - 1], vms)
    ensures TakeAll(FRESH, slots[..k], vms) == Take(p, slots[k - 1], vms)
  {
    assert slots[..k] == slots[..k - 1] + [slots[k - 1]];
    TakeAllAppend(FRESH, slots[..k - 1], [slots[k - 1]], vms);
    TakenAlone(p, slots[k - 1], vms);
  }

  lemma {:induction false} IssuesUpTo(slots: seq<Slot>, k: nat, vms: set<string>, issue: Issue) returns (p: Pass)
    requires k <= |slots|
    ensures p == TakeAll(FRESH, slots[..k], vms) && BindsKnown(p.binds, slots, KeysAt(slots), k)
    ensures issue in p.issues <==> ReportedBefore(slots, k, vms, issue)
    decreases k
  {
    if k == 0 {
      p := FRESH;
    } else {
      var s := slots[k - 1];
      var q := IssuesUpTo(slots, k - 1, vms, issue);
      p := Take(q, s, vms);
      TakenOneMore(q, slots, k, vms);
      IssuesStep(q, slots, k - 1, vms, issue);
      ReportedStep(slots, k - 1, vms, issue);
    }
  }

  /** Exactly the problems of the entries are reported, each at its entry. */
  lemma IssuesExactly(slots: seq<Slot>, vms: set<string>, issue: Issue)
    ensures issue in TakeAll(FRESH, slots, vms).issues <==> exists k :: Reported(slots, k, vms, issue)
  {
    var p := IssuesUpTo(slots, |slots|, vms, issue);
    assert slots[..|slots|] == slots;
    if k :| Reported(slots, k, vms, issue) {
      assert k < |slots|;
    }
  }
}
