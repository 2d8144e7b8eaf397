/**
 The validator's pass over VM attachments (`validate_references`) and `add_vm`: when a VM
 with an allocated address leaves a valid environment valid.
 */
module AddressValidation {
  import opened Wrappers
  import opened Ipv4
  import opened AddressAllocation

  datatype Problem =
    | DuplicateAttachment | NoSuchNetwork | InvalidIp | OutsideCidr | NetworkOrBroadcast | ReservedOffset
    | RouterIpRequired | Collision | DhcpNetwork

  datatype Issue = Issue(vm: string, index: nat, problem: Problem)

  type Key = (string, Address)

  // ----- what a valid environment is -----

  /** One attachment on its own: a usable host address of a static network. */
  predicate AttachmentOk(networks: Networks, a: Attachment)
    requires ValidNetworks(networks)
  {
    && a.network in networks && networks[a.network].cidr.Some? && a.ip.Some?
    && var network, cidr, ip := networks[a.network], networks[a.network].cidr.value, a.ip.value;
    && cidr.Contains(ip) && cidr.Network() + 1 < ip < cidr.Broadcast()
    && (network.backend.Docker? ==> ip == cidr.Network() + 2)
    && !network.dhcp
  }

  /** No attachment of one VM shares an address on a network with one of the other. */
  ghost predicate Apart(a: seq<Attachment>, b: seq<Attachment>) {
    forall i, j :: 0 <= i < |a| && 0 <= j < |b| ==> !(a[i].network == b[j].network && a[i].ip == b[j].ip)
  }

  /** Usable attachments, at most one per network. */
  ghost predicate VmAddressesOk(networks: Networks, attachments: seq<Attachment>)
    requires ValidNetworks(networks)
  {
    && (forall i :: 0 <= i < |attachments| ==> AttachmentOk(networks, attachments[i]))
    && (forall i, j :: 0 <= i < j < |attachments| ==> attachments[i].network != attachments[j].network)
  }

  /** Every VM's attachments are usable, and no two VMs share an address on a network. */
  ghost predicate AddressesValid(networks: Networks, vms: Vms)
    requires ValidNetworks(networks)
  {
    && (forall v :: v in vms ==> VmAddressesOk(networks, vms[v]))
    && (forall v, w :: v in vms && w in vms && v != w ==> Apart(vms[v], vms[w]))
  }

  // ----- the pass over the VMs -----

  ghost predicate Taken(taken: set<Key>, a: Attachment) { a.ip.Some? && (a.network, a.ip.value) in taken }

  ghost function KeysOf(attachments: seq<Attachment>): set<Key> {
    set i | 0 <= i < |attachments| && attachments[i].ip.Some? :: (attachments[i].network, attachments[i].ip.value)
  }

  ghost predicate VmOk(networks: Networks, attachments: seq<Attachment>, taken: set<Key>)
    requires ValidNetworks(networks)
  {
    && (forall i :: 0 <= i < |attachments| ==> AttachmentOk(networks, attachments[i]) && !Taken(taken, attachments[i]))
    && (forall i, j :: 0 <= i < j < |attachments| ==> attachments[i].network != attachments[j].network)
  }

  lemma VmOkStep(networks: Networks, front: seq<Attachment>, last: Attachment, taken: set<Key>)
    requires ValidNetworks(networks)
    ensures VmOk(networks, front + [last], taken)
      <==> VmOk(networks, front, taken) && AttachmentOk(networks, last) && !Taken(taken, last)
           && forall i :: 0 <= i < |front| ==> front[i].network != last.network
    ensures KeysOf(front + [last]) == KeysOf(front) + if last.ip.Some? then {(last.network, last.ip.value)} else {}
  {
    var all := front + [last];
    if VmOk(networks, all, taken) {
      forall i | 0 <= i < |front| ensures front[i].network != last.network
        && AttachmentOk(networks, front[i]) && !Taken(taken, front[i])
      {
        assert all[i] == front[i] && all[|front|] == last;
      }
      forall i, j | 0 <= i < j < |front| ensures front[i].network != front[j].network {
        assert all[i] == front[i] && all[j] == front[j];
      }
      assert all[|front|] == last;
    }
    forall k ensures k in KeysOf(all)
      <==> k in KeysOf(front) || (last.ip.Some? && k == (last.network, last.ip.value))
    {
      if k in KeysOf(front) {
        var i :| 0 <= i < |front| && front[i].ip.Some? && k == (front[i].network, front[i].ip.value);
        assert all[i] == front[i];
      }
      if last.ip.Some? && k == (last.network, last.ip.value) {
        assert all[|front|] == last;
      }
    }
  }

  /** The checks on a known network, in the order of the code: first match reports. */
  function AddressProblem(network: Network, cidr: Cidr, ip: Option<Address>): Option<Problem>
    requires cidr.Valid()
  {
    if ip.None? then Some(InvalidIp)
    else if !cidr.Contains(ip.value) then Some(OutsideCidr)
    else if ip.value == cidr.Network() || ip.value == cidr.Broadcast() then Some(NetworkOrBroadcast)
    else if ip.value - cidr.Network() <= 1 then Some(ReservedOffset)
    else None
  }

  /** An address on a known network that passes the checks of the address alone. */
  predicate UsableIp(networks: Networks, a: Attachment)
    requires ValidNetworks(networks)
  {
    && a.network in networks && networks[a.network].cidr.Some? && a.ip.Some?
    && var cidr, ip := networks[a.network].cidr.value, a.ip.value;
    cidr.Network() + 1 < ip < cidr.Broadcast()
  }

  /** Which problems an attachment has, when these keys are taken. */
  ghost predicate Faulty(networks: Networks, a: Attachment, taken: set<Key>, problem: Problem)
    requires ValidNetworks(networks)
  {
    if a.network !in networks || networks[a.network].cidr.None? then problem == NoSuchNetwork
    else if a.ip.None? then problem == InvalidIp
    else
      var network, cidr, ip := networks[a.network], networks[a.network].cidr.value, a.ip.value;
      match problem
      case OutsideCidr => ip < cidr.Network() || cidr.Broadcast() < ip
      case NetworkOrBroadcast => ip == cidr.Network() || ip == cidr.Broadcast()
      case ReservedOffset => ip == cidr.Network() + 1 < cidr.Broadcast()
      case RouterIpRequired => UsableIp(networks, a) && network.backend.Docker? && ip != cidr.Network() + 2
      case Collision => UsableIp(networks, a) && (a.network, ip) in taken
      case DhcpNetwork => UsableIp(networks, a) && network.dhcp
      case _ => false
  }

  /** The issues of one attachment: its problems, at its place. */
  ghost predicate ReportsAt(issues: seq<Issue>, vm: string, index: nat, networks: Networks, a: Attachment,
                            taken: set<Key>)
    requires ValidNetworks(networks)
  {
    forall issue :: issue in issues
      <==> issue.vm == vm && issue.index == index && Faulty(networks, a, taken, issue.problem)
  }

  lemma FaultlessIffOk(networks: Networks, a: Attachment, taken: set<Key>)
    requires ValidNetworks(networks)
    ensures (forall problem :: !Faulty(networks, a, taken, problem)) <==> AttachmentOk(networks, a) && !Taken(taken, a)
  {
    var network := a.network;
    if network !in networks || networks[network].cidr.None? {
      assert Faulty(networks, a, taken, NoSuchNetwork);
    } else if a.ip.None? {
      assert Faulty(networks, a, taken, InvalidIp);
    } else if forall problem :: !Faulty(networks, a, taken, problem) {
      assert !Faulty(networks, a, taken, OutsideCidr) && !Faulty(networks, a, taken, NetworkOrBroadcast);
      assert !Faulty(networks, a, taken, ReservedOffset) && UsableIp(networks, a);
      assert !Faulty(networks, a, taken, RouterIpRequired) && !Faulty(networks, a, taken, DhcpNetwork);
      assert !Faulty(networks, a, taken, Collision);
    }
  }

  /** The body of the attachment loop, without the duplicate check: exactly the problems of the
      attachment are reported, and a usable address is taken from now on. */
  method CheckAttachment(networks: Networks, vm: string, index: nat, a: Attachment, owners: map<Key, (string, nat)>)
    returns (issues: seq<Issue>, nowOwners: map<Key, (string, nat)>)
    requires ValidNetworks(networks)
    ensures ReportsAt(issues, vm, index, networks, a, owners.Keys)
    ensures nowOwners == if UsableIp(networks, a) then owners[(a.network, a.ip.value) := (vm, index)] else owners
  {
    issues, nowOwners := [], owners;
    if a.network !in networks || networks[a.network].cidr.None? {
      return [Issue(vm, index, NoSuchNetwork)], owners;
    }
    var network, cidr := networks[a.network], networks[a.network].cidr.value;
    var problem := AddressProblem(network, cidr, a.ip);
    if problem.Some? {
      return [Issue(vm, index, problem.value)], owners;
    }
    if network.backend.Docker? && a.ip.value - cidr.Network() != 2 {
      issues := issues + [Issue(vm, index, RouterIpRequired)];
    }
    var key := (a.network, a.ip.value);
    if key in owners { issues := issues + [Issue(vm, index, Collision)]; }
    nowOwners := owners[key := (vm, index)];
    if network.dhcp { issues := issues + [Issue(vm, index, DhcpNetwork)]; }
  }

  /** The keys that usable addresses take. */
  ghost function UsableKeys(networks: Networks, attachments: seq<Attachment>): set<Key>
    requires ValidNetworks(networks)
  {
    set i | 0 <= i < |attachments| && UsableIp(networks, attachments[i]) ::
      (attachments[i].network, attachments[i].ip.value)
  }

  /** Attachment `i` is the VM's second one to its network, or faulty by itself or with those before. */
  ghost predicate VmFaulty(networks: Networks, attachments: seq<Attachment>, i: int, taken: set<Key>, problem: Problem)
    requires ValidNetworks(networks)
  {
    && 0 <= i < |attachments|
    && ((problem == DuplicateAttachment && exists k :: 0 <= k < i && attachments[k].network == attachments[i].network)
        || Faulty(networks, attachments[i], taken + UsableKeys(networks, attachments[..i]), problem))
  }

  lemma UsableStep(networks: Networks, front: seq<Attachment>, a: Attachment)
    requires ValidNetworks(networks)
    ensures UsableKeys(networks, front + [a])
      == UsableKeys(networks, front) + if UsableIp(networks, a) then {(a.network, a.ip.value)} else {}
  {
    var all := front + [a];
    forall k ensures k in UsableKeys(networks, all)
      <==> k in UsableKeys(networks, front) || (UsableIp(networks, a) && k == (a.network, a.ip.value))
    {
      if k in UsableKeys(networks, front) {
        var i :| 0 <= i < |front| && UsableIp(networks, front[i]) && k == (front[i].network, front[i].ip.value);
        assert all[i] == front[i];
      }
      assert all[|front|] == a;
    }
  }

  /** One attachment more, as far as the issues go. */
  lemma FaultyStep(networks: Networks, front: seq<Attachment>, a: Attachment, taken: set<Key>, i: int, problem: Problem)
    requires ValidNetworks(networks)
    ensures VmFaulty(networks, front + [a], i, taken, problem)
      <==> VmFaulty(networks, front, i, taken, problem)
           || (i == |front|
               && ((problem == DuplicateAttachment && exists k :: 0 <= k < i && front[k].network == a.network)
                   || Faulty(networks, a, taken + UsableKeys(networks, front), problem)))
  {
    var all := front + [a];
    if 0 <= i < |front| {
      assert all[..i] == front[..i] && all[i] == front[i];
    } else if i == |front| {
      assert all[..i] == front && all[i] == a;
    }
  }

  /** What is known after the attachments of `front`. */
  ghost predicate VmReported(networks: Networks, vm: string, front: seq<Attachment>, issues: seq<Issue>,
                             taken: set<Key>, now: set<Key>)
    requires ValidNetworks(networks)
  {
    && now == taken + UsableKeys(networks, front)
    && forall issue :: issue in issues
         <==> issue.vm == vm && VmFaulty(networks, front, issue.index, taken, issue.problem)
  }

  lemma ReportedStep(networks: Networks, vm: string, front: seq<Attachment>, a: Attachment, issues: seq<Issue>,
                     taken: set<Key>, now: set<Key>, duplicate: seq<Issue>, found: seq<Issue>)
    requires ValidNetworks(networks) && VmReported(networks, vm, front, issues, taken, now)
    requires duplicate == if exists k :: 0 <= k < |front| && front[k].network == a.network
                          then [Issue(vm, |front|, DuplicateAttachment)] else []
    requires ReportsAt(found, vm, |front|, networks, a, now)
    ensures VmReported(networks, vm, front + [a], issues + duplicate + found, taken,
                       now + if UsableIp(networks, a) then {(a.network, a.ip.value)} else {})
  {
    UsableStep(networks, front, a);
    forall issue: Issue
      ensures issue in issues + duplicate + found
        <==> issue.vm == vm && VmFaulty(networks, front + [a], issue.index, taken, issue.problem)
    {
      FaultyStep(networks, front, a, taken, issue.index, issue.problem);
    }
  }

  /** The loop over the attachments of a VM: exactly their problems are reported. */
  method CheckVm(networks: Networks, vm: string, attachments: seq<Attachment>, owners: map<Key, (string, nat)>)
    returns (issues: seq<Issue>, nowOwners: map<Key, (string, nat)>)
    requires ValidNetworks(networks)
    ensures VmReported(networks, vm, attachments, issues, owners.Keys, nowOwners.Keys)
  {
    issues, nowOwners := [], owners;
    var names: set<string> := {};
    for i := 0 to |attachments|
      invariant names == set k | 0 <= k < i :: attachments[..i][k].network
      invariant VmReported(networks, vm, attachments[..i], issues, owners.Keys, nowOwners.Keys)
    {
      var a := attachments[i];
      ghost var front, before, keys := attachments[..i], issues, nowOwners.Keys;
      assert attachments[..i + 1] == front + [a];
      NamesStep(front, a, names);
      var duplicate := if a.network in names then [Issue(vm, i, DuplicateAttachment)] else [];
      names := names + {a.network};
      var found, next := CheckAttachment(networks, vm, i, a, nowOwners);
      ReportedStep(networks, vm, front, a, before, owners.Keys, keys, duplicate, found);
      issues, nowOwners := issues + duplicate + found, next;
    }
    assert attachments[..|attachments|] == attachments;
  }

  lemma {:induction false} FaultlessPrefix(networks: Networks, attachments: seq<Attachment>, taken: set<Key>)
    requires ValidNetworks(networks)
    ensures (forall i, problem :: !VmFaulty(networks, attachments, i, taken, problem))
      <==> VmOk(networks, attachments, taken)
    ensures VmOk(networks, attachments, taken) ==> UsableKeys(networks, attachments) == KeysOf(attachments)
    decreases |attachments|
  {
    if attachments != [] {
      var front, a := attachments[..|attachments| - 1], attachments[|attachments| - 1];
      assert attachments == front + [a];
      FaultlessPrefix(networks, front, taken);
      VmOkStep(networks, front, a, taken);
      UsableStep(networks, front, a);
      FaultlessStep(networks, front, a, taken);
    }
  }

  lemma FaultlessStep(networks: Networks, front: seq<Attachment>, a: Attachment, taken: set<Key>)
    requires ValidNetworks(networks)
    requires VmOk(networks, front, taken) ==> UsableKeys(networks, front) == KeysOf(front)
    requires (forall i, problem :: !VmFaulty(networks, front, i, taken, problem)) <==> VmOk(networks, front, taken)
    ensures (forall i, problem :: !VmFaulty(networks, front + [a], i, taken, problem))
      <==> VmOk(networks, front, taken) && AttachmentOk(networks, a) && !Taken(taken, a)
           && forall k :: 0 <= k < |front| ==> front[k].network != a.network
  {
    var now, n := taken + UsableKeys(networks, front), |front|;
    FaultlessIffOk(networks, a, now);
    KeyTakenByOtherNetwork(front, a, taken, now);
    forall i, problem
      ensures VmFaulty(networks, front + [a], i, taken, problem)
        <==> VmFaulty(networks, front, i, taken, problem)
             || (i == n && ((problem == DuplicateAttachment && exists k :: 0 <= k < i && front[k].network == a.network)
                            || Faulty(networks, a, now, problem)))
    {
      FaultyStep(networks, front, a, taken, i, problem);
    }
    if forall i, problem :: !VmFaulty(networks, front + [a], i, taken, problem) {
      assert !VmFaulty(networks, front + [a], n, taken, DuplicateAttachment);
      forall problem ensures !Faulty(networks, a, now, problem) {
        assert !VmFaulty(networks, front + [a], n, taken, problem);
      }
      forall i, problem ensures !VmFaulty(networks, front, i, taken, problem) {
        assert !VmFaulty(networks, front + [a], i, taken, problem);
      }
    }
  }

  lemma NamesStep(front: seq<Attachment>, a: Attachment, names: set<string>)
    requires names == set k | 0 <= k < |front| :: front[k].network
    ensures names + {a.network} == set k | 0 <= k < |front + [a]| :: (front + [a])[k].network
    ensures a.network in names <==> exists k :: 0 <= k < |front| && front[k].network == a.network
  {
    var all := front + [a];
    forall n | n in names ensures exists k :: 0 <= k < |all| && all[k].network == n {
      var k :| 0 <= k < |front| && front[k].network == n;
      assert all[k] == front[k];
    }
    assert all[|front|] == a;
  }

  /** Among distinct networks a key cannot clash within its own VM. */
  lemma KeyTakenByOtherNetwork(front: seq<Attachment>, a: Attachment, taken: set<Key>, now: set<Key>)
    ensures now == taken + KeysOf(front) && (forall k :: 0 <= k < |front| ==> front[k].network != a.network) ==>
      Taken(now, a) == Taken(taken, a)
  {
  }

  // ----- all VMs -----

  ghost predicate VmsOk(networks: Networks, vms: Vms, order: seq<string>, taken: set<Key>)
    requires ValidNetworks(networks) && forall i :: 0 <= i < |order| ==> order[i] in vms
    decreases order
  {
    order == []
    || (VmOk(networks, vms[order[0]], taken) && VmsOk(networks, vms, order[1..], taken + KeysOf(vms[order[0]])))
  }

  lemma TakenByFirst(networks: Networks, first: seq<Attachment>, other: seq<Attachment>, taken: set<Key>)
    requires ValidNetworks(networks) && VmOk(networks, first, taken)
    ensures VmOk(networks, other, taken + KeysOf(first)) <==> VmOk(networks, other, taken) && Apart(first, other)
  {
    if VmOk(networks, other, taken + KeysOf(first)) {
      forall i, j | 0 <= i < |first| && 0 <= j < |other|
        ensures !(first[i].network == other[j].network && first[i].ip == other[j].ip)
      {
        assert AttachmentOk(networks, first[i]) && !Taken(taken + KeysOf(first), other[j]);
        assert (first[i].network, first[i].ip.value) in KeysOf(first);
      }
      forall j | 0 <= j < |other| ensures !Taken(taken, other[j]) {
        assert !Taken(taken + KeysOf(first), other[j]);
      }
    }
  }

  /** The order-free reading of `VmsOk`. */
  ghost predicate PairwiseOk(networks: Networks, vms: Vms, order: seq<string>, taken: set<Key>)
    requires ValidNetworks(networks) && forall i :: 0 <= i < |order| ==> order[i] in vms
  {
    && (forall v :: v in order ==> VmOk(networks, vms[v], taken))
    && (forall i, j :: 0 <= i < j < |order| ==> Apart(vms[order[i]], vms[order[j]]))
  }

  lemma PairwiseStep(networks: Networks, vms: Vms, order: seq<string>, taken: set<Key>)
    requires ValidNetworks(networks) && (forall i :: 0 <= i < |order| ==> order[i] in vms) && order != []
    ensures PairwiseOk(networks, vms, order, taken)
      <==> VmOk(networks, vms[order[0]], taken)
           && PairwiseOk(networks, vms, order[1..], taken + KeysOf(vms[order[0]]))
  {
    var first, rest := vms[order[0]], order[1..];
    if VmOk(networks, first, taken) {
      forall v | v in rest
        ensures VmOk(networks, vms[v], taken + KeysOf(first)) <==> VmOk(networks, vms[v], taken) && Apart(first, vms[v])
      {
        TakenByFirst(networks, first, vms[v], taken);
      }
      if PairwiseOk(networks, vms, order, taken) {
        forall v | v in rest ensures VmOk(networks, vms[v], taken + KeysOf(first)) {
          var j :| 0 <= j < |rest| && rest[j] == v;
          assert order[j + 1] == v && order[0] == order[0];
          assert v in order;
        }
      }
      if PairwiseOk(networks, vms, rest, taken + KeysOf(first)) {
        forall i, j | 0 <= i < j < |order| ensures Apart(vms[order[i]], vms[order[j]]) {
          assert order[j] == rest[j - 1];
          assert i > 0 ==> order[i] == rest[i - 1];
        }
        forall v | v in order ensures VmOk(networks, vms[v], taken) {
          assert v == order[0] || v in rest;
        }
      }
    }
  }

  lemma {:induction false} VmsOkIsPairwise(networks: Networks, vms: Vms, order: seq<string>, taken: set<Key>)
    requires ValidNetworks(networks) && forall i :: 0 <= i < |order| ==> order[i] in vms
    ensures VmsOk(networks, vms, order, taken) <==> PairwiseOk(networks, vms, order, taken)
    decreases order
  {
    if order != [] {
      PairwiseStep(networks, vms, order, taken);
      VmsOkIsPairwise(networks, vms, order[1..], taken + KeysOf(vms[order[0]]));
    }
  }

  /** The pass over the VMs in any order decides the order-free property. */
  lemma PassDecidesValidity(networks: Networks, vms: Vms, order: seq<string>)
    requires ValidNetworks(networks)
    requires (forall v :: v in order <==> v in vms) && forall i, j :: 0 <= i < j < |order| ==> order[i] != order[j]
    ensures VmsOk(networks, vms, order, {}) <==> AddressesValid(networks, vms)
  {
    VmsOkIsPairwise(networks, vms, order, {});
    if PairwiseOk(networks, vms, order, {}) {
      forall v | v in vms ensures VmAddressesOk(networks, vms[v]) {
        assert VmOk(networks, vms[v], {});
      }
      forall v, w | v in vms && w in vms && v != w ensures Apart(vms[v], vms[w]) {
        var i :| 0 <= i < |order| && order[i] == v;
        var j :| 0 <= j < |order| && order[j] == w;
        assert i < j ==> Apart(vms[order[i]], vms[order[j]]);
        assert j < i ==> Apart(vms[order[j]], vms[order[i]]);
      }
    }
    if AddressesValid(networks, vms) {
      forall v | v in order ensures VmOk(networks, vms[v], {}) {
        assert VmAddressesOk(networks, vms[v]);
      }
    }
  }

  lemma EmptyIffVmOk(networks: Networks, vm: string, attachments: seq<Attachment>, issues: seq<Issue>,
                     taken: set<Key>, now: set<Key>)
    requires ValidNetworks(networks) && VmReported(networks, vm, attachments, issues, taken, now)
    ensures issues == [] <==> VmOk(networks, attachments, taken)
    ensures issues == [] ==> now == taken + KeysOf(attachments)
  {
    FaultlessPrefix(networks, attachments, taken);
    if issues == [] {
      forall i, problem ensures !VmFaulty(networks, attachments, i, taken, problem) {
        if 0 <= i {
          assert Issue(vm, i, problem) !in issues;
        }
      }
    } else {
      assert issues[0] in issues;
    }
  }

  /** The keys taken by usable addresses of these VMs. */
  ghost function TakenBefore(networks: Networks, vms: Vms, order: seq<string>): set<Key>
    requires ValidNetworks(networks) && forall i :: 0 <= i < |order| ==> order[i] in vms
  {
    if order == [] then {}
    else
      var last := |order| - 1;
      TakenBefore(networks, vms, order[..last]) + UsableKeys(networks, vms[order[last]])
  }

  /** An issue of the `n`th VM in the order of the pass. */
  ghost predicate PassFaulty(networks: Networks, vms: Vms, order: seq<string>, n: int, issue: Issue)
    requires ValidNetworks(networks) && forall i :: 0 <= i < |order| ==> order[i] in vms
  {
    && 0 <= n < |order| && issue.vm == order[n]
    && VmFaulty(networks, vms[order[n]], issue.index, TakenBefore(networks, vms, order[..n]), issue.problem)
  }

  /** What is known after the VMs of `front`. */
  ghost predicate PassReported(networks: Networks, vms: Vms, front: seq<string>, issues: seq<Issue>, now: set<Key>)
    requires ValidNetworks(networks) && forall i :: 0 <= i < |front| ==> front[i] in vms
  {
    && now == TakenBefore(networks, vms, front)
    && forall issue :: issue in issues <==> exists n :: PassFaulty(networks, vms, front, n, issue)
  }

  lemma PassStep(networks: Networks, vms: Vms, front: seq<string>, v: string, issues: seq<Issue>, now: set<Key>,
                 found: seq<Issue>, next: set<Key>)
    requires ValidNetworks(networks) && v in vms && forall i :: 0 <= i < |front| ==> front[i] in vms
    requires PassReported(networks, vms, front, issues, now) && VmReported(networks, v, vms[v], found, now, next)
    ensures PassReported(networks, vms, front + [v], issues + found, next)
  {
    var all := front + [v];
    assert all[..|front|] == front;
    forall issue: Issue
      ensures issue in issues + found <==> exists n :: PassFaulty(networks, vms, all, n, issue)
    {
      if issue in issues {
        var n :| PassFaulty(networks, vms, front, n, issue);
        assert all[..n] == front[..n] && PassFaulty(networks, vms, all, n, issue);
      }
      if issue in found {
        assert PassFaulty(networks, vms, all, |front|, issue);
      }
      if n :| PassFaulty(networks, vms, all, n, issue) {
        if n < |front| {
          assert all[..n] == front[..n] && PassFaulty(networks, vms, front, n, issue);
        }
      }
    }
  }

  /** The attachment section of `validate_references`: exactly the faults of the attachments are
      reported, in particular none exactly for valid addresses. */
  method CheckAddresses(networks: Networks, vms: Vms, order: seq<string>) returns (issues: seq<Issue>)
    requires ValidNetworks(networks)
    requires (forall v :: v in order <==> v in vms) && forall i, j :: 0 <= i < j < |order| ==> order[i] != order[j]
    ensures issues == [] <==> AddressesValid(networks, vms)
    ensures forall issue :: issue in issues <==> exists n :: PassFaulty(networks, vms, order, n, issue)
  {
    issues := [];
    var owners: map<Key, (string, nat)> := map[];
    assert owners.Keys == {} && order[0..] == order && order[..0] == [];
    for i := 0 to |order|
      invariant issues == [] ==>
        (VmsOk(networks, vms, order, {}) <==> VmsOk(networks, vms, order[i..], owners.Keys))
      invariant issues != [] ==> !VmsOk(networks, vms, order, {})
      invariant PassReported(networks, vms, order[..i], issues, owners.Keys)
    {
      assert order[i..][1..] == order[i + 1..] && order[..i + 1] == order[..i] + [order[i]];
      var found, next := CheckVm(networks, order[i], vms[order[i]], owners);
      EmptyIffVmOk(networks, order[i], vms[order[i]], found, owners.Keys, next.Keys);
      PassStep(networks, vms, order[..i], order[i], issues, owners.Keys, found, next.Keys);
      issues, owners := issues + found, next;
    }
    assert order[..|order|] == order;
    PassDecidesValidity(networks, vms, order);
  }

  // ----- adding a VM -----

  datatype AddError = VmExists | UnknownImage | NoNetworks | NetworkUnknown | NoAddress(error: AllocationError)

  class Environment {
    var networks: Networks
    var vms: Vms

    constructor (networks: Networks, vms: Vms)
      ensures this.networks == networks && this.vms == vms
    {
      this.networks, this.vms := networks, vms;
    }

    /** `add_vm`: `imageFound` is the outcome of the image lookup; without an explicit network
        the first one is taken, without an explicit address the allocator is asked. The VM is
        inserted as it is, and nothing changes when the call fails. */
    method AddVm(name: string, imageFound: bool, network: Option<string>, ip: Option<Option<Address>>,
                 vmNames: seq<string>, networkNames: seq<string>) returns (result: Result<Attachment, AddError>)
      requires ValidNetworks(networks)
      requires (forall v :: v in vmNames <==> v in vms) && forall n :: n in networkNames <==> n in networks
      modifies this`vms
      ensures result.Err? ==> vms == old(vms)
      ensures result.Ok? ==> vms == old(vms)[name := [result.value]]
      ensures name in old(vms) ==> result == Err(VmExists)
      ensures name !in old(vms) && !imageFound ==> result == Err(UnknownImage)
      ensures name !in old(vms) && imageFound ==>
        if network.None? && networkNames == [] then result == Err(NoNetworks)
        else
          var chosen := if network.Some? then network.value else networkNames[0];
          if chosen !in networks then result == Err(NetworkUnknown)
          else if ip.Some? then result == Ok(Attachment(chosen, ip.value))
          else if CanAllocate(networks, old(vms), chosen) then
            result.Ok? && result.value.network == chosen && Allocated(networks, old(vms), result.value)
          else result == Err(NoAddress(AllocationFailure(networks[chosen])))
    {
      if name in vms { return Err(VmExists); }
      if !imageFound { return Err(UnknownImage); }
      if network.None? && networkNames == [] { return Err(NoNetworks); }
      var chosen := if network.Some? then network.value else networkNames[0];
      if chosen !in networks { return Err(NetworkUnknown); }
      var address := if ip.Some? then ip.value else None;
      if ip.None? {
        var free := NextFreeIp(networks, vms, vmNames, chosen);
        if free.Err? { return Err(NoAddress(free.error)); }
        address := Some(free.value);
      }
      vms := vms[name := [Attachment(chosen, address)]];
      result := Ok(Attachment(chosen, address));
    }
  }

  /** What `next_free_ip` promises about an address it returned. */
  ghost predicate Allocated(networks: Networks, vms: Vms, a: Attachment)
    requires ValidNetworks(networks)
  {
    && a.network in networks && networks[a.network].cidr.Some? && a.ip.Some?
    && var cidr, used := networks[a.network].cidr.value, Used(vms, a.network);
    if networks[a.network].backend.Docker? then OffsetIp(cidr, 2) == Ok(a.ip.value) && a.ip.value !in used
    else LeastFree(cidr, used, a.ip.value)
  }

  /** When the new VM's address passes the validator: the network is static and the allocator
      neither was left with the broadcast address nor ran past the address space. */
  ghost predicate Assignable(networks: Networks, vms: Vms, network: string)
    requires ValidNetworks(networks) && network in networks && networks[network].cidr.Some?
  {
    var n, cidr := networks[network], networks[network].cidr.value;
    && !n.dhcp
    && if n.backend.Docker? then cidr.Network() + 2 < 0x1_0000_0000
       else !(25 <= cidr.prefix <= 28 && OnlyBroadcastLeft(cidr, Used(vms, network)))
  }

  lemma AllocatedIsUsable(networks: Networks, vms: Vms, a: Attachment)
    requires ValidNetworks(networks) && Allocated(networks, vms, a)
    ensures AttachmentOk(networks, a) <==> Assignable(networks, vms, a.network)
  {
    var cidr := networks[a.network].cidr.value;
    BroadcastAllocatedIff(cidr, Used(vms, a.network));
    if networks[a.network].backend.Docker? { DockerOffset(cidr); }
  }

  /** Offset 2 either lies strictly inside the block or its sum wrapped around. */
  lemma DockerOffset(cidr: Cidr)
    requires cidr.Valid() && OffsetIp(cidr, 2).Ok?
    ensures
      if cidr.Network() + 2 < 0x1_0000_0000 then OffsetIp(cidr, 2).value == cidr.Network() + 2 < cidr.Broadcast()
      else OffsetIp(cidr, 2).value < cidr.Network()
  {
    SmallBlocks();
    if cidr.prefix < 30 {
      Pow2Sum(2, 30 - cidr.prefix);
    }
  }

  /** Adding a VM with an allocated address keeps the addresses of an environment valid exactly
      when the network is assignable. */
  lemma AddVmKeepsValidIff(networks: Networks, vms: Vms, name: string, a: Attachment)
    requires ValidNetworks(networks) && AddressesValid(networks, vms) && name !in vms
    requires Allocated(networks, vms, a)
    ensures AddressesValid(networks, vms[name := [a]]) <==> Assignable(networks, vms, a.network)
  {
    AllocatedIsUsable(networks, vms, a);
    var after := vms[name := [a]];
    if AttachmentOk(networks, a) {
      forall v | v in vms ensures Apart(vms[v], [a]) && Apart([a], vms[v]) {
        NewAddressIsApart(networks, vms, v, a);
      }
      assert VmAddressesOk(networks, after[name]);
    } else {
      assert !VmAddressesOk(networks, after[name]) by { assert after[name][0] == a; }
    }
  }

  lemma NewAddressIsApart(networks: Networks, vms: Vms, v: string, a: Attachment)
    requires ValidNetworks(networks) && Allocated(networks, vms, a) && v in vms
    ensures Apart(vms[v], [a]) && Apart([a], vms[v])
  {
    forall i | 0 <= i < |vms[v]| && vms[v][i].ip.Some? ensures vms[v][i].ip.value in Used(vms, vms[v][i].network) {
      UsedHolds(vms, vms[v][i].network, vms[v][i].ip.value);
      assert Holds(vms, v, i, vms[v][i].network, vms[v][i].ip.value);
    }
  }

  /** In particular: vmnet networks up to /24 with DHCP off are always assignable. */
  lemma WideVmnetIsAssignable(networks: Networks, vms: Vms, network: string)
    requires ValidNetworks(networks) && network in networks && networks[network].cidr.Some?
    requires networks[network].backend.Vmnet? && !networks[network].dhcp && networks[network].cidr.value.prefix <= 24
    ensures Assignable(networks, vms, network)
  {
  }
}
