/**
 The K3s cluster checks (`validate` in kubernetes.rs): VM roles, CIDR overlap, and one /24 of
 the pod CIDR for every node. Manifest files are not part of this model.
 */
module KubernetesClusters {
  import opened Wrappers
  import opened Ipv4
  import opened Counting
  import AddressAllocation

  type Networks = AddressAllocation.Networks

  datatype Cluster = Cluster(
    name: string, defaultNamespace: string, server: string, agents: seq<string>, network: string,
    podCidr: Option<Cidr>, serviceCidr: Option<Cidr>)
  {
    function Nodes(): (nodes: seq<string>) { [server] + agents }
  }

  /** Networks every VM is attached to. */
  type Vms = map<string, seq<string>>

  datatype Field = Whole | NamespaceField | NetworkField | PodCidr | ServiceCidr

  datatype Problem =
    | NotADnsLabel | UnknownNetwork | DockerNetwork | UsedTwice(vm: string) | UnknownVm(vm: string)
    | NotAttached(vm: string) | TooFewSubnets | OverlapsNetwork(name: string) | OverlapsCluster(at: nat) | NotCanonical

  datatype Issue = Issue(cluster: string, field: Field, problem: Problem)

  // ----- overlap -----

  /** The code's test: one block contains the other's network address. */
  predicate Overlap(a: Cidr, b: Cidr)
    requires a.Valid() && b.Valid()
  {
    a.Contains(b.Network()) || b.Contains(a.Network())
  }

  ghost predicate Disjoint(a: Cidr, b: Cidr)
    requires a.Valid() && b.Valid()
  {
    forall x: Address :: !(a.Contains(x) && b.Contains(x))
  }

  /** Two blocks share an address if and only if one contains the other's network address. */
  lemma OverlapIffShared(a: Cidr, b: Cidr)
    requires a.Valid() && b.Valid()
    ensures Overlap(a, b) <==> !Disjoint(a, b)
  {
    if a.Contains(b.Network()) {
      assert a.Contains(b.Network()) && b.Contains(b.Network());
    }
    if b.Contains(a.Network()) {
      assert a.Contains(a.Network()) && b.Contains(a.Network());
    }
  }

  // ----- one /24 per node -----

  /** Distinct nodes get distinct /24 networks, all inside the pod CIDR. */
  ghost predicate SubnetAssignment(pod: Cidr, nodes: nat, subnet: seq<Cidr>) {
    && pod.Valid() && |subnet| == nodes
    && (forall i :: 0 <= i < nodes ==> Subnet(pod, subnet[i]))
    && (forall i, j :: 0 <= i < j < nodes ==> subnet[i] != subnet[j])
  }

  ghost predicate Subnet(pod: Cidr, s: Cidr)
    requires pod.Valid()
  {
    s.prefix == 24 && s.Canonical() && forall x: Address :: s.Contains(x) ==> pod.Contains(x)
  }

  lemma PodSize(pod: Cidr)
    requires pod.prefix <= 24
    ensures pod.Size() == Pow2(24 - pod.prefix) * 256
  {
    Pow2Values();
    Pow2Sum(24 - pod.prefix, 8);
  }

  /** Subnets as ranges of addresses. */
  lemma SubnetRange(pod: Cidr, s: Cidr)
    requires pod.Valid() && pod.Canonical() && s.prefix == 24 && s.Canonical()
    ensures Subnet(pod, s) <==> pod.addr <= s.addr && s.addr + 256 <= pod.addr + pod.Size()
  {
    Pow2Values();
    BlockFits(s);
    assert s.Size() == 256 && s.Network() == s.addr && pod.Network() == pod.addr;
    assert s.Contains(s.addr) && s.Contains(s.addr + 255);
  }

  lemma IndexOfMultiple(start: nat, x: nat, k: nat) returns (i: nat)
    requires start % 256 == 0 && x % 256 == 0 && start <= x && x + 256 <= start + k * 256
    ensures i < k && x == start + 256 * i
  {
    i := (x - start) / 256;
  }

  lemma MultipleInside(start: nat, i: nat, k: nat)
    requires start % 256 == 0 && i < k
    ensures (start + 256 * i) % 256 == 0 && start + 256 * i + 256 <= start + k * 256
  {
  }

  lemma SubnetIndex(pod: Cidr, s: Cidr) returns (i: nat)
    requires pod.Valid() && pod.prefix <= 24 && pod.Canonical() && Subnet(pod, s)
    ensures i < Pow2(24 - pod.prefix) && s.addr == pod.addr + 256 * i
  {
    PodSize(pod);
    PodAligned(pod);
    SubnetRange(pod, s);
    AlignedTo256(s);
    i := IndexOfMultiple(pod.addr, s.addr, Pow2(24 - pod.prefix));
  }

  lemma AlignedTo256(s: Cidr)
    requires s.prefix == 24
    ensures s.Canonical() <==> s.addr % 256 == 0
  {
    Pow2Values();
  }

  lemma PodAligned(pod: Cidr)
    requires pod.prefix <= 24 && pod.Canonical()
    ensures pod.addr % 256 == 0
  {
    PodSize(pod);
    MultipleOfPart(pod.addr, Pow2(24 - pod.prefix), 256);
  }

  lemma SubnetAt(pod: Cidr, i: nat)
    requires pod.prefix <= 24 && pod.Canonical() && i < Pow2(24 - pod.prefix)
    ensures pod.addr + 256 * i < 0x1_0000_0000 && Subnet(pod, Cidr(pod.addr + 256 * i, 24))
  {
    PodSize(pod);
    PodAligned(pod);
    BlockFits(pod);
    MultipleInside(pod.addr, i, Pow2(24 - pod.prefix));
    var s := Cidr(pod.addr + 256 * i, 24);
    AlignedTo256(s);
    SubnetRange(pod, s);
  }

  /** The check `nodes <= 1 << (24 - prefix)` decides whether nodes can get a /24 each. */
  lemma EnoughSubnetsIffAssignable(pod: Cidr, nodes: nat)
    requires pod.prefix <= 24 && pod.Canonical()
    ensures nodes <= Pow2(24 - pod.prefix) <==> exists subnet :: SubnetAssignment(pod, nodes, subnet)
  {
    if nodes <= Pow2(24 - pod.prefix) {
      var subnet := AssignSubnets(pod, nodes);
    }
    if subnet :| SubnetAssignment(pod, nodes, subnet) {
      SubnetsAreFew(pod, nodes, subnet);
    }
  }

  lemma AssignSubnets(pod: Cidr, nodes: nat) returns (subnet: seq<Cidr>)
    requires pod.prefix <= 24 && pod.Canonical() && nodes <= Pow2(24 - pod.prefix)
    ensures SubnetAssignment(pod, nodes, subnet)
    ensures forall i :: 0 <= i < nodes ==> subnet[i].addr == pod.addr + 256 * i
    decreases nodes
  {
    if nodes == 0 {
      subnet := [];
    } else {
      subnet := AssignSubnets(pod, nodes - 1);
      SubnetAt(pod, nodes - 1);
      subnet := subnet + [Cidr(pod.addr + 256 * (nodes - 1), 24)];
    }
  }

  lemma SubnetsAreFew(pod: Cidr, nodes: nat, subnet: seq<Cidr>)
    requires pod.prefix <= 24 && pod.Canonical() && SubnetAssignment(pod, nodes, subnet)
    ensures nodes <= Pow2(24 - pod.prefix)
  {
    var index := SubnetIndices(pod, nodes, subnet);
    forall i, j | 0 <= i < j < nodes ensures index[i] != index[j] {
      assert subnet[i] != subnet[j];
    }
    InjectiveCount(nodes, i => if 0 <= i < nodes then index[i] else 0, Pow2(24 - pod.prefix));
  }

  lemma {:induction false} SubnetIndices(pod: Cidr, nodes: nat, subnet: seq<Cidr>) returns (index: seq<nat>)
    requires pod.Valid() && pod.prefix <= 24 && pod.Canonical() && |subnet| == nodes
    requires forall i :: 0 <= i < nodes ==> Subnet(pod, subnet[i])
    ensures |index| == nodes
    ensures forall i :: 0 <= i < nodes ==>
      && index[i] < Pow2(24 - pod.prefix) && subnet[i] == Cidr(subnet[i].addr, 24)
      && subnet[i].addr == pod.addr + 256 * index[i]
    decreases nodes
  {
    if nodes == 0 {
      index := [];
    } else {
      index := SubnetIndices(pod, nodes - 1, subnet[..nodes - 1]);
      assert forall i :: 0 <= i < nodes - 1 ==> subnet[..nodes - 1][i] == subnet[i];
      var last := SubnetIndex(pod, subnet[nodes - 1]);
      index := index + [last];
    }
  }

  // ----- what valid clusters are -----

  predicate LabelChar(c: char) { 'a' <= c <= 'z' || '0' <= c <= '9' || c == '-' }

  predicate DnsLabel(s: string) {
    0 < |s| <= 63 && (forall i :: 0 <= i < |s| ==> LabelChar(s[i])) && s[0] != '-' && s[|s| - 1] != '-'
  }

  predicate LetterOrDigit(c: char) { 'a' <= c <= 'z' || '0' <= c <= '9' }

  /** A letter or digit, then letters, digits and hyphens, then a letter or digit. */
  predicate Shape(s: string, first: char, middle: string, last: char) {
    && s == [first] + middle + [last] && LetterOrDigit(first) && LetterOrDigit(last)
    && forall i :: 0 <= i < |middle| ==> LetterOrDigit(middle[i]) || middle[i] == '-'
  }

  /** The grammar of labels (section 2.3.1 of RFC 1035, a digit as the first character allowed by
      section 2.1 of RFC 1123). */
  ghost predicate LabelGrammar(s: string) {
    (|s| == 1 && LetterOrDigit(s[0])) || exists first, middle, last :: Shape(s, first, middle, last)
  }

  lemma ShapeIsLabel(s: string, first: char, middle: string, last: char)
    requires Shape(s, first, middle, last) && |s| <= 63
    ensures DnsLabel(s)
  {
    var n := |s| - 1;
    assert s[0] == first && s[n] == last && s[1..n] == middle;
    forall i | 0 <= i < |s| ensures LabelChar(s[i]) {
      if 0 < i < n {
        assert s[i] == s[1..n][i - 1];
      }
    }
  }

  lemma LabelHasShape(s: string)
    requires DnsLabel(s) && |s| > 1
    ensures Shape(s, s[0], s[1..|s| - 1], s[|s| - 1])
  {
    var n := |s| - 1;
    assert LabelChar(s[0]) && LabelChar(s[n]);
    assert s == [s[0]] + s[1..n] + [s[n]];
  }

  lemma LabelIffGrammar(s: string)
    ensures DnsLabel(s) <==> |s| <= 63 && LabelGrammar(s)
  {
    if DnsLabel(s) && |s| > 1 {
      LabelHasShape(s);
    }
    if DnsLabel(s) && |s| == 1 {
      assert LabelChar(s[0]);
    }
    if |s| <= 63 && exists first, middle, last :: Shape(s, first, middle, last) {
      var first, middle, last :| Shape(s, first, middle, last);
      ShapeIsLabel(s, first, middle, last);
    }
  }

  predicate NodeOk(vms: Vms, network: string, node: string) {
    DnsLabel(node) && node in vms && network in vms[node]
  }

  predicate CanonicalWithin(cidr: Option<Cidr>, maxPrefix: nat) {
    cidr.Some? && cidr.value.Valid() && cidr.value.Canonical() && 8 <= cidr.value.prefix <= maxPrefix
  }

  /** A text that parses, to a block of the allowed size written with its lowest address. */
  lemma CanonicalWithinIff(cidr: Option<Cidr>, maxPrefix: nat)
    requires maxPrefix <= 32
    ensures CanonicalWithin(cidr, maxPrefix)
      <==> && cidr.Some? && 8 <= cidr.value.prefix <= maxPrefix
           && forall x: Address :: cidr.value.Contains(x) ==> cidr.value.addr <= x
  {
    if cidr.Some? && cidr.value.Valid() {
      CanonicalIffLowest(cidr.value);
    }
  }

  ghost predicate OffNetworks(networks: Networks, cidr: Cidr)
    requires AddressAllocation.ValidNetworks(networks) && cidr.Valid()
  {
    forall n :: n in networks && networks[n].cidr.Some? ==> Disjoint(cidr, networks[n].cidr.value)
  }

  /** What concerns one cluster alone. */
  ghost predicate ClusterOk(networks: Networks, vms: Vms, c: Cluster)
    requires AddressAllocation.ValidNetworks(networks)
  {
    && DnsLabel(c.name) && DnsLabel(c.defaultNamespace)
    && c.network in networks && !networks[c.network].backend.Docker?
    && (forall node :: node in c.Nodes() ==> NodeOk(vms, c.network, node))
    && CanonicalWithin(c.podCidr, 24) && CanonicalWithin(c.serviceCidr, 28)
    && OffNetworks(networks, c.podCidr.value) && OffNetworks(networks, c.serviceCidr.value)
    && (exists subnet :: SubnetAssignment(c.podCidr.value, |c.Nodes()|, subnet))
  }

  function AllNodes(clusters: seq<Cluster>): seq<string> {
    if clusters == [] then [] else AllNodes(clusters[..|clusters| - 1]) + clusters[|clusters| - 1].Nodes()
  }

  function AllCidrs(clusters: seq<Cluster>): seq<Cidr>
    requires forall i :: 0 <= i < |clusters| ==> clusters[i].podCidr.Some? && clusters[i].serviceCidr.Some?
  {
    if clusters == [] then []
    else
      var last := clusters[|clusters| - 1];
      AllCidrs(clusters[..|clusters| - 1]) + [last.podCidr.value, last.serviceCidr.value]
  }

  predicate Distinct(nodes: seq<string>) { forall i, j :: 0 <= i < j < |nodes| ==> nodes[i] != nodes[j] }

  ghost predicate PairwiseDisjoint(cidrs: seq<Cidr>) {
    && (forall i :: 0 <= i < |cidrs| ==> cidrs[i].Valid())
    && (forall i, j :: 0 <= i < j < |cidrs| ==> Disjoint(cidrs[i], cidrs[j]))
  }

  /** All clusters are fine by themselves, no VM serves twice, and all pod and service CIDRs of
      all clusters are pairwise disjoint. */
  ghost predicate ClustersValid(networks: Networks, vms: Vms, clusters: seq<Cluster>)
    requires AddressAllocation.ValidNetworks(networks)
  {
    && (forall i :: 0 <= i < |clusters| ==> ClusterOk(networks, vms, clusters[i]))
    && Distinct(AllNodes(clusters)) && PairwiseDisjoint(AllCidrs(clusters))
  }

  // ----- the pass -----

  lemma DistinctAppend(front: seq<string>, last: string)
    ensures Distinct(front + [last]) <==> Distinct(front) && last !in front
  {
    var all := front + [last];
    if Distinct(all) {
      forall i | 0 <= i < |front| ensures front[i] != last {
        assert all[i] == front[i] && all[|front|] == last;
      }
      forall i, j | 0 <= i < j < |front| ensures front[i] != front[j] {
        assert all[i] == front[i] && all[j] == front[j];
      }
    }
  }

  /** An issue of node `k` of a cluster, after these nodes of earlier clusters. */
  predicate NodeFault(c: Cluster, vms: Vms, earlier: seq<string>, k: int, issue: Issue) {
    && 0 <= k < |c.Nodes()| && issue.cluster == c.name
    && var node := c.Nodes()[k];
    || (issue.field == Whole && issue.problem == NotADnsLabel && !DnsLabel(node))
    || (issue.field == Whole && issue.problem == UsedTwice(node) && node in earlier + c.Nodes()[..k])
    || (issue.field == Whole && issue.problem == UnknownVm(node) && node !in vms)
    || (issue.field == NetworkField && issue.problem == NotAttached(node) && node in vms && c.network !in vms[node])
  }

  ghost predicate NodesReported(c: Cluster, vms: Vms, earlier: seq<string>, n: nat, issues: seq<Issue>) {
    forall issue :: issue in issues <==> exists k :: k < n && NodeFault(c, vms, earlier, k, issue)
  }

  lemma NodesStep(c: Cluster, vms: Vms, earlier: seq<string>, n: nat, before: seq<Issue>, after: seq<Issue>)
    requires NodesReported(c, vms, earlier, n, before)
    requires forall issue :: issue in after <==> issue in before || NodeFault(c, vms, earlier, n, issue)
    ensures NodesReported(c, vms, earlier, n + 1, after)
  {
    forall issue: Issue ensures issue in after <==> exists k :: k < n + 1 && NodeFault(c, vms, earlier, k, issue) {
      if NodeFault(c, vms, earlier, n, issue) {
        assert issue in after;
      }
      if k :| k < n + 1 && NodeFault(c, vms, earlier, k, issue) {
        assert k < n ==> issue in before;
      }
    }
  }

  /** The loop over server and agents; `used` holds the nodes of earlier clusters. */
  method CheckNodes(c: Cluster, vms: Vms, used: set<string>, ghost earlier: seq<string>)
    returns (issues: seq<Issue>, nowUsed: set<string>)
    requires used == set v | v in earlier
    ensures Distinct(earlier) ==> (issues == [] <==>
      (forall node :: node in c.Nodes() ==> NodeOk(vms, c.network, node)) && Distinct(earlier + c.Nodes()))
    ensures nowUsed == set v | v in earlier + c.Nodes()
    ensures NodesReported(c, vms, earlier, |c.Nodes()|, issues)
  {
    issues, nowUsed := [], used;
    var nodes := c.Nodes();
    assert earlier + nodes[..0] == earlier;
    for i := 0 to |nodes|
      invariant nowUsed == set v | v in earlier + nodes[..i]
      invariant Distinct(earlier) ==> (issues == [] <==>
        (forall k :: 0 <= k < i ==> NodeOk(vms, c.network, nodes[k])) && Distinct(earlier + nodes[..i]))
      invariant NodesReported(c, vms, earlier, i, issues)
    {
      ghost var before := issues;
      var node := nodes[i];
      assert earlier + nodes[..i + 1] == (earlier + nodes[..i]) + [node];
      DistinctAppend(earlier + nodes[..i], node);
      if !DnsLabel(node) { issues := issues + [Issue(c.name, Whole, NotADnsLabel)]; }
      if node in nowUsed { issues := issues + [Issue(c.name, Whole, UsedTwice(node))]; }
      nowUsed := nowUsed + {node};
      if node !in vms {
        issues := issues + [Issue(c.name, Whole, UnknownVm(node))];
      } else if c.network !in vms[node] {
        issues := issues + [Issue(c.name, NetworkField, NotAttached(node))];
      }
      NodesStep(c, vms, earlier, i, before, issues);
    }
    assert nodes[..|nodes|] == nodes;
  }

  ghost predicate NetworkFault(name: string, field: Field, cidr: Cidr, networks: Networks, n: string, issue: Issue)
    requires AddressAllocation.ValidNetworks(networks) && cidr.Valid()
  {
    && n in networks && networks[n].cidr.Some? && !Disjoint(cidr, networks[n].cidr.value)
    && issue == Issue(name, field, OverlapsNetwork(n))
  }

  ghost predicate ClusterOverlap(name: string, field: Field, cidr: Cidr, known: seq<Cidr>, k: int, issue: Issue)
    requires cidr.Valid() && forall i :: 0 <= i < |known| ==> known[i].Valid()
  {
    0 <= k < |known| && !Disjoint(known[k], cidr) && issue == Issue(name, field, OverlapsCluster(k))
  }

  ghost predicate NetworksReported(name: string, field: Field, cidr: Cidr, networks: Networks, names: seq<string>,
                                   issues: seq<Issue>)
    requires AddressAllocation.ValidNetworks(networks) && cidr.Valid()
  {
    forall issue :: issue in issues <==> exists n :: n in names && NetworkFault(name, field, cidr, networks, n, issue)
  }

  ghost predicate ClustersReported(name: string, field: Field, cidr: Cidr, known: seq<Cidr>, n: nat, issues: seq<Issue>)
    requires cidr.Valid() && forall i :: 0 <= i < |known| ==> known[i].Valid()
  {
    forall issue :: issue in issues <==> exists k :: k < n && ClusterOverlap(name, field, cidr, known, k, issue)
  }

  lemma NetworksStep(name: string, field: Field, cidr: Cidr, networks: Networks, names: seq<string>, n: string,
                     before: seq<Issue>, after: seq<Issue>)
    requires AddressAllocation.ValidNetworks(networks) && cidr.Valid()
    requires NetworksReported(name, field, cidr, networks, names, before)
    requires forall issue ::
      issue in after <==> issue in before || NetworkFault(name, field, cidr, networks, n, issue)
    ensures NetworksReported(name, field, cidr, networks, names + [n], after)
  {
    forall issue: Issue
      ensures issue in after <==> exists m :: m in names + [n] && NetworkFault(name, field, cidr, networks, m, issue)
    {
      if NetworkFault(name, field, cidr, networks, n, issue) {
        assert issue in after && n in names + [n];
      }
      if issue in before {
        var m :| m in names && NetworkFault(name, field, cidr, networks, m, issue);
        assert m in names + [n];
      }
      if m :| m in names + [n] && NetworkFault(name, field, cidr, networks, m, issue) {
        assert m in names ==> issue in before;
      }
    }
  }

  lemma ClustersStep(name: string, field: Field, cidr: Cidr, known: seq<Cidr>, n: nat,
                     before: seq<Issue>, after: seq<Issue>)
    requires cidr.Valid() && forall i :: 0 <= i < |known| ==> known[i].Valid()
    requires ClustersReported(name, field, cidr, known, n, before)
    requires forall issue :: issue in after <==> issue in before || ClusterOverlap(name, field, cidr, known, n, issue)
    ensures ClustersReported(name, field, cidr, known, n + 1, after)
  {
    forall issue: Issue
      ensures issue in after <==> exists k :: k < n + 1 && ClusterOverlap(name, field, cidr, known, k, issue)
    {
      if ClusterOverlap(name, field, cidr, known, n, issue) {
        assert issue in after;
      }
      if k :| k < n + 1 && ClusterOverlap(name, field, cidr, known, k, issue) {
        assert k < n ==> issue in before;
      }
    }
  }

  method CheckAgainstNetworks(name: string, field: Field, cidr: Cidr, networks: Networks, networkNames: seq<string>)
    returns (issues: seq<Issue>)
    requires AddressAllocation.ValidNetworks(networks) && cidr.Valid()
    requires forall n :: n in networkNames <==> n in networks
    ensures issues == [] <==> OffNetworks(networks, cidr)
    ensures NetworksReported(name, field, cidr, networks, networkNames, issues)
  {
    issues := [];
    for i := 0 to |networkNames|
      invariant NetworksReported(name, field, cidr, networks, networkNames[..i], issues)
      invariant issues == [] <==> forall k :: 0 <= k < i && networks[networkNames[k]].cidr.Some? ==>
        Disjoint(cidr, networks[networkNames[k]].cidr.value)
    {
      var network := networks[networkNames[i]];
      ghost var before := issues;
      assert networkNames[..i + 1] == networkNames[..i] + [networkNames[i]];
      if network.cidr.Some? {
        OverlapIffShared(cidr, network.cidr.value);
        if Overlap(cidr, network.cidr.value) {
          issues := issues + [Issue(name, field, OverlapsNetwork(networkNames[i]))];
        }
      }
      NetworksStep(name, field, cidr, networks, networkNames[..i], networkNames[i], before, issues);
    }
    assert networkNames[..|networkNames|] == networkNames;
    if issues == [] {
      forall n | n in networks && networks[n].cidr.Some? ensures Disjoint(cidr, networks[n].cidr.value) {
        assert n in networkNames;
      }
    }
  }

  method CheckAgainstClusters(name: string, field: Field, cidr: Cidr, known: seq<Cidr>) returns (issues: seq<Issue>)
    requires cidr.Valid() && forall i :: 0 <= i < |known| ==> known[i].Valid()
    ensures issues == [] <==> forall i :: 0 <= i < |known| ==> Disjoint(known[i], cidr)
    ensures ClustersReported(name, field, cidr, known, |known|, issues)
  {
    issues := [];
    for i := 0 to |known|
      invariant ClustersReported(name, field, cidr, known, i, issues)
      invariant issues == [] <==> forall k :: 0 <= k < i ==> Disjoint(known[k], cidr)
    {
      OverlapIffShared(known[i], cidr);
      ghost var before := issues;
      if cidr.Contains(known[i].Network()) || known[i].Contains(cidr.Network()) {
        issues := issues + [Issue(name, field, OverlapsCluster(i))];
      }
      ClustersStep(name, field, cidr, known, i, before, issues);
    }
  }

  /** An issue of a CIDR field, after these blocks of earlier fields. */
  ghost predicate CidrFault(c: Cluster, field: Field, value: Option<Cidr>, networks: Networks, known: seq<Cidr>,
                            issue: Issue)
    requires AddressAllocation.ValidNetworks(networks) && forall i :: 0 <= i < |known| ==> known[i].Valid()
  {
    if !CanonicalWithin(value, if field == PodCidr then 24 else 28) then issue == Issue(c.name, field, NotCanonical)
    else
      || (field == PodCidr && |c.Nodes()| > Pow2(24 - value.value.prefix)
          && issue == Issue(c.name, field, TooFewSubnets))
      || (exists n :: NetworkFault(c.name, field, value.value, networks, n, issue))
      || exists k :: ClusterOverlap(c.name, field, value.value, known, k, issue)
  }

  /** The blocks known after a field: only canonical ones are remembered. */
  function Remembered(field: Field, value: Option<Cidr>, known: seq<Cidr>): seq<Cidr> {
    if CanonicalWithin(value, if field == PodCidr then 24 else 28) then known + [value.value] else known
  }

  /** One turn of the loop over the two CIDR fields of a cluster. */
  method CheckCidr(c: Cluster, field: Field, value: Option<Cidr>, networks: Networks, networkNames: seq<string>,
                   known: seq<Cidr>)
    returns (issues: seq<Issue>, nowKnown: seq<Cidr>)
    requires field == PodCidr || field == ServiceCidr
    requires AddressAllocation.ValidNetworks(networks) && forall n :: n in networkNames <==> n in networks
    requires forall i :: 0 <= i < |known| ==> known[i].Valid()
    ensures issues == [] <==>
      && CanonicalWithin(value, if field == PodCidr then 24 else 28) && OffNetworks(networks, value.value)
      && (field == PodCidr ==> |c.Nodes()| <= Pow2(24 - value.value.prefix))
      && forall i :: 0 <= i < |known| ==> Disjoint(known[i], value.value)
    ensures nowKnown == Remembered(field, value, known)
    ensures forall i :: 0 <= i < |nowKnown| ==> nowKnown[i].Valid()
    ensures forall issue :: issue in issues <==> CidrFault(c, field, value, networks, known, issue)
  {
    var maxPrefix := if field == PodCidr then 24 else 28;
    if !CanonicalWithin(value, maxPrefix) {
      return [Issue(c.name, field, NotCanonical)], known;
    }
    var cidr := value.value;
    issues := [];
    if field == PodCidr && |c.agents| + 1 > Pow2(24 - cidr.prefix) {
      issues := [Issue(c.name, field, TooFewSubnets)];
    }
    var onNetworks := CheckAgainstNetworks(c.name, field, cidr, networks, networkNames);
    var onClusters := CheckAgainstClusters(c.name, field, cidr, known);
    CidrIssues(c, field, value, networks, networkNames, known, issues, onNetworks, onClusters);
    issues, nowKnown := issues + onNetworks + onClusters, known + [cidr];
  }

  lemma CidrIssues(c: Cluster, field: Field, value: Option<Cidr>, networks: Networks, networkNames: seq<string>,
                   known: seq<Cidr>, few: seq<Issue>, onNetworks: seq<Issue>, onClusters: seq<Issue>)
    requires AddressAllocation.ValidNetworks(networks) && forall n :: n in networkNames <==> n in networks
    requires forall i :: 0 <= i < |known| ==> known[i].Valid()
    requires CanonicalWithin(value, if field == PodCidr then 24 else 28)
    requires few == if field == PodCidr && |c.Nodes()| > Pow2(24 - value.value.prefix)
                    then [Issue(c.name, field, TooFewSubnets)] else []
    requires NetworksReported(c.name, field, value.value, networks, networkNames, onNetworks)
    requires ClustersReported(c.name, field, value.value, known, |known|, onClusters)
    ensures forall issue ::
      issue in few + onNetworks + onClusters <==> CidrFault(c, field, value, networks, known, issue)
  {
    forall issue: Issue
      ensures issue in few + onNetworks + onClusters <==> CidrFault(c, field, value, networks, known, issue)
    {
      if n :| NetworkFault(c.name, field, value.value, networks, n, issue) {
        assert n in networkNames;
      }
      if k :| ClusterOverlap(c.name, field, value.value, known, k, issue) {
        assert k < |known|;
      }
    }
  }

  /** An issue of a cluster, after these nodes and blocks of earlier clusters. */
  ghost predicate ClusterFault(c: Cluster, networks: Networks, vms: Vms, earlier: seq<string>, known: seq<Cidr>,
                               issue: Issue)
    requires AddressAllocation.ValidNetworks(networks) && forall i :: 0 <= i < |known| ==> known[i].Valid()
  {
    || (!DnsLabel(c.name) && issue == Issue(c.name, Whole, NotADnsLabel))
    || (!DnsLabel(c.defaultNamespace) && issue == Issue(c.name, NamespaceField, NotADnsLabel))
    || (c.network !in networks && issue == Issue(c.name, NetworkField, UnknownNetwork))
    || (c.network in networks && networks[c.network].backend.Docker?
        && issue == Issue(c.name, NetworkField, DockerNetwork))
    || (exists k :: NodeFault(c, vms, earlier, k, issue))
    || CidrFault(c, PodCidr, c.podCidr, networks, known, issue)
    || CidrFault(c, ServiceCidr, c.serviceCidr, networks, Remembered(PodCidr, c.podCidr, known), issue)
  }

  lemma PairwiseAppend(known: seq<Cidr>, pod: Cidr, service: Cidr)
    requires PairwiseDisjoint(known) && pod.Valid() && service.Valid()
    ensures PairwiseDisjoint(known + [pod, service])
      <==> && (forall i :: 0 <= i < |known| ==> Disjoint(known[i], pod))
           && (forall i :: 0 <= i < |known + [pod]| ==> Disjoint((known + [pod])[i], service))
  {
    var all, n := known + [pod, service], |known|;
    if PairwiseDisjoint(all) {
      forall i | 0 <= i < n ensures Disjoint(known[i], pod) {
        assert all[i] == known[i] && all[n] == pod;
      }
      forall i | 0 <= i < n + 1 ensures Disjoint((known + [pod])[i], service) {
        assert all[i] == (known + [pod])[i] && all[n + 1] == service;
      }
    } else if (forall i :: 0 <= i < n ==> Disjoint(known[i], pod))
      && (forall i :: 0 <= i < n + 1 ==> Disjoint((known + [pod])[i], service)) {
      forall i, j | 0 <= i < j < n + 2 ensures Disjoint(all[i], all[j]) {
        assert j == n + 1 ==> all[i] == (known + [pod])[i];
      }
    }
  }

  lemma ClusterIssues(c: Cluster, networks: Networks, vms: Vms, earlier: seq<string>, known: seq<Cidr>,
                      first: seq<Issue>, onNodes: seq<Issue>, onPods: seq<Issue>, onServices: seq<Issue>)
    requires AddressAllocation.ValidNetworks(networks) && forall i :: 0 <= i < |known| ==> known[i].Valid()
    requires first == (if DnsLabel(c.name) then [] else [Issue(c.name, Whole, NotADnsLabel)])
      + (if DnsLabel(c.defaultNamespace) then [] else [Issue(c.name, NamespaceField, NotADnsLabel)])
      + (if c.network !in networks then [Issue(c.name, NetworkField, UnknownNetwork)]
         else if networks[c.network].backend.Docker? then [Issue(c.name, NetworkField, DockerNetwork)] else [])
    requires NodesReported(c, vms, earlier, |c.Nodes()|, onNodes)
    requires forall issue :: issue in onPods <==> CidrFault(c, PodCidr, c.podCidr, networks, known, issue)
    requires forall issue :: issue in onServices <==>
      CidrFault(c, ServiceCidr, c.serviceCidr, networks, Remembered(PodCidr, c.podCidr, known), issue)
    ensures forall issue ::
      issue in first + onNodes + onPods + onServices <==> ClusterFault(c, networks, vms, earlier, known, issue)
  {
    forall issue: Issue
      ensures issue in first + onNodes + onPods + onServices
        <==> ClusterFault(c, networks, vms, earlier, known, issue)
    {
      if k :| NodeFault(c, vms, earlier, k, issue) {
        assert k < |c.Nodes()|;
      }
    }
  }

  /** The checks of a cluster's name, namespace and network. */
  method CheckNames(c: Cluster, networks: Networks) returns (issues: seq<Issue>)
    ensures issues == (if DnsLabel(c.name) then [] else [Issue(c.name, Whole, NotADnsLabel)])
      + (if DnsLabel(c.defaultNamespace) then [] else [Issue(c.name, NamespaceField, NotADnsLabel)])
      + (if c.network !in networks then [Issue(c.name, NetworkField, UnknownNetwork)]
         else if networks[c.network].backend.Docker? then [Issue(c.name, NetworkField, DockerNetwork)] else [])
  {
    issues := [];
    if !DnsLabel(c.name) { issues := issues + [Issue(c.name, Whole, NotADnsLabel)]; }
    if !DnsLabel(c.defaultNamespace) { issues := issues + [Issue(c.name, NamespaceField, NotADnsLabel)]; }
    if c.network !in networks {
      issues := issues + [Issue(c.name, NetworkField, UnknownNetwork)];
    } else if networks[c.network].backend.Docker? {
      issues := issues + [Issue(c.name, NetworkField, DockerNetwork)];
    }
  }

  /** The rest of a cluster's checks, in the order of the code: exactly the cluster's faults are
      reported. */
  method CheckCluster(c: Cluster, networks: Networks, networkNames: seq<string>, vms: Vms,
                      used: set<string>, known: seq<Cidr>, ghost earlier: seq<string>)
    returns (issues: seq<Issue>, nowUsed: set<string>, nowKnown: seq<Cidr>)
    requires AddressAllocation.ValidNetworks(networks) && forall n :: n in networkNames <==> n in networks
    requires used == (set v | v in earlier) && forall i :: 0 <= i < |known| ==> known[i].Valid()
    ensures Distinct(earlier) && PairwiseDisjoint(known) ==> (issues == [] <==>
      && ClusterOk(networks, vms, c) && Distinct(earlier + c.Nodes())
      && PairwiseDisjoint(known + [c.podCidr.value, c.serviceCidr.value]))
    ensures nowUsed == set v | v in earlier + c.Nodes()
    ensures forall i :: 0 <= i < |nowKnown| ==> nowKnown[i].Valid()
    ensures issues == [] ==>
      c.podCidr.Some? && c.serviceCidr.Some? && nowKnown == known + [c.podCidr.value, c.serviceCidr.value]
    ensures nowKnown == Remembered(ServiceCidr, c.serviceCidr, Remembered(PodCidr, c.podCidr, known))
    ensures forall issue :: issue in issues <==> ClusterFault(c, networks, vms, earlier, known, issue)
  {
    issues := CheckNames(c, networks);
    var onNodes, withNodes := CheckNodes(c, vms, used, earlier);
    var onPods, withPods := CheckCidr(c, PodCidr, c.podCidr, networks, networkNames, known);
    var onServices, withServices := CheckCidr(c, ServiceCidr, c.serviceCidr, networks, networkNames, withPods);
    ClusterIssues(c, networks, vms, earlier, known, issues, onNodes, onPods, onServices);
    issues, nowUsed, nowKnown := issues + onNodes + onPods + onServices, withNodes, withServices;
    if CanonicalWithin(c.podCidr, 24) && CanonicalWithin(c.serviceCidr, 28) && PairwiseDisjoint(known) {
      PairwiseAppend(known, c.podCidr.value, c.serviceCidr.value);
      EnoughSubnetsIffAssignable(c.podCidr.value, |c.Nodes()|);
    }
  }

  lemma ValidPrefix(networks: Networks, vms: Vms, front: seq<Cluster>, last: Cluster)
    requires AddressAllocation.ValidNetworks(networks) && ClustersValid(networks, vms, front + [last])
    ensures ClustersValid(networks, vms, front)
  {
    var all := front + [last];
    assert all[..|front|] == front;
    forall i | 0 <= i < |front| ensures ClusterOk(networks, vms, front[i]) {
      assert all[i] == front[i];
    }
    var nodes, cidrs := AllNodes(front), AllCidrs(front);
    forall i, j | 0 <= i < j < |nodes| ensures nodes[i] != nodes[j] {
      assert AllNodes(all)[i] == nodes[i] && AllNodes(all)[j] == nodes[j];
    }
    forall i | 0 <= i < |cidrs| ensures cidrs[i].Valid() {
      assert AllCidrs(all)[i] == cidrs[i];
    }
    forall i, j | 0 <= i < j < |cidrs| ensures Disjoint(cidrs[i], cidrs[j]) {
      assert AllCidrs(all)[i] == cidrs[i] && AllCidrs(all)[j] == cidrs[j];
    }
  }

  lemma ValidStep(networks: Networks, vms: Vms, front: seq<Cluster>, last: Cluster)
    requires AddressAllocation.ValidNetworks(networks) && ClustersValid(networks, vms, front)
    ensures ClustersValid(networks, vms, front + [last])
      <==> && ClusterOk(networks, vms, last) && Distinct(AllNodes(front) + last.Nodes())
           && PairwiseDisjoint(AllCidrs(front) + [last.podCidr.value, last.serviceCidr.value])
  {
    var all := front + [last];
    assert all[..|front|] == front && all[|front|] == last;
    if ClusterOk(networks, vms, last) {
      forall i | 0 <= i < |all| ensures ClusterOk(networks, vms, all[i]) {
        assert i < |front| ==> all[i] == front[i];
      }
    } else {
      assert !ClusterOk(networks, vms, all[|front|]);
    }
  }

  /** What is known after the clusters of `front`. */
  ghost predicate Checked(networks: Networks, vms: Vms, front: seq<Cluster>, issues: seq<Issue>, used: set<string>,
                          known: seq<Cidr>)
    requires AddressAllocation.ValidNetworks(networks)
  {
    && (issues == [] <==> ClustersValid(networks, vms, front))
    && used == (set v | v in AllNodes(front)) && (forall k :: 0 <= k < |known| ==> known[k].Valid())
    && (issues == [] ==> known == AllCidrs(front))
  }

  lemma CheckedStep(networks: Networks, vms: Vms, front: seq<Cluster>, c: Cluster, issues: seq<Issue>, known: seq<Cidr>,
                    found: seq<Issue>, nowUsed: set<string>, nowKnown: seq<Cidr>)
    requires AddressAllocation.ValidNetworks(networks)
    requires Checked(networks, vms, front, issues, (set v | v in AllNodes(front)), known)
    requires Distinct(AllNodes(front)) && PairwiseDisjoint(known) ==> (found == [] <==>
      && ClusterOk(networks, vms, c) && Distinct(AllNodes(front) + c.Nodes())
      && PairwiseDisjoint(known + [c.podCidr.value, c.serviceCidr.value]))
    requires nowUsed == set v | v in AllNodes(front) + c.Nodes()
    requires forall i :: 0 <= i < |nowKnown| ==> nowKnown[i].Valid()
    requires found == [] ==>
      c.podCidr.Some? && c.serviceCidr.Some? && nowKnown == known + [c.podCidr.value, c.serviceCidr.value]
    ensures Checked(networks, vms, front + [c], issues + found, nowUsed, nowKnown)
  {
    var all := front + [c];
    assert all[..|front|] == front && AllNodes(all) == AllNodes(front) + c.Nodes();
    if issues == [] {
      ValidStep(networks, vms, front, c);
      assert ClustersValid(networks, vms, all) ==>
        AllCidrs(all) == AllCidrs(front) + [c.podCidr.value, c.serviceCidr.value];
    } else if ClustersValid(networks, vms, all) {
      ValidPrefix(networks, vms, front, c);
    }
  }

  /** The blocks known after some clusters. */
  function KnownAfter(clusters: seq<Cluster>): (known: seq<Cidr>)
    ensures forall i :: 0 <= i < |known| ==> known[i].Valid()
  {
    if clusters == [] then []
    else
      var last := clusters[|clusters| - 1];
      Remembered(ServiceCidr, last.serviceCidr,
                 Remembered(PodCidr, last.podCidr, KnownAfter(clusters[..|clusters| - 1])))
  }

  /** An issue of the `k`th cluster. */
  ghost predicate FaultAt(networks: Networks, vms: Vms, clusters: seq<Cluster>, k: int, issue: Issue)
    requires AddressAllocation.ValidNetworks(networks)
  {
    && 0 <= k < |clusters|
    && ClusterFault(clusters[k], networks, vms, AllNodes(clusters[..k]), KnownAfter(clusters[..k]), issue)
  }

  ghost predicate FaultsReported(networks: Networks, vms: Vms, clusters: seq<Cluster>, n: nat, issues: seq<Issue>)
    requires AddressAllocation.ValidNetworks(networks)
  {
    forall issue :: issue in issues <==> exists k :: k < n && FaultAt(networks, vms, clusters, k, issue)
  }

  lemma FaultsStep(networks: Networks, vms: Vms, clusters: seq<Cluster>, n: nat, issues: seq<Issue>, found: seq<Issue>)
    requires AddressAllocation.ValidNetworks(networks) && FaultsReported(networks, vms, clusters, n, issues)
    requires forall issue :: issue in found <==> FaultAt(networks, vms, clusters, n, issue)
    ensures FaultsReported(networks, vms, clusters, n + 1, issues + found)
  {
    forall issue: Issue
      ensures issue in issues + found <==> exists k :: k < n + 1 && FaultAt(networks, vms, clusters, k, issue)
    {
      if FaultAt(networks, vms, clusters, n, issue) {
        assert issue in found;
      }
      if k :| k < n + 1 && FaultAt(networks, vms, clusters, k, issue) {
        assert k < n ==> issue in issues;
      }
    }
  }

  /** `validate` reports exactly the faults of the clusters, in particular none if and only if the
      clusters are valid. */
  method Validate(clusters: seq<Cluster>, networks: Networks, networkNames: seq<string>, vms: Vms)
    returns (issues: seq<Issue>)
    requires AddressAllocation.ValidNetworks(networks) && forall n :: n in networkNames <==> n in networks
    ensures issues == [] <==> ClustersValid(networks, vms, clusters)
    ensures FaultsReported(networks, vms, clusters, |clusters|, issues)
  {
    issues := [];
    var used: set<string> := {};
    var known: seq<Cidr> := [];
    NothingChecked(networks, vms);
    assert clusters[..0] == [];
    for i := 0 to |clusters|
      invariant Checked(networks, vms, clusters[..i], issues, used, known)
      invariant known == KnownAfter(clusters[..i]) && FaultsReported(networks, vms, clusters, i, issues)
    {
      ghost var front, c := clusters[..i], clusters[i];
      assert clusters[..i + 1] == front + [c] && clusters[..i + 1][..i] == front;
      var found, nextUsed, nextKnown :=
        CheckCluster(clusters[i], networks, networkNames, vms, used, known, AllNodes(front));
      CheckedStep(networks, vms, front, c, issues, known, found, nextUsed, nextKnown);
      FaultsStep(networks, vms, clusters, i, issues, found);
      issues, used, known := issues + found, nextUsed, nextKnown;
    }
    assert clusters[..|clusters|] == clusters;
  }

  lemma NothingChecked(networks: Networks, vms: Vms)
    requires AddressAllocation.ValidNetworks(networks)
    ensures Checked(networks, vms, [], [], {}, [])
  {
  }
}
