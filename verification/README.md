# vzctl models

Dafny models of the parts of vzctl whose correctness is not visible from one function body, with
proofs. The models follow the sources branch by branch; what they take as given is listed at the
end.

- **DNS client** (`DomainName`, `DnsMessage`, `DnsRoundTrip`): the wire format of sections 4.1.1 to
  4.1.4 of RFC 1035. A name is denoted by the chain of labels and pointers from its offset, which is
  defined without the decoder's cursor and jump budget; the decoder is proved to compute it, and an
  encoder of responses with any compression pointers to be its inverse.
- **Reverse zones and resolver directory** (`ReverseZones`, `ResolverFiles`, `ResolverDirectory`,
  `ResolverHistory`, `ResolverInstalls`, `ResolverAnswers`): zone arithmetic as a partition of the
  address block, and the shared directory as a map from names to entries that many projects install
  into and uninstall from, with writes that fail before or after taking effect and removals that
  fail before it; what the files say is stated by a reader of resolver files.
- **Stack configuration** (`DependencyCycles`, `AddressAllocation`, `AddressValidation`,
  `PortForwards`, `KubernetesClusters`): each validator pass is proved to report nothing exactly if
  an order-free condition on the whole configuration holds, and to report exactly the faults there
  are; the allocator is related to the validator.
- **Event buffer** (`EventBuffer`, `EventDelivery`): the circular array against the sequence of all
  events, and every run of a client that polls with cursors.
- **Identity provider** (`OidcProvider`, `OidcHistory`, `OidcAccess`, `OidcRedemption`): the handlers
  as steps of a state machine, and what holds over all runs with a clock that does not go back and
  UUIDs that do not repeat: what each answer implies about the requests before it, and exactly when
  a request is granted.
- **Guest rollout** (`GuestShell`, `GuestRollout`, `VmRollout`, `BundleChange`): shell scripts as
  sequences of file operations that can be cut off anywhere, with the reply lost or not; the rollout
  on top of them, and what a rollout of another bundle does to the guarantee.
- **Streams and encodings** (`SerialLog`, `JournalFollow`, `Base64`): readers whose output does not
  depend on how a stream was cut, and two encoders with one reference decoder.

`Wrappers`, `Text`, `Bytes`, `Counting` and `Ipv4` hold shared definitions.

Where the code does less than its surroundings suggest, the model follows the code:

- A resolver install that meets a foreign zone file leaves the zones before it in place
  (`ResolverInstalls.ZoneCollisionLeavesEarlierZones`); `ResolverInstalls.FailedInstallUnchangedIff`
  gives the exact condition under which an install that fails without I/O faults changes nothing.
- On /25 to /28 networks the allocator can give the broadcast address, which the validator rejects
  (`AddressAllocation.BroadcastAllocatedIff`).
- The serial reader counts decoded bytes, so its offset drifts on ill-formed input
  (`SerialLog.OffsetsRightIffPiecesFit`).
- The journal stream skips one index between snapshot and follow (`JournalFollow.IndicesIncrease`).
- An event client that falls behind by more than the limit loses events
  (`EventDelivery.ExactlyOnceIffKeepsUp`, `EventDelivery.LaggingClientLosesAnEvent`).
- The rollout guarantee survives attempts with another bundle exactly if both agree on what both
  deploy (`BundleChange.KeepsFormerGuaranteeIff`, and as a rollout `BundleChange.UnansweredUpgrade`).
- The printed form of a port forward does not parse back when a VM name holds a colon
  (`PortForwards.PrintedFormParsesBack`, `PortForwards.ColonInVmNameDoesNotParseBack`).

`dafny verify dfyconfig.toml` checks the project.

## Model

| member | source | states |
|---|---|---|
| `DomainName.DecodeName` | crates/vzctl/src/dns.rs:981-1026 | For every packet and offset the loop terminates and answers with the name the compressed form denotes, or with the error at which its expansion breaks off; on success the offset lies after the name as written, strictly later and within the packet |
| `DomainName.NameAtOfWalk` | crates/vzctl/src/dns.rs:981-1026 | Any complete chain of labels and pointers from an offset determines the answer; the denotation does not depend on which chain one finds |
| `DomainName.NameByBytes` | crates/vzctl/src/dns.rs:981-1026 | What the bytes at an offset say, in every case of section 4.1.4 of RFC 1035: zero ends the name; a length below 64 puts that label in front of the name behind it; two bytes 0xc000 + target stand for the name at that target, for every target; everything else is the error of the code |
| `DomainName.CompleteWalkIsLongest` | crates/vzctl/src/dns.rs:981-1026 | Every partial expansion is a beginning of the complete one |
| `DomainName.CompleteWalkHasNoRepeat` | crates/vzctl/src/dns.rs:981-1026 | A finite expansion never visits a position twice |
| `DomainName.BudgetRejectsOnlyEndlessNames` | crates/vzctl/src/dns.rs:996-1010 | By pigeonhole: more jumps than the packet has bytes means that the expansion never ends, so the jump budget rejects no finite name |
| `DomainName.LoopIffEndless` | crates/vzctl/src/dns.rs:996-1010 | The pointer-loop error is reported exactly for names whose expansion can be continued forever |
| `DomainName.DecodedLabels` | crates/vzctl/src/dns.rs:1011-1022 | A decoded name is made of labels of 1 to 63 bytes, each UTF-8, joined by dots |
| `Bytes.EncodingIsValid` | crates/vzctl/src/dns.rs:1011-1016 | The UTF-8 encoding (section 3 of RFC 3629) of any sequence of Unicode scalar values is accepted |
| `Bytes.ValidIsEncoding` | crates/vzctl/src/dns.rs:1011-1016 | Every accepted byte string is such an encoding |
| `DnsMessage.CanonicalNameFacts` | crates/vzctl/src/dns.rs:846-865 | What an accepted query name looks like: 1 to 253 bytes, lower case, every label a legal query label |
| `DnsMessage.ValidNameIsAccepted` | crates/vzctl/src/dns.rs:846-865 | Labels of 1 to 63 letters, digits, hyphens and underscores, at most 253 bytes in all, are accepted in lower case, however many dots follow |
| `DnsMessage.BuildQuery` | crates/vzctl/src/dns.rs:875-891 | The loop writes the header with recursion desired, the labels of the name, and the question's type and class |
| `DnsMessage.QueryLength` | crates/vzctl/src/dns.rs:875-891 | For every valid name QNAME has at most 255 octets (section 2.3.4 of RFC 1035) and the query exactly 18 bytes more than the name |
| `DnsMessage.QueryBytes` | crates/vzctl/src/dns.rs:875-891 | The query byte by byte: ID, recursion desired, one question, the labels, and the codes 1, 28 or 12 of type A, AAAA or PTR and 1 of class IN |
| `DnsMessage.DecodeRecordData` | crates/vzctl/src/dns.rs:1028-1056 | Reads record data by type as the response specification says, including data beyond the packet, wrong lengths and types that are not decoded |
| `DnsMessage.ParseAnswers` | crates/vzctl/src/dns.rs:941-968 | The answer loop reads the given number of consecutive records in order, or fails with the first record's error that does not parse |
| `DnsMessage.ParseResponse` | crates/vzctl/src/dns.rs:893-979 | Accepts and decodes a response exactly as the response specification says, with every check in the order of the code |
| `DnsMessage.HeaderChecks` | crates/vzctl/src/dns.rs:893-925 | The first checks on the bytes of any packet, in their order: length 12, the ID in bytes 0 and 1, the response bit, one question, a readable name at offset 12 |
| `DnsMessage.QuestionChecks` | crates/vzctl/src/dns.rs:919-979 | The checks behind them, on the bytes: the question must be whole and the one asked, in any case of its letters, with type and class spelled out; then the outcome is that of the answers announced |
| `DnsMessage.AcceptedResponse` | crates/vzctl/src/dns.rs:893-979 | What an accepted response says, read off its bytes: the question is the one asked, as many answers as bytes 6 and 7 announce, rcode is the low half of byte 3, AA and TC are the bits 4 and 2 of byte 2 |
| `DnsMessage.RecordIsCutOff` | crates/vzctl/src/dns.rs:943-968 | An answer record that is not whole fails with the first part that is missing |
| `DnsMessage.RecordMeans` | crates/vzctl/src/dns.rs:943-968 | A whole record in bytes: owner, type, class, TTL, length and data, which are 4 bytes of type 1, 16 bytes of type 28, a name for types 2, 5 and 12, and plain bytes otherwise |
| `DnsRoundTrip.NameIsRead` | crates/vzctl/src/dns.rs:981-1026 | Labels, closed by a zero or by a pointer to any target below 0x4000, are read back at any position of any packet as the labels joined with the name at the target; the offset is then behind the bytes as written |
| `DnsRoundTrip.RecordIsRead` | crates/vzctl/src/dns.rs:943-968 | One encoded record, whose owner and whose name in NS, CNAME or PTR data are labels with or without a pointer to any readable name, is read back with name, type, class, TTL and data, and the next record begins right behind it |
| `DnsRoundTrip.RecordsAreRead` | crates/vzctl/src/dns.rs:941-968 | Any list of such records is read back in order |
| `DnsRoundTrip.ResponseRoundTrip` | crates/vzctl/src/dns.rs:893-979 | For every ID, flags, question in any case, type, and list of such records (A, AAAA, names, others) whose pointers lead to readable names, the response made of header, question and answers, with anything behind them, parses back to exactly those records, rcode, AA and TC |
| `DnsRoundTrip.AliasChainIsRead` | crates/vzctl/src/dns.rs:893-979 | A CNAME answer followed by an address record owned by a pointer to the alias inside it: the client reads the alias of the name and the address of the alias, for every alias, address and TTL |
| `DnsRoundTrip.QueryIsReadable` | crates/vzctl/src/dns.rs:875-891 | The query's own question is the name asked for, read by the decoder's rules |
| `ReverseZones.ParseCidr` | crates/vzctl/src/dns.rs:519-544 | What is accepted is a canonical block from /8 to /30 |
| `ReverseZones.CidrTextParses` | crates/vzctl/src/dns.rs:519-544 | a.b.c.d/p is read with a as the most significant octet, and accepted exactly if p is 8 to 30 and no host bit is set, with the two errors otherwise |
| `ReverseZones.AcceptedCidrText` | crates/vzctl/src/dns.rs:519-544 | Every accepted text is four numbers up to 255 joined by dots, a slash and a number, which are what is read |
| `ReverseZones.ZonesTile` | crates/vzctl/src/dns.rs:545-552 | The zones' address ranges together have the size of the block and stay within the address space |
| `ReverseZones.ZoneBaseDoesNotWrap` | crates/vzctl/src/dns.rs:545-555 | For every canonical block from /8 to /30 the wrapping addition never wraps: up to /24 zone i starts at the block's address plus i strides and ends within the block; beyond /24 the one zone starts at the block's address |
| `ReverseZones.CoversIffSameOctets` | crates/vzctl/src/dns.rs:555-562 | A zone's labels end the labels of an address's PTR name (section 3.5 of RFC 1035) exactly if the leading octets agree |
| `ReverseZones.AddressLabelsSpelled` | crates/vzctl/src/dns.rs:555-562 | The PTR name of an address, octet by octet |
| `ReverseZones.OctetZones` | crates/vzctl/src/dns.rs:545-565 | The zone texts of a /8, /16 and /24, octet by octet |
| `ReverseZones.ZoneRange` | crates/vzctl/src/dns.rs:519-565 | Zone i covers exactly the addresses of its stride |
| `ReverseZones.ZonesPartitionBlock` | crates/vzctl/src/dns.rs:519-565 | For prefixes up to /24 an address lies in the block exactly if some zone covers it, and then exactly one does |
| `ReverseZones.LongPrefixCoversEnclosing24` | crates/vzctl/src/dns.rs:519-565 | For prefixes /25 to /30 there is one zone, and it covers exactly the enclosing /24 |
| `ReverseZones.ReverseZonesDistinct` | crates/vzctl/src/dns.rs:519-565 | The zone names of an accepted CIDR are pairwise distinct |
| `ReverseZones.ReverseZonesCoverOnce` | crates/vzctl/src/dns.rs:519-565 | Every address of an accepted CIDR has its PTR name under exactly one generated zone |
| `ResolverFiles.ContentOwnedOnlyBy` | crates/vzctl/src/dns.rs:1571-1588 | A file written for one project and owner counts as owned by that project and owner only |
| `ResolverFiles.ContentIsManagedProject` | crates/vzctl/src/dns.rs:1609-1636 | A file written for a project is seen as a managed project file |
| `ResolverFiles.ReverseContentIsManaged` | crates/vzctl/src/dns.rs:1590-1607 | A written zone file is recognised as a managed reverse file |
| `ResolverFiles.NamesAreApart` | crates/vzctl/src/dns.rs:1638-1640 | Project files, zone files and the legacy file never share a name, and different projects have different files |
| `ResolverFiles.ContentReads` | crates/vzctl/src/dns.rs:1642-1651 | Both kinds of file, read as a resolver file (a line per setting, comments aside), name the server 127.0.0.1 and the port they were written for |
| `ResolverFiles.UnmarkedIsForeign` | crates/vzctl/src/dns.rs:1571-1607 | A file without the marker line belongs to no project and is managed by nobody |
| `ResolverFiles.KindsAreApart` | crates/vzctl/src/dns.rs:1571-1636 | Project files and zone files are never taken for each other |
| `ResolverAnswers.InstalledFilesRead` | crates/vzctl/src/dns.rs:1391-1457 | After any successful install, whatever stood there before and whichever writes failed late, the project's file and every zone file send readers to 127.0.0.1 and the requested port, and the project's file names project and owner |
| `ResolverAnswers.InstallAnswer` | crates/vzctl/src/dns.rs:1391-1457 | A successful install says Installed exactly if the project had no file, Unchanged exactly if the directory is what it was, and Updated otherwise |
| `ResolverAnswers.InstallRefused` | crates/vzctl/src/dns.rs:1391-1457 | An install that is refused without I/O faults names the first entry in its way: the own file, the first blocked zone, or the legacy file |
| `ResolverAnswers.UninstallExact` | crates/vzctl/src/dns.rs:1459-1514 | With a readable directory and no faults an uninstall succeeds exactly if the own file is absent or owned; then every entry afterwards is given: the own file gone, managed reverse files gone with the last project, everything else as it was |
| `ResolverAnswers.UnreadableStopsUninstall` | crates/vzctl/src/dns.rs:1459-1514 | With the last project, an entry that cannot be read fails the uninstall after the own file is gone and before any zone file is |
| `ResolverDirectory.Directory.Install` | crates/vzctl/src/dns.rs:1391-1457 | The step-by-step update of the directory has the effect and result of the install specification, for every fault of a write or removal; a directory that is a link or no directory is refused unchanged |
| `ResolverDirectory.Directory.PublishZones` | crates/vzctl/src/dns.rs:1415-1434 | The loop over the zones stops at the first zone that cannot be published and keeps those before it |
| `ResolverDirectory.Directory.OtherManaged` | crates/vzctl/src/dns.rs:1609-1636 | Finds whether another managed project file is listed |
| `ResolverDirectory.Directory.CollectManaged` | crates/vzctl/src/dns.rs:1484-1514 | Collects the managed reverse files of the listing, in its order |
| `ResolverDirectory.Directory.RemoveEach` | crates/vzctl/src/dns.rs:1474-1478 | Removes the collected files until one cannot be removed |
| `ResolverDirectory.Directory.Uninstall` | crates/vzctl/src/dns.rs:1459-1482 | The step-by-step removal has the effect and result of the uninstall specification, for every fault; where the resolver path is no directory it fails and changes nothing |
| `ResolverHistory.InstallFrame` | crates/vzctl/src/dns.rs:1391-1457 | Failed or not, an install writes only the project's own file and zone files that were absent or managed, and removes at most a managed legacy file |
| `ResolverHistory.InstallAchieves` | crates/vzctl/src/dns.rs:1391-1457 | After a successful install the project's file and all its zone files have the current content |
| `ResolverHistory.UninstallFrame` | crates/vzctl/src/dns.rs:1459-1482 | Failed or not, an uninstall removes only the project's own file and managed reverse files, and writes nothing |
| `ResolverHistory.CollectedNames` | crates/vzctl/src/dns.rs:1484-1514 | The collected names are exactly the listed managed reverse files |
| `ResolverHistory.RunKeepsForeign` | crates/vzctl/src/dns.rs:1391-1514 | Over every sequence of installs and uninstalls by any projects with any faults, foreign files and non-regular entries never change |
| `ResolverHistory.UninstallSparesOthers` | crates/vzctl/src/dns.rs:1459-1514 | While another scope is installed, an uninstall changes nothing but at most its own project's file |
| `ResolverHistory.RunKeepsZones` | crates/vzctl/src/dns.rs:1391-1514 | Over every such sequence, every zone a project successfully installed stays present and managed until that project's own uninstall |
| `ResolverHistory.SuccessfulUninstallCleansUp` | crates/vzctl/src/dns.rs:1459-1514 | After any successful uninstall the project's file is gone, and either another managed project file remains or no managed reverse file does |
| `ResolverInstalls.CidrZonesAreZoneNames` | crates/vzctl/src/dns.rs:519-565 | The zones generated for a CIDR are names that install may be given |
| `ResolverInstalls.InstallIsIdempotent` | crates/vzctl/src/dns.rs:1391-1457 | A second install after a successful one reports Unchanged and leaves the directory identical, whatever faults a write would have met |
| `ResolverInstalls.InstallExact` | crates/vzctl/src/dns.rs:1391-1457 | Without faults: an install succeeds exactly if its own file is free or owned and no zone or legacy entry is in the way, and the content of every name afterwards is given outright |
| `ResolverInstalls.FailedInstallUnchangedIff` | crates/vzctl/src/dns.rs:1391-1457 | An install that fails without I/O faults leaves the directory unchanged if and only if it is refused for the project's own file, or the zones before the obstacle already had the content to be written |
| `ResolverInstalls.ZoneCollisionLeavesEarlierZones` | crates/vzctl/src/dns.rs:1415-1434 | An input for which a zone collision does leave an earlier zone behind |
| `ResolverInstalls.InstallsCommute` | crates/vzctl/src/dns.rs:1391-1457 | Without I/O faults, installs of two different projects with the same port reach the same directory in either order, also when one or both are refused |
| `DependencyCycles.Search.Visit` | crates/vzctl/src/config.rs:2068-2098 | Visiting a VM keeps the search invariant: the stack is a path, finished VMs come after their dependencies, and nothing visited is lost |
| `DependencyCycles.DetectDependencyCycles` | crates/vzctl/src/config.rs:2067-2104 | Terminates, reports an issue if and only if the dependency graph over existing VMs has a cycle, reports only real cycles, and finishes the VMs in an order that places every dependency before its dependents except along edges that close reported cycles |
| `DependencyCycles.EveryCycleIsHit` | crates/vzctl/src/config.rs:2067-2104 | With such an order every cycle of the graph, reported or not, runs over the closing edge of a reported one: no cycle survives when the reported edges are cut |
| `DependencyCycles.OrderExcludesCycles` | crates/vzctl/src/config.rs:2067-2104 | A graph with such an order has no cycle |
| `AddressAllocation.NextFreeIp` | crates/vzctl/src/config.rs:2828-2867 | The least host offset in 10..253 that lies in the network and is unused, and .2 for Docker networks unless it is taken; it succeeds exactly if there is one, and otherwise the error is given outright |
| `AddressAllocation.CollectUsed` | crates/vzctl/src/config.rs:2841-2850 | The used addresses are those of all attachments of all VMs to the network |
| `AddressAllocation.WideNetworksAllocateHosts` | crates/vzctl/src/config.rs:2828-2867 | Up to /24 allocation fails only if all offsets 10..253 are used, and never gives the broadcast address |
| `AddressAllocation.BroadcastAllocatedIff` | crates/vzctl/src/config.rs:2828-2867 | The broadcast address is allocated exactly on /25 to /28 networks where nothing else from offset 10 on is left |
| `AddressAllocation.BroadcastIsAllocated` | crates/vzctl/src/config.rs:2828-2867 | A network for which it is |
| `AddressValidation.CheckAttachment` | crates/vzctl/src/config.rs:1154-1234 | One attachment is reported with exactly its problems, each at its place: unknown network, no address, outside the CIDR, network or broadcast address, reserved offset, wrong router address, taken address, DHCP network |
| `AddressValidation.FaultlessIffOk` | crates/vzctl/src/config.rs:1154-1234 | An attachment has none of these problems exactly if its address is a usable host address of a static network that nobody has taken |
| `AddressValidation.CheckVm` | crates/vzctl/src/config.rs:1151-1232 | The loop over a VM's attachments reports exactly their problems, a network used twice included |
| `AddressValidation.CheckAddresses` | crates/vzctl/src/config.rs:1072-1241 | The pass over all VMs reports exactly the faults of the attachments; it adds no issue if and only if every address is usable and no two attachments share network and address |
| `AddressValidation.PassDecidesValidity` | crates/vzctl/src/config.rs:1072-1241 | Checking each VM against the addresses taken before it decides the global, order-free condition, for every order of the VMs |
| `AddressValidation.Environment.AddVm` | crates/vzctl/src/config.rs:3019-3081 | For a new name and a known image: adds exactly the VM with the given address, or with one the allocator finds, on the given or first network; fails exactly in the cases of the code, with the allocator's error, and then changes nothing |
| `AddressValidation.AddVmKeepsValidIff` | crates/vzctl/src/config.rs:3019-3081 | Adding a VM with an allocated address to an environment whose addresses are valid keeps the addresses valid exactly if the network is static and the allocator was not left with the broadcast address or past the address space |
| `AddressValidation.WideVmnetIsAssignable` | crates/vzctl/src/config.rs:3019-3081 | On vmnet networks up to /24 with DHCP off this always holds |
| `PortForwards.ParsedForward` | crates/vzctl/src/config.rs:1992-2055 | What a parsed forward looks like: a VM name, ports in 1..65535, the bind address and text it was given |
| `PortForwards.PortsParse` | crates/vzctl/src/config.rs:2057-2065 | A decimal number is a port exactly from 1 to 65535, with the error of the code otherwise |
| `PortForwards.HostGuestForm` | crates/vzctl/src/config.rs:1992-2055 | host:guest forwards that host port on 127.0.0.1 to that guest port of the default VM |
| `PortForwards.BindHostGuestForm` | crates/vzctl/src/config.rs:1992-2055 | bind:host:guest is on that bind address, for the default VM |
| `PortForwards.HostVmGuestForm` | crates/vzctl/src/config.rs:1992-2055 | host:vm:guest is on 127.0.0.1 for that VM, unless its name is all digits |
| `PortForwards.FullForm` | crates/vzctl/src/config.rs:1992-2055 | bind:host:vm:guest says all four |
| `PortForwards.OtherForms` | crates/vzctl/src/config.rs:1992-2055 | One part and more than four parts are no form |
| `PortForwards.PrintedFormParsesBack` | crates/vzctl/src/config.rs:1992-2055 | The printed four-part form of a parsed forward parses to the same forward, whatever default VM is given, if and only if its VM name holds no colon; otherwise it is rejected as an invalid form |
| `PortForwards.CollectPortForwards` | crates/vzctl/src/config.rs:1884-1915 | Succeeds if and only if every stack and VM entry parses, binds 127.0.0.1, names an existing VM, and all pairs of bind address and host port are distinct; then the forwards are the parsed entries in their order |
| `PortForwards.ValidatePorts` | crates/vzctl/src/config.rs:1917-1989 | The validator's pass reports issues on exactly the other inputs, and the same ones |
| `PortForwards.NoIssueIffCorrect` | crates/vzctl/src/config.rs:1937-1989 | The accumulating pass decides the order-free correctness of all entries |
| `PortForwards.IssuesExactly` | crates/vzctl/src/config.rs:1937-1989 | Exactly the problems of the entries are reported, each at its entry: parse errors, foreign bind addresses, unknown VMs, and pairs of bind address and host port that an earlier entry holds, with the last such entry |
| `PortForwards.ColonInVmNameDoesNotParseBack` | crates/vzctl/src/config.rs:1992-2055 | A forward whose printed form is rejected |
| `KubernetesClusters.OverlapIffShared` | crates/vzctl/src/kubernetes.rs:147-161 | Two CIDR blocks share an address exactly if one contains the other's network address |
| `KubernetesClusters.LabelIffGrammar` | crates/vzctl/src/kubernetes.rs:53-61 | A node or cluster name is accepted exactly if it is a label of at most 63 lower-case letters, digits and inner hyphens (section 2.3.1 of RFC 1035, relaxed by section 2.1 of RFC 1123) |
| `KubernetesClusters.CanonicalWithinIff` | crates/vzctl/src/kubernetes.rs:129-137 | A CIDR is canonical within a prefix range exactly if it parses, its prefix is from 8 to the limit, and its address is the lowest it holds |
| `KubernetesClusters.EnoughSubnetsIffAssignable` | crates/vzctl/src/kubernetes.rs:138-146 | The node-count test passes exactly if the pod CIDR admits an injective assignment of /24 subnets to nodes |
| `KubernetesClusters.AssignSubnets` | crates/vzctl/src/kubernetes.rs:138-146 | Such an assignment, node by node |
| `KubernetesClusters.CheckNodes` | crates/vzctl/src/kubernetes.rs:105-128 | The node loop reports exactly the faulty nodes with their reasons; none exactly if all nodes are labels, attached, existing, and not used before |
| `KubernetesClusters.CheckCidr` | crates/vzctl/src/kubernetes.rs:129-168 | One CIDR is reported with exactly its faults, the networks and clusters it overlaps by name; none exactly if it is canonical in its prefix range, fits the nodes, and shares no address with any parseable network or earlier cluster CIDR |
| `KubernetesClusters.Validate` | crates/vzctl/src/kubernetes.rs:73-169 | The whole pass reports exactly the faults of the clusters; none if and only if no VM serves two roles, every pod CIDR has a /24 per node, and all pod and service CIDRs are pairwise disjoint as address sets and disjoint from every parseable network |
| `EventBuffer.RingBuffer.Append` | guest-agent/systemd/events.go:26-40 | The circular array refines the sequence of all events: afterwards it holds the last capacity events in order |
| `EventBuffer.RingBuffer.Ordered` | guest-agent/systemd/events.go:65-75 | The copy is the last capacity events, oldest first |
| `EventBuffer.RingBuffer.Since` | guest-agent/systemd/events.go:42-63 | A poll answers with the newest events after the cursor's event, at most the limit, and the newest ID as the next cursor |
| `EventBuffer.AnswerSpelled` | guest-agent/systemd/events.go:42-63 | In numbers: of the events held, those behind the cursor's event (all if it is not held) are pending, and the answer is the newest min(limit, capacity) of them, the limit being 100 unless it is positive, with the newest ID |
| `EventBuffer.FindStart` | guest-agent/systemd/events.go:55-61 | The scan finds the place after the first event with the cursor's ID |
| `EventBuffer.Overwritten` | guest-agent/systemd/events.go:26-40 | Overwriting the oldest slot and moving on drops the oldest event and appends the new one |
| `EventDelivery.RunClient` | guest-agent/systemd/events.go:26-105 | A client polling the real buffer receives what the run over event sequences says |
| `EventDelivery.PollAnswer` | guest-agent/systemd/events.go:42-63 | With distinct IDs a poll answers with exactly the newest pending events, also when the cursor's event was overwritten meanwhile |
| `EventDelivery.PollLength` | guest-agent/systemd/events.go:42-63 | The number of events a poll brings is the minimum of the pending events, the capacity, and the limit, or 100 for a limit that is not positive |
| `EventDelivery.AtMostOnceInOrder` | guest-agent/systemd/events.go:42-105 | Over every run the received events are an increasing selection of the history: each at most once, in order |
| `EventDelivery.ExactlyOnceIffKeepsUp` | guest-agent/systemd/events.go:42-105 | Everything polled was received exactly once if and only if before every poll at most min(limit, capacity) events had arrived since the last one |
| `EventDelivery.RunDelivers` | guest-agent/systemd/events.go:42-105 | Both statements for every run from an empty buffer |
| `EventDelivery.LaggingClientLosesAnEvent` | guest-agent/systemd/events.go:42-63 | A run in which a client that polls too rarely never receives an event |
| `OidcProvider.Provider.HandleAuthorize` | crates/vzctl-oidc-simple/src/server.rs:459-498 | Changes the maps of sessions and codes as one authorize step of the state machine whose runs are studied |
| `OidcProvider.Provider.HandleLogin` | crates/vzctl-oidc-simple/src/server.rs:559-610 | Opens one session and issues one code, or changes nothing |
| `OidcProvider.Provider.HandleToken` | crates/vzctl-oidc-simple/src/server.rs:650-754 | Takes the code out before checking it, and stores a token only if every check passes |
| `OidcProvider.Provider.HandleUserInfo` | crates/vzctl-oidc-simple/src/server.rs:760-792 | Changes nothing, and answers from a stored, unexpired token |
| `OidcProvider.Provider.HandleEndSession` | crates/vzctl-oidc-simple/src/server.rs:794-802 | Removes exactly the session of the cookie |
| `OidcAccess.LoginSucceedsIff` | crates/vzctl-oidc-simple/src/server.rs:559-610 | In every run a login with a registered client and redirect URI and a configured user opens a session and issues a code for that URI; otherwise it is refused with the reason of the code |
| `OidcAccess.AuthorizeRedirectsIff` | crates/vzctl-oidc-simple/src/server.rs:459-498 | In every run a request for a code by a registered client and URI with the session of a login is redirected to that URI with a new code exactly if it comes less than 604800 seconds after the login and no request in between has ended the session; otherwise it gets the picker |
| `OidcAccess.WithoutSession` | crates/vzctl-oidc-simple/src/server.rs:459-498 | Every other authorize request: ill-formed ones are refused with their reason, the rest gets the picker |
| `OidcAccess.SessionWaits` | crates/vzctl-oidc-simple/src/server.rs:459-610 | What becomes of a session: until it is ended or expires it stays, for the user it was opened for and with the expiry it was opened with |
| `OidcAccess.TokenRefused` | crates/vzctl-oidc-simple/src/server.rs:650-692 | A token request that is not well-formed, or whose code was never handed out, is refused with its reason |
| `OidcAccess.UserInfoRefused` | crates/vzctl-oidc-simple/src/server.rs:760-777 | A userinfo request without a token, or with one that no token request drew, is refused as invalid_token |
| `OidcHistory.RunIsBacked` | crates/vzctl-oidc-simple/src/server.rs:459-754 | In every run every stored session goes back to a login, every code to the request that asked for it on behalf of a logged-in user, with exactly the client, redirect URI and parameters of that request, and every token to a redemption in time, by the client that had asked for the code, with the redirect URI asked for if one is given, and with a verifier that meets the challenge asked for |
| `OidcHistory.ClaimsComeFromRecentLogin` | crates/vzctl-oidc-simple/src/server.rs:684-792 | A userinfo answer about a user implies an earlier login as that user less than 604800 + 300 + 3600 seconds before, through a code asked for with the session of that login for a registered client and redirect URI, and redeemed by that client with the proof asked for |
| `OidcHistory.GoneStaysGone` | crates/vzctl-oidc-simple/src/server.rs:480-525 | A code or session ID that is gone never comes back |
| `OidcHistory.CodeIsUsedAtMostOnce` | crates/vzctl-oidc-simple/src/server.rs:684-717 | Once a well-formed token request has found a code, redeemed or not, every later request with it is rejected (section 4.1.2 of RFC 6749) |
| `OidcHistory.RedemptionConsumes` | crates/vzctl-oidc-simple/src/server.rs:684-754 | Every redemption, also one cut off by a signing error, consumes its code |
| `OidcHistory.EndedSessionIssuesNothing` | crates/vzctl-oidc-simple/src/server.rs:794-802 | After end_session no code is ever issued from that session ID |
| `OidcRedemption.CodeRedeemsIff` | crates/vzctl-oidc-simple/src/server.rs:684-717 | Whatever came in between, the first well-formed token request for a code is answered exactly if it comes within 300 seconds, from the client the code was asked for, with the redirect URI asked for if one is given, and meets the challenge asked for (section 4.6 of RFC 7636), and is otherwise refused with the reason of the code; the token is for the user on whose behalf the code was asked for, with the client, scope and nonce of that request |
| `OidcRedemption.TokenAnswersIff` | crates/vzctl-oidc-simple/src/server.rs:760-792 | An issued token answers userinfo about its subject, as configured, for exactly 3600 seconds, whatever else happens, and is an invalid token after that |
| `GuestRollout.ChunksRebuild` | crates/vzctl/src/guest_utils.rs:291-296 | The chunks are non-empty, full except maybe the last, and concatenate to the input |
| `GuestRollout.ChunksCounted` | crates/vzctl/src/guest_utils.rs:291-296 | There are as many chunks as 184320 bytes each need |
| `GuestShell.AtomicTarget` | crates/vzctl/src/guest_utils.rs:298-314 | A script that stages beside a path and then renames onto it replaces the path in one step or leaves it alone, wherever it is cut off |
| `GuestShell.EncodedTextDecodes` | crates/vzctl/src/guest_utils.rs:299-306 | The text sent through Base64 arrives unchanged |
| `GuestShell.DeployedTextIff` | crates/vzctl/src/guest_utils.rs:298-314 | A text that holds the marker's word arrives as it is, any other with one newline more |
| `GuestShell.DeployEffect` | crates/vzctl/src/guest_utils.rs:298-314 | However the deploy script ends, the target holds its old file or the complete new one with its mode, and only scratch files beside it change |
| `GuestShell.InstallEffect` | crates/vzctl/src/guest_utils.rs:568-583 | However the install script ends, the target holds its old file or what was staged, the latter only if its hash is the expected one |
| `GuestShell.DeployEnds` | crates/vzctl/src/guest_utils.rs:298-314 | On a guest where calls work the deploy script succeeds, in both of its forms |
| `GuestShell.InstallEnds` | crates/vzctl/src/guest_utils.rs:568-583 | On a guest where calls work the install script succeeds if the staged hash is right |
| `GuestRollout.Guest.DeployGuestFile` | crates/vzctl/src/guest_utils.rs:446-466 | One call; success means the file is in place with content and mode, failure means old or new, never partial |
| `GuestRollout.Guest.DeployGuestBinary` | crates/vzctl/src/guest_utils.rs:518-604 | Whatever fails, the target keeps its old content or holds content with the expected hash; if input arrives unchanged, success means exactly the given bytes, from whatever staging a failed upload left |
| `GuestRollout.Guest.ReadBundleId` | crates/vzctl/src/guest_utils.rs:420-444 | A manifest that is missing, unreadable or not understood, and a failing call, all read as no bundle |
| `GuestRollout.Guest.RestartAgent` | crates/vzctl/src/guest_utils.rs:623-653 | Succeeds exactly if the call exits with 0, or its connection is lost with a message that holds the words connection closed |
| `GuestRollout.Guest.WaitForAgent` | crates/vzctl/src/guest_utils.rs:655-688 | Succeeds if and only if one of the first poll and the polls that fit before the deadline is healthy and followed by the expected version, and stops at the first such poll; an unhealthy poll is one call, any other two, and failure comes only after all polls |
| `GuestRollout.AttemptTransitive` | crates/vzctl/src/guest_utils.rs:316-392 | What one attempt guarantees, any number of attempts in a row guarantees |
| `GuestRollout.AttemptKeepsConsistent` | crates/vzctl/src/guest_utils.rs:316-392 | An attempt keeps: a manifest that names the bundle implies that every file and binary is the bundle's |
| `VmRollout.RolloutToVm` | crates/vzctl/src/guest_utils.rs:316-392 | Failed at any call or not: each target keeps its file or gets the bundle's, the manifest changes only once everything is installed, nothing else changes. Unchanged is answered exactly if the manifest can be read and names the bundle, after one call that changes nothing; Upgraded means everything is installed and the manifest is written in the call after the restarted agent answered with the bundle's version. With a complete cache and working calls everything is installed, and the upgrade succeeds exactly if the restarted agent answers at some poll before the deadline |
| `VmRollout.DeployBundle` | crates/vzctl/src/guest_utils.rs:329-362 | Files and binaries are deployed without touching the manifest, and success means all of them are in place |
| `VmRollout.RestartAndWait` | crates/vzctl/src/guest_utils.rs:363-364 | The guest's files stay; succeeds exactly if the restart call does and the agent then answers with the bundle's version before the deadline |
| `VmRollout.WriteManifest` | crates/vzctl/src/guest_utils.rs:366-384 | The last call changes the manifest on a guest where everything is installed, to the one with the time of the rollout, and keeps everything installed |
| `VmRollout.RolloutTargets` | crates/vzctl/src/guest_utils.rs:394-418 | Every target is attempted whatever happened before, and the answer is made of the outcomes of these attempts. Ok means that every target's manifest names the bundle; otherwise the failed targets are listed in order with their messages, each with a failing call or an incomplete cache, and every other target's manifest names the bundle. Where a guest was consistent, being named means being installed |
| `VmRollout.FailedIffErr` | crates/vzctl/src/guest_utils.rs:401-417 | A target is listed as failed exactly if its own attempt failed, and the list is in the order of the targets |
| `VmRollout.AttemptsKeepConsistent` | crates/vzctl/src/guest_utils.rs:316-392 | Over any number of attempts a consistent guest stays consistent, and once its manifest names the bundle everything stays installed |
| `VmRollout.RepositoryBundleIsolated` | crates/vzctl/src/guest_utils.rs:69-112 | The paths the repository deploys to do not collide with each other or with scratch files |
| `VmRollout.InstalledIffDeployed` | crates/vzctl/src/guest_utils.rs:329-362 | What installed means, file by file, for the repository's list of files |
| `BundleChange.KeepsFormerGuaranteeIff` | crates/vzctl/src/guest_utils.rs:316-392 | Attempts to roll out another bundle keep, for the former bundle, that its manifest tells the truth, if and only if the two agree on the texts, modes and binary hashes that both deploy |
| `BundleChange.UnansweredUpgrade` | crates/vzctl/src/guest_utils.rs:316-392 | A rollout of another bundle in which everything works but the new agent never answers fails, installs that bundle, and leaves the manifest naming the former one; that is true exactly if the two bundles agree |
| `BundleChange.StoppedUpgradeUnderminesFormerIff` | crates/vzctl/src/guest_utils.rs:316-392 | After a rollout of another bundle that stops behind any number of its files, the manifest still names the former bundle, truthfully exactly if those files are the same in both |
| `BundleChange.RepositoryBundlesComparable` | crates/vzctl/src/guest_utils.rs:69-112 | Any two bundles of the repository can be compared file by file |
| `SerialLog.ReadNewSerialLines` | crates/vzctl/src/builder.rs:811-842 | A poll hands out the decoded complete lines after the offset, trimmed, and advances the offset by the decoded length; files that cannot be read, and truncated ones, as in the code |
| `SerialLog.TakeLines` | crates/vzctl/src/builder.rs:829-840 | The loop over pieces takes exactly the complete lines |
| `SerialLog.CompleteRest` | crates/vzctl/src/builder.rs:832-835 | The complete lines reach up to the last newline: none is behind them |
| `SerialLog.PiecesSpelled` | crates/vzctl/src/builder.rs:829-835 | The pieces are the text, cut behind every newline and nowhere else |
| `SerialLog.TrimmedSpelled` | crates/vzctl/src/builder.rs:836-837 | Exactly the carriage returns and newlines at the end of a line are cut off |
| `SerialLog.IllFormedIsMaximal` | crates/vzctl/src/builder.rs:829-829 | An ill-formed piece is a longest beginning of some character's encoding, or one byte |
| `SerialLog.IllFormedReplaced` | crates/vzctl/src/builder.rs:829-829 | Every such piece is decoded as U+FFFD, the three bytes EF BF BD |
| `SerialLog.LossyLength` | crates/vzctl/src/builder.rs:829-840 | Decoding never shortens, and keeps the length exactly if every ill-formed piece has three bytes |
| `SerialLog.LossyConcat` | crates/vzctl/src/builder.rs:829-840 | Decoding up to a line end and from there on is decoding the whole |
| `SerialLog.PollDecodesCompleteLines` | crates/vzctl/src/builder.rs:829-840 | The complete lines of the decoded text are the decoded complete lines |
| `SerialLog.OffsetsRightIffPiecesFit` | crates/vzctl/src/builder.rs:811-842 | Over every schedule of polls of a growing log, the offset is at a line start after every poll if and only if every ill-formed piece of the complete lines has three bytes; then the lines handed out are the decoded complete lines |
| `SerialLog.Utf8LogIsReadExactly` | crates/vzctl/src/builder.rs:811-842 | For a log of UTF-8 lines, cut anywhere, the lines handed out are exactly the complete lines of the file |
| `SerialLog.StrayByteMovesOffsetTooFar` | crates/vzctl/src/builder.rs:839-840 | A two-byte log with one stray byte after which the offset is beyond the file |
| `JournalFollow.SplitAppend` | guest-agent/journald/handler.go:149-157 | Bytes that arrive later only change the unterminated rest |
| `JournalFollow.DrainLines` | guest-agent/journald/handler.go:151-174 | The inner loop turns every line the buffer completes into an event, in order, or stops at the first failing write |
| `JournalFollow.SelectedShown` | guest-agent/journald/handler.go:149-170 | Exactly the lines that are not blank, decode and match the filter become events, in their order |
| `JournalFollow.Follow` | guest-agent/journald/handler.go:141-182 | The events depend only on the bytes, not on how reads cut them |
| `JournalFollow.WriteSse` | guest-agent/journald/handler.go:102-183 | Snapshot and follow together write exactly the stream of the concatenated bytes, or a beginning of it if and only if a write fails |
| `JournalFollow.IndicesIncrease` | guest-agent/journald/handler.go:116-170 | Indices strictly increase over snapshot and follow, and exactly the snapshot's length is left out |
| `JournalFollow.StreamEntries` | guest-agent/journald/handler.go:102-183 | The entries of the stream are the matching ones of the snapshot and then the selected ones of the lines, all of them, in order |
| `JournalFollow.LinesSpelled` | guest-agent/journald/handler.go:149-157 | The bytes are the lines, each ended by a newline, and the unterminated rest; no newline is in a line or in the rest |
| `JournalFollow.ApplyQueryFilters` | guest-agent/journald/lines.go:237-249 | Keeps the matching lines and numbers them from zero |
| `JournalFollow.FilteredMatch` | guest-agent/journald/lines.go:237-249 | Exactly the matching entries of the snapshot are kept, in their order |
| `Base64.Base64Encode` | crates/vzctl/src/builder.rs:1029-1061 | The loop computes the padded standard form |
| `Base64.Base64UrlUnpadded` | crates/vzctl/src/cloud_init.rs:847-864 | The loop computes the unpadded URL form |
| `Base64.DecodedIffEncoded` | crates/vzctl/src/builder.rs:1029-1061 | A strict reference decoder for either form accepts exactly the encodings and inverts them, for every byte string |
| `Base64.EncodedLength` | crates/vzctl/src/cloud_init.rs:847-864 | 4 * ceil(n / 3) characters with padding, ceil(4n / 3) without |
| `Base64.FormsAgree` | crates/vzctl/src/cloud_init.rs:847-864 | Stripping the padding and mapping + and / to - and _ turns the output of the standard encoder into that of the URL encoder |
| `Base64.Alphabets` | crates/vzctl/src/cloud_init.rs:847-864 | The alphabets letter by letter (tables 1 and 2 of RFC 4648) |
| `Base64.Vectors` | crates/vzctl/src/builder.rs:1029-1061 | The test vectors of section 10 of RFC 4648 |

## Left out

- Sockets, time-outs, retries over TCP and the wall clock around queries and polls; a query's bytes and a response's bytes are values.
- The text rendering of addresses, unknown record data, record types and classes; record data stays bytes or names.
- NS, CNAME and PTR names that end outside their data length: the code does not check this, and neither does the model.
- The 255-octet limit of section 2.3.4 of RFC 1035 on decoded names: the decoder does not enforce it; the model's decoder has no such check either.
- Parsing of IPv4 addresses and CIDR texts by the standard and ipnet libraries in the configuration and Kubernetes passes: a text enters as its parsed value, or None when it does not parse.
- Overflow panics of debug builds: arithmetic on addresses wraps as in release builds where the code can reach it.
- Resolver directory: creation of parent directories, temporary file names, and permissions; each write may fail before or after its effect instead, each removal before it. A directory listing is given as a sequence that holds every name.
- CollectManaged: keeps the order of the listing, where the source sorts the paths it removes; the results about runs hold for a listing in any order.
- AddVmKeepsValidIff: speaks of addresses only; a VM that `add_vm` puts on a Docker network fails the validator's separate check for a vmnet attachment.
- Images, roles, mounts, containers, service claims and the other single-branch checks of the configuration validator; YAML and JSON in both directions.
- Kubernetes manifests and node address selection.
- HTTP status codes, and texts of issues and errors beyond the distinction of their kinds.
- The identity provider's JWT signing, key storage, HTML pages, percent-encoding of redirects and cookie syntax: signing is a step that succeeds or not, S256 is a function, a redirect is its URI and code. The client secret is not modelled because the code does not compare it.
- Overflow of expiry times at the end of the 64-bit clock.
- Several requests at the same time: each handler holds the store's lock while it reads and changes it, so a request is one step.
- Guest: a timed-out command that goes on running during the next call, and other writers of the deployed paths.
- Guest: the manifest read assumes that the manifest fits into one reply, because the code ignores truncation there.
- Guest: SHA-256 and JSON are functions; that a manifest's text read back names its bundle is a precondition of the rollout.
- Guest: the transport encoding of chunks; what arrives of a chunk is an arbitrary function of it, and exact delivery is assumed only where a statement says so.
- Guest: building and caching bundles on the host, and choosing the targets.
- Journal: Unicode white space, JSON decoding and the mapping of fields are functions of a line; the snapshot enters as its parsed lines, so the cut of long snapshots is not modelled.
- Journal: cancellation and read errors end the stream after some reads, which is a shorter list of chunks.
- Serial log: a file that is replaced by another of at least the same length is not noticed by the code, and no statement is made about it.
- Everything else: launchd, code signing, disk images, VM start, certificates, the user interface and packaging.
