/**
 Static addresses of VMs: the allocator (`next_free_ip`, `offset_ip`, `add_vm`) and the
 attachment checks of the validator (`validate_references`) that its results must pass.
 Address and CIDR texts are modelled by what they parse to; `None` is a text that does not.
 */
module AddressAllocation {
  import opened Wrappers
  import opened Ipv4

  datatype Backend = Vmnet | Docker

  datatype Network = Network(cidr: Option<Cidr>, backend: Backend, dhcp: bool) {
    predicate Valid() { cidr.Some? ==> cidr.value.Valid() }
  }

  datatype Attachment = Attachment(network: string, ip: Option<Address>)

  type Networks = map<string, Network>
  type Vms = map<string, seq<Attachment>>

  datatype AllocationError = UnknownNetwork | InvalidNetwork | OutOfRange | OwnerExists | NoFreeIp

  ghost predicate ValidNetworks(networks: Networks) {
    forall n :: n in networks ==> networks[n].Valid()
  }

  // ----- allocation -----

  /** Addresses that attachments of any VM hold on a network. */
  ghost function Used(vms: Vms, network: string): set<Address> {
    set v, i | v in vms && 0 <= i < |vms[v]| && vms[v][i].network == network && vms[v][i].ip.Some? :: vms[v][i].ip.value
  }

  /** 32-bit addition, then the range check; a sum that wraps passes the check. */
  function OffsetIp(cidr: Cidr, offset: nat): Result<Address, AllocationError>
    requires cidr.Valid() && offset < 254
  {
    var candidate := (cidr.Network() + offset) % 0x1_0000_0000;
    if candidate > cidr.Broadcast() then Err(OutOfRange) else Ok(candidate)
  }

  /** `a` is free, in the block, at an offset in 10..253, and all addresses from offset 10 up
      to it are taken. */
  ghost predicate LeastFree(cidr: Cidr, used: set<Address>, a: Address)
    requires cidr.Valid()
  {
    && cidr.Network() + 10 <= a < cidr.Network() + 254 && a <= cidr.Broadcast() && a !in used
    && forall b: Address :: cidr.Network() + 10 <= b < a ==> b in used
  }

  /** Why a vmnet network without a free address is refused: the scan leaves the block, unless it
      stays inside or every sum beyond the block wraps around. */
  function Exhausted(cidr: Cidr): AllocationError
    requires cidr.Valid()
  {
    if cidr.Size() <= 253 && cidr.Network() + (if cidr.Size() < 10 then 10 else cidr.Size()) < 0x1_0000_0000
    then OutOfRange else NoFreeIp
  }

  /** When `next_free_ip` finds an address. */
  ghost predicate CanAllocate(networks: Networks, vms: Vms, network: string)
    requires ValidNetworks(networks) && network in networks
  {
    var n, used := networks[network], Used(vms, network);
    n.cidr.Some? &&
    if n.backend.Docker? then OffsetIp(n.cidr.value, 2).Ok? && OffsetIp(n.cidr.value, 2).value !in used
    else exists a: Address :: LeastFree(n.cidr.value, used, a)
  }

  /** The error of `next_free_ip` when it finds none. */
  function AllocationFailure(n: Network): AllocationError
    requires n.Valid()
  {
    if n.cidr.None? then InvalidNetwork
    else if n.backend.Docker? then
      (if OffsetIp(n.cidr.value, 2).Err? then OffsetIp(n.cidr.value, 2).error else OwnerExists)
    else Exhausted(n.cidr.value)
  }

  lemma OffsetFails(cidr: Cidr, offset: nat)
    requires cidr.Valid() && offset < 254
    ensures OffsetIp(cidr, offset).Err? <==> cidr.Size() <= offset && cidr.Network() + offset < 0x1_0000_0000
  {
    BlockFits(cidr);
  }

  /** A Docker network has one owner, at offset 2. Beyond the end of the address space the sum wraps
      around to an address below the block. */
  ghost function DockerAnswer(cidr: Cidr, used: set<Address>): Result<Address, AllocationError>
    requires cidr.Valid()
  {
    var sum := cidr.Network() + 2;
    var candidate := if sum >= 0x1_0000_0000 then sum - 0x1_0000_0000 else sum;
    if sum < 0x1_0000_0000 && sum > cidr.Broadcast() then Err(OutOfRange)
    else if candidate in used then Err(OwnerExists) else Ok(candidate)
  }

  /** `next_free_ip`. */
  method NextFreeIp(networks: Networks, vms: Vms, names: seq<string>, network: string)
    returns (result: Result<Address, AllocationError>)
    requires ValidNetworks(networks) && forall v :: v in names <==> v in vms
    ensures network in networks ==> (result.Ok? <==> CanAllocate(networks, vms, network))
    ensures network in networks && result.Err? ==> result.error == AllocationFailure(networks[network])
    ensures network !in networks ==> result == Err(UnknownNetwork)
    ensures network in networks && networks[network].cidr.None? ==> result == Err(InvalidNetwork)
    ensures network in networks && networks[network].cidr.Some? && networks[network].backend.Docker? ==>
      result == DockerAnswer(networks[network].cidr.value, Used(vms, network))
    ensures network in networks && networks[network].cidr.Some? && networks[network].backend.Vmnet? ==>
      var cidr, used := networks[network].cidr.value, Used(vms, network);
      && (result.Ok? ==> LeastFree(cidr, used, result.value))
      && (result.Err? ==> forall a: Address :: !LeastFree(cidr, used, a))
      && (result.Err? ==> result.error == Exhausted(cidr))
  {
    if network !in networks { return Err(UnknownNetwork); }
    if networks[network].cidr.None? { return Err(InvalidNetwork); }
    var cidr := networks[network].cidr.value;
    var used := CollectUsed(vms, names, network);
    if networks[network].backend.Docker? {
      OffsetWraps(cidr, 2);
      OffsetFails(cidr, 2);
      var candidate := OffsetIp(cidr, 2);
      if candidate.Ok? && candidate.value in used { return Err(OwnerExists); }
      return candidate;
    }
    result := ScanOffsets(cidr, used);
    assert result.Ok? ==> LeastFree(cidr, used, result.value);
  }

  /** The scan over the host offsets of a vmnet network. */
  method ScanOffsets(cidr: Cidr, used: set<Address>) returns (result: Result<Address, AllocationError>)
    requires cidr.Valid()
    ensures result.Ok? ==> LeastFree(cidr, used, result.value)
    ensures result.Err? ==> result.error == Exhausted(cidr) && forall a: Address :: !LeastFree(cidr, used, a)
  {
    BlockFits(cidr);
    for offset := 10 to 254
      invariant forall b: Address ::
        cidr.Network() + 10 <= b < cidr.Network() + offset && b <= cidr.Broadcast() ==> b in used
      invariant forall o :: 10 <= o < offset ==> OffsetIp(cidr, o).Ok?
    {
      OffsetWraps(cidr, offset);
      OffsetFails(cidr, offset);
      var candidate := OffsetIp(cidr, offset);
      if candidate.Err? { return Err(candidate.error); }
      if cidr.Contains(candidate.value) && candidate.value !in used { return candidate; }
    }
    if cidr.Size() <= 253 {
      OffsetFails(cidr, if cidr.Size() < 10 then 10 else cidr.Size());
    }
    result := Err(NoFreeIp);
  }

  /** A wrapped sum lies below the block, so `contains` rejects it. */
  lemma OffsetWraps(cidr: Cidr, offset: nat)
    requires cidr.Valid() && offset < 254
    ensures
      var sum := cidr.Network() + offset;
      && (OffsetIp(cidr, offset).Err? ==> sum > cidr.Broadcast())
      && (OffsetIp(cidr, offset).Ok? ==>
        (cidr.Contains(OffsetIp(cidr, offset).value) <==> sum <= cidr.Broadcast())
        && (sum <= cidr.Broadcast() ==> OffsetIp(cidr, offset).value == sum))
  {
    BlockFits(cidr);
  }

  method CollectUsed(vms: Vms, names: seq<string>, network: string) returns (used: set<Address>)
    requires forall v :: v in names <==> v in vms
    ensures used == Used(vms, network)
  {
    used := {};
    for k := 0 to |names|
      invariant forall a :: a in used <==> exists v, i :: v in names[..k] && Holds(vms, v, i, network, a)
    {
      var attachments := vms[names[k]];
      ghost var before := used;
      for i := 0 to |attachments|
        invariant forall a ::
          a in used <==> a in before || exists j :: 0 <= j < i && Holds(vms, names[k], j, network, a)
      {
        if attachments[i].network == network && attachments[i].ip.Some? {
          used := used + {attachments[i].ip.value};
          assert Holds(vms, names[k], i, network, attachments[i].ip.value);
        }
      }
      assert names[..k + 1] == names[..k] + [names[k]];
    }
    assert names[..|names|] == names;
    forall a ensures a in Used(vms, network) <==> exists v, i :: v in names && Holds(vms, v, i, network, a) {
      UsedHolds(vms, network, a);
    }
  }

  lemma UsedHolds(vms: Vms, network: string, a: Address)
    ensures a in Used(vms, network) <==> exists v, i :: Holds(vms, v, i, network, a)
  {
    if a in Used(vms, network) {
      var v, i :| v in vms && 0 <= i < |vms[v]| && vms[v][i].network == network && vms[v][i].ip.Some?
        && vms[v][i].ip.value == a;
      assert Holds(vms, v, i, network, a);
    }
  }

  predicate Holds(vms: Vms, v: string, i: nat, network: string, a: Address) {
    v in vms && i < |vms[v]| && vms[v][i] == Attachment(network, Some(a))
  }

  lemma WideBlock(cidr: Cidr)
    requires cidr.Valid() && cidr.prefix <= 24
    ensures cidr.Size() >= 256
  {
    Pow2Values();
    Pow2Sum(24 - cidr.prefix, 8);
    assert Pow2(24 - cidr.prefix) * 256 >= 256;
  }

  lemma {:induction false} FirstFree(cidr: Cidr, used: set<Address>, from: Address, a: Address) returns (least: Address)
    requires cidr.Valid() && cidr.Network() + 10 <= from <= a < cidr.Network() + 254
    requires a <= cidr.Broadcast() && a !in used
    requires forall b: Address :: cidr.Network() + 10 <= b < from ==> b in used
    ensures LeastFree(cidr, used, least)
    decreases a - from
  {
    if from !in used { least := from; } else { least := FirstFree(cidr, used, from + 1, a); }
  }

  /** On vmnet networks up to /24 an address is found unless all offsets 10..253 are taken,
      and it is never the broadcast address. */
  lemma WideNetworksAllocateHosts(cidr: Cidr, used: set<Address>)
    requires cidr.Valid() && cidr.prefix <= 24
    ensures (forall a: Address :: !LeastFree(cidr, used, a))
      <==> forall a: Address :: cidr.Network() + 10 <= a < cidr.Network() + 254 ==> a in used
    ensures forall a: Address :: LeastFree(cidr, used, a) ==> a < cidr.Broadcast()
  {
    BlockFits(cidr);
    WideBlock(cidr);
    if a: Address :| cidr.Network() + 10 <= a < cidr.Network() + 254 && a !in used {
      var least := FirstFree(cidr, used, cidr.Network() + 10, a);
    }
  }

  /** Only the broadcast address is left of the offsets from 10 on. */
  ghost predicate OnlyBroadcastLeft(cidr: Cidr, used: set<Address>)
    requires cidr.Valid()
  {
    cidr.Broadcast() !in used && forall b: Address :: cidr.Network() + 10 <= b < cidr.Broadcast() ==> b in used
  }

  /** The broadcast address is handed out exactly on /25 to /28 networks on which nothing
      else is left. */
  lemma BroadcastAllocatedIff(cidr: Cidr, used: set<Address>)
    requires cidr.Valid()
    ensures LeastFree(cidr, used, cidr.Broadcast()) <==> 25 <= cidr.prefix <= 28 && OnlyBroadcastLeft(cidr, used)
  {
    if cidr.prefix <= 24 { WideBlock(cidr); }
    SmallBlocks();
  }

  /** The exception is real: on 10.0.80.0/28 with offsets 10 to 14 taken, the allocator answers
      10.0.80.15, which the validator rejects as the broadcast address. */
  lemma BroadcastIsAllocated(used: set<Address>)
    requires used == {0x0A00_500A, 0x0A00_500B, 0x0A00_500C, 0x0A00_500D, 0x0A00_500E}
    ensures
      var cidr := Cidr(0x0A00_5000, 28);
      cidr.Broadcast() == 0x0A00_500F && LeastFree(cidr, used, cidr.Broadcast())
  {
    SmallBlocks();
  }

  lemma SmallBlocks()
    ensures Pow2(0) == 1 && Pow2(1) == 2 && Pow2(2) == 4 && Pow2(3) == 8
    ensures Pow2(4) == 16 && Pow2(5) == 32 && Pow2(6) == 64 && Pow2(7) == 128
  {
    assert Pow2(3) == 8;
    assert Pow2(5) == 32;
    assert Pow2(7) == 128;
  }
}
