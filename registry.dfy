/** The subnet registry (subnet id to subnet, created on first use) and the
    batch operations the server exposes over it. */
module Registry {
  import opened Errors
  import opened Addresses
  import opened Pools
  import opened Requests
  import opened Engine
  import opened Subnets

  /** One entry of the subnets list handed to ipam_allocate_ips. */
  datatype SubnetRequest = SubnetRequest(
    id: string,
    allocationPools: seq<RawPool>,
    cidr: Cidr,
    gatewayIp: Option<Ip>,
    macAddress: Field<nat>,
    deviceOwner: string,
    ipAddress: Field<Ip>)
  {
    /** What parsing guarantees of the fields: a valid block, a 48-bit MAC. */
    predicate WellFormed() {
      cidr.Valid() && (macAddress.Given? ==> macAddress.value < Pow48)
    }
  }

  /** One allocation as reported and as released: {ip_address, subnet_id}. */
  datatype FixedIp = FixedIp(ipAddress: Ip, subnetId: string)

  /** The request variant, chosen by field priority: an explicit address,
      then a MAC address, then a DHCP device owner, else any address. */
  function RequestFor(sr: SubnetRequest): (r: Result<AddressRequest>)
    requires sr.WellFormed()
    ensures sr.ipAddress.Given? ==> r == Ok(Specific(sr.ipAddress.value))
    ensures sr.ipAddress.Absent? && sr.macAddress.Given? ==>
      (r.Ok? <==> Eui64Address(sr.cidr, sr.macAddress.value).Ok?)
      && (r.Ok? ==> r.value == Automatic(Eui64Address(sr.cidr, sr.macAddress.value).value))
    ensures sr.ipAddress.Absent? && sr.macAddress.Absent? ==>
      r == Ok(if sr.deviceOwner == "dhcp" then PreferNext else AnyAddress)
    ensures sr.ipAddress.Malformed? || (sr.ipAddress.Absent? && sr.macAddress.Malformed?) ==>
      r == Err(AddressFormatError)
  {
    match sr.ipAddress
    case Given(ip) => Ok(Specific(ip))
    case Malformed => Err(AddressFormatError)
    case Absent =>
      if !sr.macAddress.Absent? then AutomaticRequest(EUI64, {"prefix", "mac"}, sr.cidr, sr.macAddress)
      else if sr.deviceOwner == "dhcp" then Ok(PreferNext)
      else Ok(AnyAddress)
  }

  /** The pools a subnet first seen in sr is built on: the block's usable
      range without the gateway when no pools are given, the given pools
      once they parse and validate otherwise. */
  function Prepared(sr: SubnetRequest): Result<seq<IpRange>>
    requires sr.WellFormed()
  {
    if |sr.allocationPools| == 0 then GeneratePools(sr.cidr, sr.gatewayIp)
    else PrepareExplicit(sr.allocationPools, sr.cidr, sr.gatewayIp)
  }

  /** No address of the pools is free of the records. */
  ghost predicate NoneFree(v: Version, pools: seq<IpRange>, records: seq<Ip>) {
    forall a: nat :: !IsFree(v, pools, records, a)
  }

  /** With no records, the free addresses are those of the pools. */
  lemma NothingRecordedFree(v: Version, pools: seq<IpRange>)
    ensures forall a: nat :: IsFree(v, pools, [], a) <==> InPools(pools, a)
    ensures NoneFree(v, pools, []) <==> forall a: nat :: !InPools(pools, a)
  {
  }

  /** The error that stops the allocation for sr, given the registered
      subnets and their records, or None when it succeeds: building the
      request, preparing the pools of a new subnet, and for a request that
      names no address, finding no free address. */
  ghost function AllocationError(sr: SubnetRequest, subnets: map<string, DbSubnet>, view: map<string, seq<Ip>>): Option<Error>
    requires sr.WellFormed()
  {
    match RequestFor(sr)
    case Err(e) => Some(e)
    case Ok(request) =>
      if sr.id in subnets then
        var s := subnets[sr.id];
        var records := if sr.id in view then view[sr.id] else [];
        if !request.IsSpecific() && NoneFree(s.cidr.version, s.pools, records)
        then Some(AllocationExhausted) else None
      else
        match Prepared(sr)
        case Err(e) => Some(e)
        case Ok(pools) =>
          if !request.IsSpecific() && NoneFree(sr.cidr.version, pools, [])
          then Some(AllocationExhausted) else None
  }

  /** The subnet ids named by a list of requests. */
  function Ids(requests: seq<SubnetRequest>): set<string> {
    set i | 0 <= i < |requests| :: requests[i].id
  }

  /** Records view after appending one record to its subnet's list
      (a subnet seen for the first time starts with an empty list). */
  function Append(view: map<string, seq<Ip>>, f: FixedIp): map<string, seq<Ip>> {
    view[f.subnetId := (if f.subnetId in view then view[f.subnetId] else []) + [f.ipAddress]]
  }

  /** Records view after appending each allocation in turn. */
  function Recorded(view: map<string, seq<Ip>>, fixed: seq<FixedIp>): map<string, seq<Ip>> {
    if |fixed| == 0 then view
    else Append(Recorded(view, fixed[..|fixed| - 1]), fixed[|fixed| - 1])
  }

  /** Recording one more allocation appends it to its subnet's list. */
  lemma RecordedStep(view: map<string, seq<Ip>>, fixed: seq<FixedIp>, f: FixedIp)
    ensures Recorded(view, fixed + [f]) == Append(Recorded(view, fixed), f)
  {
    assert (fixed + [f])[..|fixed|] == fixed;
  }

  /** The outcome of a batch of releases and the records view it leaves. */
  datatype Release = Release(outcome: Check, view: map<string, seq<Ip>>)

  /** Releasing each allocation in turn: the first unknown subnet or missing
      record stops it, and the releases before it stay. */
  function Released(view: map<string, seq<Ip>>, fixed: seq<FixedIp>): Release {
    if |fixed| == 0 then Release(Pass, view)
    else
      var f := fixed[0];
      if f.subnetId !in view then Release(Fail(UnknownSubnet), view)
      else if f.ipAddress !in view[f.subnetId] then Release(Fail(AllocationNotFound), view)
      else Released(view[f.subnetId := RemoveFirst(view[f.subnetId], f.ipAddress)], fixed[1..])
  }

  /** One release of a batch: a failure stops it where it is, a success
      goes on from the records it leaves. */
  lemma ReleasedStep(view: map<string, seq<Ip>>, next: map<string, seq<Ip>>, fixed: seq<FixedIp>, i: nat, c: Check)
    requires i < |fixed|
    requires var f := fixed[i];
      if f.subnetId in view && f.ipAddress in view[f.subnetId]
      then c == Pass && next == view[f.subnetId := RemoveFirst(view[f.subnetId], f.ipAddress)]
      else c.Fail? && next == view && c.error == (if f.subnetId !in view then UnknownSubnet else AllocationNotFound)
    ensures c.Fail? ==> Released(view, fixed[i..]) == Release(c, next)
    ensures c.Pass? ==> Released(view, fixed[i..]) == Released(next, fixed[i + 1..])
  {
    assert fixed[i..][0] == fixed[i] && fixed[i..][1..] == fixed[i + 1..];
  }

  /** Releasing a single recorded allocation removes its first record. */
  lemma ReleasedSingle(view: map<string, seq<Ip>>, f: FixedIp)
    requires f.subnetId in view && f.ipAddress in view[f.subnetId]
    ensures Released(view, [f]) == Release(Pass, view[f.subnetId := RemoveFirst(view[f.subnetId], f.ipAddress)])
  {
    assert [f][1..] == [];
  }

  /** Releasing an allocation just recorded succeeds, restores the subnet's
      records as a multiset and touches no other subnet. */
  lemma RecordThenRelease(view: map<string, seq<Ip>>, f: FixedIp)
    ensures Released(Recorded(view, [f]), [f]).outcome == Pass
    ensures var after := Released(Recorded(view, [f]), [f]).view;
      && after.Keys == view.Keys + {f.subnetId}
      && multiset(after[f.subnetId]) == multiset(if f.subnetId in view then view[f.subnetId] else [])
      && forall id :: id in view && id != f.subnetId ==> after[id] == view[id]
  {
    var before := if f.subnetId in view then view[f.subnetId] else [];
    var m := Append(view, f);
    RecordedStep(view, [], f);
    assert [] + [f] == [f];
    assert m[f.subnetId] == before + [f.ipAddress];
    ReleasedSingle(m, f);
    AllocateThenRelease([], before, f.ipAddress, V4, 0);
  }

  /** The records of a subnet in a records view; none for a subnet not in it. */
  function Records(view: map<string, seq<Ip>>, id: string): seq<Ip> {
    if id in view then view[id] else []
  }

  /** ip is a pick _generate_ip may make for a request that names no
      address: of the subnet's family, free of the records, and among the
      lowest free addresses (the lowest one for prefer-next, one of the
      lowest MaxWindow otherwise). */
  ghost predicate Picked(request: AddressRequest, subnet: DbSubnet, records: seq<Ip>, ip: Ip) {
    && ip.version == subnet.cidr.version
    && IsFree(subnet.cidr.version, subnet.pools, records, ip.value)
    && |FreeBelow(subnet.cidr.version, subnet.pools, records, ip.value)| < (if request.PreferNext? then 1 else MaxWindow)
  }

  /** An address answers a request, given the records before it was handed
      out, when it is the address the request names (explicitly or by
      EUI-64), or, for any other request, a pick from the subnet it was
      made on; a subnet not registered before (not in the records) is then
      registered on the request's CIDR and the pools prepared from it. */
  ghost predicate Answered(sr: SubnetRequest, ip: Ip, subnets: map<string, DbSubnet>, view: map<string, seq<Ip>>)
    requires sr.WellFormed()
  {
    && RequestFor(sr).Ok?
    && (sr.id !in view ==>
          sr.id in subnets && Prepared(sr).Ok?
          && subnets[sr.id].pools == Prepared(sr).value && subnets[sr.id].cidr == sr.cidr)
    && (if RequestFor(sr).value.IsSpecific() then ip == RequestFor(sr).value.address
        else sr.id in subnets && Picked(RequestFor(sr).value, subnets[sr.id], Records(view, sr.id), ip))
  }

  /** The allocation at position j names the subnet of the request at j and
      answers it, given the records left by start and the allocations before it. */
  ghost predicate AnsweredAt(requests: seq<SubnetRequest>, allocations: seq<FixedIp>,
                             subnets: map<string, DbSubnet>, start: map<string, seq<Ip>>, j: nat)
    requires j < |allocations| <= |requests|
    requires requests[j].WellFormed()
  {
    && allocations[j].subnetId == requests[j].id
    && Answered(requests[j], allocations[j].ipAddress, subnets, Recorded(start, allocations[..j]))
  }

  /** Every allocation answers the request at its position. */
  ghost predicate Answers(requests: seq<SubnetRequest>, allocations: seq<FixedIp>,
                          subnets: map<string, DbSubnet>, start: map<string, seq<Ip>>)
    requires |allocations| <= |requests|
    requires forall i :: 0 <= i < |requests| ==> requests[i].WellFormed()
  {
    forall j: nat :: j < |allocations| ==> AnsweredAt(requests, allocations, subnets, start, j)
  }

  /** Registering more subnets, and answering the next request, keeps
      the earlier answers. */
  lemma AnswersExtend(requests: seq<SubnetRequest>, allocations: seq<FixedIp>,
                      before: map<string, DbSubnet>, after: map<string, DbSubnet>,
                      start: map<string, seq<Ip>>, ip: Ip)
    requires |allocations| < |requests|
    requires forall i :: 0 <= i < |requests| ==> requests[i].WellFormed()
    requires Answers(requests, allocations, before, start)
    requires forall id :: id in before ==> id in after && after[id] == before[id]
    requires Answered(requests[|allocations|], ip, after, Recorded(start, allocations))
    ensures Answers(requests, allocations + [FixedIp(ip, requests[|allocations|].id)], after, start)
  {
    var extended := allocations + [FixedIp(ip, requests[|allocations|].id)];
    forall j: nat | j < |extended|
      ensures AnsweredAt(requests, extended, after, start, j)
    {
      if j < |allocations| {
        assert AnsweredAt(requests, allocations, before, start, j);
        assert extended[..j] == allocations[..j];
      } else {
        assert extended[..j] == allocations;
      }
    }
  }

  /** The ids of one more request. */
  lemma IdsExtend(requests: seq<SubnetRequest>, i: nat)
    requires i < |requests|
    ensures Ids(requests[..i + 1]) == Ids(requests[..i]) + {requests[i].id}
  {
    assert requests[..i + 1] == requests[..i] + [requests[i]];
    assert requests[..i + 1][i] == requests[i];
  }

  /** DICT_DummyNeutronDbSubnet with the operations over it. */
  class Registry {
    var subnets: map<string, DbSubnet>

    constructor ()
      ensures subnets == map[]
    {
      subnets := map[];
    }

    ghost function Managers(): set<SubnetManager>
      reads this
    {
      set id | id in subnets :: subnets[id].manager
    }

    /** Each subnet, and its records, are filed under the subnet's own id
        (so no two subnets share their records), and its pools are of its
        own family. */
    ghost predicate Valid()
      reads this
    {
      forall id :: id in subnets ==>
        subnets[id].Valid() && subnets[id].subnetId == id && subnets[id].manager.subnetId == id
    }

    /** The allocation records of every registered subnet. */
    ghost function View(): map<string, seq<Ip>>
      reads this, Managers()
    {
      map id | id in subnets :: subnets[id].manager.allocations
    }

    /** Allocation on a registered subnet; every other subnet keeps its records. */
    method AllocateOnRegistered(id: string, request: AddressRequest) returns (r: Result<Ip>)
      requires Valid() && id in subnets
      modifies subnets[id].manager
      ensures r.Ok? ==> View() == Append(old(View()), FixedIp(r.value, id))
      ensures r.Err? ==> View() == old(View())
      ensures request.IsSpecific() ==> r == Ok(request.address)
      ensures !request.IsSpecific() && r.Ok? ==>
        r.value.version == subnets[id].cidr.version
        && IsFree(subnets[id].cidr.version, subnets[id].pools, old(View())[id], r.value.value)
      ensures !request.IsSpecific() ==>
        && (r.Err? <==> forall a: nat :: !IsFree(subnets[id].cidr.version, subnets[id].pools, old(View())[id], a))
        && (r.Err? ==> r.error == AllocationExhausted)
      ensures !request.IsSpecific() && r.Ok? ==>
        |FreeBelow(subnets[id].cidr.version, subnets[id].pools, old(View())[id], r.value.value)|
          < (if request.PreferNext? then 1 else MaxWindow)
    {
      var subnet := subnets[id];
      ghost var previous := View();
      r := subnet.Allocate(request);
      forall other | other in subnets && other != id ensures View()[other] == previous[other] {
        assert subnets[other].manager != subnet.manager;
      }
      if r.Ok? {
        assert View() == previous[id := previous[id] + [r.value]];
      } else {
        assert View() == previous;
      }
    }

    /** Files a subnet under its id; the records of every subnet stay. */
    method Register(subnet: DbSubnet)
      requires Valid() && subnet.Valid() && subnet.subnetId !in subnets
      requires subnet.manager.subnetId == subnet.subnetId
      modifies this
      ensures Valid()
      ensures subnets == old(subnets)[subnet.subnetId := subnet]
      ensures View() == old(View())[subnet.subnetId := subnet.manager.allocations]
    {
      ghost var previous := View();
      subnets := subnets[subnet.subnetId := subnet];
      forall id | id in subnets && id != subnet.subnetId ensures View()[id] == previous[id] {
        assert subnets[id] == old(subnets[id]);
      }
      assert View() == previous[subnet.subnetId := subnet.manager.allocations];
    }

    /** A subnet built on prepared pools, with one allocation attempted on it. */
    static method NewSubnet(sr: SubnetRequest, pools: seq<IpRange>, request: AddressRequest)
      returns (subnet: DbSubnet, r: Result<Ip>)
      requires forall i :: 0 <= i < |pools| ==> pools[i].version == sr.cidr.version
      ensures fresh(subnet) && fresh(subnet.manager) && subnet.Valid()
      ensures subnet.subnetId == sr.id && subnet.manager.subnetId == sr.id
      ensures subnet.pools == pools && subnet.cidr == sr.cidr
      ensures subnet.manager.allocations == (if r.Ok? then [r.value] else [])
      ensures request.IsSpecific() ==> r == Ok(request.address)
      ensures !request.IsSpecific() ==>
        && (r.Err? <==> forall a: nat :: !InPools(pools, a))
        && (r.Err? ==> r.error == AllocationExhausted)
        && (r.Ok? ==> r.value.version == sr.cidr.version && InPools(pools, r.value.value))
        && (r.Ok? ==> |FreeBelow(sr.cidr.version, pools, [], r.value.value)| < (if request.PreferNext? then 1 else MaxWindow))
    {
      subnet := new DbSubnet(sr.id, pools, sr.cidr, sr.gatewayIp);
      NothingRecordedFree(sr.cidr.version, pools);
      r := subnet.Allocate(request);
    }

    /** Prepares the pools of a subnet not yet registered, allocates on it
        and only then registers it. */
    method AllocateOnNew(sr: SubnetRequest, request: AddressRequest) returns (r: Result<Ip>)
      requires Valid() && sr.WellFormed() && sr.id !in subnets
      modifies this
      ensures Valid()
      ensures r.Err? ==> subnets == old(subnets)
      ensures r.Ok? ==> subnets.Keys == old(subnets.Keys) + {sr.id} && fresh(subnets[sr.id].manager)
      ensures r.Ok? ==> forall id :: id in old(subnets) ==> subnets[id] == old(subnets[id])
      ensures r.Ok? ==> View() == old(View())[sr.id := [r.value]]
      ensures Prepared(sr).Err? ==> r == Err(Prepared(sr).error)
      ensures r.Ok? ==> Prepared(sr).Ok? && subnets[sr.id].pools == Prepared(sr).value && subnets[sr.id].cidr == sr.cidr
      ensures Prepared(sr).Ok? && request.IsSpecific() ==> r == Ok(request.address)
      ensures Prepared(sr).Ok? && !request.IsSpecific() ==>
        && (r.Err? <==> forall a: nat :: !InPools(Prepared(sr).value, a))
        && (r.Err? ==> r.error == AllocationExhausted)
        && (r.Ok? ==> r.value.version == sr.cidr.version && InPools(Prepared(sr).value, r.value.value))
        && (r.Ok? ==> |FreeBelow(sr.cidr.version, Prepared(sr).value, [], r.value.value)|
                        < (if request.PreferNext? then 1 else MaxWindow))
    {
      var pools := PrepareAllocationPools(sr.allocationPools, sr.cidr, sr.gatewayIp);
      assert pools == Prepared(sr);
      if pools.Err? {
        return Err(pools.error);
      }
      var subnet;
      subnet, r := NewSubnet(sr, pools.value, request);
      if r.Ok? {
        assert View() == old(View());
        Register(subnet);
        assert subnets[sr.id] == subnet;
      }
    }

    /** One iteration of ipam_allocate_ips: build the request, then allocate
        on the registered subnet, or prepare pools for a new subnet, allocate
        on it and only then register it. */
    method AllocateOne(sr: SubnetRequest) returns (r: Result<Ip>)
      requires Valid() && sr.WellFormed()
      modifies Managers()
      modifies this
      ensures Valid()
      ensures forall id :: id in old(subnets) ==> id in subnets && subnets[id] == old(subnets[id])
      ensures forall id :: id in subnets ==> id in old(subnets) || fresh(subnets[id].manager)
      ensures r.Ok? ==> subnets.Keys == old(subnets.Keys) + {sr.id}
      ensures r.Err? ==> subnets == old(subnets) && View() == old(View())
      ensures r.Ok? ==> View() == Append(old(View()), FixedIp(r.value, sr.id))
      ensures r.Ok? ==> Answered(sr, r.value, subnets, old(View()))
      ensures r.Err? <==> AllocationError(sr, old(subnets), old(View())).Some?
      ensures r.Err? ==> r.error == AllocationError(sr, old(subnets), old(View())).value
      ensures r.Ok? && sr.id !in old(subnets) ==>
        subnets[sr.id].pools == Prepared(sr).value && subnets[sr.id].cidr == sr.cidr
      ensures r.Ok? && !RequestFor(sr).value.IsSpecific() ==>
        r.value.version == subnets[sr.id].cidr.version
        && r.value !in (if sr.id in old(View()) then old(View())[sr.id] else [])
    {
      ghost var before := View();
      var request := RequestFor(sr);
      if request.Err? {
        return Err(request.error);
      }
      if sr.id in subnets {
        assert sr.id in View();
        r := AllocateOnRegistered(sr.id, request.value);
        assert r.Err? <==> AllocationError(sr, old(subnets), before).Some?;
      } else {
        assert sr.id !in View();
        r := AllocateOnNew(sr, request.value);
        if Prepared(sr).Ok? {
          var pools := Prepared(sr).value;
          NothingRecordedFree(sr.cidr.version, pools);
        }
        assert r.Ok? ==> Append(old(View()), FixedIp(r.value, sr.id)) == old(View())[sr.id := [] + [r.value]];
        assert r.Ok? ==> [] + [r.value] == [r.value];
      }
    }

    /** The next iteration of ipam_allocate_ips, after the allocations made
        so far from the records start. */
    method AllocateNext(requests: seq<SubnetRequest>, allocations: seq<FixedIp>, ghost start: map<string, seq<Ip>>)
      returns (r: Result<Ip>)
      requires Valid()
      requires forall i :: 0 <= i < |requests| ==> requests[i].WellFormed()
      requires |allocations| < |requests|
      requires View() == Recorded(start, allocations)
      requires Answers(requests, allocations, subnets, start)
      modifies this, Managers()
      ensures Valid()
      ensures forall id :: id in old(subnets) ==> id in subnets && subnets[id] == old(subnets[id])
      ensures forall id :: id in subnets ==> id in old(subnets) || fresh(subnets[id].manager)
      ensures r.Err? ==> subnets == old(subnets) && View() == old(View())
      ensures r.Err? ==> AllocationError(requests[|allocations|], subnets, View()) == Some(r.error)
      ensures r.Ok? ==> subnets.Keys == old(subnets.Keys) + {requests[|allocations|].id}
      ensures r.Ok? ==> View() == Recorded(start, allocations + [FixedIp(r.value, requests[|allocations|].id)])
      ensures r.Ok? ==> Answers(requests, allocations + [FixedIp(r.value, requests[|allocations|].id)], subnets, start)
    {
      ghost var before := subnets;
      var sr := requests[|allocations|];
      r := AllocateOne(sr);
      if r.Ok? {
        AnswersExtend(requests, allocations, before, subnets, start, r.value);
        RecordedStep(start, allocations, FixedIp(r.value, sr.id));
      }
    }

    /** ipam_allocate_ips: one allocation per requested subnet, in order.
        A failure stops the batch; the allocations made before it stay. */
    method AllocateIps(requests: seq<SubnetRequest>) returns (r: Result<seq<FixedIp>>)
      requires Valid()
      requires forall i :: 0 <= i < |requests| ==> requests[i].WellFormed()
      modifies this, Managers()
      ensures Valid()
      ensures forall id :: id in old(subnets) ==> id in subnets && subnets[id] == old(subnets[id])
      ensures r.Ok? ==> |r.value| == |requests| && Answers(requests, r.value, subnets, old(View()))
      ensures r.Ok? ==> subnets.Keys == old(subnets.Keys) + Ids(requests)
      ensures r.Ok? ==> View() == Recorded(old(View()), r.value)
      ensures r.Err? ==> exists done: seq<FixedIp> ::
        && |done| < |requests| && Answers(requests, done, subnets, old(View()))
        && subnets.Keys == old(subnets.Keys) + Ids(requests[..|done|])
        && View() == Recorded(old(View()), done)
        && AllocationError(requests[|done|], subnets, View()) == Some(r.error)
    {
      var allocations: seq<FixedIp> := [];
      for i := 0 to |requests|
        invariant Valid()
        invariant |allocations| == i
        invariant forall id :: id in old(subnets) ==> id in subnets && subnets[id] == old(subnets[id])
        invariant forall id :: id in subnets ==> id in old(subnets) || fresh(subnets[id].manager)
        invariant subnets.Keys == old(subnets.Keys) + Ids(requests[..i])
        invariant View() == Recorded(old(View()), allocations)
        invariant Answers(requests, allocations, subnets, old(View()))
      {
        var ip := AllocateNext(requests, allocations, old(View()));
        if ip.Err? {
          return Err(ip.error);
        }
        IdsExtend(requests, i);
        allocations := allocations + [FixedIp(ip.value, requests[i].id)];
      }
      assert requests[..|requests|] == requests;
      return Ok(allocations);
    }

    /** One iteration of ipam_deallocate_ips: the subnet must be registered;
        its first record of the address is removed. */
    method ReleaseOne(f: FixedIp) returns (r: Check)
      requires Valid()
      modifies Managers()
      ensures f.subnetId !in old(View()) ==> r == Fail(UnknownSubnet) && View() == old(View())
      ensures f.subnetId in old(View()) && f.ipAddress !in old(View())[f.subnetId] ==>
        r == Fail(AllocationNotFound) && View() == old(View())
      ensures f.subnetId in old(View()) && f.ipAddress in old(View())[f.subnetId] ==>
        r == Pass && View() == old(View())[f.subnetId := RemoveFirst(old(View())[f.subnetId], f.ipAddress)]
    {
      if f.subnetId !in subnets {
        return Fail(UnknownSubnet);
      }
      var subnet := subnets[f.subnetId];
      ghost var previous := View();
      r := subnet.Deallocate(f.ipAddress);
      forall id | id in subnets && id != f.subnetId ensures View()[id] == previous[id] {
        assert subnets[id].manager != subnet.manager;
      }
      assert View() == previous[f.subnetId := RemoveFirst(previous[f.subnetId], f.ipAddress)];
      if f.ipAddress !in previous[f.subnetId] {
        RemoveFirstAbsent(previous[f.subnetId], f.ipAddress);
      }
    }

    /** ipam_deallocate_ips: release each allocation in turn; an unknown
        subnet or a missing record stops the batch. */
    method DeallocateIps(fixedIps: seq<FixedIp>) returns (r: Result<seq<FixedIp>>)
      requires Valid()
      modifies Managers()
      ensures r.Ok? <==> Released(old(View()), fixedIps).outcome == Pass
      ensures r.Ok? ==> r.value == fixedIps
      ensures r.Err? ==> r.error == Released(old(View()), fixedIps).outcome.error
      ensures View() == Released(old(View()), fixedIps).view
    {
      ghost var start := View();
      var deallocated: seq<FixedIp> := [];
      for i := 0 to |fixedIps|
        invariant deallocated == fixedIps[..i]
        invariant Released(start, fixedIps) == Released(View(), fixedIps[i..])
      {
        ghost var previous := View();
        var released := ReleaseOne(fixedIps[i]);
        ReleasedStep(previous, View(), fixedIps, i, released);
        if released.Fail? {
          return Err(released.error);
        }
        deallocated := deallocated + [fixedIps[i]];
      }
      assert fixedIps[..|fixedIps|] == fixedIps;
      return Ok(deallocated);
    }

    /** get_ips: the records of a registered subnet. */
    method GetIps(subnetId: string) returns (r: Result<seq<Ip>>)
      requires Valid()
      ensures subnetId in subnets ==> r == Ok(View()[subnetId])
      ensures subnetId !in subnets ==> r == Err(UnknownSubnet)
    {
      if subnetId !in subnets {
        return Err(UnknownSubnet);
      }
      var records := subnets[subnetId].ListAllocations();
      return Ok(records);
    }
  }

  /** A batch entry: any address on 10.0.0.0/24 with the explicit pool
      10.0.0.10-10.0.0.20 and no gateway. */
  function ExplicitPoolRequest(): SubnetRequest {
    SubnetRequest("net", [RawPool(Some(Ip(V4, 0x0A00_000A)), Some(Ip(V4, 0x0A00_0014)))],
                  Cidr(V4, 0x0A00_0000, 24), None, Absent, "compute", Absent)
  }

  /** Its pools prepare to exactly the pool given. */
  lemma ExplicitPoolPrepared()
    ensures ExplicitPoolRequest().WellFormed()
    ensures Prepared(ExplicitPoolRequest()) == Ok([IpRange(V4, 0x0A00_000A, 0x0A00_0014)])
  {
    var sr := ExplicitPoolRequest();
    var c := sr.cidr;
    Pow2Values();
    assert c.BlockSize() == 0x100;
    assert c.First() == 0x0A00_0000 && c.Last() == 0x0A00_00FF;
    var ps := [IpRange(V4, 0x0A00_000A, 0x0A00_0014)];
    assert |sr.allocationPools| == 1 && ParsePool(sr.allocationPools[0]) == Ok(ps[0]);
    assert ParsedPools(sr.allocationPools).Ok?;
    var parsed := ParsedPools(sr.allocationPools).value;
    assert |parsed| == 1 && parsed[0] == ps[0];
    assert parsed == ps;
    assert UsableFirst(c) == 0x0A00_0001 && UsableLast(c) == 0x0A00_00FE;
    assert PoolCheck(ps[0], c) == Pass;
    assert FirstPoolFailure(ps, c) == Pass;
    assert ValidationResult(ps, c) == Pass;
  }

  /** On an empty registry nothing stops its allocation. */
  lemma ExplicitPoolAllocates()
    ensures ExplicitPoolRequest().WellFormed()
    ensures AllocationError(ExplicitPoolRequest(), map[], map[]) == None
  {
    ExplicitPoolPrepared();
    var ps := [IpRange(V4, 0x0A00_000A, 0x0A00_0014)];
    assert ps[0].Contains(0x0A00_000A);
    assert IsFree(V4, ps, [], 0x0A00_000A);
  }

  /** A batch of that one entry on a new registry succeeds, and the
      subnet it creates hands out an address of the explicit pool. */
  method BatchOnExplicitPool() returns (r: Result<seq<FixedIp>>)
    ensures r.Ok? && |r.value| == 1 && r.value[0].subnetId == "net"
    ensures 0x0A00_000A <= r.value[0].ipAddress.value <= 0x0A00_0014
  {
    ExplicitPoolPrepared();
    ExplicitPoolAllocates();
    var registry := new Registry();
    assert registry.View() == map[];
    r := registry.AllocateIps([ExplicitPoolRequest()]);
    if r.Ok? {
      assert AnsweredAt([ExplicitPoolRequest()], r.value, registry.subnets, map[], 0);
      assert r.value[..0] == [];
    }
  }
}
