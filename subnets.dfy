/** Per-subnet allocation state: the list of allocation records of a subnet
    and the subnet object that allocates from its pools. */
module Subnets {
  import opened Errors
  import opened Addresses
  import opened Pools
  import opened Requests
  import opened Engine

  /** s without its first occurrence of a (list.remove); s itself when a is absent. */
  function RemoveFirst(s: seq<Ip>, a: Ip): (r: seq<Ip>)
    ensures |r| == if a in s then |s| - 1 else |s|
  {
    if |s| == 0 then []
    else if s[0] == a then s[1..]
    else [s[0]] + RemoveFirst(s[1..], a)
  }

  /** Index of the first occurrence of a in s. */
  function FirstIndex(s: seq<Ip>, a: Ip): (k: nat)
    requires a in s
    ensures k < |s| && s[k] == a && a !in s[..k]
  {
    if s[0] == a then 0
    else
      var k := FirstIndex(s[1..], a);
      assert s[..k + 1] == [s[0]] + s[1..][..k];
      k + 1
  }

  /** Removing the first occurrence keeps the records before it and after it. */
  lemma {:induction false} RemoveFirstAt(s: seq<Ip>, a: Ip)
    requires a in s
    ensures RemoveFirst(s, a) == s[..FirstIndex(s, a)] + s[FirstIndex(s, a) + 1..]
  {
    if s[0] != a {
      RemoveFirstAt(s[1..], a);
      var k := FirstIndex(s[1..], a);
      assert s[..k + 1] == [s[0]] + s[1..][..k];
      assert s[k + 2..] == s[1..][k + 1..];
    }
  }

  /** Removing an absent record changes nothing. */
  lemma {:induction false} RemoveFirstAbsent(s: seq<Ip>, a: Ip)
    requires a !in s
    ensures RemoveFirst(s, a) == s
  {
    if |s| > 0 {
      RemoveFirstAbsent(s[1..], a);
      assert s == [s[0]] + s[1..];
    }
  }

  /** Exactly one copy of a leaves the list (none if there is none). */
  lemma {:induction false} RemoveFirstMultiset(s: seq<Ip>, a: Ip)
    ensures multiset(RemoveFirst(s, a)) == multiset(s) - multiset{a}
  {
    if |s| > 0 {
      assert s == [s[0]] + s[1..];
      if s[0] != a {
        RemoveFirstMultiset(s[1..], a);
        assert RemoveFirst(s, a) == [s[0]] + RemoveFirst(s[1..], a);
      }
    }
  }

  /** Allocating a and then releasing it restores the records as a multiset,
      hence the free space of the subnet. */
  lemma AllocateThenRelease(pools: seq<IpRange>, s: seq<Ip>, a: Ip, v: Version, x: nat)
    ensures multiset(RemoveFirst(s + [a], a)) == multiset(s)
    ensures IsFree(v, pools, RemoveFirst(s + [a], a), x) <==> IsFree(v, pools, s, x)
  {
    RemoveFirstMultiset(s + [a], a);
    assert multiset(s + [a]) == multiset(s) + multiset{a};
    var t := RemoveFirst(s + [a], a);
    assert Ip(v, x) in t <==> Ip(v, x) in multiset(t);
    assert Ip(v, x) in s <==> Ip(v, x) in multiset(s);
  }

  /** IpamSubnetManager: the allocation records of one subnet, in order. */
  class SubnetManager {
    const subnetId: string
    var allocations: seq<Ip>

    constructor (subnetId: string)
      ensures this.subnetId == subnetId && allocations == []
    {
      this.subnetId := subnetId;
      allocations := [];
    }

    method ListAllocations() returns (records: seq<Ip>)
      ensures records == allocations
    {
      records := allocations;
    }

    method CreateAllocation(a: Ip)
      modifies this
      ensures allocations == old(allocations) + [a]
    {
      allocations := allocations + [a];
    }

    /** Remove the first record equal to a; fail, changing nothing, if there is none. */
    method DeleteAllocation(a: Ip) returns (r: Check)
      modifies this
      ensures r == (if a in old(allocations) then Pass else Fail(AllocationNotFound))
      ensures allocations == RemoveFirst(old(allocations), a)
    {
      var k := 0;
      while k < |allocations| && allocations[k] != a
        invariant 0 <= k <= |allocations|
        invariant a !in allocations[..k]
      {
        k := k + 1;
      }
      if k == |allocations| {
        assert allocations[..k] == allocations;
        RemoveFirstAbsent(allocations, a);
        return Fail(AllocationNotFound);
      }
      RemoveFirstAt(allocations, a);
      assert FirstIndex(allocations, a) == k;
      allocations := allocations[..k] + allocations[k + 1..];
      return Pass;
    }
  }

  /** DummyNeutronDbSubnet: a subnet's CIDR and pools, fixed at creation,
      and the manager holding its allocation records. */
  class DbSubnet {
    const subnetId: string
    const cidr: Cidr
    const pools: seq<IpRange>
    const manager: SubnetManager

    /** The pools are all of the subnet's family. */
    predicate Valid() {
      forall i :: 0 <= i < |pools| ==> pools[i].version == cidr.version
    }

    constructor (subnetId: string, pools: seq<IpRange>, cidr: Cidr, gateway: Option<Ip>)
      ensures this.subnetId == subnetId && this.pools == pools && this.cidr == cidr
      ensures fresh(manager) && manager.subnetId == subnetId && manager.allocations == []
    {
      this.subnetId := subnetId;
      this.pools := pools;
      this.cidr := cidr;
      manager := new SubnetManager(subnetId);
    }

    /** Specific and automatic requests are recorded as given; any other
        request records an address generated from the free space. */
    method Allocate(request: AddressRequest) returns (r: Result<Ip>)
      requires Valid()
      modifies manager
      ensures r.Ok? ==> manager.allocations == old(manager.allocations) + [r.value]
      ensures r.Err? ==> manager.allocations == old(manager.allocations)
      ensures request.IsSpecific() ==> r == Ok(request.address)
      ensures !request.IsSpecific() ==>
        && (r.Err? <==> forall a: nat :: !IsFree(cidr.version, pools, old(manager.allocations), a))
        && (r.Err? ==> r.error == AllocationExhausted)
        && (r.Ok? ==> r.value.version == cidr.version && IsFree(cidr.version, pools, old(manager.allocations), r.value.value))
        && (r.Ok? ==> |FreeBelow(cidr.version, pools, old(manager.allocations), r.value.value)|
                        < (if request.PreferNext? then 1 else MaxWindow))
    {
      var ipAddress: Ip;
      if request.IsSpecific() {
        ipAddress := request.address;
      } else {
        var preferNext := request.PreferNext?;
        var generated := GenerateIp(cidr.version, pools, manager.allocations, preferNext);
        if generated.Err? {
          return generated;
        }
        ipAddress := generated.value;
      }
      manager.CreateAllocation(ipAddress);
      return Ok(ipAddress);
    }

    method Deallocate(a: Ip) returns (r: Check)
      modifies manager
      ensures r == (if a in old(manager.allocations) then Pass else Fail(AllocationNotFound))
      ensures manager.allocations == RemoveFirst(old(manager.allocations), a)
    {
      r := manager.DeleteAllocation(a);
    }

    method ListAllocations() returns (records: seq<Ip>)
      ensures records == manager.allocations
    {
      records := manager.ListAllocations();
    }
  }
}
