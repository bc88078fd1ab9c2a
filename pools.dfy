/** Allocation pools of a subnet: the default pools derived from a CIDR and
    gateway, and the parsing and validation of pools a caller supplies. */
module Pools {
  import opened Errors
  import opened Addresses

  /** Lowest address a pool may hold: the one after the network address. */
  function UsableFirst(c: Cidr): nat
    requires c.Valid()
  {
    c.First() + 1
  }

  /** Highest address a pool may hold: the last address of the block, or
      for IPv4 the one before the broadcast address. */
  function UsableLast(c: Cidr): int
    requires c.Valid()
  {
    c.Last() - (if c.version == V4 then 1 else 0)
  }

  /** Ranges in ascending order, each non-empty, no two sharing or even
      touching an address: the normal form of a netaddr.IPSet. */
  predicate Ascending(rs: seq<IpRange>) {
    && (forall i :: 0 <= i < |rs| ==> rs[i].first <= rs[i].last)
    && (forall i, j :: 0 <= i < j < |rs| ==> rs[i].last + 1 < rs[j].first)
  }

  /** The ranges left when address a is taken out of range r. */
  function RemoveAddress(r: IpRange, a: nat): (rs: seq<IpRange>)
    requires r.first <= r.last
    ensures Ascending(rs)
    ensures forall x :: InPools(rs, x) <==> r.Contains(x) && x != a
    ensures forall i :: 0 <= i < |rs| ==>
      rs[i].version == r.version && r.first <= rs[i].first && rs[i].last <= r.last
  {
    if !r.Contains(a) then
      assert forall x :: r.Contains(x) ==> [r][0].Contains(x);
      [r]
    else
      var below := if r.first < a then [IpRange(r.version, r.first, a - 1)] else [];
      var above := if a < r.last then [IpRange(r.version, a + 1, r.last)] else [];
      var rs := below + above;
      assert forall x: nat :: r.Contains(x) && x < a ==> rs[0].Contains(x);
      assert forall x: nat :: r.Contains(x) && x > a ==> rs[|rs| - 1].Contains(x);
      rs
  }

  /** Reference meaning of the default pools: the addresses they must hold. */
  predicate InDefaultPools(c: Cidr, gateway: Option<Ip>, a: nat)
    requires c.Valid()
  {
    if c.First() == c.Last() then
      a == c.First()
    else
      && UsableFirst(c) < UsableLast(c)
      && UsableFirst(c) <= a <= UsableLast(c)
      && (gateway.None? || a != gateway.value.value)
  }

  /** Default allocation pools of a subnet: its usable range, with the
      gateway (if any) punched out. A single-address block is its own pool;
      a block with no usable address range gives no pools. */
  function GeneratePools(c: Cidr, gateway: Option<Ip>): (r: Result<seq<IpRange>>)
    requires c.Valid()
    ensures r.Err? <==>
      c.First() != c.Last() && UsableFirst(c) < UsableLast(c)
      && gateway.Some? && gateway.value.version != c.version
    ensures r.Err? ==> r.error == AddressFormatError
    ensures r.Ok? ==> Ascending(r.value)
    ensures r.Ok? ==> forall i :: 0 <= i < |r.value| ==>
      r.value[i].version == c.version && c.First() <= r.value[i].first && r.value[i].last <= c.Last()
    ensures r.Ok? ==> forall a :: InPools(r.value, a) <==> InDefaultPools(c, gateway, a)
  {
    var first, last := c.First(), c.Last();
    if first == last then
      var pool := IpRange(c.version, first, last);
      assert forall a :: InPools([pool], a) <==> a == first by {
        forall a ensures InPools([pool], a) <==> a == first {
          if a == first { assert [pool][0].Contains(a); }
        }
      }
      Ok([pool])
    else
      var firstIp, lastIp := UsableFirst(c), UsableLast(c);
      if firstIp >= lastIp then
        Ok([])
      else
        var usable := IpRange(c.version, firstIp, lastIp as nat);
        match gateway
        case None =>
          assert forall a :: InPools([usable], a) <==> usable.Contains(a) by {
            forall a ensures InPools([usable], a) <==> usable.Contains(a) {
              if usable.Contains(a) { assert [usable][0].Contains(a); }
            }
          }
          Ok([usable])
        case Some(gw) =>
          if gw.version != c.version then Err(AddressFormatError)
          else Ok(RemoveAddress(usable, gw.value))
  }

  /** A gateway of the subnet's family outside the usable range leaves the
      default pools as they are without one. */
  lemma GatewayOutsideChangesNothing(c: Cidr, gw: Ip)
    requires c.Valid() && gw.version == c.version
    requires !(UsableFirst(c) <= gw.value <= UsableLast(c))
    ensures GeneratePools(c, Some(gw)) == GeneratePools(c, None)
  {
  }

  /** A single-address block is its own pool, whatever the gateway; an
      IPv4 /31 and an IPv6 /127 have no usable range and so no pools. */
  lemma GeneratePoolsDegenerate(c: Cidr, gateway: Option<Ip>)
    requires c.Valid()
    ensures c.First() == c.Last() ==> GeneratePools(c, gateway) == Ok([IpRange(c.version, c.First(), c.First())])
    ensures c.prefixLen == Width(c.version) - 1 ==> GeneratePools(c, gateway) == Ok([])
  {
    if c.prefixLen == Width(c.version) - 1 {
      assert c.BlockSize() == 2 by {
        assert Pow2(1) == 2;
      }
      assert c.Last() == c.First() + 1;
    }
  }

  /** 10.0.0.0/24 without a gateway: everything between the network and
      broadcast addresses. */
  lemma DefaultPoolsExample()
    ensures GeneratePools(Cidr(V4, 0x0A00_0000, 24), None) == Ok([IpRange(V4, 0x0A00_0001, 0x0A00_00FE)])
  {
    var c := Cidr(V4, 0x0A00_0000, 24);
    Pow2Values();
    assert c.BlockSize() == 0x100;
    assert c.First() == 0x0A00_0000;
  }

  /** 10.0.0.0/24 with gateway 10.0.0.1: the gateway is cut off the front. */
  lemma GatewayPoolsExample()
    ensures GeneratePools(Cidr(V4, 0x0A00_0000, 24), Some(Ip(V4, 0x0A00_0001)))
      == Ok([IpRange(V4, 0x0A00_0002, 0x0A00_00FE)])
  {
    var c := Cidr(V4, 0x0A00_0000, 24);
    Pow2Values();
    assert c.BlockSize() == 0x100;
    assert c.First() == 0x0A00_0000;
    assert c.Last() == 0x0A00_00FF;
    assert UsableFirst(c) == 0x0A00_0001 && UsableLast(c) == 0x0A00_00FE;
    var usable := IpRange(V4, 0x0A00_0001, 0x0A00_00FE);
    assert GeneratePools(c, Some(Ip(V4, 0x0A00_0001))) == Ok(RemoveAddress(usable, 0x0A00_0001));
    assert RemoveAddress(usable, 0x0A00_0001) == [] + [IpRange(V4, 0x0A00_0002, 0x0A00_00FE)];
    assert [] + [IpRange(V4, 0x0A00_0002, 0x0A00_00FE)] == [IpRange(V4, 0x0A00_0002, 0x0A00_00FE)];
  }

  /** A single-address block 10.0.0.5/32 is its own pool. */
  lemma HostPoolExample()
    ensures GeneratePools(Cidr(V4, 0x0A00_0005, 32), None) == Ok([IpRange(V4, 0x0A00_0005, 0x0A00_0005)])
  {
    var c := Cidr(V4, 0x0A00_0005, 32);
    assert c.BlockSize() == 1;
    assert c.First() == 0x0A00_0005;
  }

  /** A pool as supplied by a caller; None is a bound that does not parse. */
  datatype RawPool = RawPool(start: Option<Ip>, end: Option<Ip>)

  /** netaddr.IPRange(start, end): the end is read in the start's family,
      and a start above the end is refused. */
  function ParsePool(raw: RawPool): (r: Result<IpRange>)
    ensures r.Ok? <==>
      raw.start.Some? && raw.end.Some? && raw.start.value.version == raw.end.value.version
      && raw.start.value.value <= raw.end.value.value
    ensures r.Ok? ==> r.value.version == raw.start.value.version && r.value.first <= r.value.last
    ensures r.Ok? ==> forall a: nat :: r.value.Contains(a) <==> raw.start.value.value <= a <= raw.end.value.value
    ensures r.Err? ==> r.error == InvalidAllocationPool
  {
    match (raw.start, raw.end)
    case (Some(s), Some(e)) =>
      if s.version == e.version && s.value <= e.value then Ok(IpRange(s.version, s.value, e.value))
      else Err(InvalidAllocationPool)
    case _ => Err(InvalidAllocationPool)
  }

  /** All pools parsed, in order, or InvalidAllocationPool at the first that fails. */
  function ParsedPools(raws: seq<RawPool>): (r: Result<seq<IpRange>>)
    ensures r.Ok? <==> forall i :: 0 <= i < |raws| ==> ParsePool(raws[i]).Ok?
    ensures r.Ok? ==> |r.value| == |raws| && forall i :: 0 <= i < |raws| ==> ParsePool(raws[i]) == Ok(r.value[i])
    ensures r.Err? ==> r.error == InvalidAllocationPool
  {
    if |raws| == 0 then Ok([])
    else
      match ParsePool(raws[0])
      case Err(e) => Err(e)
      case Ok(p) =>
        match ParsedPools(raws[1..])
        case Err(e) => Err(e)
        case Ok(ps) =>
          assert forall i :: 1 <= i < |raws| ==> raws[i] == raws[1..][i - 1];
          Ok([p] + ps)
  }

  method PoolsToIpRange(raws: seq<RawPool>) returns (r: Result<seq<IpRange>>)
    ensures r == ParsedPools(raws)
  {
    var ranges: seq<IpRange> := [];
    for i := 0 to |raws|
      invariant |ranges| == i
      invariant forall j :: 0 <= j < i ==> ParsePool(raws[j]) == Ok(ranges[j])
    {
      var p := ParsePool(raws[i]);
      if p.Err? {
        return Err(InvalidAllocationPool);
      }
      ranges := ranges + [p.value];
    }
    assert ParsedPools(raws).value == ranges;
    return Ok(ranges);
  }

  /** The per-pool check: family first, then bounds. */
  function PoolCheck(p: IpRange, c: Cidr): Check
    requires c.Valid()
  {
    if p.version != c.version then Fail(InvalidAllocationPool)
    else if p.first < UsableFirst(c) || p.last > UsableLast(c) then Fail(OutOfBoundsAllocationPool)
    else Pass
  }

  /** The per-pool check as validate_allocation_pools writes it: the usable
      bounds are built with no family (so a bound below 2^32 is an IPv4
      address, and one outside the address space is an error) and the pool's
      ends are compared with them in netaddr's family-first order. */
  function PoolCheckAsWritten(p: IpRange, c: Cidr): (r: Check)
    requires c.Valid()
    ensures r == Fail(AddressFormatError) <==> UsableFirst(c) >= Bound(V6) || UsableLast(c) < 0
    ensures r != Fail(AddressFormatError) && p.version != c.version ==> r == Fail(InvalidAllocationPool)
  {
    CidrBounds(c);
    match (IpFromInt(UsableFirst(c)), IpFromInt(UsableLast(c)))
    case (Ok(lo), Ok(hi)) =>
      if p.version != c.version then Fail(InvalidAllocationPool)
      else if Precedes(Ip(p.version, p.first), lo) || Precedes(hi, Ip(p.version, p.last)) then
        Fail(OutOfBoundsAllocationPool)
      else Pass
    case _ => Fail(AddressFormatError)
  }

  /** Whenever both usable bounds are addresses of the subnet's own family,
      the check as written is the per-pool check the rest of the model uses. */
  lemma PoolCheckAsWrittenAgrees(p: IpRange, c: Cidr)
    requires c.Valid() && p.WellFormed()
    requires c.version == V4 ==> c.Last() >= 1
    requires c.version == V6 ==> Bound(V4) <= c.First() && c.First() + 1 < Bound(V6)
    ensures PoolCheckAsWritten(p, c) == PoolCheck(p, c)
  {
    CidrBounds(c);
    var lo, hi := IpFromInt(UsableFirst(c)), IpFromInt(UsableLast(c));
    if c.version == V4 {
      assert lo.Ok? && hi == Ok(Ip(V4, UsableLast(c)));
      if lo.value.version == V6 {
        assert UsableFirst(c) == Bound(V4);
      }
    } else {
      assert lo == Ok(Ip(V6, UsableFirst(c))) && hi == Ok(Ip(V6, UsableLast(c)));
    }
  }

  /** The block ::/64 runs from :: to ::ffff:ffff:ffff:ffff. */
  lemma FirstSlash64Bounds()
    ensures Cidr(V6, 0, 64).Valid()
    ensures Cidr(V6, 0, 64).First() == 0 && Cidr(V6, 0, 64).Last() == 0xFFFF_FFFF_FFFF_FFFF
  {
    Pow2Values();
    assert Cidr(V6, 0, 64).BlockSize() == Pow2(64);
  }

  /** ::/64 accepts a pool that starts at its network address ::, because
      the lower bound ::1 is read as the IPv4 address 0.0.0.1, which every
      IPv6 address follows. */
  lemma NetworkAddressPoolAsWritten()
    ensures PoolCheckAsWritten(IpRange(V6, 0, 0xFF), Cidr(V6, 0, 64)) == Pass
    ensures PoolCheck(IpRange(V6, 0, 0xFF), Cidr(V6, 0, 64)) == Fail(OutOfBoundsAllocationPool)
  {
    var c := Cidr(V6, 0, 64);
    FirstSlash64Bounds();
    assert UsableFirst(c) == 1 && UsableLast(c) == 0xFFFF_FFFF_FFFF_FFFF;
  }

  /** ::/120 refuses every pool, because the upper bound ::ff is read as the
      IPv4 address 0.0.0.255, which every IPv6 address follows. */
  lemma SmallIpv6SubnetAsWritten()
    ensures PoolCheckAsWritten(IpRange(V6, 1, 0x10), Cidr(V6, 0, 120)) == Fail(OutOfBoundsAllocationPool)
    ensures PoolCheck(IpRange(V6, 1, 0x10), Cidr(V6, 0, 120)) == Pass
  {
    var c := Cidr(V6, 0, 120);
    Pow2Values();
    assert c.BlockSize() == 0x100;
    assert c.First() == 0 && c.Last() == 0xFF;
  }

  /** 0.0.0.0/32 fails on the upper bound itself: one below the broadcast
      address is -1, which is no address at all. */
  lemma ZeroHostSubnetAsWritten()
    ensures PoolCheckAsWritten(IpRange(V4, 0, 0), Cidr(V4, 0, 32)) == Fail(AddressFormatError)
    ensures PoolCheck(IpRange(V4, 0, 0), Cidr(V4, 0, 32)) == Fail(OutOfBoundsAllocationPool)
  {
    var c := Cidr(V4, 0, 32);
    assert c.BlockSize() == 1;
    assert c.First() == 0 && c.Last() == 0;
  }

  /** The outcome of checking pools one by one: the first failure, if any. */
  function FirstPoolFailure(pools: seq<IpRange>, c: Cidr): (r: Check)
    requires c.Valid()
    ensures r == Pass <==> forall i :: 0 <= i < |pools| ==> PoolCheck(pools[i], c) == Pass
    ensures r.Fail? ==> exists k :: 0 <= k < |pools| && r == PoolCheck(pools[k], c)
                                    && (forall j :: 0 <= j < k ==> PoolCheck(pools[j], c) == Pass)
  {
    if |pools| == 0 then Pass
    else if PoolCheck(pools[0], c).Fail? then PoolCheck(pools[0], c)
    else
      var rest := FirstPoolFailure(pools[1..], c);
      assert forall i :: 1 <= i < |pools| ==> pools[i] == pools[1..][i - 1];
      if rest.Fail? then
        var k :| 0 <= k < |pools[1..]| && rest == PoolCheck(pools[1..][k], c)
          && forall j :: 0 <= j < k ==> PoolCheck(pools[1..][j], c) == Pass;
        assert forall j :: 0 <= j < k + 1 ==> PoolCheck(pools[j], c) == Pass by {
          forall j | 0 <= j < k + 1 ensures PoolCheck(pools[j], c) == Pass {
            if j > 0 { assert pools[j] == pools[1..][j - 1]; }
          }
        }
        rest
      else rest
  }

  /** Two ranges share an address (an IPSet intersection is non-empty). */
  predicate Overlaps(p: IpRange, q: IpRange) {
    p.first <= q.last && q.first <= p.last
  }

  lemma OverlapsIff(p: IpRange, q: IpRange)
    requires p.first <= p.last && q.first <= q.last
    ensures Overlaps(p, q) <==> exists a :: p.Contains(a) && q.Contains(a)
  {
    if Overlaps(p, q) {
      var a := if p.first < q.first then q.first else p.first;
      assert p.Contains(a) && q.Contains(a);
    }
  }

  predicate PairwiseDisjoint(pools: seq<IpRange>) {
    forall i, j :: 0 <= i < j < |pools| ==> !Overlaps(pools[i], pools[j])
  }

  /** What validate_allocation_pools raises, if anything: per-pool checks in
      order first, and only then the overlap check. */
  function ValidationResult(pools: seq<IpRange>, c: Cidr): Check
    requires c.Valid()
  {
    var perPool := FirstPoolFailure(pools, c);
    if perPool.Fail? then perPool
    else if PairwiseDisjoint(pools) then Pass
    else Fail(OverlappingAllocationPools)
  }

  method ValidateAllocationPools(pools: seq<IpRange>, c: Cidr) returns (r: Check)
    requires c.Valid()
    ensures r == ValidationResult(pools, c)
  {
    var subnetFirstIp, subnetLastIp := UsableFirst(c), UsableLast(c);
    for i := 0 to |pools|
      invariant forall j :: 0 <= j < i ==> PoolCheck(pools[j], c) == Pass
    {
      var pool := pools[i];
      if pool.version != c.version {
        return Fail(InvalidAllocationPool);
      }
      if pool.first < subnetFirstIp || pool.last > subnetLastIp {
        return Fail(OutOfBoundsAllocationPool);
      }
    }
    for l := 0 to |pools|
      invariant forall x, y :: 0 <= x < l && x < y < |pools| ==> !Overlaps(pools[x], pools[y])
    {
      for rr := l + 1 to |pools|
        invariant forall y :: l < y < rr ==> !Overlaps(pools[l], pools[y])
      {
        if Overlaps(pools[l], pools[rr]) {
          return Fail(OverlappingAllocationPools);
        }
      }
    }
    return Pass;
  }

  /** Validated pools, read as sets of addresses: of the subnet's family,
      inside its usable range, and pairwise disjoint - and conversely. */
  lemma ValidationPassMeans(pools: seq<IpRange>, c: Cidr)
    requires c.Valid()
    requires forall i :: 0 <= i < |pools| ==> pools[i].first <= pools[i].last
    ensures ValidationResult(pools, c) == Pass <==>
      && (forall i :: 0 <= i < |pools| ==> pools[i].version == c.version)
      && (forall i, a: nat :: 0 <= i < |pools| && pools[i].Contains(a) ==> UsableFirst(c) <= a <= UsableLast(c))
      && (forall i, j, a :: 0 <= i < j < |pools| ==> !(pools[i].Contains(a) && pools[j].Contains(a)))
  {
    var inBounds := forall i, a: nat :: 0 <= i < |pools| && pools[i].Contains(a) ==> UsableFirst(c) <= a <= UsableLast(c);
    if inBounds {
      forall i | 0 <= i < |pools| ensures UsableFirst(c) <= pools[i].first && pools[i].last <= UsableLast(c) {
        assert pools[i].Contains(pools[i].first) && pools[i].Contains(pools[i].last);
      }
    }
    forall i, j | 0 <= i < j < |pools|
      ensures Overlaps(pools[i], pools[j]) <==> exists a :: pools[i].Contains(a) && pools[j].Contains(a)
    {
      OverlapsIff(pools[i], pools[j]);
    }
  }

  /** The gateway lies in some pool of its own family. */
  predicate GatewayInPools(gw: Ip, pools: seq<IpRange>) {
    exists i :: 0 <= i < |pools| && pools[i].version == gw.version && pools[i].Contains(gw.value)
  }

  method ValidateGwOutOfPools(gw: Ip, pools: seq<IpRange>) returns (r: Check)
    ensures r == Pass <==> forall i :: 0 <= i < |pools| ==> !(pools[i].version == gw.version && pools[i].Contains(gw.value))
    ensures r.Fail? ==> r.error == GatewayConflictWithAllocationPools
  {
    for i := 0 to |pools|
      invariant forall j :: 0 <= j < i ==> !(pools[j].version == gw.version && pools[j].Contains(gw.value))
    {
      if pools[i].version == gw.version && pools[i].Contains(gw.value) {
        return Fail(GatewayConflictWithAllocationPools);
      }
    }
    return Pass;
  }

  /** The staged outcome for caller-supplied pools: parse, validate, then
      check the gateway (only when there is one). */
  function PrepareExplicit(raws: seq<RawPool>, c: Cidr, gateway: Option<Ip>): Result<seq<IpRange>>
    requires c.Valid()
  {
    match ParsedPools(raws)
    case Err(e) => Err(e)
    case Ok(ps) =>
      var v := ValidationResult(ps, c);
      if v.Fail? then Err(v.error)
      else if gateway.Some? && GatewayInPools(gateway.value, ps) then Err(GatewayConflictWithAllocationPools)
      else Ok(ps)
  }

  /** Pools a subnet can be built on: of its family, non-empty, inside its
      block and pairwise disjoint. */
  predicate PreparedPools(pools: seq<IpRange>, c: Cidr)
    requires c.Valid()
  {
    && (forall i :: 0 <= i < |pools| ==>
          pools[i].version == c.version && pools[i].first <= pools[i].last
          && c.First() <= pools[i].first && pools[i].last <= c.Last())
    && PairwiseDisjoint(pools)
  }

  method PrepareAllocationPools(raws: seq<RawPool>, c: Cidr, gateway: Option<Ip>) returns (r: Result<seq<IpRange>>)
    requires c.Valid()
    ensures |raws| == 0 ==> r == GeneratePools(c, gateway)
    ensures |raws| > 0 ==> r == PrepareExplicit(raws, c, gateway)
    ensures r.Ok? ==> PreparedPools(r.value, c)
    ensures r.Ok? && |raws| > 0 ==>
      |r.value| == |raws| && (forall i :: 0 <= i < |raws| ==> ParsePool(raws[i]) == Ok(r.value[i]))
      && (gateway.Some? ==> !GatewayInPools(gateway.value, r.value))
  {
    if |raws| == 0 {
      r := GeneratePools(c, gateway);
      if r.Ok? {
        forall i, j | 0 <= i < j < |r.value| ensures !Overlaps(r.value[i], r.value[j]) {
        }
      }
      return;
    }
    var parsed := PoolsToIpRange(raws);
    if parsed.Err? {
      return Err(parsed.error);
    }
    var ipRangePools := parsed.value;
    var valid := ValidateAllocationPools(ipRangePools, c);
    if valid.Fail? {
      return Err(valid.error);
    }
    if gateway.Some? {
      var gw := ValidateGwOutOfPools(gateway.value, ipRangePools);
      if gw.Fail? {
        return Err(gw.error);
      }
    }
    CidrBounds(c);
    return Ok(ipRangePools);
  }
}
