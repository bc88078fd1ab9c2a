# IPAM allocation core, modelled in Dafny

This project models the address-management core of `sample_ipam_server.py`,
a small IPAM (IP address management) server. It covers these parts:

- **Default allocation pools** for a subnet (`generate_pools`): the usable
  range of a CIDR block with the gateway punched out.
- **Explicit pools** (`prepare_allocation_pools`): parsed, validated pool by
  pool, checked for overlaps, then checked against the gateway.
- **Free-address selection** (`_generate_ip`): the pools minus the
  allocations, a window of the lowest 1 or at most 30 free addresses, and a
  random pick inside it.
- **The four address requests** (specific, any, prefer-next, automatic), and
  the EUI-64 derivation of an IPv6 address from a prefix and a MAC address
  (RFC 4291, Appendix A).
- **Per-subnet state.** `IpamSubnetManager` holds a list of allocation
  records. `DummyNeutronDbSubnet` allocates into it and releases from it.
- **The subnet registry** behind `ipam_allocate_ips`, `ipam_deallocate_ips`
  and `get_ips`. A subnet is created on first use and registered only after
  its first allocation succeeds.

Addresses are naturals tagged with their family (`Ip(version, value)`).
Ranges are inclusive `(first, last)` pairs. An IPSet in normal form is an
ascending list of ranges that neither overlap nor touch. Every exception the
core raises is a constructor of `Errors.Error`. Operations return a `Result`
or a `Check`, and an exception becomes the matching error value. Two things
are imperative, as in the source:

- the record list and the registry map are fields of classes, changed by
  methods;
- the loops of `pools_to_ip_range`, `validate_allocation_pools`,
  `validate_gw_out_of_pools`, the free-address scan and the two batch
  operations are `for`/`while` loops with invariants.

Each loop is proved against a specification function or predicate.
Randomness (`random.randint`) is a nondeterministic choice (`:|`): every
property is proved for every choice.

Three behaviours of the code are easy to miss; the model keeps them:

- A pool of the wrong family raises `InvalidAllocationPool`, not
  `OutOfBoundsAllocationPool`.
- An IPv6 `/127` gets no default pools, just like an IPv4 `/31`.
- `generate_pools` reads the gateway in the subnet's family. A gateway of the
  other family is a format error.

Files:

| file | module | contents |
|---|---|---|
| errors.dfy | Errors | error values, Option/Result/Check, and Field (absent, malformed or given) |
| addresses.dfy | Addresses | families, addresses, ranges, CIDR blocks, `IPAddress(int)` and netaddr's ordering |
| pools.dfy | Pools | generate_pools, pools_to_ip_range, validate_allocation_pools, validate_gw_out_of_pools, prepare_allocation_pools |
| requests.dfy | Requests | address requests, EUI-64, AutomaticAddressRequest |
| engine.dfy | Engine | _generate_ip |
| subnets.dfy | Subnets | IpamSubnetManager, DummyNeutronDbSubnet |
| registry.dfy | Registry | the subnet registry, ipam_allocate_ips, ipam_deallocate_ips, get_ips |

## Model

| member | source | states |
|---|---|---|
| Addresses.IpFromInt | sample_ipam_server.py:261-263 | `IPAddress(n)` with no family succeeds exactly for 0 <= n < 2^128, keeps the value, and is IPv4 exactly when n < 2^32; otherwise it is a format error |
| Addresses.CidrBounds | sample_ipam_server.py:218-221 | the network address is the block address with its host bits cleared (a multiple of the block size), and network <= address <= last < 2^width |
| Pools.RemoveAddress | sample_ipam_server.py:231-234 | removing one address from a range leaves ascending, non-touching ranges of the same family inside the range, holding exactly the range's addresses other than the removed one |
| Pools.GeneratePools | sample_ipam_server.py:211-234 | the default pools are ascending and disjoint, of the subnet's family and inside its block; they hold exactly the usable range minus the gateway (or the single address of a one-address block); a gateway of the other family is a format error, and nothing else fails |
| Pools.GeneratePoolsDegenerate | sample_ipam_server.py:222-230 | a one-address block gives exactly the pool `[first, first]`; an IPv4 /31 and an IPv6 /127 give no pools |
| Pools.GatewayOutsideChangesNothing | sample_ipam_server.py:231-234 | a gateway of the subnet's family outside the usable range gives the same pools as no gateway |
| Pools.DefaultPoolsExample | sample_ipam_server.py:225-234 | 10.0.0.0/24 without a gateway gives the single pool 10.0.0.1-10.0.0.254 |
| Pools.GatewayPoolsExample | sample_ipam_server.py:231-234 | 10.0.0.0/24 with gateway 10.0.0.1 gives the single pool 10.0.0.2-10.0.0.254 |
| Pools.HostPoolExample | sample_ipam_server.py:222-224 | 10.0.0.5/32 gives the single pool 10.0.0.5-10.0.0.5 |
| Pools.ParsePool | sample_ipam_server.py:241-248 | parsing succeeds exactly when both bounds are addresses of one family and the start is not above the end; the pool is then the range [start, end] in the start's family; every failure (a bound that is not an address, an end of the other family, a start above the end) is InvalidAllocationPool |
| Pools.ParsedPools | sample_ipam_server.py:237-249 | parsing a list succeeds exactly when every pool parses, giving the parsed pools one for one in input order; otherwise it fails with InvalidAllocationPool |
| Pools.PoolsToIpRange | sample_ipam_server.py:237-249 | the appending loop computes exactly ParsedPools |
| Pools.FirstPoolFailure | sample_ipam_server.py:267-279 | checking pools one by one passes exactly when every pool passes; a failure is the failure of some pool all of whose predecessors pass |
| Pools.OverlapsIff | sample_ipam_server.py:282-292 | two non-empty ranges overlap exactly when some address lies in both (the IPSet intersection is non-empty) |
| Pools.ValidateAllocationPools | sample_ipam_server.py:252-298 | the per-pool loop and the nested pair loops compute exactly ValidationResult: the first per-pool failure in order (family, then bounds), and only if there is none, OverlappingAllocationPools when some pair overlaps |
| Pools.ValidationPassMeans | sample_ipam_server.py:252-298 | validation passes exactly when every pool is of the subnet's family, every address of every pool is in the usable range, and no address lies in two pools |
| Pools.PoolCheckAsWritten | sample_ipam_server.py:260-279 | the per-pool check as written, bounds built by a family-less `IPAddress(n)` and compared in family-first order: a format error exactly when the usable first is 2^128 or more or the usable last is negative, otherwise a pool of the other family is InvalidAllocationPool; `Pools.PoolCheckAsWrittenAgrees` and the three counterexample lemmas say where it agrees with the corrected check and where not |
| Pools.PoolCheckAsWrittenAgrees | sample_ipam_server.py:260-279 | when both usable bounds are addresses of the subnet's own family, the per-pool check as written equals the per-pool check of the model |
| Pools.NetworkAddressPoolAsWritten | sample_ipam_server.py:261-279 | as written, ::/64 accepts the pool ::-::ff, which starts at the network address; the corrected check refuses it as out of bounds |
| Pools.SmallIpv6SubnetAsWritten | sample_ipam_server.py:263-279 | as written, ::/120 refuses the pool ::1-::10 as out of bounds; the corrected check accepts it |
| Pools.ZeroHostSubnetAsWritten | sample_ipam_server.py:263 | as written, 0.0.0.0/32 fails with a format error on its own upper bound; the corrected check reports the pool out of bounds |
| Pools.ValidateGwOutOfPools | sample_ipam_server.py:301-304 | the gateway check passes exactly when no pool of the gateway's family contains it; its only failure is GatewayConflictWithAllocationPools |
| Pools.PrepareAllocationPools | sample_ipam_server.py:199-208 | with no explicit pools the result is GeneratePools; otherwise it is the staged outcome: parse, validate, then the gateway check only if there is a gateway. Explicit pools come back unchanged, one for one, in input order, with the gateway in none of them. Any successful result is pools of the subnet's family, non-empty, inside the block and pairwise disjoint |
| Requests.Eui64 | sample_ipam_server.py:187 | the EUI-64 of a 48-bit MAC is below 2^64, carries the MAC's upper 24 bits (the OUI) at bits 40-63, 0xFFFE at bits 24-39 and the MAC's lower 24 bits at bits 0-23 |
| Requests.FlipUniversalLocalBits | sample_ipam_server.py:189 | XOR with 2^57 inverts bit 57 and keeps every bit below and above it, and keeps a 64-bit value within 64 bits |
| Requests.Eui64AddressIsModifiedEui64 | sample_ipam_server.py:173-189 | with an IPv6 prefix of at most 64 bits the derived address is an IPv6 address whose upper 64 bits are the prefix's and whose lower 64 bits are the EUI-64 of the MAC with the universal/local bit inverted |
| Requests.Eui64Address | sample_ipam_server.py:173-189 | the address `(prefix.first + eui64(mac)) ^ 2^57`, read without a family: a valid address when it succeeds, a format error otherwise; its layout for IPv6 prefixes of at most /64 is `Requests.Eui64AddressIsModifiedEui64` |
| Requests.Eui64Example | sample_ipam_server.py:173-189 | 2001:db8::/64 with 00:11:22:33:44:55 gives 2001:db8::211:22ff:fe33:4455 |
| Requests.AutomaticRequest | sample_ipam_server.py:74-101 | an unknown address type is InvalidAddressType; keyword arguments other than exactly {prefix, mac} are AddressCalculationFailure; with type eui64, exactly {prefix, mac} and a given MAC, the request succeeds exactly when the EUI-64 derivation does, as an automatic request for that address, and otherwise fails with the derivation's error; a malformed MAC is AddressFormatError |
| Engine.NextFree | sample_ipam_server.py:134-149 | the scan over the pools finds a free address at or above its start, and no free address at or above the start is lower than it; it finds nothing only when there is no such address |
| Engine.SelectionWindow | sample_ipam_server.py:143-149 | the window lists, in ascending order, the lowest free addresses: all of them, or exactly `limit` of them with every free address left out above them all |
| Engine.RankInWindow | sample_ipam_server.py:148-151 | fewer free addresses lie below the k-th window entry than k + 1 |
| Engine.GenerateIp | sample_ipam_server.py:132-152 | it fails (AllocationExhausted) exactly when no address is free; otherwise the address is of the subnet's family, in a pool, not yet allocated, and among the first 30 free addresses (the first one with prefer-next, which is then the lowest free address) |
| Subnets.RemoveFirst | sample_ipam_server.py:116-117 | `list.remove` without its error: the list without the first occurrence of the record, one entry shorter when the record is present and unchanged in length otherwise; its exact shape is `Subnets.RemoveFirstAt`, `Subnets.RemoveFirstAbsent` and `Subnets.RemoveFirstMultiset` |
| Subnets.FirstIndex | sample_ipam_server.py:116-117 | the index found holds the record, and no earlier index does |
| Subnets.RemoveFirstAt | sample_ipam_server.py:116-117 | removing a present record deletes exactly the entry at its first index |
| Subnets.RemoveFirstAbsent | sample_ipam_server.py:116-117 | removing an absent record leaves the list as it is |
| Subnets.RemoveFirstMultiset | sample_ipam_server.py:116-117 | removal takes exactly one occurrence out of the multiset of records |
| Subnets.AllocateThenRelease | sample_ipam_server.py:113-117 | appending a record and then removing it restores the multiset of records and with it the free space |
| Subnets.SubnetManager.constructor | sample_ipam_server.py:106-108 | a new manager has its subnet id and no records |
| Subnets.SubnetManager.ListAllocations | sample_ipam_server.py:110-111 | returns the records as they are |
| Subnets.SubnetManager.CreateAllocation | sample_ipam_server.py:113-114 | appends exactly one record at the end and keeps the others |
| Subnets.SubnetManager.DeleteAllocation | sample_ipam_server.py:116-117 | removes the first matching record and fails with AllocationNotFound, changing nothing, when there is none |
| Subnets.DbSubnet.constructor | sample_ipam_server.py:122-127 | a new subnet keeps its id, CIDR and pools, and owns a fresh manager with no records |
| Subnets.DbSubnet.Allocate | sample_ipam_server.py:154-164 | a specific or automatic request records and returns its own address, whatever the pools and records (no check is made); any other request records the generated address with the GenerateIp guarantees; success appends exactly one record, and failure changes nothing |
| Subnets.DbSubnet.Deallocate | sample_ipam_server.py:166-167 | removes the first matching record, or fails with AllocationNotFound |
| Subnets.DbSubnet.ListAllocations | sample_ipam_server.py:169-170 | returns the manager's records |
| Registry.RequestFor | sample_ipam_server.py:319-326 | the request is chosen by priority: an address (specific), else a MAC (the EUI-64 address of the CIDR and MAC), else device owner "dhcp" (prefer-next), else any; a malformed address or MAC is a format error |
| Registry.RecordThenRelease | sample_ipam_server.py:336-346 | releasing an allocation just recorded succeeds, restores that subnet's records as a multiset, and leaves every other subnet's records alone |
| Registry.Registry.constructor | sample_ipam_server.py:16 | the registry starts with no subnets |
| Registry.Registry.AllocateOnRegistered | sample_ipam_server.py:328-329 | allocating on a registered subnet appends one record to it alone; a specific request gets its own address; any other gets an address free of the subnet's records and of its family, with fewer than 30 free addresses below it, and none below it for a prefer-next request (the lowest free address); it fails, with AllocationExhausted, exactly when no address of the pools is free |
| Registry.Registry.Register | sample_ipam_server.py:334 | files the subnet under its id and keeps every other subnet and its records |
| Registry.Registry.NewSubnet | sample_ipam_server.py:332-333 | a fresh subnet with the request's id and CIDR and exactly the given pools, with one allocation on it: a specific request gets its own address; any other fails, with AllocationExhausted, exactly when the pools hold no address, and otherwise gets an address of them with fewer than 30 pool addresses below it (none for prefer-next); the subnet then holds exactly that record |
| Registry.Registry.AllocateOnNew | sample_ipam_server.py:330-334 | a preparation error (`Prepared`: default pools without explicit ones, else parse, validate and gateway check) is returned as it is; otherwise a specific request succeeds with its address, and any other fails, with AllocationExhausted, exactly when the prepared pools hold no address; on success the subnet is registered with the request's CIDR, exactly the prepared pools and exactly its first record; on failure nothing changes; a request that names no address gets a pool address with fewer than 30 pool addresses below it, none for prefer-next |
| Registry.Registry.AllocateOne | sample_ipam_server.py:310-334 | one request: it fails exactly when `AllocationError` names an error (building the request, preparing a new subnet's pools, or no free address for a request that names none), and then with that error and no change; success records the answer under the request's subnet and answers the request (`Answered`): the address it names, or, for any other request, an address of the subnet's family free of the records held before, with fewer than 30 free addresses below it, and none for a "dhcp" (prefer-next) request; a registered subnet is reused as it is (its own pools and CIDR, not the request's), though the request's CIDR is still the prefix of an EUI-64 address; a new subnet gets the request's CIDR and the prepared pools |
| Registry.Registry.AllocateNext | sample_ipam_server.py:310-335 | one iteration of the batch after the allocations so far: on success the records gain exactly the new result and every earlier answer still holds with the new one added, a subnet created at this step being built on the request's CIDR and prepared pools; on failure nothing changes and the error is the one `AllocationError` gives |
| Registry.Registry.AllocateIps | sample_ipam_server.py:307-337 | success gives one result per request, in input order, each naming its request's subnet and answering it (`Answers`) given the records left by the results before it: so each generated address was free when handed out, within the 30 lowest free addresses, and the lowest for a "dhcp" request, and a subnet the batch creates is built on its first request's CIDR and the pools prepared from that request; the records become exactly the old records with the results appended in turn; subnets already registered are unchanged; a failure leaves the allocations made before it in place, and its error is the one `AllocationError` gives for the first request not answered, in the state the answered ones left |
| Registry.Registry.ReleaseOne | sample_ipam_server.py:343-344 | an unknown subnet is UnknownSubnet, a missing record AllocationNotFound, and both change nothing; otherwise only the first matching record of that subnet is removed |
| Registry.Registry.DeallocateIps | sample_ipam_server.py:339-346 | the batch succeeds exactly when releasing the allocations in turn never meets an unknown subnet or a missing record; it then returns its input; on failure the error is the first one met; either way the records are exactly those releases applied up to the first failure, the ones before it kept |
| Registry.Registry.GetIps | sample_ipam_server.py:348-349 | the records of a registered subnet, or UnknownSubnet |
| Registry.ExplicitPoolPrepared | sample_ipam_server.py:199-208 | an any-address entry on 10.0.0.0/24 with the explicit pool 10.0.0.10-10.0.0.20 and no gateway prepares to exactly that pool |
| Registry.ExplicitPoolAllocates | sample_ipam_server.py:310-334 | on an empty registry nothing stops that entry: its request builds, its pools prepare and the pool has a free address |
| Registry.BatchOnExplicitPool | sample_ipam_server.py:307-337 | a batch of that one entry on a new registry succeeds with one result, for subnet "net", whose address lies in 10.0.0.10-10.0.0.20 |

## Left out

- HTTP routes, JSON request and response handling and `makeResponse` (sample_ipam_server.py:18-26, 352-409). They are transport around the core.
- Logging (sample_ipam_server.py:10-12 and throughout). It has no effect on results.
- Text parsing and formatting by netaddr. This covers IP addresses, CIDR strings, MAC strings and `str()` normalisation. The model takes parsed values. An address or MAC field is absent, malformed or given, and a pool bound either parses or does not. Records hold addresses, not their text. So an address written in another textual form (for example with leading zeros) cannot fail to match at release.
- A malformed CIDR string or gateway string. `Registry.SubnetRequest.WellFormed` takes the CIDR as a valid block and the MAC as a 48-bit value. EUI-64-format (64-bit) MAC input is not modelled.
- The distribution of `random.randint`. Randomness is a nondeterministic choice, and every property holds for every choice.
- The undefined `_` in the error branch of `get_ipv6_addr_by_EUI64` (sample_ipam_server.py:190-196), which would raise a name error. A bad prefix or MAC is a plain format error.
- Engine.GenerateIp: requires all pools to be of the subnet's family. This holds for every pool the model builds. The ordering of an IPSet mixing families is not modelled.
- Pools.ValidateAllocationPools: compares pools with usable bounds taken in the subnet's family. The code builds those bounds without a family (sample_ipam_server.py:261-263). That behaviour is modelled separately by `Pools.PoolCheckAsWritten` and recorded under Findings.
- Requests.Eui64AddressIsModifiedEui64: proved for IPv6 prefixes of at most 64 bits. For a longer prefix, or an IPv4 CIDR, the model computes the same expression as the code. That includes reading a value below 2^32 as IPv4, and a value of 2^128 or more as a format error. No interface-identifier property is claimed there.
- Registry.Registry.AllocateIps: a failure is tied to the error of the first request not answered, in the state the answered ones left; success is not given as a condition on the input alone, because the addresses picked at random before a request decide whether it finds one free.
- Concurrency and persistence. The server has neither; the registry is one object.

## Findings

| source | as written | input that shows it | evidently intended | confidence | as-written member | corrected member |
|---|---|---|---|---|---|---|
| sample_ipam_server.py:261-279 | the usable bounds are built with `IPAddress(n)` and no family, so a bound below 2^32 becomes an IPv4 address; netaddr orders every IPv4 address before every IPv6 address | CIDR ::/64 with pool ::-::ff is accepted, though :: is the network address; CIDR ::/120 with pool ::1-::10 is refused as out of bounds | bounds in the subnet's family: ::/64 refuses ::-::ff, ::/120 accepts ::1-::10 | medium (not executed) | Pools.NetworkAddressPoolAsWritten, Pools.SmallIpv6SubnetAsWritten | Pools.ValidationPassMeans |
| sample_ipam_server.py:263 | for 0.0.0.0/32 the upper bound is `IPAddress(-1)`, which raises a format error before any pool is looked at | CIDR 0.0.0.0/32 with pool 0.0.0.0-0.0.0.0 | the pool reported as OutOfBoundsAllocationPool, as for every other /32 | medium (not executed) | Pools.ZeroHostSubnetAsWritten | Pools.ValidationPassMeans |
