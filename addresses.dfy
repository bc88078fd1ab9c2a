/** Address arithmetic: versioned addresses, inclusive address ranges and
    CIDR blocks, all over unbounded naturals. */
module Addresses {
  import opened Errors

  datatype Version = V4 | V6

  /** Number of bits in an address of version v. */
  function Width(v: Version): nat {
    if v == V4 then 32 else 128
  }

  function Pow2(n: nat): (r: nat)
    ensures r >= 1
  {
    if n == 0 then 1 else 2 * Pow2(n - 1)
  }

  lemma {:induction false} Pow2Add(a: nat, b: nat)
    ensures Pow2(a + b) == Pow2(a) * Pow2(b)
  {
    if a > 0 {
      Pow2Add(a - 1, b);
      assert Pow2(a + b) == 2 * Pow2(a - 1 + b);
    }
  }

  lemma Pow2Square(n: nat, p: nat)
    requires Pow2(n) == p
    ensures Pow2(2 * n) == p * p
  {
    Pow2Add(n, n);
  }

  /** One past the largest address of version v. */
  function Bound(v: Version): (r: nat)
    ensures r == Pow2(Width(v))
  {
    Pow2Values();
    if v == V4 then 0x1_0000_0000 else 0x1_0000_0000_0000_0000_0000_0000_0000_0000
  }

  /** The powers of two the address layouts use, evaluated once. */
  lemma Pow2Values()
    ensures Pow2(8) == 0x100 && Pow2(16) == 0x1_0000 && Pow2(32) == 0x1_0000_0000
    ensures Pow2(64) == 0x1_0000_0000_0000_0000
    ensures Pow2(128) == 0x1_0000_0000_0000_0000_0000_0000_0000_0000
  {
    assert Pow2(2) == 4;
    Pow2Square(2, 4);
    Pow2Square(4, 0x10);
    Pow2Square(8, 0x100);
    Pow2Square(16, 0x1_0000);
    Pow2Square(32, 0x1_0000_0000);
    Pow2Square(64, 0x1_0000_0000_0000_0000);
  }

  lemma ModAtMost(a: nat, b: nat)
    requires b > 0
    ensures a % b <= a
  {
    if a >= b {
      assert a % b < b;
    } else {
      assert a == 0 * b + a;
    }
  }

  /** An address together with its family, as netaddr.IPAddress keeps it. */
  datatype Ip = Ip(version: Version, value: nat) {
    predicate Valid() {
      value < Bound(version)
    }
  }

  /** netaddr.IPAddress(n) with no family given: IPv4 below 2^32, IPv6 up
      to 2^128, and an error outside that. */
  function IpFromInt(n: int): (r: Result<Ip>)
    ensures r.Ok? <==> 0 <= n < Bound(V6)
    ensures r.Ok? ==> r.value.value == n && r.value.Valid()
    ensures r.Ok? ==> (r.value.version == V4 <==> n < Bound(V4))
    ensures r.Err? ==> r.error == AddressFormatError
  {
    if n < 0 || n >= Bound(V6) then Err(AddressFormatError)
    else if n < Bound(V4) then Ok(Ip(V4, n))
    else Ok(Ip(V6, n))
  }

  /** netaddr's ordering of addresses: by family first (every IPv4 address
      before every IPv6 address), then by value. */
  predicate Precedes(a: Ip, b: Ip) {
    (a.version == V4 && b.version == V6) || (a.version == b.version && a.value < b.value)
  }

  /** An inclusive range of addresses of one family (netaddr.IPRange). */
  datatype IpRange = IpRange(version: Version, first: nat, last: nat) {
    predicate Contains(a: nat) {
      first <= a <= last
    }

    predicate WellFormed() {
      first <= last < Bound(version)
    }
  }

  /** True iff some range of the list holds address a. */
  predicate InPools(pools: seq<IpRange>, a: nat) {
    exists i :: 0 <= i < |pools| && pools[i].Contains(a)
  }

  /** A CIDR block: an address and a prefix length (netaddr.IPNetwork). */
  datatype Cidr = Cidr(version: Version, address: nat, prefixLen: nat) {
    predicate Valid() {
      address < Bound(version) && prefixLen <= Width(version)
    }

    /** Number of addresses in the block. */
    function BlockSize(): nat
      requires Valid()
    {
      Pow2(Width(version) - prefixLen)
    }

    /** The network address: the address with its host bits cleared. */
    function First(): nat
      requires Valid()
    {
      ModAtMost(address, BlockSize());
      address - address % BlockSize()
    }

    /** The last address of the block (the broadcast address for IPv4). */
    function Last(): nat
      requires Valid()
    {
      First() + BlockSize() - 1
    }
  }

  lemma MulMonotone(b: nat, x: nat, y: nat)
    requires x <= y
    ensures b * x <= b * y
  {
    var d := y - x;
    assert b * y == b * x + b * d;
  }

  /** Clearing the low part of a below a multiple of b keeps a whole block below it. */
  lemma AlignedBelow(a: nat, b: nat, m: nat)
    requires b > 0 && a < b * m
    ensures a - a % b == b * (a / b)
    ensures b * (a / b) + b <= b * m
  {
    var q := a / b;
    assert a == b * q + a % b;
    if q >= m {
      MulMonotone(b, m, q);
      assert false;
    }
    MulMonotone(b, q + 1, m);
  }

  /** The block is aligned, holds its own address and fits in the family. */
  lemma CidrBounds(c: Cidr)
    requires c.Valid()
    ensures c.First() == c.BlockSize() * (c.address / c.BlockSize())
    ensures c.First() <= c.address <= c.Last() < Bound(c.version)
  {
    var b := c.BlockSize();
    Pow2Add(Width(c.version) - c.prefixLen, c.prefixLen);
    AlignedBelow(c.address, b, Pow2(c.prefixLen));
  }
  /** Euclidean division is determined by any quotient-remainder pair. */
  lemma DivModUnique(x: nat, m: nat, q: nat, r: nat)
    requires 0 <= r < m && x == q * m + r
    ensures x / m == q && x % m == r
  {
    var q', r' := x / m, x % m;
    assert x == q' * m + r';
    if q' > q {
      MulMonotone(m, q + 1, q');
      assert false;
    } else if q' < q {
      MulMonotone(m, q' + 1, q);
      assert false;
    }
  }

  /** A multiple of m * p is a multiple of m. */
  lemma MultipleOfFactor(x: nat, q: nat, m: nat, p: nat)
    requires x == (m * p) * q
    ensures x == (p * q) * m
  {
  }
}
