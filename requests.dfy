/** Address requests and the EUI-64 derivation of an IPv6 address from a
    prefix and a 48-bit MAC address. */
module Requests {
  import opened Errors
  import opened Addresses

  const Pow24: nat := 0x100_0000
  const Pow40: nat := 0x100_0000_0000
  const Pow48: nat := 0x1_0000_0000_0000
  const Pow57: nat := 0x200_0000_0000_0000
  const Pow64: nat := 0x1_0000_0000_0000_0000

  /** The only address type AutomaticAddressRequest knows. */
  const EUI64: string := "eui64"

  /** What a caller asks for. Automatic is a kind of Specific request whose
      address was derived when the request was built. */
  datatype AddressRequest =
    | Specific(address: Ip)
    | Automatic(address: Ip)
    | AnyAddress
    | PreferNext
  {
    /** isinstance(request, SpecificAddressRequest) */
    predicate IsSpecific() {
      Specific? || Automatic?
    }
  }

  /** EUI-48 to EUI-64: the 24-bit OUI, then 0xFFFE, then the low 24 bits. */
  function Eui64(mac: nat): (e: nat)
    requires mac < Pow48
    ensures e < Pow64
    ensures e / Pow40 == mac / Pow24
    ensures (e / Pow24) % 0x1_0000 == 0xFFFE
    ensures e % Pow24 == mac % Pow24
    ensures e % Pow57 >= 0xFFFE * Pow24
  {
    var oui, nic := mac / Pow24, mac % Pow24;
    var e := oui * Pow40 + 0xFFFE * Pow24 + nic;
    DivModUnique(e, Pow40, oui, 0xFFFE * Pow24 + nic);
    var mid := oui * 0x1_0000 + 0xFFFE;
    assert e == mid * Pow24 + nic;
    DivModUnique(e, Pow24, mid, nic);
    DivModUnique(mid, 0x1_0000, oui, 0xFFFE);
    var below57 := (oui % 0x2_0000) * Pow40 + 0xFFFE * Pow24 + nic;
    assert e == (oui / 0x2_0000) * Pow57 + below57;
    DivModUnique(e, Pow57, oui / 0x2_0000, below57);
    e
  }

  /** XOR with 2^57: inverts bit 57 (the universal/local bit of an
      interface identifier) and leaves every other bit alone. */
  function FlipUniversalLocal(x: nat): nat {
    if (x / Pow57) % 2 == 1 then x - Pow57 else x + Pow57
  }

  /** Bit 57 is inverted; the bits below it and the bits above it are kept. */
  lemma FlipUniversalLocalBits(x: nat)
    ensures FlipUniversalLocal(x) % Pow57 == x % Pow57
    ensures (FlipUniversalLocal(x) / Pow57) % 2 != (x / Pow57) % 2
    ensures (FlipUniversalLocal(x) / Pow57) / 2 == (x / Pow57) / 2
    ensures FlipUniversalLocal(x) >= x % Pow57
    ensures x < Pow64 ==> FlipUniversalLocal(x) < Pow64
  {
    var q, r := x / Pow57, x % Pow57;
    assert x == q * Pow57 + r;
    if q % 2 == 1 {
      assert x - Pow57 == (q - 1) * Pow57 + r;
      DivModUnique(x - Pow57, Pow57, q - 1, r);
    } else {
      assert x + Pow57 == (q + 1) * Pow57 + r;
      DivModUnique(x + Pow57, Pow57, q + 1, r);
      if x < Pow64 {
        assert Pow64 == 128 * Pow57;
        MulMonotone(Pow57, q + 1, 127);
      }
    }
  }

  /** get_ipv6_addr_by_EUI64: (prefix.first + eui64(mac)) ^ (1 << 57), the
      addition binding first; netaddr refuses a value of 2^128 or more. */
  function Eui64Address(prefix: Cidr, mac: nat): (r: Result<Ip>)
    requires prefix.Valid() && mac < Pow48
    ensures r.Ok? ==> r.value.Valid()
    ensures r.Err? ==> r.error == AddressFormatError
  {
    IpFromInt(FlipUniversalLocal(prefix.First() + Eui64(mac)))
  }

  /** Splitting hi * (128 * p) + lo at p. */
  lemma Regroup(hi: nat, lo: nat, p: nat)
    requires p > 0
    ensures hi * (128 * p) + lo == (hi * 128 + lo / p) * p + lo % p
  {
    assert lo == (lo / p) * p + lo % p;
    assert (hi * 128 + lo / p) * p == hi * 128 * p + (lo / p) * p;
  }

  /** Bit 57 of a multiple of 2^64 plus a low part depends on the low part only. */
  lemma FlipAbove64(hi: nat, lo: nat)
    requires lo < Pow64
    ensures FlipUniversalLocal(hi * Pow64 + lo) == hi * Pow64 + FlipUniversalLocal(lo)
  {
    var x := hi * Pow64 + lo;
    var q := hi * 128 + lo / Pow57;
    assert Pow64 == 128 * Pow57;
    Regroup(hi, lo, Pow57);
    DivModUnique(x, Pow57, q, lo % Pow57);
    assert (x / Pow57) % 2 == (lo / Pow57) % 2;
  }

  /** A prefix of at most 64 bits has a network address with 64 zero low bits. */
  lemma PrefixAligned64(prefix: Cidr)
    requires prefix.Valid() && prefix.version == V6 && prefix.prefixLen <= 64
    ensures prefix.First() == (prefix.First() / Pow64) * Pow64
    ensures prefix.First() / Pow64 < Pow64
  {
    CidrBounds(prefix);
    var p, q := Pow2(64 - prefix.prefixLen), prefix.address / prefix.BlockSize();
    assert prefix.BlockSize() == Pow64 * p by {
      Pow2Values();
      Pow2Add(64, 64 - prefix.prefixLen);
    }
    MultipleOfFactor(prefix.First(), q, Pow64, p);
    DivModUnique(prefix.First(), Pow64, p * q, 0);
    assert prefix.First() < Pow64 * Pow64 by { Pow2Values(); }
  }

  /** RFC 4291, Appendix A: with a prefix of at most 64 bits the address
      keeps the prefix's upper 64 bits, and its interface identifier is the
      EUI-64 of the MAC with the universal/local bit inverted. */
  lemma Eui64AddressIsModifiedEui64(prefix: Cidr, mac: nat)
    requires prefix.Valid() && prefix.version == V6 && prefix.prefixLen <= 64 && mac < Pow48
    ensures Eui64Address(prefix, mac).Ok?
    ensures Eui64Address(prefix, mac).value.version == V6
    ensures Eui64Address(prefix, mac).value.value / Pow64 == prefix.First() / Pow64
    ensures Eui64Address(prefix, mac).value.value % Pow64 == FlipUniversalLocal(Eui64(mac))
  {
    PrefixAligned64(prefix);
    var hi := prefix.First() / Pow64;
    var e := Eui64(mac);
    var flipped := FlipUniversalLocal(e);
    FlipAbove64(hi, e);
    FlipUniversalLocalBits(e);
    var x := hi * Pow64 + flipped;
    assert FlipUniversalLocal(prefix.First() + e) == x;
    assert flipped < Pow64;
    DivModUnique(x, Pow64, hi, flipped);
    MulMonotone(Pow64, hi, Pow64 - 1);
    assert x < Bound(V6);
    // The interface identifier alone is past the IPv4 range: its 0xFFFE
    // bytes sit below bit 57, which the flip keeps.
    assert flipped >= e % Pow57 >= 0xFFFE * Pow24 >= Bound(V4);
    assert x >= Bound(V4);
  }

  /** 2001:db8::/64 with MAC 00:11:22:33:44:55 gives 2001:db8::211:22ff:fe33:4455. */
  lemma Eui64Example()
    ensures Eui64Address(Cidr(V6, 0x2001_0db8_0000_0000_0000_0000_0000_0000, 64), 0x0011_2233_4455)
         == Ok(Ip(V6, 0x2001_0db8_0000_0000_0211_22ff_fe33_4455))
  {
    Pow2Values();
    var prefix := Cidr(V6, 0x2001_0db8_0000_0000_0000_0000_0000_0000, 64);
    assert prefix.First() == 0x2001_0db8_0000_0000_0000_0000_0000_0000;
    assert Eui64(0x0011_2233_4455) == 0x0011_22ff_fe33_4455;
    assert FlipUniversalLocal(0x2001_0db8_0000_0000_0011_22ff_fe33_4455)
        == 0x2001_0db8_0000_0000_0211_22ff_fe33_4455;
  }

  /** AutomaticAddressRequest(address_type, **kwargs): look the generator up
      by address type, then insist on exactly the keyword arguments prefix
      and mac. */
  function AutomaticRequest(addressType: string, kwargs: set<string>, prefix: Cidr, mac: Field<nat>): (r: Result<AddressRequest>)
    requires prefix.Valid() && (mac.Given? ==> mac.value < Pow48)
    ensures addressType != EUI64 ==> r == Err(InvalidAddressType)
    ensures addressType == EUI64 && kwargs != {"prefix", "mac"} ==> r == Err(AddressCalculationFailure)
    ensures r.Ok? ==> mac.Given? && r.value.Automatic? && Eui64Address(prefix, mac.value) == Ok(r.value.address)
    ensures addressType == EUI64 && kwargs == {"prefix", "mac"} && mac.Given? ==>
      (r.Ok? <==> Eui64Address(prefix, mac.value).Ok?)
      && (r.Err? ==> r.error == Eui64Address(prefix, mac.value).error)
    ensures addressType == EUI64 && kwargs == {"prefix", "mac"} && !mac.Given? ==> r == Err(AddressFormatError)
  {
    if addressType != EUI64 then Err(InvalidAddressType)
    else if kwargs != {"prefix", "mac"} then Err(AddressCalculationFailure)
    else
      match mac
      case Given(m) =>
        (match Eui64Address(prefix, m)
         case Ok(a) => Ok(Automatic(a))
         case Err(e) => Err(e))
      case _ => Err(AddressFormatError)
  }
}
