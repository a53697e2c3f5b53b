/**
 * IP addresses and networks as the classifier sees them once parsed: an
 * address is a version and an integer value, a network is a version, a
 * base address and a prefix length.
 */
module Networks {

  datatype Version = V4 | V6

  /** Address width in bits. */
  function Width(v: Version): nat {
    match v
    case V4 => 32
    case V6 => 128
  }

  function Pow2(e: nat): (r: nat)
    ensures r >= 1
  {
    if e == 0 then 1 else 2 * Pow2(e - 1)
  }

  datatype Address = Address(version: Version, value: nat)

  datatype Network = Network(version: Version, base: nat, prefixLen: nat)

  /**
   * A network as strict parsing accepts it: the prefix fits the width, the
   * base fits the width, and no host bit of the base is set.
   */
  predicate WellFormed(net: Network) {
    && net.prefixLen <= Width(net.version)
    && net.base < Pow2(Width(net.version))
    && net.base % HostSpan(net) == 0
  }

  /** 2 to the number of host bits: the size of the network's address block. */
  function HostSpan(net: Network): nat {
    if net.prefixLen <= Width(net.version) then Pow2(Width(net.version) - net.prefixLen) else 1
  }

  /**
   * `address in network`: false across versions; otherwise the address with
   * its host bits cleared (the source's `address & netmask`) must equal the
   * network's base address.
   */
  predicate Contains(net: Network, a: Address) {
    && a.version == net.version
    && net.prefixLen <= Width(net.version)
    && a.value - a.value % HostSpan(net) == net.base
  }

  /**
   * For a well-formed network, membership means the same version and the
   * same top `prefixLen` bits; an address of the other version is never
   * contained.
   */
  lemma ContainsIffSamePrefix(net: Network, a: Address)
    requires WellFormed(net)
    ensures Contains(net, a) <==> a.version == net.version && a.value / HostSpan(net) == net.base / HostSpan(net)
    ensures a.version != net.version ==> !Contains(net, a)
  {
    var p := HostSpan(net);
    assert a.value - a.value % p == p * (a.value / p);
    assert net.base == p * (net.base / p);
    if a.value / p != net.base / p {
      MulInjective(p, a.value / p, net.base / p);
    }
  }

  lemma MulInjective(p: int, x: int, y: int)
    requires p > 0 && x != y
    ensures p * x != p * y
  {
    if x < y {
      assert p * y - p * x == p * (y - x);
    } else {
      assert p * x - p * y == p * (x - y);
    }
  }

  /** `8.8.8.8` lies in `8.8.8.0/24` and not in `1.1.1.0/24`. */
  lemma GoogleDnsExample()
    ensures Contains(Network(V4, 0x08080800, 24), Address(V4, 0x08080808))
    ensures !Contains(Network(V4, 0x01010100, 24), Address(V4, 0x08080808))
  {
    assert Pow2(8) == 256 by {
      assert Pow2(4) == 16;
    }
  }
}
