/** `_get_netmask_by_network_class`: the default netmask of an IPv4
    address's class, chosen by its first octet (the classes of section 3.2
    of RFC 791). An address is a 32-bit integer. */
module RhelNetwork {
  import Strings

  const ClassA := "255.0.0.0"
  const ClassB := "255.255.0.0"
  const ClassC := "255.255.255.0"

  /** The first octet of a 32-bit address. */
  function FirstOctet(ip: int): (r: int)
    requires 0 <= ip < 0x1_0000_0000
    ensures 0 <= r < 256
  {
    ip / 0x100_0000
  }

  /** `_get_netmask_by_network_class`: the netmask of the address's class;
      classes D and E get the class C netmask. */
  function NetmaskByNetworkClass(ip: int): (r: string)
    requires 0 <= ip < 0x1_0000_0000
    ensures FirstOctet(ip) <= 127 <==> r == PrefixNetmask(8)
    ensures 128 <= FirstOctet(ip) <= 191 <==> r == PrefixNetmask(16)
    ensures FirstOctet(ip) >= 192 <==> r == PrefixNetmask(24)
  {
    ClassMasksArePrefixes();
    var octet := FirstOctet(ip);
    if 0 <= octet <= 127 then ClassA
    else if 128 <= octet <= 191 then ClassB
    else ClassC
  }

  /** An octet whose `bits` leading bits are one: 0, 128, 192, …, 255. */
  function LeadingOnes(bits: nat): (r: nat)
    requires bits <= 8
    ensures r <= 255
  {
    if bits == 0 then 0 else LeadingOnes(bits - 1) / 2 + 128
  }

  /** Octet `i` (0 first) of the netmask with `prefix` leading one bits. */
  function MaskOctet(prefix: nat, i: nat): nat
    requires prefix <= 32 && i < 4
  {
    if prefix >= 8 * (i + 1) then 255
    else if prefix <= 8 * i then 0
    else LeadingOnes(prefix - 8 * i)
  }

  /** The dotted-quad text of the netmask with `prefix` leading one bits. */
  function PrefixNetmask(prefix: nat): string
    requires prefix <= 32
  {
    Strings.NatToString(MaskOctet(prefix, 0)) + "." + Strings.NatToString(MaskOctet(prefix, 1)) + "." +
    Strings.NatToString(MaskOctet(prefix, 2)) + "." + Strings.NatToString(MaskOctet(prefix, 3))
  }

  /** The three netmasks are those of 8, 16 and 24 leading one bits. */
  lemma ClassMasksArePrefixes()
    ensures ClassA == PrefixNetmask(8)
    ensures ClassB == PrefixNetmask(16)
    ensures ClassC == PrefixNetmask(24)
  {
    assert Strings.NatToString(255) == "255" by {
      assert Strings.NatToString(2) == "2";
      assert Strings.NatToString(25) == "25";
    }
    assert Strings.NatToString(0) == "0";
  }

  /** The classes by the address's leading bits: `0` is class A (an 8-bit
      network), `10` class B (16 bits), and `110` and above take class C's
      24 bits. */
  lemma NetmaskByLeadingBits(ip: int)
    requires 0 <= ip < 0x1_0000_0000
    ensures ip / 0x8000_0000 == 0 ==> NetmaskByNetworkClass(ip) == PrefixNetmask(8)
    ensures ip / 0x4000_0000 == 2 ==> NetmaskByNetworkClass(ip) == PrefixNetmask(16)
    ensures ip / 0x4000_0000 == 3 ==> NetmaskByNetworkClass(ip) == PrefixNetmask(24)
  {
  }
}
