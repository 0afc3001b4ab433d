/** `netip.Addr` and `netip.Prefix`, structured. */
module Addresses {
  import opened Bytes

  /** `Other` stands for the zero Addr, IPv6 and IPv4-mapped IPv6 addresses. */
  datatype Addr = IPv4(value: u32) | Other(id: nat)

  /** Built by `netip.PrefixFrom`: host bits below `bits` may be set. */
  datatype Prefix = Prefix(addr: Addr, bits: int)
  {
    predicate Valid4()
    {
      addr.IPv4? && 0 <= bits <= 32
    }
  }

  function Pow2(k: nat): (p: nat)
    ensures p >= 1
  {
    if k == 0 then 1 else 2 * Pow2(k - 1)
  }

  /** Integer containment: the two addresses agree once the low `32 - bits` bits are dropped. */
  predicate Contains(prefix: Prefix, addr: u32)
    requires prefix.Valid4()
  {
    addr / Pow2(32 - prefix.bits) == prefix.addr.value / Pow2(32 - prefix.bits)
  }
}
