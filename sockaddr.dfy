/** IPv4 socket addresses (struct sockaddr_in) and the comparison the relay uses to match peers. */
module SockAddr {

  /** Width of sa_family_t and in_port_t: unsigned 16-bit. */
  type U16 = x: int | 0 <= x < 0x1_0000

  /** Width of in_addr_t: unsigned 32-bit. */
  type U32 = x: int | 0 <= x < 0x1_0000_0000

  /** The three fields of a sockaddr_in that the relay looks at. Port and address are kept in
      network byte order, as the kernel fills them in; only equality matters for them. */
  datatype SockAddrIn = SockAddrIn(family: U16, port: U16, addr: U32)

  /** Subtraction of two in_addr_t values: unsigned arithmetic, wraps modulo 2^32. */
  function SubU32(a: U32, b: U32): U32
  {
    (a - b) % 0x1_0000_0000
  }

  /** The (int) cast of a value below 2^32: keeps the low 32 bits as a two's-complement int. */
  function ToInt32(x: U32): int
  {
    if x < 0x8000_0000 then x else x - 0x1_0000_0000
  }

  lemma SubU32ZeroIff(a: U32, b: U32)
    ensures SubU32(a, b) == 0 <==> a == b
  {
    if a != b {
      if a > b {
        assert 0 < a - b < 0x1_0000_0000;
      } else {
        assert 0 < a - b + 0x1_0000_0000 < 0x1_0000_0000;
        assert (a - b) % 0x1_0000_0000 == a - b + 0x1_0000_0000;
      }
    }
  }

  /** sockaddr_in_cmp: compares family, then port, then IPv4 address, and returns the first
      non-zero difference. Family and port are promoted to int, so their differences are exact
      and carry the ordering; the address difference wraps, so its sign means nothing. The relay
      only ever tests the result against zero. */
  function Cmp(a: SockAddrIn, b: SockAddrIn): (r: int)
    ensures r == 0 <==> a == b
    ensures a.family != b.family ==> (r < 0 <==> a.family < b.family)
    ensures a.family == b.family && a.port != b.port ==> (r < 0 <==> a.port < b.port)
  {
    SubU32ZeroIff(a.addr, b.addr);
    var afCmp := a.family - b.family;
    if afCmp != 0 then afCmp
    else
      var portCmp := a.port - b.port;
      if portCmp != 0 then portCmp
      else
        var inAddrCmp := SubU32(a.addr, b.addr);
        if inAddrCmp != 0 then ToInt32(inAddrCmp) else 0
  }
}
