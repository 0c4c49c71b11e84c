/**
 * Addresses as the record store keys them (an IPv4 interface: host address
 * plus prefix length) and the network each one belongs to, computed as
 * Python's `ipaddress` does (src/response_times.py:103-104): the address
 * with its host bits cleared. Clearing the low `32 - p` bits of a 32-bit
 * value is written arithmetically, `ip - ip % 2^(32 - p)`, which is the
 * value of `ip & netmask`.
 */
module Addresses {

  const AddressSpace: nat := 0x1_0000_0000

  /** A 32-bit IPv4 address, as the integer `ipaddress` keeps. */
  type IPv4 = x: nat | x < AddressSpace

  /** A prefix length, 0 to 32. */
  type PrefixLen = p: nat | p <= 32

  /** An `IPv4Interface`: two interfaces are equal when both fields are. */
  datatype Address = Address(ip: IPv4, prefixlen: PrefixLen)

  /** An `IPv4Network`, identified by its network address and prefix length. */
  datatype Network = Network(base: IPv4, prefixlen: PrefixLen)

  function Pow2(k: nat): (r: nat)
    ensures r >= 1
  {
    if k == 0 then 1 else 2 * Pow2(k - 1)
  }

  /** Number of addresses a prefix leaves to hosts: two to the number of host bits. */
  function HostSpan(p: PrefixLen): (r: nat)
    ensures r >= 1
  {
    Pow2(32 - p)
  }

  lemma {:induction false} PowAdd(a: nat, b: nat)
    ensures Pow2(a) * Pow2(b) == Pow2(a + b)
  {
    if b > 0 {
      PowAdd(a, b - 1);
      assert Pow2(a + b) == 2 * Pow2(a + b - 1);
    }
  }

  /** The network of an interface: the address with its host bits cleared, and the
      same prefix length. The interface lies inside the range its network spans. */
  function NetworkOf(a: Address): (n: Network)
    ensures n.prefixlen == a.prefixlen
    ensures n.base % HostSpan(a.prefixlen) == 0
    ensures n.base <= a.ip < n.base + HostSpan(a.prefixlen)
  {
    var span := HostSpan(a.prefixlen);
    var base := ClearLowPart(a.ip, span);
    Network(base, a.prefixlen)
  }

  /** Rounding down to a multiple of `m` stays within one step of `m` below `x`. */
  function ClearLowPart(x: nat, m: nat): (r: nat)
    requires m >= 1
    ensures r <= x < r + m
    ensures r % m == 0
  {
    DivMod(x, m);
    DivUnique((x / m) * m, m, x / m, 0);
    (x / m) * m
  }

  lemma DivMod(x: nat, m: nat)
    requires m >= 1
    ensures x == (x / m) * m + x % m && 0 <= x % m < m
  {
  }

  lemma {:induction false} MulStep(a: nat, b: nat, m: nat)
    requires a < b
    ensures a * m + m <= b * m
    decreases b - a
  {
    assert b * m == (b - 1) * m + m;
    if a < b - 1 {
      MulStep(a, b - 1, m);
    }
  }

  /** Quotient and remainder are unique. */
  lemma DivUnique(x: nat, m: nat, q: nat, r: nat)
    requires m >= 1 && x == q * m + r && r < m
    ensures x / m == q && x % m == r
  {
    DivMod(x, m);
    var q' := x / m;
    if q' < q {
      MulStep(q', q, m);
    } else if q < q' {
      MulStep(q, q', m);
    }
  }

  /** Two interfaces share a network exactly when their prefix lengths agree
      and so do their leading prefix-length bits (the address divided by the host span). */
  lemma SameNetworkIff(a: Address, b: Address)
    ensures NetworkOf(a) == NetworkOf(b) <==>
            a.prefixlen == b.prefixlen && a.ip / HostSpan(a.prefixlen) == b.ip / HostSpan(b.prefixlen)
  {
    if a.prefixlen == b.prefixlen {
      var span := HostSpan(a.prefixlen);
      var qa, qb := a.ip / span, b.ip / span;
      assert NetworkOf(a).base == qa * span;
      assert NetworkOf(b).base == qb * span;
      if qa * span == qb * span {
        DivUnique(qa * span, span, qa, 0);
        DivUnique(qb * span, span, qb, 0);
      }
    }
  }

  /** A network's own address lies in that network: masking is idempotent. */
  lemma NetworkOfBase(n: Network)
    requires n.base % HostSpan(n.prefixlen) == 0
    ensures NetworkOf(Address(n.base, n.prefixlen)) == n
  {
    DivMod(n.base, HostSpan(n.prefixlen));
  }

  /** No prefix leaves every address to hosts. */
  lemma FullSpan()
    ensures HostSpan(0) == AddressSpace
  {
    assert Pow2(16) == 0x1_0000 by {
      assert Pow2(8) == 0x100 by {
        assert Pow2(4) == 16;
        PowAdd(4, 4);
      }
      PowAdd(8, 8);
    }
    PowAdd(16, 16);
  }

  /** A /32 interface is its own network; every /0 interface is in 0.0.0.0/0. */
  lemma NetworkExtremes(ip: IPv4)
    ensures NetworkOf(Address(ip, 32)).base == ip
    ensures NetworkOf(Address(ip, 0)).base == 0
  {
    assert HostSpan(32) == 1;
    DivUnique(ip, 1, ip, 0);
    FullSpan();
    DivUnique(ip, AddressSpace, 0, ip);
  }
}
