/** CIDR arithmetic of the `ip_info` handler: `mask_from_prefix` and the
    wildcard, network, broadcast, host range and host counts derived from an
    address and a prefix length (classless prefixes as in section 3.1 of RFC 4632). */
module Subnet {
  import opened Bits

  /** 2^32 - 1, the `0xFFFFFFFF` of the source. */
  const AllOnes: nat := 0xFFFF_FFFF

  /** `mask_from_prefix`: the netmask of a prefix length. */
  function MaskFromPrefix(prefix: nat): nat
    requires prefix <= 32
  {
    if prefix == 0 then 0 else BitAnd(Shl(AllOnes, 32 - prefix), AllOnes)
  }

  /** The netmask of prefix p has its top p bits set and the rest clear: 2^32 - 2^(32-p). */
  lemma MaskValue(prefix: nat)
    requires prefix <= 32
    ensures MaskFromPrefix(prefix) == HighMask(32 - prefix)
  {
    if prefix > 0 {
      ShiftedOnesTruncated(32 - prefix);
    } else {
      Pow2Of32();
    }
  }

  /** `(0xFFFFFFFF << k) & 0xFFFFFFFF` is 2^32 - 2^k: the shift pushes k ones out of the 32 bits. */
  lemma ShiftedOnesTruncated(k: nat)
    requires k <= 32
    ensures BitAnd(Shl(AllOnes, k), AllOnes) == HighMask(k)
  {
    var y := Shl(0xFFFF_FFFF, k);
    var p := Pow2(k);
    ShlIsMul(0xFFFF_FFFF, k);
    Pow2AtMost32(k);
    // y == 0xFFFFFFFF * 2^k == (2^k - 1) * 2^32 + (2^32 - 2^k)
    DivModUnique(y, 0x1_0000_0000, p - 1, 0x1_0000_0000 - p);
    Low32IsAnd(y);
  }

  /** 2^32 - 2^k is a multiple of 2^j for j <= k: it is (2^(32-j) - 2^(k-j)) << j. */
  lemma HighMaskAligned(k: nat, j: nat)
    requires j <= k <= 32
    ensures Pow2(k - j) <= Pow2(32 - j)
    ensures Shr(HighMask(k), j) == Pow2(32 - j) - Pow2(k - j)
    ensures LowPart(HighMask(k), j) == 0
  {
    Pow2Monotone(k - j, 32 - j);
    var d := Pow2(32 - j) - Pow2(k - j);
    ShlAdd(d, Pow2(k - j), Pow2(32 - j), j);
    ShlToFull(32 - j, j);
    ShlPow2(k - j, j, k);
    ShrLowUnique(HighMask(k), d, 0, j);
  }

  /** Bit i of the netmask is set exactly for the `prefix` most significant positions. */
  lemma MaskBits(prefix: nat, i: nat)
    requires prefix <= 32 && i < 32
    ensures Bit(MaskFromPrefix(prefix), i) == (if i >= 32 - prefix then 1 else 0)
  {
    MaskValue(prefix);
    HighMaskBits(32 - prefix, i);
  }

  /** Bit i of 2^32 - 2^k is set exactly when k <= i. */
  lemma HighMaskBits(k: nat, i: nat)
    requires k <= 32 && i < 32
    ensures Bit(HighMask(k), i) == (if i >= k then 1 else 0)
  {
    var m := HighMask(k);
    assert Pow2(32 - i) == 2 * Pow2(31 - i);
    if i < k {
      // m >> i == 2^(32-i) - 2^(k-i), a difference of two even numbers
      HighMaskAligned(k, i);
      assert Pow2(k - i) == 2 * Pow2(k - i - 1);
    } else {
      // m == ((2^(32-i) - 1) << i) + (2^i - 2^k), so m >> i is odd
      Pow2Monotone(k, i);
      var d := Pow2(32 - i) - 1;
      ShlAdd(d, 1, Pow2(32 - i), i);
      ShlOne(i);
      ShlToFull(32 - i, i);
      ShrLowUnique(m, d, Pow2(i) - Pow2(k), i);
    }
  }

  /** A longer prefix keeps every bit of a shorter one: masks are monotone and nested. */
  lemma MaskNested(p: nat, q: nat)
    requires p <= q <= 32
    ensures MaskFromPrefix(p) <= MaskFromPrefix(q)
    ensures BitAnd(MaskFromPrefix(p), MaskFromPrefix(q)) == MaskFromPrefix(p)
  {
    MaskValue(p);
    MaskValue(q);
    HighMaskAligned(32 - p, 32 - q);
    AndHighMask32(HighMask(32 - p), 32 - q);
  }

  /** The network part of an address: `ip & mask`. */
  function NetworkOf(ip: nat, prefix: nat): nat
    requires prefix <= 32
  {
    BitAnd(ip, MaskFromPrefix(prefix))
  }

  /** Masking clears the 32-prefix host bits of a 32-bit address. */
  lemma NetworkRoundsDown(ip: nat, prefix: nat)
    requires ip < TwoTo32 && prefix <= 32
    ensures NetworkOf(ip, prefix) == Shl(Shr(ip, 32 - prefix), 32 - prefix)
    ensures NetworkOf(ip, prefix) == ip - LowPart(ip, 32 - prefix)
  {
    MaskValue(prefix);
    AndHighMask32(ip, 32 - prefix);
    ShrLowSplit(ip, 32 - prefix);
  }

  /** Two addresses share a network exactly when they agree above the host bits. */
  lemma SameNetwork(x: nat, y: nat, prefix: nat)
    requires x < TwoTo32 && y < TwoTo32 && prefix <= 32
    ensures NetworkOf(x, prefix) == NetworkOf(y, prefix) <==>
      Shr(x, 32 - prefix) == Shr(y, 32 - prefix)
  {
    var k := 32 - prefix;
    NetworkRoundsDown(x, prefix);
    NetworkRoundsDown(y, prefix);
    var a, b := Shr(x, k), Shr(y, k);
    if Shl(a, k) == Shl(b, k) {
      ShrLowUnique(Shl(a, k), a, 0, k);
      ShrLowUnique(Shl(b, k), b, 0, k);
    }
  }

  /** The first and last usable host; the handler sets both or neither (`None`). */
  datatype HostRange = NoHosts | Hosts(first: nat, last: nat)

  /** Everything `ip_info` derives from the address and the prefix. */
  datatype Subnet = Subnet(
    mask: nat,
    wildcard: nat,
    network: nat,
    broadcast: nat,
    hosts: HostRange,
    totalHosts: nat,
    usableHosts: nat)

  /** Python's `max` on two integers. */
  function Max(a: int, b: int): (m: int)
    ensures m >= a && m >= b && (m == a || m == b)
  {
    if a >= b then a else b
  }

  /** The subnet of ip/prefix in plain arithmetic, independent of any bit
      operation: with k = 32 - prefix host bits the block has 2^k addresses,
      starts at ip rounded down to a multiple of 2^k and ends 2^k - 1 later;
      all but the first and the last are usable up to /30, none beyond. */
  function SubnetSpec(ip: nat, prefix: nat): Subnet
    requires prefix <= 32
  {
    var size := Pow2(32 - prefix);
    ShrLowSplit(ip, 32 - prefix);
    var network := ip - LowPart(ip, 32 - prefix);
    var broadcast := network + size - 1;
    Subnet(
      mask := HighMask(32 - prefix),
      wildcard := size - 1,
      network := network,
      broadcast := broadcast,
      hosts := if prefix <= 30 then Hosts(network + 1, broadcast - 1) else NoHosts,
      totalHosts := size,
      usableHosts := if prefix <= 30 then size - 2 else 0)
  }

  /** The handler's derivation: mask, wildcard `~mask & 0xFFFFFFFF`, network
      `ip & mask`, broadcast `network | wildcard`, then the host counts and, for
      prefixes up to 30, the first and last usable host. It agrees with the
      arithmetic description. */
  function Derive(ip: nat, prefix: nat): (s: Subnet)
    requires ip < TwoTo32 && prefix <= 32
    ensures s == SubnetSpec(ip, prefix)
  {
    var mask := MaskFromPrefix(prefix);
    var wildcard := Low32(BitNot(mask));
    var network := BitAnd(ip, mask);
    var broadcast := BitOr(network, wildcard);
    var totalHosts := if prefix == 32 then 1 else Pow2(32 - prefix);
    var usable := if prefix <= 30 then Max(totalHosts - 2, 0) else 0;
    DeriveLaws(ip, prefix, mask, wildcard, network, broadcast, totalHosts, usable);
    var hosts := if prefix <= 30 && usable > 0 then Hosts(network + 1, broadcast - 1) else NoHosts;
    Subnet(mask, wildcard, network, broadcast, hosts, totalHosts, usable)
  }

  /** The facts behind `Derive`'s contract, stated on the values the handler
      computes (passed by name). */
  lemma DeriveLaws(ip: nat, prefix: nat, mask: nat, wildcard: nat, network: nat,
                   broadcast: nat, total: nat, usable: int)
    requires ip < TwoTo32 && prefix <= 32
    requires mask == MaskFromPrefix(prefix)
    requires wildcard == Low32(BitNot(mask))
    requires network == BitAnd(ip, mask)
    requires broadcast == BitOr(network, wildcard)
    requires total == if prefix == 32 then 1 else Pow2(32 - prefix)
    requires usable == if prefix <= 30 then Max(total - 2, 0) else 0
    ensures var spec := SubnetSpec(ip, prefix);
      && mask == spec.mask && wildcard == spec.wildcard
      && network == spec.network && broadcast == spec.broadcast
      && total == spec.totalHosts && usable == spec.usableHosts
      && (prefix <= 30 ==> usable > 0)
  {
    var k := 32 - prefix;
    MaskValue(prefix);
    WildcardIsComplement(k);
    NetworkRoundsDown(ip, prefix);
    NetworkBlock(ip, prefix, network, wildcard);
    if prefix <= 30 {
      Pow2Monotone(2, k);
      assert Pow2(2) == 4;
    }
  }

  /** `~mask & 0xFFFFFFFF` of the mask 2^32 - 2^k is 2^k - 1. */
  lemma WildcardIsComplement(k: nat)
    requires k <= 32
    ensures Low32(BitNot(HighMask(k))) == Pow2(k) - 1
  {
    Pow2AtMost32(k);
    DivModUnique(BitNot(HighMask(k)), 0x1_0000_0000, -1, Pow2(k) - 1);
  }

  /** Bits of an aligned number and of a number below the alignment are disjoint,
      so AND gives 0 and OR gives the sum. */
  lemma AlignedPartition(m: nat, w: nat, k: nat)
    requires LowPart(m, k) == 0 && w < Pow2(k)
    ensures BitAnd(m, w) == 0
    ensures BitOr(m, w) == m + w
  {
    AlignedAndSmallIsZero(m, w, k);
    DisjointOrIsSum(m, w);
  }

  /** The network of ip starts an aligned block of 2^(32-prefix) addresses that
      holds ip and ends within 32 bits; OR-ing the wildcard onto the network
      gives the block's last address. */
  lemma NetworkBlock(ip: nat, prefix: nat, network: nat, wildcard: nat)
    requires ip < TwoTo32 && prefix <= 32
    requires network == NetworkOf(ip, prefix) && wildcard == Pow2(32 - prefix) - 1
    ensures var k := 32 - prefix;
      && network == Shl(Shr(ip, k), k)
      && network <= ip < network + Pow2(k)
      && BitOr(network, wildcard) == network + wildcard <= AllOnes
  {
    var k := 32 - prefix;
    NetworkRoundsDown(ip, prefix);
    ShrLowSplit(ip, k);
    ShrLowUnique(network, Shr(ip, k), 0, k);
    AlignedPartition(network, wildcard, k);
    BlockFits(Shr(ip, k), k, prefix);
  }

  /** A multiple of 2^k below 2^32 is followed by a whole block of 2^k
      addresses below 2^32, since 2^32 is itself such a multiple. */
  lemma BlockFits(q: nat, k: nat, prefix: nat)
    requires prefix + k == 32 && Shl(q, k) < TwoTo32
    ensures Shl(q, k) + Pow2(k) <= TwoTo32
  {
    ShlToFull(prefix, k);
    if q >= Pow2(prefix) {
      ShlMonotone(Pow2(prefix), q, k);
    }
    ShlStep(q, k);
    ShlMonotone(q + 1, Pow2(prefix), k);
  }

  /** The block of ip/prefix holds ip, stays within 32 bits and has
      `totalHosts` addresses; mask and wildcard add up to all 32 bits. */
  lemma SubnetBounds(ip: nat, prefix: nat)
    requires ip < TwoTo32 && prefix <= 32
    ensures var s := SubnetSpec(ip, prefix);
      && s.network <= ip <= s.broadcast <= AllOnes
      && s.broadcast - s.network + 1 == s.totalHosts
      && s.mask + s.wildcard == AllOnes
  {
    NetworkRoundsDown(ip, prefix);
    NetworkBlock(ip, prefix, NetworkOf(ip, prefix), Pow2(32 - prefix) - 1);
  }

  /** Up to /30 the usable hosts are the block minus its first (network) and
      last (broadcast) address, at least two of them; /31 and /32 have none. */
  lemma SubnetHosts(ip: nat, prefix: nat)
    requires ip < TwoTo32 && prefix <= 32
    ensures var s := SubnetSpec(ip, prefix);
      && (prefix <= 30 <==> s.hosts.Hosts?)
      && (prefix <= 30 ==>
            && s.usableHosts == s.totalHosts - 2 >= 2
            && s.network < s.hosts.first <= s.hosts.last < s.broadcast
            && s.hosts.last - s.hosts.first + 1 == s.usableHosts)
      && (prefix > 30 ==> s.usableHosts == 0 && s.totalHosts == 32 - prefix + 1)
  {
    var k := 32 - prefix;
    if prefix <= 30 {
      Pow2Monotone(2, k);
      assert Pow2(2) == 4;
    } else {
      assert Pow2(1) == 2;
    }
  }

  /** The mask 2^32 - 2^k and the wildcard 2^k - 1 of a subnet have no bit in
      common and together cover all 32 bits. */
  lemma SubnetMaskPartition(ip: nat, prefix: nat)
    requires prefix <= 32
    ensures var s := SubnetSpec(ip, prefix);
      BitAnd(s.mask, s.wildcard) == 0 && BitOr(s.mask, s.wildcard) == AllOnes
  {
    var k := 32 - prefix;
    HighMaskAligned(k, k);
    AlignedPartition(HighMask(k), Pow2(k) - 1, k);
  }

  /** An address belongs to the subnet of ip/prefix (it masks to the same
      network id) exactly when it lies between network and broadcast. */
  lemma Membership(ip: nat, prefix: nat, x: nat)
    requires ip < TwoTo32 && x < TwoTo32 && prefix <= 32
    ensures var s := SubnetSpec(ip, prefix);
      NetworkOf(x, prefix) == s.network <==> s.network <= x <= s.broadcast
  {
    var s := SubnetSpec(ip, prefix);
    var k := 32 - prefix;
    NetworkRoundsDown(ip, prefix);
    NetworkRoundsDown(x, prefix);
    if NetworkOf(x, prefix) == s.network {
      ShrLowSplit(x, k);
    }
    if s.network <= x <= s.broadcast {
      assert LowPart(x, k) == x - s.network by {
        ShrLowUnique(x, Shr(ip, k), x - s.network, k);
      }
    }
  }
}
