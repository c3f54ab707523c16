/** The two classifiers of app.py: `detect_class`, the classful address class
    of the first octet, and `detect_network_type`, the special-purpose range an
    address falls in. Both are ordered rule lists in which the first matching
    rule decides and a final catch-all makes them total. */
module Classify {
  import opened Bits
  import opened Address
  import Subnet

  // ---------------------------------------------------------------------------
  // Address classes

  /** The answers `detect_class` can give. */
  datatype IpClass = ClassA | ClassB | ClassC | ClassD | ClassE | LoopbackClass | UnknownClass
  {
    /** The text `detect_class` returns for the class. */
    function Label(): string
    {
      match this
      case ClassA => "Class A"
      case ClassB => "Class B"
      case ClassC => "Class C"
      case ClassD => "Class D (Multicast)"
      case ClassE => "Class E (Experimental)"
      case LoopbackClass => "Loopback"
      case UnknownClass => "Unknown"
    }
  }

  /** `detect_class`: the ranges 1-126, 128-191, 192-223, 224-239 and 240-254
      are tried in turn, then 127, and anything else is unknown. */
  function DetectClass(first: int): (c: IpClass)
    ensures c == ClassA <==> 1 <= first <= 126
    ensures c == ClassB <==> 128 <= first <= 191
    ensures c == ClassC <==> 192 <= first <= 223
    ensures c == ClassD <==> 224 <= first <= 239
    ensures c == ClassE <==> 240 <= first <= 254
    ensures c == LoopbackClass <==> first == 127
    ensures c == UnknownClass <==> first <= 0 || first >= 255
  {
    if 1 <= first <= 126 then ClassA
    else if 128 <= first <= 191 then ClassB
    else if 192 <= first <= 223 then ClassC
    else if 224 <= first <= 239 then ClassD
    else if 240 <= first <= 254 then ClassE
    else if first == 127 then LoopbackClass
    else UnknownClass
  }

  /** The classful rule of section 3.2 of RFC 791, extended by classes D and E:
      the class is read off the leading bits of the first octet (0: A, 10: B,
      110: C, 1110: D, 1111: E), here taken from its high four bits. */
  function LeadingBitsClass(first: nat): IpClass
    requires first < 256
  {
    var top := Shr(first, 4);
    if top < 8 then ClassA
    else if top < 12 then ClassB
    else if top < 14 then ClassC
    else if top == 14 then ClassD
    else ClassE
  }

  /** `detect_class` is the leading-bit rule except on exactly three first
      octets: 127 is reported as loopback rather than class A, and 0 and 255
      as unknown rather than classes A and E. */
  lemma DetectClassIsClassful(first: nat)
    requires first < 256
    ensures first != 0 && first != 127 && first != 255 ==> DetectClass(first) == LeadingBitsClass(first)
    ensures first == 127 ==> DetectClass(first) == LoopbackClass && LeadingBitsClass(first) == ClassA
    ensures first == 0 ==> DetectClass(first) == UnknownClass && LeadingBitsClass(first) == ClassA
    ensures first == 255 ==> DetectClass(first) == UnknownClass && LeadingBitsClass(first) == ClassE
  {
    assert Pow2(4) == 16;
    ShrIsDiv(first, 4);
  }

  // ---------------------------------------------------------------------------
  // Special-purpose ranges

  /** The answers `detect_network_type` can give. */
  datatype NetworkType =
    | Private10 | Private172 | Private192 | Loopback | LinkLocal
    | CurrentNetwork | Multicast | Reserved | Public
  {
    /** The text `detect_network_type` returns for the range. */
    function Label(): string
    {
      match this
      case Private10 => "Private (10.0.0.0/8)"
      case Private172 => "Private (172.16.0.0/12)"
      case Private192 => "Private (192.168.0.0/16)"
      case Loopback => "Loopback"
      case LinkLocal => "Link-local (APIPA)"
      case CurrentNetwork => "Software / Current network"
      case Multicast => "Multicast"
      case Reserved => "Reserved / Experimental"
      case Public => "Public"
    }
  }

  /** `detect_network_type`: only the first two octets are looked at (the
      unpacking `a, b, *_` needs at least two); the rules are tried in order
      and an address no rule matches is public. */
  function DetectNetworkType(octets: seq<int>): (t: NetworkType)
    requires |octets| >= 2
    ensures var a, b := octets[0], octets[1];
      && (t == Private10 <==> a == 10)
      && (t == Private172 <==> a == 172 && 16 <= b <= 31)
      && (t == Private192 <==> a == 192 && b == 168)
      && (t == Loopback <==> a == 127)
      && (t == LinkLocal <==> a == 169 && b == 254)
      && (t == CurrentNetwork <==> a == 0)
      && (t == Multicast <==> 224 <= a <= 239)
      && (t == Reserved <==> 240 <= a <= 255)
    ensures var a, b := octets[0], octets[1];
      t == Public <==>
        && a != 10 && !(a == 172 && 16 <= b <= 31) && !(a == 192 && b == 168)
        && a != 127 && !(a == 169 && b == 254) && a != 0 && !(224 <= a <= 255)
  {
    var a, b := octets[0], octets[1];
    if a == 10 then Private10
    else if a == 172 && 16 <= b <= 31 then Private172
    else if a == 192 && b == 168 then Private192
    else if a == 127 then Loopback
    else if a == 169 && b == 254 then LinkLocal
    else if a == 0 then CurrentNetwork
    else if 224 <= a <= 239 then Multicast
    else if 240 <= a <= 255 then Reserved
    else Public
  }

  /** A CIDR block: the addresses that share their top `prefix` bits with `base`. */
  datatype Block = Block(base: nat, prefix: nat)

  /** x lies in block b: masking x and the base with the block's netmask gives
      the same network, computed with the model's `mask_from_prefix`. */
  predicate Contains(b: Block, x: nat)
    requires b.prefix <= 32
  {
    Subnet.NetworkOf(x, b.prefix) == Subnet.NetworkOf(b.base, b.prefix)
  }

  /** The CIDR block each named range stands for. */
  function RangeOf(t: NetworkType): (b: Block)
    requires t != Public
    ensures b.prefix <= 32 && b.base < TwoTo32
  {
    match t
    case Private10 => Block(0x0A00_0000, 8)       // 10.0.0.0/8
    case Private172 => Block(0xAC10_0000, 12)     // 172.16.0.0/12
    case Private192 => Block(0xC0A8_0000, 16)     // 192.168.0.0/16
    case Loopback => Block(0x7F00_0000, 8)        // 127.0.0.0/8
    case LinkLocal => Block(0xA9FE_0000, 16)      // 169.254.0.0/16
    case CurrentNetwork => Block(0, 8)            // 0.0.0.0/8
    case Multicast => Block(0xE000_0000, 4)       // 224.0.0.0/4
    case Reserved => Block(0xF000_0000, 4)        // 240.0.0.0/4
  }

  /** The top 4, 8, 12 and 16 bits of the address a.b.c.d, in terms of a and b. */
  lemma OctetShifts(os: seq<nat>)
    requires ValidOctets(os)
    ensures var x, a, b := OctetsToInt(os), os[0], os[1];
      && x < TwoTo32
      && Shr(x, 28) == a / 16
      && Shr(x, 24) == a
      && Shr(x, 20) == a * 16 + b / 16
      && Shr(x, 16) == a * 256 + b
  {
    var x, a, b := OctetsToInt(os), os[0], os[1];
    var low := os[2] * 0x100 + os[3];
    OctetsToIntFour(os);
    ShrBytes(x);
    ShrNibbles(x);
    DivModUnique(x, 0x1000_0000, a / 16, (a % 16) * 0x100_0000 + b * 0x1_0000 + low);
    DivModUnique(x, 0x100_0000, a, b * 0x1_0000 + low);
    DivModUnique(x, 0x10_0000, a * 16 + b / 16, (b % 16) * 0x1_0000 + low);
    DivModUnique(x, 0x1_0000, a * 256 + b, low);
  }

  /** Block membership as a comparison of top bits. */
  lemma ContainsByShift(b: Block, x: nat)
    requires b.prefix <= 32 && b.base < TwoTo32 && x < TwoTo32
    ensures Contains(b, x) <==> Shr(x, 32 - b.prefix) == Shr(b.base, 32 - b.prefix)
  {
    Subnet.SameNetwork(x, b.base, b.prefix);
  }

  /** Membership in a /4 block is decided by the high four bits of the first octet. */
  lemma InBlock4(os: seq<nat>, b: Block, n: nat)
    requires ValidOctets(os) && b.prefix == 4 && b.base == n * 0x1000_0000 && n < 16
    ensures Contains(b, OctetsToInt(os)) <==> os[0] / 16 == n
  {
    OctetShifts(os);
    ContainsByShift(b, OctetsToInt(os));
    ShrNibbles(b.base);
  }

  /** Membership in a /8 block is decided by the first octet. */
  lemma InBlock8(os: seq<nat>, b: Block, a: nat)
    requires ValidOctets(os) && b.prefix == 8 && b.base == a * 0x100_0000 && a < 256
    ensures Contains(b, OctetsToInt(os)) <==> os[0] == a
  {
    OctetShifts(os);
    ContainsByShift(b, OctetsToInt(os));
    ShrBytes(b.base);
  }

  /** Membership in a /12 block is decided by the first octet and the high
      four bits of the second. */
  lemma InBlock12(os: seq<nat>, b: Block, a: nat, n: nat)
    requires ValidOctets(os) && b.prefix == 12 && b.base == (a * 16 + n) * 0x10_0000
    requires a < 256 && n < 16
    ensures Contains(b, OctetsToInt(os)) <==> os[0] == a && os[1] / 16 == n
  {
    OctetShifts(os);
    ContainsByShift(b, OctetsToInt(os));
    ShrNibbles(b.base);
  }

  /** Membership in a /16 block is decided by the first two octets. */
  lemma InBlock16(os: seq<nat>, b: Block, a: nat, c: nat)
    requires ValidOctets(os) && b.prefix == 16 && b.base == (a * 256 + c) * 0x1_0000
    requires a < 256 && c < 256
    ensures Contains(b, OctetsToInt(os)) <==> os[0] == a && os[1] == c
  {
    OctetShifts(os);
    ContainsByShift(b, OctetsToInt(os));
    ShrBytes(b.base);
  }

  /** Each answer other than "Public" is given for exactly the addresses of its
      CIDR block: private ranges of section 3 of RFC 1918, loopback 127/8,
      link-local 169.254/16, "this network" 0/8, multicast 224/4 and reserved 240/4. */
  lemma NetworkTypeIsBlock(os: seq<nat>, t: NetworkType)
    requires ValidOctets(os) && t != Public
    ensures DetectNetworkType(os) == t <==> Contains(RangeOf(t), OctetsToInt(os))
  {
    var b := RangeOf(t);
    match t
    case Private10 => InBlock8(os, b, 10);
    case Private172 => InBlock12(os, b, 172, 1);
    case Private192 => InBlock16(os, b, 192, 168);
    case Loopback => InBlock8(os, b, 127);
    case LinkLocal => InBlock16(os, b, 169, 254);
    case CurrentNetwork => InBlock8(os, b, 0);
    case Multicast => InBlock4(os, b, 14);
    case Reserved => InBlock4(os, b, 15);
  }

  /** An address is public exactly when it lies in none of the special blocks. */
  lemma {:induction false} PublicOutsideBlocks(os: seq<nat>)
    requires ValidOctets(os)
    ensures DetectNetworkType(os) == Public <==>
      forall t :: t != Public ==> !Contains(RangeOf(t), OctetsToInt(os))
  {
    forall t | t != Public
      ensures DetectNetworkType(os) == t <==> Contains(RangeOf(t), OctetsToInt(os))
    {
      NetworkTypeIsBlock(os, t);
    }
    var t0 := DetectNetworkType(os);
    if t0 != Public {
      assert Contains(RangeOf(t0), OctetsToInt(os));
    }
  }

  /** No address lies in two of the special blocks, so the order in which
      `detect_network_type` tries its rules never changes its answer. */
  lemma {:induction false} BlocksDisjoint(os: seq<nat>, t1: NetworkType, t2: NetworkType)
    requires ValidOctets(os) && t1 != Public && t2 != Public
    ensures Contains(RangeOf(t1), OctetsToInt(os)) && Contains(RangeOf(t2), OctetsToInt(os)) ==> t1 == t2
  {
    NetworkTypeIsBlock(os, t1);
    NetworkTypeIsBlock(os, t2);
  }
}
