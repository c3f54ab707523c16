/** Dotted-quad IPv4 addresses: `parse_ipv4`, `octets_to_int`, `int_to_octets`
    and `int_to_ip` of app.py. */
module Address {
  import opened Wrappers
  import opened Bits
  import opened Text

  /** Why `parse_ipv4` rejected its input; each case is one `ValueError` it raises. */
  datatype ParseError =
    | NotDigitsAndDots            // some dot-separated part is not an integer
    | WrongOctetCount             // there are not exactly four parts
    | OctetOutOfRange(index: nat) // 1-based position of the first part outside 0..255
  {
    /** The exception text the request handler passes back to the client. */
    function Message(): string
    {
      match this
      case NotDigitsAndDots => "IPv4 address must contain only digits and dots."
      case WrongOctetCount => "IPv4 address must have exactly 4 octets."
      case OctetOutOfRange(i) => "Octet " + NatToString(i) + " must be between 0 and 255."
    }
  }

  predicate IsOctet(v: int)
  {
    0 <= v <= 255
  }

  /** Four integers, each in 0..255: what a successful parse returns. */
  predicate ValidOctets(os: seq<int>)
  {
    |os| == 4 && forall i :: 0 <= i < 4 ==> IsOctet(os[i])
  }

  /** The list comprehension `[int(p) for p in parts]`: one failing part fails all. */
  function ParseParts(parts: seq<string>): (r: Option<seq<nat>>)
    ensures r.Some? <==> forall i :: 0 <= i < |parts| ==> ParseDecimal(parts[i]).Some?
    ensures r.Some? ==> |r.value| == |parts|
    ensures r.Some? ==> forall i :: 0 <= i < |parts| ==> r.value[i] == ParseDecimal(parts[i]).value
    decreases |parts|
  {
    if |parts| == 0 then Some([])
    else
      match ParseDecimal(parts[0])
      case None => None
      case Some(v) =>
        match ParseParts(parts[1..])
        case None => None
        case Some(vs) => Some([v] + vs)
  }

  /** The range-check loop: the 1-based index of the first value outside 0..255, if any. */
  function FirstOutOfRange(vals: seq<int>): (r: Option<nat>)
    ensures r.None? <==> forall i :: 0 <= i < |vals| ==> IsOctet(vals[i])
    ensures r.Some? ==> 1 <= r.value <= |vals| && !IsOctet(vals[r.value - 1])
    ensures r.Some? ==> forall j :: 0 <= j < r.value - 1 ==> IsOctet(vals[j])
    decreases |vals|
  {
    if |vals| == 0 then None
    else if !IsOctet(vals[0]) then Some(1)
    else
      match FirstOutOfRange(vals[1..])
      case None => None
      case Some(i) => Some(i + 1)
  }

  /** Every dot-separated part of s is an integer. */
  predicate PartsAreIntegers(s: string)
  {
    var parts := Split(s, '.');
    forall i :: 0 <= i < |parts| ==> ParseDecimal(parts[i]).Some?
  }

  /** The integer value of part i of s. */
  function PartValue(s: string, i: nat): nat
    requires PartsAreIntegers(s) && i < |Split(s, '.')|
  {
    ParseDecimal(Split(s, '.')[i]).value
  }

  /** `parse_ipv4`: split on '.', convert every part, then check the count, then
      the range of each part in order. The first failing check decides the error. */
  function ParseIPv4(s: string): (r: Result<seq<nat>, ParseError>)
    // success exactly for four integer parts in range, returned in their order
    ensures r.Success? <==>
      PartsAreIntegers(s) && |Split(s, '.')| == 4 && forall i :: 0 <= i < 4 ==> PartValue(s, i) <= 255
    ensures r.Success? ==>
      ValidOctets(r.value) && forall i :: 0 <= i < 4 ==> r.value[i] == PartValue(s, i)
    // a non-integer part is reported before anything else
    ensures r == Failure(NotDigitsAndDots) <==> !PartsAreIntegers(s)
    // then a wrong part count
    ensures r == Failure(WrongOctetCount) <==> PartsAreIntegers(s) && |Split(s, '.')| != 4
    // then the first octet out of range, by 1-based position
    ensures r.Failure? && r.error.OctetOutOfRange? ==>
      && PartsAreIntegers(s) && |Split(s, '.')| == 4
      && 1 <= r.error.index <= 4
      && PartValue(s, r.error.index - 1) > 255
      && forall j :: 0 <= j < r.error.index - 1 ==> PartValue(s, j) <= 255
  {
    match ParseParts(Split(s, '.'))
    case None => Failure(NotDigitsAndDots)
    case Some(vals) =>
      if |vals| != 4 then Failure(WrongOctetCount)
      else
        assert forall i :: 0 <= i < 4 ==> vals[i] == PartValue(s, i);
        match FirstOutOfRange(vals)
        case Some(i) => Failure(OctetOutOfRange(i))
        case None => Success(vals)
  }

  /** `octets_to_int`: `value = (value << 8) | o` over the list, left to right. */
  function OctetsToInt(os: seq<nat>): (r: nat)
    decreases |os|
  {
    if |os| == 0 then 0 else BitOr(Shl(OctetsToInt(os[..|os| - 1]), 8), os[|os| - 1])
  }

  /** On octets the OR never meets a set bit: each step is `value * 256 + o`,
      so the result is the base-256 number the octets spell. */
  lemma {:induction false} OctetsToIntStep(os: seq<nat>)
    requires |os| >= 1 && IsOctet(os[|os| - 1])
    ensures OctetsToInt(os) == OctetsToInt(os[..|os| - 1]) * 256 + os[|os| - 1]
  {
    var v := OctetsToInt(os[..|os| - 1]);
    ShlByte(v);
    Pow2Of8();
    AlignedAndSmallIsZero(Shl(v, 8), os[|os| - 1], 8);
    DisjointOrIsSum(Shl(v, 8), os[|os| - 1]);
  }

  /** The value of four octets a.b.c.d is a*2^24 + b*2^16 + c*2^8 + d, below 2^32. */
  lemma OctetsToIntFour(os: seq<nat>)
    requires ValidOctets(os)
    ensures OctetsToInt(os) == os[0] * 0x100_0000 + os[1] * 0x1_0000 + os[2] * 0x100 + os[3]
    ensures OctetsToInt(os) < 0x1_0000_0000
  {
    OctetsToIntStep(os);
    OctetsToIntStep(os[..3]);
    OctetsToIntStep(os[..2]);
    OctetsToIntStep(os[..1]);
    assert os[..3][..2] == os[..2];
    assert os[..2][..1] == os[..1];
    assert os[..1][..0] == [];
  }

  /** `int_to_octets`: the four bytes of value, most significant first. */
  function IntToOctets(value: nat): (r: seq<nat>)
    ensures ValidOctets(r)
  {
    [BitAnd(Shr(value, 24), 0xFF), BitAnd(Shr(value, 16), 0xFF),
     BitAnd(Shr(value, 8), 0xFF), BitAnd(value, 0xFF)]
  }

  /** Each byte of `int_to_octets` is the matching base-256 digit of the value. */
  lemma IntToOctetsDigits(value: nat)
    ensures IntToOctets(value) ==
      [(value / 0x100_0000) % 256, (value / 0x1_0000) % 256, (value / 0x100) % 256, value % 256]
  {
    ShrBytes(value);
    AndByte(value / 0x100_0000);
    AndByte(value / 0x1_0000);
    AndByte(value / 0x100);
    AndByte(value);
  }

  /** The octets of a*2^24 + b*2^16 + c*2^8 + d are a, b, c, d. */
  lemma OctetsOfDigits(a: nat, b: nat, c: nat, d: nat)
    requires IsOctet(a) && IsOctet(b) && IsOctet(c) && IsOctet(d)
    ensures IntToOctets(a * 0x100_0000 + b * 0x1_0000 + c * 0x100 + d) == [a, b, c, d]
  {
    var v := a * 0x100_0000 + b * 0x1_0000 + c * 0x100 + d;
    IntToOctetsDigits(v);
    assert (v / 0x100_0000) % 256 == a by {
      DivModUnique(v, 0x100_0000, a, b * 0x1_0000 + c * 0x100 + d);
      DivModUnique(a, 256, 0, a);
    }
    assert (v / 0x1_0000) % 256 == b by {
      DivModUnique(v, 0x1_0000, a * 256 + b, c * 0x100 + d);
      DivModUnique(a * 256 + b, 256, a, b);
    }
    assert (v / 0x100) % 256 == c by {
      DivModUnique(v, 0x100, a * 0x1_0000 + b * 256 + c, d);
      DivModUnique(a * 0x1_0000 + b * 256 + c, 256, a * 256 + b, c);
    }
    assert v % 256 == d by {
      DivModUnique(v, 256, a * 0x1_0000 + b * 256 + c, d);
    }
  }

  /** Every value below 2^32 is a*2^24 + b*2^16 + c*2^8 + d for some octets. */
  lemma DigitsOfValue(value: nat)
    requires value < 0x1_0000_0000
    ensures var a, b, c, d := value / 0x100_0000, (value / 0x1_0000) % 256, (value / 0x100) % 256, value % 256;
      IsOctet(a) && value == a * 0x100_0000 + b * 0x1_0000 + c * 0x100 + d
  {
    var d, v1 := value % 256, value / 256;
    var c, v2 := v1 % 256, v1 / 256;
    var b, a := v2 % 256, v2 / 256;
    assert value == a * 0x100_0000 + b * 0x1_0000 + c * 0x100 + d;
    DivModUnique(value, 0x100_0000, a, b * 0x1_0000 + c * 0x100 + d);
    DivModUnique(value, 0x1_0000, a * 256 + b, c * 0x100 + d);
    DivModUnique(value, 0x100, a * 0x1_0000 + b * 256 + c, d);
    DivModUnique(a * 256 + b, 256, a, b);
    DivModUnique(a * 0x1_0000 + b * 256 + c, 256, a * 256 + b, c);
  }

  /** Splitting a 32-bit value into octets and joining them again gives the value. */
  lemma IntRoundTrip(value: nat)
    requires value < 0x1_0000_0000
    ensures OctetsToInt(IntToOctets(value)) == value
  {
    DigitsOfValue(value);
    var a, b, c, d := value / 0x100_0000, (value / 0x1_0000) % 256, (value / 0x100) % 256, value % 256;
    OctetsOfDigits(a, b, c, d);
    OctetsToIntFour([a, b, c, d]);
  }

  /** Joining four octets and splitting the value again gives the octets. */
  lemma OctetsRoundTrip(os: seq<nat>)
    requires ValidOctets(os)
    ensures OctetsToInt(os) < 0x1_0000_0000
    ensures IntToOctets(OctetsToInt(os)) == os
  {
    OctetsToIntFour(os);
    OctetsOfDigits(os[0], os[1], os[2], os[3]);
    assert [os[0], os[1], os[2], os[3]] == os;
  }

  /** `str(o) for o in os`. */
  function DecimalParts(os: seq<nat>): (parts: seq<string>)
    ensures |parts| == |os|
    ensures forall i :: 0 <= i < |os| ==> parts[i] == NatToString(os[i])
  {
    seq(|os|, i requires 0 <= i < |os| => NatToString(os[i]))
  }

  /** The dotted-decimal text of a list of numbers, `".".join(str(o) for o in os)`. */
  function FormatOctets(os: seq<nat>): string
    requires |os| >= 1
  {
    Join(DecimalParts(os), '.')
  }

  /** `int_to_ip`: the dotted-decimal text of a value's four octets. */
  function IntToIp(value: nat): string
  {
    FormatOctets(IntToOctets(value))
  }

  /** Parsing the dotted-decimal text of four octets gives the octets back. */
  lemma FormatThenParse(os: seq<nat>)
    requires ValidOctets(os)
    ensures ParseIPv4(FormatOctets(os)) == Success(os)
  {
    var parts := DecimalParts(os);
    assert forall i :: 0 <= i < |parts| ==> '.' !in parts[i] by {
      forall i | 0 <= i < |parts| ensures '.' !in parts[i] {
        assert AllDigits(parts[i]);
      }
    }
    SplitJoin(parts, '.');
    var s := FormatOctets(os);
    assert Split(s, '.') == parts;
    forall i | 0 <= i < 4 ensures ParseDecimal(parts[i]) == Some(os[i]) {
      NatToStringShort(os[i]);
      NatToStringParses(os[i]);
    }
    var r := ParseIPv4(s);
    assert r.Success?;
    assert r.value == os;
  }

  /** Whatever `int_to_ip` prints, `parse_ipv4` accepts, and it yields the
      printed value's octets. */
  lemma IntToIpParses(value: nat)
    ensures ParseIPv4(IntToIp(value)) == Success(IntToOctets(value))
  {
    FormatThenParse(IntToOctets(value));
  }

  /** `text` is a dotted quad that `parse_ipv4` accepts and whose octets
      `octets_to_int` turns into v. */
  predicate Denotes(text: string, v: nat)
  {
    ParseIPv4(text).Success? && OctetsToInt(ParseIPv4(text).value) == v
  }

  /** The text `int_to_ip` prints for a 32-bit value reads back as that value. */
  lemma IntToIpDenotes(value: nat)
    requires value < 0x1_0000_0000
    ensures Denotes(IntToIp(value), value)
  {
    IntToIpParses(value);
    IntRoundTrip(value);
  }

  /** The text `int_to_ip` prints holds only digits and dots. */
  lemma IntToIpDigitsAndDots(value: nat, c: char)
    requires c != '.' && !IsDigit(c)
    ensures c !in IntToIp(value)
  {
    var parts := DecimalParts(IntToOctets(value));
    forall i | 0 <= i < |parts| ensures c !in parts[i] {
      assert AllDigits(parts[i]);
    }
    JoinAvoids(parts, '.', c);
  }

  /** Conversely, an accepted address whose parts carry no superfluous leading
      zero is printed back exactly as it was written. */
  lemma ParseThenFormat(s: string)
    requires ParseIPv4(s).Success?
    requires forall i :: 0 <= i < |Split(s, '.')| ==> Canonical(Split(s, '.')[i])
    ensures FormatOctets(ParseIPv4(s).value) == s
  {
    var parts := Split(s, '.');
    var os := ParseIPv4(s).value;
    forall i | 0 <= i < 4 ensures DecimalParts(os)[i] == parts[i] {
      CanonicalRoundTrip(parts[i]);
    }
    assert DecimalParts(os) == parts;
    JoinSplit(s, '.');
  }

  /** Leading zeros are not rejected: writing a non-empty part of an address
      with an extra leading zero ("01" for "1") changes nothing about how it
      parses, unless the part already has the most digits `int` converts, in
      which case the padded address has a non-integer part. */
  lemma LeadingZeroAccepted(parts: seq<string>, k: nat)
    requires |parts| >= 1 && k < |parts|
    requires forall i :: 0 <= i < |parts| ==> '.' !in parts[i]
    requires |parts[k]| > 0
    ensures ParseIPv4(Join(parts[k := "0" + parts[k]], '.')) ==
      if |parts[k]| < MaxStrDigits then ParseIPv4(Join(parts, '.')) else Failure(NotDigitsAndDots)
  {
    var padded := parts[k := "0" + parts[k]];
    assert forall i :: 0 <= i < |padded| ==> '.' !in padded[i] by {
      assert '.' !in "0";
    }
    SplitJoin(parts, '.');
    SplitJoin(padded, '.');
    LeadingZeroIgnored(parts[k]);
    if |parts[k]| < MaxStrDigits {
      assert ParseParts(padded) == ParseParts(parts) by {
        assert forall i :: 0 <= i < |parts| ==> ParseDecimal(padded[i]) == ParseDecimal(parts[i]);
        var a, b := ParseParts(padded), ParseParts(parts);
        if a.Some? {
          assert a.value == b.value;
        }
      }
    } else {
      assert ParseDecimal(padded[k]).None?;
    }
  }
}
