/** The string operations the address code uses: Python's `str.strip()`,
    `str.split(sep)`, `sep.join(parts)`, and decimal conversion in both
    directions (`int(s)` restricted to ASCII digits, and `str(n)`). */
module Text {
  import opened Wrappers
  import Bits

  /** Python's `str.isspace()` for a single character. */
  predicate IsSpace(c: char)
  {
    var n := c as int;
    || 9 <= n <= 13
    || 28 <= n <= 32
    || n == 0x85 || n == 0xA0 || n == 0x1680
    || 0x2000 <= n <= 0x200A
    || n == 0x2028 || n == 0x2029 || n == 0x202F || n == 0x205F || n == 0x3000
  }

  predicate AllSpace(s: string)
  {
    forall i :: 0 <= i < |s| ==> IsSpace(s[i])
  }

  /** Neither end of s is a space character. */
  predicate Trimmed(s: string)
  {
    |s| > 0 ==> !IsSpace(s[0]) && !IsSpace(s[|s| - 1])
  }

  /** Drops the leading space characters. */
  function StripStart(s: string): (r: string)
    ensures |r| <= |s| && r == s[|s| - |r|..]
    ensures |r| > 0 ==> !IsSpace(r[0])
    ensures AllSpace(s[..|s| - |r|])
    decreases |s|
  {
    if |s| > 0 && IsSpace(s[0]) then StripStart(s[1..]) else s
  }

  /** Drops the trailing space characters. */
  function StripEnd(s: string): (r: string)
    ensures |r| <= |s| && r == s[..|r|]
    ensures |r| > 0 ==> !IsSpace(r[|r| - 1])
    ensures AllSpace(s[|r|..])
    decreases |s|
  {
    if |s| > 0 && IsSpace(s[|s| - 1]) then
      var r := StripEnd(s[..|s| - 1]);
      assert s[|r|..] == s[..|s| - 1][|r|..] + [s[|s| - 1]];
      r
    else s
  }

  /** Python's `s.strip()`. */
  function Strip(s: string): (r: string)
    ensures Trimmed(r)
    ensures r == [] <==> AllSpace(s)
  {
    var t := StripStart(s);
    var r := StripEnd(t);
    assert AllSpace(s) ==> r == [];
    assert r == [] ==> AllSpace(s) by {
      if r == [] {
        assert s == s[..|s| - |t|] + t;
      }
    }
    r
  }

  /** Strip removes exactly the surrounding spaces and nothing of a trimmed core. */
  lemma {:induction false} StripSurrounded(pre: string, core: string, post: string)
    requires AllSpace(pre) && AllSpace(post) && Trimmed(core) && |core| > 0
    ensures Strip(pre + core + post) == core
  {
    var s, rest := pre + core + post, core + post;
    assert s == pre + rest;
    assert rest[0] == core[0];
    StripStartSpaces(pre, rest);
    StripEndSpaces(core, post);
    assert Strip(s) == StripEnd(rest);
  }

  lemma {:induction false} StripStartSpaces(pre: string, rest: string)
    requires AllSpace(pre) && |rest| > 0 && !IsSpace(rest[0])
    ensures StripStart(pre + rest) == rest
    decreases |pre|
  {
    if |pre| > 0 {
      assert (pre + rest)[1..] == pre[1..] + rest;
      StripStartSpaces(pre[1..], rest);
    } else {
      assert pre + rest == rest;
    }
  }

  lemma {:induction false} StripEndSpaces(core: string, post: string)
    requires AllSpace(post) && |core| > 0 && !IsSpace(core[|core| - 1])
    ensures StripEnd(core + post) == core
    decreases |post|
  {
    if |post| > 0 {
      var last := |core + post| - 1;
      assert (core + post)[..last] == core + post[..|post| - 1];
      StripEndSpaces(core, post[..|post| - 1]);
    } else {
      assert core + post == core;
    }
  }

  /** Stripping a stripped string changes nothing. */
  lemma StripIdempotent(s: string)
    ensures Strip(Strip(s)) == Strip(s)
  {
  }

  /** Python's `s.split(sep)`: the pieces between separators, empty ones included. */
  function Split(s: string, sep: char): (parts: seq<string>)
    ensures |parts| >= 1
    ensures forall i :: 0 <= i < |parts| ==> sep !in parts[i]
    decreases |s|
  {
    if |s| == 0 then [[]]
    else
      var rest := Split(s[1..], sep);
      if s[0] == sep then [[]] + rest
      else [[s[0]] + rest[0]] + rest[1..]
  }

  /** Python's `sep.join(parts)` for a non-empty list of parts. */
  function Join(parts: seq<string>, sep: char): string
    requires |parts| >= 1
    decreases |parts|
  {
    if |parts| == 1 then parts[0] else parts[0] + [sep] + Join(parts[1..], sep)
  }

  /** Joining the pieces of a split restores the original string. */
  lemma {:induction false} JoinSplit(s: string, sep: char)
    ensures Join(Split(s, sep), sep) == s
    decreases |s|
  {
    if |s| > 0 {
      JoinSplit(s[1..], sep);
      var rest := Split(s[1..], sep);
      if s[0] == sep {
        assert ([[]] + rest)[1..] == rest;
      } else {
        var parts := [[s[0]] + rest[0]] + rest[1..];
        assert parts[1..] == rest[1..];
        if |rest| > 1 {
          assert Join(rest, sep) == rest[0] + [sep] + Join(rest[1..], sep);
        }
      }
    }
  }

  /** A join contains no character other than the separator that the parts lack. */
  lemma {:induction false} JoinAvoids(parts: seq<string>, sep: char, c: char)
    requires |parts| >= 1 && c != sep
    requires forall i :: 0 <= i < |parts| ==> c !in parts[i]
    ensures c !in Join(parts, sep)
    decreases |parts|
  {
    if |parts| > 1 {
      JoinAvoids(parts[1..], sep, c);
    }
  }

  /** Splitting a join of separator-free parts gives back the parts. */
  lemma {:induction false} SplitJoin(parts: seq<string>, sep: char)
    requires |parts| >= 1
    requires forall i :: 0 <= i < |parts| ==> sep !in parts[i]
    ensures Split(Join(parts, sep), sep) == parts
    decreases |parts|
  {
    if |parts| == 1 {
      SplitNoSeparator(parts[0], sep);
    } else {
      SplitJoin(parts[1..], sep);
      SplitAfterPiece(parts[0], Join(parts[1..], sep), sep);
    }
  }

  lemma {:induction false} SplitNoSeparator(p: string, sep: char)
    requires sep !in p
    ensures Split(p, sep) == [p]
    decreases |p|
  {
    if |p| > 0 {
      SplitNoSeparator(p[1..], sep);
      assert p[0] != sep;
      assert [p[0]] + p[1..] == p;
    }
  }

  lemma {:induction false} SplitAfterPiece(p: string, t: string, sep: char)
    requires sep !in p
    ensures Split(p + [sep] + t, sep) == [p] + Split(t, sep)
    decreases |p|
  {
    var s := p + [sep] + t;
    if |p| == 0 {
      assert s[1..] == t;
    } else {
      assert s[1..] == p[1..] + [sep] + t;
      SplitAfterPiece(p[1..], t, sep);
      assert [s[0]] + p[1..] == p;
    }
  }

  predicate IsDigit(c: char)
  {
    '0' <= c <= '9'
  }

  predicate AllDigits(s: string)
  {
    forall i :: 0 <= i < |s| ==> IsDigit(s[i])
  }

  /** A digit string without a superfluous leading zero, as `str(n)` writes it. */
  predicate Canonical(s: string)
  {
    |s| >= 1 && AllDigits(s) && (|s| > 1 ==> s[0] != '0')
  }

  function DigitValue(c: char): (d: nat)
    requires IsDigit(c)
    ensures d < 10
  {
    c as int - '0' as int
  }

  function DigitChar(d: nat): (c: char)
    requires d < 10
    ensures IsDigit(c) && DigitValue(c) == d
  {
    ('0' as int + d) as char
  }

  /** The number a string of decimal digits denotes, most significant digit first. */
  function DecimalValue(s: string): nat
    requires AllDigits(s)
    decreases |s|
  {
    if |s| == 0 then 0 else DecimalValue(s[..|s| - 1]) * 10 + DigitValue(s[|s| - 1])
  }

  /** The most digits `int(s)` converts: the default of
      `sys.get_int_max_str_digits()`, beyond which `int` raises `ValueError`
      (leading zeros count as digits). */
  const MaxStrDigits: nat := 4300

  /** Python's `int(s)` on the inputs this model admits: a non-empty run of at
      most `MaxStrDigits` ASCII decimal digits. Everything else is the
      `ValueError` path (`None`). */
  function ParseDecimal(s: string): (r: Option<nat>)
    ensures r.Some? <==> 0 < |s| <= MaxStrDigits && AllDigits(s)
    ensures r.Some? ==> r.value == DecimalValue(s)
  {
    if 0 < |s| <= MaxStrDigits && AllDigits(s) then Some(DecimalValue(s)) else None
  }

  /** Python's `str(n)` for the small non-negative integers the handler prints
      (octets, prefixes and part positions, far below any printing limit). */
  function NatToString(n: nat): (s: string)
    ensures Canonical(s)
    ensures DecimalValue(s) == n
    decreases n
  {
    if n < 10 then [DigitChar(n)]
    else
      var s := NatToString(n / 10) + [DigitChar(n % 10)];
      assert s[..|s| - 1] == NatToString(n / 10);
      s
  }

  /** Formatting a number and parsing it back gives the number, as long as
      its text is within the digit limit. */
  lemma NatToStringParses(n: nat)
    ensures |NatToString(n)| <= MaxStrDigits ==> ParseDecimal(NatToString(n)) == Some(n)
  {
  }

  /** k zero digits. */
  function Zeros(k: nat): (z: string)
    ensures |z| == k && forall i :: 0 <= i < k ==> z[i] == '0'
  {
    seq(k, _ => '0')
  }

  /** What a part converts to, in terms of `str`: `int(s)` is n exactly when s
      is `str(n)` behind some leading zeros and within the digit limit. */
  lemma ParseDecimalIsPaddedStr(s: string, n: nat)
    ensures ParseDecimal(s) == Some(n) <==>
      |s| <= MaxStrDigits && exists k: nat | k <= |s| :: s == Zeros(k) + NatToString(n)
  {
    if ParseDecimal(s) == Some(n) {
      var k := PaddedCanonical(s);
      assert s == Zeros(k) + NatToString(n);
    }
    if |s| <= MaxStrDigits && exists k: nat | k <= |s| :: s == Zeros(k) + NatToString(n) {
      var k: nat :| k <= |s| && s == Zeros(k) + NatToString(n);
      PaddedValue(k, NatToString(n));
    }
  }

  /** A non-empty digit string is `str` of its value behind k leading zeros. */
  lemma {:induction false} PaddedCanonical(s: string) returns (k: nat)
    requires 0 < |s| && AllDigits(s)
    ensures k < |s| && s == Zeros(k) + NatToString(DecimalValue(s))
    decreases |s|
  {
    if Canonical(s) {
      k := 0;
      CanonicalRoundTrip(s);
      assert Zeros(0) + s == s;
    } else {
      assert |s| > 1 && s[0] == '0';
      var rest := s[1..];
      assert AllDigits(rest);
      assert s == "0" + rest;
      ZeroPrefixValue(rest);
      var j := PaddedCanonical(rest);
      k := j + 1;
      var str := NatToString(DecimalValue(rest));
      assert Zeros(k) == "0" + Zeros(j);
      assert s == "0" + (Zeros(j) + str);
    }
  }

  /** Leading zeros in front of a digit string change neither that it is all
      digits nor its value. */
  lemma {:induction false} PaddedValue(k: nat, t: string)
    requires AllDigits(t)
    ensures AllDigits(Zeros(k) + t) && DecimalValue(Zeros(k) + t) == DecimalValue(t)
    decreases k
  {
    if k > 0 {
      PaddedValue(k - 1, t);
      ZeroPrefixValue(Zeros(k - 1) + t);
      assert Zeros(k) + t == "0" + (Zeros(k - 1) + t);
    } else {
      assert Zeros(0) + t == t;
    }
  }

  /** Numbers below 1000, octets in particular, print with at most three digits. */
  lemma NatToStringShort(n: nat)
    requires n < 1000
    ensures |NatToString(n)| <= 3
  {
    if n >= 10 {
      assert |NatToString(n)| == |NatToString(n / 10)| + 1;
      if n / 10 >= 10 {
        assert |NatToString(n / 10)| == |NatToString(n / 100)| + 1;
      }
    }
  }

  /** A canonical digit string is exactly how its own value is formatted, so
      formatting is the inverse of parsing on canonical strings. */
  lemma {:induction false} CanonicalRoundTrip(s: string)
    requires Canonical(s)
    ensures NatToString(DecimalValue(s)) == s
    decreases |s|
  {
    if |s| > 1 {
      var init := s[..|s| - 1];
      assert Canonical(init);
      CanonicalRoundTrip(init);
      CanonicalAtLeastOne(init);
      var v := DecimalValue(s);
      var d := DigitValue(s[|s| - 1]);
      Bits.DivModUnique(v, 10, DecimalValue(init), d);
      assert [DigitChar(d)] == [s[|s| - 1]];
      assert s == init + [s[|s| - 1]];
    }
  }

  lemma {:induction false} CanonicalAtLeastOne(s: string)
    requires Canonical(s) && s[0] != '0'
    ensures DecimalValue(s) >= 1
    decreases |s|
  {
    if |s| > 1 {
      CanonicalAtLeastOne(s[..|s| - 1]);
    }
  }

  /** Python's `int` ignores leading zeros: "01" denotes 1. Putting a "0" in
      front of a non-empty part changes neither whether nor to what it
      converts, unless the part already has the maximum number of digits. */
  lemma {:induction false} LeadingZeroIgnored(s: string)
    requires |s| > 0
    ensures ParseDecimal("0" + s) == if |s| < MaxStrDigits then ParseDecimal(s) else None
  {
    if AllDigits(s) {
      ZeroPrefixValue(s);
    } else {
      var i :| 0 <= i < |s| && !IsDigit(s[i]);
      assert ("0" + s)[i + 1] == s[i];
    }
  }

  lemma {:induction false} ZeroPrefixValue(s: string)
    requires AllDigits(s)
    ensures AllDigits("0" + s) && DecimalValue("0" + s) == DecimalValue(s)
    decreases |s|
  {
    var z := "0" + s;
    assert forall i :: 0 <= i < |z| ==> IsDigit(z[i]) by {
      forall i | 0 <= i < |z| ensures IsDigit(z[i]) {
        if i > 0 { assert z[i] == s[i - 1]; }
      }
    }
    if |s| > 0 {
      ZeroPrefixValue(s[..|s| - 1]);
      assert z[..|z| - 1] == "0" + s[..|s| - 1];
    } else {
      assert z[..0] == [];
    }
  }
}
