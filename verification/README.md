# IPv4 / CIDR core of the IP-information service

This project models the IPv4 and CIDR arithmetic behind the `/api/ip-info`
endpoint of `app.py`, and proves properties of that model. The endpoint
takes an address such as `192.168.1.10` and a prefix length such as `24`.
It answers with two things:

- the address's classful class and special-purpose range;
- its subnet: netmask, wildcard mask, network id, broadcast address, first
  and last usable host, and the total and usable host counts.

Python integers are unbounded, so the model uses `nat`/`int`. The operators
`<<`, `>>`, `&`, `|` and `~` are defined bit by bit in module `Bits`.
`x & 0xFFFFFFFF` on a possibly negative operand is written `Low32`, Python's
two's-complement truncation to 32 bits.

| module | file | models |
|---|---|---|
| `Wrappers` | wrappers.dfy | `Option` and `Result` |
| `Bits` | bits.dfy | Python's integer bit operators and the power-of-two facts they rest on |
| `Text` | text.dfy | `str.strip()`, `str.split`, `str.join`, `int(s)` on digit strings, `str(n)` |
| `Address` | address.dfy | `parse_ipv4`, `octets_to_int`, `int_to_octets`, `int_to_ip` |
| `Subnet` | subnet.dfy | `mask_from_prefix` and the subnet derivation inside `ip_info` |
| `Classify` | classify.dfy | `detect_class` and `detect_network_type` |
| `IpInfo` | ipinfo.dfy | `ip_info` without Flask: request fields to an error or a response record |

Module layout:

- `Subnet.Derive` follows the handler step by step with bit operations.
  Its contract says the result equals `Subnet.SubnetSpec`. `SubnetSpec` is an
  independent description of the subnet in plain arithmetic: a block of 2^k
  addresses (k = 32 − prefix) aligned to a multiple of 2^k. The laws of the
  subnet are proved about that description.
- The range classifier has the same kind of partner. `Classify.RangeOf` gives
  the CIDR block of each named range. Membership in a block is decided with
  the model's own `mask_from_prefix`.

Where the project's documentation and the code differ, the model follows
`app.py`:

- `parse_ipv4` accepts leading zeros, because `int("01") == 1`. So `010.1.1.1`
  is the address 10.1.1.1 (`Address.LeadingZeroAccepted`). The documented
  browser-side form check rejects leading zeros, but that check is not part of
  this model.
- `detect_class` reports first octet 127 as "Loopback" rather than Class A.
- `detect_class` reports first octets 0 and 255 as "Unknown"
  (`Classify.DetectClassIsClassful`).

## Model

| member | source | states |
|---|---|---|
| Text.Strip | app.py:108 | `strip()` leaves no white-space character at either end, and gives the empty string exactly when the input is all white space (Python's `isspace` set) |
| Text.StripSurrounded | app.py:108 | stripping white space placed around a non-empty trimmed text gives back exactly that text |
| Text.StripIdempotent | app.py:108 | stripping a stripped string changes nothing |
| Text.Split | app.py:11 | `s.split(sep)` has at least one piece and no piece contains `sep`; `Text.JoinSplit` and `Text.SplitJoin` pin it down as the inverse of `Text.Join` |
| Text.Join | app.py:42 | `sep.join(parts)`; characterised by `Text.JoinSplit`, `Text.SplitJoin` and `Text.JoinAvoids` |
| Text.JoinSplit | app.py:11 | joining the pieces of `s.split(sep)` with `sep` restores `s` |
| Text.SplitJoin | app.py:42 | splitting a join of separator-free pieces gives back the pieces |
| Text.ParseDecimal | app.py:11 | `int(part)` on ASCII digit strings within the 4300-digit limit; characterised by `Text.ParseDecimalIsPaddedStr` and `Text.LeadingZeroIgnored` |
| Text.ParseDecimalIsPaddedStr | app.py:11 | a part converts to n exactly when it is `str(n)` behind some leading zeros and at most 4300 characters long |
| Text.PaddedCanonical | app.py:11 | every non-empty digit string is `str` of its own value behind fewer leading zeros than it has characters |
| Text.NatToString | app.py:42 | `str(n)` is a digit string without a superfluous leading zero, and it denotes n |
| Text.CanonicalRoundTrip | app.py:42 | a digit string without a superfluous leading zero is exactly `str` of its own value |
| Text.LeadingZeroIgnored | app.py:11 | a leading "0" in front of a non-empty part changes neither whether nor to what it converts, except that a part already at the 4300-digit limit no longer converts |
| Address.ParseParts | app.py:11-13 | the list conversion succeeds exactly when every part converts, and then keeps the parts' values in order |
| Address.FirstOutOfRange | app.py:18-20 | there is no index exactly when every value is in 0..255; otherwise it is the 1-based position of the first value outside that range |
| Address.ParseIPv4 | app.py:9-22 | success exactly on four integer parts in 0..255, returned in order; otherwise a non-integer part is reported first, then a wrong part count, then the first out-of-range octet by 1-based position |
| Address.OctetsToInt | app.py:25-29 | `octets_to_int`, the shift-and-or fold; its value is given by `Address.OctetsToIntStep` and `Address.OctetsToIntFour` |
| Address.OctetsToIntStep | app.py:25-29 | on an octet the shift-and-or step equals `value * 256 + o` |
| Address.OctetsToIntFour | app.py:25-29 | four octets a.b.c.d give a·2^24 + b·2^16 + c·2^8 + d, which is below 2^32 |
| Address.IntToOctets | app.py:32-38 | the result has four elements, each in 0..255 |
| Address.IntToOctetsDigits | app.py:32-38 | the four elements are the base-256 digits of the value, most significant first |
| Address.IntRoundTrip | app.py:25-38 | for a value below 2^32, `octets_to_int(int_to_octets(v)) == v` |
| Address.OctetsRoundTrip | app.py:25-38 | for four octets in 0..255, `int_to_octets(octets_to_int(o)) == o`, and the value is below 2^32 |
| Address.IntToIp | app.py:41-42 | `int_to_ip`; `Address.IntToIpDenotes` and `Address.IntToIpParses` show its text parses back to the value |
| Address.FormatThenParse | app.py:41-42 | `parse_ipv4` accepts the dotted-decimal text of any four octets and returns those octets |
| Address.IntToIpParses | app.py:41-42 | `parse_ipv4(int_to_ip(v))` succeeds with `int_to_octets(v)` |
| Address.IntToIpDenotes | app.py:41-42 | the text `int_to_ip` prints for a 32-bit value parses back to that value |
| Address.IntToIpDigitsAndDots | app.py:41-42 | `int_to_ip` prints only digits and dots |
| Address.ParseThenFormat | app.py:9-22 | an accepted address with no superfluous leading zeros is printed back exactly as written |
| Address.LeadingZeroAccepted | app.py:9-13 | padding any non-empty part of an address with a leading zero does not change the result of `parse_ipv4`, except that a part already at the 4300-digit limit makes it report a non-integer part |
| Subnet.MaskFromPrefix | app.py:83-86 | `mask_from_prefix`; its value and bit shape are given by `Subnet.MaskValue` and `Subnet.MaskBits` |
| Subnet.MaskValue | app.py:83-86 | the netmask of prefix p is 2^32 − 2^(32−p): 0 for p = 0 and 0xFFFFFFFF for p = 32 |
| Subnet.MaskBits | app.py:83-86 | bit i of the netmask is set exactly when i ≥ 32 − p: p leading ones, then 32 − p zeros |
| Subnet.MaskNested | app.py:83-86 | for p ≤ q the mask of p is at most the mask of q, and all its bits are bits of the mask of q |
| Subnet.NetworkRoundsDown | app.py:124 | `ip & mask` clears the 32 − p host bits: it is ip rounded down to a multiple of 2^(32−p) |
| Subnet.SameNetwork | app.py:124 | two addresses have the same network id exactly when their top p bits agree |
| Subnet.WildcardIsComplement | app.py:123 | `~mask & 0xFFFFFFFF` of the mask 2^32 − 2^k is 2^k − 1 |
| Subnet.NetworkBlock | app.py:124-125 | the network id is at most the address, the address is below network + 2^k, and `network OR wildcard` is network + wildcard, at most 0xFFFFFFFF |
| Subnet.DeriveLaws | app.py:122-133 | mask, wildcard, network, broadcast, total and usable counts computed as the handler does equal the arithmetic description, and up to /30 some host is usable |
| Subnet.Derive | app.py:122-139 | the handler's bitwise derivation equals the arithmetic description of the block: 2^k addresses from ip rounded down to a multiple of 2^k, usable hosts only up to /30 |
| Subnet.SubnetBounds | app.py:122-130 | network ≤ ip ≤ broadcast ≤ 0xFFFFFFFF, broadcast − network + 1 = total hosts, and mask + wildcard = 0xFFFFFFFF |
| Subnet.SubnetMaskPartition | app.py:122-123 | mask & wildcard = 0 and mask OR wildcard = 0xFFFFFFFF |
| Subnet.SubnetHosts | app.py:130-139 | there is a host range exactly for prefixes up to 30; then usable = total − 2 ≥ 2, network < first ≤ last < broadcast, and the range has `usable` addresses; for /31 and /32 usable is 0 and total is 2 or 1 |
| Subnet.Membership | app.py:124-125 | an address masks to the subnet's network id exactly when it lies between network and broadcast |
| Classify.DetectClass | app.py:45-58 | each class label is returned on exactly its first-octet range: A 1-126, B 128-191, C 192-223, D 224-239, E 240-254, Loopback 127, Unknown for everything else |
| Classify.DetectClassIsClassful | app.py:45-58 | the class equals the classful leading-bit class of the first octet except on 127 (Loopback, not A), 0 (Unknown, not A) and 255 (Unknown, not E) |
| Classify.DetectNetworkType | app.py:61-80 | each range label is returned exactly on its condition on the first two octets, e.g. 10.x.y.z is private whatever x is and 172.b is private exactly for 16 ≤ b ≤ 31; "Public" exactly when no rule matches |
| Classify.NetworkTypeIsBlock | app.py:61-79 | every label other than "Public" is given for exactly the addresses of its CIDR block (10/8, 172.16/12, 192.168/16, 127/8, 169.254/16, 0/8, 224/4, 240/4) |
| Classify.PublicOutsideBlocks | app.py:61-80 | an address is "Public" exactly when it lies in none of those blocks |
| Classify.BlocksDisjoint | app.py:61-80 | no address lies in two of the blocks, so the order in which the rules are tried never changes the answer |
| IpInfo.IpInfoOf | app.py:107-120 | an all-white-space or missing address is refused first, then a prefix outside 0..32 (24 when missing), then whatever `parse_ipv4` refuses, with its reason; otherwise the response is built from the stripped address, its parsed octets and the prefix |
| IpInfo.Response | app.py:117-155 | the response record for accepted octets and prefix; `IpInfo.ResponseMasks`, `IpInfo.ResponseRange`, `IpInfo.ResponseHosts` and `IpInfo.ResponseClassesAgree` state what its fields hold |
| IpInfo.ResponseMasks | app.py:147-148 | the printed subnet mask reads back as 2^32 − 2^k and the printed wildcard mask as 2^k − 1 |
| IpInfo.ResponseRange | app.py:124-153 | the network id is the network address, "/" and the prefix; the printed broadcast closes the block holding the address; broadcast − network + 1 = total hosts = 2^(32−p) |
| IpInfo.ResponseHosts | app.py:130-152 | host_min and host_max are present exactly up to /30, where they read back as network + 1 and broadcast − 1 and usable = total − 2 ≥ 2; beyond /30 usable is 0 |
| IpInfo.ResponseClassesAgree | app.py:119-120 | the class is "Loopback" exactly when the network type is, and class D exactly when the network type is "Multicast" |

## Left out

- The Flask layer is not modelled: routing, `send_from_directory`, the CORS headers, JSON decoding and encoding, and HTTP status codes. A `Failure` stands for a 400 answer whose `error` text is `RequestError.Message()`.
- The generic 500 handler is not modelled. It answers "Internal server error: …" for any exception other than `ValueError`. No path of the model raises one; in the source one such path is a `prefix` of JSON null, an array or an object (next line).
- A request's `ip` value that is not a string is not modelled. The model takes the text that `str(...)` would produce.
- A `prefix` value that `int(...)` cannot convert is not modelled; the model takes an integer prefix or none. In the source the conversion happens before the empty-address check, so such a value decides the answer even when `ip` is empty. A string that is not an integer raises `ValueError`, answered with 400 and Python's message. JSON null, an array or an object raises `TypeError`, which only the generic handler catches, answered with 500. A JSON number with a fraction is truncated by `int` and is not modelled either.
- `Text.ParseDecimal` models Python's `int()` only on non-empty runs of ASCII digits, at most 4300 of them (`MaxStrDigits`, the default digit limit of CPython 3.11 and later and of the 3.7.14, 3.8.14, 3.9.14 and 3.10.7 security releases; leading zeros count). Older interpreters have no such limit, and a part of more than 4300 digits would convert there. Python also accepts surrounding white space, a sign, `_` separators and non-ASCII digits in an octet; the model treats those parts as non-integers.
- `Subnet.Derive` uses an exact power of two for `int(math.pow(2, 32 - prefix))`. The floating-point path is exact for exponents up to 32.
- `Classify.DetectNetworkType` requires at least two octets. In the source the unpacking `a, b, *_` raises on fewer, and the handler always passes four.
- The browser-side form handler, DOM rendering and the history, subnetting, export and logout endpoints are not part of this model. None of them is implemented in `app.py`.
