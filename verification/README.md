# IP allow-list filter — a Dafny model

This project models the request filter of `whitelistip.go`, part of an HTTP
server that lets a request through only when its client address is on an
allow-list. The file has two pieces:

- `CompareIp(comparable, ip)`: does the candidate address `ip` match one
  allow-list entry? The entry is either a single address or a CIDR block.
  Every failure reads as "no match".
- the handler built by `WhitelistIp`: it splits the peer address
  (`RemoteAddr`) into host and port, searches the allow-list for an entry
  matching the host, and then does one of three things. It answers 400 when
  the peer address fails to split for a reason other than a missing port. It answers 403 when no entry matches.
  Otherwise it forwards the request.

Modules:

- `Ip` (`ip.dfy`): addresses and blocks as Go's `net` package holds them once
  parsed. An address is 16 bytes. IPv4 is held in the IPv4-mapped form of
  section 2.5.5.2 of RFC 4291, so `10.0.0.5` and `::ffff:10.0.0.5` are one
  value. A block `IpNet(ip, ones)` counts its prefix length on the 128-bit
  scale. Go holds an IPv4 block with a 4-byte address and mask; here it is
  encoded as the mapped address with `ones = 96 + n`. The module defines
  masking and containment. It also gives a bit-level reference definition of
  a prefix match (`SamePrefix`, section 3.1 of RFC 4632) and proves masking
  against it.
- `NetLib` (`netlib.dfy`): the three library calls `net.ParseIP`,
  `net.ParseCIDR` and `net.SplitHostPort`. They are function values in a
  `Library` record that every operation takes as a parameter. So each property
  holds whatever the parsers do. Only the shapes of their results are fixed.
  The splitter returns `HostPort(host, port)`, `MissingPort` or `OtherError`.
- `Matcher` (`matcher.dfy`): `CompareIp` and its properties.
- `Filter` (`filter.dfy`): host extraction, the allow-list loop, the
  three-way decision as a pure function `Decide`, and the handler `Handle`.
  `Handle` follows the source step by step and is proved equal to `Decide`.

Every operation is a pure function of its inputs, so repeating a match or a
decision with the same inputs gives the same answer.

Containment follows Go's `IPNet.Contains`. The candidate must be of the same
family as the block's address: both IPv4, or both not, as `To4` decides. It
must also agree with that address under the mask. For an IPv4 block the family
test is implied by the mask (`Ip.V4BlockContains`). For an IPv6 block it is
not: `::/0` contains no IPv4 address (`Ip.Ipv6DefaultRouteExcludesV4`).

An empty allow-list does not answer every request with 403: a peer address
that fails to split for a reason other than a missing port gets 400 before the
allow-list is consulted (`Filter.EmptyAllowListRefusesAll`).

## Model

| member | source | states |
|---|---|---|
| Matcher.CompareIp | whitelistip.go:53-70 | an unparsable candidate matches nothing; an entry that parses as an address matches exactly the equal address; an entry that parses only as a block matches exactly the candidates the block contains; an entry that parses as neither matches nothing |
| Matcher.CompareIpReflexive | whitelistip.go:59-62 | every parseable address, used as an entry, matches itself |
| Matcher.AddressEntrySymmetric | whitelistip.go:59-62 | for two parseable addresses, matching is symmetric and holds exactly when they parse to the same address, whatever their spelling |
| Matcher.BlockEntryIsPrefixMatch | whitelistip.go:64-67 | a block entry matches a candidate exactly when both are of one family and the candidate's first `ones` bits equal the block address's |
| Matcher.V4BlockEntryIsMaskedEquality | whitelistip.go:64-67 | an IPv4 block entry matches exactly the candidates whose masked form equals the block's network address |
| Matcher.MalformedEntryIsInert | whitelistip.go:59-69 | an entry that parses as neither address nor block matches no candidate, not even its own text |
| Matcher.UnparsableCandidateNeverMatches | whitelistip.go:54-57 | a candidate that does not parse is matched by no entry |
| Matcher.MatchNeedsParses | whitelistip.go:53-70 | a match implies the candidate parsed and the entry parsed as an address or a block |
| Ip.Mask | whitelistip.go:64-66 | masking to `ones` keeps exactly the first `ones` bits of the address and clears every later bit |
| Ip.MaskEqualIffSamePrefix | whitelistip.go:66 | two addresses have equal masks exactly when their first `ones` bits agree |
| Ip.MaskIdempotent | whitelistip.go:64-66 | masking a block's address a second time changes nothing |
| Ip.Contains | whitelistip.go:66 | Go's `IPNet.Contains`: a candidate is in the block exactly when it is of the block address's family and its first `ones` bits agree with the block address's |
| Ip.V4BlockContains | whitelistip.go:66 | for an IPv4 block, containment is exactly "the masked candidate equals the network address" |
| Ip.ContainsNetworkAddress | whitelistip.go:66 | a block contains its own network address |
| Ip.Ipv6DefaultRouteExcludesV4 | whitelistip.go:66 | the IPv6 block `::/0` contains no IPv4 address |
| Filter.ExtractHost | whitelistip.go:17-29 | no host exactly when splitting fails other than by a missing port; the split host when the split succeeds; on a missing port, the colon-free prefix of the peer address ending at its end or at its first colon |
| Filter.BeforeFirstColon | whitelistip.go:28 | the fallback host is a prefix of the peer address, has no colon, and ends at the end of the address or just before a colon |
| Filter.BeforeFirstColonUnique | whitelistip.go:28 | those three properties determine the fallback host uniquely |
| Filter.ScanAllowList | whitelistip.go:31-37 | the loop with its early exit sets `found` exactly when some entry matches the host |
| Filter.Decide | whitelistip.go:17-46 | 400 with body `<RemoteAddr> is not a valid IP address` exactly when splitting fails other than by a missing port; otherwise forward exactly when some entry matches the extracted host, else 403 with body `<host> is not registered in the whitelist IP`; no other status |
| Filter.Handle | whitelistip.go:14-50 | the handler, taken step by step as the source does, reaches the outcome `Decide` describes |
| Filter.MissingPortFallsBackToPrefix | whitelistip.go:17-29 | on a missing-port error the host is the colon-free prefix of the peer address and the outcome is never 400 |
| Filter.EmptyAllowListRefusesAll | whitelistip.go:31-43 | an empty allow-list refuses every request, with 403 unless the peer address fails to split for a reason other than a missing port |
| Filter.ListedAppend | whitelistip.go:31-37 | a match in a concatenated allow-list is a match in one of its parts, and conversely |
| Filter.AllowListOrderIrrelevant | whitelistip.go:31-46 | two allow-lists with the same entries, in any order or multiplicity, give the same outcome |
| Filter.MoreEntriesNeverRevoke | whitelistip.go:31-46 | adding entries before or after the allow-list never turns a forwarded request away |
| Filter.MalformedEntryChangesNothing | whitelistip.go:31-46 | inserting a malformed entry anywhere in the allow-list changes no outcome |
| Filter.UnparsableHostRefused | whitelistip.go:39-43 | a host that does not parse as an address gets 403 with the not-registered body, whatever the allow-list |
| Filter.ScenarioExactAddress | whitelistip.go:17-46 | allow-list `["10.0.0.5"]` forwards peer `10.0.0.5:51342` |
| Filter.ScenarioBlockInside | whitelistip.go:17-46 | allow-list `["10.0.0.0/24"]` forwards peer `10.0.0.200:8080` |
| Filter.ScenarioBlockOutside | whitelistip.go:17-46 | allow-list `["10.0.0.0/24"]` answers peer `10.0.1.5:8080` with 403 and body `10.0.1.5 is not registered in the whitelist IP` |
| Filter.ScenarioUnparsableHostOnly | whitelistip.go:17-46 | peer `not-an-address` takes the missing-port path and gets 403, not 400 |
| Filter.ScenarioBracketedIpv6WithoutPort | whitelistip.go:19-43 | peer `[::1]` without a port is cut to host `[` and refused with 403 whatever the allow-list |

## Left out

- Parsing internals of `net.ParseIP`, `net.ParseCIDR` and `net.SplitHostPort`. These are Go library code and are not part of this model. They are parameters (`NetLib.Library`), and the scenario lemmas state as preconditions the parse results they rely on.
- The error-text test `strings.Contains(err.Error(), ErrMissingPort)` (whitelistip.go:19). It is modelled by the tagged `MissingPort` result of the splitter, which stands for any split error whose text contains `missing port in address`.
- The error log line (whitelistip.go:20). It is a side effect with no bearing on the decision.
- Writing the status and body, `ServeHTTP` and `r.WithContext` (whitelistip.go:23-24, 41-42, 46). These are HTTP plumbing, represented only by the `Outcome` value. `Forward` means the wrapped handler runs on the unchanged request and the filter writes nothing.
- Concurrency of per-request calls. The filter keeps no state, so each call is modelled as a pure function.
- Go's 4-byte IP values and masks that are not CIDR prefixes. `ParseIP` always returns 16 bytes, but `ParseCIDR` returns an IPv4 block with a 4-byte address and a 4-byte mask. The model encodes that block as the IPv4-mapped address with prefix length `96 + n`. This is a representation choice and gives the same `Contains` answers: Go's `networkNumberAndMask` then compares only the last 4 bytes, and two IPv4-mapped addresses already agree on their first 12. Masks that are not prefixes never come out of `ParseCIDR`, so every mask here is a prefix length.
