/**
 The allow-list entry matcher, `CompareIp` in whitelistip.go: does the
 candidate address `ip` match the entry `comparable`, which is either a single
 address or a CIDR block? Every failure reads as "no match".
 */
module Matcher {
  import opened Ip
  import opened NetLib

  /** True when the entry parses neither as an address nor as a block. */
  predicate Malformed(lib: Library, entry: string) {
    lib.parseIP(entry).None? && lib.parseCIDR(entry).None?
  }

  function CompareIp(lib: Library, comparable: string, ip: string): (r: bool)
    // an unparsable candidate matches nothing
    ensures lib.parseIP(ip).None? ==> !r
    // an address entry matches by address equality
    ensures lib.parseIP(ip).Some? && lib.parseIP(comparable).Some? ==>
              (r <==> lib.parseIP(comparable).value == lib.parseIP(ip).value)
    // a block entry (that is not also an address) matches by containment
    ensures lib.parseIP(ip).Some? && lib.parseIP(comparable).None? && lib.parseCIDR(comparable).Some? ==>
              (r <==> Contains(lib.parseCIDR(comparable).value, lib.parseIP(ip).value))
    // a malformed entry matches nothing
    ensures Malformed(lib, comparable) ==> !r
  {
    match lib.parseIP(ip)
    case None => false
    case Some(clientIp) =>
      match lib.parseIP(comparable)
      case Some(comparableIp) => comparableIp == clientIp
      case None =>
        match lib.parseCIDR(comparable)
        case Some(network) => Contains(network, clientIp)
        case None => false
  }

  /** Every parseable address matches itself as an entry. */
  lemma CompareIpReflexive(lib: Library, a: string)
    requires lib.parseIP(a).Some?
    ensures CompareIp(lib, a, a)
  {
  }

  /**
   Matching an address entry does not depend on how either address is spelled:
   two spellings that parse to the same address match each other, in both
   directions, and distinct addresses never do.
   */
  lemma AddressEntrySymmetric(lib: Library, a: string, b: string)
    requires lib.parseIP(a).Some? && lib.parseIP(b).Some?
    ensures CompareIp(lib, a, b) == CompareIp(lib, b, a)
    ensures CompareIp(lib, a, b) <==> lib.parseIP(a).value == lib.parseIP(b).value
  {
  }

  /**
   A block entry matches exactly the candidates of the block's family whose
   first `ones` bits agree with the block's address.
   */
  lemma BlockEntryIsPrefixMatch(lib: Library, comparable: string, ip: string)
    requires lib.parseIP(ip).Some? && lib.parseIP(comparable).None? && lib.parseCIDR(comparable).Some?
    ensures var n, c := lib.parseCIDR(comparable).value, lib.parseIP(ip).value;
            CompareIp(lib, comparable, ip) <==> IsV4(n.ip) == IsV4(c) && SamePrefix(c, n.ip, n.ones)
  {
  }

  /**
   An IPv4 block entry matches a candidate exactly when the candidate, masked
   to the prefix length, equals the block's network address.
   */
  lemma V4BlockEntryIsMaskedEquality(lib: Library, comparable: string, ip: string)
    requires lib.parseIP(ip).Some? && lib.parseIP(comparable).None? && lib.parseCIDR(comparable).Some?
    requires IsV4(lib.parseCIDR(comparable).value.ip) && 96 <= lib.parseCIDR(comparable).value.ones
    ensures var n, c := lib.parseCIDR(comparable).value, lib.parseIP(ip).value;
            CompareIp(lib, comparable, ip) <==> Mask(c, n.ones) == Mask(n.ip, n.ones)
  {
    V4BlockContains(lib.parseCIDR(comparable).value, lib.parseIP(ip).value);
  }

  /** A malformed entry matches no candidate, not even its own text. */
  lemma MalformedEntryIsInert(lib: Library, entry: string)
    requires Malformed(lib, entry)
    ensures forall ip :: !CompareIp(lib, entry, ip)
    ensures !CompareIp(lib, entry, entry)
  {
  }

  /** An unparsable candidate is matched by no entry. */
  lemma UnparsableCandidateNeverMatches(lib: Library, ip: string)
    requires lib.parseIP(ip).None?
    ensures forall entry :: !CompareIp(lib, entry, ip)
  {
  }

  /** A match always rests on a parsed candidate and a parsed entry. */
  lemma MatchNeedsParses(lib: Library, comparable: string, ip: string)
    requires CompareIp(lib, comparable, ip)
    ensures lib.parseIP(ip).Some?
    ensures lib.parseIP(comparable).Some? || lib.parseCIDR(comparable).Some?
  {
  }
}
