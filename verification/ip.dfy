/**
 Addresses and address blocks as Go's net package holds them once parsed.

 An address is 16 bytes. An IPv4 address is held in the IPv4-mapped form of
 section 2.5.5.2 of RFC 4291 (ten zero bytes, two 0xff bytes, then the four
 IPv4 bytes), so an IPv4 literal and its mapped IPv6 spelling are the same
 value. A block (Go's IPNet with a CIDR mask) is an address and a prefix length
 counted on the 128-bit scale. Go holds an IPv4 block with a 4-byte address and
 a 4-byte mask; here it is encoded as the mapped address with prefix length
 96 + n, which gives the same containment answers (see `Contains`).
 */
module Ip {

  type Ip16 = s: seq<bv8> | |s| == 16 witness [0, 0, 0, 0, 0, 0, 0, 0, 0, 0, 0, 0, 0, 0, 0, 0]

  /** The twelve leading bytes of every IPv4-mapped address. */
  const V4InV6Prefix: seq<bv8> := [0, 0, 0, 0, 0, 0, 0, 0, 0, 0, 0xff, 0xff]

  /** The IPv4 address a.b.c.d in mapped form. */
  function V4(a: bv8, b: bv8, c: bv8, d: bv8): Ip16 {
    V4InV6Prefix + [a, b, c, d]
  }

  /** True when the address is an IPv4 address (Go: `To4() != nil`). */
  predicate IsV4(a: Ip16) {
    a[..12] == V4InV6Prefix
  }

  /* ---------- bits ---------- */

  /** The byte with only bit t set, bits numbered from the most significant. */
  function BitMask(t: nat): bv8
    requires t < 8
  {
    match t
    case 0 => 0x80
    case 1 => 0x40
    case 2 => 0x20
    case 3 => 0x10
    case 4 => 0x08
    case 5 => 0x04
    case 6 => 0x02
    case _ => 0x01
  }

  /** The byte whose j most significant bits are set and whose others are clear. */
  function LeadingOnes(j: nat): bv8
    requires j <= 8
  {
    match j
    case 0 => 0x00
    case 1 => 0x80
    case 2 => 0xc0
    case 3 => 0xe0
    case 4 => 0xf0
    case 5 => 0xf8
    case 6 => 0xfc
    case 7 => 0xfe
    case _ => 0xff
  }

  /** Bit t of a byte, bit 0 being the most significant. */
  predicate ByteBit(x: bv8, t: nat)
    requires t < 8
  {
    (x & BitMask(t)) != 0
  }

  /** Bit k of the address, bit 0 being the most significant bit of byte 0. */
  predicate BitAt(a: Ip16, k: nat)
    requires k < 128
  {
    ByteBit(a[k / 8], k % 8)
  }

  /**
   The reference meaning of a prefix match (section 3.1 of RFC 4632): the first
   n bits of a and b agree. Prefix lengths beyond 128 compare every bit.
   */
  predicate SamePrefix(a: Ip16, b: Ip16, n: nat) {
    forall k | 0 <= k < 128 && k < n :: BitAt(a, k) == BitAt(b, k)
  }

  /* ---------- masks ---------- */

  /** How many bits of byte i a prefix of length ones covers. */
  function CoveredBits(i: nat, ones: nat): (r: nat)
    ensures r <= 8
  {
    if ones <= 8 * i then 0
    else if ones - 8 * i >= 8 then 8
    else ones - 8 * i
  }

  /** The address with every bit beyond the first `ones` cleared (Go: `ip.Mask(CIDRMask(ones, 128))`). */
  function Mask(a: Ip16, ones: nat): (r: Ip16)
    ensures forall k | 0 <= k < 128 :: BitAt(r, k) == (k < ones && BitAt(a, k))
  {
    var r: Ip16 := seq(16, i requires 0 <= i < 16 => a[i] & LeadingOnes(CoveredBits(i, ones)));
    assert forall k | 0 <= k < 128 :: BitAt(r, k) == (k < ones && BitAt(a, k)) by {
      forall k | 0 <= k < 128
        ensures BitAt(r, k) == (k < ones && BitAt(a, k))
      {
        MaskedBit(a, r, ones, k);
      }
    }
    r
  }

  /** Bit k of an address whose bytes are those of a masked with the prefix. */
  lemma MaskedBit(a: Ip16, r: Ip16, ones: nat, k: nat)
    requires k < 128
    requires forall i | 0 <= i < 16 :: r[i] == a[i] & LeadingOnes(CoveredBits(i, ones))
    ensures BitAt(r, k) == (k < ones && BitAt(a, k))
  {
    var i, t := k / 8, k % 8;
    assert 8 * i + t == k;
    CoveredBitsBit(i, t, ones);
    MaskedByteBit(a[i], CoveredBits(i, ones), t);
  }

  /** Masking a byte with j leading ones keeps exactly its first j bits. */
  lemma MaskedByteBit(x: bv8, j: nat, t: nat)
    requires j <= 8 && t < 8
    ensures ByteBit(x & LeadingOnes(j), t) <==> t < j && ByteBit(x, t)
  {
  }

  /** A byte is determined by its eight bits. */
  lemma ByteFromBits(x: bv8, y: bv8)
    requires forall t | 0 <= t < 8 :: ByteBit(x, t) == ByteBit(y, t)
    ensures x == y
  {
    assert ByteBit(x, 0) == ByteBit(y, 0);
    assert ByteBit(x, 1) == ByteBit(y, 1);
    assert ByteBit(x, 2) == ByteBit(y, 2);
    assert ByteBit(x, 3) == ByteBit(y, 3);
    assert ByteBit(x, 4) == ByteBit(y, 4);
    assert ByteBit(x, 5) == ByteBit(y, 5);
    assert ByteBit(x, 6) == ByteBit(y, 6);
    assert ByteBit(x, 7) == ByteBit(y, 7);
  }

  /** An address is determined by its 128 bits. */
  lemma AddressFromBits(a: Ip16, b: Ip16)
    requires forall k | 0 <= k < 128 :: BitAt(a, k) == BitAt(b, k)
    ensures a == b
  {
    forall i | 0 <= i < 16
      ensures a[i] == b[i]
    {
      forall t | 0 <= t < 8
        ensures ByteBit(a[i], t) == ByteBit(b[i], t)
      {
        var k := 8 * i + t;
        assert k / 8 == i && k % 8 == t;
        assert BitAt(a, k) == BitAt(b, k);
      }
      ByteFromBits(a[i], b[i]);
    }
  }

  /** Bit t of byte i lies within the prefix exactly when 8 * i + t does. */
  lemma CoveredBitsBit(i: nat, t: nat, ones: nat)
    requires t < 8
    ensures t < CoveredBits(i, ones) <==> 8 * i + t < ones
  {
  }

  /** Two addresses have equal masks exactly when their first `ones` bits agree. */
  lemma MaskEqualIffSamePrefix(a: Ip16, b: Ip16, ones: nat)
    ensures Mask(a, ones) == Mask(b, ones) <==> SamePrefix(a, b, ones)
  {
    if SamePrefix(a, b, ones) {
      AddressFromBits(Mask(a, ones), Mask(b, ones));
    }
  }

  /** Masking twice with the same prefix length is masking once. */
  lemma MaskIdempotent(a: Ip16, ones: nat)
    ensures Mask(Mask(a, ones), ones) == Mask(a, ones)
  {
    AddressFromBits(Mask(Mask(a, ones), ones), Mask(a, ones));
  }

  /** A prefix of 96 bits or more leaves the twelve leading bytes untouched. */
  lemma MaskKeepsLeadingBytes(a: Ip16, ones: nat)
    requires 96 <= ones
    ensures Mask(a, ones)[..12] == a[..12]
  {
    forall i | 0 <= i < 12
      ensures Mask(a, ones)[i] == a[i]
    {
      assert CoveredBits(i, ones) == 8;
    }
  }

  /* ---------- blocks ---------- */

  /** A parsed CIDR block: Go's IPNet whose mask is the leading `ones` bits. */
  datatype IpNet = IpNet(ip: Ip16, ones: nat)

  /**
   Go's `IPNet.Contains`: the candidate must be of the same family as the
   block's address (both IPv4 or both not, as `To4` decides) and agree with it
   under the mask. Go compares an IPv4 block and candidate on their last four
   bytes only; two mapped addresses already agree on the first twelve, so the
   16-byte comparison here gives the same answer.
   */
  predicate Contains(n: IpNet, c: Ip16): (r: bool)
    ensures r <==> IsV4(n.ip) == IsV4(c) && SamePrefix(c, n.ip, n.ones)
  {
    MaskEqualIffSamePrefix(c, n.ip, n.ones);
    IsV4(n.ip) == IsV4(c) && Mask(c, n.ones) == Mask(n.ip, n.ones)
  }

  /**
   For an IPv4 block the family test is implied by the mask: the candidate is
   in the block exactly when, masked to the prefix, it equals the block's
   network address.
   */
  lemma V4BlockContains(n: IpNet, c: Ip16)
    requires IsV4(n.ip) && 96 <= n.ones
    ensures Contains(n, c) <==> Mask(c, n.ones) == Mask(n.ip, n.ones)
  {
    if Mask(c, n.ones) == Mask(n.ip, n.ones) {
      MaskKeepsLeadingBytes(c, n.ones);
      MaskKeepsLeadingBytes(n.ip, n.ones);
    }
  }

  /** A block contains its own network address. */
  lemma ContainsNetworkAddress(n: IpNet)
    ensures Contains(n, n.ip)
  {
  }

  /** The IPv6 block ::/0 contains no IPv4 address, although its mask is empty. */
  lemma Ipv6DefaultRouteExcludesV4(a: bv8, b: bv8, c: bv8, d: bv8)
    ensures !Contains(IpNet(seq(16, _ => 0), 0), V4(a, b, c, d))
  {
    assert seq(16, _ => 0 as bv8)[10] != 0xff;
  }
}
