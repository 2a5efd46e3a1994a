/** The address classifier of iputils/iputils.go: an address is the byte slice
    Go's net.IP holds (4 or 16 bytes), a range of the special-purpose address
    registries is a parsed CIDR (network bytes, prefix length), and an address
    is local when one of the ranges of its family holds it. */
module IpUtils {
  import opened Wrappers

  newtype byte = x: int | 0 <= x < 256

  /** A net.IP: 4 bytes for an IPv4 address, 16 bytes otherwise. */
  type IP = seq<byte>

  const IPv4Len: nat := 4
  const IPv6Len: nat := 16

  /** The first twelve bytes of an IPv4 address held in 16 bytes. */
  const V4InV6Prefix: seq<byte> := [0, 0, 0, 0, 0, 0, 0, 0, 0, 0, 0xff, 0xff]

  /** The 16-byte form net.IPv4 (and net.ParseIP of a dotted quad) produces. */
  function IPv4(a: byte, b: byte, c: byte, d: byte): IP
  {
    V4InV6Prefix + [a, b, c, d]
  }

  /** net.IP.To4: the 4-byte form of an IPv4 address, nil for anything else. */
  function To4(ip: IP): (r: Option<IP>)
    ensures r.Some? ==> |r.value| == IPv4Len
    ensures r.Some? <==> |ip| == IPv4Len || (|ip| == IPv6Len && ip[..12] == V4InV6Prefix)
  {
    if |ip| == IPv4Len then Some(ip)
    else if |ip| == IPv6Len && ip[..12] == V4InV6Prefix then Some(ip[12..])
    else None
  }

  /** net.IP.To16: the 16-byte form of an address, nil for a malformed slice. */
  function To16(ip: IP): (r: Option<IP>)
    ensures r.Some? ==> |r.value| == IPv6Len
    ensures r.Some? <==> |ip| == IPv4Len || |ip| == IPv6Len
    ensures r.Some? ==> To4(r.value) == To4(ip)
  {
    if |ip| == IPv4Len then Some(V4InV6Prefix + ip)
    else if |ip| == IPv6Len then Some(ip)
    else None
  }

  // ---------------------------------------------------------------------
  // Prefixes

  /** A parsed CIDR range: the network address and the prefix length. */
  datatype Prefix = Prefix(network: IP, length: nat)

  /** The b most significant bits of a byte, as a number: what x & mask keeps
      of the byte, shifted down (the byte halved 8 - b times). */
  function Top(x: byte, b: nat): nat
    requires b <= 8
    decreases 8 - b
  {
    if b == 8 then x as int else Top(x, b + 1) / 2
  }

  /** Bit j of a byte, counting from the most significant bit (j = 0): the
      lowest bit of its top j + 1 bits. */
  function BitOf(x: byte, j: nat): nat
    requires j < 8
  {
    Top(x, j + 1) % 2
  }

  /** Bit k of an address, counting from the most significant bit. */
  function Bit(s: seq<byte>, k: nat): nat
    requires k < 8 * |s|
  {
    BitOf(s[k / 8], k % 8)
  }

  /** The reference meaning of "x lies in the range": its first len bits are
      those of the network. */
  ghost predicate SamePrefix(x: seq<byte>, network: seq<byte>, len: nat)
    requires |x| == |network| && len <= 8 * |network|
  {
    forall k | 0 <= k < len :: Bit(x, k) == Bit(network, k)
  }

  /** How many bits of byte i a mask of len bits covers (CIDRMask). */
  function MaskBits(len: int, i: nat): nat
  {
    var b := len - 8 * i;
    if b <= 0 then 0 else if b >= 8 then 8 else b
  }

  /** The byte-wise test of IPNet.Contains, from byte i on:
      x[i] & mask[i] == network[i] & mask[i]. */
  predicate MaskedEqual(x: seq<byte>, network: seq<byte>, len: int, i: nat)
    requires |x| == |network| && i <= |network|
    decreases |network| - i
  {
    i == |network|
    || (Top(x[i], MaskBits(len, i)) == Top(network[i], MaskBits(len, i))
        && MaskedEqual(x, network, len, i + 1))
  }

  /** networkNumberAndMask: a network that To4 accepts is compared in its 4-byte
      form, and a 16-byte mask then keeps only its last 32 bits. */
  function NetworkNumber(p: Prefix): (r: Prefix)
    ensures |r.network| == IPv4Len <==> To4(p.network).Some?
    ensures To4(p.network).None? ==> r == p
    ensures p.length <= 8 * |p.network| ==> r.length <= 8 * |r.network|
  {
    match To4(p.network)
    case None => p
    case Some(n4) =>
      if |p.network| == IPv6Len
      then Prefix(n4, if p.length >= 96 then p.length - 96 else 0)
      else Prefix(n4, p.length)
  }

  /** IPNet.Contains: the address (in its 4-byte form when it has one) has the
      network's length and agrees with it under the mask. So a range with a
      4-byte form holds only addresses with one, and any other range only
      addresses without one. */
  predicate Contains(p: Prefix, ip: IP): (r: bool)
    ensures r ==> (To4(ip).Some? <==> To4(p.network).Some?)
  {
    var n := NetworkNumber(p);
    var x := match To4(ip) case Some(x4) => x4 case None => ip;
    |x| == |n.network| && n.length <= 8 * |n.network| && MaskedEqual(x, n.network, n.length, 0)
  }

  // ---------------------------------------------------------------------
  // The registries (nonGlobalIPv4CIDRs, nonGlobalIPv6CIDRs), already parsed

  const NonGlobalIPv4Nets: seq<Prefix> := [
    Prefix([127, 0, 0, 0], 8),        // loopback
    Prefix([192, 168, 0, 0], 16),     // private use
    Prefix([10, 0, 0, 0], 8),         // private use
    Prefix([172, 16, 0, 0], 12),      // private use
    Prefix([0, 0, 0, 0], 8),          // this host on this network
    Prefix([100, 64, 0, 0], 10),      // shared address space
    Prefix([169, 254, 0, 0], 16),     // link local
    Prefix([192, 0, 0, 0], 24),       // IETF protocol assignments
    Prefix([192, 0, 2, 0], 24),       // documentation (TEST-NET-1)
    Prefix([198, 18, 0, 0], 15),      // benchmarking
    Prefix([198, 51, 100, 0], 24),    // documentation (TEST-NET-2)
    Prefix([203, 0, 113, 0], 24),     // documentation (TEST-NET-3)
    Prefix([240, 0, 0, 0], 4),        // reserved
    Prefix([255, 255, 255, 255], 32)  // limited broadcast
  ]

  const Loopback6 := Prefix([0, 0, 0, 0, 0, 0, 0, 0, 0, 0, 0, 0, 0, 0, 0, 1], 128)                // ::1/128
  const UniqueLocal6 := Prefix([0xfc, 0, 0, 0, 0, 0, 0, 0, 0, 0, 0, 0, 0, 0, 0, 0], 7)             // fc00::/7
  const Mapped4 := Prefix([0, 0, 0, 0, 0, 0, 0, 0, 0, 0, 0xff, 0xff, 0, 0, 0, 0], 96)              // ::ffff:0:0/96
  const LinkScoped6 := Prefix([0xfe, 0x80, 0, 0, 0, 0, 0, 0, 0, 0, 0, 0, 0, 0, 0, 0], 10)          // fe80::/10
  const Unspecified6 := Prefix([0, 0, 0, 0, 0, 0, 0, 0, 0, 0, 0, 0, 0, 0, 0, 0], 128)              // ::/128
  const IetfProtocol6 := Prefix([0x20, 0x01, 0, 0, 0, 0, 0, 0, 0, 0, 0, 0, 0, 0, 0, 0], 23)        // 2001::/23
  const Documentation6 := Prefix([0x20, 0x01, 0x0d, 0xb8, 0, 0, 0, 0, 0, 0, 0, 0, 0, 0, 0, 0], 32) // 2001:db8::/32
  const Benchmarking6 := Prefix([0x20, 0x01, 0, 0x02, 0, 0, 0, 0, 0, 0, 0, 0, 0, 0, 0, 0], 48)     // 2001:2::/48
  const Teredo6 := Prefix([0x20, 0x01, 0, 0, 0, 0, 0, 0, 0, 0, 0, 0, 0, 0, 0, 0], 32)              // 2001::/32
  const DiscardOnly6 := Prefix([0x01, 0, 0, 0, 0, 0, 0, 0, 0, 0, 0, 0, 0, 0, 0, 0], 64)            // 100::/64

  /** nonGlobalIPv6CIDRs, in the order of the source. */
  const NonGlobalIPv6Nets: seq<Prefix> := [
    Loopback6, UniqueLocal6, Mapped4, LinkScoped6, Unspecified6,
    IetfProtocol6, Documentation6, Benchmarking6, Teredo6, DiscardOnly6
  ]

  /** Some range of the table holds the address. */
  predicate InAny(nets: seq<Prefix>, x: IP)
  {
    exists p | p in nets :: Contains(p, x)
  }

  /** What IsLocalIP answers: nil is local; an address with a 4-byte form is
      looked up in the IPv4 table; any other address with a 16-byte form in the
      IPv6 table. */
  predicate IsLocal(ip: Option<IP>)
  {
    match ip
    case None => true
    case Some(a) =>
      match To4(a)
      case Some(a4) => InAny(NonGlobalIPv4Nets, a4)
      case None =>
        match To16(a)
        case Some(a6) => InAny(NonGlobalIPv6Nets, a6)
        case None => false
  }

  /** The loop of IsLocalIP over one table, returning at the first range that
      holds the address. */
  method AnyContains(nets: seq<Prefix>, x: IP) returns (found: bool)
    ensures found == InAny(nets, x)
    ensures found ==> exists i | 0 <= i < |nets| :: Contains(nets[i], x) && forall j | 0 <= j < i :: !Contains(nets[j], x)
  {
    var i := 0;
    while i < |nets|
      invariant 0 <= i <= |nets|
      invariant forall j | 0 <= j < i :: !Contains(nets[j], x)
    {
      if Contains(nets[i], x) {
        return true;
      }
      i := i + 1;
    }
    return false;
  }

  /** IsLocalIP: is the address outside the globally routable space? */
  method IsLocalIP(ip: Option<IP>) returns (local: bool)
    ensures local == IsLocal(ip)
  {
    if ip.None? {
      return true;
    }
    var ip4 := To4(ip.value);
    if ip4.Some? {
      local := AnyContains(NonGlobalIPv4Nets, ip4.value);
      return;
    }
    var ip6 := To16(ip.value);
    if ip6.Some? {
      local := AnyContains(NonGlobalIPv6Nets, ip6.value);
      return;
    }
    return false;
  }

  // ---------------------------------------------------------------------
  // Parsing wrappers. `parsed` stands for what net.ParseIP returned for the
  // text: nil (None) or the address.

  /** ParseIP: the parsed address, and whether it has a 4-byte form. */
  function ParseIP(parsed: Option<IP>): (r: (Option<IP>, bool))
    ensures r.0 == parsed
    ensures r.1 <==> parsed.Some? && To4(parsed.value).Some?
    ensures r.0.None? ==> !r.1
  {
    if parsed.None? then (None, false) else (parsed, To4(parsed.value).Some?)
  }

  /** IsIP: the text parsed, so ParseIP returns an address. */
  predicate IsIP(parsed: Option<IP>): (r: bool)
    ensures r <==> ParseIP(parsed).0.Some?
  {
    parsed.Some?
  }

  /** IsIPv4: the text parsed to a 4-byte address or a 16-byte one with the
      v4-in-v6 prefix. */
  predicate IsIPv4(parsed: Option<IP>): (r: bool)
    ensures r <==> parsed.Some? && (|parsed.value| == IPv4Len || (|parsed.value| == IPv6Len && parsed.value[..12] == V4InV6Prefix))
  {
    ParseIP(parsed).1
  }

  /** IsIPv6: the text parsed, to an address without a 4-byte form. */
  function IsIPv6(parsed: Option<IP>): (r: bool)
    ensures r ==> IsIP(parsed) && !IsIPv4(parsed)
    ensures IsIP(parsed) ==> (r <==> !IsIPv4(parsed))
  {
    var (ip, isIPv4) := ParseIP(parsed);
    ip.Some? && !isIPv4
  }

  /** A text that parsed is IPv4 or IPv6 and never both; one that did not is
      neither. */
  lemma IpKinds(parsed: Option<IP>)
    ensures IsIP(parsed) <==> IsIPv4(parsed) || IsIPv6(parsed)
    ensures !(IsIPv4(parsed) && IsIPv6(parsed))
  {
  }

  // ---------------------------------------------------------------------
  // The masked byte comparison is the prefix test

  /** Taking one more top bit doubles the top part and appends that bit. */
  lemma TopStep(x: byte, b: nat)
    requires b < 8
    ensures Top(x, b + 1) == 2 * Top(x, b) + BitOf(x, b)
  {
  }

  /** 2 to the n, for the bit counts of one byte. */
  function Pow2(n: nat): nat
    requires n <= 8
  {
    [1, 2, 4, 8, 16, 32, 64, 128, 256][n]
  }

  /** The top b bits of a byte are the byte divided by 2 to the 8 - b. */
  lemma TopDiv(x: byte, b: nat)
    requires b <= 8
    ensures Top(x, b) == x as int / Pow2(8 - b)
  {
    var v := x as int;
    assert Top(x, 7) == v / 2;
    assert Top(x, 6) == v / 4;
    assert Top(x, 5) == v / 8;
    assert Top(x, 4) == v / 16;
    assert Top(x, 3) == v / 32;
    assert Top(x, 2) == v / 64;
    assert Top(x, 1) == v / 128;
    assert Top(x, 0) == v / 256;
  }

  /** Two bytes agree under a mask of b bits iff their first b bits agree. */
  lemma {:induction false} TopBits(x: byte, y: byte, b: nat)
    requires b <= 8
    ensures Top(x, b) == Top(y, b) <==> forall j | 0 <= j < b :: BitOf(x, j) == BitOf(y, j)
  {
    if b == 0 {
      TopDiv(x, 0); TopDiv(y, 0);
    } else {
      TopBits(x, y, b - 1);
      TopStep(x, b - 1);
      TopStep(y, b - 1);
      assert Top(x, b) == Top(y, b)
          <==> Top(x, b - 1) == Top(y, b - 1) && BitOf(x, b - 1) == BitOf(y, b - 1);
      assert (forall j | 0 <= j < b :: BitOf(x, j) == BitOf(y, j))
          <==> (forall j | 0 <= j < b - 1 :: BitOf(x, j) == BitOf(y, j)) && BitOf(x, b - 1) == BitOf(y, b - 1);
    }
  }

  /** Byte i agrees with the network under a mask of b bits iff the address
      bits 8i to 8i + b agree. */
  lemma ByteBits(x: seq<byte>, network: seq<byte>, i: nat, b: nat)
    requires |x| == |network| && i < |network| && b <= 8
    ensures Top(x[i], b) == Top(network[i], b)
        <==> forall k | 8 * i <= k < 8 * i + b :: Bit(x, k) == Bit(network, k)
  {
    TopBits(x[i], network[i], b);
    forall k | 8 * i <= k < 8 * i + b
      ensures Bit(x, k) == BitOf(x[i], k - 8 * i) && Bit(network, k) == BitOf(network[i], k - 8 * i)
    {
      assert k / 8 == i && k % 8 == k - 8 * i;
    }
    if forall k | 8 * i <= k < 8 * i + b :: Bit(x, k) == Bit(network, k) {
      forall j | 0 <= j < b ensures BitOf(x[i], j) == BitOf(network[i], j) {
        assert Bit(x, 8 * i + j) == Bit(network, 8 * i + j);
      }
    }
    if forall j | 0 <= j < b :: BitOf(x[i], j) == BitOf(network[i], j) {
      forall k | 8 * i <= k < 8 * i + b ensures Bit(x, k) == Bit(network, k) {
        assert BitOf(x[i], k - 8 * i) == BitOf(network[i], k - 8 * i);
      }
    }
  }

  /** From byte i on, the masked comparison checks exactly the prefix bits
      that lie in bytes i and later. */
  lemma {:induction false} MaskedEqualBits(x: seq<byte>, network: seq<byte>, len: nat, i: nat)
    requires |x| == |network| && len <= 8 * |network| && i <= |network|
    ensures MaskedEqual(x, network, len, i)
        <==> forall k | 8 * i <= k < len :: Bit(x, k) == Bit(network, k)
    decreases |network| - i
  {
    if i < |network| {
      MaskedEqualBits(x, network, len, i + 1);
      var b := MaskBits(len, i);
      ByteBits(x, network, i, b);
      assert (forall k | 8 * i <= k < len :: Bit(x, k) == Bit(network, k))
          <==> ((forall k | 8 * i <= k < 8 * i + b :: Bit(x, k) == Bit(network, k))
                && (forall k | 8 * (i + 1) <= k < len :: Bit(x, k) == Bit(network, k)));
    }
  }

  /** Bytes wholly past the prefix length are not compared. */
  lemma {:induction false} MaskedEqualPastLength(x: seq<byte>, network: seq<byte>, len: int, i: nat)
    requires |x| == |network| && i <= |network| && len <= 8 * i
    ensures MaskedEqual(x, network, len, i)
    decreases |network| - i
  {
    if i < |network| {
      assert MaskBits(len, i) == 0;
      TopDiv(x[i], 0); TopDiv(network[i], 0);
      MaskedEqualPastLength(x, network, len, i + 1);
    }
  }

  /** IPNet.Contains, for a range whose network has no 4-byte form, is the
      prefix test on the address's 16-byte form: the first `length` bits agree. */
  lemma ContainsV6(p: Prefix, ip: IP)
    requires |p.network| == IPv6Len && p.length <= 128 && To4(p.network).None?
    requires |ip| == IPv6Len && To4(ip).None?
    ensures Contains(p, ip) <==> SamePrefix(ip, p.network, p.length)
  {
    MaskedEqualBits(ip, p.network, p.length, 0);
  }

  /** For a 4-byte range and an address with a 4-byte form, IPNet.Contains is
      the prefix test on the 4-byte forms. */
  lemma ContainsV4(p: Prefix, ip: IP)
    requires |p.network| == IPv4Len && p.length <= 32 && To4(ip).Some?
    ensures Contains(p, ip) <==> SamePrefix(To4(ip).value, p.network, p.length)
  {
    MaskedEqualBits(To4(ip).value, p.network, p.length, 0);
  }

  /** A range holds x in the reference sense: same length, first `length`
      bits equal. */
  ghost predicate HoldsByPrefix(p: Prefix, x: IP)
  {
    |x| == |p.network| && p.length <= 8 * |p.network| && SamePrefix(x, p.network, p.length)
  }

  /** Under a mask that covers byte j whole, the masked comparison forces the
      two bytes to be equal. */
  lemma {:induction false} MaskedEqualFullByte(x: seq<byte>, network: seq<byte>, len: int, i: nat, j: nat)
    requires |x| == |network| && i <= j < |network| && 8 * (j + 1) <= len
    requires MaskedEqual(x, network, len, i)
    ensures x[j] == network[j]
    decreases j - i
  {
    if i < j {
      MaskedEqualFullByte(x, network, len, i + 1, j);
    } else {
      assert MaskBits(len, j) == 8;
    }
  }

  /** Whether the result depends on the order of the table: it does not, only
      on which ranges the table lists. */
  lemma TableOrderIrrelevant(t1: seq<Prefix>, t2: seq<Prefix>, x: IP)
    requires forall p :: p in t1 <==> p in t2
    ensures InAny(t1, x) == InAny(t2, x)
  {
  }

  /** An address with a 4-byte form is local iff the first `length` bits of
      that form equal those of some range of the IPv4 table. */
  lemma IsLocalIPv4Iff(a: IP)
    requires To4(a).Some?
    ensures IsLocal(Some(a)) <==> exists p | p in NonGlobalIPv4Nets :: HoldsByPrefix(p, To4(a).value)
  {
    var x := To4(a).value;
    forall p | p in NonGlobalIPv4Nets ensures Contains(p, x) <==> HoldsByPrefix(p, x) {
      assert |p.network| == IPv4Len && p.length <= 32;
      ContainsV4(p, x);
      assert To4(x) == Some(x);
    }
  }

  /** An address without a 4-byte form is local iff its first `length` bits
      equal those of some range of the IPv6 table. (The ::ffff:0:0/96 range
      matches neither way: such an address does not start with ::ffff.) */
  lemma IsLocalIPv6Iff(a: IP)
    requires |a| == IPv6Len && To4(a).None?
    ensures IsLocal(Some(a)) <==> exists p | p in NonGlobalIPv6Nets :: HoldsByPrefix(p, a)
  {
    var t := NonGlobalIPv6Nets;
    V6NetworksAreNotMapped();
    forall i | 0 <= i < |t| ensures Contains(t[i], a) <==> HoldsByPrefix(t[i], a) {
      if i == 2 {
        MappedRangeNeverMatchesInV6Loop(a);
        if HoldsByPrefix(t[2], a) {
          MaskedEqualBits(a, t[2].network, 96, 0);
          forall j | 0 <= j < 12 ensures a[j] == V4InV6Prefix[j] {
            MaskedEqualFullByte(a, t[2].network, 96, 0, j);
          }
          assert false;
        }
      } else {
        ContainsV6(t[i], a);
      }
    }
    forall p | p in t ensures Contains(p, a) <==> HoldsByPrefix(p, a) {
      var i :| 0 <= i < |t| && t[i] == p;
    }
  }

  // ---------------------------------------------------------------------
  // Cases from the repository's tests

  /** The 4-byte form of a 16-byte IPv4 address is its last four bytes. */
  lemma To4OfIPv4(a: byte, b: byte, c: byte, d: byte)
    ensures To4(IPv4(a, b, c, d)) == Some([a, b, c, d])
  {
    assert IPv4(a, b, c, d)[..12] == V4InV6Prefix;
    assert IPv4(a, b, c, d)[12..] == [a, b, c, d];
  }

  /** The top b bits of a byte, as the division the examples compute. */
  function TopByDiv(x: byte, b: nat): nat
    requires b <= 8
  {
    x as int / Pow2(8 - b)
  }

  /** A 4-byte range holds a 4-byte address whose bytes agree with the network
      under the mask, byte by byte. */
  lemma HeldByV4(p: Prefix, x: IP)
    requires |x| == IPv4Len && |p.network| == IPv4Len && p.length <= 32
    requires forall i | 0 <= i < 4 :: TopByDiv(x[i], MaskBits(p.length, i)) == TopByDiv(p.network[i], MaskBits(p.length, i))
    ensures Contains(p, x)
  {
    forall i | 0 <= i < 4 ensures Top(x[i], MaskBits(p.length, i)) == Top(p.network[i], MaskBits(p.length, i)) {
      TopDiv(x[i], MaskBits(p.length, i)); TopDiv(p.network[i], MaskBits(p.length, i));
    }
    assert MaskedEqual(x, p.network, p.length, 3);
    assert MaskedEqual(x, p.network, p.length, 2);
    assert MaskedEqual(x, p.network, p.length, 1);
    assert MaskedEqual(x, p.network, p.length, 0);
  }

  /** The local IPv4 addresses of the repository's tests (100.66.55.66 through
      the shared address space 100.64.0.0/10). */
  lemma LocalIPv4Examples()
    ensures IsLocal(Some(IPv4(127, 0, 0, 1)))
    ensures IsLocal(Some(IPv4(10, 5, 6, 4)))
    ensures IsLocal(Some(IPv4(192, 168, 5, 99)))
    ensures IsLocal(Some(IPv4(100, 66, 55, 66)))
  {
    LoopbackIPv4Example();
    PrivateIPv4Example();
    PrivateIPv4Example2();
    SharedIPv4Example();
  }

  lemma LoopbackIPv4Example()
    ensures IsLocal(Some(IPv4(127, 0, 0, 1)))
  {
    LocalV4(127, 0, 0, 1, Prefix([127, 0, 0, 0], 8));
  }

  lemma PrivateIPv4Example()
    ensures IsLocal(Some(IPv4(10, 5, 6, 4)))
  {
    LocalV4(10, 5, 6, 4, Prefix([10, 0, 0, 0], 8));
  }

  lemma PrivateIPv4Example2()
    ensures IsLocal(Some(IPv4(192, 168, 5, 99)))
  {
    LocalV4(192, 168, 5, 99, Prefix([192, 168, 0, 0], 16));
  }

  lemma SharedIPv4Example()
    ensures IsLocal(Some(IPv4(100, 66, 55, 66)))
  {
    LocalV4(100, 66, 55, 66, Prefix([100, 64, 0, 0], 10));
  }

  /** An IPv4 address that a range of the IPv4 table holds is local. */
  lemma LocalV4(a: byte, b: byte, c: byte, d: byte, p: Prefix)
    requires p in NonGlobalIPv4Nets && |p.network| == IPv4Len && p.length <= 32
    requires TopByDiv(a, MaskBits(p.length, 0)) == TopByDiv(p.network[0], MaskBits(p.length, 0))
    requires TopByDiv(b, MaskBits(p.length, 1)) == TopByDiv(p.network[1], MaskBits(p.length, 1))
    requires TopByDiv(c, MaskBits(p.length, 2)) == TopByDiv(p.network[2], MaskBits(p.length, 2))
    requires TopByDiv(d, MaskBits(p.length, 3)) == TopByDiv(p.network[3], MaskBits(p.length, 3))
    ensures IsLocal(Some(IPv4(a, b, c, d)))
  {
    To4OfIPv4(a, b, c, d);
    var x: IP := [a, b, c, d];
    assert forall j | 0 <= j < 4 :: TopByDiv(x[j], MaskBits(p.length, j)) == TopByDiv(p.network[j], MaskBits(p.length, j));
    HeldByV4(p, x);
  }

  /** A range of the address's own length whose first byte, under the mask,
      differs from the address's first byte does not hold it. */
  lemma FirstByteExcludes(p: Prefix, x: IP)
    requires || (|x| == IPv4Len && |p.network| == IPv4Len)
             || (|x| == IPv6Len && |p.network| == IPv6Len && To4(x).None? && To4(p.network).None?)
    requires Top(x[0], MaskBits(p.length, 0)) != Top(p.network[0], MaskBits(p.length, 0))
    ensures !Contains(p, x)
  {
  }

  /** A 16-byte slice whose byte 10 is not 0xff has no 4-byte form. */
  lemma NotMapped(ip: IP)
    requires |ip| == IPv6Len && ip[10] != 0xff
    ensures To4(ip).None?
  {
    assert ip[..12][10] == ip[10];
  }

  /** A range of at least 8 bits, of the address's own length, whose network
      starts with a byte other than the address's does not hold it; for 16
      bytes, neither may have a 4-byte form. */
  lemma FirstByteDiffers(p: Prefix, x: IP)
    requires || (|x| == IPv4Len && |p.network| == IPv4Len)
             || (|x| == IPv6Len && |p.network| == IPv6Len && To4(x).None? && p.network[10] != 0xff)
    requires p.length >= 8 && x[0] != p.network[0]
    ensures !Contains(p, x)
  {
    if |x| == IPv6Len {
      NotMapped(p.network);
    }
    assert MaskBits(p.length, 0) == 8;
    FirstByteExcludes(p, x);
  }

  /** A 16-byte range of at most 8 bits, with no 4-byte form, holds a 16-byte
      address without one whose first byte agrees under the mask. */
  lemma HeldByFirstByte6(p: Prefix, x: IP)
    requires |x| == IPv6Len && |p.network| == IPv6Len && To4(x).None? && p.network[10] != 0xff
    requires p.length <= 8 && TopByDiv(x[0], p.length) == TopByDiv(p.network[0], p.length)
    ensures Contains(p, x)
  {
    TopDiv(x[0], p.length); TopDiv(p.network[0], p.length);
    NotMapped(p.network);
    MaskedEqualPastLength(x, p.network, p.length, 1);
  }

  /** 240.0.0.0/4 holds no 4-byte address below 240.0.0.0. */
  lemma ReservedExcludes(x: IP)
    requires |x| == IPv4Len && x[0] < 240
    ensures !Contains(Prefix([240, 0, 0, 0], 4), x)
  {
    TopDiv(x[0], 4);
    assert Top(x[0], 4) < 15;
    TopDiv(240, 4);
    FirstByteExcludes(Prefix([240, 0, 0, 0], 4), x);
  }

  /** fc00::/7 holds no 16-byte address without a 4-byte form that starts
      with a byte other than 0xfc and 0xfd. */
  lemma UniqueLocalExcludes(x: IP)
    requires |x| == IPv6Len && To4(x).None? && x[0] != 0xfc && x[0] != 0xfd
    ensures !Contains(UniqueLocal6, x)
  {
    TopDiv(x[0], 7);
    assert Top(x[0], 7) != 126;
    TopDiv(0xfc, 7);
    NotMapped(UniqueLocal6.network);
    FirstByteExcludes(UniqueLocal6, x);
  }

  /** The shape of the IPv4 table: 4-byte networks; every range but
      240.0.0.0/4 is at least 8 bits long and starts with one of ten bytes. */
  lemma V4TableShape()
    ensures forall i | 0 <= i < |NonGlobalIPv4Nets| ::
      && |NonGlobalIPv4Nets[i].network| == IPv4Len && NonGlobalIPv4Nets[i].length <= 32
      && (i != 12 ==> NonGlobalIPv4Nets[i].length >= 8
                      && NonGlobalIPv4Nets[i].network[0] in {0, 10, 100, 127, 169, 172, 192, 198, 203, 255})
    ensures NonGlobalIPv4Nets[12] == Prefix([240, 0, 0, 0], 4)
  {
  }

  /** The shape of the IPv6 table: 16-byte networks; all but ::ffff:0:0/96 with
      byte 10 zero; all but that one and fc00::/7 at least 8 bits long and
      starting with one of four bytes. */
  lemma V6TableShape()
    ensures forall i | 0 <= i < |NonGlobalIPv6Nets| ::
      && |NonGlobalIPv6Nets[i].network| == IPv6Len && NonGlobalIPv6Nets[i].length <= 128
      && (i != 2 ==> NonGlobalIPv6Nets[i].network[10] == 0)
      && (i != 1 && i != 2 ==> NonGlobalIPv6Nets[i].length >= 8
                               && NonGlobalIPv6Nets[i].network[0] in {0, 1, 0x20, 0xfe})
    ensures NonGlobalIPv6Nets[1] == UniqueLocal6 && NonGlobalIPv6Nets[2] == Mapped4
  {
  }

  /** The ranges of the IPv6 table whose network has no 4-byte form. */
  lemma V6NetworksAreNotMapped()
    ensures forall i | 0 <= i < |NonGlobalIPv6Nets| && i != 2 :: To4(NonGlobalIPv6Nets[i].network).None?
    ensures To4(NonGlobalIPv6Nets[2].network) == Some([0, 0, 0, 0])
  {
    var t := NonGlobalIPv6Nets;
    forall i | 0 <= i < |t| && i != 2 ensures To4(t[i].network).None? {
      assert t[i].network[..12][10] == t[i].network[10];
      if i == 0 || i == 4 { assert t[i].network[10] != 0xff; }
      else { assert t[i].network[0] != 0; assert t[i].network[..12][0] == t[i].network[0]; }
    }
    assert t[2].network[..12] == V4InV6Prefix;
    assert t[2].network[12..] == [0, 0, 0, 0];
  }

  /** The ::ffff:0:0/96 range is compared as the 4-byte 0.0.0.0/0, so it never
      holds an address that has no 4-byte form: the IPv6 loop, which sees only
      such addresses, never matches it. */
  lemma MappedRangeNeverMatchesInV6Loop(x: IP)
    requires To4(x).None?
    ensures !Contains(NonGlobalIPv6Nets[2], x)
  {
    V6NetworksAreNotMapped();
    assert |NetworkNumber(NonGlobalIPv6Nets[2]).network| == IPv4Len;
  }

  /** The public IPv4 addresses of the repository's tests. */
  lemma GlobalIPv4Examples()
    ensures !IsLocal(Some(IPv4(8, 8, 8, 8)))
    ensures !IsLocal(Some(IPv4(74, 125, 130, 100)))
    ensures !IsLocal(Some(IPv4(1, 1, 1, 1)))
    ensures !IsLocal(Some(IPv4(45, 45, 45, 45)))
    ensures !IsLocal(Some(IPv4(120, 222, 111, 222)))
  {
    To4OfIPv4(8, 8, 8, 8); GlobalV4([8, 8, 8, 8]);
    To4OfIPv4(74, 125, 130, 100); GlobalV4([74, 125, 130, 100]);
    To4OfIPv4(1, 1, 1, 1); GlobalV4([1, 1, 1, 1]);
    To4OfIPv4(45, 45, 45, 45); GlobalV4([45, 45, 45, 45]);
    To4OfIPv4(120, 222, 111, 222); GlobalV4([120, 222, 111, 222]);
  }

  /** A 4-byte address whose first byte no IPv4 range covers is global. */
  lemma GlobalV4(x: IP)
    requires |x| == IPv4Len
    requires x[0] !in {0, 10, 100, 127, 169, 172, 192, 198, 203, 255} && x[0] < 240
    ensures !InAny(NonGlobalIPv4Nets, x)
  {
    var t := NonGlobalIPv4Nets;
    V4TableShape();
    forall p | p in t ensures !Contains(p, x) {
      var i :| 0 <= i < |t| && t[i] == p;
      if i == 12 {
        ReservedExcludes(x);
      } else {
        FirstByteDiffers(p, x);
      }
    }
  }

  /** ::1, an IPv6 address of the repository's tests, is local (loopback). */
  lemma LoopbackIPv6Example()
    ensures IsLocal(Some([0, 0, 0, 0, 0, 0, 0, 0, 0, 0, 0, 0, 0, 0, 0, 1]))
  {
    var lo: IP := [0, 0, 0, 0, 0, 0, 0, 0, 0, 0, 0, 0, 0, 0, 0, 1];
    assert lo[..12][10] == lo[10];
    V6NetworksAreNotMapped();
    assert Contains(NonGlobalIPv6Nets[0], lo);
  }

  /** fd07:a47c:3742:823e:3b02:76:982b:463, an IPv6 address of the repository's
      tests, is local (unique local, fc00::/7). */
  lemma UniqueLocalIPv6Example()
    ensures IsLocal(Some([0xfd, 0x07, 0xa4, 0x7c, 0x37, 0x42, 0x82, 0x3e, 0x3b, 0x02, 0x00, 0x76, 0x98, 0x2b, 0x04, 0x63]))
  {
    var ula: IP := [0xfd, 0x07, 0xa4, 0x7c, 0x37, 0x42, 0x82, 0x3e, 0x3b, 0x02, 0x00, 0x76, 0x98, 0x2b, 0x04, 0x63];
    NotMapped(ula);
    HeldByFirstByte6(NonGlobalIPv6Nets[1], ula);
  }

  /** A 16-byte address with no 4-byte form whose first byte no IPv6 range
      covers is global. */
  lemma GlobalV6(x: IP)
    requires |x| == IPv6Len && To4(x).None?
    requires x[0] !in {0, 1, 0x20, 0xfc, 0xfd, 0xfe}
    ensures !InAny(NonGlobalIPv6Nets, x)
  {
    var t := NonGlobalIPv6Nets;
    forall p | p in t ensures !Contains(p, x) {
      var i :| 0 <= i < |t| && t[i] == p;
      GlobalV6At(x, i);
    }
  }

  /** GlobalV6, for range i of the IPv6 table. */
  lemma GlobalV6At(x: IP, i: nat)
    requires |x| == IPv6Len && To4(x).None?
    requires x[0] !in {0, 1, 0x20, 0xfc, 0xfd, 0xfe}
    requires i < |NonGlobalIPv6Nets|
    ensures !Contains(NonGlobalIPv6Nets[i], x)
  {
    V6TableShape();
    if i == 1 {
      UniqueLocalExcludes(x);
    } else if i == 2 {
      MappedRangeNeverMatchesInV6Loop(x);
    } else {
      FirstByteDiffers(NonGlobalIPv6Nets[i], x);
    }
  }

  /** The public IPv6 address of the repository's tests, 2404:6800:4003:c01::64. */
  lemma GlobalIPv6Example()
    ensures !IsLocal(Some([0x24, 0x04, 0x68, 0x00, 0x40, 0x03, 0x0c, 0x01, 0, 0, 0, 0, 0, 0, 0, 0x64]))
  {
    var pub: IP := [0x24, 0x04, 0x68, 0x00, 0x40, 0x03, 0x0c, 0x01, 0, 0, 0, 0, 0, 0, 0, 0x64];
    NotMapped(pub);
    GlobalV6(pub);
  }
}
