/** The Internet checksum (RFC 1071) and the pseudo-header sums built on it. */
module Checksum {
  import opened Basics

  // ── Word sums ───────────────────────────────────────────────────────

  /** Sum of the little-endian 16-bit words of `s`; an odd last byte is a low byte. */
  function SumLe(s: seq<u8>): nat {
    if |s| == 0 then 0
    else if |s| == 1 then s[0]
    else Le16(s[0], s[1]) + SumLe(s[2..])
  }

  /** The sum as section 2 of RFC 1071 defines it: big-endian words, an odd
      last byte padded with a zero byte on its right. */
  function SumBe(s: seq<u8>): nat {
    if |s| == 0 then 0
    else if |s| == 1 then Be16(s[0], 0)
    else Be16(s[0], s[1]) + SumBe(s[2..])
  }

  /** The 16-bit one's-complement value of an accumulator: 0 for 0, otherwise
      the representative of `x` modulo 65535 in 1..65535. */
  function Fold16(x: nat): u16 {
    if x == 0 then 0 else 1 + (x - 1) % 0xFFFF
  }

  function Complement(v: u16): u16 {
    0xFFFF - v
  }

  function Checksum(s: seq<u8>): u16 {
    Complement(Fold16(SumLe(s)))
  }

  lemma {:induction false} SumLeAppend(a: seq<u8>, b: seq<u8>)
    requires |a| % 2 == 0
    ensures SumLe(a + b) == SumLe(a) + SumLe(b)
  {
    if a == [] {
      assert a + b == b;
    } else {
      SumLeAppend(a[2..], b);
      assert (a + b)[2..] == a[2..] + b;
    }
  }

  lemma {:induction false} SumLeBound(s: seq<u8>)
    ensures SumLe(s) <= 0xFFFF * ((|s| + 1) / 2)
  {
    if |s| >= 2 { SumLeBound(s[2..]); }
  }

  function Ones(n: nat): seq<u8> {
    seq(n, _ => 0xFF)
  }

  lemma {:induction false} SumLeOnes(n: nat)
    ensures SumLe(Ones(n)) == 0xFFFF * (n / 2) + 0xFF * (n % 2)
  {
    if n >= 2 {
      SumLeOnes(n - 2);
      assert Ones(n)[2..] == Ones(n - 2);
    }
  }

  /** The longest buffer whose 32-bit accumulator can never overflow. */
  const MAX_SUMMED: nat := 131074

  /** The bound is exact: some buffer of every greater length overflows. */
  lemma AccumulatorBoundExact(n: nat)
    ensures (forall s: seq<u8> :: |s| == n ==> SumLe(s) < 0x1_0000_0000) <==> n <= MAX_SUMMED
  {
    if n <= MAX_SUMMED {
      forall s: seq<u8> | |s| == n ensures SumLe(s) < 0x1_0000_0000 {
        SumLeBound(s);
      }
    } else {
      SumLeOnes(n);
      assert |Ones(n)| == n;
      assert SumLe(Ones(n)) >= 0x1_0000_0000;
    }
  }

  method SumWords(data: seq<u8>) returns (sum: u32)
    requires |data| <= MAX_SUMMED
    ensures sum == SumLe(data)
  {
    SumLeBound(data);
    sum := 0;
    var i := 0;
    while i + 1 < |data|
      invariant 0 <= i <= |data|
      invariant sum + SumLe(data[i..]) == SumLe(data)
    {
      assert data[i..][2..] == data[i + 2..];
      sum := sum + Le16(data[i], data[i + 1]);
      i := i + 2;
    }
    if i < |data| {
      sum := sum + data[i];
    }
  }

  // ── Folding ─────────────────────────────────────────────────────────

  lemma FoldCongruent(a: nat, b: nat, k: nat)
    requires a == b + 0xFFFF * k
    requires a == 0 <==> b == 0
    ensures Fold16(a) == Fold16(b)
  {
  }

  lemma FoldStep(x: nat)
    ensures Fold16(x % 0x1_0000 + x / 0x1_0000) == Fold16(x)
  {
    FoldCongruent(x, x % 0x1_0000 + x / 0x1_0000, x / 0x1_0000);
  }

  /** The end-around-carry loop; it terminates because each round loses
      65535 for every carried unit. */
  method Fold(x: u32) returns (r: u16)
    ensures r == Fold16(x)
  {
    var sum := x;
    while sum / 0x1_0000 != 0
      invariant Fold16(sum) == Fold16(x)
      decreases sum
    {
      FoldStep(sum);
      sum := sum % 0x1_0000 + sum / 0x1_0000;
    }
    r := sum;
  }

  /** A sum may be folded early: this is what lets a partial sum travel in a
      16-bit field and be finished later. */
  lemma FoldAbsorbs(a: nat, b: nat)
    ensures Fold16(a + Fold16(b)) == Fold16(a + b)
  {
    if b > 0 {
      FoldCongruent(a + b, a + Fold16(b), (b - 1) / 0xFFFF);
    }
  }

  /** Adding the complement of a sum to it gives "minus zero". */
  lemma FoldComplement(x: nat)
    ensures Fold16(x + Complement(Fold16(x))) == 0xFFFF
  {
    var k := if x == 0 then 0 else (x - 1) / 0xFFFF;
    FoldCongruent(x + Complement(Fold16(x)), 0xFFFF, k);
  }

  method InternetChecksum(data: seq<u8>) returns (r: u16)
    requires |data| <= MAX_SUMMED
    ensures r == Checksum(data)
  {
    var sum := SumWords(data);
    var f := Fold(sum);
    r := 0xFFFF - f;
  }

  // ── Byte-order independence ─────────────────────────────────────────

  lemma {:induction false} SumBeTimes256(s: seq<u8>) returns (k: nat)
    ensures 0x100 * SumLe(s) == SumBe(s) + 0xFFFF * k
    ensures SumLe(s) == 0 <==> SumBe(s) == 0
  {
    if |s| <= 1 {
      k := 0;
    } else {
      var k' := SumBeTimes256(s[2..]);
      k := k' + s[1];
    }
  }

  function Swap16(v: u16): u16 {
    v % 0x100 * 0x100 + v / 0x100
  }

  /** Multiplying a one's-complement value by 256 swaps its bytes. */
  lemma FoldSwaps(x: nat)
    ensures Fold16(0x100 * x) == Swap16(Fold16(x))
  {
    if x > 0 {
      var f := Fold16(x);
      SwapIsTimes256(f);
      FoldCongruent(0x100 * x, Swap16(f), 0x100 * ((x - 1) / 0xFFFF) + f / 0x100);
      assert Fold16(Swap16(f)) == Swap16(f);
    }
  }

  lemma SwapIsTimes256(f: int)
    requires 0 <= f < 0x1_0000
    ensures 0x100 * f == Swap16(f) + 0xFFFF * (f / 0x100)
    ensures Swap16(f) == 0 <==> f == 0
  {
  }

  lemma WordBytes(hi: int, lo: int)
    requires 0 <= hi < 0x100 && 0 <= lo < 0x100
    ensures LeBytes16(0x100 * hi + lo) == [lo, hi] && BeBytes16(0x100 * hi + lo) == [hi, lo]
  {
  }

  lemma SwapStored(hi: int, lo: int)
    requires 0 <= hi < 0x100 && 0 <= lo < 0x100
    ensures LeBytes16(Complement(0x100 * hi + lo)) == BeBytes16(Complement(0x100 * lo + hi))
  {
    WordBytes(0xFF - hi, 0xFF - lo);
    WordBytes(0xFF - lo, 0xFF - hi);
  }

  /** The little-endian sum stored in memory order is, byte for byte, the
      big-endian checksum of RFC 1071 stored in network order. */
  lemma ByteOrderIndependent(s: seq<u8>)
    ensures LeBytes16(Checksum(s)) == BeBytes16(Complement(Fold16(SumBe(s))))
  {
    var k := SumBeTimes256(s);
    FoldCongruent(0x100 * SumLe(s), SumBe(s), k);
    FoldSwaps(SumLe(s));
    SwapStored(Fold16(SumLe(s)) / 0x100, Fold16(SumLe(s)) % 0x100);
  }

  // ── Pseudo headers ──────────────────────────────────────────────────

  /** The pseudo header the L4 checksum covers: the IPv4 form of RFC 768 and
      the IPv6 form of section 8.1 of RFC 8200. Mixed families have none. */
  function PseudoHeader(src: IpAddr, dst: IpAddr, proto: u8, len: nat): (p: seq<u8>)
    ensures |p| % 2 == 0 && |p| <= 40
  {
    match (src, dst)
    case (V4(s), V4(d)) => Octets4(s) + Octets4(d) + [0, proto] + BeBytes16(len % 0x1_0000)
    case (V6(s), V6(d)) => s + d + BeBytes32(len % 0x1_0000_0000) + [0, 0, 0, proto]
    case _ => []
  }

  function PseudoPartial(src: IpAddr, dst: IpAddr, proto: u8, len: nat): u16 {
    Fold16(SumLe(PseudoHeader(src, dst, proto, len)))
  }

  /** The finished L4 checksum: pseudo header, then the segment. */
  function L4Checksum(src: IpAddr, dst: IpAddr, proto: u8, data: seq<u8>): u16 {
    Checksum(PseudoHeader(src, dst, proto, |data|) + data)
  }

  lemma SumLePair(a: u8, b: u8)
    ensures SumLe([a, b]) == Le16(a, b)
  {
    assert [a, b][2..] == [];
  }

  lemma SumLeFour(b: seq<u8>)
    requires |b| == 4
    ensures SumLe(b) == Le16(b[0], b[1]) + Le16(b[2], b[3])
  {
    assert b[2..] == [b[2], b[3]];
    SumLePair(b[2], b[3]);
  }

  lemma SumLeConcat4(a: seq<u8>, b: seq<u8>, c: seq<u8>, d: seq<u8>)
    requires |a| % 2 == 0 && |b| % 2 == 0 && |c| % 2 == 0
    ensures SumLe(a + b + c + d) == SumLe(a) + SumLe(b) + SumLe(c) + SumLe(d)
  {
    SumLeAppend(a + b + c, d);
    SumLeAppend(a + b, c);
    SumLeAppend(a, b);
  }

  lemma SumLeOctets4(a: u32)
    ensures SumLe(Octets4(a)) == a % 0x1_0000 + a / 0x1_0000
  {
    var o := Octets4(a);
    SumLeFour(o);
    ModUnique(a, 0x1_0000, Le16(o[2], o[3]), Le16(o[0], o[1]));
  }

  lemma SumLeBe16(v: u16)
    ensures SumLe(BeBytes16(v)) == Swap16(v)
  {
    SumLePair(v / 0x100, v % 0x100);
  }

  lemma PseudoSumV4(s: Ipv4, d: Ipv4, proto: u8, len: nat)
    ensures SumLe(PseudoHeader(V4(s), V4(d), proto, len))
         == SumLe(Octets4(s)) + SumLe(Octets4(d)) + SumLe([0, proto]) + SumLe(BeBytes16(len % 0x1_0000))
  {
    SumLeConcat4(Octets4(s), Octets4(d), [0, proto], BeBytes16(len % 0x1_0000));
  }

  lemma PseudoSumV6(s: Ipv6, d: Ipv6, proto: u8, len: nat)
    ensures SumLe(PseudoHeader(V6(s), V6(d), proto, len))
         == SumLe(s) + SumLe(d) + SumLe(BeBytes32(len % 0x1_0000_0000)) + SumLe([0, 0, 0, proto])
  {
    var b := BeBytes32(len % 0x1_0000_0000);
    assert PseudoHeader(V6(s), V6(d), proto, len) == s + d + b + [0, 0, 0, proto];
    SumLeConcat4(s, d, b, [0, 0, 0, proto]);
  }

  lemma PseudoValueV4(s: Ipv4, d: Ipv4, proto: u8, len: nat)
    ensures SumLe(PseudoHeader(V4(s), V4(d), proto, len))
         == s % 0x1_0000 + s / 0x1_0000 + d % 0x1_0000 + d / 0x1_0000
            + 0x100 * proto + Swap16(len % 0x1_0000)
  {
    PseudoSumV4(s, d, proto, len);
    SumLeOctets4(s);
    SumLeOctets4(d);
    SumLePair(0, proto);
    SumLeBe16(len % 0x1_0000);
  }

  lemma PseudoValueV6(s: Ipv6, d: Ipv6, proto: u8, len: nat)
    ensures var b := BeBytes32(len % 0x1_0000_0000);
            SumLe(PseudoHeader(V6(s), V6(d), proto, len))
            == SumLe(s) + SumLe(d) + Le16(b[0], b[1]) + Le16(b[2], b[3]) + 0x100 * proto
  {
    var b := BeBytes32(len % 0x1_0000_0000);
    PseudoSumV6(s, d, proto, len);
    SumLeFour(b);
    SumLeFour([0, 0, 0, proto]);
  }

  /** The two-byte chunks of both addresses, summed. */
  method SumAddresses(s: Ipv6, d: Ipv6) returns (sum: u32)
    ensures sum == SumLe(s) + SumLe(d) && sum <= 16 * 0xFFFF
  {
    var octets := s + d;
    SumLeAppend(s, d);
    SumLeBound(octets);
    sum := 0;
    var i := 0;
    while i < 32
      invariant 0 <= i <= 32 && i % 2 == 0
      invariant sum + SumLe(octets[i..]) == SumLe(octets)
    {
      assert octets[i..][2..] == octets[i + 2..];
      sum := sum + Le16(octets[i], octets[i + 1]);
      i := i + 2;
    }
  }

  method SumPseudoV4(s: Ipv4, d: Ipv4, proto: u8, len: nat) returns (sum: u32)
    ensures sum == SumLe(PseudoHeader(V4(s), V4(d), proto, len))
  {
    PseudoValueV4(s, d, proto, len);
    sum := s % 0x1_0000;
    sum := sum + s / 0x1_0000;
    sum := sum + d % 0x1_0000;
    sum := sum + d / 0x1_0000;
    sum := sum + 0x100 * proto;
    sum := sum + Swap16(len % 0x1_0000);
  }

  method SumPseudoV6(s: Ipv6, d: Ipv6, proto: u8, len: nat) returns (sum: u32)
    ensures sum == SumLe(PseudoHeader(V6(s), V6(d), proto, len)) && sum <= 19 * 0xFFFF
  {
    PseudoValueV6(s, d, proto, len);
    sum := SumAddresses(s, d);
    var be := BeBytes32(len % 0x1_0000_0000);
    var hi, lo := Le16(be[0], be[1]), Le16(be[2], be[3]);
    sum := sum + hi;
    sum := sum + lo;
    sum := sum + 0x100 * proto;
  }

  method L4PseudoPartial(src: IpAddr, dst: IpAddr, proto: u8, len: nat) returns (r: u16)
    ensures r == PseudoPartial(src, dst, proto, len)
  {
    var sum: u32 := 0;
    match (src, dst) {
      case (V4(s), V4(d)) => sum := SumPseudoV4(s, d, proto, len);
      case (V6(s), V6(d)) => sum := SumPseudoV6(s, d, proto, len);
      case _ =>
    }
    r := Fold(sum);
  }

  /** The longest segment whose checksum never overflows the 32-bit accumulator. */
  const MAX_SEGMENT: nat := 131039

  /** What `L4ChecksumV6` accumulates. */
  function SegmentSum(src: Ipv6, dst: Ipv6, proto: u8, data: seq<u8>): nat {
    SumLe(PseudoHeader(V6(src), V6(dst), proto, |data|)) + SumLe(data)
  }

  /** The two length words of the pseudo header. */
  function LengthWords(n: u32): nat {
    var b := BeBytes32(n);
    Le16(b[0], b[1]) + Le16(b[2], b[3])
  }

  lemma LengthDigits(n: u32) returns (c: nat, lo: nat, r: nat)
    requires n < 0x100_0000
    ensures lo < 0x100 && r < 0x100 && n == 0x1_0000 * c + 0x100 * lo + r
    ensures LengthWords(n) == 0x100 * c + lo + 0x100 * r
  {
    var q := n / 0x100;
    c, lo, r := q / 0x100, q % 0x100, n % 0x100;
    assert BeBytes32(n) == [0, c, lo, r];
  }

  /** How large the length words are around the bound. */
  predicate LengthRange(n: nat, words: nat) {
    && (n <= MAX_SEGMENT ==> words <= 65790)
    && (n == MAX_SEGMENT ==> words == 57599)
    && (MAX_SEGMENT < n < 131042 ==> words >= 57855)
  }

  lemma DigitRange(c: int, lo: int, r: int)
    requires 0 <= c && 0 <= lo < 0x100 && 0 <= r < 0x100
    ensures LengthRange(0x1_0000 * c + 0x100 * lo + r, 0x100 * c + lo + 0x100 * r)
  {
  }

  lemma LengthWordsRange(n: u32)
    requires n < 0x100_0000
    ensures LengthRange(n, LengthWords(n))
  {
    var c, lo, r := LengthDigits(n);
    DigitRange(c, lo, r);
  }

  lemma {:induction false} SumLeTight(s: seq<u8>)
    ensures SumLe(s) <= 0xFFFF * (|s| / 2) + 0xFF * (|s| % 2)
  {
    if |s| >= 2 { SumLeTight(s[2..]); }
  }

  lemma SegmentSumIs(src: Ipv6, dst: Ipv6, proto: u8, data: seq<u8>) returns (words: nat)
    ensures SegmentSum(src, dst, proto, data) == SumLe(src) + SumLe(dst) + words + 0x100 * proto as int + SumLe(data)
    ensures LengthRange(|data|, words)
  {
    var n := |data| % 0x1_0000_0000;
    words := LengthWords(n);
    PseudoValueV6(src, dst, proto, |data|);
    if |data| < 0x100_0000 { LengthWordsRange(n); }
  }

  lemma SegmentSumFits(src: Ipv6, dst: Ipv6, proto: u8, data: seq<u8>)
    requires |data| <= MAX_SEGMENT
    ensures SegmentSum(src, dst, proto, data) < 0x1_0000_0000
  {
    var words := SegmentSumIs(src, dst, proto, data);
    SumLeBound(src);
    SumLeBound(dst);
    SumLeTight(data);
    FitsArithmetic(|data|, words);
  }

  lemma FitsArithmetic(n: nat, words: nat)
    requires n <= MAX_SEGMENT && LengthRange(n, words)
    ensures 16 * 0xFFFF + words + 0xFF00 + 0xFFFF * (n / 2) + 0xFF * (n % 2) < 0x1_0000_0000
  {
    assert n / 2 <= 65519;
  }

  lemma SegmentSumOverflows(proto: u8, n: nat)
    requires n > MAX_SEGMENT && proto >= 31
    ensures |Ones(16)| == 16 && |Ones(n)| == n && SegmentSum(Ones(16), Ones(16), proto, Ones(n)) >= 0x1_0000_0000
  {
    var words := SegmentSumIs(Ones(16), Ones(16), proto, Ones(n));
    SumLeOnes(16);
    SumLeOnes(n);
    OverflowArithmetic(n, words);
  }

  lemma OverflowArithmetic(n: nat, words: nat)
    requires n > MAX_SEGMENT && LengthRange(n, words)
    ensures 16 * 0xFFFF + words + 0x100 * 31 + 0xFFFF * (n / 2) + 0xFF * (n % 2) >= 0x1_0000_0000
  {
    if n < 131042 {
      assert n / 2 == 65520;
    } else {
      assert n / 2 >= 65521;
    }
  }

  /** The segment bound is exact, for ICMPv6 as for every protocol number from 31
      on: some addresses and data of every greater length overflow. */
  lemma SegmentBoundExact(proto: u8, n: nat)
    requires proto >= 31
    ensures (forall src: Ipv6, dst: Ipv6, data: seq<u8> :: |data| == n ==> SegmentSum(src, dst, proto, data) < 0x1_0000_0000)
       <==> n <= MAX_SEGMENT
  {
    if n <= MAX_SEGMENT {
      forall src: Ipv6, dst: Ipv6, data: seq<u8> | |data| == n ensures SegmentSum(src, dst, proto, data) < 0x1_0000_0000 {
        SegmentSumFits(src, dst, proto, data);
      }
    } else {
      SegmentSumOverflows(proto, n);
    }
  }

  method L4ChecksumV6(src: Ipv6, dst: Ipv6, proto: u8, data: seq<u8>) returns (r: u16)
    requires |data| <= MAX_SEGMENT
    ensures r == L4Checksum(V6(src), V6(dst), proto, data)
  {
    var sum := SumPseudoV6(src, dst, proto, |data|);
    SumLeAppend(PseudoHeader(V6(src), V6(dst), proto, |data|), data);
    SegmentSumFits(src, dst, proto, data);
    var words := SumWords(data);
    var f := Fold(sum + words);
    r := 0xFFFF - f;
  }

  // ── Offload equivalence ─────────────────────────────────────────────

  /** A 16-bit field at an even offset contributes its own value to the sum. */
  lemma FieldContributes(s: seq<u8>, off: nat, v: u16)
    requires off % 2 == 0 && off + 2 <= |s|
    ensures SumLe(Splice(s, off, LeBytes16(v))) == SumLe(Splice(s, off, [0, 0])) + v
  {
    var a, b := s[..off], s[off + 2..];
    forall f: seq<u8> | |f| == 2 ensures SumLe(Splice(s, off, f)) == SumLe(a) + SumLe(f) + SumLe(b) {
      SumLeAppend(a + f, b);
      SumLeAppend(a, f);
    }
    SumLePair(v % 0x100, v / 0x100);
    SumLePair(0, 0);
  }

  /** Stamping the pseudo-header partial sum in the checksum field and running
      the plain checksum over the segment gives the full L4 checksum. */
  lemma OffloadEquivalent(src: IpAddr, dst: IpAddr, proto: u8, seg: seq<u8>, off: nat)
    requires off % 2 == 0 && off + 2 <= |seg|
    ensures Checksum(Splice(seg, off, LeBytes16(PseudoPartial(src, dst, proto, |seg|))))
         == L4Checksum(src, dst, proto, Splice(seg, off, [0, 0]))
  {
    var ph := PseudoHeader(src, dst, proto, |seg|);
    var zeroed := Splice(seg, off, [0, 0]);
    FieldContributes(seg, off, Fold16(SumLe(ph)));
    FoldAbsorbs(SumLe(zeroed), SumLe(ph));
    SumLeAppend(ph, zeroed);
  }

  /** A segment whose checksum field holds the L4 checksum of the segment with
      the field zeroed. */
  function Sealed(src: IpAddr, dst: IpAddr, proto: u8, seg: seq<u8>, off: nat): (r: seq<u8>)
    requires off + 2 <= |seg|
  {
    Splice(seg, off, LeBytes16(L4Checksum(src, dst, proto, Splice(seg, off, [0, 0]))))
  }

  /** Sealed segments verify. */
  lemma SealedVerifies(src: IpAddr, dst: IpAddr, proto: u8, seg: seq<u8>, off: nat)
    requires off % 2 == 0 && off + 2 <= |seg|
    ensures L4Checksum(src, dst, proto, Sealed(src, dst, proto, seg, off)) == 0
  {
    SealedBehind(PseudoHeader(src, dst, proto, |seg|), seg, off);
  }

  lemma SealedBehind(front: seq<u8>, seg: seq<u8>, off: nat)
    requires |front| % 2 == 0 && off % 2 == 0 && off + 2 <= |seg|
    ensures Checksum(front + Splice(seg, off, LeBytes16(Checksum(front + Splice(seg, off, [0, 0]))))) == 0
  {
    var sum := Checksum(front + Splice(seg, off, [0, 0]));
    SumLeAppend(front, Splice(seg, off, [0, 0]));
    SumLeAppend(front, Splice(seg, off, LeBytes16(sum)));
    SealArithmetic(seg, off, SumLe(front));
  }

  /** Whatever else is summed (`base`), a field holding the complement of the
      rest brings the total to "minus zero". */
  lemma SealArithmetic(s: seq<u8>, off: nat, base: nat)
    requires off % 2 == 0 && off + 2 <= |s|
    ensures var c := Complement(Fold16(base + SumLe(Splice(s, off, [0, 0]))));
            Fold16(base + SumLe(Splice(s, off, LeBytes16(c)))) == 0xFFFF
  {
    var x := base + SumLe(Splice(s, off, [0, 0]));
    FieldContributes(s, off, Complement(Fold16(x)));
    FoldComplement(x);
  }

  /** The same without a pseudo header, as for the IPv4 header. */
  lemma PlainSealVerifies(s: seq<u8>, off: nat)
    requires off % 2 == 0 && off + 2 <= |s|
    ensures Checksum(Splice(s, off, LeBytes16(Checksum(Splice(s, off, [0, 0]))))) == 0
  {
    SealArithmetic(s, off, 0);
  }

  /** Finishing a stamped segment (what a NIC or a driver does with the
      partial sum) yields a segment that verifies. */
  lemma FinishedVerifies(src: IpAddr, dst: IpAddr, proto: u8, seg: seq<u8>, off: nat)
    requires off % 2 == 0 && off + 2 <= |seg|
    ensures var stamped := Splice(seg, off, LeBytes16(PseudoPartial(src, dst, proto, |seg|)));
            L4Checksum(src, dst, proto, Splice(stamped, off, LeBytes16(Checksum(stamped)))) == 0
  {
    var stamped := Splice(seg, off, LeBytes16(PseudoPartial(src, dst, proto, |seg|)));
    OffloadEquivalent(src, dst, proto, seg, off);
    SealedVerifies(src, dst, proto, seg, off);
    assert Splice(stamped, off, LeBytes16(Checksum(stamped))) == Sealed(src, dst, proto, seg, off);
  }
}
