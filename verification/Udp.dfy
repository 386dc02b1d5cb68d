/** UDP transmission: one header writer, two buffer layouts. The headroom path
    ships the tail of the buffer; the slot path first moves an IPv4 payload back
    over itself so that the frame starts at the front. */
module Udp {
  import opened Basics
  import opened Ip
  import Checksum

  const UDP_LEN := 8
  const PROTO_UDP: u8 := 17
  const HOP_LIMIT: u8 := 64
  const MAX_L2_HEADROOM := 62
  const MAX_DATAGRAM := 1472
  const CHECKSUM_OFFSET := 6

  /** The sender: its IPv4 configuration and its MAC. */
  datatype Host = Host(cfg: NetConfig, mac: Mac)

  // ── Wire format ─────────────────────────────────────────────────────

  /** IPv6 datagrams leave with the unspecified source address. */
  function SourceFor(host: Host, dst: IpAddr): IpAddr {
    if dst.V4? then V4(host.cfg.ip) else V6(ANY_V6)
  }

  function IpLen(dst: IpAddr): nat {
    if dst.V4? then IPV4_LEN else IPV6_LEN
  }

  function HeaderLen(dst: IpAddr): nat {
    ETH_LEN + IpLen(dst) + UDP_LEN
  }

  function UdpHeader(srcPort: u16, dstPort: u16, udpLen: nat, checksum: u16): (h: seq<u8>)
    ensures |h| == UDP_LEN
  {
    BeBytes16(srcPort) + BeBytes16(dstPort) + BeBytes16(udpLen % 0x1_0000) + LeBytes16(checksum)
  }

  function IpHeader(host: Host, dst: IpAddr, udpLen: nat, id: u16): (h: seq<u8>)
    ensures |h| == IpLen(dst)
  {
    match dst
    case V4(d) => Ipv4Header(host.cfg.ip, d, PROTO_UDP, (IPV4_LEN + udpLen) % 0x1_0000, id)
    case V6(d) => Ipv6Header(ANY_V6, d, PROTO_UDP, HOP_LIMIT, udpLen % 0x1_0000)
  }

  function LinkHeader(host: Host, dst: IpAddr, dstMac: Mac): (h: seq<u8>)
    ensures |h| == ETH_LEN
  {
    EthernetHeader(dstMac, host.mac, if dst.V4? then ETHERTYPE_IPV4 else ETHERTYPE_IPV6)
  }

  function Headers(host: Host, dst: IpAddr, dstMac: Mac, srcPort: u16, dstPort: u16, udpLen: nat, id: u16, checksum: u16)
    : (h: seq<u8>)
    ensures |h| == HeaderLen(dst)
  {
    LinkHeader(host, dst, dstMac) + IpHeader(host, dst, udpLen, id) + UdpHeader(srcPort, dstPort, udpLen, checksum)
  }

  /** The value stamped into the checksum field for the driver to finish. */
  function Partial(host: Host, dst: IpAddr, udpLen: nat): u16 {
    Checksum.PseudoPartial(SourceFor(host, dst), dst, PROTO_UDP, udpLen)
  }

  /** A whole frame around `payload`, with `checksum` in the UDP checksum field. */
  function Frame(host: Host, dst: IpAddr, dstMac: Mac, srcPort: u16, dstPort: u16, payload: seq<u8>, id: u16, checksum: u16)
    : (f: seq<u8>)
    ensures |f| == HeaderLen(dst) + |payload|
  {
    Headers(host, dst, dstMac, srcPort, dstPort, UDP_LEN + |payload|, id, checksum) + payload
  }

  /** The frame as a sender leaves it, its checksum field holding the partial sum. */
  function Stamped(host: Host, dst: IpAddr, dstMac: Mac, srcPort: u16, dstPort: u16, payload: seq<u8>, id: u16): (f: seq<u8>)
    ensures |f| == HeaderLen(dst) + |payload|
  {
    StampedHeaders(host, dst, dstMac, srcPort, dstPort, UDP_LEN + |payload|, id) + payload
  }

  function StampedHeaders(host: Host, dst: IpAddr, dstMac: Mac, srcPort: u16, dstPort: u16, udpLen: nat, id: u16)
    : (h: seq<u8>)
    ensures |h| == HeaderLen(dst)
  {
    Headers(host, dst, dstMac, srcPort, dstPort, udpLen, id, Partial(host, dst, udpLen))
  }

  datatype Outcome = Invalid | Unresolved | Sent(frame: seq<u8>, csumStart: nat, csumOffset: nat)

  /** What a send ships, whatever the buffer layout: nothing for a payload that
      is empty or over 1472 bytes, nothing for an unresolved neighbour, otherwise
      the stamped frame and where its checksum is to be finished. The size guard
      counts an IPv4 header for both families. */
  function Shipped(host: Host, dst: IpAddr, resolved: Option<Mac>, srcPort: u16, dstPort: u16, payload: seq<u8>, id: u16)
    : Outcome
  {
    if |payload| == 0 || |payload| > MAX_DATAGRAM then Invalid
    else if resolved.None? then Unresolved
    else
      Sent(Stamped(host, dst, resolved.value, srcPort, dstPort, payload, id), ETH_LEN + IpLen(dst), CHECKSUM_OFFSET)
  }

  /** When nothing is shipped, and why. */
  lemma RefusedExactly(host: Host, dst: IpAddr, resolved: Option<Mac>, srcPort: u16, dstPort: u16, payload: seq<u8>, id: u16)
    ensures var out := Shipped(host, dst, resolved, srcPort, dstPort, payload, id);
            && (out == Invalid <==> payload == [] || |payload| > 1472)
            && (out == Unresolved <==> 1 <= |payload| <= 1472 && resolved == None)
  {
  }

  /** The largest Ethernet frame a 1500-byte MTU allows. */
  const MAX_FRAME := 1514

  /** A shipped frame keeps to the 1514 bytes of the documented layout exactly
      when it is IPv4 or its payload leaves room for an IPv6 header. */
  lemma FrameFitsExactly(host: Host, dst: IpAddr, resolved: Option<Mac>, srcPort: u16, dstPort: u16, payload: seq<u8>, id: u16)
    ensures var out := Shipped(host, dst, resolved, srcPort, dstPort, payload, id);
            out.Sent? ==> (|out.frame| <= MAX_FRAME <==> dst.V4? || |payload| <= 1452)
  {
  }

  /** Every IPv6 payload between the two bounds is shipped oversized. */
  lemma OversizedIpv6Ships(host: Host, d: Ipv6, mac: Mac, srcPort: u16, dstPort: u16, payload: seq<u8>, id: u16)
    requires 1452 < |payload| <= MAX_DATAGRAM
    ensures var out := Shipped(host, V6(d), Some(mac), srcPort, dstPort, payload, id);
            out.Sent? && |out.frame| == |payload| + 62 > MAX_FRAME
  {
  }

  // ── On the wire ─────────────────────────────────────────────────────

  /** The two bytes at `off` are `v` in network order. */
  predicate Field16(f: seq<u8>, off: nat, v: nat) {
    off + 2 <= |f| && f[off] as int * 0x100 + f[off + 1] as int == v
  }

  /** The Ethernet header of RFC 894 and RFC 2464: to the resolved MAC, from ours. */
  predicate LinkOnWire(f: seq<u8>, to: Mac, from: Mac, ethertype: nat) {
    |f| >= 14 && f[0..6] == to && f[6..12] == from && Field16(f, 12, ethertype)
  }

  /** The UDP header of RFC 768 at `off`, and the payload behind it. */
  predicate UdpOnWire(f: seq<u8>, off: nat, srcPort: u16, dstPort: u16, payload: seq<u8>) {
    && |f| == off + 8 + |payload|
    && Field16(f, off, srcPort) && Field16(f, off + 2, dstPort) && Field16(f, off + 4, 8 + |payload|)
    && f[off + 8..] == payload
  }

  lemma LinkBytes(to: Mac, from: Mac, ethertype: u16, rest: seq<u8>)
    ensures LinkOnWire(EthernetHeader(to, from, ethertype) + rest, to, from, ethertype)
  {
    var f := EthernetHeader(to, from, ethertype) + rest;
    assert f[0..6] == to && f[6..12] == from && f[12..14] == BeBytes16(ethertype);
    assert f[12..14][0] == f[12] && f[12..14][1] == f[13];
  }

  lemma UdpBytes(front: seq<u8>, srcPort: u16, dstPort: u16, payload: seq<u8>, checksum: u16)
    requires |payload| <= MAX_DATAGRAM
    ensures UdpOnWire(front + (UdpHeader(srcPort, dstPort, UDP_LEN + |payload|, checksum) + payload), |front|, srcPort, dstPort, payload)
  {
    var h := UdpHeader(srcPort, dstPort, UDP_LEN + |payload|, checksum);
    var f := front + (h + payload);
    assert forall k :: 0 <= k < 8 ==> f[|front| + k] == h[k];
    assert f[|front| + 8..] == payload;
  }

  /** The IPv4 header of RFC 791 behind the link header: no options, no
      fragmentation, 64 hops. */
  predicate Ipv4OnWire(f: seq<u8>, src: Ipv4, dst: Ipv4, proto: u8, total: nat, id: u16) {
    && |f| >= 34 && f[14] == 0x45 && f[15] == 0 && Field16(f, 16, total) && Field16(f, 18, id)
    && f[20] == 0x40 && f[21] == 0 && f[22] == 64 && f[23] == proto
    && f[26..30] == Octets4(src) && f[30..34] == Octets4(dst)
  }

  lemma Ipv4HeaderBytes(src: Ipv4, dst: Ipv4, proto: u8, total: u16, id: u16) returns (h: seq<u8>)
    ensures h == Ipv4Header(src, dst, proto, total, id)
    ensures h[0] == 0x45 && h[1] == 0 && Field16(h, 2, total) && Field16(h, 4, id)
    ensures h[6] == 0x40 && h[7] == 0 && h[8] == 64 && h[9] == proto
    ensures h[12..16] == Octets4(src) && h[16..20] == Octets4(dst)
  {
    h := Ipv4Header(src, dst, proto, total, id);
  }

  /** A header found in a frame keeps its bytes. */
  lemma HeaderAt(f: seq<u8>, h: seq<u8>)
    requires |f| >= 14 + |h| && f[14..14 + |h|] == h
    ensures forall k :: 0 <= k < |h| ==> f[14 + k] == h[k]
    ensures forall a, b :: 0 <= a <= b <= |h| ==> f[14 + a..14 + b] == h[a..b]
  {
    forall k | 0 <= k < |h| ensures f[14 + k] == h[k] {
      assert f[14..14 + |h|][k] == h[k];
    }
  }

  lemma Ipv4Bytes(f: seq<u8>, src: Ipv4, dst: Ipv4, proto: u8, total: u16, id: u16)
    requires |f| >= 34 && f[14..34] == Ipv4Header(src, dst, proto, total, id)
    ensures Ipv4OnWire(f, src, dst, proto, total, id)
  {
    var h := Ipv4HeaderBytes(src, dst, proto, total, id);
    HeaderAt(f, h);
    assert f[14] == h[0] && f[14 + 1] == h[1] && f[14 + 2] == h[2] && f[14 + 3] == h[3] && f[14 + 4] == h[4];
    assert f[14 + 5] == h[5] && f[14 + 6] == h[6] && f[14 + 7] == h[7] && f[14 + 8] == h[8] && f[14 + 9] == h[9];
    assert f[14 + 12..14 + 16] == h[12..16] && f[14 + 16..14 + 20] == h[16..20];
  }

  /** The IPv6 header of RFC 8200 behind the link header. */
  predicate Ipv6OnWire(f: seq<u8>, src: Ipv6, dst: Ipv6, next: u8, hops: u8, length: nat) {
    && |f| >= 54 && f[14..18] == [0x60, 0, 0, 0] && Field16(f, 18, length) && f[20] == next && f[21] == hops
    && f[22..38] == src && f[38..54] == dst
  }

  lemma Ipv6HeaderBytes(src: Ipv6, dst: Ipv6, next: u8, hops: u8, length: u16) returns (h: seq<u8>)
    ensures h == Ipv6Header(src, dst, next, hops, length)
    ensures h[0..4] == [0x60, 0, 0, 0] && Field16(h, 4, length) && h[6] == next && h[7] == hops
    ensures h[8..24] == src && h[24..40] == dst
  {
    h := Ipv6Header(src, dst, next, hops, length);
  }

  lemma Ipv6Bytes(f: seq<u8>, src: Ipv6, dst: Ipv6, next: u8, hops: u8, length: u16)
    requires |f| >= 54 && f[14..54] == Ipv6Header(src, dst, next, hops, length)
    ensures Ipv6OnWire(f, src, dst, next, hops, length)
  {
    var h := Ipv6HeaderBytes(src, dst, next, hops, length);
    HeaderAt(f, h);
    assert f[14 + 4] == h[4] && f[14 + 5] == h[5] && f[14 + 6] == h[6] && f[14 + 7] == h[7];
    assert f[14 + 0..14 + 4] == h[0..4] && f[14 + 8..14 + 24] == h[8..24] && f[14 + 24..14 + 40] == h[24..40];
  }

  lemma IpHeaderIs(host: Host, dst: IpAddr, n: nat, id: u16)
    requires n <= MAX_DATAGRAM
    ensures dst.V4? ==> IpHeader(host, dst, 8 + n, id) == Ipv4Header(host.cfg.ip, dst.v4, 17, 28 + n, id)
    ensures dst.V6? ==> IpHeader(host, dst, 8 + n, id) == Ipv6Header(ANY_V6, dst.v6, 17, 64, 8 + n)
  {
  }

  /** Where each part of a shipped frame starts. */
  lemma StampedParts(host: Host, dst: IpAddr, mac: Mac, srcPort: u16, dstPort: u16, payload: seq<u8>, id: u16) returns (f: seq<u8>)
    requires 0 < |payload| <= MAX_DATAGRAM
    ensures f == Stamped(host, dst, mac, srcPort, dstPort, payload, id)
    ensures LinkOnWire(f, mac, host.mac, if dst.V4? then 0x0800 else 0x86DD)
    ensures |f| >= 14 + IpLen(dst) && f[14..14 + IpLen(dst)] == IpHeader(host, dst, 8 + |payload|, id)
    ensures UdpOnWire(f, 14 + IpLen(dst), srcPort, dstPort, payload)
  {
    var udpLen := UDP_LEN + |payload|;
    var link, ip := LinkHeader(host, dst, mac), IpHeader(host, dst, udpLen, id);
    var checksum := Partial(host, dst, udpLen);
    var udp := UdpHeader(srcPort, dstPort, udpLen, checksum);
    f := link + ip + udp + payload;
    Assoc(link + ip, udp, payload);
    UdpBytes(link + ip, srcPort, dstPort, payload, checksum);
    assert f == link + (ip + udp + payload);
    LinkBytes(mac, host.mac, if dst.V4? then ETHERTYPE_IPV4 else ETHERTYPE_IPV6, ip + udp + payload);
  }

  lemma ShippedIs(host: Host, dst: IpAddr, mac: Mac, srcPort: u16, dstPort: u16, payload: seq<u8>, id: u16, f: seq<u8>)
    requires 0 < |payload| <= MAX_DATAGRAM && f == Stamped(host, dst, mac, srcPort, dstPort, payload, id)
    ensures Shipped(host, dst, Some(mac), srcPort, dstPort, payload, id) == Sent(f, 14 + IpLen(dst), 6)
  {
  }

  /** Every byte a sent IPv4 datagram is recognised by, at its offset in the frame. */
  lemma ShippedV4OnWire(host: Host, d: Ipv4, mac: Mac, srcPort: u16, dstPort: u16, payload: seq<u8>, id: u16)
    requires 0 < |payload| <= MAX_DATAGRAM
    ensures var out := Shipped(host, V4(d), Some(mac), srcPort, dstPort, payload, id);
            && out.Sent? && out.csumStart == 34 && out.csumOffset == 6
            && LinkOnWire(out.frame, mac, host.mac, 0x0800)
            && Ipv4OnWire(out.frame, host.cfg.ip, d, 17, 28 + |payload|, id)
            && UdpOnWire(out.frame, 34, srcPort, dstPort, payload)
  {
    var f := StampedParts(host, V4(d), mac, srcPort, dstPort, payload, id);
    IpHeaderIs(host, V4(d), |payload|, id);
    Ipv4Bytes(f, host.cfg.ip, d, 17, 28 + |payload|, id);
    ShippedIs(host, V4(d), mac, srcPort, dstPort, payload, id, f);
  }

  /** The same for IPv6. */
  lemma ShippedV6OnWire(host: Host, d: Ipv6, mac: Mac, srcPort: u16, dstPort: u16, payload: seq<u8>, id: u16)
    requires 0 < |payload| <= MAX_DATAGRAM
    ensures var out := Shipped(host, V6(d), Some(mac), srcPort, dstPort, payload, id);
            && out.Sent? && out.csumStart == 54 && out.csumOffset == 6
            && LinkOnWire(out.frame, mac, host.mac, 0x86DD)
            && Ipv6OnWire(out.frame, ANY_V6, d, 17, 64, 8 + |payload|)
            && UdpOnWire(out.frame, 54, srcPort, dstPort, payload)
  {
    var f := StampedParts(host, V6(d), mac, srcPort, dstPort, payload, id);
    IpHeaderIs(host, V6(d), |payload|, id);
    Ipv6Bytes(f, ANY_V6, d, 17, 64, 8 + |payload|);
    ShippedIs(host, V6(d), mac, srcPort, dstPort, payload, id, f);
  }

  // ── Writing headers in place ────────────────────────────────────────

  method FillUdpHeader(frame: array<u8>, off: nat, host: Host, dst: IpAddr, srcPort: u16, dstPort: u16, udpLen: nat)
    requires off + UDP_LEN <= frame.Length
    modifies frame
    ensures frame[..] == Splice(old(frame[..]), off, UdpHeader(srcPort, dstPort, udpLen, Partial(host, dst, udpLen)))
  {
    ghost var was := frame[..];
    var src, dport, length := BeBytes16(srcPort), BeBytes16(dstPort), BeBytes16(udpLen % 0x1_0000);
    CopyInto(frame, off, src);
    CopyInto(frame, off + 2, dport);
    SpliceJoin(was, off, src, dport);
    CopyInto(frame, off + 4, length);
    SpliceJoin(was, off, src + dport, length);
    var partial := Checksum.L4PseudoPartial(SourceFor(host, dst), dst, PROTO_UDP, udpLen);
    CopyInto(frame, off + 6, LeBytes16(partial));
    SpliceJoin(was, off, src + dport + length, LeBytes16(partial));
  }

  method FillIpHeader(frame: array<u8>, off: nat, host: Host, dst: IpAddr, udpLen: nat, ids: IpIdSlot)
    requires off + IpLen(dst) <= frame.Length
    modifies frame, ids
    ensures frame[..] == Splice(old(frame[..]), off, IpHeader(host, dst, udpLen, old(ids.next)))
    ensures ids.next == if dst.V4? then (old(ids.next) + 1) % 0x1_0000 else old(ids.next)
  {
    match dst {
      case V4(d) => FillIpv4Header(frame, off, host.cfg.ip, d, PROTO_UDP, (IPV4_LEN + udpLen) % 0x1_0000, ids);
      case V6(d) => FillIpv6Header(frame, off, ANY_V6, d, PROTO_UDP, HOP_LIMIT, udpLen % 0x1_0000);
    }
  }

  /** UDP header first, then IP, then Ethernet: together one overwrite of the
      bytes from `ethOff`, leaving everything around them alone. */
  method FillUdpFrameHeaders(frame: array<u8>, ethOff: nat, host: Host, dst: IpAddr, dstMac: Mac,
                             srcPort: u16, dstPort: u16, udpLen: nat, ids: IpIdSlot)
    requires ethOff + HeaderLen(dst) <= frame.Length
    modifies frame, ids
    ensures frame[..] == Splice(old(frame[..]), ethOff, StampedHeaders(host, dst, dstMac, srcPort, dstPort, udpLen, old(ids.next)))
    ensures ids.next == if dst.V4? then (old(ids.next) + 1) % 0x1_0000 else old(ids.next)
  {
    ghost var was := frame[..];
    var ipOff := ethOff + ETH_LEN;
    var udpOff := ipOff + IpLen(dst);
    ghost var link, ip := LinkHeader(host, dst, dstMac), IpHeader(host, dst, udpLen, ids.next);
    ghost var udp := UdpHeader(srcPort, dstPort, udpLen, Partial(host, dst, udpLen));
    FillUdpHeader(frame, udpOff, host, dst, srcPort, dstPort, udpLen);
    FillIpHeader(frame, ipOff, host, dst, udpLen, ids);
    SpliceJoin(was, ipOff, ip, udp);
    var ethertype := if dst.V4? then ETHERTYPE_IPV4 else ETHERTYPE_IPV6;
    FillEthernetHeader(frame, ethOff, dstMac, host.mac, ethertype);
    SpliceJoin(was, ethOff, link, ip + udp);
    assert link + (ip + udp) == link + ip + udp;
  }

  // ── The overlapping move ────────────────────────────────────────────

  /** Copy `n` bytes within one buffer, forwards or backwards by the direction
      of the overlap: the destination ends up with the bytes the source held
      before the move. */
  method MemMove(a: array<u8>, dest: nat, src: nat, n: nat)
    requires dest + n <= a.Length && src + n <= a.Length
    modifies a
    ensures a[..] == Splice(old(a[..]), dest, old(a[src..src + n]))
  {
    ghost var was := a[..];
    if dest < src {
      var i := 0;
      while i < n
        invariant 0 <= i <= n
        invariant forall k :: dest <= k < dest + i ==> a[k] == was[k + (src - dest)]
        invariant forall k :: 0 <= k < a.Length && !(dest <= k < dest + i) ==> a[k] == was[k]
      {
        a[dest + i] := a[src + i];
        i := i + 1;
      }
    } else if dest > src {
      var i := n;
      while i > 0
        invariant 0 <= i <= n
        invariant forall k :: dest + i <= k < dest + n ==> a[k] == was[k - (dest - src)]
        invariant forall k :: 0 <= k < a.Length && !(dest + i <= k < dest + n) ==> a[k] == was[k]
      {
        i := i - 1;
        a[dest + i] := a[src + i];
      }
    }
    Moved(was, a[..], dest, src, n);
  }

  lemma Moved(was: seq<u8>, now: seq<u8>, dest: nat, src: nat, n: nat)
    requires |was| == |now| && dest + n <= |was| && src + n <= |was|
    requires forall k :: dest <= k < dest + n ==> now[k] == was[k + (src - dest)]
    requires forall k :: 0 <= k < |was| && !(dest <= k < dest + n) ==> now[k] == was[k]
    ensures now == Splice(was, dest, was[src..src + n])
  {
    var r := Splice(was, dest, was[src..src + n]);
    forall k | 0 <= k < |was| ensures now[k] == r[k] {
    }
  }

  // ── The two send paths ──────────────────────────────────────────────

  lemma TailAfterSplice(s: seq<u8>, off: nat, b: seq<u8>)
    requires off + |b| <= |s|
    ensures Splice(s, off, b)[off..] == b + s[off + |b|..]
  {
  }

  /** Headers written into the tail of the reserve, payload left in place, and
      the frame shipped from the first header byte. */
  method SendWithL2Headroom(host: Host, dst: IpAddr, resolved: Option<Mac>, srcPort: u16, dstPort: u16,
                            frame: array<u8>, ids: IpIdSlot)
    returns (out: Outcome)
    requires frame.Length >= MAX_L2_HEADROOM
    modifies frame, ids
    ensures out == Shipped(host, dst, resolved, srcPort, dstPort, old(frame[MAX_L2_HEADROOM..]), old(ids.next))
    ensures ids.next == if out.Sent? && dst.V4? then (old(ids.next) + 1) % 0x1_0000 else old(ids.next)
    ensures !out.Sent? ==> frame[..] == old(frame[..])
  {
    var payloadLen := frame.Length - MAX_L2_HEADROOM;
    if payloadLen == 0 || payloadLen > MAX_DATAGRAM { return Invalid; }
    if resolved.None? { return Unresolved; }
    var shipped := FillHeadroom(host, dst, resolved.value, srcPort, dstPort, frame, ids);
    return Sent(shipped, ETH_LEN + IpLen(dst), CHECKSUM_OFFSET);
  }

  method FillHeadroom(host: Host, dst: IpAddr, dstMac: Mac, srcPort: u16, dstPort: u16, frame: array<u8>, ids: IpIdSlot)
    returns (shipped: seq<u8>)
    requires frame.Length >= MAX_L2_HEADROOM
    modifies frame, ids
    ensures shipped == Stamped(host, dst, dstMac, srcPort, dstPort, old(frame[MAX_L2_HEADROOM..]), old(ids.next))
    ensures ids.next == if dst.V4? then (old(ids.next) + 1) % 0x1_0000 else old(ids.next)
  {
    var prefixSkip := MAX_L2_HEADROOM - HeaderLen(dst);
    var udpLen := UDP_LEN + (frame.Length - MAX_L2_HEADROOM);
    ghost var was, payload := frame[..], frame[MAX_L2_HEADROOM..];
    ghost var h := StampedHeaders(host, dst, dstMac, srcPort, dstPort, udpLen, ids.next);
    StampedIs(host, dst, dstMac, srcPort, dstPort, payload, udpLen, ids.next);
    FillUdpFrameHeaders(frame, prefixSkip, host, dst, dstMac, srcPort, dstPort, udpLen, ids);
    shipped := ShipFrom(frame, prefixSkip, was, h, payload);
  }

  lemma StampedIs(host: Host, dst: IpAddr, dstMac: Mac, srcPort: u16, dstPort: u16, payload: seq<u8>, udpLen: nat, id: u16)
    requires udpLen == UDP_LEN + |payload|
    ensures Stamped(host, dst, dstMac, srcPort, dstPort, payload, id)
         == StampedHeaders(host, dst, dstMac, srcPort, dstPort, udpLen, id) + payload
  {
  }

  /** The part of a buffer from `off` on, where header bytes `h` were written in
      front of the payload. */
  method ShipFrom(buf: array<u8>, off: nat, ghost was: seq<u8>, ghost h: seq<u8>, ghost payload: seq<u8>)
    returns (shipped: seq<u8>)
    requires off + |h| <= |was| && buf[..] == Splice(was, off, h) && was[off + |h|..] == payload
    ensures shipped == h + payload
  {
    TailAfterSplice(was, off, h);
    shipped := buf[off..];
  }

  /** The slot layout: move an IPv4 payload back 20 bytes, then write the
      headers at the front. The length fields wrap at 16 bits, as the casts do. */
  method WriteUdpTxHeaders(frame: array<u8>, host: Host, dst: IpAddr, dstMac: Mac, srcPort: u16, dstPort: u16,
                           payloadLen: nat, ids: IpIdSlot)
    returns (onWire: nat, headerLen: nat, csumStart: nat)
    requires MAX_L2_HEADROOM + payloadLen <= frame.Length
    modifies frame, ids
    ensures onWire == HeaderLen(dst) + payloadLen <= frame.Length
    ensures headerLen == HeaderLen(dst) && csumStart == ETH_LEN + IpLen(dst)
    ensures ids.next == if dst.V4? then (old(ids.next) + 1) % 0x1_0000 else old(ids.next)
    ensures frame[..onWire]
         == Stamped(host, dst, dstMac, srcPort, dstPort, old(frame[MAX_L2_HEADROOM..MAX_L2_HEADROOM + payloadLen]), old(ids.next))
  {
    var headroom := HeaderLen(dst);
    ghost var payload := ShiftPayload(frame, dst, payloadLen);
    StampedIs(host, dst, dstMac, srcPort, dstPort, payload, UDP_LEN + payloadLen, ids.next);
    FillFront(frame, host, dst, dstMac, srcPort, dstPort, payloadLen, ids, payload);
    return headroom + payloadLen, headroom, ETH_LEN + IpLen(dst);
  }

  method FillFront(frame: array<u8>, host: Host, dst: IpAddr, dstMac: Mac, srcPort: u16, dstPort: u16, payloadLen: nat,
                   ids: IpIdSlot, ghost payload: seq<u8>)
    requires HeaderLen(dst) + payloadLen <= frame.Length && frame[HeaderLen(dst)..HeaderLen(dst) + payloadLen] == payload
    modifies frame, ids
    ensures ids.next == if dst.V4? then (old(ids.next) + 1) % 0x1_0000 else old(ids.next)
    ensures frame[..HeaderLen(dst) + payloadLen]
         == StampedHeaders(host, dst, dstMac, srcPort, dstPort, UDP_LEN + payloadLen, old(ids.next)) + payload
  {
    ghost var was := frame[..];
    ghost var h := StampedHeaders(host, dst, dstMac, srcPort, dstPort, UDP_LEN + payloadLen, ids.next);
    FillUdpFrameHeaders(frame, 0, host, dst, dstMac, srcPort, dstPort, UDP_LEN + payloadLen, ids);
    FrontThenPayload(frame, was, h, payload);
  }

  /** Bring the payload to just behind where this family's headers end. */
  method ShiftPayload(frame: array<u8>, dst: IpAddr, payloadLen: nat) returns (ghost payload: seq<u8>)
    requires MAX_L2_HEADROOM + payloadLen <= frame.Length
    modifies frame
    ensures payload == old(frame[MAX_L2_HEADROOM..MAX_L2_HEADROOM + payloadLen])
    ensures frame[HeaderLen(dst)..HeaderLen(dst) + payloadLen] == payload
  {
    payload := frame[MAX_L2_HEADROOM..MAX_L2_HEADROOM + payloadLen];
    if dst.V4? {
      MemMove(frame, HeaderLen(dst), MAX_L2_HEADROOM, payloadLen);
    }
  }

  lemma FrontThenPayload(buf: array<u8>, was: seq<u8>, h: seq<u8>, payload: seq<u8>)
    requires |h| + |payload| <= |was| && was[|h|..|h| + |payload|] == payload && buf[..] == Splice(was, 0, h)
    ensures |h| + |payload| <= buf.Length && buf[..|h| + |payload|] == h + payload
  {
    assert buf[..|h| + |payload|] == buf[..][..|h| + |payload|];
  }

  method SendViaTxHandle(host: Host, dst: IpAddr, resolved: Option<Mac>, srcPort: u16, dstPort: u16,
                         slot: array<u8>, frameLen: nat, ids: IpIdSlot)
    returns (out: Outcome)
    requires MAX_L2_HEADROOM <= frameLen <= slot.Length
    modifies slot, ids
    ensures out == Shipped(host, dst, resolved, srcPort, dstPort, old(slot[MAX_L2_HEADROOM..frameLen]), old(ids.next))
    ensures ids.next == if out.Sent? && dst.V4? then (old(ids.next) + 1) % 0x1_0000 else old(ids.next)
    ensures !out.Sent? ==> slot[..] == old(slot[..])
  {
    var payloadLen := frameLen - MAX_L2_HEADROOM;
    if payloadLen == 0 || payloadLen > MAX_DATAGRAM { return Invalid; }
    if resolved.None? { return Unresolved; }
    var shipped, csumStart := FillSlot(host, dst, resolved.value, srcPort, dstPort, slot, frameLen, ids);
    return Sent(shipped, csumStart, CHECKSUM_OFFSET);
  }

  method FillSlot(host: Host, dst: IpAddr, dstMac: Mac, srcPort: u16, dstPort: u16, slot: array<u8>, frameLen: nat, ids: IpIdSlot)
    returns (shipped: seq<u8>, csumStart: nat)
    requires MAX_L2_HEADROOM <= frameLen <= slot.Length
    modifies slot, ids
    ensures shipped == Stamped(host, dst, dstMac, srcPort, dstPort, old(slot[MAX_L2_HEADROOM..frameLen]), old(ids.next))
    ensures csumStart == ETH_LEN + IpLen(dst)
    ensures ids.next == if dst.V4? then (old(ids.next) + 1) % 0x1_0000 else old(ids.next)
  {
    var payloadLen := frameLen - MAX_L2_HEADROOM;
    ghost var payload := slot[MAX_L2_HEADROOM..frameLen];
    assert payload == slot[MAX_L2_HEADROOM..MAX_L2_HEADROOM + payloadLen];
    var onWire, _, start := WriteUdpTxHeaders(slot, host, dst, dstMac, srcPort, dstPort, payloadLen, ids);
    shipped, csumStart := slot[..onWire], start;
  }

  /** Two senders holding the same payload, one in each layout, and the same IP
      ID put the same bytes on the wire with the same checksum instructions. */
  method SendBothWays(host: Host, dst: IpAddr, resolved: Option<Mac>, srcPort: u16, dstPort: u16,
                      frame: array<u8>, slot: array<u8>, frameIds: IpIdSlot, slotIds: IpIdSlot)
    returns (a: Outcome, b: Outcome)
    requires MAX_L2_HEADROOM <= frame.Length <= slot.Length && frame != slot && frameIds != slotIds
    requires frame[MAX_L2_HEADROOM..] == slot[MAX_L2_HEADROOM..frame.Length] && frameIds.next == slotIds.next
    modifies frame, slot, frameIds, slotIds
    ensures a == b && frameIds.next == slotIds.next
  {
    a := SendWithL2Headroom(host, dst, resolved, srcPort, dstPort, frame, frameIds);
    b := SendViaTxHandle(host, dst, resolved, srcPort, dstPort, slot, frame.Length, slotIds);
  }
}
