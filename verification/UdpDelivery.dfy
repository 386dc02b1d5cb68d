/** From a sender's frame to a receiver's socket: what the transmit path builds,
    the classifier and the UDP header checks take apart again. */
module UdpDelivery {
  import opened Basics
  import opened Prefix
  import opened Ip
  import opened Udp
  import opened Classify
  import Checksum

  datatype Datagram = Datagram(srcPort: u16, dstPort: u16, body: seq<u8>)

  /** The header checks of the UDP receiver; `None` is a counted malformed drop. */
  function ReceiveDatagram(segment: seq<u8>): Option<Datagram> {
    if |segment| < UDP_LEN then None
    else
      var length := Be16(segment[4], segment[5]);
      if length < UDP_LEN || length > |segment| then None
      else Some(Datagram(Be16(segment[0], segment[1]), Be16(segment[2], segment[3]), segment[UDP_LEN..length]))
  }

  /** Does a receiver take packets for `dst`? */
  predicate Owns(cfg: NetConfig, accept: Ipv6 -> bool, dst: IpAddr) {
    match dst
    case V4(d) => Accepts(cfg, d)
    case V6(d) => accept(d)
  }

  lemma DatagramRoundTrip(srcPort: u16, dstPort: u16, checksum: u16, payload: seq<u8>)
    requires |payload| <= 0xFFFF - UDP_LEN
    ensures ReceiveDatagram(UdpHeader(srcPort, dstPort, UDP_LEN + |payload|, checksum) + payload)
         == Some(Datagram(srcPort, dstPort, payload))
  {
    var length: u16 := UDP_LEN + |payload|;
    var seg := UdpHeader(srcPort, dstPort, length, checksum) + payload;
    HeaderFields(BeBytes16(srcPort), BeBytes16(dstPort), BeBytes16(length), LeBytes16(checksum), payload, seg);
    Be16Bytes(srcPort);
    Be16Bytes(dstPort);
    Be16Bytes(length);
  }

  lemma HeaderFields(a: seq<u8>, b: seq<u8>, c: seq<u8>, d: seq<u8>, payload: seq<u8>, seg: seq<u8>)
    requires |a| == |b| == |c| == |d| == 2 && seg == a + b + c + d + payload
    ensures seg[0] == a[0] && seg[1] == a[1] && seg[2] == b[0] && seg[3] == b[1] && seg[4] == c[0] && seg[5] == c[1]
    ensures seg[UDP_LEN..UDP_LEN + |payload|] == payload
  {
  }

  /** The L4 segment of a built frame. */
  function Segment(srcPort: u16, dstPort: u16, payload: seq<u8>, checksum: u16): seq<u8> {
    UdpHeader(srcPort, dstPort, UDP_LEN + |payload|, checksum) + payload
  }

  lemma FrameParts(host: Host, dst: IpAddr, dstMac: Mac, srcPort: u16, dstPort: u16, payload: seq<u8>, id: u16,
                   checksum: u16, pad: seq<u8>)
    ensures var f := Frame(host, dst, dstMac, srcPort, dstPort, payload, id, checksum) + pad;
            var seg := Segment(srcPort, dstPort, payload, checksum);
            && f[ETH_LEN..] == IpHeader(host, dst, UDP_LEN + |payload|, id) + (seg + pad)
            && f[6..12] == host.mac
            && Be16(f[12], f[13]) == (if dst.V4? then ETHERTYPE_IPV4 else ETHERTYPE_IPV6)
            && f[ETH_LEN + IpLen(dst)..ETH_LEN + IpLen(dst) + |seg|] == seg
  {
    var link := LinkHeader(host, dst, dstMac);
    var ip := IpHeader(host, dst, UDP_LEN + |payload|, id);
    var udp := UdpHeader(srcPort, dstPort, UDP_LEN + |payload|, checksum);
    var f := Frame(host, dst, dstMac, srcPort, dstPort, payload, id, checksum) + pad;
    Regroup(link, ip, udp, payload, pad);
    assert f == link + (ip + (udp + payload + pad));
    assert link[12..14] == BeBytes16(if dst.V4? then ETHERTYPE_IPV4 else ETHERTYPE_IPV6);
    assert link[6..12] == host.mac;
    assert f[12..14] == link[12..14];
    assert f[6..12] == link[6..12];
  }

  lemma Regroup(a: seq<u8>, b: seq<u8>, c: seq<u8>, d: seq<u8>, e: seq<u8>)
    ensures a + b + c + d + e == a + (b + (c + d + e))
  {
  }

  /** The summary a receiver that owns `dst` makes of a built frame. */
  function Summary(host: Host, dst: IpAddr, udpLen: nat, cfg: NetConfig): ParsedL3 {
    ParsedL3(PROTO_UDP, SourceFor(host, dst), dst, ETH_LEN + IpLen(dst), udpLen,
             if dst.V4? && !SameSubnet(cfg, host.cfg.ip) then None else Some(host.mac))
  }

  lemma ClassifyV4(f: seq<u8>, l3: seq<u8>, p: Option<Ipv4Packet>, cfg: NetConfig, accept: Ipv6 -> bool)
    requires |f| >= ETH_LEN && f[ETH_LEN..] == l3 && Be16(f[12], f[13]) == ETHERTYPE_IPV4
    requires ParseIpv4(l3, cfg) == p
    ensures Classify.Classify(f, cfg, accept)
         == if p.None? then Drop
            else Ip(ParsedL3(p.value.proto, V4(p.value.src), V4(p.value.dst), ETH_LEN + p.value.start,
                             p.value.end - p.value.start, if SameSubnet(cfg, p.value.src) then Some(f[6..12]) else None))
  {
    assert Classify.Classify(f, cfg, accept) == SummarizeIpv4(f[6..12], l3, cfg);
  }

  lemma ClassifyV6(f: seq<u8>, l3: seq<u8>, p: Ipv6Packet, cfg: NetConfig, accept: Ipv6 -> bool)
    requires |f| >= ETH_LEN && f[ETH_LEN..] == l3 && Be16(f[12], f[13]) == ETHERTYPE_IPV6
    requires ParseIpv6(l3) == Some(p)
    ensures Classify.Classify(f, cfg, accept)
         == if !accept(p.dst) then Drop
            else Ip(ParsedL3(p.next, V6(p.src), V6(p.dst), ETH_LEN + p.start, p.end - p.start, Some(f[6..12])))
  {
    assert Classify.Classify(f, cfg, accept) == SummarizeIpv6(f[6..12], l3, accept);
  }

  lemma ShortLength(udpLen: nat)
    requires udpLen <= UDP_LEN + MAX_DATAGRAM
    ensures udpLen % 0x1_0000 == udpLen && (IPV4_LEN + udpLen) % 0x1_0000 == IPV4_LEN + udpLen
  {
  }

  lemma ClassifyBuiltV4(host: Host, d: Ipv4, total: u16, id: u16, rest: seq<u8>, f: seq<u8>, cfg: NetConfig, accept: Ipv6 -> bool)
    requires IPV4_LEN <= total <= IPV4_LEN + |rest|
    requires |f| >= ETH_LEN && f[ETH_LEN..] == Ipv4Header(host.cfg.ip, d, PROTO_UDP, total, id) + rest && f[6..12] == host.mac
    requires Be16(f[12], f[13]) == ETHERTYPE_IPV4
    ensures Classify.Classify(f, cfg, accept)
         == if Accepts(cfg, d) then Ip(Summary(host, V4(d), total - IPV4_LEN, cfg)) else Drop
  {
    Ipv4RoundTrip(host.cfg.ip, d, PROTO_UDP, total, id, rest, cfg);
    var p := if Accepts(cfg, d) then Some(Ipv4Packet(host.cfg.ip, d, PROTO_UDP, IPV4_LEN, total)) else None;
    ClassifyV4(f, f[ETH_LEN..], p, cfg, accept);
  }

  lemma ClassifyBuiltV6(host: Host, d: Ipv6, udpLen: u16, rest: seq<u8>, f: seq<u8>, cfg: NetConfig, accept: Ipv6 -> bool)
    requires udpLen <= |rest|
    requires |f| >= ETH_LEN && f[ETH_LEN..] == Ipv6Header(ANY_V6, d, PROTO_UDP, HOP_LIMIT, udpLen) + rest && f[6..12] == host.mac
    requires Be16(f[12], f[13]) == ETHERTYPE_IPV6
    ensures Classify.Classify(f, cfg, accept) == if accept(d) then Ip(Summary(host, V6(d), udpLen, cfg)) else Drop
  {
    Ipv6RoundTrip(ANY_V6, d, PROTO_UDP, HOP_LIMIT, udpLen, rest);
    ClassifyV6(f, f[ETH_LEN..], Ipv6Packet(ANY_V6, d, PROTO_UDP, HOP_LIMIT, IPV6_LEN, IPV6_LEN + udpLen), cfg, accept);
  }

  /** The classifier's verdict depends only on the two headers in front. */
  lemma ClassifyBuilt(host: Host, dst: IpAddr, udpLen: nat, id: u16, rest: seq<u8>, f: seq<u8>,
                      cfg: NetConfig, accept: Ipv6 -> bool)
    requires UDP_LEN <= udpLen <= UDP_LEN + MAX_DATAGRAM && udpLen <= |rest|
    requires |f| >= ETH_LEN && f[ETH_LEN..] == IpHeader(host, dst, udpLen, id) + rest && f[6..12] == host.mac
    requires Be16(f[12], f[13]) == if dst.V4? then ETHERTYPE_IPV4 else ETHERTYPE_IPV6
    ensures Classify.Classify(f, cfg, accept)
         == if Owns(cfg, accept, dst) then Ip(Summary(host, dst, udpLen, cfg)) else Drop
  {
    ShortLength(udpLen);
    match dst {
      case V4(d) => ClassifyBuiltV4(host, d, IPV4_LEN + udpLen, id, rest, f, cfg, accept);
      case V6(d) => ClassifyBuiltV6(host, d, udpLen, rest, f, cfg, accept);
    }
  }

  /** Whatever the checksum field holds and however the link pads the frame, a
      receiver keeps it exactly when it owns the destination, and then recovers
      the ports and the payload. */
  lemma SendReceiveRoundTrip(host: Host, dst: IpAddr, dstMac: Mac, srcPort: u16, dstPort: u16, payload: seq<u8>, id: u16,
                             checksum: u16, pad: seq<u8>, cfg: NetConfig, accept: Ipv6 -> bool)
    requires |payload| <= MAX_DATAGRAM
    ensures var f := Frame(host, dst, dstMac, srcPort, dstPort, payload, id, checksum) + pad;
            var p := Summary(host, dst, UDP_LEN + |payload|, cfg);
            && Classify.Classify(f, cfg, accept) == (if Owns(cfg, accept, dst) then Ip(p) else Drop)
            && L4(p, f) == Some(Segment(srcPort, dstPort, payload, checksum))
            && ReceiveDatagram(L4(p, f).value) == Some(Datagram(srcPort, dstPort, payload))
  {
    FrameParts(host, dst, dstMac, srcPort, dstPort, payload, id, checksum, pad);
    DatagramRoundTrip(srcPort, dstPort, checksum, payload);
    var f := Frame(host, dst, dstMac, srcPort, dstPort, payload, id, checksum) + pad;
    ClassifyBuilt(host, dst, UDP_LEN + |payload|, id, Segment(srcPort, dstPort, payload, checksum) + pad, f, cfg, accept);
  }

  /** A frame for a receiver's own address always reaches it, whoever sent it and
      however the receiver's network is set up. */
  lemma UnicastDelivered(host: Host, dstMac: Mac, srcPort: u16, dstPort: u16, payload: seq<u8>, id: u16,
                         checksum: u16, pad: seq<u8>, cfg: NetConfig, accept: Ipv6 -> bool)
    requires |payload| <= MAX_DATAGRAM
    ensures var f := Frame(host, V4(cfg.ip), dstMac, srcPort, dstPort, payload, id, checksum) + pad;
            var c := Classify.Classify(f, cfg, accept);
            && c.Ip? && c.parsed.src == V4(host.cfg.ip) && c.parsed.dst == V4(cfg.ip) && c.parsed.proto == 17
            && L4(c.parsed, f).Some?
            && ReceiveDatagram(L4(c.parsed, f).value) == Some(Datagram(srcPort, dstPort, payload))
  {
    SendReceiveRoundTrip(host, V4(cfg.ip), dstMac, srcPort, dstPort, payload, id, checksum, pad, cfg, accept);
  }

  /** Any other IPv4 frame reaches a receiver exactly by the rule for its prefix. */
  lemma DeliveredExactly(host: Host, d: Ipv4, dstMac: Mac, srcPort: u16, dstPort: u16, payload: seq<u8>, id: u16,
                         checksum: u16, pad: seq<u8>, cfg: NetConfig, accept: Ipv6 -> bool, block: nat)
    requires |payload| <= MAX_DATAGRAM && PrefixMask(cfg.mask, block)
    ensures Classify.Classify(Frame(host, V4(d), dstMac, srcPort, dstPort, payload, id, checksum) + pad, cfg, accept).Ip?
       <==> d == cfg.ip || d == 0xFFFF_FFFF || cfg.ip == 0 || block == 0x1_0000_0000 || Net(d) % block == block - 1
  {
    SendReceiveRoundTrip(host, V4(d), dstMac, srcPort, dstPort, payload, id, checksum, pad, cfg, accept);
    AcceptsByPrefix(cfg, d, block);
  }

  // ── Finishing the checksum ──────────────────────────────────────────

  /** What the driver or the device does with a shipped frame: checksum the
      bytes from `start` and store the result `offset` bytes further on. */
  function Finish(frame: seq<u8>, start: nat, offset: nat): seq<u8>
    requires start + offset + 2 <= |frame|
  {
    Splice(frame, start + offset, LeBytes16(Checksum.Checksum(frame[start..])))
  }

  lemma ChecksumField(srcPort: u16, dstPort: u16, payload: seq<u8>, a: u16, b: u16)
    ensures Splice(Segment(srcPort, dstPort, payload, a), CHECKSUM_OFFSET, LeBytes16(b))
         == Segment(srcPort, dstPort, payload, b)
  {
    var head := BeBytes16(srcPort) + BeBytes16(dstPort) + BeBytes16((UDP_LEN + |payload|) % 0x1_0000);
    assert Segment(srcPort, dstPort, payload, a) == head + LeBytes16(a) + payload;
    assert Segment(srcPort, dstPort, payload, b) == head + LeBytes16(b) + payload;
    SpliceMiddle(head, LeBytes16(a), LeBytes16(b), payload);
  }

  lemma SpliceMiddle(head: seq<u8>, a: seq<u8>, b: seq<u8>, tail: seq<u8>)
    requires |a| == |b|
    ensures Splice(head + a + tail, |head|, b) == head + b + tail
  {
  }

  lemma SpliceBehind(front: seq<u8>, s: seq<u8>, at: nat, b: seq<u8>)
    requires at + |b| <= |s|
    ensures Splice(front + s, |front| + at, b) == front + Splice(s, at, b)
    ensures (front + s)[|front|..] == s
  {
  }

  /** The link and IP headers of a frame. */
  function Front(host: Host, dst: IpAddr, dstMac: Mac, udpLen: nat, id: u16): (h: seq<u8>)
    ensures |h| == ETH_LEN + IpLen(dst)
  {
    LinkHeader(host, dst, dstMac) + IpHeader(host, dst, udpLen, id)
  }

  lemma FrameSplits(host: Host, dst: IpAddr, dstMac: Mac, srcPort: u16, dstPort: u16, payload: seq<u8>, id: u16, checksum: u16)
    ensures Frame(host, dst, dstMac, srcPort, dstPort, payload, id, checksum)
         == Front(host, dst, dstMac, UDP_LEN + |payload|, id) + Segment(srcPort, dstPort, payload, checksum)
  {
    Assoc(Front(host, dst, dstMac, UDP_LEN + |payload|, id),
          UdpHeader(srcPort, dstPort, UDP_LEN + |payload|, checksum), payload);
  }

  /** Finishing works on the segment behind the headers and nothing else. */
  lemma FinishBehind(front: seq<u8>, seg: seq<u8>, at: nat)
    requires at + 2 <= |seg|
    ensures Finish(front + seg, |front|, at) == front + Splice(seg, at, LeBytes16(Checksum.Checksum(seg)))
  {
    SpliceBehind(front, seg, at, LeBytes16(Checksum.Checksum(seg)));
  }

  /** The segment a driver finishes verifies for the addresses it was stamped for. */
  lemma SegmentVerifies(host: Host, dst: IpAddr, srcPort: u16, dstPort: u16, payload: seq<u8>)
    ensures var stamped := Segment(srcPort, dstPort, payload, Partial(host, dst, UDP_LEN + |payload|));
            Checksum.L4Checksum(SourceFor(host, dst), dst, PROTO_UDP,
                                Segment(srcPort, dstPort, payload, Checksum.Checksum(stamped))) == 0
  {
    var partial := Partial(host, dst, UDP_LEN + |payload|);
    var stamped := Segment(srcPort, dstPort, payload, partial);
    ChecksumField(srcPort, dstPort, payload, partial, partial);
    ChecksumField(srcPort, dstPort, payload, partial, Checksum.Checksum(stamped));
    Checksum.FinishedVerifies(SourceFor(host, dst), dst, PROTO_UDP, stamped, CHECKSUM_OFFSET);
  }

  /** Finishing a shipped frame where the sender said to gives a frame of the
      same datagram whose UDP checksum verifies end to end. */
  lemma ShippedFrameVerifies(host: Host, dst: IpAddr, mac: Mac, srcPort: u16, dstPort: u16, payload: seq<u8>, id: u16)
    returns (checksum: u16)
    requires 0 < |payload| <= MAX_DATAGRAM
    ensures var out := Shipped(host, dst, Some(mac), srcPort, dstPort, payload, id);
            && out.Sent? && out.csumStart + out.csumOffset + 2 <= |out.frame|
            && Finish(out.frame, out.csumStart, out.csumOffset)
               == Frame(host, dst, mac, srcPort, dstPort, payload, id, checksum)
    ensures Checksum.L4Checksum(SourceFor(host, dst), dst, PROTO_UDP, Segment(srcPort, dstPort, payload, checksum)) == 0
  {
    var udpLen := UDP_LEN + |payload|;
    var partial := Partial(host, dst, udpLen);
    var front, stamped := Front(host, dst, mac, udpLen, id), Segment(srcPort, dstPort, payload, partial);
    checksum := Checksum.Checksum(stamped);
    StampedSplits(host, dst, mac, srcPort, dstPort, payload, id);
    FrameSplits(host, dst, mac, srcPort, dstPort, payload, id, checksum);
    FinishBehind(front, stamped, CHECKSUM_OFFSET);
    ChecksumField(srcPort, dstPort, payload, partial, checksum);
    SegmentVerifies(host, dst, srcPort, dstPort, payload);
  }

  lemma StampedSplits(host: Host, dst: IpAddr, mac: Mac, srcPort: u16, dstPort: u16, payload: seq<u8>, id: u16)
    ensures Stamped(host, dst, mac, srcPort, dstPort, payload, id)
         == Front(host, dst, mac, UDP_LEN + |payload|, id)
            + Segment(srcPort, dstPort, payload, Partial(host, dst, UDP_LEN + |payload|))
  {
    FrameSplits(host, dst, mac, srcPort, dstPort, payload, id, Partial(host, dst, UDP_LEN + |payload|));
  }
}
