/** The receive classifier: one Ethernet and L3 parse per frame, summarised by
    offsets into the frame rather than by slices, and the owning core computed
    from that summary. */
module Classify {
  import opened Basics
  import opened Prefix
  import opened Ip
  import FlowHash

  /** An IP packet's summary; the L4 segment is `frame[l4Off..l4Off + l4Len]`. */
  datatype ParsedL3 = ParsedL3(proto: u8, src: IpAddr, dst: IpAddr, l4Off: nat, l4Len: nat, snoop: Option<Mac>)

  datatype Classified = Arp(off: nat) | Ip(parsed: ParsedL3) | Drop

  /** Is `ip` on our own IPv4 segment? Decides whether its MAC is worth learning. */
  predicate SameSubnet(cfg: NetConfig, ip: Ipv4) {
    cfg.mask != 0 && BitAnd(ip, cfg.mask) == BitAnd(cfg.ip, cfg.mask)
  }

  function SummarizeIpv4(srcMac: Mac, l3: seq<u8>, cfg: NetConfig): Classified {
    match ParseIpv4(l3, cfg)
    case None => Drop
    case Some(p) =>
      Ip(ParsedL3(p.proto, V4(p.src), V4(p.dst), ETH_LEN + p.start, p.end - p.start,
                  if SameSubnet(cfg, p.src) then Some(srcMac) else None))
  }

  function SummarizeIpv6(srcMac: Mac, l3: seq<u8>, accept: Ipv6 -> bool): Classified {
    match ParseIpv6(l3)
    case None => Drop
    case Some(p) =>
      if !accept(p.dst) then Drop
      else Ip(ParsedL3(p.next, V6(p.src), V6(p.dst), ETH_LEN + p.start, p.end - p.start, Some(srcMac)))
  }

  function Classify(frame: seq<u8>, cfg: NetConfig, accept: Ipv6 -> bool): Classified {
    if |frame| < ETH_LEN then Drop
    else
      var ethertype := Be16(frame[12], frame[13]);
      if ethertype == ETHERTYPE_ARP then Arp(ETH_LEN)
      else if ethertype == ETHERTYPE_IPV4 then SummarizeIpv4(frame[6..12], frame[ETH_LEN..], cfg)
      else if ethertype == ETHERTYPE_IPV6 then SummarizeIpv6(frame[6..12], frame[ETH_LEN..], accept)
      else Drop
  }

  /** Re-slice the L4 segment from the frame. */
  function L4(parsed: ParsedL3, frame: seq<u8>): Option<seq<u8>> {
    if parsed.l4Off + parsed.l4Len <= |frame|
    then Some(frame[parsed.l4Off..parsed.l4Off + parsed.l4Len])
    else None
  }

  /** The re-slice of a frame by its own summary is never out of bounds. */
  lemma OffsetsInBounds(frame: seq<u8>, cfg: NetConfig, accept: Ipv6 -> bool)
    ensures var c := Classify(frame, cfg, accept);
            && (c.Arp? ==> c.off <= |frame|)
            && (c.Ip? ==> L4(c.parsed, frame).Some? && c.parsed.src.V4? == c.parsed.dst.V4?)
  {
  }

  /** Frames of type 0x0806, and no others, go to ARP, from byte 14 on. */
  lemma ArpExactly(frame: seq<u8>, cfg: NetConfig, accept: Ipv6 -> bool)
    ensures Classify(frame, cfg, accept) == Arp(14) <==> |frame| >= 14 && frame[12] == 0x08 && frame[13] == 0x06
    ensures Classify(frame, cfg, accept).Arp? ==> Classify(frame, cfg, accept) == Arp(14)
  {
  }

  /** A kept IPv4 frame by byte offset: protocol, addresses, where the segment
      lies, and whose MAC is worth learning: a sender's on our own network. */
  lemma SummaryV4(frame: seq<u8>, cfg: NetConfig, accept: Ipv6 -> bool, block: nat)
    requires |frame| >= 14 && frame[12] == 0x08 && frame[13] == 0x00 && PrefixMask(cfg.mask, block)
    ensures var c := Classify(frame, cfg, accept);
            && (c.Ip? <==> ParseIpv4(frame[14..], cfg).Some?)
            && (c.Ip? ==>
                  var p, src := c.parsed, Le32(frame[26], frame[27], frame[28], frame[29]);
                  && ReadableV4(frame[14..])
                  && p.proto == frame[23]
                  && p.src == V4(src) && p.dst == V4(Le32(frame[30], frame[31], frame[32], frame[33]))
                  && p.l4Off == 14 + 4 * (frame[14] - 0x40)
                  && p.l4Off + p.l4Len == Min(14 + Be16(frame[16], frame[17]), |frame|)
                  && p.snoop == (if block < 0x1_0000_0000 && Net(src) / block == Net(cfg.ip) / block
                                 then Some(frame[6..12]) else None))
  {
    var l3 := frame[14..];
    if ParseIpv4(l3, cfg).Some? {
      var src := Le32(l3[12], l3[13], l3[14], l3[15]);
      SameNetwork(src, cfg.ip, cfg.mask, block);
      ZeroMask(cfg.mask, block);
    }
  }

  /** The same for IPv6, whose senders are always worth learning. */
  lemma SummaryV6(frame: seq<u8>, cfg: NetConfig, accept: Ipv6 -> bool)
    requires |frame| >= 14 && frame[12] == 0x86 && frame[13] == 0xDD
    ensures var c := Classify(frame, cfg, accept);
            && (c.Ip? <==> |frame| >= 54 && 0x60 <= frame[14] < 0x70 && accept(frame[38..54]))
            && (c.Ip? ==>
                  var p := c.parsed;
                  && p.proto == frame[20] && p.src == V6(frame[22..38]) && p.dst == V6(frame[38..54])
                  && p.l4Off == 54 && p.l4Off + p.l4Len == Min(54 + Be16(frame[18], frame[19]), |frame|)
                  && p.snoop == Some(frame[6..12]))
  {
    var l3 := frame[14..];
    if |frame| >= 54 {
      assert l3[8..24] == frame[22..38] && l3[24..40] == frame[38..54];
    }
  }

  // ── The owning core ─────────────────────────────────────────────────

  function Ports(l4: seq<u8>): (u16, u16) {
    if |l4| >= 4 then (Be16(l4[0], l4[1]), Be16(l4[2], l4[3])) else (0, 0)
  }

  function Owner(parsed: ParsedL3, frame: seq<u8>, cores: u32): (core: u32)
    requires cores > 0
    ensures core < cores
  {
    var l4 := match L4(parsed, frame) case Some(s) => s case None => [];
    var (srcPort, dstPort) := Ports(l4);
    FlowHash.OwnerOf(parsed.src, parsed.dst, srcPort, dstPort, cores)
  }

  /** Two frames of one flow, as different as they like elsewhere, go to the
      same core: the same port bytes, or too few bytes for ports in both. */
  lemma OwnerFollowsFlow(p: ParsedL3, f: seq<u8>, q: ParsedL3, g: seq<u8>, cores: u32)
    requires cores > 0
    requires p.src == q.src && p.dst == q.dst
    requires L4(p, f).Some? && L4(q, g).Some?
    requires var a, b := L4(p, f).value, L4(q, g).value;
             (|a| < 4 && |b| < 4) || (|a| >= 4 && |b| >= 4 && a[..4] == b[..4])
    ensures Owner(p, f, cores) == Owner(q, g, cores)
  {
    var a, b := L4(p, f).value, L4(q, g).value;
    assert |a| >= 4 ==> a[..4][0] == b[..4][0] && a[..4][1] == b[..4][1] && a[..4][2] == b[..4][2] && a[..4][3] == b[..4][3];
  }

  /** An IPv4 frame with `words` 32-bit words of options between the fixed
      header and the ports, and anything at all after the ports. */
  function OptionedFrame(link: seq<u8>, fixed: seq<u8>, options: seq<u8>, ports: seq<u8>, rest: seq<u8>): seq<u8> {
    link + fixed + options + ports + rest
  }

  /** The core of an IPv4 frame is decided by its addresses and the four port
      bytes alone: options, trailing bytes, and a length field that runs past
      the buffer are all invisible to it. */
  lemma OwnerIgnoresOptions(link: seq<u8>, fixed: seq<u8>, options: seq<u8>, ports: seq<u8>, rest: seq<u8>,
                            cfg: NetConfig, accept: Ipv6 -> bool, cores: u32)
    requires cores > 0
    requires |link| == ETH_LEN && Be16(link[12], link[13]) == ETHERTYPE_IPV4
    requires |fixed| == IPV4_LEN && fixed[0] / 16 == 4 && fixed[0] % 16 >= 5
    requires |options| == 4 * (fixed[0] % 16) as int - IPV4_LEN && |ports| == 4
    requires Be16(fixed[2], fixed[3]) as int >= IPV4_LEN + |options| + 4
    ensures var f := OptionedFrame(link, fixed, options, ports, rest);
            var c := Classify(f, cfg, accept);
            && (c.Ip? <==> Accepts(cfg, AddressAt(fixed, 16)))
            && (c.Ip? ==>
                  Owner(c.parsed, f, cores)
                  == FlowHash.OwnerOf(V4(AddressAt(fixed, 12)), V4(AddressAt(fixed, 16)),
                                      Be16(ports[0], ports[1]), Be16(ports[2], ports[3]), cores))
  {
    var f := OptionedFrame(link, fixed, options, ports, rest);
    var l3 := fixed + options + ports + rest;
    LinkPeeled(link, l3, f);
    var c := Classify(f, cfg, accept);
    assert AddressAt(l3, 12) == AddressAt(fixed, 12) && AddressAt(l3, 16) == AddressAt(fixed, 16);
    if c.Ip? {
      Reslice(c.parsed, f, l3, IPV4_LEN + |options|, Min(Be16(fixed[2], fixed[3]), |l3|));
      PortsLead(fixed + options, ports, rest, Min(Be16(fixed[2], fixed[3]), |l3|));
    }
  }

  /** The IPv6 twin: trailing bytes and an over-long length field change nothing. */
  lemma OwnerIgnoresTail(link: seq<u8>, fixed: seq<u8>, ports: seq<u8>, rest: seq<u8>,
                         cfg: NetConfig, accept: Ipv6 -> bool, cores: u32)
    requires cores > 0
    requires |link| == ETH_LEN && Be16(link[12], link[13]) == ETHERTYPE_IPV6
    requires |fixed| == IPV6_LEN && fixed[0] / 16 == 6 && Be16(fixed[4], fixed[5]) >= 4 && |ports| == 4
    ensures var f := link + fixed + ports + rest;
            var c := Classify(f, cfg, accept);
            && (c.Ip? <==> accept(fixed[24..40]))
            && (c.Ip? ==>
                  Owner(c.parsed, f, cores)
                  == FlowHash.OwnerOf(V6(fixed[8..24]), V6(fixed[24..40]),
                                      Be16(ports[0], ports[1]), Be16(ports[2], ports[3]), cores))
  {
    var f := link + fixed + ports + rest;
    var l3 := fixed + ports + rest;
    LinkPeeled(link, l3, f);
    var c := Classify(f, cfg, accept);
    assert l3[8..24] == fixed[8..24] && l3[24..40] == fixed[24..40];
    assert l3[0] == fixed[0] && l3[4] == fixed[4] && l3[5] == fixed[5];
    if c.Ip? {
      var length := Be16(fixed[4], fixed[5]);
      Reslice(c.parsed, f, l3, IPV6_LEN, Min(IPV6_LEN + length, |l3|));
      PortsLead(fixed, ports, rest, Min(IPV6_LEN + length, |l3|));
    }
  }

  lemma PortsLead(head: seq<u8>, ports: seq<u8>, rest: seq<u8>, end: nat)
    requires |ports| == 4 && |head| + 4 <= end <= |head| + 4 + |rest|
    ensures var l4 := (head + ports + rest)[|head|..end];
            l4[0] == ports[0] && l4[1] == ports[1] && l4[2] == ports[2] && l4[3] == ports[3]
  {
  }

  /** Re-slicing the frame by offsets is slicing the packet behind the link header. */
  lemma Reslice(parsed: ParsedL3, f: seq<u8>, l3: seq<u8>, start: nat, end: nat)
    requires |f| >= ETH_LEN && f[ETH_LEN..] == l3 && start <= end <= |l3|
    requires parsed.l4Off == ETH_LEN + start && parsed.l4Len == end - start
    ensures L4(parsed, f) == Some(l3[start..end])
  {
    assert f[ETH_LEN + start..ETH_LEN + end] == f[ETH_LEN..][start..end];
  }

  lemma LinkPeeled(link: seq<u8>, l3: seq<u8>, f: seq<u8>)
    requires |link| == ETH_LEN
    requires |f| == |link| + |l3|
    requires forall k :: 0 <= k < |f| ==> f[k] == if k < ETH_LEN then link[k] else l3[k - ETH_LEN]
    ensures f[ETH_LEN..] == l3 && f[..ETH_LEN] == link && f[6..12] == link[6..12]
  {
  }
}
