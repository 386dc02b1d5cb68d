/** Ethernet, IPv4 and IPv6 headers: what the in-place writers put on the wire
    and what the parsers read back. */
module Ip {
  import opened Basics
  import opened Prefix
  import Checksum

  const ETHERTYPE_ARP: u16 := 0x0806
  const ETHERTYPE_IPV4: u16 := 0x0800
  const ETHERTYPE_IPV6: u16 := 0x86DD
  const ETH_LEN := 14
  const IPV4_LEN := 20
  const IPV6_LEN := 40
  const IPV6_MAX_PAYLOAD := 1460

  // ── Wire formats ────────────────────────────────────────────────────

  function EthernetHeader(dst: Mac, src: Mac, ethertype: u16): (h: seq<u8>)
    ensures |h| == ETH_LEN
  {
    dst + src + BeBytes16(ethertype)
  }

  /** An option-less IPv4 header around the given checksum bytes. */
  function Ipv4Fields(src: Ipv4, dst: Ipv4, proto: u8, total: u16, id: u16, checksum: seq<u8>): (h: seq<u8>)
    requires |checksum| == 2
    ensures |h| == IPV4_LEN
  {
    [0x45, 0] + BeBytes16(total) + BeBytes16(id) + [0x40, 0, 64, proto] + checksum + Octets4(src) + Octets4(dst)
  }

  function Ipv4Header(src: Ipv4, dst: Ipv4, proto: u8, total: u16, id: u16): (h: seq<u8>)
    ensures |h| == IPV4_LEN
  {
    var sum := Checksum.Checksum(Ipv4Fields(src, dst, proto, total, id, [0, 0]));
    Ipv4Fields(src, dst, proto, total, id, LeBytes16(sum))
  }

  function Ipv6Header(src: Ipv6, dst: Ipv6, next: u8, hopLimit: u8, length: u16): (h: seq<u8>)
    ensures |h| == IPV6_LEN
  {
    [0x60, 0, 0, 0] + BeBytes16(length) + [next, hopLimit] + src + dst
  }

  lemma ChecksumFieldSpliced(src: Ipv4, dst: Ipv4, proto: u8, total: u16, id: u16, a: seq<u8>, b: seq<u8>)
    requires |a| == 2 && |b| == 2
    ensures Splice(Ipv4Fields(src, dst, proto, total, id, a), 10, b) == Ipv4Fields(src, dst, proto, total, id, b)
  {
    var head := [0x45, 0] + BeBytes16(total) + BeBytes16(id) + [0x40, 0, 64, proto];
    var tail := Octets4(src) + Octets4(dst);
    assert Ipv4Fields(src, dst, proto, total, id, a) == head + a + tail;
    assert Ipv4Fields(src, dst, proto, total, id, b) == head + b + tail;
  }

  /** Every IPv4 header written sums to checksum 0. */
  lemma Ipv4HeaderVerifies(src: Ipv4, dst: Ipv4, proto: u8, total: u16, id: u16)
    ensures Checksum.Checksum(Ipv4Header(src, dst, proto, total, id)) == 0
  {
    var zeroed := Ipv4Fields(src, dst, proto, total, id, [0, 0]);
    var sum := Checksum.Checksum(zeroed);
    ChecksumFieldSpliced(src, dst, proto, total, id, [0, 0], [0, 0]);
    ChecksumFieldSpliced(src, dst, proto, total, id, [0, 0], LeBytes16(sum));
    Checksum.PlainSealVerifies(zeroed, 10);
  }

  // ── In-place writers ────────────────────────────────────────────────

  /** One core's IPv4 identification counter. */
  class IpIdSlot {
    var next: u16

    constructor ()
      ensures next == 0
    {
      next := 0;
    }

    method Take() returns (id: u16)
      modifies this
      ensures id == old(next) && next == (old(next) + 1) % 0x1_0000
    {
      id := next;
      next := (next + 1) % 0x1_0000;
    }
  }

  method FillEthernetHeader(buf: array<u8>, off: nat, dst: Mac, src: Mac, ethertype: u16)
    requires off + ETH_LEN <= buf.Length
    modifies buf
    ensures buf[..] == Splice(old(buf[..]), off, EthernetHeader(dst, src, ethertype))
  {
    ghost var was := buf[..];
    CopyInto(buf, off, dst);
    CopyInto(buf, off + 6, src);
    SpliceJoin(was, off, dst, src);
    CopyInto(buf, off + 12, BeBytes16(ethertype));
    SpliceJoin(was, off, dst + src, BeBytes16(ethertype));
  }

  method FillIpv4Header(buf: array<u8>, off: nat, src: Ipv4, dst: Ipv4, proto: u8, total: u16, ids: IpIdSlot)
    requires off + IPV4_LEN <= buf.Length
    modifies buf, ids
    ensures buf[..] == Splice(old(buf[..]), off, Ipv4Header(src, dst, proto, total, old(ids.next)))
    ensures ids.next == (old(ids.next) + 1) % 0x1_0000
    ensures Checksum.Checksum(buf[off..off + IPV4_LEN]) == 0
  {
    ghost var was := buf[..];
    var id := ids.Take();
    assert buf[..] == was;
    CopyInto(buf, off, Ipv4Fields(src, dst, proto, total, id, [0, 0]));
    ghost var zeroed := Ipv4Fields(src, dst, proto, total, id, [0, 0]);
    assert buf[off..off + IPV4_LEN] == zeroed;
    var sum := Checksum.InternetChecksum(buf[off..off + IPV4_LEN]);
    CopyInto(buf, off + 10, LeBytes16(sum));
    ChecksumFieldSpliced(src, dst, proto, total, id, [0, 0], LeBytes16(sum));
    SpliceWithin(was, off, zeroed, 10, LeBytes16(sum));
    Ipv4HeaderVerifies(src, dst, proto, total, id);
    assert buf[off..off + IPV4_LEN] == Ipv4Header(src, dst, proto, total, id);
  }

  /** Overwriting part of what an overwrite placed. */
  lemma SpliceWithin(s: seq<u8>, off: nat, a: seq<u8>, at: nat, b: seq<u8>)
    requires off + |a| <= |s| && at + |b| <= |a|
    ensures Splice(Splice(s, off, a), off + at, b) == Splice(s, off, Splice(a, at, b))
  {
  }

  method FillIpv6Header(buf: array<u8>, off: nat, src: Ipv6, dst: Ipv6, next: u8, hopLimit: u8, length: u16)
    requires off + IPV6_LEN <= buf.Length
    modifies buf
    ensures buf[..] == Splice(old(buf[..]), off, Ipv6Header(src, dst, next, hopLimit, length))
  {
    ghost var was := buf[..];
    var fixed := [0x60, 0, 0, 0] + BeBytes16(length) + [next, hopLimit];
    CopyInto(buf, off, fixed);
    CopyInto(buf, off + 8, src);
    SpliceJoin(was, off, fixed, src);
    CopyInto(buf, off + 24, dst);
    SpliceJoin(was, off, fixed + src, dst);
  }

  method BuildIpv6(src: Ipv6, dst: Ipv6, next: u8, hopLimit: u8, payload: seq<u8>, out: array<u8>)
    returns (n: Option<nat>)
    modifies out
    ensures n.None? <==> |payload| > 1460 || out.Length < IPV6_LEN + |payload|
    ensures n.None? ==> out[..] == old(out[..])
    ensures n.Some? ==>
      n.value == IPV6_LEN + |payload|
      && out[..] == Splice(old(out[..]), 0, Ipv6Header(src, dst, next, hopLimit, |payload|) + payload)
  {
    if |payload| > IPV6_MAX_PAYLOAD { return None; }
    var total := IPV6_LEN + |payload|;
    if out.Length < total { return None; }
    FillIpv6Header(out, 0, src, dst, next, hopLimit, |payload|);
    CopyInto(out, IPV6_LEN, payload);
    SpliceJoin(old(out[..]), 0, Ipv6Header(src, dst, next, hopLimit, |payload|), payload);
    return Some(total);
  }

  // ── Parsers ─────────────────────────────────────────────────────────

  /** What an L3 parse extracts. The payload slice of the input is recorded by
      its bounds: `data[start..end]`. */
  datatype Ipv4Packet = Ipv4Packet(src: Ipv4, dst: Ipv4, proto: u8, start: nat, end: nat)

  datatype Ipv6Packet = Ipv6Packet(src: Ipv6, dst: Ipv6, next: u8, hopLimit: u8, start: nat, end: nat)

  function AddressAt(data: seq<u8>, off: nat): Ipv4
    requires off + 4 <= |data|
  {
    Le32(data[off], data[off + 1], data[off + 2], data[off + 3])
  }

  /** The destination rule: our own address, a broadcast, or anything at all
      while the interface has no address or no mask. */
  predicate Accepts(cfg: NetConfig, dst: Ipv4) {
    || dst == cfg.ip
    || dst == BROADCAST_V4
    || cfg.ip == ANY_V4
    || cfg.mask == 0
    || BitAnd(dst, Not32(cfg.mask)) == Not32(cfg.mask)
  }

  function ParseIpv4(data: seq<u8>, cfg: NetConfig): (r: Option<Ipv4Packet>)
    ensures r.Some? ==> IPV4_LEN <= r.value.start <= r.value.end <= |data|
  {
    if |data| < IPV4_LEN || data[0] / 16 != 4 || data[0] % 16 < 5 then None
    else
      var headerLen := 4 * (data[0] % 16) as int;
      var total := Be16(data[2], data[3]);
      if total < headerLen || headerLen > |data| then None
      else
        var dst := AddressAt(data, 16);
        if !Accepts(cfg, dst) then None
        else Some(Ipv4Packet(AddressAt(data, 12), dst, data[9], headerLen, Min(total, |data|)))
  }

  /** An IPv4 header the parser can read: at least 20 bytes, version 4, and a
      header length that both the total length and the buffer can hold. */
  predicate ReadableV4(data: seq<u8>) {
    && |data| >= 20 && 0x45 <= data[0] <= 0x4F
    && 4 * (data[0] - 0x40) <= Be16(data[2], data[3]) && 4 * (data[0] - 0x40) <= |data|
  }

  /** A readable packet is kept exactly when its destination is our address or
      255.255.255.255, when the interface has no address or no mask, or when every
      bit outside the mask is one. */
  lemma KeptExactly(data: seq<u8>, cfg: NetConfig)
    ensures ParseIpv4(data, cfg).Some?
       <==> && ReadableV4(data)
            && var d := Le32(data[16], data[17], data[18], data[19]);
               || d == cfg.ip || d == 0xFFFF_FFFF || cfg.ip == 0 || cfg.mask == 0
               || OnesOutside(d, cfg.mask)
  {
    ParseSucceeds(data, cfg);
    if ReadableV4(data) {
      AcceptsByBits(cfg, Le32(data[16], data[17], data[18], data[19]));
    }
  }

  lemma ParseSucceeds(data: seq<u8>, cfg: NetConfig)
    ensures ParseIpv4(data, cfg).Some? <==> ReadableV4(data) && Accepts(cfg, AddressAt(data, 16))
  {
    if |data| >= 20 {
      assert data[0] / 16 == 4 && data[0] % 16 >= 5 <==> 0x45 <= data[0] <= 0x4F;
    }
  }

  lemma AcceptsByBits(cfg: NetConfig, d: Ipv4)
    ensures Accepts(cfg, d)
       <==> d == cfg.ip || d == 0xFFFF_FFFF || cfg.ip == 0 || cfg.mask == 0 || OnesOutside(d, cfg.mask)
  {
    OutsideMask(d, cfg.mask);
  }

  /** The same for a network prefix, in network order: the last case is the last
      address of any block of that size, ours or not. */
  lemma KeptByPrefix(data: seq<u8>, cfg: NetConfig, block: nat)
    requires ReadableV4(data) && PrefixMask(cfg.mask, block)
    ensures var d := Le32(data[16], data[17], data[18], data[19]);
            ParseIpv4(data, cfg).Some?
            <==> || d == cfg.ip || d == 0xFFFF_FFFF || cfg.ip == 0 || block == 0x1_0000_0000
                 || Net(d) % block == block - 1
  {
    ParseSucceeds(data, cfg);
    AcceptsByPrefix(cfg, Le32(data[16], data[17], data[18], data[19]), block);
  }

  lemma AcceptsByPrefix(cfg: NetConfig, d: Ipv4, block: nat)
    requires PrefixMask(cfg.mask, block)
    ensures Accepts(cfg, d)
       <==> d == cfg.ip || d == 0xFFFF_FFFF || cfg.ip == 0 || block == 0x1_0000_0000 || Net(d) % block == block - 1
  {
    ZeroMask(cfg.mask, block);
    if block <= 0xFFFF_FFFF {
      HostBitsOnes(d, cfg.mask, block);
    }
  }

  /** Our own address, a limited broadcast, or the broadcast address of our network. */
  predicate ForUs(cfg: NetConfig, d: Ipv4, block: nat)
    requires block > 0
  {
    d == cfg.ip || d == 0xFFFF_FFFF || (Net(d) / block == Net(cfg.ip) / block && Net(d) % block == block - 1)
  }

  /** Packets for us are always kept. A configured interface keeps exactly these
      others: the last address of a block of another network. Under a 32-bit
      prefix that is every address there is. */
  lemma KeptBeyondUs(data: seq<u8>, cfg: NetConfig, block: nat)
    requires ReadableV4(data) && PrefixMask(cfg.mask, block)
    ensures var d := Le32(data[16], data[17], data[18], data[19]);
            && (ForUs(cfg, d, block) ==> ParseIpv4(data, cfg).Some?)
            && (cfg.ip != 0 && cfg.mask != 0 ==>
                  (ParseIpv4(data, cfg).Some? && !ForUs(cfg, d, block)
                   <==> d != 0xFFFF_FFFF && Net(d) % block == block - 1 && Net(d) / block != Net(cfg.ip) / block))
  {
    KeptByPrefix(data, cfg, block);
    ZeroMask(cfg.mask, block);
  }

  /** The 32-bit prefix: the destination is not looked at. */
  lemma HostPrefixKeepsAll(data: seq<u8>, cfg: NetConfig)
    requires ReadableV4(data) && cfg.mask == 0xFFFF_FFFF
    ensures ParseIpv4(data, cfg).Some?
  {
    assert Not32(cfg.mask) == 0;
  }

  /** A concrete one: 192.168.1.2/24 keeps a packet for 10.9.9.255. */
  lemma ForeignBroadcastKept(data: seq<u8>, gateway: Ipv4, dns: Ipv4)
    requires ReadableV4(data) && data[16..20] == [10, 9, 9, 255]
    ensures ParseIpv4(data, NetConfig(0x0201_A8C0, 0x00FF_FFFF, gateway, dns)).Some?
    ensures !ForUs(NetConfig(0x0201_A8C0, 0x00FF_FFFF, gateway, dns), Le32(10, 9, 9, 255), 0x100)
  {
    assert data[16..20][0] == 10 && data[16..20][1] == 9 && data[16..20][2] == 9 && data[16..20][3] == 255;
    PrefixOf24();
    ForeignBroadcast();
    KeptByPrefix(data, NetConfig(0x0201_A8C0, 0x00FF_FFFF, gateway, dns), 0x100);
  }

  lemma ForeignBroadcast()
    ensures Net(Le32(10, 9, 9, 255)) == 0x0A09_09FF && Net(0x0201_A8C0) == 0xC0A8_0102
  {
    NetOf(10, 9, 9, 255);
    NetOf(192, 168, 1, 2);
  }

  lemma PrefixOf24()
    ensures PrefixMask(0x00FF_FFFF, 0x100)
  {
    NetOf(255, 255, 255, 0);
    assert IsPow2(16);
    Pow2Times(16, 16);
  }

  function ParseIpv6(data: seq<u8>): (r: Option<Ipv6Packet>)
    ensures r.Some? ==> IPV6_LEN == r.value.start <= r.value.end <= |data|
  {
    if |data| < IPV6_LEN || data[0] / 16 != 6 then None
    else
      var length := Be16(data[4], data[5]);
      Some(Ipv6Packet(data[8..24], data[24..40], data[6], data[7], IPV6_LEN, Min(IPV6_LEN + length, |data|)))
  }

  lemma Be16Bytes(v: u16)
    ensures Be16(BeBytes16(v)[0], BeBytes16(v)[1]) == v
  {
  }

  /** Parsing what `FillIpv4Header` wrote recovers every field it was given,
      and trims whatever trails the packet. */
  lemma Ipv4RoundTrip(src: Ipv4, dst: Ipv4, proto: u8, total: u16, id: u16, rest: seq<u8>, cfg: NetConfig)
    requires IPV4_LEN <= total
    ensures ParseIpv4(Ipv4Header(src, dst, proto, total, id) + rest, cfg)
         == if Accepts(cfg, dst) then Some(Ipv4Packet(src, dst, proto, IPV4_LEN, Min(total, IPV4_LEN + |rest|))) else None
  {
    var h := Ipv4Header(src, dst, proto, total, id);
    var data := h + rest;
    Be16Bytes(total);
    assert data[2..4] == BeBytes16(total);
    assert data[12..16] == Octets4(src);
    assert data[16..20] == Octets4(dst);
    assert data[0] == 0x45 && data[9] == proto;
  }

  lemma Ipv6RoundTrip(src: Ipv6, dst: Ipv6, next: u8, hopLimit: u8, length: u16, rest: seq<u8>)
    ensures ParseIpv6(Ipv6Header(src, dst, next, hopLimit, length) + rest)
         == Some(Ipv6Packet(src, dst, next, hopLimit, IPV6_LEN, IPV6_LEN + Min(length, |rest|)))
  {
    var data := Ipv6Header(src, dst, next, hopLimit, length) + rest;
    Be16Bytes(length);
    assert data[4..6] == BeBytes16(length);
    assert data[8..24] == src;
    assert data[24..40] == dst;
    assert data[0] == 0x60 && data[6] == next && data[7] == hopLimit;
  }
}
