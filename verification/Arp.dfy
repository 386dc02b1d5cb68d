/** The ARP caches: the shared 64-entry table with its gateway shortcut, the
    per-core fast slots, and the routing decision they serve. */
module Arp {
  import opened Basics
  import opened Prefix

  const ARP_CACHE_SIZE: nat := 64

  datatype ArpEntry = ArpEntry(ip: Ipv4, mac: Mac, valid: bool)

  const EMPTY_ENTRY := ArpEntry(ANY_V4, MAC_ZERO, false)

  // ── The shared table as a value ─────────────────────────────────────

  predicate Holds(e: ArpEntry, ip: Ipv4) {
    e.valid && e.ip == ip
  }

  /** Index of the first valid entry for `ip`, or `|es|`. */
  function FirstMatch(es: seq<ArpEntry>, ip: Ipv4): (i: nat)
    ensures i <= |es|
    ensures forall k :: 0 <= k < i ==> !Holds(es[k], ip)
    ensures i < |es| ==> Holds(es[i], ip)
  {
    FirstIndex(es, (e: ArpEntry) => Holds(e, ip))
  }

  /** Index of the first invalid entry, or `|es|`. */
  function FirstFree(es: seq<ArpEntry>): (i: nat)
    ensures i <= |es|
    ensures forall k :: 0 <= k < i ==> es[k].valid
    ensures i < |es| ==> !es[i].valid
  {
    FirstIndex(es, (e: ArpEntry) => !e.valid)
  }

  function Lookup(es: seq<ArpEntry>, ip: Ipv4): Option<Mac> {
    var i := FirstMatch(es, ip);
    if i < |es| then Some(es[i].mac) else None
  }

  /** The slot an update writes: the entry's own, else the first free, else slot 0. */
  function Victim(es: seq<ArpEntry>, ip: Ipv4): (i: nat)
    requires |es| > 0
    ensures i < |es|
  {
    var m, f := FirstMatch(es, ip), FirstFree(es);
    if m < |es| then m else if f < |es| then f else 0
  }

  function Update(es: seq<ArpEntry>, ip: Ipv4, mac: Mac): (r: seq<ArpEntry>)
    requires |es| > 0
    ensures |r| == |es|
  {
    es[Victim(es, ip) := ArpEntry(ip, mac, true)]
  }

  /** No IP has two valid entries. */
  ghost predicate Distinct(es: seq<ArpEntry>) {
    forall i, j :: 0 <= i < j < |es| && es[i].valid && es[j].valid ==> es[i].ip != es[j].ip
  }

  ghost predicate Full(es: seq<ArpEntry>) {
    forall i :: 0 <= i < |es| ==> es[i].valid
  }

  lemma LookupHit(es: seq<ArpEntry>, i: nat)
    requires Distinct(es) && i < |es| && es[i].valid
    ensures Lookup(es, es[i].ip) == Some(es[i].mac)
  {
    var m := FirstMatch(es, es[i].ip);
    assert m <= i;
  }

  lemma UpdateKeepsDistinct(es: seq<ArpEntry>, ip: Ipv4, mac: Mac)
    requires Distinct(es) && |es| > 0
    ensures Distinct(Update(es, ip, mac))
  {
    var v := Victim(es, ip);
    assert forall k :: 0 <= k < |es| && k != v ==> !Holds(es[k], ip);
  }

  /** What an update does to every lookup: the new pair is found, every other
      pair stays unless a full table gave up slot 0 for it. */
  lemma UpdateLookup(es: seq<ArpEntry>, ip: Ipv4, mac: Mac, x: Ipv4)
    requires Distinct(es) && |es| > 0
    ensures var r := Update(es, ip, mac);
            && Lookup(r, ip) == Some(mac)
            && (x != ip ==>
                  || Lookup(r, x) == Lookup(es, x)
                  || (Lookup(r, x).None? && Full(es) && Lookup(es, ip).None? && es[0].ip == x))
  {
    var r, v := Update(es, ip, mac), Victim(es, ip);
    UpdateKeepsDistinct(es, ip, mac);
    LookupHit(r, v);
    if x != ip {
      var a, b := FirstMatch(es, x), FirstMatch(r, x);
      if b < |r| {
        assert r[b] == es[b];
        LookupHit(es, b);
      } else if a < |es| {
        assert r[a] == es[a] || a == v;
      }
    }
  }

  /** Once every slot is valid, only slot 0 can change its IP. */
  lemma FullKeepsIps(es: seq<ArpEntry>, ip: Ipv4, mac: Mac)
    requires Full(es) && |es| > 0
    ensures Full(Update(es, ip, mac))
    ensures forall i :: 1 <= i < |es| ==> Update(es, ip, mac)[i].ip == es[i].ip
  {
  }

  // ── Routing ─────────────────────────────────────────────────────────

  /** The next hop for `dest`, or `None` when it is off-link and no gateway is known. */
  function NextHop(dest: Ipv4, cfg: NetConfig): Option<Ipv4> {
    if dest == BROADCAST_V4 then Some(dest)
    else if BitAnd(dest, cfg.mask) == BitAnd(cfg.ip, cfg.mask) then Some(dest)
    else if cfg.gateway != ANY_V4 then Some(cfg.gateway)
    else None
  }

  /** Routing by network prefix: our own block and the limited broadcast are
      reached directly, everything else through the gateway, if there is one. */
  lemma NextHopByPrefix(dest: Ipv4, cfg: NetConfig, block: nat)
    requires PrefixMask(cfg.mask, block)
    ensures NextHop(dest, cfg)
         == if dest == 0xFFFF_FFFF || Net(dest) / block == Net(cfg.ip) / block then Some(dest)
            else if cfg.gateway == 0 then None
            else Some(cfg.gateway)
  {
    SameNetwork(dest, cfg.ip, cfg.mask, block);
  }

  // ── Fast slots ──────────────────────────────────────────────────────

  /** One core's cache line: the IP tag and the MAC packed into the low 48 bits. */
  datatype FastSlot = FastSlot(ip: u32, mac: u64)

  function Pow256(n: nat): nat {
    if n == 0 then 1 else 0x100 * Pow256(n - 1)
  }

  /** Bytes packed little-endian: byte `i` occupies bits `8i..8i+8`. */
  function Pack(b: seq<u8>): (v: nat)
    ensures v < Pow256(|b|)
  {
    if b == [] then 0 else b[0] as int + 0x100 * Pack(b[1..])
  }

  function Unpack(v: nat, n: nat): (b: seq<u8>)
    ensures |b| == n
  {
    if n == 0 then [] else [v % 0x100] + Unpack(v / 0x100, n - 1)
  }

  lemma {:induction false} UnpackPack(b: seq<u8>)
    ensures Unpack(Pack(b), |b|) == b
  {
    if b != [] {
      UnpackPack(b[1..]);
      assert Pack(b) / 0x100 == Pack(b[1..]);
    }
  }

  function PackMac(m: Mac): u64 {
    assert Pow256(6) == 0x100 * (0x100 * Pow256(4)) && Pow256(4) == 0x1_0000_0000 by {
      assert Pow256(2) == 0x1_0000;
      assert Pow256(4) == 0x100 * (0x100 * Pow256(2));
    }
    Pack(m)
  }

  function UnpackMac(v: u64): Mac {
    Unpack(v, 6)
  }

  /** Everything a core can see: the shared table, the gateway's MAC once it
      has been heard, and one fast slot per core. */
  datatype ArpState = ArpState(entries: seq<ArpEntry>, gateway: Option<Mac>, fast: seq<FastSlot>)

  function FastLookup(st: ArpState, core: nat, ip: Ipv4): Option<Mac> {
    if ip == ANY_V4 || core >= |st.fast| || st.fast[core].ip != ip then None
    else Some(UnpackMac(st.fast[core].mac))
  }

  function FastStore(st: ArpState, core: nat, ip: Ipv4, mac: Mac): ArpState {
    if core >= |st.fast| then st
    else st.(fast := st.fast[core := FastSlot(ip, PackMac(mac))])
  }

  lemma FastStoreThenLookup(st: ArpState, core: nat, ip: Ipv4, mac: Mac)
    requires ip != ANY_V4 && core < |st.fast|
    ensures FastLookup(FastStore(st, core, ip, mac), core, ip) == Some(mac)
  {
    UnpackPack(mac);
  }

  // ── Packets ─────────────────────────────────────────────────────────

  const ARP_REQUEST: u16 := 1
  const ARP_REPLY: u16 := 2

  datatype ArpPacket = ArpPacket(op: u16, senderMac: Mac, senderIp: Ipv4, targetMac: Mac, targetIp: Ipv4)

  function Encode(p: ArpPacket): (b: seq<u8>)
    ensures |b| == 28
  {
    [0, 1, 8, 0, 6, 4] + BeBytes16(p.op) + p.senderMac + Octets4(p.senderIp) + p.targetMac + Octets4(p.targetIp)
  }

  /** Only the length is checked; hardware and protocol fields are ignored. */
  function Decode(data: seq<u8>): Option<ArpPacket> {
    if |data| < 28 then None
    else Some(ArpPacket(Be16(data[6], data[7]), data[8..14], Le32(data[14], data[15], data[16], data[17]),
                        data[18..24], Le32(data[24], data[25], data[26], data[27])))
  }

  /** Ethernet padding after an ARP packet does not matter. */
  lemma DecodeEncode(p: ArpPacket, pad: seq<u8>)
    ensures Decode(Encode(p) + pad) == Some(p)
  {
    var d := Encode(p) + pad;
    assert d[6..8] == BeBytes16(p.op);
    assert d[8..14] == p.senderMac;
    assert d[14..18] == Octets4(p.senderIp);
    assert d[18..24] == p.targetMac;
    assert d[24..28] == Octets4(p.targetIp);
    assert d[6] == d[6..8][0] && d[7] == d[6..8][1];
    assert forall k :: 0 <= k < 4 ==> d[14 + k] == d[14..18][k] && d[24 + k] == d[24..28][k];
  }

  // ── Operations on the state ─────────────────────────────────────────

  function Receive(st: ArpState, cfg: NetConfig, core: nat, data: seq<u8>): (r: ArpState)
    requires |st.entries| > 0
    ensures |r.entries| == |st.entries| && |r.fast| == |st.fast|
  {
    match Decode(data)
    case None => st
    case Some(p) =>
      if p.senderIp == ANY_V4 then st
      else
        var learned := st.(entries := Update(st.entries, p.senderIp, p.senderMac),
                           gateway := if p.senderIp == cfg.gateway then Some(p.senderMac) else st.gateway);
        FastStore(learned, core, p.senderIp, p.senderMac)
  }

  /** The reply frame's target and packet, when the packet asks for our address. */
  function Reply(cfg: NetConfig, ourMac: Mac, data: seq<u8>): Option<(Mac, seq<u8>)> {
    match Decode(data)
    case None => None
    case Some(p) =>
      if p.op == ARP_REQUEST && p.targetIp == cfg.ip && cfg.ip != ANY_V4
      then Some((p.senderMac, Encode(ArpPacket(ARP_REPLY, ourMac, cfg.ip, p.senderMac, p.senderIp))))
      else None
  }

  /** A packet is answered exactly when it asks for our configured address, and
      whoever receives the answer then maps that address to our MAC. */
  lemma ReplyTeachesAsker(cfg: NetConfig, ourMac: Mac, data: seq<u8>, asker: ArpState, askerCfg: NetConfig, core: nat, pad: seq<u8>)
    requires |asker.entries| > 0 && Distinct(asker.entries)
    ensures Reply(cfg, ourMac, data).Some?
       <==> && Decode(data).Some? && Decode(data).value.op == ARP_REQUEST
            && Decode(data).value.targetIp == cfg.ip != ANY_V4
    ensures Reply(cfg, ourMac, data).Some? ==>
              var (to, packet) := Reply(cfg, ourMac, data).value;
              && to == Decode(data).value.senderMac
              && Lookup(Receive(asker, askerCfg, core, packet + pad).entries, cfg.ip) == Some(ourMac)
  {
    if Reply(cfg, ourMac, data).Some? {
      var p := Decode(data).value;
      DecodeEncode(ArpPacket(ARP_REPLY, ourMac, cfg.ip, p.senderMac, p.senderIp), pad);
      UpdateLookup(asker.entries, cfg.ip, ourMac, cfg.ip);
    }
  }

  /** The reply by the byte offsets of RFC 826: who is answered, with what. */
  lemma ReplyOnWire(cfg: NetConfig, ourMac: Mac, data: seq<u8>)
    ensures Reply(cfg, ourMac, data).Some?
       <==> |data| >= 28 && data[6] == 0 && data[7] == 1 && data[24..28] == Octets4(cfg.ip) && cfg.ip != 0
    ensures Reply(cfg, ourMac, data).Some? ==>
              var (to, packet) := Reply(cfg, ourMac, data).value;
              && to == data[8..14] && |packet| == 28
              && packet[0..8] == [0, 1, 8, 0, 6, 4, 0, 2]
              && packet[8..14] == ourMac && packet[14..18] == Octets4(cfg.ip)
              && packet[18..24] == data[8..14] && packet[24..28] == data[14..18]
  {
    if |data| >= 28 {
      AddressField(data, 24, cfg.ip);
      AddressField(data, 14, Decode(data).value.senderIp);
      if Reply(cfg, ourMac, data).Some? {
        EncodedBytes(ArpPacket(ARP_REPLY, ourMac, cfg.ip, Decode(data).value.senderMac, Decode(data).value.senderIp));
      }
    }
  }

  lemma AddressField(data: seq<u8>, off: nat, ip: Ipv4)
    requires off + 4 <= |data|
    ensures data[off..off + 4] == Octets4(ip) <==> Le32(data[off], data[off + 1], data[off + 2], data[off + 3]) == ip
  {
    OctetsOfLe32(data[off], data[off + 1], data[off + 2], data[off + 3]);
    assert data[off..off + 4] == [data[off], data[off + 1], data[off + 2], data[off + 3]];
  }

  lemma EncodedBytes(p: ArpPacket)
    ensures var b := Encode(p);
            && b[0..6] == [0, 1, 8, 0, 6, 4] && b[6..8] == BeBytes16(p.op)
            && b[0..8] == [0, 1, 8, 0, 6, 4] + BeBytes16(p.op)
            && b[8..14] == p.senderMac && b[14..18] == Octets4(p.senderIp)
            && b[18..24] == p.targetMac && b[24..28] == Octets4(p.targetIp)
  {
  }

  function Learn(st: ArpState, core: nat, ip: Ipv4, mac: Mac): ArpState {
    if ip == ANY_V4 || ip == BROADCAST_V4 || mac == MAC_BROADCAST || mac == MAC_ZERO then st
    else FastStore(st, core, ip, mac)
  }

  datatype Probe = Answer(mac: Mac) | NoAnswer | Request(target: Ipv4)

  /** `arp_resolve` up to the point where it would put a request on the wire. */
  function Resolve(st: ArpState, cfg: NetConfig, core: nat, ip: Ipv4): (Probe, ArpState) {
    if ip == BROADCAST_V4 then (Answer(MAC_BROADCAST), st)
    else if ip == ANY_V4 then (NoAnswer, st)
    else
      match FastLookup(st, core, ip)
      case Some(mac) => (Answer(mac), st)
      case None =>
        var target := match NextHop(ip, cfg) case Some(h) => h case None => ip;
        if target != ip && st.gateway.Some? then
          (Answer(st.gateway.value), FastStore(st, core, ip, st.gateway.value))
        else
          match Lookup(st.entries, target)
          case Some(mac) => (Answer(mac), FastStore(st, core, ip, mac))
          case None => (Request(target), st)
  }

  // ── The live object ─────────────────────────────────────────────────

  class ArpStack {
    const cfg: NetConfig
    const ourMac: Mac
    const entries: array<ArpEntry>
    const fastIp: array<u32>
    const fastMac: array<u64>
    var gatewayMac: Mac
    var gatewayMacValid: bool

    ghost predicate Valid()
      reads this
    {
      && entries.Length == ARP_CACHE_SIZE
      && fastIp.Length == fastMac.Length
      && fastIp as object != fastMac
    }

    ghost function State(): (st: ArpState)
      requires Valid()
      reads this, entries, fastIp, fastMac
      ensures |st.entries| == ARP_CACHE_SIZE && |st.fast| == fastIp.Length
    {
      ArpState(entries[..], if gatewayMacValid then Some(gatewayMac) else None,
               seq(fastIp.Length, i requires 0 <= i < fastIp.Length && Valid() reads this, fastIp, fastMac =>
                 FastSlot(fastIp[i], fastMac[i])))
    }

    constructor (cfg: NetConfig, ourMac: Mac, cores: nat)
      ensures Valid() && this.cfg == cfg && this.ourMac == ourMac
      ensures fresh(entries) && fresh(fastIp) && fresh(fastMac)
      ensures State() == Initial(cores)
    {
      this.cfg := cfg;
      this.ourMac := ourMac;
      entries := new ArpEntry[ARP_CACHE_SIZE](_ => EMPTY_ENTRY);
      fastIp := new u32[cores](_ => 0);
      fastMac := new u64[cores](_ => 0);
      gatewayMac, gatewayMacValid := MAC_ZERO, false;
      new;
      assert entries[..] == seq(ARP_CACHE_SIZE, _ => EMPTY_ENTRY);
    }

    method CacheLookup(ip: Ipv4) returns (r: Option<Mac>)
      requires Valid()
      ensures r == Lookup(entries[..], ip)
    {
      var i := 0;
      while i < entries.Length
        invariant 0 <= i <= entries.Length
        invariant forall k :: 0 <= k < i ==> !Holds(entries[k], ip)
      {
        if entries[i].valid && entries[i].ip == ip {
          assert FirstMatch(entries[..], ip) == i;
          return Some(entries[i].mac);
        }
        i := i + 1;
      }
      return None;
    }

    method CacheUpdate(ip: Ipv4, mac: Mac)
      requires Valid()
      modifies entries
      ensures entries[..] == Update(old(entries[..]), ip, mac)
    {
      var i := 0;
      while i < entries.Length
        invariant 0 <= i <= entries.Length
        invariant forall k :: 0 <= k < i ==> !Holds(entries[k], ip)
        invariant entries[..] == old(entries[..])
      {
        if entries[i].valid && entries[i].ip == ip {
          assert FirstMatch(entries[..], ip) == i;
          entries[i] := entries[i].(mac := mac);
          return;
        }
        i := i + 1;
      }
      i := 0;
      while i < entries.Length
        invariant 0 <= i <= entries.Length
        invariant forall k :: 0 <= k < i ==> entries[k].valid
        invariant entries[..] == old(entries[..])
      {
        if !entries[i].valid {
          assert FirstFree(entries[..]) == i;
          entries[i] := ArpEntry(ip, mac, true);
          return;
        }
        i := i + 1;
      }
      entries[0] := ArpEntry(ip, mac, true);
    }

    method StoreFast(core: nat, ip: Ipv4, mac: Mac)
      requires Valid()
      modifies fastIp, fastMac
      ensures State() == FastStore(old(State()), core, ip, mac)
    {
      if core >= fastIp.Length { return; }
      fastIp[core] := 0;
      fastMac[core] := PackMac(mac);
      fastIp[core] := ip;
    }

    method ArpReceive(core: nat, data: seq<u8>) returns (reply: Option<(Mac, seq<u8>)>)
      requires Valid()
      modifies this, entries, fastIp, fastMac
      ensures Valid()
      ensures State() == Receive(old(State()), cfg, core, data)
      ensures reply == Reply(cfg, ourMac, data)
    {
      var parsed := Decode(data);
      if parsed.None? { return None; }
      var p := parsed.value;
      if p.senderIp != ANY_V4 {
        CacheUpdate(p.senderIp, p.senderMac);
        if p.senderIp == cfg.gateway {
          gatewayMac := p.senderMac;
          gatewayMacValid := true;
        }
        StoreFast(core, p.senderIp, p.senderMac);
      }
      if p.op == ARP_REQUEST && p.targetIp == cfg.ip && cfg.ip != ANY_V4 {
        reply := Some((p.senderMac, Encode(ArpPacket(ARP_REPLY, ourMac, cfg.ip, p.senderMac, p.senderIp))));
      } else {
        reply := None;
      }
    }

    method ArpLearn(core: nat, ip: Ipv4, mac: Mac)
      requires Valid()
      modifies fastIp, fastMac
      ensures State() == Learn(old(State()), core, ip, mac)
    {
      if ip == ANY_V4 || ip == BROADCAST_V4 || mac == MAC_BROADCAST || mac == MAC_ZERO { return; }
      StoreFast(core, ip, mac);
    }

    method ArpResolve(core: nat, ip: Ipv4) returns (r: Probe)
      requires Valid()
      modifies fastIp, fastMac
      ensures (r, State()) == Resolve(old(State()), cfg, core, ip)
    {
      if ip == BROADCAST_V4 { return Answer(MAC_BROADCAST); }
      if ip == ANY_V4 { return NoAnswer; }
      if core < fastIp.Length && fastIp[core] == ip {
        return Answer(UnpackMac(fastMac[core]));
      }
      var hop := NextHop(ip, cfg);
      var target := if hop.Some? then hop.value else ip;
      if target != ip && gatewayMacValid {
        StoreFast(core, ip, gatewayMac);
        return Answer(gatewayMac);
      }
      var hit := CacheLookup(target);
      if hit.Some? {
        StoreFast(core, ip, hit.value);
        return Answer(hit.value);
      }
      return Request(target);
    }
  }

  function Initial(cores: nat): (st: ArpState)
    ensures |st.entries| == ARP_CACHE_SIZE && |st.fast| == cores
  {
    ArpState(seq(ARP_CACHE_SIZE, _ => EMPTY_ENTRY), None, seq(cores, _ => FastSlot(0, 0)))
  }
}
