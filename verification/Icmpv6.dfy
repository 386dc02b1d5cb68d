/** ICMPv6 messages (RFC 4443, RFC 4861): the builders, the checksum they must
    satisfy, and the Neighbour Discovery option walkers. */
module Icmpv6 {
  import opened Basics
  import opened Checksum

  const PROTO_ICMPV6: u8 := 58
  const ECHO_REPLY: u8 := 129
  const ROUTER_SOLICITATION: u8 := 133
  const NEIGHBOR_SOLICITATION: u8 := 135
  const NEIGHBOR_ADVERTISEMENT: u8 := 136
  const OPT_SOURCE_LLA: u8 := 1
  const OPT_TARGET_LLA: u8 := 2
  const OPT_PREFIX_INFO: u8 := 3

  // ── Messages ────────────────────────────────────────────────────────

  /** A message with its checksum field filled in for these addresses. */
  function Stamped(src: Ipv6, dst: Ipv6, body: seq<u8>): (m: seq<u8>)
    requires |body| >= 4
    ensures |m| == |body|
  {
    Sealed(V6(src), V6(dst), PROTO_ICMPV6, body, 2)
  }

  predicate Verifies(src: Ipv6, dst: Ipv6, message: seq<u8>) {
    L4Checksum(V6(src), V6(dst), PROTO_ICMPV6, message) == 0
  }

  function EchoReply(request: seq<u8>): seq<u8>
    requires |request| >= 8
  {
    [ECHO_REPLY, 0, 0, 0] + request[4..]
  }

  function NeighborAdvertisement(target: Ipv6, mac: Mac): (m: seq<u8>)
    ensures |m| == 32
  {
    [NEIGHBOR_ADVERTISEMENT, 0, 0, 0, 0x60, 0, 0, 0] + target + [OPT_TARGET_LLA, 1] + mac
  }

  function NeighborSolicitation(target: Ipv6, mac: Mac): (m: seq<u8>)
    ensures |m| == 32
  {
    [NEIGHBOR_SOLICITATION, 0, 0, 0, 0, 0, 0, 0] + target + [OPT_SOURCE_LLA, 1] + mac
  }

  function RouterSolicitation(mac: Mac): (m: seq<u8>)
    ensures |m| == 16
  {
    [ROUTER_SOLICITATION, 0, 0, 0, 0, 0, 0, 0] + [OPT_SOURCE_LLA, 1] + mac
  }

  /** Stamping touches bytes 2 and 3 only. */
  lemma StampedElsewhere(src: Ipv6, dst: Ipv6, body: seq<u8>, k: nat)
    requires |body| >= 4 && k < |body| && k != 2 && k != 3
    ensures Stamped(src, dst, body)[k] == body[k]
  {
  }

  /** An Echo Reply by the offsets of RFC 4443 section 4.2: type 129, code 0, and
      the identifier, sequence number and data of the request. */
  lemma EchoReplyOnWire(src: Ipv6, dst: Ipv6, request: seq<u8>)
    requires |request| >= 8
    ensures var m := Stamped(src, dst, EchoReply(request));
            |m| == |request| && m[0] == 129 && m[1] == 0 && m[4..] == request[4..]
  {
    var body := EchoReply(request);
    forall k | 0 <= k < |body| && k != 2 && k != 3 ensures Stamped(src, dst, body)[k] == body[k] {
      StampedElsewhere(src, dst, body, k);
    }
    assert body[4..] == request[4..];
  }

  /** A message with a target by the offsets of RFC 4861 sections 4.3 and 4.4:
      type, code 0, flags, target, then one 8-byte link-layer address option. */
  ghost predicate NeighborOnWire(m: seq<u8>, kind: u8, flags: u8, target: Ipv6, option: u8, mac: Mac) {
    && |m| == 32 && m[0] == kind && m[1] == 0 && m[4..8] == [flags, 0, 0, 0]
    && m[8..24] == target && m[24] == option && m[25] == 1 && m[26..32] == mac
  }

  lemma NeighborStamped(src: Ipv6, dst: Ipv6, body: seq<u8>, kind: u8, flags: u8, target: Ipv6, option: u8, mac: Mac)
    requires NeighborOnWire(body, kind, flags, target, option, mac)
    ensures NeighborOnWire(Stamped(src, dst, body), kind, flags, target, option, mac)
  {
    var m := Stamped(src, dst, body);
    forall k | 0 <= k < 32 && k != 2 && k != 3 ensures m[k] == body[k] {
      StampedElsewhere(src, dst, body, k);
    }
    assert m[4..8] == body[4..8] && m[8..24] == body[8..24] && m[26..32] == body[26..32];
  }

  /** An advertisement is solicited and overriding, with the target's address. */
  lemma AdvertisementOnWire(src: Ipv6, dst: Ipv6, target: Ipv6, mac: Mac)
    ensures NeighborOnWire(Stamped(src, dst, NeighborAdvertisement(target, mac)), 136, 0x60, target, 2, mac)
  {
    NeighborStamped(src, dst, NeighborAdvertisement(target, mac), 136, 0x60, target, 2, mac);
  }

  lemma SolicitationOnWire(src: Ipv6, dst: Ipv6, target: Ipv6, mac: Mac)
    ensures NeighborOnWire(Stamped(src, dst, NeighborSolicitation(target, mac)), 135, 0, target, 1, mac)
  {
    NeighborStamped(src, dst, NeighborSolicitation(target, mac), 135, 0, target, 1, mac);
  }

  /** A Router Solicitation by the offsets of RFC 4861 section 4.1. */
  lemma RouterSolicitationOnWire(src: Ipv6, dst: Ipv6, mac: Mac)
    ensures var m := Stamped(src, dst, RouterSolicitation(mac));
            && |m| == 16 && m[0] == 133 && m[1] == 0 && m[4..8] == [0, 0, 0, 0]
            && m[8] == 1 && m[9] == 1 && m[10..16] == mac
  {
    var body := RouterSolicitation(mac);
    var m := Stamped(src, dst, body);
    forall k | 0 <= k < 16 && k != 2 && k != 3 ensures m[k] == body[k] {
      StampedElsewhere(src, dst, body, k);
    }
    assert body[4..8] == [0, 0, 0, 0] && body[10..16] == mac;
    assert m[4..8] == body[4..8] && m[10..16] == body[10..16];
  }

  /** Every stamped message verifies for the same addresses. */
  lemma StampedVerifies(src: Ipv6, dst: Ipv6, body: seq<u8>)
    requires |body| >= 4
    ensures Verifies(src, dst, Stamped(src, dst, body))
  {
    SealedVerifies(V6(src), V6(dst), PROTO_ICMPV6, body, 2);
  }

  // ── Builders ────────────────────────────────────────────────────────

  /** The common tail of the builders: with `body` in place at the front of
      `out` and its checksum field zero, compute the checksum and store it. */
  method Stamp(src: Ipv6, dst: Ipv6, out: array<u8>, n: nat, ghost before: seq<u8>, ghost body: seq<u8>)
    requires 4 <= n == |body| <= out.Length == |before| && n <= MAX_SEGMENT && body[2] == 0 && body[3] == 0
    requires out[..] == Splice(before, 0, body)
    modifies out
    ensures out[..] == Splice(before, 0, Stamped(src, dst, body))
    ensures Verifies(src, dst, out[..n])
  {
    assert out[..n] == body;
    var cksum := L4ChecksumV6(src, dst, PROTO_ICMPV6, out[..n]);
    assert Splice(body, 2, [0, 0]) == body;
    CopyInto(out, 2, LeBytes16(cksum));
    assert Stamped(src, dst, body) == Splice(body, 2, LeBytes16(cksum));
    assert out[..n] == Stamped(src, dst, body);
    StampedVerifies(src, dst, body);
  }

  method BuildEchoReply(src: Ipv6, dst: Ipv6, request: seq<u8>, out: array<u8>) returns (n: Option<nat>)
    requires |request| <= MAX_SEGMENT
    modifies out
    ensures n.None? <==> |request| < 8 || out.Length < |request|
    ensures n.None? ==> out[..] == old(out[..])
    ensures n.Some? ==> n.value == |request|
                        && out[..] == Splice(old(out[..]), 0, Stamped(src, dst, EchoReply(request)))
                        && Verifies(src, dst, out[..n.value])
  {
    if |request| < 8 || out.Length < |request| { return None; }
    CopyInto(out, 0, [ECHO_REPLY, 0, 0, 0]);
    CopyInto(out, 4, request[4..]);
    SpliceJoin(old(out[..]), 0, [ECHO_REPLY, 0, 0, 0], request[4..]);
    Stamp(src, dst, out, |request|, old(out[..]), EchoReply(request));
    return Some(|request|);
  }

  method BuildNeighborAdvertisement(src: Ipv6, dst: Ipv6, target: Ipv6, mac: Mac, out: array<u8>)
    returns (n: Option<nat>)
    modifies out
    ensures n.None? <==> out.Length < 32
    ensures n.None? ==> out[..] == old(out[..])
    ensures n.Some? ==> n.value == 32
                        && out[..] == Splice(old(out[..]), 0, Stamped(src, dst, NeighborAdvertisement(target, mac)))
                        && Verifies(src, dst, out[..32])
  {
    if out.Length < 32 { return None; }
    PlaceWithOption(out, [NEIGHBOR_ADVERTISEMENT, 0, 0, 0, 0x60, 0, 0, 0], target, OPT_TARGET_LLA, mac);
    Stamp(src, dst, out, 32, old(out[..]), NeighborAdvertisement(target, mac));
    return Some(32);
  }

  method BuildNeighborSolicitation(src: Ipv6, dst: Ipv6, target: Ipv6, mac: Mac, out: array<u8>)
    returns (n: Option<nat>)
    modifies out
    ensures n.None? <==> out.Length < 32
    ensures n.None? ==> out[..] == old(out[..])
    ensures n.Some? ==> n.value == 32
                        && out[..] == Splice(old(out[..]), 0, Stamped(src, dst, NeighborSolicitation(target, mac)))
                        && Verifies(src, dst, out[..32])
  {
    if out.Length < 32 { return None; }
    PlaceWithOption(out, [NEIGHBOR_SOLICITATION, 0, 0, 0, 0, 0, 0, 0], target, OPT_SOURCE_LLA, mac);
    Stamp(src, dst, out, 32, old(out[..]), NeighborSolicitation(target, mac));
    return Some(32);
  }

  method BuildRouterSolicitation(src: Ipv6, dst: Ipv6, mac: Mac, out: array<u8>) returns (n: Option<nat>)
    modifies out
    ensures n.None? <==> out.Length < 16
    ensures n.None? ==> out[..] == old(out[..])
    ensures n.Some? ==> n.value == 16
                        && out[..] == Splice(old(out[..]), 0, Stamped(src, dst, RouterSolicitation(mac)))
                        && Verifies(src, dst, out[..16])
  {
    if out.Length < 16 { return None; }
    PlaceWithOption(out, [ROUTER_SOLICITATION, 0, 0, 0, 0, 0, 0, 0], [], OPT_SOURCE_LLA, mac);
    assert RouterSolicitation(mac) == [ROUTER_SOLICITATION, 0, 0, 0, 0, 0, 0, 0] + [] + [OPT_SOURCE_LLA, 1] + mac;
    Stamp(src, dst, out, 16, old(out[..]), RouterSolicitation(mac));
    return Some(16);
  }

  /** A fixed header, an optional target and one link-layer address option. */
  method PlaceWithOption(out: array<u8>, header: seq<u8>, target: seq<u8>, option: u8, mac: Mac)
    requires |header| + |target| + 8 <= out.Length
    modifies out
    ensures out[..] == Splice(old(out[..]), 0, header + target + [option, 1] + mac)
  {
    ghost var s := out[..];
    assert Splice(s, 0, []) == s;
    Extend(out, s, [], header);
    assert [] + header == header;
    Extend(out, s, header, target);
    Extend(out, s, header + target, [option, 1]);
    Extend(out, s, header + target + [option, 1], mac);
  }

  /** Write `more` right after `front`, which already starts the buffer. */
  method Extend(out: array<u8>, ghost s: seq<u8>, front: seq<u8>, more: seq<u8>)
    requires |front| + |more| <= out.Length == |s| && out[..] == Splice(s, 0, front)
    modifies out
    ensures out[..] == Splice(s, 0, front + more)
  {
    CopyInto(out, |front|, more);
    SpliceJoin(s, 0, front, more);
  }

  method VerifyChecksum(src: Ipv6, dst: Ipv6, body: seq<u8>) returns (ok: bool)
    requires |body| <= MAX_SEGMENT
    ensures ok <==> Verifies(src, dst, body)
  {
    var c := L4ChecksumV6(src, dst, PROTO_ICMPV6, body);
    ok := c == 0;
  }

  // ── Options ─────────────────────────────────────────────────────────

  /** Option lengths count units of eight bytes. */
  function OptionSize(units: u8): nat {
    8 * (units as int)
  }

  datatype NdOption = NdOption(kind: u8, body: seq<u8>)

  /** The options the walker yields: it stops at a short header, a zero length
      or an option that runs past the end. */
  function Options(b: seq<u8>): seq<NdOption>
    decreases |b|
  {
    if |b| < 2 || b[1] == 0 || |b| < OptionSize(b[1]) then []
    else [NdOption(b[0], b[2..OptionSize(b[1])])] + Options(b[OptionSize(b[1])..])
  }

  /** An option that fills a whole number of 8-byte units. */
  predicate Encodable(o: NdOption) {
    (|o.body| + 2) % 8 == 0 && (|o.body| + 2) / 8 < 0x100
  }

  function Encode(o: NdOption): seq<u8>
    requires Encodable(o)
  {
    [o.kind, (|o.body| + 2) / 8] + o.body
  }

  /** The walker reads back exactly what is encoded, then goes on. */
  lemma OptionsOfEncoded(o: NdOption, rest: seq<u8>)
    requires Encodable(o)
    ensures Options(Encode(o) + rest) == [o] + Options(rest)
  {
    var b := Encode(o) + rest;
    var total := |o.body| + 2;
    assert b[0] == o.kind && b[1] == total / 8 && OptionSize(b[1]) == total;
    assert b[2..total] == o.body && b[total..] == rest;
  }

  /** The first option of the wanted kind: its first six body bytes. */
  function FirstLla(os: seq<NdOption>, wanted: u8): Option<seq<u8>> {
    if os == [] then None
    else if os[0].kind == wanted && |os[0].body| >= 6 then Some(os[0].body[..6])
    else FirstLla(os[1..], wanted)
  }

  lemma {:induction false} OptionBodies(b: seq<u8>)
    ensures forall o :: o in Options(b) ==> Encodable(o) && |o.body| >= 6
    decreases |b|
  {
    if |b| >= 2 && b[1] != 0 && |b| >= OptionSize(b[1]) {
      OptionBodies(b[OptionSize(b[1])..]);
      assert |b[2..OptionSize(b[1])]| + 2 == OptionSize(b[1]);
    }
  }

  /** Which option that is: the earliest of its kind, and none only if there is
      none of its kind. */
  lemma {:induction false} LlaIsFirstMatch(os: seq<NdOption>, wanted: u8) returns (i: nat)
    requires forall o :: o in os ==> |o.body| >= 6
    ensures i <= |os| && forall k :: 0 <= k < i ==> os[k].kind != wanted
    ensures i < |os| ==> os[i].kind == wanted && FirstLla(os, wanted) == Some(os[i].body[..6])
    ensures i == |os| ==> FirstLla(os, wanted) == None
  {
    if os == [] {
      i := 0;
    } else {
      assert os[0] in os;
      if os[0].kind == wanted {
        i := 0;
      } else {
        i := LlaIsFirstMatch(os[1..], wanted);
        i := i + 1;
      }
    }
  }

  /** The dedicated link-layer address walker finds the first matching option of
      the general one, on every byte string. */
  method ParseLlaOption(bytes: seq<u8>, wanted: u8) returns (r: Option<seq<u8>>)
    ensures r == FirstLla(Options(bytes), wanted)
  {
    var b := bytes;
    while |b| >= 8
      invariant FirstLla(Options(b), wanted) == FirstLla(Options(bytes), wanted)
      decreases |b|
    {
      var units := b[1];
      if units == 0 { return None; }
      var total := OptionSize(units);
      if |b| < total { return None; }
      assert Options(b) == [NdOption(b[0], b[2..total])] + Options(b[total..]);
      assert Options(b)[1..] == Options(b[total..]);
      if b[0] == wanted {
        assert b[2..total][..6] == b[2..8];
        return Some(b[2..8]);
      }
      b := b[total..];
    }
    return None;
  }

  datatype PrefixInfo = PrefixInfo(length: u8, onLink: bool, autonomous: bool,
                                   validLifetime: u32, preferredLifetime: u32, prefix: Ipv6)

  function Be32(b: seq<u8>): u32
    requires |b| == 4
  {
    Le32(b[3], b[2], b[1], b[0])
  }

  function ReadPrefix(b: seq<u8>): PrefixInfo
    requires |b| >= 30
  {
    PrefixInfo(b[0], b[1] / 0x80 % 2 == 1, b[1] / 0x40 % 2 == 1, Be32(b[2..6]), Be32(b[6..10]), b[14..30])
  }

  /** A Prefix Information option by RFC 4861 section 4.6.2, whatever its reserved
      bits and bytes hold. */
  function PrefixBody(p: PrefixInfo, reserved: u8, gap: seq<u8>): seq<u8>
    requires reserved < 0x40 && |gap| == 4
  {
    [p.length, (if p.onLink then 0x80 else 0) + (if p.autonomous then 0x40 else 0) + reserved]
    + BeBytes32(p.validLifetime) + BeBytes32(p.preferredLifetime) + gap + p.prefix
  }

  /** Reading one back gives the prefix, its flags and its two lifetimes. */
  lemma PrefixReadBack(p: PrefixInfo, reserved: u8, gap: seq<u8>, rest: seq<u8>)
    requires reserved < 0x40 && |gap| == 4
    ensures ReadPrefix(PrefixBody(p, reserved, gap) + rest) == p
  {
    var b := PrefixBody(p, reserved, gap) + rest;
    var v, w := BeBytes32(p.validLifetime), BeBytes32(p.preferredLifetime);
    assert b[2..6] == v && b[6..10] == w && b[14..30] == p.prefix;
    Be32Bytes(p.validLifetime);
    Be32Bytes(p.preferredLifetime);
    FlagBits(p.onLink, p.autonomous, reserved);
  }

  lemma FlagBits(onLink: bool, autonomous: bool, reserved: u8)
    requires reserved < 0x40
    ensures var f := (if onLink then 0x80 else 0) + (if autonomous then 0x40 else 0) + reserved;
            (f / 0x80 % 2 == 1 <==> onLink) && (f / 0x40 % 2 == 1 <==> autonomous)
  {
  }

  lemma Be32Bytes(v: u32)
    ensures Be32(BeBytes32(v)) == v
  {
  }

  /** Which option is read: the earliest Prefix Information option with room for
      the fields, and none only if there is none. */
  lemma {:induction false} PrefixIsFirst(os: seq<NdOption>) returns (i: nat)
    ensures i <= |os| && forall k :: 0 <= k < i ==> !(os[k].kind == 3 && |os[k].body| >= 30)
    ensures i < |os| ==> os[i].kind == 3 && |os[i].body| >= 30 && FirstPrefix(os) == Some(ReadPrefix(os[i].body))
    ensures i == |os| ==> FirstPrefix(os) == None
  {
    if os == [] || (os[0].kind == 3 && |os[0].body| >= 30) {
      i := 0;
    } else {
      i := PrefixIsFirst(os[1..]);
      i := i + 1;
    }
  }

  /** The first Prefix Information option long enough to hold one. */
  function FirstPrefix(os: seq<NdOption>): Option<PrefixInfo> {
    if os == [] then None
    else if os[0].kind == OPT_PREFIX_INFO && |os[0].body| >= 30 then Some(ReadPrefix(os[0].body))
    else FirstPrefix(os[1..])
  }

  method FindPrefixInfo(bytes: seq<u8>) returns (r: Option<PrefixInfo>)
    ensures r == FirstPrefix(Options(bytes))
  {
    var b := bytes;
    while |b| >= 2 && b[1] != 0 && |b| >= OptionSize(b[1])
      invariant FirstPrefix(Options(b)) == FirstPrefix(Options(bytes))
      decreases |b|
    {
      var total := OptionSize(b[1]);
      assert Options(b) == [NdOption(b[0], b[2..total])] + Options(b[total..]);
      assert Options(b)[1..] == Options(b[total..]);
      if b[0] == OPT_PREFIX_INFO && total - 2 >= 30 {
        return Some(ReadPrefix(b[2..total]));
      }
      b := b[total..];
    }
    return None;
  }

  // ── Solicitation round trip ─────────────────────────────────────────

  datatype Solicitation = Solicited(target: Ipv6, lla: Option<seq<u8>>) | Truncated | BadType

  function ParseSolicitation(body: seq<u8>): Solicitation {
    if |body| < 24 then Truncated
    else if body[0] != NEIGHBOR_SOLICITATION then BadType
    else Solicited(body[8..24], FirstLla(Options(body[24..]), OPT_SOURCE_LLA))
  }

  /** A solicitation this stack builds parses back to its target and MAC. */
  lemma SolicitationRoundTrip(src: Ipv6, dst: Ipv6, target: Ipv6, mac: Mac)
    ensures ParseSolicitation(Stamped(src, dst, NeighborSolicitation(target, mac))) == Solicited(target, Some(mac))
  {
    var m := Stamped(src, dst, NeighborSolicitation(target, mac));
    var o := NdOption(OPT_SOURCE_LLA, mac);
    assert m[8..] == NeighborSolicitation(target, mac)[8..] == target + Encode(o);
    assert m[8..24] == m[8..][..16] == target;
    assert m[24..] == m[8..][16..] == Encode(o) + [];
    OptionsOfEncoded(o, []);
    assert mac[..6] == mac;
  }
}
