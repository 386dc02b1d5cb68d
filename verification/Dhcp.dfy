/** The DHCP client (section 3.1 of RFC 2131): how replies merge into the lease,
    the messages it sends, and a whole discovery run against an arbitrary
    network. Handling one datagram is one atomic step. */
module Dhcp {
  import opened Basics
  import opened DhcpOptions

  const SERVER_PORT: u16 := 67
  const MSG_DISCOVER: u8 := 1
  const MSG_OFFER: u8 := 2
  const MSG_REQUEST: u8 := 3
  const MSG_ACK: u8 := 5
  const ATTEMPTS := 5
  const BUFFER_LEN := 300

  // ── Replies and the lease ───────────────────────────────────────────

  datatype Datagram = Datagram(srcPort: u16, payload: seq<u8>)

  datatype Kind = Offer | Ack

  datatype Reply = Reply(kind: Kind, ip: Ipv4, options: ParsedOptions)

  datatype Lease = Lease(ip: Ipv4, mask: Ipv4, gateway: Ipv4, dns: Ipv4, server: Ipv4)

  /** The lease and the two manual-reset completion flags. */
  datatype Client = Client(xid: u32, lease: Lease, offered: bool, acked: bool)

  /** Only OFFERs and ACKs are replies; NAKs and the rest are ignored. */
  function ReplyOf(ip: Ipv4, options: ParsedOptions): Option<Reply> {
    if options.msgType == MSG_OFFER then Some(Reply(Offer, ip, options))
    else if options.msgType == MSG_ACK then Some(Reply(Ack, ip, options))
    else None
  }

  /** The reply a datagram carries for transaction `xid`: it must come from the
      server port and have a valid header. */
  function Accept(xid: u32, d: Datagram): Option<Reply> {
    if d.srcPort != SERVER_PORT then None
    else
      match ValidateHeader(d.payload, xid)
      case None => None
      case Some(ip) => ReplyOf(ip, Collect(NOTHING, Tlvs(d.payload[HEADER_LEN..])))
  }

  ghost function OptionsOf(d: Datagram): seq<Tlv>
    requires |d.payload| >= 240
  {
    Tlvs(d.payload[240..])
  }

  /** The last usable option 53 says `t`. */
  ghost predicate TypeIs(d: Datagram, t: u8)
    requires |d.payload| >= 240
  {
    exists i :: LastAt(OptionsOf(d), 53, 1, i) && OptionsOf(d)[i].value[0] == t
  }

  /** A reply to transaction `xid` by the offsets of RFC 2131: from the server port,
      a BOOTREPLY with that id and the cookie of RFC 2132. */
  predicate RepliesTo(d: Datagram, xid: u32) {
    && d.srcPort == 67 && |d.payload| >= 240 && d.payload[0] == 2 && d.payload[4..8] == Octets4(xid)
    && d.payload[236..240] == [99, 130, 83, 99]
  }

  /** What is accepted, and what is read from it: an OFFER (type 2) or an ACK
      (type 5), the offered address, and each option by its code. */
  lemma AcceptExactly(xid: u32, d: Datagram)
    ensures Accept(xid, d).Some? <==> RepliesTo(d, xid) && (TypeIs(d, 2) || TypeIs(d, 5))
    ensures Accept(xid, d).Some? ==>
              var r := Accept(xid, d).value;
              && (r.kind == Offer <==> TypeIs(d, 2)) && (r.kind == Ack <==> TypeIs(d, 5))
              && Octets4(r.ip) == d.payload[16..20] && ReadsAll(r.options, OptionsOf(d))
  {
    if |d.payload| >= 240 {
      var ts := OptionsOf(d);
      CollectReads(ts);
      AddressOctets(d.payload[16..20]);
      assert d.payload[16..20][..4] == d.payload[16..20];
      OneType(ts, Collect(NOTHING, ts).msgType);
    }
  }

  /** There is only one last option 53. */
  lemma OneType(ts: seq<Tlv>, t: u8)
    requires TypeFrom(t, ts)
    ensures forall i :: LastAt(ts, 53, 1, i) ==> ts[i].value[0] == t
  {
    forall i | LastAt(ts, 53, 1, i) ensures ts[i].value[0] == t {
      var j :| LastAt(ts, 53, 1, j) && t == ts[j].value[0];
      assert i == j;
    }
  }

  function OrElse(o: Option<Ipv4>, default: Ipv4): Ipv4 {
    if o.Some? then o.value else default
  }

  /** An OFFER replaces the lease; an ACK overrides only what it carries. */
  function Apply(l: Lease, r: Reply): Lease {
    var o := r.options;
    match r.kind
    case Offer => Lease(r.ip, OrElse(o.subnet, ANY_V4), OrElse(o.gateway, ANY_V4), OrElse(o.dns, ANY_V4), OrElse(o.serverId, ANY_V4))
    case Ack => Lease(r.ip, OrElse(o.subnet, l.mask), OrElse(o.gateway, l.gateway), OrElse(o.dns, l.dns), l.server)
  }

  /** The client after an optional reply. */
  function Update(c: Client, r: Option<Reply>): Client {
    match r
    case None => c
    case Some(r) => Client(c.xid, Apply(c.lease, r), c.offered || r.kind.Offer?, c.acked || r.kind.Ack?)
  }

  function Handle(c: Client, d: Datagram): Client {
    Update(c, Accept(c.xid, d))
  }

  function HandleAll(c: Client, ds: seq<Datagram>): Client
    decreases |ds|
  {
    if ds == [] then c else HandleAll(Handle(c, ds[0]), ds[1..])
  }

  /** The accepted replies among `ds`, in order of arrival. */
  function Replies(xid: u32, ds: seq<Datagram>): seq<Reply> {
    if ds == [] then []
    else
      var r := Accept(xid, ds[0]);
      (if r.Some? then [r.value] else []) + Replies(xid, ds[1..])
  }

  function Merge(l: Lease, rs: seq<Reply>): Lease
    decreases |rs|
  {
    if rs == [] then l else Merge(Apply(l, rs[0]), rs[1..])
  }

  predicate Has(kind: Kind, rs: seq<Reply>) {
    exists i :: 0 <= i < |rs| && rs[i].kind == kind
  }

  // ── What a history of datagrams does to the client ──────────────────

  /** Only accepted replies matter: the lease is their merge and each flag says
      whether one of its kind has come in. */
  lemma {:induction false} HandledHistory(c: Client, ds: seq<Datagram>)
    ensures var rs := Replies(c.xid, ds);
            HandleAll(c, ds) == Client(c.xid, Merge(c.lease, rs), c.offered || Has(Offer, rs), c.acked || Has(Ack, rs))
    decreases |ds|
  {
    if ds != [] {
      var rest := Replies(c.xid, ds[1..]);
      HandledHistory(Handle(c, ds[0]), ds[1..]);
      match Accept(c.xid, ds[0]) {
        case None => assert Replies(c.xid, ds) == rest;
        case Some(r) => HasCons(r, rest); assert ([r] + rest)[1..] == rest;
      }
    }
  }

  lemma HasCons(r: Reply, rest: seq<Reply>)
    ensures forall k :: Has(k, [r] + rest) <==> r.kind == k || Has(k, rest)
  {
    var all := [r] + rest;
    forall k ensures Has(k, all) <==> r.kind == k || Has(k, rest) {
      if r.kind == k {
        assert all[0].kind == k;
      } else {
        if Has(k, rest) {
          var i :| 0 <= i < |rest| && rest[i].kind == k;
          assert all[i + 1].kind == k;
        }
        if Has(k, all) {
          var i :| 0 <= i < |all| && all[i].kind == k;
          assert rest[i - 1].kind == k;
        }
      }
    }
  }

  /** NAKs, other transactions and other ports change nothing at all. */
  lemma RejectedChangesNothing(c: Client, d: Datagram)
    requires || d.srcPort != SERVER_PORT
             || |d.payload| < HEADER_LEN
             || d.payload[4..8] != Octets4(c.xid)
             || Collect(NOTHING, Tlvs(d.payload[HEADER_LEN..])).msgType !in {MSG_OFFER, MSG_ACK}
    ensures Handle(c, d) == c
  {
  }

  lemma {:induction false} HandleAllAppend(c: Client, a: seq<Datagram>, b: seq<Datagram>)
    ensures HandleAll(c, a + b) == HandleAll(HandleAll(c, a), b)
    decreases |a|
  {
    if a == [] {
      assert a + b == b;
    } else {
      assert (a + b)[1..] == a[1..] + b;
      HandleAllAppend(Handle(c, a[0]), a[1..], b);
    }
  }

  lemma {:induction false} MergeAppend(l: Lease, a: seq<Reply>, b: seq<Reply>)
    ensures Merge(l, a + b) == Merge(Merge(l, a), b)
    decreases |a|
  {
    if a == [] {
      assert a + b == b;
    } else {
      assert (a + b)[1..] == a[1..] + b;
      MergeAppend(Apply(l, a[0]), a[1..], b);
    }
  }

  /** The last value present in a list, or `base` when there is none. */
  function LastGiven(base: Ipv4, values: seq<Option<Ipv4>>): Ipv4 {
    if values == [] then base
    else if values[|values| - 1].Some? then values[|values| - 1].value
    else LastGiven(base, values[..|values| - 1])
  }

  function Masks(rs: seq<Reply>): seq<Option<Ipv4>> {
    seq(|rs|, i requires 0 <= i < |rs| => rs[i].options.subnet)
  }

  function Gateways(rs: seq<Reply>): seq<Option<Ipv4>> {
    seq(|rs|, i requires 0 <= i < |rs| => rs[i].options.gateway)
  }

  function DnsServers(rs: seq<Reply>): seq<Option<Ipv4>> {
    seq(|rs|, i requires 0 <= i < |rs| => rs[i].options.dns)
  }

  /** The lease named by an OFFER and the ACKs that followed it. */
  function LeaseOf(offer: Reply, acks: seq<Reply>): Lease {
    Lease(if acks == [] then offer.ip else acks[|acks| - 1].ip,
          LastGiven(OrElse(offer.options.subnet, ANY_V4), Masks(acks)),
          LastGiven(OrElse(offer.options.gateway, ANY_V4), Gateways(acks)),
          LastGiven(OrElse(offer.options.dns, ANY_V4), DnsServers(acks)),
          OrElse(offer.options.serverId, ANY_V4))
  }

  predicate AllAcks(rs: seq<Reply>) {
    forall i :: 0 <= i < |rs| ==> rs[i].kind.Ack?
  }

  /** Closed form of the merge: nothing before the last OFFER survives, and each
      field is the OFFER's unless a later ACK carries it. */
  lemma {:induction false} MergedLease(l: Lease, before: seq<Reply>, offer: Reply, acks: seq<Reply>)
    requires offer.kind.Offer? && AllAcks(acks)
    ensures Merge(l, before + [offer] + acks) == LeaseOf(offer, acks)
    decreases |acks|
  {
    var start := before + [offer];
    if acks == [] {
      MergeAppend(l, before, [offer]);
      assert start + acks == start;
      assert Merge(Merge(l, before), [offer]) == Apply(Merge(l, before), offer);
    } else {
      var n := |acks| - 1;
      var init, last := acks[..n], acks[n];
      MergedLease(l, before, offer, init);
      assert start + acks == start + init + [last];
      MergeAppend(l, start + init, [last]);
      assert Merge(LeaseOf(offer, init), [last]) == Apply(LeaseOf(offer, init), last);
      assert Masks(acks)[..n] == Masks(init);
      assert Gateways(acks)[..n] == Gateways(init);
      assert DnsServers(acks)[..n] == DnsServers(init);
    }
  }

  /** Where the last OFFER stands in a history that has one. */
  lemma {:induction false} LastOffer(rs: seq<Reply>) returns (before: seq<Reply>, offer: Reply, acks: seq<Reply>)
    requires Has(Offer, rs)
    ensures rs == before + [offer] + acks && offer.kind.Offer? && AllAcks(acks)
    decreases |rs|
  {
    var n := |rs| - 1;
    if rs[n].kind.Offer? {
      before, offer, acks := rs[..n], rs[n], [];
    } else {
      assert Has(Offer, rs[..n]) by {
        var i :| 0 <= i < |rs| && rs[i].kind == Offer;
        assert rs[..n][i].kind == Offer;
      }
      before, offer, acks := LastOffer(rs[..n]);
      acks := acks + [rs[n]];
    }
  }

  /** Every OFFER and ACK of any transaction and address can be put on the wire so
      that it is accepted. */
  lemma ReplyExists(kind: Kind, xid: u32, ip: Ipv4) returns (d: Datagram)
    ensures Accept(xid, d).Some? && Accept(xid, d).value.kind == kind && Accept(xid, d).value.ip == ip
  {
    var msg := if kind.Offer? then MSG_OFFER else MSG_ACK;
    var options: seq<u8> := [OPT_MSG_TYPE, 1, msg, OPT_END];
    ReplyHeaderRead(OP_BOOTREPLY, Zeros(3), xid, Zeros(8), ip, Zeros(216), options, xid);
    d := Datagram(SERVER_PORT,
                  [OP_BOOTREPLY] + Zeros(3) + Octets4(xid) + Zeros(8) + Octets4(ip) + Zeros(216) + MAGIC_COOKIE + options);
    assert d.payload[HEADER_LEN..] == options;
    BareOptions(msg, options);
  }

  lemma BareOptions(msg: u8, options: seq<u8>)
    requires options == [OPT_MSG_TYPE, 1, msg, OPT_END]
    ensures Collect(NOTHING, Tlvs(options)) == NOTHING.(msgType := msg)
  {
    FirstOption(OPT_MSG_TYPE, [msg], [OPT_END]);
    assert options == [OPT_MSG_TYPE, 1] + [msg] + [OPT_END];
    var t := Tlv(OPT_MSG_TYPE, [msg]);
    assert Tlvs([OPT_END]) == [] && [t] + [] == [t] && [t][1..] == [];
    assert Collect(NOTHING, [t]) == Collect(Absorb(NOTHING, t), []);
  }

  // ── Outgoing messages ───────────────────────────────────────────────

  function Zeros(n: nat): seq<u8> {
    seq(n, _ => 0)
  }

  /** The fixed header of a request: op 1, Ethernet, broadcast flag set. */
  function FixedHeader(xid: u32, mac: Mac): (h: seq<u8>)
    ensures |h| == HEADER_LEN
  {
    [1, 1, 6, 0] + Octets4(xid) + [0, 0, 0x80, 0] + Zeros(16) + mac + Zeros(10) + Zeros(192) + MAGIC_COOKIE
  }

  function Tail(kind: Kind, l: Lease): (t: seq<u8>)
    ensures |t| == TailLen(kind)
  {
    match kind
    case Offer => [53, 1, MSG_DISCOVER, 55, 3, 1, 3, 6, 255]
    case Ack => [53, 1, MSG_REQUEST] + [50, 4] + Octets4(l.ip) + [54, 4] + Octets4(l.server) + [55, 3, 1, 3, 6, 255]
  }

  function TailLen(kind: Kind): nat {
    match kind
    case Offer => 9
    case Ack => 21
  }

  /** The message sent while waiting for `kind`: DISCOVER for an OFFER, REQUEST
      for an ACK, padded with zeros to the BOOTP minimum. */
  function Message(kind: Kind, xid: u32, mac: Mac, l: Lease): (m: seq<u8>)
    ensures |m| == BUFFER_LEN
  {
    FixedHeader(xid, mac) + Tail(kind, l) + Zeros(BUFFER_LEN - HEADER_LEN - TailLen(kind))
  }

  /** A REQUEST names the offered address and the server it answers. */
  lemma RequestCarriesOffer(xid: u32, mac: Mac, l: Lease)
    ensures var m := Message(Ack, xid, mac, l);
            && Tlvs(m[HEADER_LEN..])
               == [Tlv(53, [3]), Tlv(50, Octets4(l.ip)), Tlv(54, Octets4(l.server)), Tlv(55, [1, 3, 6])]
            && m[4..8] == Octets4(xid)
  {
    var pad := Zeros(BUFFER_LEN - HEADER_LEN - 21);
    FixedHeaderXid(xid, mac);
    BehindHeader(FixedHeader(xid, mac), Tail(Ack, l), pad);
    RequestTail(Octets4(l.ip), Octets4(l.server), pad);
    WrittenReadBack([Tlv(53, [MSG_REQUEST]), Tlv(50, Octets4(l.ip)), Tlv(54, Octets4(l.server)), Tlv(55, [1, 3, 6])], [OPT_END] + pad);
  }

  /** The fixed part of either message by the offsets of RFC 2131: a BOOTREQUEST
      over Ethernet under this transaction id, asking for broadcast replies, from
      this hardware address, with no address of its own. */
  lemma MessageOnWire(kind: Kind, xid: u32, mac: Mac, l: Lease)
    ensures var m := Message(kind, xid, mac, l);
            && |m| == 300 && m[0..4] == [1, 1, 6, 0] && m[4..8] == Octets4(xid)
            && m[8..12] == [0, 0, 0x80, 0] && (forall k :: 12 <= k < 28 ==> m[k] == 0)
            && m[28..34] == mac && (forall k :: 34 <= k < 236 ==> m[k] == 0)
            && m[236..240] == [99, 130, 83, 99]
  {
    var h := FixedHeader(xid, mac);
    var m := Message(kind, xid, mac, l);
    assert forall k :: 0 <= k < 240 ==> m[k] == h[k];
    HeaderOnWire(xid, mac);
    assert m[0..4] == h[0..4] && m[4..8] == h[4..8] && m[8..12] == h[8..12] && m[28..34] == h[28..34] && m[236..240] == h[236..240];
  }

  lemma HeaderOnWire(xid: u32, mac: Mac)
    ensures var h := FixedHeader(xid, mac);
            && h[0..4] == [1, 1, 6, 0] && h[4..8] == Octets4(xid) && h[8..12] == [0, 0, 0x80, 0]
            && (forall k :: 12 <= k < 28 ==> h[k] == 0) && h[28..34] == mac
            && (forall k :: 34 <= k < 236 ==> h[k] == 0) && h[236..240] == [99, 130, 83, 99]
  {
  }

  /** A DISCOVER says so and asks for mask, router and DNS server. */
  lemma DiscoverAsks(xid: u32, mac: Mac, l: Lease)
    ensures Tlvs(Message(Offer, xid, mac, l)[240..]) == [Tlv(53, [1]), Tlv(55, [1, 3, 6])]
  {
    var pad := Zeros(BUFFER_LEN - HEADER_LEN - 9);
    BehindHeader(FixedHeader(xid, mac), Tail(Offer, l), pad);
    var a, b, end := Tlv(53, [1]), Tlv(55, [1, 3, 6]), [OPT_END] + pad;
    assert [a, b][1..] == [b] && [b][1..] == [] && Written([], end) == end;
    assert Written([b], end) == [55, 3] + [1, 3, 6] + end;
    assert Written([a, b], end) == [53, 1] + [1] + Written([b], end);
    assert Tail(Offer, l) + pad == Written([a, b], end);
    WrittenReadBack([a, b], end);
  }

  lemma FixedHeaderXid(xid: u32, mac: Mac)
    ensures FixedHeader(xid, mac)[4..8] == Octets4(xid)
  {
  }

  lemma BehindHeader(header: seq<u8>, tail: seq<u8>, pad: seq<u8>)
    requires |header| == HEADER_LEN
    ensures (header + tail + pad)[HEADER_LEN..] == tail + pad && (header + tail + pad)[4..8] == header[4..8]
  {
  }

  /** The same tail, as the list of options it writes. */
  lemma RequestTail(ip: seq<u8>, server: seq<u8>, pad: seq<u8>)
    requires |ip| == 4 && |server| == 4
    ensures [53, 1, MSG_REQUEST] + [50, 4] + ip + [54, 4] + server + [55, 3, 1, 3, 6, 255] + pad
         == Written([Tlv(53, [MSG_REQUEST]), Tlv(50, ip), Tlv(54, server), Tlv(55, [1, 3, 6])], [OPT_END] + pad)
  {
    var a, b, c, d := Tlv(53, [MSG_REQUEST]), Tlv(50, ip), Tlv(54, server), Tlv(55, [1, 3, 6]);
    var end := [OPT_END] + pad;
    assert [a, b, c, d][1..] == [b, c, d];
    assert [b, c, d][1..] == [c, d];
    assert [c, d][1..] == [d];
    assert [d][1..] == [] && Written([], end) == end;
    var w3, w2, w1 := Written([d], end), Written([c, d], end), Written([b, c, d], end);
    assert w3 == [55, 3] + [1, 3, 6] + end;
    assert w2 == [54, 4] + server + w3;
    assert w1 == [50, 4] + ip + w2;
    assert Written([a, b, c, d], end) == [53, 1] + [MSG_REQUEST] + w1;
    RequestGrouped(ip, server, pad, w1, w2, w3);
  }

  lemma RequestGrouped(ip: seq<u8>, server: seq<u8>, pad: seq<u8>, w1: seq<u8>, w2: seq<u8>, w3: seq<u8>)
    requires w1 == [50, 4] + ip + w2 && w2 == [54, 4] + server + w3 && w3 == [55, 3] + [1, 3, 6] + ([OPT_END] + pad)
    ensures [53, 1, MSG_REQUEST] + [50, 4] + ip + [54, 4] + server + [55, 3, 1, 3, 6, 255] + pad
         == [53, 1] + [MSG_REQUEST] + w1
  {
    assert [55, 3, 1, 3, 6, 255] + pad == w3;
    assert [53, 1, MSG_REQUEST] == [53, 1] + [MSG_REQUEST];
  }

  /** The client never takes one of its own broadcasts for a reply. */
  lemma OwnMessageIgnored(kind: Kind, xid: u32, mac: Mac, l: Lease, c: Client, port: u16)
    ensures Handle(c, Datagram(port, Message(kind, xid, mac, l))) == c
  {
    assert Message(kind, xid, mac, l)[0] == 1;
  }
}
