/** The stored lease traced back to the bytes of the datagrams it came from. */
module DhcpWire {
  import opened Basics
  import opened DhcpOptions
  import opened Dhcp
  import opened DhcpRun

  /** The accepted datagrams among `ds`, in order of arrival. */
  function Accepted(xid: u32, ds: seq<Datagram>): seq<Datagram> {
    if ds == [] then []
    else (if Accept(xid, ds[0]).Some? then [ds[0]] else []) + Accepted(xid, ds[1..])
  }

  lemma {:induction false} AcceptedReplies(xid: u32, ds: seq<Datagram>)
    ensures var taken, rs := Accepted(xid, ds), Replies(xid, ds);
            |taken| == |rs| && forall i :: 0 <= i < |rs| ==> Accept(xid, taken[i]) == Some(rs[i])
  {
    if ds != [] {
      AcceptedReplies(xid, ds[1..]);
    }
  }

  /** The datagram has an address option of this code. */
  ghost predicate Offers(d: Datagram, code: u8) {
    |d.payload| >= 240 && !NoneCarries(OptionsOf(d), code, 4)
  }

  /** Datagram `j` is the last one with such an option. */
  ghost predicate LastCarrier(ds: seq<Datagram>, code: u8, j: int) {
    0 <= j < |ds| && Offers(ds[j], code) && forall k :: j < k < |ds| ==> !Offers(ds[k], code)
  }

  /** The value of an option, as the last datagram that carries it has it: the
      first four bytes of its last option of that code; 0 if none carries it. */
  ghost predicate FieldFrom(a: Ipv4, ds: seq<Datagram>, code: u8) {
    || (a == 0 && forall k :: 0 <= k < |ds| ==> !Offers(ds[k], code))
    || exists j :: LastCarrier(ds, code, j) && ReadsFrom(Some(a), OptionsOf(ds[j]), code)
  }

  /** `fields[k]` is what datagram `k` carries. */
  ghost predicate Read(fields: seq<Option<Ipv4>>, ds: seq<Datagram>, code: u8) {
    && |fields| == |ds|
    && forall k :: 0 <= k < |ds| ==> |ds[k].payload| >= 240 && ReadsFrom(fields[k], OptionsOf(ds[k]), code)
  }

  lemma OffersExactly(field: Option<Ipv4>, d: Datagram, code: u8)
    requires |d.payload| >= 240 && ReadsFrom(field, OptionsOf(d), code)
    ensures Offers(d, code) <==> field.Some?
  {
    if field.Some? {
      var i :| LastAt(OptionsOf(d), code, 4, i) && Octets4(field.value) == OptionsOf(d)[i].value[..4];
      assert Carries(OptionsOf(d)[i], code, 4);
    }
  }

  /** The merge rule picks the last value given, on the wire. */
  lemma {:induction false} LastGivenFrom(ds: seq<Datagram>, fields: seq<Option<Ipv4>>, code: u8)
    requires Read(fields, ds, code)
    ensures FieldFrom(LastGiven(0, fields), ds, code)
    decreases |ds|
  {
    if ds != [] {
      var n := |ds| - 1;
      assert ds == ds[..n] + [ds[n]];
      if fields[n].Some? {
        FieldLast(fields[n].value, ds[..n], ds[n], code);
      } else {
        OffersExactly(None, ds[n], code);
        ReadInit(fields, ds, code);
        LastGivenFrom(ds[..n], fields[..n], code);
        FieldStill(LastGiven(0, fields[..n]), ds[..n], ds[n], code);
      }
    }
  }

  lemma ReadInit(fields: seq<Option<Ipv4>>, ds: seq<Datagram>, code: u8)
    requires Read(fields, ds, code) && ds != []
    ensures Read(fields[..|ds| - 1], ds[..|ds| - 1], code)
  {
  }

  lemma FieldLast(a: Ipv4, ds: seq<Datagram>, d: Datagram, code: u8)
    requires |d.payload| >= 240 && ReadsFrom(Some(a), OptionsOf(d), code)
    ensures FieldFrom(a, ds + [d], code)
  {
    OffersExactly(Some(a), d, code);
    var all := ds + [d];
    assert all[|ds|] == d && LastCarrier(all, code, |ds|);
  }

  lemma FieldStill(a: Ipv4, ds: seq<Datagram>, d: Datagram, code: u8)
    requires FieldFrom(a, ds, code) && !Offers(d, code)
    ensures FieldFrom(a, ds + [d], code)
  {
    var all := ds + [d];
    if forall k :: 0 <= k < |ds| ==> !Offers(ds[k], code) {
      forall k | 0 <= k < |all| ensures !Offers(all[k], code) {
        if k < |ds| { assert all[k] == ds[k]; }
      }
    } else {
      var j :| LastCarrier(ds, code, j) && ReadsFrom(Some(a), OptionsOf(ds[j]), code);
      CarrierStill(ds, d, code, j);
    }
  }

  lemma CarrierStill(ds: seq<Datagram>, d: Datagram, code: u8, j: int)
    requires LastCarrier(ds, code, j) && !Offers(d, code)
    ensures LastCarrier(ds + [d], code, j) && (ds + [d])[j] == ds[j]
  {
  }

  /** An OFFER's value is the first one given. */
  lemma {:induction false} OfferFirst(first: Option<Ipv4>, rest: seq<Option<Ipv4>>)
    ensures LastGiven(OrElse(first, 0), rest) == LastGiven(0, [first] + rest)
  {
    var all := [first] + rest;
    if rest == [] {
      assert all[..0] == [];
    } else {
      var n := |rest| - 1;
      OfferFirst(first, rest[..n]);
      assert all[..n + 1] == [first] + rest[..n] && all[n + 1] == rest[n];
    }
  }

  /** A lease by the bytes that were on the wire: mask, router and DNS server are
      the last ones given in options 1, 3 and 6, the server is the first datagram's
      option 54, and the address is the last datagram's. */
  ghost predicate LeaseFrom(l: Lease, ds: seq<Datagram>)
    requires ds != []
  {
    && FieldFrom(l.mask, ds, 1) && FieldFrom(l.gateway, ds, 3) && FieldFrom(l.dns, ds, 6)
    && FieldFrom(l.server, ds[..1], 54)
    && var last := ds[|ds| - 1].payload; |last| >= 20 && Octets4(l.ip) == last[16..20]
  }

  /** An OFFER of transaction `xid`, then ACKs of it. */
  ghost predicate OfferThenAcks(xid: u32, ds: seq<Datagram>) {
    forall k :: 0 <= k < |ds| ==> RepliesTo(ds[k], xid) && TypeIs(ds[k], if k == 0 then 2 else 5)
  }

  /** What a successful run stores comes from the accepted datagrams from the last
      OFFER on, and from nothing else. */
  lemma StoredOnWire(c: Client, net: Network) returns (earlier: seq<Datagram>, ds: seq<Datagram>)
    requires Outcome(c, net).0
    ensures Accepted(NewXid(c), History(c, net)) == earlier + ds && ds != []
    ensures OfferThenAcks(NewXid(c), ds) && LeaseFrom(Outcome(c, net).1.lease, ds)
  {
    var xid, h := NewXid(c), History(c, net);
    var before, offer, acks := StoredLease(c, net);
    AcceptedReplies(xid, h);
    earlier, ds := SplitAt(xid, Accepted(xid, h), Replies(xid, h), before, offer, acks);
    LeaseOnWire(xid, ds, offer, acks);
  }

  /** The replies an OFFER and the ACKs after it came in. */
  ghost predicate CameIn(xid: u32, ds: seq<Datagram>, offer: Reply, acks: seq<Reply>) {
    && |ds| == 1 + |acks| && Accept(xid, ds[0]) == Some(offer)
    && forall i :: 1 <= i < |ds| ==> Accept(xid, ds[i]) == Some(acks[i - 1])
  }

  lemma SplitAt(xid: u32, taken: seq<Datagram>, rs: seq<Reply>, before: seq<Reply>, offer: Reply, acks: seq<Reply>)
    returns (earlier: seq<Datagram>, ds: seq<Datagram>)
    requires rs == before + [offer] + acks && |taken| == |rs|
    requires forall i :: 0 <= i < |rs| ==> Accept(xid, taken[i]) == Some(rs[i])
    ensures taken == earlier + ds && CameIn(xid, ds, offer, acks)
  {
    earlier, ds := taken[..|before|], taken[|before|..];
    forall i | 1 <= i < |ds| ensures Accept(xid, ds[i]) == Some(acks[i - 1]) {
      assert rs[|before| + i] == acks[i - 1];
    }
  }

  lemma LeaseOnWire(xid: u32, ds: seq<Datagram>, offer: Reply, acks: seq<Reply>)
    requires CameIn(xid, ds, offer, acks) && offer.kind.Offer? && AllAcks(acks)
    ensures OfferThenAcks(xid, ds) && LeaseFrom(LeaseOf(offer, acks), ds)
  {
    TypesOnWire(xid, ds, offer, acks);
    LastAddress(xid, ds[|ds| - 1]);
    ValuesRead(xid, ds, offer, acks, 1, Masks(acks));
    ValuesRead(xid, ds, offer, acks, 3, Gateways(acks));
    ValuesRead(xid, ds, offer, acks, 6, DnsServers(acks));
    ValuesRead(xid, ds[..1], offer, [], 54, []);
  }

  lemma TypesOnWire(xid: u32, ds: seq<Datagram>, offer: Reply, acks: seq<Reply>)
    requires CameIn(xid, ds, offer, acks) && offer.kind.Offer? && AllAcks(acks)
    ensures OfferThenAcks(xid, ds)
  {
    forall k | 0 <= k < |ds| ensures RepliesTo(ds[k], xid) && TypeIs(ds[k], if k == 0 then 2 else 5) {
      AcceptExactly(xid, ds[k]);
    }
  }

  lemma LastAddress(xid: u32, d: Datagram)
    requires Accept(xid, d).Some?
    ensures |d.payload| >= 20 && Octets4(Accept(xid, d).value.ip) == d.payload[16..20]
  {
    AcceptExactly(xid, d);
  }

  /** The parsed field an option code fills. */
  function Value(o: ParsedOptions, code: u8): Option<Ipv4> {
    if code == 1 then o.subnet else if code == 3 then o.gateway else if code == 6 then o.dns else o.serverId
  }

  lemma ValueRead(xid: u32, d: Datagram, code: u8)
    requires Accept(xid, d).Some? && code in {1, 3, 6, 54}
    ensures |d.payload| >= 240 && ReadsFrom(Value(Accept(xid, d).value.options, code), OptionsOf(d), code)
  {
    AcceptExactly(xid, d);
  }

  /** The values of one option, datagram by datagram. */
  lemma ValuesRead(xid: u32, ds: seq<Datagram>, offer: Reply, acks: seq<Reply>, code: u8, later: seq<Option<Ipv4>>)
    requires CameIn(xid, ds, offer, acks) && code in {1, 3, 6, 54} && |later| == |acks|
    requires forall i :: 0 <= i < |acks| ==> later[i] == Value(acks[i].options, code)
    ensures FieldFrom(LastGiven(OrElse(Value(offer.options, code), 0), later), ds, code)
  {
    var fields := [Value(offer.options, code)] + later;
    forall k | 0 <= k < |ds| ensures |ds[k].payload| >= 240 && ReadsFrom(fields[k], OptionsOf(ds[k]), code) {
      ValueRead(xid, ds[k], code);
    }
    OfferFirst(Value(offer.options, code), later);
    LastGivenFrom(ds, fields, code);
  }
}
