/** A whole DHCP discovery run. The network is an arbitrary script: which
    datagrams are handled in each gap between two steps of the client. */
module DhcpRun {
  import opened Basics
  import opened DhcpOptions
  import opened Dhcp

  /** The datagrams around one timed wait: `early` ones are handled before the
      wait last looks at its flag, `late` ones after it has given up. */
  datatype Attempt = Attempt(early: seq<Datagram>, late: seq<Datagram>)

  type Attempts = a: seq<Attempt> | |a| == ATTEMPTS
    witness [Attempt([], []), Attempt([], []), Attempt([], []), Attempt([], []), Attempt([], [])]

  datatype Network = Network(
    beforeXid: seq<Datagram>, beforeOfferReset: seq<Datagram>, beforeAckReset: seq<Datagram>,
    offers: Attempts, between: seq<Datagram>, acks: Attempts, beforeStore: seq<Datagram>)

  // ── The run on values ───────────────────────────────────────────────

  predicate Ready(c: Client, kind: Kind) {
    match kind
    case Offer => c.offered
    case Ack => c.acked
  }

  /** The client after sending and waiting up to once per attempt. */
  function Listen(c: Client, kind: Kind, attempts: seq<Attempt>): Client
    decreases |attempts|
  {
    if attempts == [] then c
    else
      var c' := HandleAll(c, attempts[0].early);
      if Ready(c', kind) then c' else Listen(HandleAll(c', attempts[0].late), kind, attempts[1..])
  }

  /** The datagrams handled meanwhile. */
  function Heard(c: Client, kind: Kind, attempts: seq<Attempt>): seq<Datagram>
    decreases |attempts|
  {
    if attempts == [] then []
    else
      var c' := HandleAll(c, attempts[0].early);
      if Ready(c', kind) then attempts[0].early
      else attempts[0].early + attempts[0].late + Heard(HandleAll(c', attempts[0].late), kind, attempts[1..])
  }

  /** The messages sent meanwhile, each built from the lease as it then stood. */
  function Sends(c: Client, kind: Kind, mac: Mac, attempts: seq<Attempt>): (ms: seq<seq<u8>>)
    ensures |ms| <= |attempts|
    decreases |attempts|
  {
    if attempts == [] then []
    else
      var c' := HandleAll(c, attempts[0].early);
      [Message(kind, c.xid, mac, c.lease)]
      + (if Ready(c', kind) then [] else Sends(HandleAll(c', attempts[0].late), kind, mac, attempts[1..]))
  }

  /** The transaction id of a run that starts from `c`. */
  function NewXid(c: Client): u32 {
    (c.xid + 1) % 0x1_0000_0000
  }

  /** The client once both flags have been reset under a new transaction id. The
      receive loop is already running before the id changes. */
  function Started(c: Client, net: Network): Client {
    var listening := HandleAll(c, net.beforeXid);
    var begun := HandleAll(listening.(xid := NewXid(listening)), net.beforeOfferReset);
    HandleAll(begun.(offered := false), net.beforeAckReset).(acked := false)
  }

  function Offered(c: Client, net: Network): Client {
    Listen(Started(c, net), Offer, net.offers)
  }

  function Requesting(c: Client, net: Network): Client {
    HandleAll(Offered(c, net), net.between)
  }

  function Acknowledged(c: Client, net: Network): Client {
    Listen(Requesting(c, net), Ack, net.acks)
  }

  /** The run's verdict and the client it leaves behind. */
  function Outcome(c: Client, net: Network): (bool, Client) {
    if !Offered(c, net).offered then (false, Offered(c, net))
    else if !Acknowledged(c, net).acked then (false, Acknowledged(c, net))
    else (true, HandleAll(Acknowledged(c, net), net.beforeStore))
  }

  /** Everything sent: DISCOVERs, then REQUESTs if an OFFER came in. */
  function AllSends(c: Client, net: Network, mac: Mac): seq<seq<u8>> {
    Sends(Started(c, net), Offer, mac, net.offers)
    + (if Offered(c, net).offered then Sends(Requesting(c, net), Ack, mac, net.acks) else [])
  }

  // ── What a run guarantees ───────────────────────────────────────────

  lemma {:induction false} RepliesAppend(xid: u32, a: seq<Datagram>, b: seq<Datagram>)
    ensures Replies(xid, a + b) == Replies(xid, a) + Replies(xid, b)
  {
    if a == [] {
      assert a + b == b;
    } else {
      assert (a + b)[1..] == a[1..] + b;
      RepliesAppend(xid, a[1..], b);
      var r := Accept(xid, a[0]);
      Assoc(if r.Some? then [r.value] else [], Replies(xid, a[1..]), Replies(xid, b));
    }
  }

  lemma HasAppend(kind: Kind, a: seq<Reply>, b: seq<Reply>)
    ensures Has(kind, a + b) <==> Has(kind, a) || Has(kind, b)
  {
    if Has(kind, a) {
      var i :| 0 <= i < |a| && a[i].kind == kind;
      assert (a + b)[i].kind == kind;
    }
    if Has(kind, b) {
      var i :| 0 <= i < |b| && b[i].kind == kind;
      assert (a + b)[|a| + i].kind == kind;
    }
  }

  lemma HeardOneOf(kind: Kind, xid: u32, a: seq<Datagram>, b: seq<Datagram>)
    ensures Has(kind, Replies(xid, a + b)) <==> Has(kind, Replies(xid, a)) || Has(kind, Replies(xid, b))
  {
    RepliesAppend(xid, a, b);
    HasAppend(kind, Replies(xid, a), Replies(xid, b));
  }

  lemma {:induction false} ListenIsHandling(c: Client, kind: Kind, attempts: seq<Attempt>)
    ensures Listen(c, kind, attempts) == HandleAll(c, Heard(c, kind, attempts))
    decreases |attempts|
  {
    if attempts != [] {
      var a := attempts[0];
      var c' := HandleAll(c, a.early);
      if !Ready(c', kind) {
        var c'' := HandleAll(c', a.late);
        var later := Heard(c'', kind, attempts[1..]);
        ListenIsHandling(c'', kind, attempts[1..]);
        HandleAllAppend(c, a.early + a.late, later);
        HandleAllAppend(c, a.early, a.late);
      }
    }
  }

  function OfferWait(c: Client, net: Network): seq<Datagram> {
    Heard(Started(c, net), Offer, net.offers)
  }

  function AckWait(c: Client, net: Network): seq<Datagram> {
    Heard(Requesting(c, net), Ack, net.acks)
  }

  /** The flags and the lease at the end of each phase, as histories. */
  lemma StartedState(c: Client, net: Network) returns (l: Lease)
    ensures var rs := Replies(Started(c, net).xid, net.beforeAckReset);
            Started(c, net) == Client(NewXid(c), Merge(l, rs), Has(Offer, rs), false)
  {
    HandledHistory(c, net.beforeXid);
    var bumped := HandleAll(c, net.beforeXid).(xid := NewXid(c));
    HandledHistory(bumped, net.beforeOfferReset);
    var begun := HandleAll(bumped, net.beforeOfferReset).(offered := false);
    HandledHistory(begun, net.beforeAckReset);
    l := begun.lease;
  }

  lemma PhaseState(c: Client, kind: Kind, attempts: seq<Attempt>)
    ensures var rs := Replies(c.xid, Heard(c, kind, attempts));
            Listen(c, kind, attempts)
            == Client(c.xid, Merge(c.lease, rs), c.offered || Has(Offer, rs), c.acked || Has(Ack, rs))
  {
    ListenIsHandling(c, kind, attempts);
    HandledHistory(c, Heard(c, kind, attempts));
  }

  /** Discovery succeeds exactly when an OFFER of this transaction was accepted
      after the OFFER flag was reset and before the client stopped asking, and
      an ACK after the ACK flag was reset and before it stopped requesting. */
  lemma SuccessExactly(c: Client, net: Network)
    ensures var xid := NewXid(c);
            Outcome(c, net).0
            <==> && Has(Offer, Replies(xid, net.beforeAckReset + OfferWait(c, net)))
                 && Has(Ack, Replies(xid, OfferWait(c, net) + net.between + AckWait(c, net)))
  {
    var xid := NewXid(c);
    var _ := StartedState(c, net);
    PhaseState(Started(c, net), Offer, net.offers);
    HandledHistory(Offered(c, net), net.between);
    PhaseState(Requesting(c, net), Ack, net.acks);
    HeardOneOf(Offer, xid, net.beforeAckReset, OfferWait(c, net));
    HeardOneOf(Ack, xid, OfferWait(c, net), net.between);
    HeardOneOf(Ack, xid, OfferWait(c, net) + net.between, AckWait(c, net));
  }

  /** Every datagram handled from the OFFER reset to the store. */
  function History(c: Client, net: Network): seq<Datagram> {
    net.beforeAckReset + OfferWait(c, net) + net.between + AckWait(c, net) + net.beforeStore
  }

  lemma FinalLease(c: Client, net: Network) returns (l: Lease)
    ensures var xid := NewXid(c);
            HandleAll(Acknowledged(c, net), net.beforeStore).lease == Merge(l, Replies(xid, History(c, net)))
  {
    var xid := NewXid(c);
    l := StartedState(c, net);
    var a, b, d, e := net.beforeAckReset, OfferWait(c, net), AckWait(c, net), net.beforeStore;
    var m := net.between;
    PhaseState(Started(c, net), Offer, net.offers);
    HandledHistory(Offered(c, net), m);
    PhaseState(Requesting(c, net), Ack, net.acks);
    HandledHistory(Acknowledged(c, net), e);
    MergeFive(l, xid, a, b, m, d, e);
  }

  lemma MergeFive(l: Lease, xid: u32, a: seq<Datagram>, b: seq<Datagram>, m: seq<Datagram>, d: seq<Datagram>, e: seq<Datagram>)
    ensures Merge(l, Replies(xid, a + b + m + d + e))
         == Merge(Merge(Merge(Merge(Merge(l, Replies(xid, a)), Replies(xid, b)), Replies(xid, m)), Replies(xid, d)), Replies(xid, e))
  {
    MergeTwo(l, xid, a, b);
    MergeTwo(l, xid, a + b, m);
    MergeTwo(l, xid, a + b + m, d);
    MergeTwo(l, xid, a + b + m + d, e);
  }

  lemma MergeTwo(l: Lease, xid: u32, a: seq<Datagram>, b: seq<Datagram>)
    ensures Merge(l, Replies(xid, a + b)) == Merge(Merge(l, Replies(xid, a)), Replies(xid, b))
  {
    RepliesAppend(xid, a, b);
    MergeAppend(l, Replies(xid, a), Replies(xid, b));
  }

  /** The last reply accepted before the store; a successful run has one. */
  function LastReply(c: Client, net: Network): Reply
    requires Outcome(c, net).0
  {
    SuccessExactly(c, net);
    HistoryHasOffer(c, net, NewXid(c));
    var rs := Replies(NewXid(c), History(c, net));
    rs[|rs| - 1]
  }

  /** A successful run stores the lease named by the last OFFER accepted since
      the reset and the ACKs that followed it; nothing older leaks in. The address
      is the last accepted reply's. */
  lemma StoredLease(c: Client, net: Network) returns (before: seq<Reply>, offer: Reply, acks: seq<Reply>)
    requires Outcome(c, net).0
    ensures Replies(NewXid(c), History(c, net)) == before + [offer] + acks
    ensures offer.kind.Offer? && AllAcks(acks)
    ensures Outcome(c, net).1.lease == LeaseOf(offer, acks)
    ensures Outcome(c, net).1.lease.ip == LastReply(c, net).ip
  {
    var xid := NewXid(c);
    SuccessExactly(c, net);
    HistoryHasOffer(c, net, xid);
    var l := FinalLease(c, net);
    before, offer, acks := LastOffer(Replies(xid, History(c, net)));
    MergedLease(l, before, offer, acks);
  }

  /** Some ACK accepted since the reset carries the address. */
  ghost predicate Confirmed(c: Client, net: Network, ip: Ipv4) {
    exists r :: r in Replies(NewXid(c), History(c, net)) && r.kind.Ack? && r.ip == ip
  }

  /** The stored address is confirmed exactly when the last accepted reply is an
      ACK, or an ACK accepted before the last OFFER carried the offered address. */
  lemma ConfirmedExactly(c: Client, net: Network) returns (before: seq<Reply>, offer: Reply, acks: seq<Reply>)
    requires Outcome(c, net).0
    ensures Replies(NewXid(c), History(c, net)) == before + [offer] + acks
    ensures offer.kind.Offer? && AllAcks(acks)
    ensures Confirmed(c, net, Outcome(c, net).1.lease.ip)
       <==> LastReply(c, net).kind.Ack? || exists r :: r in before && r.kind.Ack? && r.ip == offer.ip
  {
    before, offer, acks := StoredLease(c, net);
    assert LastReply(c, net) in before + [offer] + acks;
    if acks == [] {
      assert LastReply(c, net) == offer;
      forall r | r in before ensures r in before + [offer] + acks {}
    }
  }

  lemma HistoryHasOffer(c: Client, net: Network, xid: u32)
    requires Has(Offer, Replies(xid, net.beforeAckReset + OfferWait(c, net)))
    ensures Has(Offer, Replies(xid, History(c, net)))
  {
    var a := net.beforeAckReset + OfferWait(c, net);
    HeardOneOf(Offer, xid, a, net.between);
    HeardOneOf(Offer, xid, a + net.between, AckWait(c, net));
    HeardOneOf(Offer, xid, a + net.between + AckWait(c, net), net.beforeStore);
  }

  function Quiet(attempt: Attempt): Attempts {
    [attempt, Attempt([], []), Attempt([], []), Attempt([], []), Attempt([], [])]
  }

  /** A network that answers the DISCOVER with `d`, and the REQUEST with `e` and
      `f` in quick succession. */
  function InQuickSuccession(d: Datagram, e: Datagram, f: Datagram): Network {
    Network([], [], [], Quiet(Attempt([d], [])), [], Quiet(Attempt([e, f], [])), [])
  }

  lemma HandleOne(c: Client, d: Datagram)
    ensures HandleAll(c, [d]) == Handle(c, d)
  {
    assert [d][1..] == [];
  }

  lemma HandleTwo(c: Client, d: Datagram, e: Datagram)
    ensures HandleAll(c, [d, e]) == Handle(Handle(c, d), e)
  {
    assert [d, e][1..] == [e];
    HandleOne(Handle(c, d), e);
  }

  lemma OfferPhase(c: Client, d: Datagram, e: Datagram, f: Datagram)
    requires Accept(NewXid(c), d).Some? && Accept(NewXid(c), d).value.kind.Offer?
    ensures var net, c0 := InQuickSuccession(d, e, f), Client(NewXid(c), c.lease, false, false);
            Started(c, net) == c0 && Requesting(c, net) == Offered(c, net) == Handle(c0, d) && OfferWait(c, net) == [d]
  {
    HandleOne(Client(NewXid(c), c.lease, false, false), d);
  }

  lemma AckPhase(c: Client, e: Datagram, f: Datagram)
    requires Accept(c.xid, e).Some? && Accept(c.xid, e).value.kind.Ack? && Accept(c.xid, f).Some?
    ensures var waits := Quiet(Attempt([e, f], []));
            Listen(c, Ack, waits) == Handle(Handle(c, e), f) && Heard(c, Ack, waits) == [e, f]
  {
    HandleTwo(c, e, f);
  }

  lemma Succeeds(c: Client, net: Network)
    requires Offered(c, net).offered && Acknowledged(c, net).acked && net.beforeStore == []
    ensures Outcome(c, net) == (true, Acknowledged(c, net))
  {
  }

  lemma QuickHistory(c: Client, d: Datagram, e: Datagram, f: Datagram)
    requires OfferWait(c, InQuickSuccession(d, e, f)) == [d] && AckWait(c, InQuickSuccession(d, e, f)) == [e, f]
    ensures History(c, InQuickSuccession(d, e, f)) == [d, e, f]
  {
  }

  /** An OFFER handled between the ACK and the store replaces the lease: the run
      succeeds and stores the second OFFER's address. */
  lemma LateOfferStored(c: Client, d: Datagram, e: Datagram, f: Datagram)
    requires Accept(NewXid(c), d).Some? && Accept(NewXid(c), d).value.kind.Offer?
    requires Accept(NewXid(c), e).Some? && Accept(NewXid(c), e).value.kind.Ack?
    requires Accept(NewXid(c), f).Some? && Accept(NewXid(c), f).value.kind.Offer?
    ensures var xid, net := NewXid(c), InQuickSuccession(d, e, f);
            && Outcome(c, net).0 && Outcome(c, net).1.lease.ip == Accept(xid, f).value.ip
            && Replies(xid, History(c, net)) == [Accept(xid, d).value, Accept(xid, e).value, Accept(xid, f).value]
  {
    var net := InQuickSuccession(d, e, f);
    OfferPhase(c, d, e, f);
    AckPhase(Requesting(c, net), e, f);
    Succeeds(c, net);
    QuickHistory(c, d, e, f);
    ThreeReplies(NewXid(c), d, e, f);
  }

  /** So a successful run can store an address no ACK has confirmed. */
  lemma UnconfirmedLeaseStored(c: Client, a: Ipv4, b: Ipv4) returns (net: Network)
    requires a != b
    ensures Outcome(c, net).0 && Outcome(c, net).1.lease.ip == b && !Confirmed(c, net, b)
  {
    var d := ReplyExists(Offer, NewXid(c), a);
    var e := ReplyExists(Ack, NewXid(c), a);
    var f := ReplyExists(Offer, NewXid(c), b);
    net := InQuickSuccession(d, e, f);
    LateOfferStored(c, d, e, f);
  }

  lemma ThreeReplies(xid: u32, d: Datagram, e: Datagram, f: Datagram)
    requires Accept(xid, d).Some? && Accept(xid, e).Some? && Accept(xid, f).Some?
    ensures Replies(xid, [d, e, f]) == [Accept(xid, d).value, Accept(xid, e).value, Accept(xid, f).value]
  {
    assert [d, e, f][1..] == [e, f] && [e, f][1..] == [f] && [f][1..] == [];
    assert Replies(xid, [f]) == [Accept(xid, f).value];
    assert Replies(xid, [e, f]) == [Accept(xid, e).value, Accept(xid, f).value];
  }

  /** The datagrams handled before the `i`-th message of a phase is built. */
  function HeardBefore(attempts: seq<Attempt>, i: nat): seq<Datagram>
    requires i <= |attempts|
    decreases i
  {
    if i == 0 then [] else attempts[0].early + attempts[0].late + HeardBefore(attempts[1..], i - 1)
  }

  /** Every message of a phase is built from the lease as the datagrams handled
      before it left it. */
  lemma {:induction false} SentFromLease(c: Client, kind: Kind, mac: Mac, attempts: seq<Attempt>, i: nat)
    requires i < |Sends(c, kind, mac, attempts)|
    ensures Sends(c, kind, mac, attempts)[i] == Message(kind, c.xid, mac, HandleAll(c, HeardBefore(attempts, i)).lease)
    decreases i
  {
    if i > 0 {
      var a := attempts[0];
      var c' := HandleAll(c, a.early);
      var c'' := HandleAll(c', a.late);
      HandledHistory(c, a.early);
      HandledHistory(c', a.late);
      SentFromLease(c'', kind, mac, attempts[1..], i - 1);
      HandledInTurn(c, a.early, a.late, HeardBefore(attempts[1..], i - 1));
    }
  }

  lemma HandledInTurn(c: Client, a: seq<Datagram>, b: seq<Datagram>, d: seq<Datagram>)
    ensures HandleAll(c, a + b + d) == HandleAll(HandleAll(HandleAll(c, a), b), d)
  {
    HandleAllAppend(c, a, b);
    HandleAllAppend(c, a + b, d);
  }

  /** Every datagram handled from the OFFER reset until the `i`-th REQUEST is built. */
  function HistoryBefore(c: Client, net: Network, i: nat): seq<Datagram>
    requires i <= ATTEMPTS
  {
    net.beforeAckReset + OfferWait(c, net) + net.between + HeardBefore(net.acks, i)
  }

  lemma LeaseBefore(c: Client, net: Network, i: nat) returns (l: Lease)
    requires i <= ATTEMPTS
    ensures HandleAll(Requesting(c, net), HeardBefore(net.acks, i)).lease == Merge(l, Replies(NewXid(c), HistoryBefore(c, net, i)))
  {
    var xid := NewXid(c);
    l := StartedState(c, net);
    var a, b, m, e := net.beforeAckReset, OfferWait(c, net), net.between, HeardBefore(net.acks, i);
    PhaseState(Started(c, net), Offer, net.offers);
    HandledHistory(Offered(c, net), m);
    HandledHistory(Requesting(c, net), e);
    MergeTwo(l, xid, a, b);
    MergeTwo(l, xid, a + b, m);
    MergeTwo(l, xid, a + b + m, e);
  }

  /** The `i`-th REQUEST names the address and the server that the OFFERs and ACKs
      accepted before it left: those of the last OFFER and the ACKs after it. */
  lemma RequestNamesOffer(c: Client, net: Network, mac: Mac, i: nat)
    returns (before: seq<Reply>, offer: Reply, acks: seq<Reply>)
    requires Offered(c, net).offered && i < |Sends(Requesting(c, net), Ack, mac, net.acks)|
    ensures Replies(NewXid(c), HistoryBefore(c, net, i)) == before + [offer] + acks
    ensures offer.kind.Offer? && AllAcks(acks)
    ensures Sends(Requesting(c, net), Ack, mac, net.acks)[i] == Message(Ack, NewXid(c), mac, LeaseOf(offer, acks))
  {
    var xid := NewXid(c);
    var _ := StartedState(c, net);
    PhaseState(Started(c, net), Offer, net.offers);
    HandledHistory(Offered(c, net), net.between);
    SentFromLease(Requesting(c, net), Ack, mac, net.acks, i);
    var l := LeaseBefore(c, net, i);
    OfferedBefore(c, net, i);
    before, offer, acks := LastOffer(Replies(xid, HistoryBefore(c, net, i)));
    MergedLease(l, before, offer, acks);
  }

  lemma OfferedBefore(c: Client, net: Network, i: nat)
    requires i <= ATTEMPTS && Offered(c, net).offered
    ensures Has(Offer, Replies(NewXid(c), HistoryBefore(c, net, i)))
  {
    var xid := NewXid(c);
    OfferHeard(c, net);
    var a := net.beforeAckReset + OfferWait(c, net);
    HeardOneOf(Offer, xid, a, net.between);
    HeardOneOf(Offer, xid, a + net.between, HeardBefore(net.acks, i));
  }

  lemma OfferHeard(c: Client, net: Network)
    ensures Offered(c, net).xid == Requesting(c, net).xid == Started(c, net).xid == NewXid(c)
    ensures Offered(c, net).offered <==> Has(Offer, Replies(NewXid(c), net.beforeAckReset + OfferWait(c, net)))
  {
    var _ := StartedState(c, net);
    PhaseState(Started(c, net), Offer, net.offers);
    HandledHistory(Offered(c, net), net.between);
    HeardOneOf(Offer, NewXid(c), net.beforeAckReset, OfferWait(c, net));
  }

  /** All DISCOVERs of a run are one and the same message. */
  lemma DiscoversAlike(c: Client, mac: Mac, attempts: seq<Attempt>, i: nat)
    requires i < |Sends(c, Offer, mac, attempts)|
    ensures Sends(c, Offer, mac, attempts)[i] == Message(Offer, c.xid, mac, c.lease)
  {
    SentFromLease(c, Offer, mac, attempts, i);
  }

  /** A phase that ends without its flag has used up every attempt. */
  lemma {:induction false} SendsAll(c: Client, kind: Kind, mac: Mac, attempts: seq<Attempt>)
    requires !Ready(Listen(c, kind, attempts), kind)
    ensures |Sends(c, kind, mac, attempts)| == |attempts|
    decreases |attempts|
  {
    if attempts != [] {
      SendsAll(HandleAll(HandleAll(c, attempts[0].early), attempts[0].late), kind, mac, attempts[1..]);
    }
  }

  /** A run gives a phase up only after five messages. */
  lemma GivesUpLate(c: Client, net: Network, mac: Mac)
    requires !Outcome(c, net).0
    ensures !Offered(c, net).offered ==> |Sends(Started(c, net), Offer, mac, net.offers)| == 5
    ensures Offered(c, net).offered ==> |Sends(Requesting(c, net), Ack, mac, net.acks)| == 5
  {
    if Offered(c, net).offered {
      SendsAll(Requesting(c, net), Ack, mac, net.acks);
    } else {
      SendsAll(Started(c, net), Offer, mac, net.offers);
    }
  }

  lemma {:induction false} SendsSome(c: Client, kind: Kind, mac: Mac, attempts: seq<Attempt>)
    requires attempts != []
    ensures Sends(c, kind, mac, attempts) != []
  {
  }

  /** A run sends at most five DISCOVERs and then at most five REQUESTs, all under
      the new transaction id; it sends a REQUEST exactly when an OFFER came in, and
      gives a phase up only after all five. */
  lemma SendsBounded(c: Client, net: Network, mac: Mac) returns (discovers: seq<seq<u8>>, requests: seq<seq<u8>>)
    ensures AllSends(c, net, mac) == discovers + requests && 1 <= |discovers| <= 5 && |requests| <= 5
    ensures requests != [] <==> Has(Offer, Replies(NewXid(c), net.beforeAckReset + OfferWait(c, net)))
    ensures !Outcome(c, net).0 ==> if requests == [] then |discovers| == 5 else |requests| == 5
    ensures forall i :: 0 <= i < |discovers| ==> discovers[i] == Message(Offer, NewXid(c), mac, Started(c, net).lease)
    ensures forall i :: 0 <= i < |requests| ==>
              requests[i] == Message(Ack, NewXid(c), mac, HandleAll(Requesting(c, net), HeardBefore(net.acks, i)).lease)
  {
    OfferHeard(c, net);
    discovers := Sends(Started(c, net), Offer, mac, net.offers);
    requests := if Offered(c, net).offered then Sends(Requesting(c, net), Ack, mac, net.acks) else [];
    SendsSome(Started(c, net), Offer, mac, net.offers);
    SendsSome(Requesting(c, net), Ack, mac, net.acks);
    if !Outcome(c, net).0 { GivesUpLate(c, net, mac); }
    forall i | 0 <= i < |discovers| ensures discovers[i] == Message(Offer, NewXid(c), mac, Started(c, net).lease) {
      DiscoversAlike(Started(c, net), mac, net.offers, i);
    }
    forall i | 0 <= i < |requests|
      ensures requests[i] == Message(Ack, NewXid(c), mac, HandleAll(Requesting(c, net), HeardBefore(net.acks, i)).lease)
    {
      SentFromLease(Requesting(c, net), Ack, mac, net.acks, i);
    }
  }

  // ── The client ──────────────────────────────────────────────────────

  class DhcpClient {
    const mac: Mac
    var xid: u32
    var ip: Ipv4
    var mask: Ipv4
    var gateway: Ipv4
    var dns: Ipv4
    var server: Ipv4
    var offerReady: bool
    var ackReady: bool
    var config: NetConfig
    var sent: seq<seq<u8>>

    ghost function View(): Client
      reads this
    {
      Client(xid, Lease(ip, mask, gateway, dns, server), offerReady, ackReady)
    }

    constructor (mac: Mac, config: NetConfig)
      ensures View() == Client(0x1234_5678, Lease(ANY_V4, ANY_V4, ANY_V4, ANY_V4, ANY_V4), false, false)
      ensures this.mac == mac && this.config == config && sent == []
    {
      this.mac := mac;
      xid := 0x1234_5678;
      ip, mask, gateway, dns, server := ANY_V4, ANY_V4, ANY_V4, ANY_V4, ANY_V4;
      offerReady, ackReady := false, false;
      this.config := config;
      sent := [];
    }

    method HandleReply(d: Datagram)
      modifies this
      ensures View() == Handle(old(View()), d)
      ensures config == old(config) && sent == old(sent)
    {
      if d.srcPort != SERVER_PORT { return; }
      var yiaddr := ValidateHeader(d.payload, xid);
      if yiaddr.None? { return; }
      var parsed := ParseOptions(d.payload[HEADER_LEN..]);
      MergeReply(yiaddr.value, parsed);
    }

    method MergeReply(yiaddr: Ipv4, parsed: ParsedOptions)
      modifies this
      ensures View() == Update(old(View()), ReplyOf(yiaddr, parsed))
      ensures config == old(config) && sent == old(sent)
    {
      if parsed.msgType == MSG_OFFER {
        ip := yiaddr;
        mask := OrElse(parsed.subnet, ANY_V4);
        gateway := OrElse(parsed.gateway, ANY_V4);
        dns := OrElse(parsed.dns, ANY_V4);
        server := OrElse(parsed.serverId, ANY_V4);
        offerReady := true;
      } else if parsed.msgType == MSG_ACK {
        ip := yiaddr;
        if parsed.subnet.Some? { mask := parsed.subnet.value; }
        if parsed.gateway.Some? { gateway := parsed.gateway.value; }
        if parsed.dns.Some? { dns := parsed.dns.value; }
        ackReady := true;
      }
    }

    /** The receive loop handles what the network delivers in one gap. */
    method Deliver(ds: seq<Datagram>)
      modifies this
      ensures View() == HandleAll(old(View()), ds)
      ensures config == old(config) && sent == old(sent)
    {
      var i := 0;
      while i < |ds|
        invariant 0 <= i <= |ds|
        invariant HandleAll(View(), ds[i..]) == HandleAll(old(View()), ds)
        invariant config == old(config) && sent == old(sent)
      {
        assert ds[i..][1..] == ds[i + 1..];
        HandleReply(ds[i]);
        i := i + 1;
      }
    }

    /** Fixed header, then the options; the length covers the BOOTP minimum. */
    method BuildPayload(tail: seq<u8>, buf: array<u8>) returns (n: nat)
      requires HEADER_LEN + |tail| <= buf.Length
      modifies buf
      ensures buf[..] == Splice(old(buf[..]), 0, FixedHeader(xid, mac) + tail)
      ensures n == if HEADER_LEN + |tail| > BUFFER_LEN then HEADER_LEN + |tail| else BUFFER_LEN
    {
      CopyInto(buf, 0, FixedHeader(xid, mac));
      CopyInto(buf, HEADER_LEN, tail);
      SpliceJoin(old(buf[..]), 0, FixedHeader(xid, mac), tail);
      n := HEADER_LEN + |tail|;
      if n < BUFFER_LEN { n := BUFFER_LEN; }
    }

    /** The DISCOVER or the REQUEST, into a buffer that is still zero behind it. */
    method Build(kind: Kind, buf: array<u8>) returns (n: nat)
      requires buf.Length == BUFFER_LEN && buf[HEADER_LEN + TailLen(kind)..] == Zeros(BUFFER_LEN - HEADER_LEN - TailLen(kind))
      modifies buf
      ensures n == BUFFER_LEN && buf[..] == Message(kind, xid, mac, View().lease)
    {
      ghost var was := buf[..];
      var tail := Tail(kind, Lease(ip, mask, gateway, dns, server));
      n := BuildPayload(tail, buf);
      FrontSpliced(was, FixedHeader(xid, mac) + tail);
    }

    /** One phase: send, wait, and repeat while the wait times out. */
    method Phase(kind: Kind, attempts: Attempts, buf: array<u8>)
      requires buf.Length == BUFFER_LEN && buf[HEADER_LEN + TailLen(kind)..] == Zeros(BUFFER_LEN - HEADER_LEN - TailLen(kind))
      modifies this, buf
      ensures View() == Listen(old(View()), kind, attempts)
      ensures sent == old(sent) + Sends(old(View()), kind, mac, attempts)
      ensures config == old(config)
      ensures buf[HEADER_LEN + TailLen(kind)..] == Zeros(BUFFER_LEN - HEADER_LEN - TailLen(kind))
    {
      var i := 0;
      var done := false;
      ghost var listened, said := Listen(View(), kind, attempts), sent + Sends(View(), kind, mac, attempts);
      assert attempts[0..] == attempts;
      while i < ATTEMPTS && !done
        invariant 0 <= i <= ATTEMPTS
        invariant buf[HEADER_LEN + TailLen(kind)..] == Zeros(BUFFER_LEN - HEADER_LEN - TailLen(kind))
        invariant config == old(config)
        invariant if done then View() == listened && sent == said
                  else Listen(View(), kind, attempts[i..]) == listened && sent + Sends(View(), kind, mac, attempts[i..]) == said
      {
        done := Round(kind, attempts, i, buf);
        i := i + 1;
      }
      assert !done ==> attempts[i..] == [];
    }

    /** Send once and wait once; true when the awaited reply has come. */
    method Round(kind: Kind, attempts: Attempts, i: nat, buf: array<u8>) returns (done: bool)
      requires i < ATTEMPTS && buf.Length == BUFFER_LEN
      requires buf[HEADER_LEN + TailLen(kind)..] == Zeros(BUFFER_LEN - HEADER_LEN - TailLen(kind))
      modifies this, buf
      ensures buf[HEADER_LEN + TailLen(kind)..] == Zeros(BUFFER_LEN - HEADER_LEN - TailLen(kind))
      ensures config == old(config)
      ensures var rest := if done then [] else attempts[i + 1..];
              && Listen(View(), kind, rest) == Listen(old(View()), kind, attempts[i..])
              && sent + Sends(View(), kind, mac, rest) == old(sent) + Sends(old(View()), kind, mac, attempts[i..])
    {
      assert attempts[i..][1..] == attempts[i + 1..];
      var n := Build(kind, buf);
      ghost var message := buf[..];
      assert message[HEADER_LEN + TailLen(kind)..] == Zeros(BUFFER_LEN - HEADER_LEN - TailLen(kind));
      sent := sent + [buf[..n]];
      assert buf[..n] == message;
      Deliver(attempts[i].early);
      done := if kind.Offer? then offerReady else ackReady;
      if !done {
        Deliver(attempts[i].late);
        Assoc(old(sent), [message], Sends(View(), kind, mac, attempts[i + 1..]));
      }
    }

    /** The receive loop is up; then a new transaction id and the two flag resets. */
    method Begin(net: Network)
      modifies this
      ensures View() == Started(old(View()), net)
      ensures config == old(config) && sent == old(sent)
    {
      Deliver(net.beforeXid);
      xid := (xid + 1) % 0x1_0000_0000;
      Deliver(net.beforeOfferReset);
      offerReady := false;
      Deliver(net.beforeAckReset);
      ackReady := false;
    }

    method Discover(bound: bool, net: Network) returns (ok: bool)
      modifies this
      ensures !bound ==> !ok && View() == old(View()) && config == old(config) && sent == old(sent)
      ensures bound ==> (ok, View()) == Outcome(old(View()), net)
      ensures bound ==> sent == old(sent) + AllSends(old(View()), net, mac)
      ensures config == if ok then NetConfig(ip, mask, gateway, dns) else old(config)
    {
      if !bound { return false; }
      ghost var c, log := View(), sent;
      Begin(net);
      ok := Negotiate(net, c, log);
      if ok { config := NetConfig(ip, mask, gateway, dns); }
    }

    /** Phase 1: DISCOVER until an OFFER; then phase 2. */
    method Negotiate(net: Network, ghost c: Client, ghost log: seq<seq<u8>>) returns (ok: bool)
      requires View() == Started(c, net) && sent == log
      modifies this
      ensures (ok, View()) == Outcome(c, net) && sent == log + AllSends(c, net, mac) && config == old(config)
    {
      var buf := new u8[BUFFER_LEN](_ => 0);
      assert buf[HEADER_LEN + TailLen(Offer)..] == Zeros(BUFFER_LEN - HEADER_LEN - TailLen(Offer));
      ghost var asked := Sends(View(), Offer, mac, net.offers);
      Phase(Offer, net.offers, buf);
      if !offerReady {
        assert asked + [] == asked;
        return false;
      }
      Deliver(net.between);
      ZerosTail(buf[..]);
      ok := Request(net, buf, c, log + asked);
      Assoc(log, asked, Sends(Requesting(c, net), Ack, mac, net.acks));
    }

    /** Phase 2: REQUEST until an ACK. */
    method Request(net: Network, buf: array<u8>, ghost c: Client, ghost log: seq<seq<u8>>) returns (ok: bool)
      requires View() == Requesting(c, net) && Offered(c, net).offered && sent == log
      requires buf.Length == BUFFER_LEN && buf[HEADER_LEN + TailLen(Ack)..] == Zeros(BUFFER_LEN - HEADER_LEN - TailLen(Ack))
      modifies this, buf
      ensures (ok, View()) == Outcome(c, net) && config == old(config)
      ensures sent == log + Sends(Requesting(c, net), Ack, mac, net.acks)
    {
      Phase(Ack, net.acks, buf);
      if !ackReady { return false; }
      Deliver(net.beforeStore);
      return true;
    }
  }

  lemma FrontSpliced(s: seq<u8>, b: seq<u8>)
    requires |b| <= |s|
    ensures Splice(s, 0, b) == b + s[|b|..]
  {
  }

  lemma ZerosTail(s: seq<u8>)
    requires |s| == BUFFER_LEN && s[HEADER_LEN + TailLen(Offer)..] == Zeros(BUFFER_LEN - HEADER_LEN - TailLen(Offer))
    ensures s[HEADER_LEN + TailLen(Ack)..] == Zeros(BUFFER_LEN - HEADER_LEN - TailLen(Ack))
  {
    var z := s[HEADER_LEN + TailLen(Offer)..];
    assert s[HEADER_LEN + TailLen(Ack)..] == z[12..];
  }
}
