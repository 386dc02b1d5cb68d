/** What holds of the ARP caches after any sequence of events under a fixed
    configuration, starting from boot. */
module ArpRuns {
  import opened Basics
  import opened Arp

  /** An event on one core: an ARP frame, a snooped sender, a synchronous resolve,
      or an asynchronous one reading the caches for its next hop. */
  datatype Event =
    | Received(core: nat, data: seq<u8>)
    | Learned(core: nat, ip: Ipv4, mac: Mac)
    | Resolved(core: nat, ip: Ipv4)
    | Awaited(core: nat, hop: Ipv4)

  function Step(st: ArpState, cfg: NetConfig, ev: Event): (r: ArpState)
    requires |st.entries| == ARP_CACHE_SIZE
    ensures |r.entries| == ARP_CACHE_SIZE && |r.fast| == |st.fast|
  {
    match ev
    case Received(core, data) => Receive(st, cfg, core, data)
    case Learned(core, ip, mac) => Learn(st, core, ip, mac)
    case Resolved(core, ip) => Resolve(st, cfg, core, ip).1
    case Awaited(core, hop) =>
      match ResolveMac(st, st, core, hop)
      case Routed(_, _, r) => r
      case _ => st
  }

  function Run(cores: nat, cfg: NetConfig, evs: seq<Event>): (st: ArpState)
    ensures |st.entries| == ARP_CACHE_SIZE && |st.fast| == cores
  {
    if evs == [] then Initial(cores)
    else Step(Run(cores, cfg, evs[..|evs| - 1]), cfg, evs[|evs| - 1])
  }

  // ── What was heard ──────────────────────────────────────────────────

  /** The sender pairs the received packets announced, oldest first. */
  function Heard(evs: seq<Event>): seq<(Ipv4, Mac)> {
    if evs == [] then []
    else Heard(evs[..|evs| - 1]) + HeardIn(evs[|evs| - 1])
  }

  function HeardIn(ev: Event): seq<(Ipv4, Mac)> {
    if ev.Received? then
      match Decode(ev.data)
      case Some(p) => if p.senderIp != ANY_V4 then [(p.senderIp, p.senderMac)] else []
      case None => []
    else []
  }

  /** The MAC most recently announced for `ip`. */
  function Latest(h: seq<(Ipv4, Mac)>, ip: Ipv4): Option<Mac> {
    if h == [] then None
    else if h[|h| - 1].0 == ip then Some(h[|h| - 1].1)
    else Latest(h[..|h| - 1], ip)
  }

  function HeardIps(h: seq<(Ipv4, Mac)>): set<Ipv4> {
    set p | p in h :: p.0
  }

  lemma LatestAppend(h: seq<(Ipv4, Mac)>, p: (Ipv4, Mac), ip: Ipv4)
    ensures Latest(h + [p], ip) == if p.0 == ip then Some(p.1) else Latest(h, ip)
  {
    assert (h + [p])[..|h|] == h;
  }

  lemma {:induction false} LatestHeard(h: seq<(Ipv4, Mac)>, ip: Ipv4)
    ensures Latest(h, ip).Some? <==> ip in HeardIps(h)
  {
    if h != [] {
      var t, p := h[..|h| - 1], h[|h| - 1];
      LatestHeard(t, ip);
      assert h == t + [p];
      assert HeardIps(h) == HeardIps(t) + {p.0};
    }
  }

  /** One event changes the shared table only by the pair it announced. */
  lemma StepShared(st: ArpState, cfg: NetConfig, ev: Event)
    requires |st.entries| == ARP_CACHE_SIZE
    ensures var r, h := Step(st, cfg, ev), HeardIn(ev);
            if h == [] then r.entries == st.entries && r.gateway == st.gateway
            else && r.entries == Update(st.entries, h[0].0, h[0].1)
                 && r.gateway == if h[0].0 == cfg.gateway then Some(h[0].1) else st.gateway
  {
  }

  // ── Coherence ───────────────────────────────────────────────────────

  /** Entries have distinct IPs, a hit is the MAC heard last, and the gateway
      shortcut is the gateway's MAC heard last. */
  lemma {:induction false} CacheCoherent(cores: nat, cfg: NetConfig, evs: seq<Event>)
    ensures var st := Run(cores, cfg, evs);
            && Distinct(st.entries)
            && (forall ip :: Lookup(st.entries, ip).None? || Lookup(st.entries, ip) == Latest(Heard(evs), ip))
            && st.gateway == Latest(Heard(evs), cfg.gateway)
  {
    var st := Run(cores, cfg, evs);
    if evs == [] {
      EmptyTable(cores);
    } else {
      var pre, ev := evs[..|evs| - 1], evs[|evs| - 1];
      CacheCoherent(cores, cfg, pre);
      var before := Run(cores, cfg, pre);
      StepShared(before, cfg, ev);
      if HeardIn(ev) != [] {
        var p := HeardIn(ev)[0];
        assert HeardIn(ev) == [p];
        UpdateKeepsDistinct(before.entries, p.0, p.1);
        LatestAppend(Heard(pre), p, cfg.gateway);
        forall ip ensures Lookup(st.entries, ip).None? || Lookup(st.entries, ip) == Latest(Heard(evs), ip) {
          LatestAppend(Heard(pre), p, ip);
          UpdateLookup(before.entries, p.0, p.1, ip);
        }
      } else {
        assert Heard(evs) == Heard(pre);
      }
    }
  }

  /** The gateway shortcut and the table never disagree. */
  lemma ShortcutAgrees(cores: nat, cfg: NetConfig, evs: seq<Event>)
    ensures var st := Run(cores, cfg, evs);
            Lookup(st.entries, cfg.gateway).Some? ==> st.gateway == Lookup(st.entries, cfg.gateway)
  {
    CacheCoherent(cores, cfg, evs);
  }

  function Ips(es: seq<ArpEntry>): set<Ipv4> {
    set e | e in es && e.valid :: e.ip
  }

  lemma {:induction false} FullCount(es: seq<ArpEntry>)
    requires Distinct(es) && Full(es)
    ensures |Ips(es)| == |es|
  {
    if es == [] {
      assert Ips(es) == {};
    } else {
      var t, e := es[..|es| - 1], es[|es| - 1];
      FullCount(t);
      assert es == t + [e];
      assert Ips(es) == Ips(t) + {e.ip};
      assert e.ip !in Ips(t);
    }
  }

  lemma LookupIps(es: seq<ArpEntry>, ip: Ipv4)
    ensures Lookup(es, ip).Some? <==> ip in Ips(es)
  {
    var m := FirstMatch(es, ip);
    if m < |es| { assert es[m] in es; }
  }

  /** A full table that holds exactly the hosts heard has no room only for a host
      that would be the 65th. */
  lemma RoomLeft(es: seq<ArpEntry>, h: seq<(Ipv4, Mac)>, p: (Ipv4, Mac))
    requires |es| == ARP_CACHE_SIZE && Distinct(es) && forall ip :: Lookup(es, ip) == Latest(h, ip)
    requires |HeardIps(h) + {p.0}| <= ARP_CACHE_SIZE && Full(es)
    ensures Lookup(es, p.0).Some?
  {
    FullCount(es);
    SameIps(es, h);
    LookupIps(es, p.0);
  }

  /** One more announcement, while there is room for its host. */
  lemma CompleteStep(es: seq<ArpEntry>, h: seq<(Ipv4, Mac)>, p: (Ipv4, Mac))
    requires |es| == ARP_CACHE_SIZE && Distinct(es) && forall ip :: Lookup(es, ip) == Latest(h, ip)
    requires |HeardIps(h) + {p.0}| <= ARP_CACHE_SIZE
    ensures forall ip :: Lookup(Update(es, p.0, p.1), ip) == Latest(h + [p], ip)
  {
    if Full(es) { RoomLeft(es, h, p); }
    forall ip ensures Lookup(Update(es, p.0, p.1), ip) == Latest(h + [p], ip) {
      LatestAppend(h, p, ip);
      UpdateLookup(es, p.0, p.1, ip);
    }
  }

  /** While at most 64 hosts have been heard nothing is evicted: the table is
      exactly the map from each host to its latest MAC. */
  lemma {:induction false} CompleteUpToCapacity(cores: nat, cfg: NetConfig, evs: seq<Event>)
    requires |HeardIps(Heard(evs))| <= 64
    ensures forall ip :: Lookup(Run(cores, cfg, evs).entries, ip) == Latest(Heard(evs), ip)
  {
    if evs == [] {
      EmptyTable(cores);
    } else {
      var pre, ev := evs[..|evs| - 1], evs[|evs| - 1];
      var before, h := Run(cores, cfg, pre), Heard(pre);
      StepShared(before, cfg, ev);
      if HeardIn(ev) == [] {
        assert Heard(evs) == h;
        CompleteUpToCapacity(cores, cfg, pre);
      } else {
        var p := HeardIn(ev)[0];
        assert HeardIn(ev) == [p];
        HeardOneMore(h, p);
        CompleteUpToCapacity(cores, cfg, pre);
        StillDistinct(cores, cfg, pre);
        CompleteStep(before.entries, h, p);
      }
    }
  }

  lemma EmptyTable(cores: nat)
    ensures forall ip :: Lookup(Initial(cores).entries, ip).None?
  {
    forall ip ensures Lookup(Initial(cores).entries, ip).None? {
      var m := FirstMatch(Initial(cores).entries, ip);
    }
  }

  lemma StillDistinct(cores: nat, cfg: NetConfig, evs: seq<Event>)
    ensures Distinct(Run(cores, cfg, evs).entries)
  {
    CacheCoherent(cores, cfg, evs);
  }

  lemma HeardOneMore(h: seq<(Ipv4, Mac)>, p: (Ipv4, Mac))
    ensures HeardIps(h + [p]) == HeardIps(h) + {p.0}
    ensures |HeardIps(h)| <= |HeardIps(h + [p])|
  {
    assert HeardIps(h + [p]) == HeardIps(h) + {p.0};
    CapacityGrows(HeardIps(h), p.0);
  }

  lemma CapacityGrows(s: set<Ipv4>, x: Ipv4)
    ensures |s| <= |s + {x}|
  {
    if x in s { assert s + {x} == s; }
  }

  lemma SameIps(es: seq<ArpEntry>, h: seq<(Ipv4, Mac)>)
    requires forall ip :: Lookup(es, ip) == Latest(h, ip)
    ensures Ips(es) == HeardIps(h)
  {
    forall ip: Ipv4 ensures ip in Ips(es) <==> ip in HeardIps(h) {
      LookupIps(es, ip);
      LatestHeard(h, ip);
    }
  }

  /** `b` is a full table that differs from `a` at most in the IP of slot 0. */
  ghost predicate KeepsIps(a: seq<ArpEntry>, b: seq<ArpEntry>) {
    |a| == |b| && Full(b) && forall i :: 1 <= i < |a| ==> b[i].ip == a[i].ip
  }

  lemma KeepsIpsOnwards(a: seq<ArpEntry>, b: seq<ArpEntry>, c: seq<ArpEntry>)
    requires KeepsIps(a, b) && KeepsIps(b, c)
    ensures KeepsIps(a, c)
  {
  }

  lemma FullStep(st: ArpState, cfg: NetConfig, ev: Event)
    requires |st.entries| == ARP_CACHE_SIZE && Full(st.entries)
    ensures KeepsIps(st.entries, Step(st, cfg, ev).entries)
  {
    StepShared(st, cfg, ev);
    if HeardIn(ev) != [] {
      FullKeepsIps(st.entries, HeardIn(ev)[0].0, HeardIn(ev)[0].1);
    }
  }

  lemma RunSnoc(cores: nat, cfg: NetConfig, evs: seq<Event>, ev: Event)
    ensures Run(cores, cfg, evs + [ev]) == Step(Run(cores, cfg, evs), cfg, ev)
  {
    assert (evs + [ev])[..|evs|] == evs;
  }

  /** After the table fills up, slots 1..63 keep their IP for ever. */
  lemma {:induction false} OnlySlotZeroChanges(cores: nat, cfg: NetConfig, evs: seq<Event>, more: seq<Event>)
    requires Full(Run(cores, cfg, evs).entries)
    ensures KeepsIps(Run(cores, cfg, evs).entries, Run(cores, cfg, evs + more).entries)
  {
    if more == [] {
      assert evs + more == evs;
    } else {
      var t, ev := more[..|more| - 1], more[|more| - 1];
      OnlySlotZeroChanges(cores, cfg, evs, t);
      assert evs + more == evs + t + [ev];
      RunSnoc(cores, cfg, evs + t, ev);
      var mid := Run(cores, cfg, evs + t);
      FullStep(mid, cfg, ev);
      KeepsIpsOnwards(Run(cores, cfg, evs).entries, mid.entries, Step(mid, cfg, ev).entries);
    }
  }

  /** Once the gateway has been heard, resolving any other off-link
      destination is answered without a request; the answer is the core's own
      fast slot or the gateway's latest MAC. */
  lemma GatewayHeardStaysCold(cores: nat, cfg: NetConfig, evs: seq<Event>, core: nat, dest: Ipv4)
    requires Latest(Heard(evs), cfg.gateway).Some?
    requires NextHop(dest, cfg) == Some(cfg.gateway) && dest != cfg.gateway && dest != ANY_V4
    ensures var st := Run(cores, cfg, evs);
            Resolve(st, cfg, core, dest).0
            == match FastLookup(st, core, dest)
               case Some(mac) => Answer(mac)
               case None => Answer(Latest(Heard(evs), cfg.gateway).value)
  {
    var st := Run(cores, cfg, evs);
    CacheCoherent(cores, cfg, evs);
    ResolveViaGateway(st, cfg, core, dest);
  }

  lemma ResolveViaGateway(st: ArpState, cfg: NetConfig, core: nat, dest: Ipv4)
    requires st.gateway.Some?
    requires NextHop(dest, cfg) == Some(cfg.gateway) && dest != cfg.gateway && dest != ANY_V4
    ensures Resolve(st, cfg, core, dest).0
         == match FastLookup(st, core, dest)
            case Some(mac) => Answer(mac)
            case None => Answer(st.gateway.value)
  {
  }

  // ── Fast slots over a run ───────────────────────────────────────────

  /** What an ARP frame announces, by the byte offsets of RFC 826. */
  lemma HeardOnWire(core: nat, data: seq<u8>)
    ensures |data| >= 28 && data[14..18] != [0, 0, 0, 0] ==>
              HeardIn(Received(core, data)) == [(Le32(data[14], data[15], data[16], data[17]), data[8..14])]
    ensures |data| < 28 || data[14..18] == [0, 0, 0, 0] ==> HeardIn(Received(core, data)) == []
  {
    if |data| >= 28 {
      assert data[14..18] == [data[14], data[15], data[16], data[17]];
    }
  }

  /** The pair an event tells a core: heard in an ARP frame or snooped from a
      usable sender. */
  function Told(ev: Event, core: nat): Option<(Ipv4, Mac)> {
    if ev.core != core then None
    else
      match ev
      case Received(_, _) => if HeardIn(ev) == [] then None else Some(HeardIn(ev)[0])
      case Learned(_, ip, mac) =>
        if ip == 0 || ip == 0xFFFF_FFFF || mac == MAC_BROADCAST || mac == MAC_ZERO then None else Some((ip, mac))
      case Resolved(_, _) => None
      case Awaited(_, _) => None
  }

  /** Whose MAC reaches `ip`. */
  function Hop(cfg: NetConfig, ip: Ipv4): Ipv4 {
    match NextHop(ip, cfg)
    case Some(hop) => hop
    case None => ip
  }

  /** Event `i` gave the core this MAC for `ip`: it told it so, or it resolved `ip`
      when this was the MAC last announced for its next hop, or awaited `ip` when
      this was the MAC last announced for it. */
  predicate Gave(cfg: NetConfig, evs: seq<Event>, i: nat, core: nat, ip: Ipv4, mac: Mac)
    requires i < |evs|
  {
    || Told(evs[i], core) == Some((ip, mac))
    || (evs[i] == Resolved(core, ip) && Latest(Heard(evs[..i]), Hop(cfg, ip)) == Some(mac))
    || (evs[i] == Awaited(core, ip) && Latest(Heard(evs[..i]), ip) == Some(mac))
  }

  /** Some event gave the core this pair, and it has been told nothing since. */
  ghost predicate Remembered(cfg: NetConfig, evs: seq<Event>, core: nat, ip: Ipv4, mac: Mac) {
    exists i :: 0 <= i < |evs| && Gave(cfg, evs, i, core, ip, mac) && UntoldSince(evs, i, core)
  }

  ghost predicate UntoldSince(evs: seq<Event>, i: nat, core: nat) {
    forall j :: i < j < |evs| ==> Told(evs[j], core).None?
  }

  lemma RememberedNow(cfg: NetConfig, evs: seq<Event>, core: nat, ip: Ipv4, mac: Mac)
    requires evs != [] && Gave(cfg, evs, |evs| - 1, core, ip, mac)
    ensures Remembered(cfg, evs, core, ip, mac)
  {
    assert UntoldSince(evs, |evs| - 1, core);
  }

  lemma RememberedStill(cfg: NetConfig, evs: seq<Event>, core: nat, ip: Ipv4, mac: Mac)
    requires evs != [] && Remembered(cfg, evs[..|evs| - 1], core, ip, mac) && Told(evs[|evs| - 1], core).None?
    ensures Remembered(cfg, evs, core, ip, mac)
  {
    var pre := evs[..|evs| - 1];
    var i :| 0 <= i < |pre| && Gave(cfg, pre, i, core, ip, mac) && UntoldSince(pre, i, core);
    GaveStill(cfg, evs, i, core, ip, mac);
    UntoldStill(evs, i, core);
  }

  lemma GaveStill(cfg: NetConfig, evs: seq<Event>, i: nat, core: nat, ip: Ipv4, mac: Mac)
    requires i < |evs| - 1 && Gave(cfg, evs[..|evs| - 1], i, core, ip, mac)
    ensures Gave(cfg, evs, i, core, ip, mac)
  {
    var pre := evs[..|evs| - 1];
    assert evs[..i] == pre[..i] && evs[i] == pre[i];
  }

  lemma UntoldStill(evs: seq<Event>, i: nat, core: nat)
    requires evs != [] && UntoldSince(evs[..|evs| - 1], i, core) && Told(evs[|evs| - 1], core).None?
    ensures UntoldSince(evs, i, core)
  {
    var pre := evs[..|evs| - 1];
    forall j | i < j < |evs| ensures Told(evs[j], core).None? {
      if j < |pre| { assert pre[j] == evs[j]; }
    }
  }

  /** What is in a slot after a store. */
  lemma FastAfterStore(st: ArpState, core: nat, ip: Ipv4, mac: Mac, x: Ipv4)
    requires core < |st.fast| && ip != ANY_V4
    ensures FastLookup(FastStore(st, core, ip, mac), core, x) == if x == ip then Some(mac) else None
  {
    FastStoreThenLookup(st, core, ip, mac);
  }

  /** Being told a pair makes it the core's one fast entry. */
  lemma ToldIsStored(st: ArpState, cfg: NetConfig, ev: Event, core: nat, x: Ipv4)
    requires |st.entries| == ARP_CACHE_SIZE && core < |st.fast| && Told(ev, core).Some?
    ensures var (ip, mac) := Told(ev, core).value;
            FastLookup(Step(st, cfg, ev), core, x) == if x == ip then Some(mac) else None
  {
    var (ip, mac) := Told(ev, core).value;
    FastAfterStore(st, core, ip, mac, x);
    if ev.Received? {
      FastAfterStore(st.(entries := Step(st, cfg, ev).entries, gateway := Step(st, cfg, ev).gateway), core, ip, mac, x);
    }
  }

  /** A resolve on this core leaves its entry alone or replaces it by its answer. */
  lemma ResolvedIsStored(st: ArpState, cfg: NetConfig, core: nat, ip: Ipv4, x: Ipv4)
    requires core < |st.fast|
    ensures var (r, st') := Resolve(st, cfg, core, ip);
            || FastLookup(st', core, x) == FastLookup(st, core, x)
            || (r.Answer? && FastLookup(st', core, x) == (if x == ip then Some(r.mac) else None)
                && (Lookup(st.entries, Hop(cfg, ip)) == Some(r.mac)
                    || (Hop(cfg, ip) == cfg.gateway && st.gateway == Some(r.mac))))
  {
    var (r, st') := Resolve(st, cfg, core, ip);
    if r.Answer? && ip != BROADCAST_V4 && FastLookup(st, core, ip).None? {
      FastAfterStore(st, core, ip, r.mac, x);
    }
  }

  /** So does an asynchronous resolve. */
  lemma AwaitedIsStored(st: ArpState, cfg: NetConfig, core: nat, hop: Ipv4, x: Ipv4)
    requires |st.entries| == ARP_CACHE_SIZE && core < |st.fast|
    ensures var st' := Step(st, cfg, Awaited(core, hop));
            || FastLookup(st', core, x) == FastLookup(st, core, x)
            || (Lookup(st.entries, hop).Some? && FastLookup(st', core, x) == if x == hop then Lookup(st.entries, hop) else None)
  {
    if hop != ANY_V4 && Lookup(st.entries, hop).Some? {
      FastAfterStore(st, core, hop, Lookup(st.entries, hop).value, x);
    }
  }

  lemma UntoldKeeps(st: ArpState, cfg: NetConfig, ev: Event, core: nat, x: Ipv4)
    requires |st.entries| == ARP_CACHE_SIZE && Told(ev, core).None?
    requires ev.core == core ==> !ev.Resolved? && !ev.Awaited?
    ensures FastLookup(Step(st, cfg, ev), core, x) == FastLookup(st, core, x)
  {
  }

  /** After any run, what a fast slot answers is what its core was given for that
      IP, and the core has been told nothing since. */
  lemma {:induction false} FastCoherent(cores: nat, cfg: NetConfig, evs: seq<Event>, core: nat, ip: Ipv4)
    ensures var hit := FastLookup(Run(cores, cfg, evs), core, ip);
            hit.Some? ==> Remembered(cfg, evs, core, ip, hit.value)
  {
    if evs != [] && core < cores {
      var pre, ev := evs[..|evs| - 1], evs[|evs| - 1];
      var st := Run(cores, cfg, pre);
      var hit := FastLookup(Run(cores, cfg, evs), core, ip);
      FastCoherent(cores, cfg, pre, core, ip);
      if hit.Some? {
        if Told(ev, core).Some? {
          ToldIsStored(st, cfg, ev, core, ip);
          RememberedNow(cfg, evs, core, ip, hit.value);
        } else if (ev.Resolved? || ev.Awaited?) && ev.core == core {
          if ev.Resolved? { ResolvedIsStored(st, cfg, core, ev.ip, ip); } else { AwaitedIsStored(st, cfg, core, ev.hop, ip); }
          if hit == FastLookup(st, core, ip) {
            RememberedStill(cfg, evs, core, ip, hit.value);
          } else {
            CacheCoherent(cores, cfg, pre);
            RememberedNow(cfg, evs, core, ip, hit.value);
          }
        } else {
          UntoldKeeps(st, cfg, ev, core, ip);
          RememberedStill(cfg, evs, core, ip, hit.value);
        }
      }
    }
  }

  /** And a core that was told something last of all knows it. */
  lemma {:induction false} ToldIsKnown(cores: nat, cfg: NetConfig, evs: seq<Event>, i: nat, core: nat)
    requires core < cores && i < |evs| && Told(evs[i], core).Some?
    requires forall j :: i < j < |evs| ==> evs[j].core != core
    ensures var (ip, mac) := Told(evs[i], core).value;
            FastLookup(Run(cores, cfg, evs), core, ip) == Some(mac)
  {
    var pre, ev := evs[..|evs| - 1], evs[|evs| - 1];
    var st := Run(cores, cfg, pre);
    var (ip, mac) := Told(evs[i], core).value;
    if i == |evs| - 1 {
      ToldIsStored(st, cfg, ev, core, ip);
    } else {
      assert pre[i] == evs[i] && forall j :: i < j < |pre| ==> pre[j] == evs[j];
      ToldIsKnown(cores, cfg, pre, i, core);
      UntoldKeeps(st, cfg, ev, core, ip);
    }
  }

  /** Every answer of the synchronous path, after any run, is justified: the MAC
      this core was given for the destination, or the one last announced for its
      next hop. A request goes to the next hop, and only if that has not been
      heard or its entry was pushed out of the table. */
  lemma ResolveAnswers(cores: nat, cfg: NetConfig, evs: seq<Event>, core: nat, ip: Ipv4)
    ensures var r, latest := Resolve(Run(cores, cfg, evs), cfg, core, ip).0, Latest(Heard(evs), Hop(cfg, ip));
            if ip == 0xFFFF_FFFF then r == Answer(MAC_BROADCAST)
            else if ip == 0 then r == NoAnswer
            else match r
                 case Answer(mac) => Remembered(cfg, evs, core, ip, mac) || latest == Some(mac)
                 case NoAnswer => false
                 case Request(target) =>
                   && target == Hop(cfg, ip)
                   && (target != ip || |HeardIps(Heard(evs))| <= 64 ==> latest.None?)
  {
    var st := Run(cores, cfg, evs);
    ResolveCases(st, cfg, core, ip);
    CacheCoherent(cores, cfg, evs);
    FastCoherent(cores, cfg, evs, core, ip);
    if |HeardIps(Heard(evs))| <= 64 { CompleteUpToCapacity(cores, cfg, evs); }
  }

  /** Where an answer comes from, and when there is none. */
  lemma ResolveCases(st: ArpState, cfg: NetConfig, core: nat, ip: Ipv4)
    ensures var r, hop := Resolve(st, cfg, core, ip).0, Hop(cfg, ip);
            && (ip == 0xFFFF_FFFF ==> r == Answer(MAC_BROADCAST))
            && (ip == 0 ==> r == NoAnswer)
            && (ip != 0xFFFF_FFFF && ip != 0 ==>
                  match r
                  case Answer(mac) =>
                    || FastLookup(st, core, ip) == Some(mac) || Lookup(st.entries, hop) == Some(mac)
                    || (hop == cfg.gateway && st.gateway == Some(mac))
                  case NoAnswer => false
                  case Request(target) =>
                    target == hop && Lookup(st.entries, hop).None? && (hop != ip ==> hop == cfg.gateway && st.gateway.None?))
  {
  }

  /** An answer is remembered: asking again on the same core gives it again and
      changes nothing. */
  lemma AnswerIsKept(st: ArpState, cfg: NetConfig, core: nat, ip: Ipv4)
    requires core < |st.fast| && Resolve(st, cfg, core, ip).0.Answer?
    ensures var (r, st') := Resolve(st, cfg, core, ip);
            Resolve(st', cfg, core, ip) == (r, st')
            && (ip != BROADCAST_V4 ==> FastLookup(st', core, ip) == Some(r.mac))
  {
    var (r, st') := Resolve(st, cfg, core, ip);
    if ip != BROADCAST_V4 { FastAfterStore(st, core, ip, r.mac, ip); }
  }

  // ── Resolve first, then send ────────────────────────────────────────

  /** Where `resolve_route` found its answer. */
  datatype Source = FixedBroadcast | FromFast | FromSlow | FromReply

  datatype RouteResult = Routed(mac: Mac, via: Source, state: ArpState) | NoRoute | Unanswered

  /** `resolve_mac` called in `st`; when it has to wait, `later` is the state in
      which its wait future reads the table for the last time. */
  function ResolveMac(st: ArpState, later: ArpState, core: nat, hop: Ipv4): RouteResult {
    if hop == BROADCAST_V4 then Routed(MAC_BROADCAST, FixedBroadcast, st)
    else if hop == ANY_V4 then NoRoute
    else if FastLookup(st, core, hop).Some? then Routed(FastLookup(st, core, hop).value, FromFast, st)
    else if Lookup(st.entries, hop).Some? then
      var mac := Lookup(st.entries, hop).value;
      Routed(mac, FromSlow, FastStore(st, core, hop, mac))
    else if Lookup(later.entries, hop).Some? then
      var mac := Lookup(later.entries, hop).value;
      Routed(mac, FromReply, FastStore(later, core, hop, mac))
    else Unanswered
  }

  function ResolveRoute(st: ArpState, later: ArpState, cfg: NetConfig, core: nat, dest: Ipv4): RouteResult {
    if cfg.ip == ANY_V4 then Routed(MAC_BROADCAST, FixedBroadcast, st)
    else
      match NextHop(dest, cfg)
      case None => NoRoute
      case Some(hop) => ResolveMac(st, later, core, hop)
  }

  /** Whatever `resolve_route` answers, called after any run and answered after any
      continuation of it, is justified for the next hop: the MAC this core was
      given for it, or the one last announced for it by then. */
  lemma RouteAnswers(cores: nat, cfg: NetConfig, evs: seq<Event>, more: seq<Event>, core: nat, dest: Ipv4)
    requires cfg.ip != 0
    ensures var st, later := Run(cores, cfg, evs), Run(cores, cfg, evs + more);
            match ResolveRoute(st, later, cfg, core, dest)
            case NoRoute => NextHop(dest, cfg) in {None, Some(0)}
            case Unanswered =>
              && NextHop(dest, cfg).Some?
              && (|HeardIps(Heard(evs + more))| <= 64 ==> Latest(Heard(evs + more), Hop(cfg, dest)).None?)
            case Routed(mac, _, _) =>
              var hop := Hop(cfg, dest);
              || (hop == 0xFFFF_FFFF && mac == MAC_BROADCAST)
              || Remembered(cfg, evs, core, hop, mac)
              || Latest(Heard(evs), hop) == Some(mac)
              || Latest(Heard(evs + more), hop) == Some(mac)
  {
    RouteCases(Run(cores, cfg, evs), Run(cores, cfg, evs + more), cfg, core, dest);
    CacheCoherent(cores, cfg, evs);
    CacheCoherent(cores, cfg, evs + more);
    FastCoherent(cores, cfg, evs, core, Hop(cfg, dest));
    if |HeardIps(Heard(evs + more))| <= 64 { CompleteUpToCapacity(cores, cfg, evs + more); }
  }

  lemma RouteCases(st: ArpState, later: ArpState, cfg: NetConfig, core: nat, dest: Ipv4)
    requires cfg.ip != 0
    ensures var hop := Hop(cfg, dest);
            match ResolveRoute(st, later, cfg, core, dest)
            case NoRoute => NextHop(dest, cfg) in {None, Some(0)}
            case Unanswered => NextHop(dest, cfg).Some? && Lookup(later.entries, hop).None?
            case Routed(mac, _, _) =>
              || (hop == 0xFFFF_FFFF && mac == MAC_BROADCAST)
              || FastLookup(st, core, hop) == Some(mac)
              || Lookup(st.entries, hop) == Some(mac)
              || Lookup(later.entries, hop) == Some(mac)
  {
  }

  /** The states in which a successful `resolve_route` leaves the sync path
      cold-started: the gateway is known to this core's fast slot only (or is
      the broadcast address), and nothing shared knows it. */
  predicate GatewayOnlySnooped(st: ArpState, cfg: NetConfig, core: nat, dest: Ipv4) {
    && dest != ANY_V4
    && NextHop(dest, cfg) == Some(cfg.gateway) && cfg.gateway != dest
    && st.gateway.None? && Lookup(st.entries, cfg.gateway).None?
    && if cfg.gateway == BROADCAST_V4 then FastLookup(st, core, dest).None?
       else FastLookup(st, core, cfg.gateway).Some?
  }

  /** After `resolve_route(dest)` succeeds, `arp_resolve(dest)` on the same core
      puts a request on the wire exactly in those states. */
  lemma WarmAfterRoute(st: ArpState, later: ArpState, cfg: NetConfig, core: nat, dest: Ipv4)
    requires cfg.ip != ANY_V4
    requires ResolveRoute(st, later, cfg, core, dest).Routed?
    ensures Resolve(ResolveRoute(st, later, cfg, core, dest).state, cfg, core, dest).0.Request?
       <==> GatewayOnlySnooped(st, cfg, core, dest)
  {
    var r := ResolveRoute(st, later, cfg, core, dest);
    if NextHop(dest, cfg) == Some(dest) && r.via != FixedBroadcast && core < |r.state.fast| {
      if r.via == FromSlow { FastStoreThenLookup(st, core, dest, r.mac); }
      if r.via == FromReply { FastStoreThenLookup(later, core, dest, r.mac); }
    }
  }

  /** The promise as documented: answers from the shared table or from a reply,
      and on-link destinations, never need a request afterwards. */
  lemma RouteThenSendIsCold(st: ArpState, later: ArpState, cfg: NetConfig, core: nat, dest: Ipv4)
    requires cfg.ip != ANY_V4
    requires ResolveRoute(st, later, cfg, core, dest).Routed?
    requires var via := ResolveRoute(st, later, cfg, core, dest).via;
             via.FromSlow? || via.FromReply? || NextHop(dest, cfg) == Some(dest)
    ensures !Resolve(ResolveRoute(st, later, cfg, core, dest).state, cfg, core, dest).0.Request?
  {
    WarmAfterRoute(st, later, cfg, core, dest);
  }

  /** A /24 host whose gateway is the first address of its network: address
      192.168.1.2, mask 255.255.255.0, gateway 192.168.1.1. */
  const HOME_GATEWAY: Ipv4 := 0x0101_A8C0
  const HOME := NetConfig(0x0201_A8C0, 0x00FF_FFFF, HOME_GATEWAY, 0)

  /** A run in which it fails: the gateway was only snooped from its IP
      traffic, so `resolve_route` succeeds and the send still has to ask. */
  lemma SnoopedGatewayStillAsks(mac: Mac, dest: Ipv4)
    requires mac != MAC_ZERO && mac != MAC_BROADCAST
    requires dest % 0x100_0000 != 0x01_A8C0 && dest != ANY_V4 && dest != BROADCAST_V4
    ensures var st := Run(1, HOME, [Learned(0, HOME_GATEWAY, mac)]);
            && ResolveRoute(st, st, HOME, 0, dest) == Routed(mac, FromFast, st)
            && Resolve(st, HOME, 0, dest).0 == Request(HOME_GATEWAY)
  {
    var st := Run(1, HOME, [Learned(0, HOME_GATEWAY, mac)]);
    SnoopedState(HOME, HOME_GATEWAY, mac, dest);
    OffLink(dest);
    KnownToFastSlotOnly(st, HOME, HOME_GATEWAY, mac, dest);
  }

  lemma OffLink(dest: Ipv4)
    requires dest % 0x100_0000 != 0x01_A8C0 && dest != BROADCAST_V4
    ensures NextHop(dest, HOME) == Some(HOME_GATEWAY)
  {
    Pow2Constants();
    MaskIsMod(dest, 0x100_0000);
    MaskIsMod(HOME.ip, 0x100_0000);
  }

  lemma SnoopedState(cfg: NetConfig, gateway: Ipv4, mac: Mac, dest: Ipv4)
    requires mac != MAC_ZERO && mac != MAC_BROADCAST && dest != gateway
    requires gateway != ANY_V4 && gateway != BROADCAST_V4
    ensures var st := Run(1, cfg, [Learned(0, gateway, mac)]);
            && st.gateway.None? && Lookup(st.entries, gateway).None?
            && FastLookup(st, 0, gateway) == Some(mac) && FastLookup(st, 0, dest).None?
  {
    var evs := [Learned(0, gateway, mac)];
    assert evs[..0] == [];
    assert Run(1, cfg, []) == Initial(1);
    assert Run(1, cfg, evs) == FastStore(Initial(1), 0, gateway, mac);
    FastStoreThenLookup(Initial(1), 0, gateway, mac);
    var m := FirstMatch(Initial(1).entries, gateway);
  }

  lemma KnownToFastSlotOnly(st: ArpState, cfg: NetConfig, gateway: Ipv4, mac: Mac, dest: Ipv4)
    requires cfg.ip != ANY_V4 && dest != ANY_V4 && dest != BROADCAST_V4 && dest != gateway
    requires NextHop(dest, cfg) == Some(gateway) && gateway != ANY_V4 && gateway != BROADCAST_V4
    requires st.gateway.None? && Lookup(st.entries, gateway).None?
    requires FastLookup(st, 0, gateway) == Some(mac) && FastLookup(st, 0, dest).None?
    ensures ResolveRoute(st, st, cfg, 0, dest) == Routed(mac, FromFast, st)
    ensures Resolve(st, cfg, 0, dest).0 == Request(gateway)
  {
  }
}
