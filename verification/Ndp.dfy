/** The IPv6 neighbour cache: a 32-entry table with a rotating eviction cursor,
    refining a bounded first-in-first-out queue. */
module Ndp {
  import opened Basics

  const NDP_CACHE_SIZE: nat := 32

  datatype NdpEntry = NdpEntry(ip: Ipv6, mac: Mac, valid: bool)

  // ── The abstract queue ──────────────────────────────────────────────

  datatype Neighbour = Neighbour(ip: Ipv6, mac: Mac)

  /** Oldest first. */
  type Queue = seq<Neighbour>

  function Position(q: Queue, ip: Ipv6): (i: nat)
    ensures i <= |q|
    ensures forall k :: 0 <= k < i ==> q[k].ip != ip
    ensures i < |q| ==> q[i].ip == ip
  {
    FirstIndex(q, (n: Neighbour) => n.ip == ip)
  }

  /** A known IP only has its MAC refreshed; a new one joins at the back, and
      pushes the oldest out when the queue is full. */
  function Push(q: Queue, ip: Ipv6, mac: Mac): Queue {
    var i := Position(q, ip);
    if i < |q| then q[i := Neighbour(ip, mac)]
    else if |q| < NDP_CACHE_SIZE then q + [Neighbour(ip, mac)]
    else q[1..] + [Neighbour(ip, mac)]
  }

  function Find(q: Queue, ip: Ipv6): Option<Mac> {
    var i := Position(q, ip);
    if i < |q| then Some(q[i].mac) else None
  }

  ghost predicate DistinctIps(q: Queue) {
    forall i, j :: 0 <= i < j < |q| ==> q[i].ip != q[j].ip
  }

  lemma PositionUnique(q: Queue, i: nat)
    requires DistinctIps(q) && i < |q|
    ensures Position(q, q[i].ip) == i
  {
  }

  predicate Cacheable(ip: Ipv6) {
    ip != ANY_V6 && ip[0] != 0xFF
  }

  function LearnQueue(q: Queue, ip: Ipv6, mac: Mac): Queue {
    if Cacheable(ip) then Push(q, ip, mac) else q
  }

  lemma PushKeepsDistinct(q: Queue, ip: Ipv6, mac: Mac)
    requires DistinctIps(q)
    ensures DistinctIps(Push(q, ip, mac))
  {
  }

  // ── The table as a value ────────────────────────────────────────────

  predicate Holds(e: NdpEntry, ip: Ipv6) {
    e.valid && e.ip == ip
  }

  function FirstMatch(es: seq<NdpEntry>, ip: Ipv6): (i: nat)
    ensures i <= |es|
    ensures forall k :: 0 <= k < i ==> !Holds(es[k], ip)
    ensures i < |es| ==> Holds(es[i], ip)
  {
    FirstIndex(es, (e: NdpEntry) => Holds(e, ip))
  }

  /** Number of leading valid entries, which is also the first free slot. */
  function Used(es: seq<NdpEntry>): (n: nat)
    ensures n <= |es|
    ensures forall k :: 0 <= k < n ==> es[k].valid
    ensures n < |es| ==> !es[n].valid
  {
    FirstIndex(es, (e: NdpEntry) => !e.valid)
  }

  /** Entries fill from the front; the cursor moves only once they are full. */
  ghost predicate ValidTable(es: seq<NdpEntry>, cursor: nat) {
    && |es| == NDP_CACHE_SIZE
    && cursor < NDP_CACHE_SIZE
    && (forall k :: Used(es) <= k < |es| ==> !es[k].valid)
    && (Used(es) < NDP_CACHE_SIZE ==> cursor == 0)
    && DistinctIps(QueueOf(es, cursor))
  }

  /** Table slot of the `k`-th oldest neighbour. */
  function SlotOf(cursor: nat, k: nat): (s: nat)
    requires cursor < NDP_CACHE_SIZE && k < NDP_CACHE_SIZE
    ensures s < NDP_CACHE_SIZE
  {
    if cursor + k < NDP_CACHE_SIZE then cursor + k else cursor + k - NDP_CACHE_SIZE
  }

  /** The neighbours, oldest first: from the cursor round to it again. */
  function QueueOf(es: seq<NdpEntry>, cursor: nat): (q: Queue)
    requires |es| == NDP_CACHE_SIZE && cursor < NDP_CACHE_SIZE
    ensures |q| == Used(es)
    ensures forall k :: 0 <= k < |q| ==> q[k] == Neighbour(es[SlotOf(cursor, k)].ip, es[SlotOf(cursor, k)].mac)
  {
    seq(Used(es), k requires 0 <= k < Used(es) => Neighbour(es[SlotOf(cursor, k)].ip, es[SlotOf(cursor, k)].mac))
  }

  function LookupTable(es: seq<NdpEntry>, ip: Ipv6): Option<Mac> {
    var i := FirstMatch(es, ip);
    if i < |es| then Some(es[i].mac) else None
  }

  /** The new entries and the new cursor. */
  function UpdateTable(es: seq<NdpEntry>, cursor: nat, ip: Ipv6, mac: Mac): (seq<NdpEntry>, nat)
    requires |es| == NDP_CACHE_SIZE && cursor < NDP_CACHE_SIZE
  {
    var m, f := FirstMatch(es, ip), Used(es);
    if m < |es| then (es[m := NdpEntry(ip, mac, true)], cursor)
    else if f < |es| then (es[f := NdpEntry(ip, mac, true)], cursor)
    else (es[cursor := NdpEntry(ip, mac, true)], (cursor + 1) % NDP_CACHE_SIZE)
  }

  lemma UsedIs(es: seq<NdpEntry>, n: nat)
    requires n <= |es|
    requires forall k :: 0 <= k < n ==> es[k].valid
    requires n < |es| ==> !es[n].valid
    ensures Used(es) == n
  {
  }

  /** Queue position of a used table slot. */
  function Age(cursor: nat, i: nat): int {
    if i >= cursor then i - cursor else i - cursor + NDP_CACHE_SIZE
  }

  lemma AgeOfSlot(es: seq<NdpEntry>, cursor: nat, i: nat)
    requires ValidTable(es, cursor) && i < |es| && es[i].valid
    ensures 0 <= Age(cursor, i) < Used(es) && SlotOf(cursor, Age(cursor, i)) == i
    ensures Position(QueueOf(es, cursor), es[i].ip) == Age(cursor, i)
  {
    assert i < Used(es);
    assert SlotOf(cursor, Age(cursor, i)) == i;
    PositionUnique(QueueOf(es, cursor), Age(cursor, i));
  }

  lemma MissInQueue(es: seq<NdpEntry>, cursor: nat, ip: Ipv6)
    requires ValidTable(es, cursor) && FirstMatch(es, ip) == |es|
    ensures Position(QueueOf(es, cursor), ip) == Used(es)
  {
    var q := QueueOf(es, cursor);
    forall k | 0 <= k < |q| ensures q[k].ip != ip {
      assert !Holds(es[SlotOf(cursor, k)], ip);
    }
  }

  /** The table scan finds what the queue, read as a map, holds. */
  lemma LookupRefines(es: seq<NdpEntry>, cursor: nat, ip: Ipv6)
    requires ValidTable(es, cursor)
    ensures LookupTable(es, ip) == Find(QueueOf(es, cursor), ip)
  {
    var m := FirstMatch(es, ip);
    if m < |es| {
      AgeOfSlot(es, cursor, m);
    } else {
      MissInQueue(es, cursor, ip);
    }
  }

  lemma RefreshRefines(es: seq<NdpEntry>, cursor: nat, ip: Ipv6, mac: Mac)
    requires ValidTable(es, cursor) && FirstMatch(es, ip) < |es|
    ensures var r := UpdateTable(es, cursor, ip, mac);
            Used(r.0) == Used(es) && QueueOf(r.0, r.1) == Push(QueueOf(es, cursor), ip, mac)
  {
    var m, r := FirstMatch(es, ip), UpdateTable(es, cursor, ip, mac);
    AgeOfSlot(es, cursor, m);
    UsedIs(r.0, Used(es));
    var q, p := QueueOf(es, cursor), Age(cursor, m);
    forall k | 0 <= k < |q| ensures QueueOf(r.0, cursor)[k] == q[p := Neighbour(ip, mac)][k] {
      assert SlotOf(cursor, k) == m <==> k == p;
    }
  }

  lemma InstallRefines(es: seq<NdpEntry>, cursor: nat, ip: Ipv6, mac: Mac)
    requires ValidTable(es, cursor) && FirstMatch(es, ip) == |es| && Used(es) < |es|
    ensures var r := UpdateTable(es, cursor, ip, mac);
            Used(r.0) == Used(es) + 1 && QueueOf(r.0, r.1) == Push(QueueOf(es, cursor), ip, mac)
  {
    var q, r := QueueOf(es, cursor), es[Used(es) := NdpEntry(ip, mac, true)];
    MissInQueue(es, cursor, ip);
    UsedIs(r, Used(es) + 1);
    forall k | 0 <= k < |q| + 1 ensures QueueOf(r, cursor)[k] == (q + [Neighbour(ip, mac)])[k] {
      assert SlotOf(cursor, k) == k;
    }
  }

  lemma EvictRefines(es: seq<NdpEntry>, cursor: nat, ip: Ipv6, mac: Mac)
    requires ValidTable(es, cursor) && FirstMatch(es, ip) == |es| && Used(es) == |es|
    ensures var r := UpdateTable(es, cursor, ip, mac);
            Used(r.0) == Used(es) && QueueOf(r.0, r.1) == Push(QueueOf(es, cursor), ip, mac)
  {
    MissInQueue(es, cursor, ip);
    UsedIs(es[cursor := NdpEntry(ip, mac, true)], NDP_CACHE_SIZE);
    OverwriteRotates(es, cursor, NdpEntry(ip, mac, true));
  }

  /** Overwriting a full table at the cursor and advancing it drops the oldest. */
  lemma OverwriteRotates(es: seq<NdpEntry>, cursor: nat, e: NdpEntry)
    requires |es| == NDP_CACHE_SIZE && cursor < NDP_CACHE_SIZE
    requires Used(es) == NDP_CACHE_SIZE && Used(es[cursor := e]) == NDP_CACHE_SIZE
    ensures QueueOf(es[cursor := e], (cursor + 1) % NDP_CACHE_SIZE)
         == QueueOf(es, cursor)[1..] + [Neighbour(e.ip, e.mac)]
  {
    var next, q := (cursor + 1) % NDP_CACHE_SIZE, QueueOf(es, cursor);
    forall k | 0 <= k < NDP_CACHE_SIZE
      ensures QueueOf(es[cursor := e], next)[k] == (q[1..] + [Neighbour(e.ip, e.mac)])[k]
    {
      AdvancedCursor(cursor, k);
    }
  }

  lemma AdvancedCursor(cursor: nat, k: nat)
    requires cursor < NDP_CACHE_SIZE && k < NDP_CACHE_SIZE
    ensures var next := (cursor + 1) % NDP_CACHE_SIZE;
            if k == NDP_CACHE_SIZE - 1 then SlotOf(next, k) == cursor
            else SlotOf(next, k) == SlotOf(cursor, k + 1) != cursor
  {
  }

  /** Updating the table is pushing on the queue; a valid table stays valid. */
  lemma UpdateRefines(es: seq<NdpEntry>, cursor: nat, ip: Ipv6, mac: Mac)
    requires ValidTable(es, cursor)
    ensures var r := UpdateTable(es, cursor, ip, mac);
            ValidTable(r.0, r.1) && QueueOf(r.0, r.1) == Push(QueueOf(es, cursor), ip, mac)
  {
    PushKeepsDistinct(QueueOf(es, cursor), ip, mac);
    if FirstMatch(es, ip) < |es| {
      RefreshRefines(es, cursor, ip, mac);
    } else if Used(es) < |es| {
      InstallRefines(es, cursor, ip, mac);
    } else {
      EvictRefines(es, cursor, ip, mac);
    }
  }

  // ── The live table ──────────────────────────────────────────────────

  class NdpCache {
    const entries: array<NdpEntry>
    var nextEvict: nat

    ghost predicate Valid()
      reads this, entries
    {
      ValidTable(entries[..], nextEvict)
    }

    ghost function Contents(): Queue
      requires Valid()
      reads this, entries
    {
      QueueOf(entries[..], nextEvict)
    }

    constructor ()
      ensures Valid() && fresh(entries) && Contents() == []
    {
      entries := new NdpEntry[NDP_CACHE_SIZE](_ => NdpEntry(ANY_V6, MAC_ZERO, false));
      nextEvict := 0;
      new;
      UsedIs(entries[..], 0);
    }

    method Lookup(ip: Ipv6) returns (r: Option<Mac>)
      requires Valid()
      ensures r == Find(Contents(), ip)
    {
      LookupRefines(entries[..], nextEvict, ip);
      var i := 0;
      while i < entries.Length
        invariant 0 <= i <= entries.Length
        invariant forall k :: 0 <= k < i ==> !Holds(entries[k], ip)
      {
        if entries[i].valid && entries[i].ip == ip {
          assert FirstMatch(entries[..], ip) == i;
          return Some(entries[i].mac);
        }
        i := i + 1;
      }
      return None;
    }

    method Update(ip: Ipv6, mac: Mac)
      requires Valid()
      modifies this, entries
      ensures Valid()
      ensures Contents() == Push(old(Contents()), ip, mac)
    {
      UpdateRefines(entries[..], nextEvict, ip, mac);
      Write(ip, mac);
    }

    method Write(ip: Ipv6, mac: Mac)
      requires entries.Length == NDP_CACHE_SIZE && nextEvict < NDP_CACHE_SIZE
      modifies this, entries
      ensures (entries[..], nextEvict) == UpdateTable(old(entries[..]), old(nextEvict), ip, mac)
    {
      var i := 0;
      while i < entries.Length
        invariant 0 <= i <= entries.Length
        invariant forall k :: 0 <= k < i ==> !Holds(entries[k], ip)
        invariant nextEvict == old(nextEvict) && entries[..] == old(entries[..])
      {
        if entries[i].valid && entries[i].ip == ip {
          assert FirstMatch(entries[..], ip) == i;
          entries[i] := entries[i].(mac := mac);
          return;
        }
        i := i + 1;
      }
      i := 0;
      while i < entries.Length
        invariant 0 <= i <= entries.Length
        invariant forall k :: 0 <= k < i ==> entries[k].valid
        invariant nextEvict == old(nextEvict) && entries[..] == old(entries[..])
      {
        if !entries[i].valid {
          UsedIs(entries[..], i);
          entries[i] := NdpEntry(ip, mac, true);
          return;
        }
        i := i + 1;
      }
      UsedIs(entries[..], NDP_CACHE_SIZE);
      var idx := nextEvict;
      entries[idx] := NdpEntry(ip, mac, true);
      nextEvict := (idx + 1) % NDP_CACHE_SIZE;
    }

    method Learn(ip: Ipv6, mac: Mac)
      requires Valid()
      modifies this, entries
      ensures Valid()
      ensures Contents() == LearnQueue(old(Contents()), ip, mac)
    {
      if ip == ANY_V6 || ip[0] == 0xFF { return; }
      Update(ip, mac);
    }

    method Resolve(ip: Ipv6) returns (r: Option<Mac>)
      requires Valid()
      ensures r == if ip[0] == 0xFF then None else Find(Contents(), ip)
    {
      if ip[0] == 0xFF { return None; }
      r := Lookup(ip);
    }
  }

  // ── Over every history ──────────────────────────────────────────────

  /** The queue after learning `h`, oldest first. */
  function After(h: seq<Neighbour>): Queue {
    if h == [] then []
    else LearnQueue(After(h[..|h| - 1]), h[|h| - 1].ip, h[|h| - 1].mac)
  }

  function LatestMac(h: seq<Neighbour>, ip: Ipv6): Option<Mac> {
    if h == [] then None
    else if h[|h| - 1].ip == ip then Some(h[|h| - 1].mac)
    else LatestMac(h[..|h| - 1], ip)
  }

  /** At most 32 neighbours with distinct, cacheable IPs, each with the MAC
      learned for it last. */
  lemma {:induction false} QueueSound(h: seq<Neighbour>)
    ensures var q := After(h);
            && |q| <= NDP_CACHE_SIZE && DistinctIps(q)
            && forall i :: 0 <= i < |q| ==> Cacheable(q[i].ip) && LatestMac(h, q[i].ip) == Some(q[i].mac)
  {
    if h != [] {
      var t, n := h[..|h| - 1], h[|h| - 1];
      QueueSound(t);
      PushKeepsDistinct(After(t), n.ip, n.mac);
      var q := After(h);
      forall i | 0 <= i < |q| ensures Cacheable(q[i].ip) && LatestMac(h, q[i].ip) == Some(q[i].mac) {
        assert q[i] == n || q[i] in After(t);
      }
    }
  }

  // ── What is found, from the history alone ───────────────────────────

  function Recent(log: seq<Ipv6>): seq<Ipv6> {
    if |log| <= 32 then log else log[|log| - 32..]
  }

  /** Every time an address was learned that was not among the 32 most recent
      newcomers, it became a newcomer: neither unspecified nor multicast. */
  function Newcomers(h: seq<Neighbour>): seq<Ipv6> {
    if h == [] then []
    else
      var log, ip := Newcomers(h[..|h| - 1]), h[|h| - 1].ip;
      if ip == ANY_V6 || ip[0] == 0xFF || ip in Recent(log) then log else log + [ip]
  }

  function IpsOf(q: Queue): seq<Ipv6> {
    seq(|q|, i requires 0 <= i < |q| => q[i].ip)
  }

  lemma PositionOf(q: Queue, ip: Ipv6)
    ensures Position(q, ip) < |q| <==> ip in IpsOf(q)
  {
    if Position(q, ip) < |q| {
      assert IpsOf(q)[Position(q, ip)] == ip;
    }
    if ip in IpsOf(q) {
      var i :| 0 <= i < |IpsOf(q)| && IpsOf(q)[i] == ip;
      assert q[i].ip == ip;
    }
  }

  lemma PushIps(q: Queue, ip: Ipv6, mac: Mac)
    ensures IpsOf(Push(q, ip, mac))
         == if ip in IpsOf(q) then IpsOf(q)
            else if |q| < 32 then IpsOf(q) + [ip]
            else IpsOf(q)[1..] + [ip]
  {
    PositionOf(q, ip);
    var r, i := Push(q, ip, mac), Position(q, ip);
    if i < |q| {
      assert IpsOf(r) == IpsOf(q);
    } else if |q| < 32 {
      assert IpsOf(r) == IpsOf(q) + [ip];
    } else {
      assert IpsOf(r) == IpsOf(q)[1..] + [ip];
    }
  }

  lemma RecentSnoc(log: seq<Ipv6>, ip: Ipv6)
    ensures Recent(log + [ip]) == if |Recent(log)| < 32 then Recent(log) + [ip] else Recent(log)[1..] + [ip]
  {
  }

  /** The queue holds exactly the 32 most recent newcomers, oldest first. */
  lemma {:induction false} QueueIsWindow(h: seq<Neighbour>)
    ensures IpsOf(After(h)) == Recent(Newcomers(h))
  {
    if h != [] {
      var t, n := h[..|h| - 1], h[|h| - 1];
      QueueIsWindow(t);
      PushIps(After(t), n.ip, n.mac);
      RecentSnoc(Newcomers(t), n.ip);
    }
  }

  /** A lookup, after any history, finds the MAC last learned for an address that
      is among the 32 most recent newcomers, and nothing for any other. */
  lemma FindExactly(h: seq<Neighbour>, ip: Ipv6)
    ensures Find(After(h), ip) == if ip in Recent(Newcomers(h)) then LatestMac(h, ip) else None
  {
    QueueIsWindow(h);
    QueueSound(h);
    PositionOf(After(h), ip);
  }

  /** The usable addresses learned. */
  function Usable(h: seq<Neighbour>): set<Ipv6> {
    set n | n in h && n.ip != ANY_V6 && n.ip[0] != 0xFF :: n.ip
  }

  lemma UsableSnoc(h: seq<Neighbour>, n: Neighbour)
    ensures Usable(h + [n]) == Usable(h) + (if n.ip != ANY_V6 && n.ip[0] != 0xFF then {n.ip} else {})
    ensures |Usable(h)| <= |Usable(h + [n])|
  {
    var added := if n.ip != ANY_V6 && n.ip[0] != 0xFF then {n.ip} else {};
    assert Usable(h + [n]) == Usable(h) + added;
    if n.ip in Usable(h) { assert Usable(h) + added == Usable(h); }
  }

  lemma {:induction false} NewcomersAll(h: seq<Neighbour>)
    requires |Usable(h)| <= 32
    ensures |Newcomers(h)| == |Usable(h)| && forall ip :: ip in Newcomers(h) <==> ip in Usable(h)
  {
    if h != [] {
      var t, n := h[..|h| - 1], h[|h| - 1];
      assert h == t + [n];
      UsableSnoc(t, n);
      NewcomersAll(t);
    }
  }

  /** While at most 32 usable addresses have been learned, nothing is forgotten. */
  lemma NothingForgotten(h: seq<Neighbour>, ip: Ipv6)
    requires |Usable(h)| <= 32
    ensures Find(After(h), ip) == if ip in Usable(h) then LatestMac(h, ip) else None
  {
    NewcomersAll(h);
    FindExactly(h, ip);
  }
}
