/** The pending table: exclusive slots in every interleaving, a claim run alone as
    one step, and an interleaving in which one IP gets two soliciting owners. */
module ResolverClaims {
  import opened Basics
  import opened Resolver
  import opened ResolverSafety

  ghost function Live(w: World): set<TaskId> {
    set t | t in w.tasks && w.tasks[t].Claimed()
  }

  /** Live tasks and the slots they hold. */
  ghost function Held(w: World): map<TaskId, SlotIndex> {
    map t | t in w.tasks && w.tasks[t].Claimed() :: w.tasks[t].claim.slot
  }

  lemma {:induction false} Pigeonhole(m: map<TaskId, nat>, n: nat)
    requires forall t :: t in m ==> m[t] < n
    requires forall t, u :: t in m && u in m && t != u ==> m[t] != m[u]
    ensures |m| <= n
  {
    if exists t :: t in m && m[t] == n - 1 {
      var t :| t in m && m[t] == n - 1;
      var rest := m - {t};
      assert rest.Keys == m.Keys - {t};
      assert forall u :: u in rest ==> rest[u] == m[u];
      Pigeonhole(rest, n - 1);
    } else if n > 0 {
      Pigeonhole(m, n - 1);
    }
  }

  lemma ExclusiveHeld(w: World)
    requires Exclusive(w)
    ensures forall t, u :: t in Held(w) && u in Held(w) && t != u ==> Held(w)[t] != Held(w)[u]
    ensures |Live(w)| <= PENDING_RESOLVERS
  {
    Pigeonhole(Held(w), PENDING_RESOLVERS);
    assert Held(w).Keys == Live(w);
  }

  lemma ReachableExclusive(acts: seq<Action>)
    ensures Exclusive(Exec(BOOT, acts))
  {
    BootInv();
    ExecKeepsInv(BOOT, acts);
  }

  lemma SlotsOfClaims(w: World)
    requires Exclusive(w)
    ensures forall t :: t in Held(w) ==> w.slots[Held(w)[t]].ip == w.tasks[t].claim.ip
    ensures forall k :: 0 <= k < PENDING_RESOLVERS ==> (w.slots[k].ip != 0 <==> exists t :: ClaimsSlot(w, t, k))
  {
  }

  /** In every reachable world: live claims hold distinct slots, each slot
      stores its claimant's IP, a slot is 0 exactly when unclaimed, and at most
      eight claims are live. */
  lemma PendingTableExclusive(acts: seq<Action>)
    ensures var w := Exec(BOOT, acts);
            && (forall t, u :: t in Held(w) && u in Held(w) && t != u ==> Held(w)[t] != Held(w)[u])
            && (forall t :: t in Held(w) ==> w.slots[Held(w)[t]].ip == w.tasks[t].claim.ip)
            && (forall k :: 0 <= k < PENDING_RESOLVERS ==>
                  (w.slots[k].ip != 0 <==> exists t :: ClaimsSlot(w, t, k)))
            && |Live(w)| <= 8
  {
    ReachableExclusive(acts);
    ExclusiveHeld(Exec(BOOT, acts));
    SlotsOfClaims(Exec(BOOT, acts));
  }

  // ── Claims that are not interleaved ─────────────────────────────────

  /** Index of the first slot whose IP is `ip`, or `|slots|`. */
  function FirstSlot(slots: seq<Slot>, ip: Ipv4): (i: nat)
    ensures i <= |slots|
    ensures forall k :: 0 <= k < i ==> slots[k].ip != ip
    ensures i < |slots| ==> slots[i].ip == ip
  {
    FirstIndex(slots, (s: Slot) => s.ip == ip)
  }

  function TakeSlot(w: World, t: TaskId, ip: HostIp, owner: bool): World {
    var i := FirstSlot(w.slots, 0);
    if i == PENDING_RESOLVERS then w.(tasks := w.tasks - {t})
    else SetTask(w, t, Reading(Claim(ip, i, owner), RESOLVE_ATTEMPTS - 1))
         .(slots := w.slots[i := w.slots[i].(ip := ip)])
  }

  /** `PendingClaim::claim` as one step. */
  function ClaimAtOnce(w: World, t: TaskId, ip: HostIp): World {
    TakeSlot(w, t, ip, FirstSlot(w.slots, ip) == PENDING_RESOLVERS)
  }

  lemma {:induction false} ExecAppend(w: World, a: seq<Action>, b: seq<Action>)
    ensures Exec(w, a + b) == Exec(Exec(w, a), b)
    decreases |a|
  {
    if a == [] {
      assert a + b == b;
    } else {
      assert (a + b)[1..] == a[1..] + b;
      ExecAppend(Apply(w, a[0]), a[1..], b);
    }
  }

  function Turns(t: TaskId, n: nat): seq<Action> {
    seq(n, _ => Advance(t, false))
  }

  lemma TurnsStep(w: World, t: TaskId, n: nat)
    ensures Exec(w, Turns(t, n + 1)) == Exec(Apply(w, Advance(t, false)), Turns(t, n))
    ensures Exec(w, Turns(t, 0)) == w
  {
    assert Turns(t, n + 1)[1..] == Turns(t, n);
  }

  lemma SetTwice(w: World, t: TaskId, a: Task, b: Task)
    ensures SetTask(SetTask(w, t, a), t, b) == SetTask(w, t, b)
  {
    assert w.tasks[t := a][t := b] == w.tasks[t := b];
  }

  lemma TakeAfterSet(w: World, t: TaskId, a: Task, ip: HostIp, owner: bool)
    ensures TakeSlot(SetTask(w, t, a), t, ip, owner) == TakeSlot(w, t, ip, owner)
  {
    var i := FirstSlot(w.slots, 0);
    if i == PENDING_RESOLVERS {
      assert w.tasks[t := a] - {t} == w.tasks - {t};
    } else {
      SetTwice(w, t, a, Reading(Claim(ip, i, owner), RESOLVE_ATTEMPTS - 1));
    }
  }

  /** The owner scan, run to its end with nobody else moving. */
  lemma {:induction false} ScanAlone(w: World, t: TaskId, ip: HostIp, i: nat) returns (n: nat)
    requires i <= PENDING_RESOLVERS && t in w.tasks && w.tasks[t] == Scanning(ip, i)
    requires forall k :: 0 <= k < i ==> w.slots[k].ip != ip
    ensures Exec(w, Turns(t, n)) == SetTask(w, t, Claiming(ip, FirstSlot(w.slots, ip) == PENDING_RESOLVERS, 0))
    decreases PENDING_RESOLVERS - i
  {
    var w' := Apply(w, Advance(t, false));
    if i < PENDING_RESOLVERS && w.slots[i].ip != ip {
      n := ScanAlone(w', t, ip, i + 1);
      SetTwice(w, t, Scanning(ip, i + 1), Claiming(ip, FirstSlot(w.slots, ip) == PENDING_RESOLVERS, 0));
    } else {
      n := 0;
    }
    TurnsStep(w, t, n);
    TurnsStep(w', t, 0);
    n := n + 1;
  }

  /** The compare-exchange loop, run to its end with nobody else moving. */
  lemma {:induction false} CasAlone(w: World, t: TaskId, ip: HostIp, owner: bool, i: nat) returns (n: nat)
    requires i <= PENDING_RESOLVERS && t in w.tasks && w.tasks[t] == Claiming(ip, owner, i)
    requires forall k :: 0 <= k < i ==> w.slots[k].ip != 0
    ensures Exec(w, Turns(t, n)) == TakeSlot(w, t, ip, owner)
    decreases PENDING_RESOLVERS - i
  {
    var w' := Apply(w, Advance(t, false));
    if i < PENDING_RESOLVERS && w.slots[i].ip != 0 {
      n := CasAlone(w', t, ip, owner, i + 1);
      TakeAfterSet(w, t, Claiming(ip, owner, i + 1), ip, owner);
    } else {
      n := 0;
    }
    TurnsStep(w, t, n);
    TurnsStep(w', t, 0);
    n := n + 1;
  }

  /** Running the split steps of one claim without interleaving is `ClaimAtOnce`. */
  lemma ClaimAloneIsAtomic(w: World, t: TaskId, ip: HostIp) returns (acts: seq<Action>)
    requires t !in w.tasks
    ensures Exec(w, acts) == ClaimAtOnce(Unwoken(w, t), t, ip)
  {
    var w0, owner := Unwoken(w, t), FirstSlot(w.slots, ip) == PENDING_RESOLVERS;
    var w1 := SetTask(w0, t, Scanning(ip, 0));
    var n1 := ScanAlone(w1, t, ip, 0);
    SetTwice(w0, t, Scanning(ip, 0), Claiming(ip, owner, 0));
    var w2 := SetTask(w0, t, Claiming(ip, owner, 0));
    var n2 := CasAlone(w2, t, ip, owner, 0);
    TakeAfterSet(w0, t, Claiming(ip, owner, 0), ip, owner);
    var rest := Turns(t, n1) + Turns(t, n2);
    ExecAppend(w1, Turns(t, n1), Turns(t, n2));
    acts := [Start(t, ip)] + rest;
    assert acts[1..] == rest;
  }

  /** Two tasks that start in `w` and scan before either of them claims. */
  function BothScanned(w: World, t: TaskId, u: TaskId, ip: HostIp): World {
    SetTask(SetTask(w, t, Claiming(ip, true, 0)), u, Claiming(ip, true, 0))
  }

  lemma StartBoth(w: World, t: TaskId, u: TaskId, ip: HostIp, rest: seq<Action>)
    requires t != u && t !in w.tasks && u !in w.tasks
    ensures Exec(w, [Start(t, ip)] + ([Start(u, ip)] + rest))
         == Exec(SetTask(SetTask(Unwoken(Unwoken(w, t), u), t, Scanning(ip, 0)), u, Scanning(ip, 0)), rest)
  {
    var acts := [Start(t, ip)] + ([Start(u, ip)] + rest);
    assert acts[1..] == [Start(u, ip)] + rest && acts[1..][1..] == rest;
  }

  lemma ScanBoth(w: World, t: TaskId, u: TaskId, ip: HostIp) returns (acts: seq<Action>)
    requires t != u && t !in w.tasks && u !in w.tasks && FirstSlot(w.slots, ip) == PENDING_RESOLVERS
    ensures Exec(w, acts) == BothScanned(Unwoken(Unwoken(w, t), u), t, u, ip)
  {
    var w0 := Unwoken(Unwoken(w, t), u);
    var w2 := SetTask(SetTask(w0, t, Scanning(ip, 0)), u, Scanning(ip, 0));
    var n := ScanAlone(w2, t, ip, 0);
    var w3 := SetTask(w2, t, Claiming(ip, true, 0));
    var m := ScanAlone(w3, u, ip, 0);
    var scans := Turns(t, n) + Turns(u, m);
    ExecAppend(w2, Turns(t, n), Turns(u, m));
    StartBoth(w, t, u, ip, scans);
    acts := [Start(t, ip)] + ([Start(u, ip)] + scans);
    assert SetTask(w3, u, Claiming(ip, true, 0)).tasks == BothScanned(w0, t, u, ip).tasks;
  }

  lemma ClaimBoth(w: World, t: TaskId, u: TaskId, ip: HostIp) returns (acts: seq<Action>)
    requires t != u && t in w.tasks && u in w.tasks
    requires w.tasks[t] == Claiming(ip, true, 0) && w.tasks[u] == Claiming(ip, true, 0)
    requires w.slots[0].ip == 0 && w.slots[1].ip == 0
    ensures var w' := Exec(w, acts);
            && t in w'.tasks && w'.tasks[t] == Reading(Claim(ip, 0, true), RESOLVE_ATTEMPTS - 1)
            && u in w'.tasks && w'.tasks[u] == Reading(Claim(ip, 1, true), RESOLVE_ATTEMPTS - 1)
  {
    var n := CasAlone(w, t, ip, true, 0);
    var w1 := TakeSlot(w, t, ip, true);
    assert FirstSlot(w.slots, 0) == 0 && FirstSlot(w1.slots, 0) == 1;
    var m := CasAlone(w1, u, ip, true, 0);
    acts := Turns(t, n) + Turns(u, m);
    ExecAppend(w, Turns(t, n), Turns(u, m));
  }

  /** Interleaved claims can both conclude they own the IP. */
  lemma TwoOwnersWhenInterleaved(t: TaskId, u: TaskId, ip: HostIp) returns (acts: seq<Action>)
    requires t != u
    ensures var w := Exec(BOOT, acts);
            && t in Live(w) && u in Live(w)
            && w.tasks[t].claim == Claim(ip, 0, true) && w.tasks[u].claim == Claim(ip, 1, true)
  {
    assert FirstSlot(BOOT.slots, ip) == PENDING_RESOLVERS;
    var scans := ScanBoth(BOOT, t, u, ip);
    var claims := ClaimBoth(BothScanned(Unwoken(Unwoken(BOOT, t), u), t, u, ip), t, u, ip);
    acts := scans + claims;
    ExecAppend(BOOT, scans, claims);
  }
}
