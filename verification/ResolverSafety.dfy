/** Safety of the asynchronous resolver over every interleaving. */
module ResolverSafety {
  import opened Basics
  import opened Arp
  import opened Resolver

  lemma {:induction false} ExecKeepsInv(w: World, acts: seq<Action>)
    requires Inv(w)
    ensures Inv(Exec(w, acts))
    decreases |acts|
  {
    if acts != [] {
      ActionKeepsInv(w, acts[0]);
      ExecKeepsInv(Apply(w, acts[0]), acts[1..]);
    }
  }

  lemma BootInv()
    ensures Inv(BOOT)
  {
  }

  // ── Each action keeps the invariant ─────────────────────────────────

  /** Hearing about one IP cannot make another appear in the cache. */
  lemma UpdateAddsOnly(es: seq<ArpEntry>, ip: Ipv4, mac: Mac, x: Ipv4)
    requires |es| > 0 && x != ip && Lookup(Update(es, ip, mac), x).Some?
    ensures Lookup(es, x).Some?
  {
    var b := FirstMatch(Update(es, ip, mac), x);
    assert Holds(es[b], x);
  }

  lemma ActionKeepsInv(w: World, a: Action)
    requires Inv(w)
    ensures Inv(Apply(w, a))
  {
    match a
    case Start(t, ip) => StartKeeps(w, t, ip);
    case Advance(t, timer) => if t in w.tasks { AdvanceKeeps(w, t, timer); }
    case Poll(t) => if t in w.tasks && w.tasks[t].Pending? { PollKeeps(w, t); }
    case Abort(t) => if t in w.tasks && w.tasks[t].Pending? { AbortKeeps(w, t); }
    case Hear(r, ip, mac) => HearKeeps(w, r, ip, mac);
    case Wake(r) => if r in w.receivers { WakeKeeps(w, r); }
  }

  /** Only task `t` and the slot it claims (before or after) change. */
  ghost predicate OnlyTask(w: World, w': World, t: TaskId)
  {
    && w'.receivers == w.receivers && w'.cache == w.cache
    && (forall u :: u != t ==> (u in w'.runnable <==> u in w.runnable))
    && (forall u :: u != t ==> (u in w'.tasks <==> u in w.tasks))
    && (forall u :: u != t && u in w.tasks ==> w'.tasks[u] == w.tasks[u])
    && (forall u :: u != t && u in w.tasks && w.tasks[u].Claimed() ==>
          w'.slots[w.tasks[u].claim.slot] == w.slots[w.tasks[u].claim.slot])
  }

  lemma TaskMoves(w: World, w': World, t: TaskId)
    requires Inv(w) && OnlyTask(w, w', t) && Exclusive(w')
    requires t in w'.tasks && w'.tasks[t].Rereading? ==> w'.slots[w'.tasks[t].claim.slot].waker == Some(t)
    requires t in w'.tasks && w'.tasks[t].Pending? ==>
               && !Cached(w', w'.tasks[t].claim.ip)
               && w'.slots == w.slots && w'.runnable == w.runnable && t in w.tasks
               && (w.tasks[t].Rereading? || w.tasks[t].Pending?) && w.tasks[t].claim == w'.tasks[t].claim
    ensures Inv(w')
  {
    forall u | u in w'.tasks && (w'.tasks[u].Rereading? || w'.tasks[u].Pending?)
      ensures RegisteredTask(w', u, w'.tasks[u].claim.slot)
    {
      if w'.slots[w'.tasks[u].claim.slot].waker != Some(u) && u !in w'.runnable {
        var r :| FiringFor(w, r, u);
        assert FiringFor(w', r, u);
      }
    }
    forall u | u in w'.tasks && w'.tasks[u].Pending? && u !in w'.runnable && Cached(w', w'.tasks[u].claim.ip)
      ensures exists r :: Obliged(w', r, u, w'.tasks[u].claim)
    {
      var r :| Obliged(w, r, u, w.tasks[u].claim);
      assert Obliged(w', r, u, w'.tasks[u].claim);
    }
  }

  /** Claims and slot IPs are the same in both worlds. */
  ghost predicate ClaimsAgree(w: World, w': World)
  {
    && (forall u :: u in w.tasks && w.tasks[u].Claimed() ==>
          u in w'.tasks && w'.tasks[u].Claimed() && w'.tasks[u].claim == w.tasks[u].claim)
    && (forall u :: u in w'.tasks && w'.tasks[u].Claimed() ==> u in w.tasks && w.tasks[u].Claimed())
    && (forall k :: 0 <= k < PENDING_RESOLVERS ==> w'.slots[k].ip == w.slots[k].ip)
  }

  lemma SameClaims(w: World, w': World)
    requires Exclusive(w) && ClaimsAgree(w, w')
    ensures Exclusive(w')
  {
    forall k | 0 <= k < PENDING_RESOLVERS && w'.slots[k].ip != 0 ensures exists u :: ClaimsSlot(w', u, k) {
      var u :| ClaimsSlot(w, u, k);
      assert ClaimsSlot(w', u, k);
    }
  }

  lemma StartFrame(w: World, t: TaskId, ip: Ipv4)
    requires t !in w.tasks && ip != 0
    ensures var w' := Apply(w, Start(t, ip));
            && OnlyTask(w, w', t) && ClaimsAgree(w, w')
            && t in w'.tasks && !w'.tasks[t].Claimed()
  {
  }

  lemma StartKeeps(w: World, t: TaskId, ip: Ipv4)
    requires Inv(w)
    ensures Inv(Apply(w, Start(t, ip)))
  {
    if t !in w.tasks && ip != 0 {
      var w' := Apply(w, Start(t, ip));
      StartFrame(w, t, ip);
      SameClaims(w, w');
      TaskMoves(w, w', t);
    }
  }

  lemma AdvanceKeeps(w: World, t: TaskId, timer: bool)
    requires Inv(w) && t in w.tasks
    ensures Inv(AdvanceTask(w, t, timer))
  {
    match w.tasks[t]
    case Scanning(_, _) => ScanKeeps(w, t, timer);
    case Claiming(_, _, i) =>
      if i < PENDING_RESOLVERS && w.slots[i].ip == 0 { ClaimKeeps(w, t); } else { ScanKeeps(w, t, timer); }
    case Reading(_, _) => ReadKeeps(w, t, timer);
    case Parking(_, _) => ParkKeeps(w, t);
    case Rereading(_, _) => ReadKeeps(w, t, timer);
    case Pending(_, _) =>
    case Dropping(_, _) => DropKeeps(w, t);
    case Releasing(_) => ReleaseKeeps(w, t);
  }

  /** Loads and failed compare-exchanges of a task without a claim. */
  lemma ScanFrame(w: World, t: TaskId, timer: bool)
    requires t in w.tasks && !w.tasks[t].Claimed()
    requires w.tasks[t].Claiming? && w.tasks[t].i < PENDING_RESOLVERS ==> w.slots[w.tasks[t].i].ip != 0
    ensures var w' := AdvanceTask(w, t, timer);
            && OnlyTask(w, w', t) && ClaimsAgree(w, w')
            && (t in w'.tasks ==> !w'.tasks[t].Claimed())
  {
  }

  lemma ScanKeeps(w: World, t: TaskId, timer: bool)
    requires Inv(w) && t in w.tasks && !w.tasks[t].Claimed()
    requires w.tasks[t].Claiming? && w.tasks[t].i < PENDING_RESOLVERS ==> w.slots[w.tasks[t].i].ip != 0
    ensures Inv(AdvanceTask(w, t, timer))
  {
    ScanFrame(w, t, timer);
    SameClaims(w, AdvanceTask(w, t, timer));
    TaskMoves(w, AdvanceTask(w, t, timer), t);
  }

  /** The two cache reads of a poll. */
  lemma ReadFrame(w: World, t: TaskId, timer: bool)
    requires t in w.tasks && (w.tasks[t].Reading? || w.tasks[t].Rereading?)
    ensures var w' := AdvanceTask(w, t, timer);
            && OnlyTask(w, w', t) && ClaimsAgree(w, w')
            && w'.slots == w.slots && w'.runnable == w.runnable
            && t in w'.tasks && w'.tasks[t].Claimed() && w'.tasks[t].claim == w.tasks[t].claim
            && !w'.tasks[t].Rereading?
            && (w'.tasks[t].Pending? ==> w.tasks[t].Rereading? && !Cached(w', w'.tasks[t].claim.ip))
  {
  }

  lemma ReadKeeps(w: World, t: TaskId, timer: bool)
    requires Inv(w) && t in w.tasks && (w.tasks[t].Reading? || w.tasks[t].Rereading?)
    ensures Inv(AdvanceTask(w, t, timer))
  {
    ReadFrame(w, t, timer);
    SameClaims(w, AdvanceTask(w, t, timer));
    TaskMoves(w, AdvanceTask(w, t, timer), t);
  }

  ghost predicate AloneInSlot(w: World, t: TaskId)
    requires t in w.tasks && w.tasks[t].Claimed()
  {
    forall u :: u in w.tasks && u != t && w.tasks[u].Claimed() ==> w.tasks[u].claim.slot != w.tasks[t].claim.slot
  }

  /** A task writes the waker of its own slot and moves on with its claim. */
  lemma SlotFrame(w: World, t: TaskId, s: Task, waker: Option<TaskId>)
    requires t in w.tasks && w.tasks[t].Claimed() && AloneInSlot(w, t)
    requires s.Claimed() && s.claim == w.tasks[t].claim
    ensures var k := s.claim.slot;
            var w' := SetTask(w, t, s).(slots := w.slots[k := w.slots[k].(waker := waker)]);
            OnlyTask(w, w', t) && ClaimsAgree(w, w')
  {
  }

  lemma ParkKeeps(w: World, t: TaskId)
    requires Inv(w) && t in w.tasks && w.tasks[t].Parking?
    ensures Inv(AdvanceTask(w, t, false))
  {
    SlotFrame(w, t, Rereading(w.tasks[t].claim, w.tasks[t].left), Some(t));
    SameClaims(w, AdvanceTask(w, t, false));
    TaskMoves(w, AdvanceTask(w, t, false), t);
  }

  lemma DropFrame(w: World, t: TaskId)
    requires t in w.tasks && w.tasks[t].Dropping? && AloneInSlot(w, t)
    ensures var w' := AdvanceTask(w, t, false);
            && OnlyTask(w, w', t) && ClaimsAgree(w, w')
            && t in w'.tasks && !w'.tasks[t].Pending? && !w'.tasks[t].Rereading?
  {
    var c, left := w.tasks[t].claim, w.tasks[t].left;
    var next := if left > 0 then Reading(c, left - 1) else Releasing(c);
    if w.slots[c.slot].waker == Some(t) {
      SlotFrame(w, t, next, None);
    }
  }

  lemma DropKeeps(w: World, t: TaskId)
    requires Inv(w) && t in w.tasks && w.tasks[t].Dropping?
    ensures Inv(AdvanceTask(w, t, false))
  {
    DropFrame(w, t);
    SameClaims(w, AdvanceTask(w, t, false));
    TaskMoves(w, AdvanceTask(w, t, false), t);
  }

  lemma ClaimKeeps(w: World, t: TaskId)
    requires Inv(w) && t in w.tasks && w.tasks[t].Claiming?
    requires w.tasks[t].i < PENDING_RESOLVERS && w.slots[w.tasks[t].i].ip == 0
    ensures Inv(AdvanceTask(w, t, false))
  {
    var w', i := AdvanceTask(w, t, false), w.tasks[t].i;
    forall k | 0 <= k < PENDING_RESOLVERS && w'.slots[k].ip != 0 ensures exists u :: ClaimsSlot(w', u, k) {
      if k == i {
        assert ClaimsSlot(w', t, k);
      } else {
        var u :| ClaimsSlot(w, u, k);
        assert ClaimsSlot(w', u, k);
      }
    }
    TaskMoves(w, w', t);
  }

  lemma ReleaseKeeps(w: World, t: TaskId)
    requires Inv(w) && t in w.tasks && w.tasks[t].Releasing?
    ensures Inv(AdvanceTask(w, t, false))
  {
    var w' := AdvanceTask(w, t, false);
    forall k | 0 <= k < PENDING_RESOLVERS && w'.slots[k].ip != 0 ensures exists u :: ClaimsSlot(w', u, k) {
      var u :| ClaimsSlot(w, u, k);
      assert ClaimsSlot(w', u, k);
    }
    TaskMoves(w, w', t);
  }

  lemma PollKeeps(w: World, t: TaskId)
    requires Inv(w) && t in w.tasks && w.tasks[t].Pending?
    ensures Inv(Apply(w, Poll(t)))
  {
    var w' := Apply(w, Poll(t));
    SameClaims(w, w');
    TaskMoves(w, w', t);
  }

  lemma AbortKeeps(w: World, t: TaskId)
    requires Inv(w) && t in w.tasks && w.tasks[t].Pending?
    ensures Inv(Apply(w, Abort(t)))
  {
    var w' := Apply(w, Abort(t));
    SameClaims(w, w');
    TaskMoves(w, w', t);
  }

  lemma HearKeeps(w: World, r: ReceiverId, ip: Ipv4, mac: Mac)
    requires Inv(w)
    ensures Inv(Apply(w, Hear(r, ip, mac)))
  {
    if r !in w.receivers && ip != 0 {
      var w' := Apply(w, Hear(r, ip, mac));
      SameClaims(w, w');
      ReceiversKept(w, w', r);
      forall t | t in w'.tasks && w'.tasks[t].Pending? && t !in w'.runnable && Cached(w', w'.tasks[t].claim.ip)
        ensures exists q :: Obliged(w', q, t, w'.tasks[t].claim)
      {
        var c := w'.tasks[t].claim;
        if c.ip == ip {
          assert Obliged(w', r, t, c);
        } else {
          UpdateAddsOnly(w.cache, ip, mac, c.ip);
          var q :| Obliged(w, q, t, c);
          assert Obliged(w', q, t, c);
        }
      }
    }
  }

  /** Receivers other than `r` keep what they owe. */
  lemma ReceiversKept(w: World, w': World, r: ReceiverId)
    requires forall q :: q in w.receivers && q != r ==> q in w'.receivers && w'.receivers[q] == w.receivers[q]
    ensures forall q, t :: q != r && FiringFor(w, q, t) ==> FiringFor(w', q, t)
    ensures forall q, t, c :: q != r && Obliged(w, q, t, c) ==> Obliged(w', q, t, c)
  {
  }

  lemma WakeFrame(w: World, r: ReceiverId)
    requires r in w.receivers
    ensures var w' := AdvanceReceiver(w, r);
            w'.tasks == w.tasks && w'.cache == w.cache && ClaimsAgree(w, w')
  {
  }

  lemma WakeKeeps(w: World, r: ReceiverId)
    requires Inv(w) && r in w.receivers
    ensures Inv(AdvanceReceiver(w, r))
  {
    WakeFrame(w, r);
    SameClaims(w, AdvanceReceiver(w, r));
    forall t | t in w.tasks && (w.tasks[t].Rereading? || w.tasks[t].Pending?)
      ensures RegisteredTask(AdvanceReceiver(w, r), t, w.tasks[t].claim.slot)
    {
      WakeKeepsRegistration(w, r, t);
    }
    forall t | t in w.tasks && w.tasks[t].Pending? && t !in AdvanceReceiver(w, r).runnable
               && Cached(w, w.tasks[t].claim.ip)
      ensures exists q :: Obliged(AdvanceReceiver(w, r), q, t, w.tasks[t].claim)
    {
      WakeKeepsObligation(w, r, t);
    }
  }

  lemma WakeKeepsRegistration(w: World, r: ReceiverId, t: TaskId)
    requires Inv(w) && r in w.receivers
    requires t in w.tasks && (w.tasks[t].Rereading? || w.tasks[t].Pending?)
    ensures RegisteredTask(AdvanceReceiver(w, r), t, w.tasks[t].claim.slot)
  {
    var w' := AdvanceReceiver(w, r);
    ReceiversKept(w, w', r);
    if w.slots[w.tasks[t].claim.slot].waker == Some(t) {
      if w.receivers[r].Taking? && w.receivers[r].slot == w.tasks[t].claim.slot {
        assert FiringFor(w', r, t);
      }
    } else if t !in w.runnable {
      var q :| FiringFor(w, q, t);
      if q != r { assert FiringFor(w', q, t); }
    }
  }

  /** The receiver's step either keeps its debt to `t`, pays it, or leaves it to
      the receiver that already holds the waker. */
  lemma WakeKeepsObligation(w: World, r: ReceiverId, t: TaskId)
    requires Inv(w) && r in w.receivers
    requires t in w.tasks && w.tasks[t].Pending?
    requires t !in AdvanceReceiver(w, r).runnable && Cached(w, w.tasks[t].claim.ip)
    ensures exists q :: Obliged(AdvanceReceiver(w, r), q, t, w.tasks[t].claim)
  {
    var w', c := AdvanceReceiver(w, r), w.tasks[t].claim;
    ReceiversKept(w, w', r);
    assert w.slots[c.slot].ip == c.ip;
    if w.slots[c.slot].waker != Some(t) {
      var q :| FiringFor(w, q, t);
      assert q != r;
      assert Obliged(w', q, t, c);
    } else {
      var q :| Obliged(w, q, t, c);
      assert Obliged(w', q, t, c);
    }
  }

  // ── Theorems over every run ─────────────────────────────────────────

  /** In every reachable world, a task that returned Pending, has not been
      woken since, and whose IP the shared cache holds, is owed a wake by a
      receiver that has updated the cache and not finished with its slot. */
  lemma NoLostWakeup(acts: seq<Action>, t: TaskId)
    requires var w := Exec(BOOT, acts);
             t in w.tasks && w.tasks[t].Pending? && t !in w.runnable && Cached(w, w.tasks[t].claim.ip)
    ensures var w := Exec(BOOT, acts);
            exists r :: Obliged(w, r, t, w.tasks[t].claim)
  {
    BootInv();
    ExecKeepsInv(BOOT, acts);
  }

  /** Once every receiver has finished, no suspended un-woken task has its
      answer sitting in the cache. */
  lemma QuiescentDelivered(acts: seq<Action>, t: TaskId)
    requires var w := Exec(BOOT, acts); w.receivers == map[] && t in w.tasks && w.tasks[t].Pending?
    ensures var w := Exec(BOOT, acts); t in w.runnable || !Cached(w, w.tasks[t].claim.ip)
  {
    var w := Exec(BOOT, acts);
    if t !in w.runnable && Cached(w, w.tasks[t].claim.ip) {
      NoLostWakeup(acts, t);
    }
  }
}
