/** When the pending table has at most one soliciting owner per IP: the exact step
    that breaks it, and the runs in which that step cannot occur. */
module ResolverOwners {
  import opened Basics
  import opened Resolver
  import opened ResolverClaims

  /** No two live claims of one IP both own it. */
  ghost predicate SingleOwner(w: World) {
    forall t, u :: t in w.tasks && u in w.tasks && t != u && Owns(w.tasks[t]) && Owns(w.tasks[u]) ==>
      w.tasks[t].claim.ip != w.tasks[u].claim.ip
  }

  predicate Owns(s: Task) {
    s.Claimed() && s.claim.owner
  }

  ghost predicate HasOwner(w: World, ip: Ipv4, except: TaskId) {
    exists u :: u in w.tasks && u != except && Owns(w.tasks[u]) && w.tasks[u].claim.ip == ip
  }

  /** The action is a compare-exchange that takes a free slot. */
  predicate Takes(w: World, a: Action) {
    && a.Advance? && a.task in w.tasks && w.tasks[a.task].Claiming?
    && w.tasks[a.task].i < PENDING_RESOLVERS && w.slots[w.tasks[a.task].i].ip == 0
  }

  /** ... by a task that found no claim of its IP, while another owner of it is live. */
  ghost predicate Collides(w: World, a: Action) {
    Takes(w, a) && w.tasks[a.task].owner && HasOwner(w, w.tasks[a.task].ip, a.task)
  }

  // ── The exact step ──────────────────────────────────────────────────

  /** No action but a taking compare-exchange makes a task claimed, and none
      changes a claim. */
  lemma OnlyTakesClaim(w: World, a: Action, t: TaskId)
    requires !Takes(w, a) && t in Apply(w, a).tasks && Apply(w, a).tasks[t].Claimed()
    ensures t in w.tasks && w.tasks[t].Claimed() && w.tasks[t].claim == Apply(w, a).tasks[t].claim
  {
  }

  /** What a taking compare-exchange does. */
  lemma TakeClaims(w: World, a: Action)
    requires Takes(w, a)
    ensures var w', c := Apply(w, a), w.tasks[a.task];
            && w'.tasks == w.tasks[a.task := Reading(Claim(c.ip, c.i, c.owner), RESOLVE_ATTEMPTS - 1)]
  {
  }

  /** One step breaks single ownership exactly when it collides. */
  lemma BrokenExactly(w: World, a: Action)
    requires SingleOwner(w)
    ensures SingleOwner(Apply(w, a)) <==> !Collides(w, a)
  {
    var w' := Apply(w, a);
    if Takes(w, a) {
      TakeClaims(w, a);
      var t, c := a.task, w.tasks[a.task];
      if c.owner && HasOwner(w, c.ip, t) {
        var u :| u in w.tasks && u != t && Owns(w.tasks[u]) && w.tasks[u].claim.ip == c.ip;
        assert u in w'.tasks && t in w'.tasks && Owns(w'.tasks[t]) && Owns(w'.tasks[u]);
      }
    } else {
      forall t | t in w'.tasks && w'.tasks[t].Claimed()
        ensures t in w.tasks && w.tasks[t].Claimed() && w.tasks[t].claim == w'.tasks[t].claim
      {
        OnlyTakesClaim(w, a, t);
      }
    }
  }

  lemma ExecLast(w: World, acts: seq<Action>, n: nat)
    requires n < |acts|
    ensures Exec(w, acts[..n + 1]) == Apply(Exec(w, acts[..n]), acts[n])
  {
    assert acts[..n + 1] == acts[..n] + [acts[n]];
    ExecAppend(w, acts[..n], [acts[n]]);
    assert Exec(Exec(w, acts[..n]), [acts[n]]) == Apply(Exec(w, acts[..n]), acts[n]) by {
      assert [acts[n]][1..] == [];
    }
  }

  /** A run has single owners throughout exactly when none of its steps collides. */
  lemma {:induction false} OneOwnerExactly(acts: seq<Action>)
    ensures (forall n :: 0 <= n <= |acts| ==> SingleOwner(Exec(BOOT, acts[..n])))
       <==> (forall n :: 0 <= n < |acts| ==> !Collides(Exec(BOOT, acts[..n]), acts[n]))
  {
    if forall n :: 0 <= n <= |acts| ==> SingleOwner(Exec(BOOT, acts[..n])) {
      forall n | 0 <= n < |acts| ensures !Collides(Exec(BOOT, acts[..n]), acts[n]) {
        ExecLast(BOOT, acts, n);
        BrokenExactly(Exec(BOOT, acts[..n]), acts[n]);
      }
    }
    if forall n :: 0 <= n < |acts| ==> !Collides(Exec(BOOT, acts[..n]), acts[n]) {
      forall n | 0 <= n <= |acts| ensures SingleOwner(Exec(BOOT, acts[..n])) {
        NoCollisionSoFar(acts, n);
      }
    }
  }

  lemma {:induction false} NoCollisionSoFar(acts: seq<Action>, n: nat)
    requires n <= |acts| && forall k :: 0 <= k < n ==> !Collides(Exec(BOOT, acts[..k]), acts[k])
    ensures SingleOwner(Exec(BOOT, acts[..n]))
  {
    if n > 0 {
      NoCollisionSoFar(acts, n - 1);
      ExecLast(BOOT, acts, n - 1);
      BrokenExactly(Exec(BOOT, acts[..n - 1]), acts[n - 1]);
    }
  }

  // ── Runs in which no step collides ──────────────────────────────────

  predicate Undecided(s: Task, ip: Ipv4) {
    (s.Scanning? || s.Claiming?) && s.ip == ip
  }

  /** The action takes a slot for an IP another task is still claiming. */
  ghost predicate Contends(w: World, a: Action) {
    Takes(w, a) && exists u :: u in w.tasks && u != a.task && Undecided(w.tasks[u], w.tasks[a.task].ip)
  }

  /** A scan for the claim's IP has not passed the claim's slot, and a task done
      scanning for it did not conclude that there is no claim. */
  predicate Sees(s: Task, c: Claim) {
    Undecided(s, c.ip) ==> if s.Scanning? then s.i <= c.slot else !s.owner
  }

  ghost predicate ScansSee(w: World) {
    forall t, u :: t in w.tasks && u in w.tasks && w.tasks[u].Claimed() ==> Sees(w.tasks[t], w.tasks[u].claim)
  }

  lemma AdvanceKeepsSeeing(w: World, t: TaskId, timer: bool, c: Claim)
    requires t in w.tasks && Sees(w.tasks[t], c) && w.slots[c.slot].ip == c.ip
    ensures t in AdvanceTask(w, t, timer).tasks ==> Sees(AdvanceTask(w, t, timer).tasks[t], c)
  {
  }

  lemma OthersStay(w: World, a: Action, t: TaskId)
    requires t in Apply(w, a).tasks && t in w.tasks && !(a.Advance? && a.task == t)
    ensures Apply(w, a).tasks[t] == w.tasks[t] || Apply(w, a).tasks[t].Claimed()
  {
  }

  lemma NewcomersScan(w: World, a: Action, t: TaskId)
    requires t in Apply(w, a).tasks && t !in w.tasks
    ensures Apply(w, a).tasks[t].Scanning? && Apply(w, a).tasks[t].i == 0
  {
  }

  /** One step keeps every task's view of a claim that is already in its slot. */
  lemma StepKeepsSeeing(w: World, a: Action, t: TaskId, c: Claim)
    requires t in Apply(w, a).tasks && (t in w.tasks ==> Sees(w.tasks[t], c)) && w.slots[c.slot].ip == c.ip
    ensures Sees(Apply(w, a).tasks[t], c)
  {
    if t !in w.tasks {
      NewcomersScan(w, a, t);
    } else if a.Advance? && a.task == t {
      AdvanceKeepsSeeing(w, t, a.timer, c);
    } else {
      OthersStay(w, a, t);
    }
  }

  lemma ScansStillSee(w: World, a: Action)
    requires Exclusive(w) && ScansSee(w) && !Contends(w, a)
    ensures ScansSee(Apply(w, a))
  {
    var w' := Apply(w, a);
    forall t, u | t in w'.tasks && u in w'.tasks && w'.tasks[u].Claimed() ensures Sees(w'.tasks[t], w'.tasks[u].claim) {
      if Takes(w, a) && u == a.task {
        TakeClaims(w, a);
      } else {
        OldClaim(w, a, u);
        StepKeepsSeeing(w, a, t, w.tasks[u].claim);
      }
    }
  }

  lemma OldClaim(w: World, a: Action, u: TaskId)
    requires u in Apply(w, a).tasks && Apply(w, a).tasks[u].Claimed() && !(Takes(w, a) && u == a.task)
    ensures u in w.tasks && w.tasks[u].Claimed() && w.tasks[u].claim == Apply(w, a).tasks[u].claim
  {
    if Takes(w, a) {
      TakeClaims(w, a);
    } else {
      OnlyTakesClaim(w, a, u);
    }
  }

  lemma SeeingNeverCollides(w: World, a: Action)
    requires ScansSee(w)
    ensures !Collides(w, a)
  {
  }

  lemma {:induction false} UncontendedSoFar(acts: seq<Action>, n: nat)
    requires n <= |acts| && forall k :: 0 <= k < n ==> !Contends(Exec(BOOT, acts[..k]), acts[k])
    ensures ScansSee(Exec(BOOT, acts[..n]))
  {
    if n > 0 {
      UncontendedSoFar(acts, n - 1);
      ReachableExclusive(acts[..n - 1]);
      ExecLast(BOOT, acts, n - 1);
      ScansStillSee(Exec(BOOT, acts[..n - 1]), acts[n - 1]);
    }
  }

  /** In every run in which no task takes a slot for an IP that another task is
      still claiming, however else claims, releases, wakes and cache updates
      interleave, the live claims of an IP include at most one owner. */
  lemma OneOwnerPerIp(acts: seq<Action>)
    requires forall n :: 0 <= n < |acts| ==> !Contends(Exec(BOOT, acts[..n]), acts[n])
    ensures forall n :: 0 <= n <= |acts| ==> SingleOwner(Exec(BOOT, acts[..n]))
  {
    forall n | 0 <= n < |acts| ensures !Collides(Exec(BOOT, acts[..n]), acts[n]) {
      UncontendedSoFar(acts, n);
      SeeingNeverCollides(Exec(BOOT, acts[..n]), acts[n]);
    }
    OneOwnerExactly(acts);
  }

  /** Never two tasks inside a claim of the same IP. */
  ghost predicate OneAtATime(w: World) {
    forall t, u :: t in w.tasks && u in w.tasks && t != u && !w.tasks[t].Claimed() ==>
      !Undecided(w.tasks[u], w.tasks[t].ip)
  }

  /** In particular when the claims of an IP are atomic with respect to each other. */
  lemma AtomicClaimsOneOwner(acts: seq<Action>)
    requires forall n :: 0 <= n < |acts| ==> OneAtATime(Exec(BOOT, acts[..n]))
    ensures forall n :: 0 <= n <= |acts| ==> SingleOwner(Exec(BOOT, acts[..n]))
  {
    forall n | 0 <= n < |acts| ensures !Contends(Exec(BOOT, acts[..n]), acts[n]) {
      AloneNeverContends(Exec(BOOT, acts[..n]), acts[n]);
    }
    OneOwnerPerIp(acts);
  }

  lemma AloneNeverContends(w: World, a: Action)
    requires OneAtATime(w)
    ensures !Contends(w, a)
  {
  }
}
