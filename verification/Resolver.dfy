/** The asynchronous next-hop resolver as a step machine: any number of
    resolving tasks and of receivers, on any cores, interleaved one atomic
    access at a time (a slot load, a compare-exchange, a locked cache read or
    update, a locked waker-slot operation, a wake). */
module Resolver {
  import opened Basics
  import opened Arp

  const PENDING_RESOLVERS: nat := 8
  const RESOLVE_ATTEMPTS: nat := 3

  type TaskId = nat
  type ReceiverId = nat
  type SlotIndex = k: nat | k < PENDING_RESOLVERS
  type HostIp = ip: Ipv4 | ip != ANY_V4 witness 1

  /** A pending-table slot: the IP being resolved (0 = free) and its waker slot. */
  datatype Slot = Slot(ip: Ipv4, waker: Option<TaskId>)

  type Table = s: seq<Slot> | |s| == PENDING_RESOLVERS witness seq(PENDING_RESOLVERS, _ => Slot(0, None))
  type Cache = c: seq<ArpEntry> | |c| == ARP_CACHE_SIZE witness seq(ARP_CACHE_SIZE, _ => EMPTY_ENTRY)

  datatype Claim = Claim(ip: HostIp, slot: SlotIndex, owner: bool)

  /** Where a task stands inside `resolve_mac`, after both caches missed.
      `left` counts the retry windows still to come. */
  datatype Task =
    | Scanning(ip: HostIp, i: nat)
    | Claiming(ip: HostIp, owner: bool, i: nat)
    | Reading(claim: Claim, left: nat)
    | Parking(claim: Claim, left: nat)
    | Rereading(claim: Claim, left: nat)
    | Pending(claim: Claim, left: nat)
    | Dropping(claim: Claim, left: nat)
    | Releasing(claim: Claim)
  {
    predicate Claimed() {
      !Scanning? && !Claiming?
    }
  }

  /** A receiver that has updated the shared cache and is running its wake pass. */
  datatype Receiver =
    | Waking(ip: HostIp, i: nat)
    | Taking(ip: HostIp, slot: SlotIndex)
    | Firing(ip: HostIp, slot: SlotIndex, task: TaskId)

  datatype World = World(
    cache: Cache,
    slots: Table,
    tasks: map<TaskId, Task>,
    receivers: map<ReceiverId, Receiver>,
    runnable: set<TaskId>)

  const BOOT := World(seq(ARP_CACHE_SIZE, _ => EMPTY_ENTRY),
                      seq(PENDING_RESOLVERS, _ => Slot(0, None)), map[], map[], {})

  datatype Action =
    | Start(task: TaskId, ip: Ipv4)        // a resolve missed both caches
    | Advance(task: TaskId, timer: bool)   // the task's next access; timer: its window has run out
    | Poll(task: TaskId)                   // the executor polls a suspended task
    | Abort(task: TaskId)                  // the suspended future is dropped
    | Hear(receiver: ReceiverId, ip: Ipv4, mac: Mac)   // a reply updates the shared cache
    | Wake(receiver: ReceiverId)           // the receiver's next access

  predicate Cached(w: World, ip: Ipv4) {
    Lookup(w.cache, ip).Some?
  }

  function SetTask(w: World, t: TaskId, s: Task): World {
    w.(tasks := w.tasks[t := s])
  }

  /** A wake that reached an earlier task of this id does not count for a new one. */
  function Unwoken(w: World, t: TaskId): World {
    w.(runnable := w.runnable - {t})
  }

  function AdvanceTask(w: World, t: TaskId, timer: bool): World
    requires t in w.tasks
  {
    match w.tasks[t]
    case Scanning(ip, i) =>
      if i >= PENDING_RESOLVERS then SetTask(w, t, Claiming(ip, true, 0))
      else if w.slots[i].ip == ip then SetTask(w, t, Claiming(ip, false, 0))
      else SetTask(w, t, Scanning(ip, i + 1))
    case Claiming(ip, owner, i) =>
      if i >= PENDING_RESOLVERS then w.(tasks := w.tasks - {t})
      else if w.slots[i].ip == 0 then
        SetTask(w, t, Reading(Claim(ip, i, owner), RESOLVE_ATTEMPTS - 1))
        .(slots := w.slots[i := w.slots[i].(ip := ip)])
      else SetTask(w, t, Claiming(ip, owner, i + 1))
    case Reading(c, left) =>
      if Cached(w, c.ip) then SetTask(w, t, Dropping(c, 0)) else SetTask(w, t, Parking(c, left))
    case Parking(c, left) =>
      SetTask(w, t, Rereading(c, left)).(slots := w.slots[c.slot := w.slots[c.slot].(waker := Some(t))])
    case Rereading(c, left) =>
      if Cached(w, c.ip) then SetTask(w, t, Dropping(c, 0))
      else if timer then SetTask(w, t, Dropping(c, left))
      else SetTask(w, t, Pending(c, left))
    case Pending(_, _) => w
    case Dropping(c, left) =>
      var next := if left > 0 then Reading(c, left - 1) else Releasing(c);
      if w.slots[c.slot].waker == Some(t)
      then SetTask(w, t, next).(slots := w.slots[c.slot := w.slots[c.slot].(waker := None)])
      else SetTask(w, t, next)
    case Releasing(c) =>
      w.(tasks := w.tasks - {t}, slots := w.slots[c.slot := w.slots[c.slot].(ip := 0)])
  }

  function AdvanceReceiver(w: World, r: ReceiverId): World
    requires r in w.receivers
  {
    match w.receivers[r]
    case Waking(ip, i) =>
      if i >= PENDING_RESOLVERS then w.(receivers := w.receivers - {r})
      else if w.slots[i].ip == ip then w.(receivers := w.receivers[r := Taking(ip, i)])
      else w.(receivers := w.receivers[r := Waking(ip, i + 1)])
    case Taking(ip, i) =>
      if w.slots[i].waker.Some?
      then w.(receivers := w.receivers[r := Firing(ip, i, w.slots[i].waker.value)],
              slots := w.slots[i := w.slots[i].(waker := None)])
      else w.(receivers := w.receivers[r := Waking(ip, i + 1)])
    case Firing(ip, i, t) =>
      w.(receivers := w.receivers[r := Waking(ip, i + 1)], runnable := w.runnable + {t})
  }

  /** One step; an action that is not enabled leaves the world as it is. */
  function Apply(w: World, a: Action): World {
    match a
    case Start(t, ip) =>
      if t in w.tasks || ip == 0 then w else SetTask(Unwoken(w, t), t, Scanning(ip, 0))
    case Advance(t, timer) =>
      if t in w.tasks then AdvanceTask(w, t, timer) else w
    case Poll(t) =>
      if t in w.tasks && w.tasks[t].Pending?
      then SetTask(w, t, Reading(w.tasks[t].claim, w.tasks[t].left)).(runnable := w.runnable - {t})
      else w
    case Abort(t) =>
      if t in w.tasks && w.tasks[t].Pending? then SetTask(w, t, Dropping(w.tasks[t].claim, 0)) else w
    case Hear(r, ip, mac) =>
      if r in w.receivers || ip == 0 then w
      else w.(cache := Update(w.cache, ip, mac), receivers := w.receivers[r := Waking(ip, 0)])
    case Wake(r) =>
      if r in w.receivers then AdvanceReceiver(w, r) else w
  }

  function Exec(w: World, acts: seq<Action>): World
    decreases |acts|
  {
    if acts == [] then w else Exec(Apply(w, acts[0]), acts[1..])
  }

  // ── Invariants ──────────────────────────────────────────────────────

  ghost predicate ClaimsSlot(w: World, t: TaskId, k: nat) {
    t in w.tasks && w.tasks[t].Claimed() && w.tasks[t].claim.slot == k
  }

  /** The pending table is exclusive: a slot is non-zero exactly when one task
      claims it, and it then stores that task's IP. */
  ghost predicate Exclusive(w: World) {
    && (forall t :: t in w.tasks && w.tasks[t].Claimed() ==>
          w.slots[w.tasks[t].claim.slot].ip == w.tasks[t].claim.ip)
    && (forall t, u :: t in w.tasks && u in w.tasks && t != u && w.tasks[t].Claimed() && w.tasks[u].Claimed() ==>
          w.tasks[t].claim.slot != w.tasks[u].claim.slot)
    && (forall k :: 0 <= k < PENDING_RESOLVERS && w.slots[k].ip != 0 ==> exists t :: ClaimsSlot(w, t, k))
  }

  ghost predicate FiringFor(w: World, r: ReceiverId, t: TaskId) {
    r in w.receivers && w.receivers[r].Firing? && w.receivers[r].task == t
  }

  /** `t`'s waker is parked in slot `k`, or it has been taken and has fired or
      is about to. */
  ghost predicate RegisteredTask(w: World, t: TaskId, k: SlotIndex) {
    w.slots[k].waker == Some(t) || t in w.runnable || exists r :: FiringFor(w, r, t)
  }

  /** Every task past its park is registered. */
  ghost predicate Registered(w: World) {
    forall t :: t in w.tasks && (w.tasks[t].Rereading? || w.tasks[t].Pending?) ==>
      RegisteredTask(w, t, w.tasks[t].claim.slot)
  }

  /** Receiver `r` has updated the cache and still has to wake claim `c` of `t`. */
  ghost predicate Obliged(w: World, r: ReceiverId, t: TaskId, c: Claim) {
    && r in w.receivers
    && match w.receivers[r]
       case Waking(ip, i) => ip == c.ip && i <= c.slot
       case Taking(ip, i) => ip == c.ip && i <= c.slot
       case Firing(ip, i, u) => u == t || (ip == c.ip && i < c.slot)
  }

  /** No lost wakeup: a suspended, un-woken task whose IP is in the shared cache
      is still owed a wake by some receiver. */
  ghost predicate NothingLost(w: World) {
    forall t :: t in w.tasks && w.tasks[t].Pending? && t !in w.runnable && Cached(w, w.tasks[t].claim.ip) ==>
      exists r :: Obliged(w, r, t, w.tasks[t].claim)
  }

  ghost predicate Inv(w: World) {
    Exclusive(w) && Registered(w) && NothingLost(w)
  }
}
