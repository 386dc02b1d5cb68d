/** A virtio split queue (section 2.7 of VIRTIO 1.2): rings indexed by free-running
    16-bit counters, and every run of a driver and a device over them. */
module Virtqueue {
  import opened Basics

  datatype UsedElem = UsedElem(id: u32, len: u32)

  /** The two rings in guest memory and the device's private cursors. */
  datatype Queue = Queue(
    qsize: nat,
    availIdx: u16, avail: seq<u16>,
    usedIdx: u16, used: seq<UsedElem>,
    lastAvail: u16, usedCursor: u16)

  predicate WellSized(q: Queue) {
    IsPow2(q.qsize) && q.qsize <= 0x8000 && |q.avail| == q.qsize && |q.used| == q.qsize
  }

  function Next16(i: u16): u16 {
    if i == 0xFFFF then 0 else i + 1
  }

  /** The ring slot of a free-running index: `idx & (qsize - 1)`. */
  function SlotOf(idx: u16, qsize: nat): (k: nat)
    requires qsize > 0
    ensures k < qsize
  {
    BitAnd(idx, qsize - 1)
  }

  /** A 16-bit counter that has been advanced `n` times. */
  function Wrap(n: nat): u16 {
    if n < 0x1_0000 then n else Wrap(n - 0x1_0000)
  }

  lemma {:induction false} WrapIsMod(n: nat)
    ensures Wrap(n) == n % 0x1_0000
  {
    if n >= 0x1_0000 { WrapIsMod(n - 0x1_0000); }
  }

  /** Steps from one 16-bit counter value to another: the wrapping difference. */
  function Gap(from: u16, to: u16): (g: nat)
    ensures g == (to - from) % 0x1_0000
  {
    if from <= to then to - from else to - from + 0x1_0000
  }

  /** Entries the driver has published and the device has not yet consumed. */
  function Outstanding(q: Queue): nat {
    Gap(q.lastAvail, q.availIdx)
  }

  // ── The device ──────────────────────────────────────────────────────

  /** One round of the device loop: the entry at the avail cursor is recorded
      in the used ring at the used cursor, and both cursors advance. */
  function CompleteOne(q: Queue, len: u32): (r: Queue)
    requires WellSized(q)
    ensures WellSized(r)
  {
    q.(used := q.used[SlotOf(q.usedCursor, q.qsize) := UsedElem(q.avail[SlotOf(q.lastAvail, q.qsize)], len)],
       usedCursor := Next16(q.usedCursor), lastAvail := Next16(q.lastAvail))
  }

  function CompleteMany(q: Queue, lens: seq<u32>): (r: Queue)
    requires WellSized(q)
    ensures WellSized(r)
    decreases |lens|
  {
    if lens == [] then q else CompleteMany(CompleteOne(q, lens[0]), lens[1..])
  }

  /** A device call that completes one entry per length and, if it completed
      any, publishes its used cursor. */
  function Serve(q: Queue, lens: seq<u32>): (r: Queue)
    requires WellSized(q)
    ensures WellSized(r)
  {
    if lens == [] then q
    else var r := CompleteMany(q, lens); r.(usedIdx := r.usedCursor)
  }

  /** The heads in the avail ring between two counter values. */
  function HeadsBetween(avail: seq<u16>, from: u16, to: u16): (h: seq<u16>)
    requires |avail| > 0
    ensures |h| == Gap(from, to)
    decreases Gap(from, to)
  {
    if from == to then [] else [avail[SlotOf(from, |avail|)]] + HeadsBetween(avail, Next16(from), to)
  }

  /** The heads still outstanding, in ring order. */
  function Heads(q: Queue): (h: seq<u16>)
    requires WellSized(q)
    ensures |h| == Outstanding(q)
  {
    HeadsBetween(q.avail, q.lastAvail, q.availIdx)
  }

  lemma CompleteManyCons(q: Queue, len: u32, lens: seq<u32>)
    requires WellSized(q)
    ensures CompleteMany(q, [len] + lens) == CompleteMany(CompleteOne(q, len), lens)
  {
    assert ([len] + lens)[1..] == lens;
  }

  /** Completing the next entry leaves the other heads outstanding. */
  lemma HeadsAfterOne(q: Queue, len: u32)
    requires WellSized(q) && q.lastAvail != q.availIdx
    ensures Heads(q) == [q.avail[SlotOf(q.lastAvail, q.qsize)]] + Heads(CompleteOne(q, len))
    ensures Outstanding(CompleteOne(q, len)) == Outstanding(q) - 1
  {
  }

  // ── Driver and device together ──────────────────────────────────────

  /** The queue, the driver's own used cursor, and the history since the last
      reset: heads published, entries completed, entries the driver has read. */
  datatype System = System(
    q: Queue, lastUsed: u16,
    published: seq<u16>, completed: seq<UsedElem>, observed: seq<UsedElem>)

  datatype Op =
    | Publish(head: u16)       // driver; only while fewer than qsize entries are unreturned
    | Device(lens: seq<u32>)   // device; at most the outstanding entries
    | Reap                     // driver; only when the used index has moved
    | Reset(qsize: nat)        // device reset; the driver sets up new rings of a usable size

  function Elems(heads: seq<u16>, lens: seq<u32>): (es: seq<UsedElem>)
    requires |lens| <= |heads|
    ensures |es| == |lens|
  {
    seq(|lens|, i requires 0 <= i < |lens| => UsedElem(heads[i], lens[i]))
  }

  function Step(s: System, op: Op): System
    requires WellSized(s.q)
  {
    match op
    case Publish(head) =>
      if |s.published| - |s.observed| >= s.q.qsize then s
      else s.(q := s.q.(avail := s.q.avail[SlotOf(s.q.availIdx, s.q.qsize) := head], availIdx := Next16(s.q.availIdx)),
              published := s.published + [head])
    case Device(lens) =>
      if |lens| > |Heads(s.q)| then s
      else s.(q := Serve(s.q, lens), completed := s.completed + Elems(Heads(s.q), lens))
    case Reap =>
      if s.lastUsed == s.q.usedIdx then s
      else s.(lastUsed := Next16(s.lastUsed), observed := s.observed + [s.q.used[SlotOf(s.lastUsed, s.q.qsize)]])
    case Reset(qsize) =>
      if IsPow2(qsize) && qsize <= 0x8000 then Boot(qsize) else s
  }

  function Boot(qsize: nat): System {
    System(Queue(qsize, 0, seq(qsize, _ => 0), 0, seq(qsize, _ => UsedElem(0, 0)), 0, 0), 0, [], [], [])
  }

  function Run(s: System, ops: seq<Op>): System
    requires WellSized(s.q)
    decreases |ops|
  {
    if ops == [] then s else StepKeepsSize(s, ops[0]); Run(Step(s, ops[0]), ops[1..])
  }

  lemma StepKeepsSize(s: System, op: Op)
    requires WellSized(s.q)
    ensures WellSized(Step(s, op).q)
  {
  }

  // ── The invariant ───────────────────────────────────────────────────

  ghost predicate Counters(s: System) {
    && |s.observed| <= |s.completed| <= |s.published| <= |s.observed| + s.q.qsize
    && s.q.availIdx == Wrap(|s.published|)
    && s.q.lastAvail == s.q.usedCursor == Wrap(|s.completed|)
    && s.lastUsed == Wrap(|s.observed|)
  }

  /** The ring holds the entries of `history` from index `lo` on. */
  ghost predicate Window<T(!new)>(ring: seq<T>, history: seq<T>, lo: nat)
    requires |ring| > 0
  {
    forall j :: lo <= j < |history| ==> ring[SlotOf(Wrap(j), |ring|)] == history[j]
  }

  ghost predicate Rings(s: System)
    requires WellSized(s.q)
  {
    && Window(s.q.avail, s.published, |s.completed|)
    && Window(s.q.used, s.completed, |s.observed|)
  }

  ghost predicate Histories(s: System) {
    && |s.observed| <= |s.completed| <= |s.published|
    && s.observed == s.completed[..|s.observed|]
    && (forall j :: 0 <= j < |s.completed| ==> s.completed[j].id == s.published[j])
  }

  ghost predicate Busy(s: System) {
    WellSized(s.q) && Counters(s) && Rings(s) && Histories(s)
  }

  /** Between device calls the published used index is the device's cursor. */
  ghost predicate Inv(s: System) {
    Busy(s) && s.q.usedIdx == s.q.usedCursor
  }

  // ── Modular indices ─────────────────────────────────────────────────

  lemma ModOfProduct(j: nat, n: nat, m: nat)
    requires n > 0 && m > 0
    ensures j % (n * m) % n == j % n
  {
    var r, k := j % (n * m), j / (n * m);
    assert j == (n * m) * k + r;
    assert r == n * (r / n) + r % n;
    assert j == n * (m * k + r / n) + r % n;
    ModUnique(j, n, m * k + r / n, r % n);
  }

  lemma ModOfMultiple(j: nat, n: nat, d: nat)
    requires n > 0 && d > 0 && d % n == 0
    ensures j % d % n == j % n
  {
    var m := d / n;
    assert d == n * m;
    assert m > 0;
    ModOfProduct(j, n, m);
  }

  /** A 16-bit counter indexes a power-of-two ring like the unbounded count. */
  lemma SlotIsMod(j: nat, qsize: nat)
    requires IsPow2(qsize) && qsize <= 0x8000
    ensures SlotOf(Wrap(j), qsize) == j % qsize
  {
    Pow2Constants();
    Pow2Divides(qsize, 0x1_0000);
    WrapIsMod(j);
    ModOfMultiple(j, qsize, 0x1_0000);
    MaskIsMod(Wrap(j), qsize);
  }

  lemma WindowDistinct(i: nat, j: nat, n: nat)
    requires n > 0 && i < j < i + n
    ensures i % n != j % n
  {
    if i % n == j % n {
      var d := j / n - i / n;
      assert j - i == n * d;
      if d >= 1 { MulMono(n, 1, d); } else { MulMono(n, d, 0); }
    }
  }

  /** Entries less than `qsize` apart never share a slot. */
  lemma SlotsApart(i: nat, j: nat, qsize: nat)
    requires IsPow2(qsize) && qsize <= 0x8000 && i < j < i + qsize
    ensures SlotOf(Wrap(i), qsize) != SlotOf(Wrap(j), qsize)
  {
    SlotIsMod(i, qsize);
    SlotIsMod(j, qsize);
    WindowDistinct(i, j, qsize);
  }

  lemma WrapNext(n: nat)
    ensures Wrap(n + 1) == Next16(Wrap(n))
  {
    WrapIsMod(n);
    WrapIsMod(n + 1);
  }

  lemma WrapEqual(a: nat, b: nat)
    requires a <= b <= a + 0x8000
    ensures Wrap(a) == Wrap(b) <==> a == b
    ensures Gap(Wrap(a), Wrap(b)) == b - a
  {
    WrapIsMod(a);
    WrapIsMod(b);
  }

  // ── Each step keeps it ──────────────────────────────────────────────

  /** The next entry completed. */
  function Completed(s: System, len: u32): System
    requires WellSized(s.q) && |s.completed| < |s.published|
  {
    s.(q := CompleteOne(s.q, len), completed := s.completed + [UsedElem(s.published[|s.completed|], len)])
  }

  /** Writing the next entry of a history keeps a window of at most the ring's size. */
  lemma WindowGrows<T(!new)>(ring: seq<T>, history: seq<T>, lo: nat, e: T)
    requires IsPow2(|ring|) && |ring| <= 0x8000
    requires Window(ring, history, lo) && |history| < lo + |ring|
    ensures Window(ring[SlotOf(Wrap(|history|), |ring|) := e], history + [e], lo)
  {
    forall j | lo <= j < |history| ensures SlotOf(Wrap(j), |ring|) != SlotOf(Wrap(|history|), |ring|) {
      SlotsApart(j, |history|, |ring|);
    }
  }

  lemma CompleteOneKeeps(s: System, len: u32)
    requires Busy(s) && |s.completed| < |s.published|
    ensures Busy(Completed(s, len))
    ensures s.q.avail[SlotOf(s.q.lastAvail, s.q.qsize)] == s.published[|s.completed|]
  {
    var c, e := |s.completed|, UsedElem(s.published[|s.completed|], len);
    assert s.q.avail[SlotOf(Wrap(c), s.q.qsize)] == s.published[c];
    WrapNext(c);
    WindowGrows(s.q.used, s.completed, |s.observed|, e);
    HistoryGrows(s.published, s.completed, s.observed, e);
  }

  lemma HistoryGrows(published: seq<u16>, completed: seq<UsedElem>, observed: seq<UsedElem>, e: UsedElem)
    requires |observed| <= |completed| < |published| && observed == completed[..|observed|]
    requires forall j :: 0 <= j < |completed| ==> completed[j].id == published[j]
    requires e.id == published[|completed|]
    ensures observed == (completed + [e])[..|observed|]
    ensures forall j :: 0 <= j < |completed + [e]| ==> (completed + [e])[j].id == published[j]
  {
  }

  lemma OutstandingIs(s: System)
    requires WellSized(s.q) && Counters(s)
    ensures Outstanding(s.q) == |s.published| - |s.completed|
    ensures s.q.lastAvail == s.q.availIdx <==> |s.completed| == |s.published|
  {
    WrapEqual(|s.completed|, |s.published|);
  }

  lemma {:induction false} HeadsOfWindow(avail: seq<u16>, history: seq<u16>, lo: nat)
    requires |avail| > 0 && lo <= |history| <= lo + 0x8000 && Window(avail, history, lo)
    ensures HeadsBetween(avail, Wrap(lo), Wrap(|history|)) == history[lo..]
    decreases |history| - lo
  {
    WrapEqual(lo, |history|);
    if lo < |history| {
      WrapNext(lo);
      HeadsOfWindow(avail, history, lo + 1);
      assert history[lo..] == [history[lo]] + history[lo + 1..];
    }
  }

  lemma HeadsAre(s: System)
    requires Busy(s)
    ensures Heads(s.q) == s.published[|s.completed|..]
  {
    HeadsOfWindow(s.q.avail, s.published, |s.completed|);
  }

  /** The next `|lens|` entries completed. */
  function CompletedMany(s: System, lens: seq<u32>): System
    requires WellSized(s.q) && |s.completed| + |lens| <= |s.published|
  {
    s.(q := CompleteMany(s.q, lens), completed := s.completed + Elems(s.published[|s.completed|..], lens))
  }

  lemma CompletedManyUnfold(s: System, lens: seq<u32>)
    requires WellSized(s.q) && |s.completed| + |lens| <= |s.published|
    ensures CompletedMany(s, lens) ==
            if lens == [] then s else CompletedMany(Completed(s, lens[0]), lens[1..])
  {
    if lens == [] {
      assert s.completed + [] == s.completed;
    } else {
      var s' := Completed(s, lens[0]);
      assert s'.completed + Elems(s.published[|s'.completed|..], lens[1..])
          == s.completed + Elems(s.published[|s.completed|..], lens);
    }
  }

  lemma {:induction false} CompletedManyKeeps(s: System, lens: seq<u32>)
    requires Busy(s) && |s.completed| + |lens| <= |s.published|
    ensures Busy(CompletedMany(s, lens))
    decreases |lens|
  {
    CompletedManyUnfold(s, lens);
    if lens != [] {
      CompleteOneKeeps(s, lens[0]);
      CompletedManyKeeps(Completed(s, lens[0]), lens[1..]);
    }
  }

  lemma StepKeepsInv(s: System, op: Op)
    requires Inv(s)
    ensures Inv(Step(s, op))
  {
    match op
    case Publish(head) => PublishKeeps(s, head);
    case Device(lens) => DeviceKeeps(s, lens);
    case Reap => ReapKeeps(s);
    case Reset(qsize) => if IsPow2(qsize) && qsize <= 0x8000 { BootInv(qsize); }
  }

  lemma PublishKeeps(s: System, head: u16)
    requires Inv(s)
    ensures Inv(Step(s, Publish(head)))
  {
    if |s.published| - |s.observed| < s.q.qsize {
      WrapNext(|s.published|);
      WindowGrows(s.q.avail, s.published, |s.completed|, head);
    }
  }

  lemma DeviceKeeps(s: System, lens: seq<u32>)
    requires Inv(s)
    ensures Inv(Step(s, Device(lens)))
  {
    HeadsAre(s);
    if |lens| <= |Heads(s.q)| {
      CompletedManyKeeps(s, lens);
      assert lens == [] ==> s.completed + Elems(Heads(s.q), lens) == s.completed;
    }
  }

  lemma ReapKeeps(s: System)
    requires Inv(s)
    ensures Inv(Step(s, Reap))
  {
    WrapEqual(|s.observed|, |s.completed|);
    WrapNext(|s.observed|);
  }

  lemma {:induction false} RunKeepsInv(s: System, ops: seq<Op>)
    requires Inv(s)
    ensures Inv(Run(s, ops))
    decreases |ops|
  {
    if ops != [] {
      StepKeepsInv(s, ops[0]);
      RunKeepsInv(Step(s, ops[0]), ops[1..]);
    }
  }

  lemma BootInv(qsize: nat)
    requires IsPow2(qsize) && qsize <= 0x8000
    ensures Inv(Boot(qsize))
  {
  }

  // ── Theorems over every run ─────────────────────────────────────────

  /** In every epoch the heads the driver reads back are the heads it published, in order,
      once each, with the lengths the device gave them; the device's two cursors
      agree; and when both sides have caught up, every published entry has come back. */
  lemma ExactlyOnceInOrder(qsize: nat, ops: seq<Op>)
    requires IsPow2(qsize) && qsize <= 0x8000
    ensures WellSized(Boot(qsize).q)
    ensures var s := Run(Boot(qsize), ops);
            && |s.observed| <= |s.published|
            && (forall j :: 0 <= j < |s.observed| ==> s.observed[j].id == s.published[j])
            && s.observed <= s.completed
            && s.q.lastAvail == s.q.usedCursor == s.q.usedIdx
            && (s.q.lastAvail == s.q.availIdx && s.lastUsed == s.q.usedIdx ==> |s.observed| == |s.published|)
  {
    BootInv(qsize);
    RunKeepsInv(Boot(qsize), ops);
    var s := Run(Boot(qsize), ops);
    OutstandingIs(s);
    WrapEqual(|s.observed|, |s.completed|);
  }

  /** A reset starts a new epoch: nothing that happened before it shows. */
  lemma {:induction false} ResetForgets(s: System, before: seq<Op>, qsize: nat, epoch: seq<Op>)
    requires WellSized(s.q) && IsPow2(qsize) && qsize <= 0x8000
    ensures WellSized(Boot(qsize).q)
    ensures Run(s, before + ([Reset(qsize)] + epoch)) == Run(Boot(qsize), epoch)
    decreases |before|
  {
    BootInv(qsize);
    if before == [] {
      assert before + ([Reset(qsize)] + epoch) == [Reset(qsize)] + epoch;
      assert ([Reset(qsize)] + epoch)[1..] == epoch;
    } else {
      StepKeepsSize(s, before[0]);
      assert (before + ([Reset(qsize)] + epoch))[1..] == before[1..] + ([Reset(qsize)] + epoch);
      ResetForgets(Step(s, before[0]), before[1..], qsize, epoch);
    }
  }
}
