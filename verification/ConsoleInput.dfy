/** Console input end to end: stdin, the device's receive calls, and a driver
    that posts one-byte buffers and reads them back. */
module ConsoleInput {
  import opened Basics
  import opened Chains
  import opened Virtqueue
  import opened VirtioConsole

  /** `desc` is the driver's fixed descriptor table; `supplied` is everything
      stdin has produced and `got` everything the driver has read. */
  datatype Input = Input(ring: System, desc: seq<Desc>, mem: seq<u8>,
                         queued: seq<u8>, supplied: seq<u8>, got: seq<u8>)

  datatype InputOp =
    | Supply(bytes: seq<u8>)   // the stdin thread
    | Post(head: u16)          // driver: offer a buffer it owns
    | Drive                    // device: one `process_rx`
    | Take                     // driver: read back the oldest returned buffer

  function InFlight(s: Input): seq<u16>
    requires |s.ring.observed| <= |s.ring.published|
  {
    s.ring.published[|s.ring.observed|..]
  }

  predicate Owned(desc: seq<Desc>, head: u16, size: nat) {
    head < |desc| && desc[head].addr < size
  }

  /** A driver posts only buffers in RAM that are not already with the device. */
  predicate MayPost(s: Input, head: u16) {
    && Owned(s.desc, head, |s.mem|)
    && |s.ring.observed| <= |s.ring.published| < |s.ring.observed| + s.ring.q.qsize
    && forall h :: h in InFlight(s) ==> Owned(s.desc, h, |s.mem|) && s.desc[h].addr != s.desc[head].addr
  }

  function Apply(s: Input, op: InputOp): Input
    requires WellSized(s.ring.q)
  {
    match op
    case Supply(bytes) => s.(queued := s.queued + bytes, supplied := s.supplied + bytes)
    case Post(head) => if MayPost(s, head) then s.(ring := Step(s.ring, Publish(head))) else s
    case Drive =>
      var q := s.ring.q;
      var k := Min(|s.queued|, Outstanding(q));
      s.(ring := Step(s.ring, Device(UnitLens(k))), queued := s.queued[k..],
         mem := Deliver(s.desc, Heads(q), s.queued, s.mem))
    case Take =>
      if s.ring.lastUsed == s.ring.q.usedIdx then s
      else
        var id := s.ring.q.used[SlotOf(s.ring.lastUsed, s.ring.q.qsize)].id;
        if id < |s.desc| && s.desc[id].addr < |s.mem|
        then s.(ring := Step(s.ring, Reap), got := s.got + [s.mem[s.desc[id].addr]])
        else s
  }

  function Exec(s: Input, ops: seq<InputOp>): Input
    requires WellSized(s.ring.q)
    decreases |ops|
  {
    if ops == [] then s
    else ApplyKeepsSize(s, ops[0]); Exec(Apply(s, ops[0]), ops[1..])
  }

  lemma ApplyKeepsSize(s: Input, op: InputOp)
    requires WellSized(s.ring.q)
    ensures WellSized(Apply(s, op).ring.q)
  {
  }

  // ── The account ─────────────────────────────────────────────────────

  ghost predicate Apart(desc: seq<Desc>, heads: seq<u16>, size: nat) {
    && (forall i :: 0 <= i < |heads| ==> Owned(desc, heads[i], size))
    && (forall i, j :: 0 <= i < j < |heads| ==> desc[heads[i]].addr != desc[heads[j]].addr)
  }

  /** The byte currently in a head's buffer. */
  function ByteAt(desc: seq<Desc>, head: u16, mem: seq<u8>): u8 {
    if Owned(desc, head, |mem|) then mem[desc[head].addr] else 0
  }

  function Bytes(desc: seq<Desc>, heads: seq<u16>, mem: seq<u8>): (b: seq<u8>)
    ensures |b| == |heads|
    ensures forall i :: 0 <= i < |heads| ==> b[i] == ByteAt(desc, heads[i], mem)
  {
    if heads == [] then [] else [ByteAt(desc, heads[0], mem)] + Bytes(desc, heads[1..], mem)
  }

  /** Delivery fills the first buffers with the first bytes and touches no others. */
  lemma {:induction false} DeliverFills(desc: seq<Desc>, heads: seq<u16>, bytes: seq<u8>, mem: seq<u8>)
    requires Apart(desc, heads, |mem|)
    ensures var r, k := Deliver(desc, heads, bytes, mem), Min(|bytes|, |heads|);
            && (forall i :: 0 <= i < k ==> r[desc[heads[i]].addr] == bytes[i])
            && (forall x :: 0 <= x < |mem| && (forall i :: 0 <= i < k ==> desc[heads[i]].addr != x) ==> r[x] == mem[x])
    decreases |heads|
  {
    if heads != [] && bytes != [] {
      var h, t := heads[0], heads[1..];
      var a := desc[h].addr;
      var mem' := mem[a := bytes[0]];
      var r, k := Deliver(desc, heads, bytes, mem), Min(|bytes|, |heads|);
      DeliverFills(desc, t, bytes[1..], mem');
      forall i | 0 <= i < k ensures r[desc[heads[i]].addr] == bytes[i] {
        if i > 0 {
          assert t[i - 1] == heads[i] && bytes[1..][i - 1] == bytes[i];
        } else {
          assert forall j :: 0 <= j < k - 1 ==> desc[t[j]].addr != a;
        }
      }
      forall x | 0 <= x < |mem| && (forall i :: 0 <= i < k ==> desc[heads[i]].addr != x) ensures r[x] == mem[x] {
        assert desc[heads[0]].addr != x;
        assert forall j :: 0 <= j < k - 1 ==> t[j] == heads[j + 1];
      }
    }
  }

  /** The first `n` buffers with the device have been filled and returned: what
      was read, what they hold and what is queued add up to what was supplied. */
  ghost predicate Account(desc: seq<Desc>, mem: seq<u8>, fly: seq<u16>, n: nat,
                          got: seq<u8>, queued: seq<u8>, supplied: seq<u8>)
  {
    n <= |fly| && Apart(desc, fly, |mem|) && Ledger(desc, mem, fly[..n], got, queued) == supplied
  }

  /** Bytes read, bytes in returned buffers, bytes queued, in that order. */
  function Ledger(desc: seq<Desc>, mem: seq<u8>, landed: seq<u16>, got: seq<u8>, queued: seq<u8>): seq<u8> {
    got + Bytes(desc, landed, mem) + queued
  }

  lemma AccountPost(desc: seq<Desc>, mem: seq<u8>, fly: seq<u16>, n: nat,
                    got: seq<u8>, queued: seq<u8>, supplied: seq<u8>, head: u16)
    requires Account(desc, mem, fly, n, got, queued, supplied) && Owned(desc, head, |mem|)
    requires forall h :: h in fly ==> Owned(desc, h, |mem|) && desc[h].addr != desc[head].addr
    ensures Account(desc, mem, fly + [head], n, got, queued, supplied)
  {
    assert (fly + [head])[..n] == fly[..n];
    assert forall i :: 0 <= i < |fly| ==> fly[i] in fly;
  }

  lemma BytesAre(desc: seq<Desc>, heads: seq<u16>, mem: seq<u8>, values: seq<u8>)
    requires |values| == |heads| && forall i :: 0 <= i < |heads| ==> ByteAt(desc, heads[i], mem) == values[i]
    ensures Bytes(desc, heads, mem) == values
  {
  }

  lemma LandedUntouched(desc: seq<Desc>, mem: seq<u8>, fly: seq<u16>, n: nat, queued: seq<u8>, i: nat)
    requires i < n <= |fly| && Apart(desc, fly, |mem|)
    ensures ByteAt(desc, fly[i], Deliver(desc, fly[n..], queued, mem)) == ByteAt(desc, fly[i], mem)
  {
    var heads := fly[n..];
    assert forall j :: 0 <= j < |heads| ==> heads[j] == fly[n + j];
    DeliverFills(desc, heads, queued, mem);
    assert forall j :: 0 <= j < |heads| ==> desc[heads[j]].addr != desc[fly[i]].addr;
  }

  lemma NextFilled(desc: seq<Desc>, mem: seq<u8>, fly: seq<u16>, n: nat, queued: seq<u8>, i: nat)
    requires n + i < |fly| && i < |queued| && Apart(desc, fly, |mem|)
    ensures ByteAt(desc, fly[n + i], Deliver(desc, fly[n..], queued, mem)) == queued[i]
  {
    var heads := fly[n..];
    assert forall j :: 0 <= j < |heads| ==> heads[j] == fly[n + j];
    DeliverFills(desc, heads, queued, mem);
    assert heads[i] == fly[n + i];
  }

  lemma BytesDriven(desc: seq<Desc>, mem: seq<u8>, fly: seq<u16>, n: nat, queued: seq<u8>)
    requires n <= |fly| && Apart(desc, fly, |mem|)
    ensures var k := Min(|queued|, |fly| - n);
            Bytes(desc, fly[..n + k], Deliver(desc, fly[n..], queued, mem))
            == Bytes(desc, fly[..n], mem) + queued[..k]
  {
    var k := Min(|queued|, |fly| - n);
    var mem' := Deliver(desc, fly[n..], queued, mem);
    var values := Bytes(desc, fly[..n], mem) + queued[..k];
    forall i | 0 <= i < n + k ensures ByteAt(desc, fly[..n + k][i], mem') == values[i] {
      if i < n {
        LandedUntouched(desc, mem, fly, n, queued, i);
      } else {
        NextFilled(desc, mem, fly, n, queued, i - n);
      }
    }
    BytesAre(desc, fly[..n + k], mem', values);
  }

  lemma Regroup(got: seq<u8>, landed: seq<u8>, queued: seq<u8>, k: nat)
    requires k <= |queued|
    ensures got + (landed + queued[..k]) + queued[k..] == got + landed + queued
  {
  }

  lemma AccountDrive(desc: seq<Desc>, mem: seq<u8>, fly: seq<u16>, n: nat,
                     got: seq<u8>, queued: seq<u8>, supplied: seq<u8>)
    requires Account(desc, mem, fly, n, got, queued, supplied)
    ensures var k := Min(|queued|, |fly| - n);
            Account(desc, Deliver(desc, fly[n..], queued, mem), fly, n + k, got, queued[k..], supplied)
  {
    BytesDriven(desc, mem, fly, n, queued);
    Regroup(got, Bytes(desc, fly[..n], mem), queued, Min(|queued|, |fly| - n));
  }

  lemma AccountTake(desc: seq<Desc>, mem: seq<u8>, fly: seq<u16>, n: nat,
                    got: seq<u8>, queued: seq<u8>, supplied: seq<u8>)
    requires Account(desc, mem, fly, n, got, queued, supplied) && n > 0
    ensures Account(desc, mem, fly[1..], n - 1, got + [ByteAt(desc, fly[0], mem)], queued, supplied)
  {
    var b := ByteAt(desc, fly[0], mem);
    assert fly[1..][..n - 1] == fly[..n][1..];
    assert Bytes(desc, fly[..n], mem) == [b] + Bytes(desc, fly[1..][..n - 1], mem);
    assert got + [b] + Bytes(desc, fly[1..][..n - 1], mem) == got + Bytes(desc, fly[..n], mem);
  }

  // ── Conservation over every run ─────────────────────────────────────

  ghost predicate Balances(s: Input) {
    && |s.ring.observed| <= |s.ring.completed| <= |s.ring.published|
    && Account(s.desc, s.mem, InFlight(s), |s.ring.completed| - |s.ring.observed|, s.got, s.queued, s.supplied)
  }

  ghost predicate Conserved(s: Input) {
    Inv(s.ring) && Balances(s)
  }

  /** Every operation is at most one step of the ring protocol. */
  lemma ApplyKeepsRing(s: Input, op: InputOp)
    requires Inv(s.ring)
    ensures Inv(Apply(s, op).ring)
  {
    match op
    case Supply(bytes) =>
    case Post(head) => StepKeepsInv(s.ring, Publish(head));
    case Drive => StepKeepsInv(s.ring, Device(UnitLens(Min(|s.queued|, Outstanding(s.ring.q)))));
    case Take => StepKeepsInv(s.ring, Reap);
  }

  lemma ApplyBalances(s: Input, op: InputOp)
    requires Conserved(s)
    ensures Balances(Apply(s, op))
  {
    match op
    case Supply(bytes) => SupplyBalances(s, bytes);
    case Post(head) => PostBalances(s, head);
    case Drive => DriveBalances(s);
    case Take => TakeBalances(s);
  }

  lemma ApplyConserves(s: Input, op: InputOp)
    requires Conserved(s)
    ensures Conserved(Apply(s, op))
  {
    ApplyKeepsRing(s, op);
    ApplyBalances(s, op);
  }

  lemma SupplyBalances(s: Input, bytes: seq<u8>)
    requires WellSized(s.ring.q) && Balances(s)
    ensures Balances(Apply(s, Supply(bytes)))
  {
    var head := s.got + Bytes(s.desc, InFlight(s)[..|s.ring.completed| - |s.ring.observed|], s.mem);
    assert head + (s.queued + bytes) == (head + s.queued) + bytes;
  }

  lemma PostBalances(s: Input, head: u16)
    requires WellSized(s.ring.q) && Balances(s)
    ensures Balances(Apply(s, Post(head)))
  {
    if MayPost(s, head) {
      var n, fly := |s.ring.completed| - |s.ring.observed|, InFlight(s);
      AccountPost(s.desc, s.mem, fly, n, s.got, s.queued, s.supplied, head);
      var s' := Apply(s, Post(head));
      assert s'.ring.published == s.ring.published + [head];
      assert InFlight(s') == fly + [head];
    }
  }

  /** The ring's side of a receive call that completes `|lens|` entries. */
  lemma RingServed(r: System, lens: seq<u32>)
    requires Inv(r) && |lens| <= Outstanding(r.q)
    ensures var r' := Step(r, Device(lens));
            r'.published == r.published && r'.observed == r.observed && |r'.completed| == |r.completed| + |lens|
    ensures Heads(r.q) == r.published[|r.completed|..]
    ensures Outstanding(r.q) == |r.published| - |r.completed|
  {
    StepKeepsInv(r, Device(lens));
    HeadsAre(r);
    OutstandingIs(r);
  }

  /** The buffers' side of a receive call. */
  lemma BuffersServed(s: Input, fly: seq<u16>, n: nat)
    requires WellSized(s.ring.q) && n <= |fly| && Heads(s.ring.q) == fly[n..] && Outstanding(s.ring.q) == |fly| - n
    requires Account(s.desc, s.mem, fly, n, s.got, s.queued, s.supplied)
    ensures var s', k := Apply(s, Drive), Min(|s.queued|, |fly| - n);
            Account(s'.desc, s'.mem, fly, n + k, s'.got, s'.queued, s'.supplied)
  {
    AccountDrive(s.desc, s.mem, fly, n, s.got, s.queued, s.supplied);
  }

  lemma DriveBalances(s: Input)
    requires Conserved(s)
    ensures Balances(Apply(s, Drive))
  {
    var n, fly := |s.ring.completed| - |s.ring.observed|, InFlight(s);
    var k := Min(|s.queued|, Outstanding(s.ring.q));
    RingServed(s.ring, UnitLens(k));
    DriveServed(s, Apply(s, Drive), fly, n, k);
  }

  lemma DriveServed(s: Input, s': Input, fly: seq<u16>, n: nat, k: nat)
    requires WellSized(s.ring.q) && s' == Apply(s, Drive)
    requires |s.ring.observed| + n == |s.ring.completed| <= |s.ring.published| && fly == InFlight(s)
    requires Account(s.desc, s.mem, fly, n, s.got, s.queued, s.supplied)
    requires Heads(s.ring.q) == s.ring.published[|s.ring.completed|..] && Outstanding(s.ring.q) == |fly| - n
    requires k == Min(|s.queued|, |fly| - n)
    requires s'.ring.published == s.ring.published && s'.ring.observed == s.ring.observed
    requires |s'.ring.completed| == |s.ring.completed| + k
    ensures Balances(s')
  {
    assert s.ring.published[|s.ring.completed|..] == fly[n..];
    BuffersServed(s, fly, n);
    SameFlight(s, s', fly, n + k);
  }

  /** A move that leaves the buffers in flight alone. */
  lemma SameFlight(s: Input, s': Input, fly: seq<u16>, n: nat)
    requires |s.ring.observed| <= |s.ring.published| && fly == InFlight(s)
    requires s'.ring.published == s.ring.published && s'.ring.observed == s.ring.observed
    requires |s'.ring.completed| == |s'.ring.observed| + n
    requires Account(s'.desc, s'.mem, fly, n, s'.got, s'.queued, s'.supplied)
    ensures Balances(s')
  {
    assert InFlight(s') == fly;
  }

  /** The entry the driver reads next is the oldest it has in flight. */
  lemma NextReaped(r: System)
    requires Inv(r) && r.lastUsed != r.q.usedIdx
    ensures |r.observed| < |r.completed|
    ensures r.q.used[SlotOf(r.lastUsed, r.q.qsize)].id == r.published[|r.observed|]
    ensures var r' := Step(r, Reap);
            r'.published == r.published && r'.completed == r.completed && |r'.observed| == |r.observed| + 1
  {
    WrapEqual(|r.observed|, |r.completed|);
  }

  lemma TakeBalances(s: Input)
    requires Conserved(s)
    ensures Balances(Apply(s, Take))
  {
    if s.ring.lastUsed != s.ring.q.usedIdx {
      NextReaped(s.ring);
      var n, fly := |s.ring.completed| - |s.ring.observed|, InFlight(s);
      assert Owned(s.desc, fly[0], |s.mem|);
      AccountTake(s.desc, s.mem, fly, n, s.got, s.queued, s.supplied);
      var s' := Apply(s, Take);
      assert s'.got == s.got + [ByteAt(s.desc, fly[0], s.mem)];
      assert InFlight(s') == fly[1..];
    }
  }

  lemma {:induction false} ExecConserves(s: Input, ops: seq<InputOp>)
    requires Conserved(s)
    ensures Conserved(Exec(s, ops))
    decreases |ops|
  {
    if ops != [] {
      ApplyConserves(s, ops[0]);
      ExecConserves(Apply(s, ops[0]), ops[1..]);
    }
  }

  lemma BootConserved(qsize: nat, desc: seq<Desc>, mem: seq<u8>)
    requires IsPow2(qsize) && qsize <= 0x8000
    ensures Conserved(Input(Boot(qsize), desc, mem, [], [], []))
  {
    BootInv(qsize);
  }

  lemma WhatBalanceSays(s: Input)
    requires Balances(s)
    ensures Ledger(s.desc, s.mem, s.ring.published[|s.ring.observed|..|s.ring.completed|], s.got, s.queued) == s.supplied
    ensures s.got <= s.supplied
  {
    var o, c := |s.ring.observed|, |s.ring.completed|;
    var landed := s.ring.published[o..c];
    assert InFlight(s)[..c - o] == landed;
    assert Ledger(s.desc, s.mem, landed, s.got, s.queued) == s.got + (Bytes(s.desc, landed, s.mem) + s.queued);
  }

  /** In every run, what the driver has read, then what sits in returned
      buffers, then what is still queued, is exactly what stdin supplied. */
  lemma InputConserved(qsize: nat, desc: seq<Desc>, mem: seq<u8>, ops: seq<InputOp>)
    requires IsPow2(qsize) && qsize <= 0x8000
    ensures WellSized(Boot(qsize).q)
    ensures var s := Exec(Input(Boot(qsize), desc, mem, [], [], []), ops);
            && |s.ring.observed| <= |s.ring.completed| <= |s.ring.published|
            && Ledger(s.desc, s.mem, s.ring.published[|s.ring.observed|..|s.ring.completed|], s.got, s.queued)
               == s.supplied
            && s.got <= s.supplied
  {
    BootConserved(qsize, desc, mem);
    var s0 := Input(Boot(qsize), desc, mem, [], [], []);
    ExecConserves(s0, ops);
    WhatBalanceSays(Exec(s0, ops));
  }
}
