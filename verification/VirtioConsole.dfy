/** The virtio console device: transmit chains to stdout, stdin to receive buffers. */
module VirtioConsole {
  import opened Basics
  import opened Chains
  import opened Virtqueue

  /** One queue: the guest's rings and table, and the device's registers and cursors. */
  class Virtq {
    var desc: array<Desc>
    var availRing: array<u16>
    var usedRing: array<UsedElem>
    var availIdx: u16
    var usedIdx: u16

    var num: u32
    var ready: bool
    var lastAvail: u16
    var usedCursor: u16

    constructor (desc: array<Desc>, availRing: array<u16>, usedRing: array<UsedElem>)
      ensures this.desc == desc && this.availRing == availRing && this.usedRing == usedRing
      ensures num == 0 && !ready && availIdx == usedIdx == lastAvail == usedCursor == 0
    {
      this.desc, this.availRing, this.usedRing := desc, availRing, usedRing;
      availIdx, usedIdx, num, ready, lastAvail, usedCursor := 0, 0, 0, false, 0, 0;
    }

    function QueueSize(): u16
      reads this
    {
      num % 0x1_0000
    }

    /** The device will look at the queue: ready, and a power-of-two size. */
    predicate Enabled()
      reads this
    {
      ready && QueueSize() != 0 && IsPow2(QueueSize())
    }

    /** The test at the head of both service loops. */
    method Usable() returns (ok: bool)
      ensures ok <==> Enabled()
    {
      if !ready { return false; }
      var qsize := QueueSize();
      if qsize == 0 { return false; }
      PowerOfTwoTest(qsize);
      return BitAnd(qsize, qsize - 1) == 0;
    }

    /** Move both cursors and publish the used index, if anything was completed:
        the last step of both service loops. */
    method Publish(last: u16, used: u16, some: bool, ghost q: Queue, ghost lens: seq<u32>)
      requires WellSized(q) && Snapshot().(lastAvail := last, usedCursor := used) == CompleteMany(q, lens)
      requires some <==> lens != []
      requires !some ==> Snapshot() == q
      modifies this`lastAvail, this`usedCursor, this`usedIdx
      ensures Snapshot() == Serve(q, lens)
    {
      if some {
        lastAvail, usedCursor, usedIdx := last, used, used;
      }
    }

    /** The rings have the size the driver announced. */
    ghost predicate Sized()
      reads this
    {
      desc.Length == availRing.Length == usedRing.Length == QueueSize()
    }

    ghost function Snapshot(): (q: Queue)
      reads this, availRing, usedRing
    {
      Queue(QueueSize(), availIdx, availRing[..], usedIdx, usedRing[..], lastAvail, usedCursor)
    }

    /** An enabled queue has rings of the announced size. */
    ghost predicate Serviceable()
      reads this, availRing, usedRing
    {
      Enabled() ==> Sized() && WellSized(Snapshot())
    }

    /** The announced size is all a driver has to honour. */
    lemma SizedIsServiceable()
      requires Sized()
      ensures Serviceable()
    {
      if Enabled() && QueueSize() > 0x8000 {
        Pow2Gap(QueueSize());
      }
    }

    /** Device reset: the registers and cursors go back to their defaults, so the
        device no longer looks at the queue; guest memory is left alone. */
    method Reset()
      modifies this`num, this`ready, this`lastAvail, this`usedCursor
      ensures num == 0 && !Enabled() && lastAvail == 0 && usedCursor == 0
    {
      num, ready, lastAvail, usedCursor := 0, false, 0, 0;
    }

    /** The driver's side of a reset: ring addresses, size and ready flag, with
        the rings it points to cleared. After a device reset the queue is then
        the ring protocol's starting point. */
    method Configure(desc: array<Desc>, availRing: array<u16>, usedRing: array<UsedElem>, size: u16)
      requires desc.Length == availRing.Length == usedRing.Length == size && size > 0 && IsPow2(size)
      requires forall k :: 0 <= k < size ==> availRing[k] == 0 && usedRing[k] == UsedElem(0, 0)
      requires lastAvail == 0 && usedCursor == 0
      modifies this
      ensures Enabled() && Serviceable() && this.desc == desc && this.availRing == availRing && this.usedRing == usedRing
      ensures Snapshot() == Boot(size).q
    {
      this.desc, this.availRing, this.usedRing := desc, availRing, usedRing;
      availIdx, usedIdx := 0, 0;
      num, ready := size, true;
      assert availRing[..] == seq(size, _ => 0) && usedRing[..] == seq(size, _ => UsedElem(0, 0));
      SizedIsServiceable();
    }
  }

  /** There is no power of two strictly between 2^15 and 2^16. */
  lemma Pow2Gap(n: nat)
    requires IsPow2(n) && n > 0x8000
    ensures n >= 0x1_0000
  {
    Pow2Constants();
    Pow2Divides(0x8000, n);
  }

  // ── What a transmit call puts out ───────────────────────────────────

  function Kept(b: u8): seq<u8> {
    if b == 0 then [] else [b]
  }

  /** `append_tx` drops NUL bytes. */
  function NonZero(b: seq<u8>): seq<u8> {
    if b == [] then [] else NonZero(b[..|b| - 1]) + Kept(b[|b| - 1])
  }

  lemma NonZeroSnoc(s: seq<u8>, x: u8)
    ensures NonZero(s + [x]) == NonZero(s) + Kept(x)
  {
    assert (s + [x])[..|s|] == s;
  }

  lemma KeptStep(was: seq<u8>, bytes: seq<u8>, i: nat)
    requires i < |bytes|
    ensures was + NonZero(bytes[..i]) + Kept(bytes[i]) == was + NonZero(bytes[..i + 1])
  {
    assert bytes[..i + 1] == bytes[..i] + [bytes[i]];
    NonZeroSnoc(bytes[..i], bytes[i]);
    Assoc(was, NonZero(bytes[..i]), Kept(bytes[i]));
  }

  lemma {:induction false} NonZeroAppend(a: seq<u8>, b: seq<u8>)
    ensures NonZero(a + b) == NonZero(a) + NonZero(b)
  {
    if b == [] {
      assert a + b == a;
    } else {
      var t, x := b[..|b| - 1], b[|b| - 1];
      calc {
        NonZero(a + b);
        { assert a + b == (a + t) + [x]; NonZeroSnoc(a + t, x); }
        NonZero(a + t) + Kept(x);
        { NonZeroAppend(a, t); }
        (NonZero(a) + NonZero(t)) + Kept(x);
        { Assoc(NonZero(a), NonZero(t), Kept(x)); }
        NonZero(a) + (NonZero(t) + Kept(x));
        NonZero(a) + NonZero(b);
      }
    }
  }

  /** `r` is `s` without its NUL bytes: `at` lists, in order, exactly the places of
      the other bytes. */
  ghost predicate Strips(s: seq<u8>, r: seq<u8>, at: seq<nat>) {
    && |at| == |r|
    && (forall i :: 0 <= i < |at| ==> at[i] < |s| && r[i] == s[at[i]] && r[i] != 0)
    && (forall i, j :: 0 <= i < j < |at| ==> at[i] < at[j])
    && (forall k :: 0 <= k < |s| && s[k] != 0 ==> k in at)
  }

  ghost predicate Stripped(s: seq<u8>, r: seq<u8>) {
    exists at :: Strips(s, r, at)
  }

  /** The filter drops NUL bytes and nothing else, and keeps the order. */
  lemma {:induction false} NonZeroStrips(s: seq<u8>) returns (at: seq<nat>)
    ensures Strips(s, NonZero(s), at)
  {
    if s == [] {
      at := [];
    } else {
      var n := |s| - 1;
      var before := NonZeroStrips(s[..n]);
      at := if s[n] == 0 then before else before + [n];
      StripsSnoc(s[..n], s, NonZero(s[..n]), before, s[n], at);
    }
  }

  lemma StripsSnoc(s: seq<u8>, all: seq<u8>, r: seq<u8>, before: seq<nat>, x: u8, at: seq<nat>)
    requires Strips(s, r, before) && all == s + [x] && at == if x == 0 then before else before + [|s|]
    ensures Strips(all, r + Kept(x), at)
  {
    assert forall i :: 0 <= i < |before| ==> at[i] == before[i] && all[before[i]] == s[before[i]];
    forall k | 0 <= k < |all| && all[k] != 0 ensures k in at {
      if k < |s| {
        assert k in before;
      } else {
        assert at[|before|] == k;
      }
    }
  }

  /** By content: no NUL is left, every other byte occurs as often as before, and
      text without NULs goes through unchanged, as no other does. */
  lemma NonZeroKeeps(s: seq<u8>)
    ensures 0 !in NonZero(s)
    ensures forall x: u8 :: x != 0 ==> multiset(NonZero(s))[x] == multiset(s)[x]
    ensures NonZero(s) == s <==> 0 !in s
  {
    NonZeroSame(s);
    forall x: u8 | x != 0 ensures multiset(NonZero(s))[x] == multiset(s)[x] {
      NonZeroCount(s, x);
    }
  }

  lemma {:induction false} NonZeroCount(s: seq<u8>, x: u8)
    requires x != 0
    ensures multiset(NonZero(s))[x] == multiset(s)[x]
  {
    if s != [] {
      var n := |s| - 1;
      NonZeroCount(s[..n], x);
      assert s == s[..n] + [s[n]];
      assert NonZero(s) == NonZero(s[..n]) + Kept(s[n]);
    }
  }

  lemma {:induction false} NonZeroSame(s: seq<u8>)
    ensures |NonZero(s)| <= |s| && 0 !in NonZero(s) && (NonZero(s) == s <==> 0 !in s)
  {
    if s != [] {
      var n := |s| - 1;
      NonZeroSame(s[..n]);
      assert s == s[..n] + [s[n]];
    }
  }

  /** What was added to `was` is `s` without its NULs. */
  lemma Added(was: seq<u8>, now: seq<u8>, s: seq<u8>)
    requires now == was + NonZero(s)
    ensures was <= now && Stripped(s, now[|was|..])
  {
    var at := NonZeroStrips(s);
    assert now[|was|..] == NonZero(s);
  }

  /** The bytes the guest lends with these heads, in order. */
  function Lent(desc: seq<Desc>, heads: seq<u16>, mem: seq<u8>): seq<u8> {
    if heads == [] then [] else Readable(ChainOf(desc, heads[0]), mem) + Lent(desc, heads[1..], mem)
  }

  lemma {:induction false} OutputOfLent(desc: seq<Desc>, heads: seq<u16>, mem: seq<u8>)
    ensures Output(desc, heads, mem) == NonZero(Lent(desc, heads, mem))
  {
    if heads != [] {
      OutputOfLent(desc, heads[1..], mem);
      NonZeroAppend(Readable(ChainOf(desc, heads[0]), mem), Lent(desc, heads[1..], mem));
    }
  }

  lemma Printed(was: seq<u8>, now: seq<u8>, desc: seq<Desc>, heads: seq<u16>, mem: seq<u8>)
    requires now == was + Output(desc, heads, mem)
    ensures was <= now && Stripped(Lent(desc, heads, mem), now[|was|..])
  {
    OutputOfLent(desc, heads, mem);
    Added(was, now, Lent(desc, heads, mem));
  }

  /** What a chain puts on stdout. */
  function Text(c: seq<Desc>, mem: seq<u8>): seq<u8> {
    NonZero(Readable(c, mem))
  }

  lemma TextCons(d: Desc, t: seq<Desc>, mem: seq<u8>)
    ensures Text([d] + t, mem) == NonZero(Buffer(d, mem)) + Text(t, mem)
  {
    ReadableCons(d, t, mem);
    NonZeroAppend(Buffer(d, mem), Readable(t, mem));
  }

  /** The chain behind its first descriptor. */
  function After(desc: seq<Desc>, i: nat, n: nat): seq<Desc>
    requires i < |desc| && n > 0
  {
    if desc[i].HasNext() then Chain(desc, desc[i].next, n - 1) else []
  }

  /** One round of the chain walk: its text and its length come off the front. */
  lemma EmitRound(sent: seq<u8>, desc: seq<Desc>, i: nat, n: nat, mem: seq<u8>)
    requires Ends(desc, i, n) && InRam(Chain(desc, i, n), |mem|)
    ensures i < |desc| && n > 0 && desc[i].addr + desc[i].len <= |mem|
    ensures sent + Text(Chain(desc, i, n), mem) == sent + NonZero(Buffer(desc[i], mem)) + Text(After(desc, i, n), mem)
    ensures TotalLen(Chain(desc, i, n)) == desc[i].len + TotalLen(After(desc, i, n))
    ensures desc[i].HasNext() ==> n > 1 && Ends(desc, desc[i].next, n - 1) && InRam(After(desc, i, n), |mem|)
  {
    ChainStep(desc, i, n, |mem|);
    var d, t := desc[i], After(desc, i, n);
    assert Chain(desc, i, n) == [d] + t;
    TextCons(d, t, mem);
    Assoc(sent, NonZero(Buffer(d, mem)), Text(t, mem));
  }

  ghost predicate AllWellFormed(desc: seq<Desc>, heads: seq<u16>, size: nat) {
    forall h :: h in heads ==> WellFormed(desc, h, size)
  }

  /** The length recorded for a head: the sum of its descriptors' lengths. */
  function HeadLen(desc: seq<Desc>, head: u16): u32 {
    TotalLen(ChainOf(desc, head)) % 0x1_0000_0000
  }

  function HeadLens(desc: seq<Desc>, heads: seq<u16>): (lens: seq<u32>)
    ensures |lens| == |heads|
  {
    if heads == [] then [] else [HeadLen(desc, heads[0])] + HeadLens(desc, heads[1..])
  }

  /** Every entry of a batch is recorded with the whole length of its chain. */
  lemma {:induction false} HeadLensAt(desc: seq<Desc>, heads: seq<u16>, size: nat, k: nat)
    requires k < |heads| && AllWellFormed(desc, heads, size)
    ensures HeadLens(desc, heads)[k] == TotalLen(ChainOf(desc, heads[k]))
  {
    if k == 0 {
      assert heads[0] in heads;
    } else {
      assert forall h :: h in heads[1..] ==> h in heads;
      HeadLensAt(desc, heads[1..], size, k - 1);
    }
  }

  function Output(desc: seq<Desc>, heads: seq<u16>, mem: seq<u8>): seq<u8> {
    if heads == [] then [] else Text(ChainOf(desc, heads[0]), mem) + Output(desc, heads[1..], mem)
  }

  /** Completing the first outstanding head, as the two sides of a transmit round. */
  lemma TxRound(q: Queue, desc: seq<Desc>, mem: seq<u8>)
    requires WellSized(q) && q.lastAvail != q.availIdx && AllWellFormed(desc, Heads(q), |mem|)
    ensures var h := q.avail[SlotOf(q.lastAvail, q.qsize)];
            var q' := CompleteOne(q, HeadLen(desc, h));
            && WellFormed(desc, h, |mem|) && AllWellFormed(desc, Heads(q'), |mem|)
            && HeadLens(desc, Heads(q)) == [HeadLen(desc, h)] + HeadLens(desc, Heads(q'))
            && CompleteMany(q, HeadLens(desc, Heads(q))) == CompleteMany(q', HeadLens(desc, Heads(q')))
            && Output(desc, Heads(q), mem) == Text(ChainOf(desc, h), mem) + Output(desc, Heads(q'), mem)
            && Outstanding(q') < Outstanding(q)
  {
    var h := q.avail[SlotOf(q.lastAvail, q.qsize)];
    var len := HeadLen(desc, h);
    HeadsAfterOne(q, len);
    var t := Heads(CompleteOne(q, len));
    ConsHead(desc, h, t, mem);
    CompleteManyCons(q, len, HeadLens(desc, t));
    assert h in [h] + t && forall x :: x in t ==> x in [h] + t;
  }

  lemma ConsHead(desc: seq<Desc>, h: u16, t: seq<u16>, mem: seq<u8>)
    ensures HeadLens(desc, [h] + t) == [HeadLen(desc, h)] + HeadLens(desc, t)
    ensures Output(desc, [h] + t, mem) == Text(ChainOf(desc, h), mem) + Output(desc, t, mem)
  {
    assert ([h] + t)[1..] == t;
  }

  // ── What a receive call moves ───────────────────────────────────────

  ghost predicate AllBuffers(desc: seq<Desc>, heads: seq<u16>, size: nat) {
    forall h :: h in heads ==> h < |desc| && desc[h].addr < size
  }

  /** One byte into the first descriptor of each head, until either runs out. */
  function Deliver(desc: seq<Desc>, heads: seq<u16>, bytes: seq<u8>, mem: seq<u8>): (r: seq<u8>)
    ensures |r| == |mem|
    decreases |heads|
  {
    if heads == [] || bytes == [] then mem
    else
      var h := heads[0];
      var mem' := if h < |desc| && desc[h].addr < |mem| then mem[desc[h].addr := bytes[0]] else mem;
      Deliver(desc, heads[1..], bytes[1..], mem')
  }

  function UnitLens(n: nat): (lens: seq<u32>)
    ensures |lens| == n
  {
    seq(n, _ => 1)
  }

  lemma DeliverCons(desc: seq<Desc>, h: u16, t: seq<u16>, buf: seq<u8>, mem: seq<u8>)
    requires buf != [] && AllBuffers(desc, [h] + t, |mem|)
    ensures h < |desc| && desc[h].addr < |mem| && AllBuffers(desc, t, |mem|)
    ensures Deliver(desc, [h] + t, buf, mem) == Deliver(desc, t, buf[1..], mem[desc[h].addr := buf[0]])
  {
    assert ([h] + t)[1..] == t && h in [h] + t && forall x :: x in t ==> x in [h] + t;
  }

  lemma UnitCons(q: Queue, k: nat)
    requires WellSized(q) && k > 0
    ensures CompleteMany(q, UnitLens(k)) == CompleteMany(CompleteOne(q, 1), UnitLens(k - 1))
  {
    assert UnitLens(k) == [1] + UnitLens(k - 1);
    CompleteManyCons(q, 1, UnitLens(k - 1));
  }

  lemma RxRound(q: Queue, desc: seq<Desc>, buf: seq<u8>, mem: seq<u8>)
    requires WellSized(q) && q.lastAvail != q.availIdx && buf != [] && AllBuffers(desc, Heads(q), |mem|)
    ensures var h := q.avail[SlotOf(q.lastAvail, q.qsize)];
            var q' := CompleteOne(q, 1);
            && h < |desc| && desc[h].addr < |mem| && AllBuffers(desc, Heads(q'), |mem|)
            && Outstanding(q') == Outstanding(q) - 1
            && Deliver(desc, Heads(q), buf, mem) == Deliver(desc, Heads(q'), buf[1..], mem[desc[h].addr := buf[0]])
            && CompleteMany(q, UnitLens(Min(|buf|, Outstanding(q))))
               == CompleteMany(q', UnitLens(Min(|buf| - 1, Outstanding(q'))))
  {
    HeadsAfterOne(q, 1);
    DeliverCons(desc, q.avail[SlotOf(q.lastAvail, q.qsize)], Heads(CompleteOne(q, 1)), buf, mem);
    UnitCons(q, Min(|buf|, Outstanding(q)));
  }

  class VirtioConsole {
    const tx: Virtq
    const rx: Virtq
    const mem: array<u8>
    var rxBuf: seq<u8>
    var txPending: seq<u8>
    var stdout: seq<u8>

    constructor (tx: Virtq, rx: Virtq, mem: array<u8>)
      ensures this.tx == tx && this.rx == rx && this.mem == mem
      ensures LineBuffered() && rxBuf == txPending == stdout == []
    {
      this.tx, this.rx, this.mem := tx, rx, mem;
      rxBuf, txPending, stdout := [], [], [];
    }

    /** Output is held back only within a line and for less than 256 bytes. */
    predicate LineBuffered()
      reads this
    {
      |txPending| < 256 && 10 !in txPending
    }

    /** Everything the guest has sent so far. */
    function Sent(): seq<u8>
      reads this
    {
      stdout + txPending
    }

    method FlushTx()
      modifies this`txPending, this`stdout
      ensures stdout == old(Sent()) && txPending == []
    {
      if txPending == [] { return; }
      stdout := stdout + txPending;
      txPending := [];
    }

    method PutByte(b: u8)
      requires LineBuffered()
      modifies this`txPending, this`stdout
      ensures LineBuffered() && Sent() == old(Sent()) + Kept(b)
    {
      if b == 0 { return; }
      txPending := txPending + [b];
      // A newline or a full buffer goes out at once.
      if b == 10 || |txPending| >= 256 {
        FlushTx();
      }
    }

    method AppendTx(bytes: seq<u8>)
      requires LineBuffered()
      modifies this`txPending, this`stdout
      ensures LineBuffered() && Sent() == old(Sent()) + NonZero(bytes)
      ensures old(Sent()) <= Sent() && Stripped(bytes, Sent()[|old(Sent())|..])
    {
      ghost var was := Sent();
      var i := 0;
      while i < |bytes|
        invariant 0 <= i <= |bytes|
        invariant LineBuffered() && Sent() == was + NonZero(bytes[..i])
        modifies this`txPending, this`stdout
      {
        KeptStep(was, bytes, i);
        PutByte(bytes[i]);
        i := i + 1;
      }
      assert bytes[..i] == bytes;
      Added(was, Sent(), bytes);
    }

    method EmitBuffer(d: Desc)
      requires LineBuffered() && d.addr + d.len <= mem.Length
      modifies this`txPending, this`stdout
      ensures LineBuffered() && Sent() == old(Sent()) + NonZero(Buffer(d, mem[..]))
    {
      if !d.Writable() && d.len > 0 {
        assert mem[d.addr..d.addr + d.len] == mem[..][d.addr..d.addr + d.len];
        AppendTx(mem[d.addr..d.addr + d.len]);
      } else {
        assert Buffer(d, mem[..]) == [];
      }
    }

    /** Emit one descriptor of a chain that goes on for at most `n`. */
    method EmitOne(i: u16, ghost n: nat) returns (d: Desc)
      requires LineBuffered() && Ends(tx.desc[..], i, n) && InRam(Chain(tx.desc[..], i, n), mem.Length)
      modifies this`txPending, this`stdout
      ensures LineBuffered() && i < tx.desc.Length && d == tx.desc[i] && n > 0
      ensures var table, ram := tx.desc[..], mem[..];
              && Sent() + Text(After(table, i, n), ram) == old(Sent()) + Text(Chain(table, i, n), ram)
              && TotalLen(Chain(table, i, n)) == d.len + TotalLen(After(table, i, n))
              && (d.HasNext() ==> n > 1 && Ends(table, d.next, n - 1) && InRam(After(table, i, n), |ram|))
    {
      ghost var table, ram := tx.desc[..], mem[..];
      EmitRound(Sent(), table, i, n, ram);
      d := tx.desc[i];
      EmitBuffer(d);
      assert tx.desc[..] == table && mem[..] == ram;
    }

    /** Walk one chain, emitting its readable buffers; the result is its length. */
    method EmitChain(first: u16) returns (total: u32)
      requires LineBuffered() && WellFormed(tx.desc[..], first, mem.Length)
      modifies this`txPending, this`stdout
      ensures LineBuffered()
      ensures total == TotalLen(ChainOf(tx.desc[..], first))
      ensures Sent() == old(Sent()) + Text(ChainOf(tx.desc[..], first), mem[..])
    {
      ghost var table, ram := tx.desc[..], mem[..];
      ghost var n: nat, rest := |table|, ChainOf(table, first);
      ghost var len, goal := TotalLen(rest), Sent() + Text(rest, ram);
      var i, more := first, true;
      total := 0;
      while more
        invariant more ==> Ends(table, i, n) && rest == Chain(table, i, n) && InRam(rest, |ram|)
        invariant !more ==> rest == []
        invariant total + TotalLen(rest) == len
        invariant LineBuffered() && Sent() + Text(rest, ram) == goal
        invariant tx.desc[..] == table && mem[..] == ram
        decreases more, n
        modifies this`txPending, this`stdout
      {
        var d := EmitOne(i, n);
        rest := After(table, i, n);
        total := total + d.len;
        more := d.HasNext();
        if more {
          i, n := d.next, n - 1;
        }
      }
      assert Sent() + [] == Sent();
    }

    /** One round of the transmit loop: emit the entry's chain, record it as used. */
    method TransmitEntry(qsize: u16, last: u16, used: u16)
      requires 0 < qsize == tx.availRing.Length == tx.usedRing.Length && LineBuffered()
      requires WellFormed(tx.desc[..], tx.availRing[SlotOf(last, qsize)], mem.Length)
      modifies this`txPending, this`stdout, tx.usedRing
      ensures LineBuffered()
      ensures var first, table := tx.availRing[SlotOf(last, qsize)], tx.desc[..];
              && tx.usedRing[..] == old(tx.usedRing[..])[SlotOf(used, qsize) := UsedElem(first, HeadLen(table, first))]
              && Sent() == old(Sent()) + Text(ChainOf(table, first), mem[..])
    {
      ghost var table, ram, ring := tx.desc[..], mem[..], tx.usedRing[..];
      var first := tx.availRing[BitAnd(last, qsize - 1)];
      var total := EmitChain(first);
      assert HeadLen(table, first) == total && tx.usedRing[..] == ring;
      var slot := BitAnd(used, qsize - 1);
      tx.usedRing[slot] := UsedElem(first, total);
      assert tx.usedRing[..] == ring[slot := UsedElem(first, total)];
      assert tx.desc[..] == table && mem[..] == ram;
    }

    /** The transmit loop over every available entry. */
    method TransmitAll(qsize: u16) returns (last: u16, used: u16)
      requires LineBuffered() && qsize == tx.QueueSize() > 0 && WellSized(tx.Snapshot())
      requires AllWellFormed(tx.desc[..], Heads(tx.Snapshot()), mem.Length)
      modifies this`txPending, this`stdout, tx.usedRing
      ensures LineBuffered() && last == tx.availIdx
      ensures var q, table := old(tx.Snapshot()), tx.desc[..];
              && tx.Snapshot().(lastAvail := last, usedCursor := used) == CompleteMany(q, HeadLens(table, Heads(q)))
              && Sent() == old(Sent()) + Output(table, Heads(q), mem[..])
    {
      ghost var q, table, ram := tx.Snapshot(), tx.desc[..], mem[..];
      ghost var goal, end := Sent() + Output(table, Heads(q), ram), CompleteMany(q, HeadLens(table, Heads(q)));
      last, used := tx.lastAvail, tx.usedCursor;
      var availIdx := tx.availIdx;
      while last != availIdx
        invariant LineBuffered() && WellSized(q) && AllWellFormed(table, Heads(q), |ram|)
        invariant q == tx.Snapshot().(lastAvail := last, usedCursor := used)
        invariant CompleteMany(q, HeadLens(table, Heads(q))) == end
        invariant Sent() + Output(table, Heads(q), ram) == goal
        decreases Outstanding(q)
      {
        TxRound(q, table, ram);
        ghost var h := q.avail[SlotOf(last, qsize)];
        ghost var q' := CompleteOne(q, HeadLen(table, h));
        Assoc(Sent(), Text(ChainOf(table, h), ram), Output(table, Heads(q'), ram));
        TransmitEntry(qsize, last, used);
        used := Next16(used);
        last := Next16(last);
        q := q';
      }
      assert tx.desc[..] == table && mem[..] == ram && Sent() + [] == Sent();
    }

    /** Every available entry is transmitted and returned, and all output is
        flushed; a queue that is not enabled is left alone. */
    method ProcessTx()
      requires LineBuffered() && tx.Serviceable()
      requires tx.Enabled() ==> AllWellFormed(tx.desc[..], Heads(tx.Snapshot()), mem.Length)
      modifies this`txPending, this`stdout, tx`lastAvail, tx`usedCursor, tx`usedIdx, tx.usedRing
      ensures LineBuffered()
      ensures !tx.Enabled() ==> tx.Snapshot() == old(tx.Snapshot()) && stdout == old(stdout) && txPending == old(txPending)
      ensures tx.Enabled() ==>
                var q, table := old(tx.Snapshot()), tx.desc[..];
                && tx.Snapshot() == Serve(q, HeadLens(table, Heads(q)))
                && tx.lastAvail == tx.availIdx
                && stdout == old(Sent()) + Output(table, Heads(q), mem[..])
                && old(Sent()) <= stdout && Stripped(Lent(table, Heads(q), mem[..]), stdout[|old(Sent())|..])
                && txPending == []
    {
      var usable := tx.Usable();
      if !usable { return; }
      ghost var q := tx.Snapshot();
      ghost var lens := HeadLens(tx.desc[..], Heads(q));
      var last, used := TransmitAll(tx.QueueSize());
      tx.Publish(last, used, tx.lastAvail != last, q, lens);
      FlushTx();
      Printed(old(Sent()), stdout, tx.desc[..], Heads(q), mem[..]);
    }

    /** One round of the receive loop: the oldest queued byte goes to the entry's buffer. */
    method ReceiveEntry(qsize: u16, last: u16, used: u16)
      requires 0 < qsize == rx.availRing.Length == rx.usedRing.Length && rxBuf != []
      requires var first := rx.availRing[SlotOf(last, qsize)];
               first < rx.desc.Length && rx.desc[first].addr < mem.Length
      modifies this`rxBuf, mem, rx.usedRing
      ensures rxBuf == old(rxBuf)[1..]
      ensures var first := rx.availRing[SlotOf(last, qsize)];
              && rx.usedRing[..] == old(rx.usedRing[..])[SlotOf(used, qsize) := UsedElem(first, 1)]
              && mem[..] == old(mem[..])[rx.desc[first].addr := old(rxBuf)[0]]
    {
      var byte := rxBuf[0];
      rxBuf := rxBuf[1..];
      var first := rx.availRing[BitAnd(last, qsize - 1)];
      mem[rx.desc[first].addr] := byte;
      rx.usedRing[BitAnd(used, qsize - 1)] := UsedElem(first, 1);
    }

    /** The same round as a step of the queue `q` in progress. */
    method ReceiveRound(qsize: u16, last: u16, used: u16, ghost q: Queue)
      requires qsize == rx.QueueSize() > 0 && WellSized(q) && q == rx.Snapshot().(lastAvail := last, usedCursor := used)
      requires last != rx.availIdx && rxBuf != [] && AllBuffers(rx.desc[..], Heads(q), mem.Length)
      modifies this`rxBuf, mem, rx.usedRing
      ensures rxBuf == old(rxBuf)[1..]
      ensures var table, q' := rx.desc[..], CompleteOne(q, 1);
              && rx.Snapshot().(lastAvail := Next16(last), usedCursor := Next16(used)) == q'
              && AllBuffers(table, Heads(q'), mem.Length) && Outstanding(q') == Outstanding(q) - 1
              && Deliver(table, Heads(q'), rxBuf, mem[..]) == Deliver(table, Heads(q), old(rxBuf), old(mem[..]))
              && CompleteMany(q', UnitLens(Min(|rxBuf|, Outstanding(q'))))
                 == CompleteMany(q, UnitLens(Min(|old(rxBuf)|, Outstanding(q))))
    {
      ghost var table := rx.desc[..];
      RxRound(q, table, rxBuf, mem[..]);
      ReceiveEntry(qsize, last, used);
      assert rx.desc[..] == table;
    }

    /** The receive loop: one queued byte per available entry. */
    method ReceiveAll(qsize: u16) returns (last: u16, used: u16, pushed: nat)
      requires qsize == rx.QueueSize() > 0 && WellSized(rx.Snapshot())
      requires AllBuffers(rx.desc[..], Heads(rx.Snapshot()), mem.Length)
      modifies this`rxBuf, mem, rx.usedRing
      ensures var q, table, k := old(rx.Snapshot()), rx.desc[..], Min(|old(rxBuf)|, Outstanding(old(rx.Snapshot())));
              && pushed == k && rxBuf == old(rxBuf)[k..]
              && rx.Snapshot().(lastAvail := last, usedCursor := used) == CompleteMany(q, UnitLens(k))
              && mem[..] == Deliver(table, Heads(q), old(rxBuf), old(mem[..]))
    {
      ghost var q, table, buf := rx.Snapshot(), rx.desc[..], rxBuf;
      ghost var k := Min(|buf|, Outstanding(q));
      ghost var goal, end := Deliver(table, Heads(q), buf, mem[..]), CompleteMany(q, UnitLens(k));
      last, used, pushed := rx.lastAvail, rx.usedCursor, 0;
      var availIdx := rx.availIdx;
      while last != availIdx && rxBuf != []
        invariant WellSized(q) && AllBuffers(table, Heads(q), mem.Length)
        invariant q == rx.Snapshot().(lastAvail := last, usedCursor := used)
        invariant pushed + Min(|rxBuf|, Outstanding(q)) == k && rxBuf == buf[pushed..]
        invariant CompleteMany(q, UnitLens(Min(|rxBuf|, Outstanding(q)))) == end
        invariant Deliver(table, Heads(q), rxBuf, mem[..]) == goal
        decreases Outstanding(q)
        modifies this`rxBuf, mem, rx.usedRing
      {
        assert rxBuf[1..] == buf[pushed + 1..];
        ReceiveRound(qsize, last, used, q);
        used := Next16(used);
        last := Next16(last);
        pushed := pushed + 1;
        q := CompleteOne(q, 1);
      }
      assert rx.desc[..] == table;
    }

    /** Exactly min(queued bytes, available entries) bytes move, in order. */
    method ProcessRx()
      requires rx.Serviceable()
      requires rx.Enabled() ==> AllBuffers(rx.desc[..], Heads(rx.Snapshot()), mem.Length)
      modifies this`rxBuf, mem, rx`lastAvail, rx`usedCursor, rx`usedIdx, rx.usedRing
      ensures !rx.Enabled() ==> rx.Snapshot() == old(rx.Snapshot()) && rxBuf == old(rxBuf) && mem[..] == old(mem[..])
      ensures rx.Enabled() ==>
                var q, table, k := old(rx.Snapshot()), rx.desc[..], Min(|old(rxBuf)|, Outstanding(old(rx.Snapshot())));
                && rx.Snapshot() == Serve(q, UnitLens(k))
                && rxBuf == old(rxBuf)[k..]
                && mem[..] == Deliver(table, Heads(q), old(rxBuf), old(mem[..]))
    {
      var usable := rx.Usable();
      if !usable { return; }
      if rxBuf == [] { return; }
      ghost var q, k := rx.Snapshot(), Min(|rxBuf|, Outstanding(rx.Snapshot()));
      var last, used, pushed := ReceiveAll(rx.QueueSize());
      rx.Publish(last, used, pushed > 0, q, UnitLens(k));
    }
  }
}
