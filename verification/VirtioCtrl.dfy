/** The virtio-net control queue, which keeps no cursor of its own: the used
    index it publishes in guest memory is also where it resumes reading. */
module VirtioCtrl {
  import opened Basics
  import opened Chains
  import opened CtrlCommand
  import opened Virtqueue
  import opened VirtioConsole

  /** `VIRTIO_NET_CTRL_MQ_VQ_PAIRS_SET`, the one command that is recognised. */
  function Announced(cmd: seq<u8>): seq<u16> {
    if |cmd| >= 4 && cmd[0] == 4 && cmd[1] == 0 then [Le16(cmd[2], cmd[3])] else []
  }

  /** The command on the wire is class 4, command 0 and a little-endian count of
      queue pairs. It is announced, and nothing else is. */
  lemma AnnouncedExactly(cmd: seq<u8>, pairs: u16)
    ensures Announced(cmd) == [pairs] <==> [4, 0] + LeBytes16(pairs) <= cmd
    ensures |Announced(cmd)| == 0 <==> !([4, 0] <= cmd && |cmd| >= 4)
  {
    var w := [4, 0] + LeBytes16(pairs);
    if |cmd| >= 4 {
      assert cmd[..2] == [4, 0] <==> cmd[0] == 4 && cmd[1] == 0;
      assert w <= cmd <==> cmd[0] == w[0] && cmd[1] == w[1] && cmd[2] == w[2] && cmd[3] == w[3];
    }
  }

  /** Guest memory and the announcements after serving `heads` in order. */
  function ServeHeads(desc: seq<Desc>, heads: seq<u16>, mem: seq<u8>): (seq<u8>, seq<u16>)
    decreases |heads|
  {
    if heads == [] then (mem, [])
    else
      var w := Walk(ChainOf(desc, heads[0]), mem, []);
      var r := ServeHeads(desc, heads[1..], w.1);
      (r.0, Announced(w.0) + r.1)
  }

  // ── What commands say and how they are read ─────────────────────────

  function Concat(ss: seq<seq<u16>>): seq<u16> {
    if ss == [] then [] else ss[0] + Concat(ss[1..])
  }

  /** What each entry's command announces as the device reads it, in memory as the
      entries before it left it. */
  function Read(desc: seq<Desc>, heads: seq<u16>, mem: seq<u8>): seq<seq<u16>>
    decreases |heads|
  {
    if heads == [] then []
    else
      var c := ChainOf(desc, heads[0]);
      [Announced(Walk(c, mem, []).0)] + Read(desc, heads[1..], AckedAll(c, mem))
  }

  /** What each entry's command says: its first eight readable bytes. */
  function Meant(desc: seq<Desc>, heads: seq<u16>, mem: seq<u8>): seq<seq<u16>>
    decreases |heads|
  {
    if heads == [] then []
    else
      var c := ChainOf(desc, heads[0]);
      [Announced(First(CMD_MAX, Readable(c, mem)))] + Meant(desc, heads[1..], AckedAll(c, mem))
  }

  /** The `j`-th readable byte is non-zero and overwritten before it is read. */
  ghost predicate Spoilt(c: seq<Desc>, mem: seq<u8>, j: nat) {
    j < |Readable(c, mem)| && Readable(c, mem)[j] != 0 && Zeroed(c, |mem|, j)
  }

  /** The spoilt bytes change what the command announces: its class byte or its
      command byte is hidden so that recognition flips, or a recognised command
      has its argument changed. */
  ghost predicate Misread(c: seq<Desc>, mem: seq<u8>) {
    var r := Readable(c, mem);
    && |r| >= 4 && r[0] == 4
    && if Spoilt(c, mem, 0) then r[1] == 0
       else Spoilt(c, mem, 1) || (r[1] == 0 && (Spoilt(c, mem, 2) || Spoilt(c, mem, 3)))
  }

  lemma Le16Injective(a: u8, b: u8, c: u8, d: u8)
    ensures Le16(a, b) == Le16(c, d) <==> a == c && b == d
  {
  }

  /** When two readings of one command, the second with some bytes zeroed,
      announce the same. */
  lemma SameAnnouncement(r: seq<u8>, s: seq<u8>, z0: bool, z1: bool, z2: bool, z3: bool)
    requires |r| == |s| && |r| >= 4
    requires s[0] == (if z0 then 0 else r[0]) && s[1] == (if z1 then 0 else r[1])
    requires s[2] == (if z2 then 0 else r[2]) && s[3] == (if z3 then 0 else r[3])
    requires (z0 ==> r[0] != 0) && (z1 ==> r[1] != 0) && (z2 ==> r[2] != 0) && (z3 ==> r[3] != 0)
    ensures Announced(s) == Announced(r)
       <==> !(r[0] == 4 && if z0 then r[1] == 0 else z1 || (r[1] == 0 && (z2 || z3)))
  {
    Le16Injective(s[2], s[3], r[2], r[3]);
  }

  lemma SeenByte(c: seq<Desc>, mem: seq<u8>, j: nat)
    requires j < |Readable(c, mem)| == |Seen(c, mem)|
    ensures Seen(c, mem)[j] == if Spoilt(c, mem, j) then 0 else Readable(c, mem)[j]
  {
    SeenAt(c, mem, j);
  }

  /** Only the first four bytes decide an announcement. */
  lemma AnnouncedByFour(s: seq<u8>)
    ensures Announced(First(CMD_MAX, s)) == Announced(s)
  {
  }

  /** One command announces what it says exactly when it is not misread. */
  lemma CommandAnnounced(c: seq<Desc>, mem: seq<u8>)
    ensures Announced(Walk(c, mem, []).0) == Announced(First(CMD_MAX, Readable(c, mem))) <==> !Misread(c, mem)
  {
    var r, s := Readable(c, mem), Seen(c, mem);
    WalkKeepsFirst(c, mem, []);
    assert [] + s == s;
    SeenLength(c, mem);
    AnnouncedByFour(r);
    AnnouncedByFour(s);
    if |r| >= 4 {
      SeenByte(c, mem, 0);
      SeenByte(c, mem, 1);
      SeenByte(c, mem, 2);
      SeenByte(c, mem, 3);
      SameAnnouncement(r, s, Spoilt(c, mem, 0), Spoilt(c, mem, 1), Spoilt(c, mem, 2), Spoilt(c, mem, 3));
    }
  }

  /** No command of the batch is misread. */
  ghost predicate Intact(desc: seq<Desc>, heads: seq<u16>, mem: seq<u8>)
    decreases |heads|
  {
    heads != [] ==>
      var c := ChainOf(desc, heads[0]);
      !Misread(c, mem) && Intact(desc, heads[1..], AckedAll(c, mem))
  }

  /** Entry by entry, a batch announces what its commands say exactly when none of
      them is misread. */
  lemma {:induction false} AnnouncesCommands(desc: seq<Desc>, heads: seq<u16>, mem: seq<u8>)
    ensures Read(desc, heads, mem) == Meant(desc, heads, mem) <==> Intact(desc, heads, mem)
    decreases |heads|
  {
    if heads != [] {
      var c := ChainOf(desc, heads[0]);
      CommandAnnounced(c, mem);
      AnnouncesCommands(desc, heads[1..], AckedAll(c, mem));
      var a, b := Read(desc, heads[1..], AckedAll(c, mem)), Meant(desc, heads[1..], AckedAll(c, mem));
      SameCons(Announced(Walk(c, mem, []).0), a, Announced(First(CMD_MAX, Readable(c, mem))), b);
    }
  }

  lemma SameCons(x: seq<u16>, a: seq<seq<u16>>, y: seq<u16>, b: seq<seq<u16>>)
    ensures [x] + a == [y] + b <==> x == y && a == b
  {
    assert ([x] + a)[0] == x && ([x] + a)[1..] == a && ([y] + b)[0] == y && ([y] + b)[1..] == b;
  }

  /** What the service loop announces is what it reads, entry after entry. */
  lemma {:induction false} ServeAnnouncesRead(desc: seq<Desc>, heads: seq<u16>, mem: seq<u8>)
    ensures ServeHeads(desc, heads, mem).1 == Concat(Read(desc, heads, mem))
    decreases |heads|
  {
    if heads != [] {
      var c := ChainOf(desc, heads[0]);
      WalkKeepsFirst(c, mem, []);
      ServeAnnouncesRead(desc, heads[1..], AckedAll(c, mem));
      var x, a := Announced(Walk(c, mem, []).0), Read(desc, heads[1..], AckedAll(c, mem));
      assert ([x] + a)[1..] == a;
    }
  }

  class CtrlQueue {
    const desc: array<Desc>
    const availRing: array<u16>
    const usedRing: array<UsedElem>
    const mem: array<u8>
    const qsize: u16
    var ready: bool
    var availIdx: u16
    var usedIdx: u16
    var announced: seq<u16>
    var interrupts: nat

    constructor (desc: array<Desc>, availRing: array<u16>, usedRing: array<UsedElem>, mem: array<u8>, qsize: u16)
      ensures this.desc == desc && this.availRing == availRing && this.usedRing == usedRing
      ensures this.mem == mem && this.qsize == qsize
      ensures !ready && availIdx == usedIdx == 0 && announced == [] && interrupts == 0
    {
      this.desc, this.availRing, this.usedRing, this.mem, this.qsize := desc, availRing, usedRing, mem, qsize;
      ready, availIdx, usedIdx, announced, interrupts := false, 0, 0, [], 0;
    }

    /** The queue as a two-cursor device would see it, both cursors at the
        published used index. */
    ghost function Snapshot(): Queue
      reads this, availRing, usedRing
    {
      Queue(qsize, availIdx, availRing[..], usedIdx, usedRing[..], usedIdx, usedIdx)
    }

    /** Visit one descriptor: collect from a readable buffer, or acknowledge. */
    method Visit(d: Desc, cmd: seq<u8>) returns (r: seq<u8>)
      requires |cmd| <= CMD_MAX && d.addr + d.len <= mem.Length && (d.Writable() ==> d.addr < mem.Length)
      modifies mem
      ensures r == Collect(d, old(mem[..]), cmd) && mem[..] == Acked(d, old(mem[..]))
    {
      if d.Writable() {
        assert cmd + [] == cmd;
        r := cmd;
        mem[d.addr] := 0;
      } else {
        var copy := Min(d.len, CMD_MAX - |cmd|);
        assert mem[d.addr..d.addr + copy] == Buffer(d, mem[..])[..copy];
        r := cmd + mem[d.addr..d.addr + copy];
      }
    }

    /** Walk one chain: collect the command, acknowledge, add up the length. */
    method WalkChain(first: u16) returns (cmd: seq<u8>, total: u32)
      requires Commandable(desc[..], first, mem.Length)
      modifies mem
      ensures (cmd, mem[..]) == Walk(ChainOf(desc[..], first), old(mem[..]), [])
      ensures total == TotalLen(ChainOf(desc[..], first))
    {
      ghost var table := desc[..];
      ghost var n: nat, rest := |table|, ChainOf(table, first);
      ghost var len, goal := TotalLen(rest), Walk(rest, mem[..], []);
      cmd, total := [], 0;
      var i, more := first, true;
      while more
        invariant more ==> Ends(table, i, n) && rest == Chain(table, i, n)
        invariant InRam(rest, mem.Length) && AcksInRam(rest, mem.Length)
        invariant !more ==> rest == []
        invariant total + TotalLen(rest) == len
        invariant |cmd| <= CMD_MAX && Walk(rest, mem[..], cmd) == goal
        decreases more, n
      {
        var d := desc[i];
        ChainStep(table, i, n, mem.Length);
        ghost var t := if d.HasNext() then Chain(table, d.next, n - 1) else [];
        assert rest == [d] + t && rest[0] == d && rest[1..] == t && d in rest;
        assert forall x :: x in t ==> x in rest;
        total := total + d.len;
        cmd := Visit(d, cmd);
        rest := t;
        more := d.HasNext();
        if more {
          i, n := d.next, n - 1;
        }
      }
      assert desc[..] == table;
    }

    /** Read one command and act on it; the result is its chain's length. */
    method Obey(first: u16) returns (total: u32)
      requires Commandable(desc[..], first, mem.Length)
      modifies mem, this`announced
      ensures var table := desc[..];
              var w := Walk(ChainOf(table, first), old(mem[..]), []);
              mem[..] == w.1 && announced == old(announced) + Announced(w.0) && total == HeadLen(table, first)
    {
      var cmd;
      cmd, total := WalkChain(first);
      Announce(cmd);
    }

    method Announce(cmd: seq<u8>)
      modifies this`announced
      ensures announced == old(announced) + Announced(cmd)
    {
      if |cmd| >= 4 && cmd[0] == 4 && cmd[1] == 0 {
        announced := announced + [Le16(cmd[2], cmd[3])];
      } else {
        assert announced + [] == announced;
      }
    }

    /** One round: serve the entry, record it, publish the used index. */
    method ServeEntry(last: u16)
      requires 0 < qsize == availRing.Length == usedRing.Length
      requires Commandable(desc[..], availRing[SlotOf(last, qsize)], mem.Length)
      modifies mem, usedRing, this`usedIdx, this`announced
      ensures var first, table := availRing[SlotOf(last, qsize)], desc[..];
              var w := Walk(ChainOf(table, first), old(mem[..]), []);
              && mem[..] == w.1 && announced == old(announced) + Announced(w.0)
              && usedRing[..] == old(usedRing[..])[SlotOf(last, qsize) := UsedElem(first, HeadLen(table, first))]
              && usedIdx == Next16(last)
    {
      ghost var table, ring := desc[..], usedRing[..];
      var first := availRing[BitAnd(last, qsize - 1)];
      var total := Obey(first);
      assert usedRing[..] == ring;
      var slot := BitAnd(last, qsize - 1);
      usedRing[slot] := UsedElem(first, total);
      assert usedRing[..] == ring[slot := UsedElem(first, total)] && desc[..] == table;
      usedIdx := Next16(last);
    }

    /** With the published used index as its only cursor, the device consumes
        the same entries and leaves the same rings as the two-cursor form. */
    method HandleCtrlQueue()
      requires ready ==> WellSized(Snapshot()) && AllCommandable(desc[..], Heads(Snapshot()), mem.Length)
      modifies mem, usedRing, this`usedIdx, this`announced, this`interrupts
      ensures !ready ==> Snapshot() == old(Snapshot()) && mem[..] == old(mem[..]) && announced == old(announced)
      ensures ready ==>
                var q, table := old(Snapshot()), desc[..];
                && Snapshot() == Serve(q, HeadLens(table, Heads(q)))
                && usedIdx == availIdx
                && (mem[..], announced) == (var r := ServeHeads(table, Heads(q), old(mem[..])); (r.0, old(announced) + r.1))
                && (Intact(table, Heads(q), old(mem[..])) ==>
                      announced == old(announced) + Concat(Meant(table, Heads(q), old(mem[..]))))
      ensures interrupts == old(interrupts) + if !ready || old(usedIdx) == availIdx then 0 else 1
    {
      if !ready { return; }
      AnnouncesCommands(desc[..], Heads(Snapshot()), mem[..]);
      ServeAnnouncesRead(desc[..], Heads(Snapshot()), mem[..]);
      if usedIdx == availIdx {
        assert announced + [] == announced;
        return;
      }
      ServeAll();
      interrupts := interrupts + 1;
    }

    /** The service loop, resuming at the published used index. */
    method ServeAll()
      requires WellSized(Snapshot()) && AllCommandable(desc[..], Heads(Snapshot()), mem.Length)
      modifies mem, usedRing, this`usedIdx, this`announced
      ensures var q, table := old(Snapshot()), desc[..];
              && Snapshot() == CompleteMany(q, HeadLens(table, Heads(q))).(usedIdx := usedIdx)
              && usedIdx == availIdx
              && (mem[..], announced) == (var r := ServeHeads(table, Heads(q), old(mem[..])); (r.0, old(announced) + r.1))
    {
      ghost var q, table := Snapshot(), desc[..];
      ghost var end, served := CompleteMany(q, HeadLens(table, Heads(q))), ServeHeads(table, Heads(q), mem[..]);
      ghost var said := announced + served.1;
      var last := usedIdx;
      while last != availIdx
        invariant last == usedIdx && WellSized(q) && AllCommandable(table, Heads(q), mem.Length)
        invariant q == Snapshot().(usedIdx := old(usedIdx))
        invariant CompleteMany(q, HeadLens(table, Heads(q))) == end
        invariant ServeHeads(table, Heads(q), mem[..]).0 == served.0
        invariant announced + ServeHeads(table, Heads(q), mem[..]).1 == said
        decreases Outstanding(q)
        modifies mem, usedRing, this`usedIdx, this`announced
      {
        CtrlRound(q, table, mem[..], announced);
        ServeEntry(last);
        q := CompleteOne(q, HeadLen(table, q.avail[SlotOf(last, qsize)]));
        last := Next16(last);
      }
      assert desc[..] == table && announced + [] == announced;
    }
  }

  /** What a control driver owes: a well-formed chain whose acknowledgement
      bytes lie in RAM. */
  ghost predicate AcksInRam(c: seq<Desc>, size: nat) {
    forall d :: d in c && d.Writable() ==> d.addr < size
  }

  ghost predicate Commandable(desc: seq<Desc>, head: nat, size: nat) {
    WellFormed(desc, head, size) && AcksInRam(ChainOf(desc, head), size)
  }

  ghost predicate AllCommandable(desc: seq<Desc>, heads: seq<u16>, size: nat) {
    forall h :: h in heads ==> Commandable(desc, h, size)
  }

  lemma CtrlRound(q: Queue, desc: seq<Desc>, mem: seq<u8>, announced: seq<u16>)
    requires WellSized(q) && q.lastAvail != q.availIdx && AllCommandable(desc, Heads(q), |mem|)
    ensures var h := q.avail[SlotOf(q.lastAvail, q.qsize)];
            var q', w := CompleteOne(q, HeadLen(desc, h)), Walk(ChainOf(desc, h), mem, []);
            && Commandable(desc, h, |mem|) && AllCommandable(desc, Heads(q'), |mem|)
            && CompleteMany(q, HeadLens(desc, Heads(q))) == CompleteMany(q', HeadLens(desc, Heads(q')))
            && ServeHeads(desc, Heads(q), mem).0 == ServeHeads(desc, Heads(q'), w.1).0
            && announced + ServeHeads(desc, Heads(q), mem).1
               == announced + Announced(w.0) + ServeHeads(desc, Heads(q'), w.1).1
            && Outstanding(q') < Outstanding(q)
  {
    var h := q.avail[SlotOf(q.lastAvail, q.qsize)];
    var len := HeadLen(desc, h);
    HeadsAfterOne(q, len);
    var t := Heads(CompleteOne(q, len));
    ConsHead(desc, h, t, mem);
    CompleteManyCons(q, len, HeadLens(desc, t));
    assert h in [h] + t && forall x :: x in t ==> x in [h] + t;
    assert ([h] + t)[1..] == t && ([h] + t)[0] == h;
  }
}
