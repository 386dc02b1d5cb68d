/** How the virtio-net device reads one control command off a descriptor chain,
    acknowledging as it goes. */
module CtrlCommand {
  import opened Basics
  import opened Chains

  const CMD_MAX: nat := 8

  // ── One command chain ───────────────────────────────────────────────

  /** Device-readable bytes are collected up to eight; a device-writable
      descriptor gets a zero acknowledgement byte. */
  function Collect(d: Desc, mem: seq<u8>, cmd: seq<u8>): (r: seq<u8>)
    requires |cmd| <= CMD_MAX
    ensures |r| <= CMD_MAX
  {
    cmd + Buffer(d, mem)[..Min(|Buffer(d, mem)|, CMD_MAX - |cmd|)]
  }

  function Acked(d: Desc, mem: seq<u8>): (r: seq<u8>)
    ensures |r| == |mem|
  {
    if d.Writable() && d.addr < |mem| then mem[d.addr := 0] else mem
  }

  /** The command bytes and the memory after walking a chain. */
  function Walk(c: seq<Desc>, mem: seq<u8>, cmd: seq<u8>): (r: (seq<u8>, seq<u8>))
    requires |cmd| <= CMD_MAX
    ensures |r.0| <= CMD_MAX && |r.1| == |mem|
    decreases |c|
  {
    if c == [] then (cmd, mem) else Walk(c[1..], Acked(c[0], mem), Collect(c[0], mem, cmd))
  }

  function First(n: nat, s: seq<u8>): seq<u8> {
    s[..Min(n, |s|)]
  }

  // ── What a command chain is read as ─────────────────────────────────

  /** Memory once every descriptor of a chain has been visited. */
  function AckedAll(c: seq<Desc>, mem: seq<u8>): (r: seq<u8>)
    ensures |r| == |mem|
    decreases |c|
  {
    if c == [] then mem else AckedAll(c[1..], Acked(c[0], mem))
  }

  /** The readable bytes as the walk meets them, earlier acknowledgements included. */
  function Seen(c: seq<Desc>, mem: seq<u8>): seq<u8>
    decreases |c|
  {
    if c == [] then [] else Buffer(c[0], mem) + Seen(c[1..], Acked(c[0], mem))
  }

  /** The walk keeps the first eight bytes it meets and acknowledges throughout. */
  lemma {:induction false} WalkKeepsFirst(c: seq<Desc>, mem: seq<u8>, cmd: seq<u8>)
    requires |cmd| <= CMD_MAX
    ensures Walk(c, mem, cmd) == (First(CMD_MAX, cmd + Seen(c, mem)), AckedAll(c, mem))
    decreases |c|
  {
    if c == [] {
      assert cmd + [] == cmd;
    } else {
      var mem' := Acked(c[0], mem);
      WalkKeepsFirst(c[1..], mem', Collect(c[0], mem, cmd));
      CollectThen(cmd, Buffer(c[0], mem), Seen(c[1..], mem'));
    }
  }

  lemma CollectThen(cmd: seq<u8>, b: seq<u8>, rest: seq<u8>)
    requires |cmd| <= CMD_MAX
    ensures First(CMD_MAX, cmd + b[..Min(|b|, CMD_MAX - |cmd|)] + rest) == First(CMD_MAX, cmd + (b + rest))
  {
    if |cmd| + |b| <= CMD_MAX {
      assert b[..|b|] == b;
      assert cmd + b + rest == cmd + (b + rest);
    }
  }

  /** Where a readable byte comes from: which descriptor, and which RAM address. */
  datatype Origin = Origin(index: nat, addr: nat)

  /** How many bytes a descriptor lends, in RAM of `size` bytes. */
  function Lent(d: Desc, size: nat): nat {
    if d.Writable() || d.addr + d.len > size then 0 else d.len
  }

  lemma BufferLent(d: Desc, mem: seq<u8>)
    ensures |Buffer(d, mem)| == Lent(d, |mem|)
  {
  }

  /** The origin of the `j`-th readable byte of a chain, in RAM of `size` bytes. */
  function OriginOf(c: seq<Desc>, size: nat, j: nat): Origin
    decreases |c|
  {
    if c == [] then Origin(0, 0)
    else
      var n := Lent(c[0], size);
      if j < n then Origin(0, c[0].addr + j)
      else var o := OriginOf(c[1..], size, j - n); Origin(o.index + 1, o.addr)
  }

  lemma {:induction false} ReadableAt(c: seq<Desc>, mem: seq<u8>, j: nat)
    requires j < |Readable(c, mem)|
    ensures var o := OriginOf(c, |mem|, j);
            o.index < |c| && o.addr < |mem| && Readable(c, mem)[j] == mem[o.addr]
    decreases |c|
  {
    var n := Lent(c[0], |mem|);
    BufferLent(c[0], mem);
    if j < n {
      assert Readable(c, mem)[j] == Buffer(c[0], mem)[j];
    } else {
      ReadableAt(c[1..], mem, j - n);
      assert Readable(c, mem)[j] == Readable(c[1..], mem)[j - n];
    }
  }

  lemma {:induction false} ReadableSameLength(c: seq<Desc>, a: seq<u8>, b: seq<u8>)
    requires |a| == |b|
    ensures |Readable(c, a)| == |Readable(c, b)|
    decreases |c|
  {
    if c != [] { ReadableSameLength(c[1..], a, b); }
  }

  /** An earlier descriptor of the chain acknowledges into the `j`-th readable byte. */
  ghost predicate Zeroed(c: seq<Desc>, size: nat, j: nat) {
    var o := OriginOf(c, size, j);
    exists k :: 0 <= k < o.index && k < |c| && c[k].Writable() && c[k].addr == o.addr
  }

  lemma ZeroedCons(d: Desc, t: seq<Desc>, size: nat, j: nat)
    requires j >= Lent(d, size)
    ensures Zeroed([d] + t, size, j)
       <==> || (d.Writable() && d.addr == OriginOf(t, size, j - Lent(d, size)).addr)
            || Zeroed(t, size, j - Lent(d, size))
  {
    var c, i := [d] + t, j - Lent(d, size);
    var o, o' := OriginOf(c, size, j), OriginOf(t, size, i);
    assert c[1..] == t;
    assert o == Origin(o'.index + 1, o'.addr);
    if d.Writable() && d.addr == o'.addr {
      assert c[0].Writable() && c[0].addr == o.addr;
    }
    if Zeroed(t, size, i) {
      var k :| 0 <= k < o'.index && k < |t| && t[k].Writable() && t[k].addr == o'.addr;
      assert c[k + 1].Writable() && c[k + 1].addr == o.addr;
    }
    if Zeroed(c, size, j) && !(d.Writable() && d.addr == o'.addr) {
      var k :| 0 <= k < o.index && k < |c| && c[k].Writable() && c[k].addr == o.addr;
      assert t[k - 1].Writable() && t[k - 1].addr == o'.addr;
    }
  }

  lemma ZeroedFirst(d: Desc, t: seq<Desc>, size: nat, j: nat)
    requires j < Lent(d, size)
    ensures !Zeroed([d] + t, size, j)
  {
  }

  lemma {:induction false} SeenLength(c: seq<Desc>, mem: seq<u8>)
    ensures |Seen(c, mem)| == |Readable(c, mem)|
    decreases |c|
  {
    if c != [] {
      SeenLength(c[1..], Acked(c[0], mem));
      ReadableSameLength(c[1..], mem, Acked(c[0], mem));
    }
  }

  /** A byte behind one more descriptor: memory as it was, or that descriptor's zero. */
  lemma BehindOne(d: Desc, t: seq<Desc>, mem: seq<u8>, j: nat)
    requires j < |Readable(t, mem)|
    ensures j < |Readable(t, Acked(d, mem))|
    ensures Readable(t, Acked(d, mem))[j]
         == if d.Writable() && d.addr == OriginOf(t, |mem|, j).addr then 0 else Readable(t, mem)[j]
  {
    ReadableSameLength(t, mem, Acked(d, mem));
    ReadableAt(t, mem, j);
    ReadableAt(t, Acked(d, mem), j);
  }

  /** The reading of a chain from its first descriptor and the rest. */
  lemma SeenSplit(d: Desc, t: seq<Desc>, mem: seq<u8>, j: nat)
    requires j < |Seen([d] + t, mem)| == |Readable([d] + t, mem)|
    ensures var n := Lent(d, |mem|);
            if j < n then Seen([d] + t, mem)[j] == Readable([d] + t, mem)[j]
            else && j - n < |Seen(t, Acked(d, mem))| && j - n < |Readable(t, mem)|
                 && Seen([d] + t, mem)[j] == Seen(t, Acked(d, mem))[j - n]
                 && Readable([d] + t, mem)[j] == Readable(t, mem)[j - n]
  {
    assert ([d] + t)[1..] == t;
    BufferLent(d, mem);
  }

  /** Byte by byte, the walk meets memory as it was, except where an earlier
      acknowledgement has put a zero. */
  lemma {:induction false} SeenAt(c: seq<Desc>, mem: seq<u8>, j: nat)
    requires j < |Seen(c, mem)| == |Readable(c, mem)|
    ensures Seen(c, mem)[j] == if Zeroed(c, |mem|, j) then 0 else Readable(c, mem)[j]
    decreases |c|
  {
    var d, t := c[0], c[1..];
    var n := Lent(d, |mem|);
    assert c == [d] + t;
    SeenSplit(d, t, mem, j);
    if j < n {
      ZeroedFirst(d, t, |mem|, j);
    } else {
      SeenLength(t, Acked(d, mem));
      SeenAt(t, Acked(d, mem), j - n);
      BehindOne(d, t, mem, j - n);
      ZeroedCons(d, t, |mem|, j);
    }
  }

  /** None of the bytes a command is made of was non-zero and overwritten by an
      earlier acknowledgement of its own chain. */
  ghost predicate Unspoiled(c: seq<Desc>, mem: seq<u8>) {
    forall j :: 0 <= j < Min(CMD_MAX, |Readable(c, mem)|) && Zeroed(c, |mem|, j) ==> Readable(c, mem)[j] == 0
  }

  /** However the guest splits a command over descriptors, what is collected is
      the first min(8, total) bytes of the concatenated readable buffers exactly
      when no acknowledgement spoils them. */
  lemma CommandIsPrefix(c: seq<Desc>, mem: seq<u8>)
    ensures Walk(c, mem, []).0 == First(8, Readable(c, mem)) <==> Unspoiled(c, mem)
  {
    WalkKeepsFirst(c, mem, []);
    SeenLength(c, mem);
    var seen, readable := Seen(c, mem), Readable(c, mem);
    assert [] + seen == seen;
    forall j | 0 <= j < |seen| ensures seen[j] == if Zeroed(c, |mem|, j) then 0 else readable[j] {
      SeenAt(c, mem, j);
    }
    SamePrefix(seen, readable);
  }

  lemma ReadableTwo(a: Desc, b: Desc, mem: seq<u8>)
    ensures Readable([a, b], mem) == Buffer(a, mem) + Buffer(b, mem)
  {
    assert [a, b][1..] == [b] && [b][1..] == [];
    assert Readable([b], mem) == Buffer(b, mem) + Readable([], mem);
  }

  lemma ZeroedTwo(a: Desc, b: Desc, size: nat)
    requires a.Writable() && !b.Writable() && a.addr == b.addr && b.len > 0 && b.addr + b.len <= size
    ensures Zeroed([a, b], size, 0)
  {
    assert [a, b][1..] == [b];
    assert OriginOf([b], size, 0) == Origin(0, b.addr);
    assert OriginOf([a, b], size, 0) == Origin(1, b.addr);
    assert [a, b][0].Writable() && [a, b][0].addr == b.addr;
  }

  /** A chain that is misread: its first descriptor is acknowledged into the
      non-zero byte the second one lends. */
  lemma SpoiledCommand(a: Desc, b: Desc, mem: seq<u8>)
    requires a.Writable() && !b.Writable() && a.addr == b.addr && b.len > 0 && b.addr + b.len <= |mem| && mem[b.addr] != 0
    ensures Walk([a, b], mem, []).0 != First(8, Readable([a, b], mem))
  {
    ReadableTwo(a, b, mem);
    ZeroedTwo(a, b, |mem|);
    assert Readable([a, b], mem)[0] == mem[b.addr];
    CommandIsPrefix([a, b], mem);
  }

  lemma SamePrefix(a: seq<u8>, b: seq<u8>)
    requires |a| == |b|
    ensures First(CMD_MAX, a) == First(CMD_MAX, b) <==> forall j :: 0 <= j < Min(CMD_MAX, |a|) ==> a[j] == b[j]
  {
    if First(CMD_MAX, a) == First(CMD_MAX, b) {
      forall j | 0 <= j < Min(CMD_MAX, |a|) ensures a[j] == b[j] {
        assert First(CMD_MAX, a)[j] == a[j] && First(CMD_MAX, b)[j] == b[j];
      }
    }
  }

  /** A chain that puts its writable descriptors last, as VIRTIO 1.2 section
      2.7.4 demands of drivers, is never spoiled, whatever memory holds. */
  lemma OrderedIsUnspoiled(c: seq<Desc>, mem: seq<u8>)
    requires forall i, j :: 0 <= i < j < |c| && c[i].Writable() ==> c[j].Writable()
    ensures Unspoiled(c, mem)
  {
    forall j | 0 <= j < Min(CMD_MAX, |Readable(c, mem)|) ensures !Zeroed(c, |mem|, j) {
      ReadableAt(c, mem, j);
      OriginReadable(c, |mem|, j);
    }
  }

  lemma {:induction false} OriginReadable(c: seq<Desc>, size: nat, j: nat)
    requires OriginOf(c, size, j).index < |c|
    ensures !c[OriginOf(c, size, j).index].Writable()
    decreases |c|
  {
    var n := Lent(c[0], size);
    if j >= n { OriginReadable(c[1..], size, j - n); }
  }
}
