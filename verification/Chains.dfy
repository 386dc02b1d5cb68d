/** Descriptor chains in guest memory (section 2.7.5 of VIRTIO 1.2). */
module Chains {
  import opened Basics

  /** `addr` is the buffer's offset in guest RAM. Bit 0 of the flags says that the
      chain goes on, bit 1 that the buffer is device-writable. */
  datatype Desc = Desc(addr: nat, len: u32, flags: u16, next: u16)
  {
    predicate HasNext() {
      flags % 2 == 1
    }

    predicate Writable() {
      flags / 2 % 2 == 1
    }
  }

  /** The flag tests as masks. */
  lemma FlagMasks(d: Desc)
    ensures d.HasNext() <==> BitAnd(d.flags, 1) != 0
    ensures d.Writable() <==> BitAnd(d.flags, 2) != 0
  {
    assert BitAnd(d.flags / 2, 1) == d.flags / 2 % 2;
    assert BitAnd(d.flags, 2) == 2 * BitAnd(d.flags / 2, 1);
  }

  /** The descriptors from table index `i` on, cut off after `n`. */
  function Chain(desc: seq<Desc>, i: nat, n: nat): (c: seq<Desc>)
    decreases n
  {
    if n == 0 || i >= |desc| then []
    else [desc[i]] + if desc[i].HasNext() then Chain(desc, desc[i].next, n - 1) else []
  }

  /** The chain from `i` ends within `n` descriptors. */
  predicate Ends(desc: seq<Desc>, i: nat, n: nat)
    decreases n
  {
    n > 0 && i < |desc| && (desc[i].HasNext() ==> Ends(desc, desc[i].next, n - 1))
  }

  function TotalLen(c: seq<Desc>): nat {
    if c == [] then 0 else c[0].len + TotalLen(c[1..])
  }

  predicate InRam(c: seq<Desc>, size: nat) {
    forall d :: d in c ==> d.addr + d.len <= size
  }

  /** The chain whose head is table index `head`. A driver may not make it
      longer than the table, so the cut-off is never reached. */
  function ChainOf(desc: seq<Desc>, head: nat): seq<Desc> {
    Chain(desc, head, |desc|)
  }

  /** What a driver owes: an acyclic chain of less than 2^32 bytes, inside RAM. */
  predicate WellFormed(desc: seq<Desc>, head: nat, size: nat) {
    Ends(desc, head, |desc|) && TotalLen(ChainOf(desc, head)) < 0x1_0000_0000 && InRam(ChainOf(desc, head), size)
  }

  /** The bytes a descriptor lends to the device for reading. */
  function Buffer(d: Desc, mem: seq<u8>): seq<u8> {
    if d.Writable() || d.addr + d.len > |mem| then [] else mem[d.addr..d.addr + d.len]
  }

  /** The bytes of the device-readable buffers, concatenated. */
  function Readable(c: seq<Desc>, mem: seq<u8>): seq<u8> {
    if c == [] then [] else Buffer(c[0], mem) + Readable(c[1..], mem)
  }

  /** The guest addresses of a chain's device-readable bytes, in chain order. */
  function Places(c: seq<Desc>): seq<nat> {
    if c == [] then [] else PlacesOf(c[0]) + Places(c[1..])
  }

  function PlacesOf(d: Desc): seq<nat> {
    if BitAnd(d.flags, 2) != 0 then [] else seq(d.len, i requires 0 <= i < d.len => d.addr + i)
  }

  /** `bytes` is what memory holds at `places`. */
  ghost predicate HeldAt(bytes: seq<u8>, places: seq<nat>, mem: seq<u8>) {
    |bytes| == |places| && forall j :: 0 <= j < |places| ==> places[j] < |mem| && bytes[j] == mem[places[j]]
  }

  lemma HeldAppend(a: seq<u8>, b: seq<u8>, p: seq<nat>, q: seq<nat>, mem: seq<u8>)
    requires HeldAt(a, p, mem) && HeldAt(b, q, mem)
    ensures HeldAt(a + b, p + q, mem)
  {
  }

  lemma BufferIs(d: Desc, mem: seq<u8>)
    requires d.addr + d.len <= |mem|
    ensures HeldAt(Buffer(d, mem), PlacesOf(d), mem)
  {
    FlagMasks(d);
  }

  /** The readable bytes of a chain inside RAM are the bytes at those addresses. */
  lemma {:induction false} ReadableIs(c: seq<Desc>, mem: seq<u8>)
    requires InRam(c, |mem|)
    ensures HeldAt(Readable(c, mem), Places(c), mem)
  {
    if c != [] {
      assert c[0] in c && forall d :: d in c[1..] ==> d in c;
      BufferIs(c[0], mem);
      ReadableIs(c[1..], mem);
      HeldAppend(Buffer(c[0], mem), Readable(c[1..], mem), PlacesOf(c[0]), Places(c[1..]), mem);
    }
  }

  /** Used lengths are plain sums: a chain's total is each descriptor's length,
      readable or not, added up. */
  lemma {:induction false} TotalLenAppend(a: seq<Desc>, b: seq<Desc>)
    ensures TotalLen(a + b) == TotalLen(a) + TotalLen(b)
    ensures |b| == 1 ==> TotalLen(b) == b[0].len
  {
    if a == [] {
      assert a + b == b;
      if |b| == 1 { assert b[1..] == []; }
    } else {
      assert (a + b)[1..] == a[1..] + b;
      TotalLenAppend(a[1..], b);
    }
  }

  /** The last descriptor on a chain, or one more and the rest. */
  lemma ChainStep(desc: seq<Desc>, i: nat, n: nat, size: nat)
    requires Ends(desc, i, n) && InRam(Chain(desc, i, n), size)
    ensures i < |desc| && desc[i].addr + desc[i].len <= size
    ensures desc[i].HasNext() ==>
              && n > 1 && Ends(desc, desc[i].next, n - 1)
              && Chain(desc, i, n) == [desc[i]] + Chain(desc, desc[i].next, n - 1)
              && InRam(Chain(desc, desc[i].next, n - 1), size)
              && TotalLen(Chain(desc, i, n)) == desc[i].len + TotalLen(Chain(desc, desc[i].next, n - 1))
    ensures !desc[i].HasNext() ==> Chain(desc, i, n) == [desc[i]] && TotalLen(Chain(desc, i, n)) == desc[i].len
  {
    var c := Chain(desc, i, n);
    assert c[0] == desc[i] && c[0] in c;
    if desc[i].HasNext() {
      var t := Chain(desc, desc[i].next, n - 1);
      assert c == [desc[i]] + t && c[1..] == t;
      assert forall d :: d in t ==> d in c;
    } else {
      assert c[1..] == [];
    }
  }

  lemma ReadableCons(d: Desc, t: seq<Desc>, mem: seq<u8>)
    ensures Readable([d] + t, mem) == Buffer(d, mem) + Readable(t, mem)
  {
    assert ([d] + t)[1..] == t;
  }
}
