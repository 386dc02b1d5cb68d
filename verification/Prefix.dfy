/** Masks read as numbers: the bits of a word, IPv4 addresses in network order,
    and what masking means for a network prefix. */
module Prefix {
  import opened Basics

  // ── Bits ────────────────────────────────────────────────────────────

  /** Bit `k` of a word, the least significant being bit 0. */
  function Bit(x: nat, k: nat): (b: nat)
    ensures b < 2
  {
    if k == 0 then x % 2 else Bit(x / 2, k - 1)
  }

  /** Every bit of `h` is also a bit of `d`. */
  ghost predicate Covers(d: nat, h: nat) {
    forall k: nat :: Bit(h, k) == 1 ==> Bit(d, k) == 1
  }

  lemma BitOfZero(k: nat)
    ensures Bit(0, k) == 0
  {
    if k > 0 { BitOfZero(k - 1); }
  }

  lemma CoversHalf(d: nat, h: nat)
    ensures Covers(d, h) <==> (h % 2 == 1 ==> d % 2 == 1) && Covers(d / 2, h / 2)
  {
    if Covers(d, h) {
      assert Bit(h, 0) == h % 2 && Bit(d, 0) == d % 2;
      forall k: nat | Bit(h / 2, k) == 1 ensures Bit(d / 2, k) == 1 {
        assert Bit(h, k + 1) == Bit(h / 2, k) && Bit(d, k + 1) == Bit(d / 2, k);
      }
    }
    if (h % 2 == 1 ==> d % 2 == 1) && Covers(d / 2, h / 2) {
      forall k: nat | Bit(h, k) == 1 ensures Bit(d, k) == 1 {
        if k > 0 { assert Bit(h / 2, k - 1) == 1; }
      }
    }
  }

  /** The mask test `d & h == h`, bit by bit. */
  lemma {:induction false} AndIsCovers(d: nat, h: nat)
    ensures BitAnd(d, h) == h <==> Covers(d, h)
  {
    if h == 0 {
      forall k: nat ensures Bit(h, k) == 0 { BitOfZero(k); }
    } else {
      CoversHalf(d, h);
      AndIsCovers(d / 2, h / 2);
      AndHalves(d, h);
    }
  }

  lemma AndHalves(a: nat, b: nat)
    ensures BitAnd(a, b) == 2 * BitAnd(a / 2, b / 2) + (if a % 2 == 1 && b % 2 == 1 then 1 else 0)
  {
  }

  lemma {:induction false} BitOfNot(n: nat, m: nat, k: nat)
    requires m < Shift(n, 1)
    ensures Bit(Shift(n, 1) - 1 - m, k) + Bit(m, k) == if k < n then 1 else 0
    decreases n
  {
    if n == 0 {
      BitOfZero(k);
    } else if k > 0 {
      BitOfNot(n - 1, m / 2, k - 1);
      assert (Shift(n, 1) - 1 - m) / 2 == Shift(n - 1, 1) - 1 - m / 2;
    }
  }

  lemma BitOfNot32(m: u32, k: nat)
    ensures Bit(Not32(m), k) == 1 <==> k < 32 && Bit(m, k) == 0
  {
    WordShift();
    BitOfNot(32, m, k);
    assert Not32(m) == Shift(32, 1) - 1 - m;
  }

  lemma WordShift()
    ensures Shift(32, 1) == 0x1_0000_0000
  {
    ShiftByte(1);
    ShiftTwice(8, 8, 1);
    ShiftByte(0x100);
    ShiftTwice(16, 16, 1);
    ShiftTwice(8, 8, 0x1_0000);
    ShiftByte(0x1_0000);
    ShiftByte(0x100_0000);
  }

  lemma {:induction false} ShiftTwice(n: nat, m: nat, b: nat)
    ensures Shift(n + m, b) == Shift(n, Shift(m, b))
  {
    if n > 0 { ShiftTwice(n - 1, m, b); }
  }

  /** Every bit of a word that is 0 in the mask is 1 in `d`. */
  ghost predicate OnesOutside(d: u32, m: u32) {
    forall k: nat :: k < 32 && Bit(m, k) == 0 ==> Bit(d, k) == 1
  }

  /** The mask test `d & !m == !m`: every bit outside the mask is set in `d`. */
  lemma OutsideMask(d: u32, m: u32)
    ensures BitAnd(d, Not32(m)) == Not32(m) <==> OnesOutside(d, m)
  {
    var h := Not32(m);
    AndIsCovers(d, h);
    forall k: nat ensures Bit(h, k) == 1 <==> k < 32 && Bit(m, k) == 0 {
      BitOfNot32(m, k);
    }
    if OnesOutside(d, m) {
      forall k: nat | Bit(h, k) == 1 ensures Bit(d, k) == 1 {
        assert Bit(m, k) == 0;
      }
      assert Covers(d, h);
    }
    if Covers(d, h) {
      forall k: nat | k < 32 && Bit(m, k) == 0 ensures Bit(d, k) == 1 {
        assert Bit(h, k) == 1;
      }
    }
  }

  // ── Splitting a word ────────────────────────────────────────────────

  /** `b` moved up by `n` bits. */
  function Shift(n: nat, b: nat): nat {
    if n == 0 then b else 2 * Shift(n - 1, b)
  }

  /** Adding `x` and `y` above `a` and `c` adds `z` to what they have in common. */
  ghost predicate Above(x: nat, y: nat, z: nat, a: nat, c: nat) {
    BitAnd(a + x, c + y) == BitAnd(a, c) + z
  }

  /** Masking acts on the low `n` bits and on what is above them separately. */
  lemma {:induction false} AndSplits(n: nat, a: nat, b: nat, c: nat, d: nat)
    requires a < Shift(n, 1) && c < Shift(n, 1)
    ensures Above(Shift(n, b), Shift(n, d), Shift(n, BitAnd(b, d)), a, c)
    decreases n
  {
    if n > 0 {
      AndSplits(n - 1, a / 2, b, c / 2, d);
      AboveTwice(Shift(n - 1, b), Shift(n - 1, d), Shift(n - 1, BitAnd(b, d)), a, c);
    }
  }

  lemma HalfIs(a: nat, h: nat, o: nat)
    requires o < 2 && a == 2 * h + o
    ensures a / 2 == h && a % 2 == o
  {
  }

  lemma AboveTwice(x: nat, y: nat, z: nat, a: nat, c: nat)
    requires Above(x, y, z, a / 2, c / 2)
    ensures Above(2 * x, 2 * y, 2 * z, a, c)
  {
    var h, k := a / 2, c / 2;
    HalfIs(a + 2 * x, h + x, a % 2);
    HalfIs(c + 2 * y, k + y, c % 2);
    StepFrom(a, c, h, k, a + 2 * x, c + 2 * y, h + x, k + y, z);
  }

  lemma ShiftByte(b: nat)
    ensures Shift(8, b) == 0x100 * b
  {
    assert Shift(4, b) == 2 * Shift(3, b) && Shift(3, b) == 2 * Shift(2, b);
    assert Shift(8, b) == 2 * Shift(7, b) && Shift(7, b) == 2 * Shift(6, b);
    assert Shift(6, b) == 2 * Shift(5, b) && Shift(5, b) == 2 * Shift(4, b);
    assert Shift(2, b) == 2 * Shift(1, b) && Shift(1, b) == 2 * Shift(0, b);
  }

  lemma AndByte(a: u8, b: nat, c: u8, d: nat) returns (low: u8, high: nat)
    ensures low == BitAnd(a, c) && high == BitAnd(b, d)
    ensures BitAnd(a + 0x100 * b, c + 0x100 * d) == low + 0x100 * high
  {
    low, high := BitAnd(a, c), BitAnd(b, d);
    ShiftByte(1);
    ShiftByte(b);
    ShiftByte(d);
    ShiftByte(BitAnd(b, d));
    AndSplits(8, a, b, c, d);
  }

  lemma StepFrom(a: nat, c: nat, ha: nat, hc: nat, u: nat, v: nat, hu: nat, hv: nat, z: nat)
    requires a / 2 == ha && c / 2 == hc && u / 2 == hu && v / 2 == hv && u % 2 == a % 2 && v % 2 == c % 2
    requires BitAnd(hu, hv) == BitAnd(ha, hc) + z
    ensures BitAnd(u, v) == BitAnd(a, c) + 2 * z
  {
    var bit := if a % 2 == 1 && c % 2 == 1 then 1 else 0;
    AndFrom(u, v, hu, hv, bit);
    AndFrom(a, c, ha, hc, bit);
  }

  lemma AndFrom(a: nat, b: nat, c: nat, d: nat, low: nat)
    requires a / 2 == c && b / 2 == d && low == if a % 2 == 1 && b % 2 == 1 then 1 else 0
    ensures BitAnd(a, b) == 2 * BitAnd(c, d) + low
  {
    AndHalves(a, b);
  }

  /** Two masks take a word apart. */
  ghost predicate Parts(x: nat, m: nat, n: nat) {
    BitAnd(x, m) + BitAnd(x, n) == x
  }

  /** As a mask and its complement do. */
  lemma {:induction false} AndNot(p: nat, x: nat, m: nat)
    requires IsPow2(p) && x < p && m < p
    ensures Parts(x, m, p - 1 - m)
    decreases p
  {
    if p > 1 {
      var h, n := p / 2, p - 1 - m;
      assert p == 2 * h;
      AndNot(h, x / 2, m / 2);
      assert n / 2 == h - 1 - m / 2 && n % 2 == 1 - m % 2;
      SplitBy(x, m, n, x / 2, m / 2, h - 1 - m / 2);
    }
  }

  lemma SplitBy(x: nat, m: nat, n: nat, hx: nat, hm: nat, hn: nat)
    requires x / 2 == hx && m / 2 == hm && n / 2 == hn && n % 2 == 1 - m % 2
    requires Parts(hx, hm, hn)
    ensures Parts(x, m, n)
  {
    AndFrom(x, m, hx, hm, if x % 2 == 1 && m % 2 == 1 then 1 else 0);
    AndFrom(x, n, hx, hn, if x % 2 == 1 && n % 2 == 1 then 1 else 0);
  }

  // ── Network order ───────────────────────────────────────────────────

  /** The address as the number its dotted form spells, first octet first. */
  function Net(a: Ipv4): u32 {
    var o := Octets4(a);
    Le32(o[3], o[2], o[1], o[0])
  }

  lemma OctetsOfLe32(a: u8, b: u8, c: u8, d: u8)
    ensures Octets4(Le32(a, b, c, d)) == [a, b, c, d]
  {
    var v := Le32(a, b, c, d);
    assert v == a + 0x100 * (b + 0x100 * (c + 0x100 * d));
    assert v / 0x100 == b + 0x100 * (c + 0x100 * d);
    assert v / 0x100 / 0x100 == c + 0x100 * d;
  }

  lemma NetOf(a: u8, b: u8, c: u8, d: u8)
    ensures Net(Le32(a, b, c, d)) == Le32(d, c, b, a)
  {
    OctetsOfLe32(a, b, c, d);
  }

  lemma NetTwice(a: Ipv4)
    ensures Net(Net(a)) == a
  {
    var o := Octets4(a);
    OctetsOfLe32(o[3], o[2], o[1], o[0]);
  }

  lemma NetInjective(a: Ipv4, b: Ipv4)
    ensures Net(a) == Net(b) <==> a == b
  {
    NetTwice(a);
    NetTwice(b);
  }

  lemma NetNot(m: u32)
    ensures Net(Not32(m)) == Not32(Net(m))
  {
    var o := Octets4(m);
    OctetsOfLe32(0xFF - o[0], 0xFF - o[1], 0xFF - o[2], 0xFF - o[3]);
    assert Not32(m) == Le32(0xFF - o[0], 0xFF - o[1], 0xFF - o[2], 0xFF - o[3]);
  }

  lemma AndStage(a: u8, b: nat, c: u8, d: nat, high: nat) returns (low: u8, both: nat)
    requires BitAnd(b, d) == high
    ensures low == BitAnd(a, c) && both == low as int + 0x100 * high
    ensures BitAnd(a as int + 0x100 * b, c as int + 0x100 * d) == both
  {
    low, both := BitAnd(a, c), BitAnd(a, c) + 0x100 * high;
    var _, _ := AndByte(a, b, c, d);
  }

  /** Masking works octet by octet. */
  lemma AndOctets(a: u8, b: u8, c: u8, d: u8, p: u8, q: u8, r: u8, s: u8) returns (w: u8, x: u8, y: u8, z: u8)
    ensures w == BitAnd(a, p) && x == BitAnd(b, q) && y == BitAnd(c, r) && z == BitAnd(d, s)
    ensures BitAnd(Le32(a, b, c, d), Le32(p, q, r, s)) == Le32(w, x, y, z)
  {
    var i, j, k, l := UpperOctets(b, c, d, q, r, s);
    x, y, z := i, j, k;
    var n: nat, m: nat := b as int + 0x100 * c as int + 0x1_0000 * d as int, q as int + 0x100 * r as int + 0x1_0000 * s as int;
    SameWord(a, b, c, d, n);
    SameWord(p, q, r, s, m);
    w := AndLast(Le32(a, b, c, d), Le32(p, q, r, s), a, n, p, m, l);
    SameWord(w, x, y, z, l);
  }

  lemma AndLast(u: nat, v: nat, a: u8, b: nat, c: u8, d: nat, high: nat) returns (low: u8)
    requires u == a as int + 0x100 * b && v == c as int + 0x100 * d && BitAnd(b, d) == high
    ensures low == BitAnd(a, c) && BitAnd(u, v) == low as int + 0x100 * high
  {
    var both;
    low, both := AndStage(a, b, c, d, high);
  }

  lemma SameWord(a: u8, b: u8, c: u8, d: u8, n: nat)
    requires n == b as int + 0x100 * c as int + 0x1_0000 * d as int
    ensures Le32(a, b, c, d) == a as int + 0x100 * n
  {
  }

  lemma UpperOctets(b: u8, c: u8, d: u8, q: u8, r: u8, s: u8) returns (x: u8, y: u8, z: u8, all: nat)
    ensures x == BitAnd(b, q) && y == BitAnd(c, r) && z == BitAnd(d, s)
    ensures all == x as int + 0x100 * y as int + 0x1_0000 * z as int
    ensures BitAnd(b as int + 0x100 * c as int + 0x1_0000 * d as int, q as int + 0x100 * r as int + 0x1_0000 * s as int) == all
  {
    z := BitAnd(d, s);
    var two: nat;
    y, two := AndStage(c, d, r, s, z);
    var n: nat, m: nat := c as int + 0x100 * d as int, r as int + 0x100 * s as int;
    x, all := AndStage(b, n, q, m, two);
    assert b as int + 0x100 * n == b as int + 0x100 * c as int + 0x1_0000 * d as int;
    assert q as int + 0x100 * m == q as int + 0x100 * r as int + 0x1_0000 * s as int;
  }

  lemma NetAnd(a: Ipv4, b: Ipv4)
    ensures Net(BitAnd(a, b)) == BitAnd(Net(a), Net(b))
  {
    var x, y := Octets4(a), Octets4(b);
    var z0, z1, z2, z3 := AndOctets(x[0], x[1], x[2], x[3], y[0], y[1], y[2], y[3]);
    var _, _, _, _ := AndOctets(x[3], x[2], x[1], x[0], y[3], y[2], y[1], y[0]);
    OctetsOfLe32(z0, z1, z2, z3);
  }

  // ── Prefixes ────────────────────────────────────────────────────────

  /** `mask` leaves a host part of `block` addresses: in network order, all ones
      above it. Length 24 has blocks of 256, length 32 of 1, length 0 of 2^32. */
  predicate PrefixMask(mask: u32, block: nat) {
    IsPow2(block) && block <= 0x1_0000_0000 && Net(mask) == 0x1_0000_0000 - block
  }

  lemma ZeroMask(mask: u32, block: nat)
    requires Net(mask) == 0x1_0000_0000 - block
    ensures mask == 0 <==> block == 0x1_0000_0000
  {
    var o := Octets4(mask);
    assert Net(mask) == Le32(o[3], o[2], o[1], o[0]) && mask == Le32(o[0], o[1], o[2], o[3]);
  }

  /** All host bits are one exactly for the last address of a block. */
  lemma HostBitsOnes(d: Ipv4, mask: u32, block: nat)
    requires PrefixMask(mask, block) && block <= 0xFFFF_FFFF
    ensures BitAnd(d, Not32(mask)) == Not32(mask) <==> Net(d) % block == block - 1
  {
    var n := NetMask(d, Not32(mask));
    NetNot(mask);
    OnesMod(n, Net(Not32(mask)), block);
  }

  lemma OnesMod(n: nat, h: nat, block: nat)
    requires IsPow2(block) && h == block - 1
    ensures BitAnd(n, h) == h <==> n % block == block - 1
  {
    MaskIsMod(n, block);
  }

  /** The mask test in network order. */
  lemma NetMask(d: Ipv4, h: u32) returns (n: u32)
    ensures n == Net(d)
    ensures BitAnd(d, h) == h <==> BitAnd(n, Net(h)) == Net(h)
  {
    n := Net(d);
    NetAnd(d, h);
    NetInjective(BitAnd(d, h), h);
  }

  lemma AndPrefix(x: u32, block: nat)
    requires IsPow2(block) && block <= 0xFFFF_FFFF
    ensures BitAnd(x, 0x1_0000_0000 - block) == x - x % block
  {
    Pow2Constants();
    AndNot(0x1_0000_0000, x, 0x1_0000_0000 - block);
    MaskIsMod(x, block);
  }

  lemma SameBlock(x: nat, y: nat, block: nat)
    requires block > 0
    ensures x - x % block == y - y % block <==> x / block == y / block
  {
    if x - x % block == y - y % block {
      assert block * (x / block) == block * (y / block);
      MulInjective(block, x / block, y / block);
    }
  }

  lemma MulInjective(d: nat, a: int, b: int)
    requires d > 0 && d * a == d * b
    ensures a == b
  {
    if a < b { MulMono(d, a + 1, b); }
    if b < a { MulMono(d, b + 1, a); }
  }

  /** Masking compares networks: two addresses agree under the mask exactly when
      they lie in the same block. */
  lemma SameNetwork(a: Ipv4, b: Ipv4, mask: u32, block: nat)
    requires PrefixMask(mask, block)
    ensures BitAnd(a, mask) == BitAnd(b, mask) <==> Net(a) / block == Net(b) / block
  {
    var x, y := NetMasks(a, b, mask);
    SamePrefix(x, y, Net(mask), block);
  }

  lemma OneBlock(x: nat, block: nat)
    requires x < block
    ensures x / block == 0
  {
  }

  lemma SamePrefix(x: u32, y: u32, m: nat, block: nat)
    requires IsPow2(block) && block <= 0x1_0000_0000 && m == 0x1_0000_0000 - block
    ensures BitAnd(x, m) == BitAnd(y, m) <==> x / block == y / block
  {
    if block <= 0xFFFF_FFFF {
      AndPrefix(x, block);
      AndPrefix(y, block);
      SameBlock(x, y, block);
    } else {
      OneBlock(x, block);
      OneBlock(y, block);
    }
  }

  lemma NetMasks(a: Ipv4, b: Ipv4, mask: u32) returns (x: u32, y: u32)
    ensures x == Net(a) && y == Net(b)
    ensures BitAnd(a, mask) == BitAnd(b, mask) <==> BitAnd(x, Net(mask)) == BitAnd(y, Net(mask))
  {
    x, y := Net(a), Net(b);
    NetAnd(a, mask);
    NetAnd(b, mask);
    NetInjective(BitAnd(a, mask), BitAnd(b, mask));
  }
}
