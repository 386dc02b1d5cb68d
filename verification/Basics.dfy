/** Fixed-width integers, byte order and address types shared by every module.
    Both targets of the system are little-endian, so a value "as stored in
    memory" is always its little-endian byte sequence. */
module Basics {
  type u8 = x: int | 0 <= x < 0x100
  type u16 = x: int | 0 <= x < 0x1_0000
  type u32 = x: int | 0 <= x < 0x1_0000_0000
  type u64 = x: int | 0 <= x < 0x1_0000_0000_0000_0000

  datatype Option<+T> = None | Some(value: T)

  // ── Byte order ──────────────────────────────────────────────────────

  function LeBytes16(v: u16): seq<u8> {
    [v % 0x100, v / 0x100]
  }

  function BeBytes16(v: u16): seq<u8> {
    [v / 0x100, v % 0x100]
  }

  function BeBytes32(v: u32): seq<u8> {
    var b := v / 0x100;
    var c := b / 0x100;
    [c / 0x100, c % 0x100, b % 0x100, v % 0x100]
  }

  function Le16(lo: u8, hi: u8): u16 {
    lo + 0x100 * hi
  }

  function Be16(hi: u8, lo: u8): u16 {
    0x100 * hi + lo
  }

  function Le32(a: u8, b: u8, c: u8, d: u8): u32 {
    a + 0x100 * b + 0x1_0000 * c + 0x100_0000 * d
  }

  /** The four octets of an IPv4 address, in wire order. */
  function Octets4(a: u32): (o: seq<u8>)
    ensures |o| == 4
    ensures Le32(o[0], o[1], o[2], o[3]) == a
  {
    var b := a / 0x100;
    var c := b / 0x100;
    [a % 0x100, b % 0x100, c % 0x100, c / 0x100]
  }

  // ── Addresses ───────────────────────────────────────────────────────

  /** An IPv4 address: the native word whose memory image is the wire octets. */
  type Ipv4 = u32

  type Ipv6 = o: seq<u8> | |o| == 16
    witness [0, 0, 0, 0, 0, 0, 0, 0, 0, 0, 0, 0, 0, 0, 0, 0]

  type Mac = m: seq<u8> | |m| == 6 witness [0, 0, 0, 0, 0, 0]

  const ANY_V4: Ipv4 := 0
  const BROADCAST_V4: Ipv4 := 0xFFFF_FFFF
  const ANY_V6: Ipv6 := [0, 0, 0, 0, 0, 0, 0, 0, 0, 0, 0, 0, 0, 0, 0, 0]
  const MAC_ZERO: Mac := [0, 0, 0, 0, 0, 0]
  const MAC_BROADCAST: Mac := [0xFF, 0xFF, 0xFF, 0xFF, 0xFF, 0xFF]

  datatype IpAddr = V4(v4: Ipv4) | V6(v6: Ipv6)

  datatype NetConfig = NetConfig(ip: Ipv4, mask: u32, gateway: Ipv4, dns: Ipv4)

  // ── Bit masks ───────────────────────────────────────────────────────

  /** Bitwise AND of two unsigned words. */
  function BitAnd(a: nat, b: nat): (r: nat)
    ensures r <= a && r <= b
  {
    if a == 0 || b == 0 then 0
    else 2 * BitAnd(a / 2, b / 2) + (if a % 2 == 1 && b % 2 == 1 then 1 else 0)
  }

  /** Bitwise NOT of a 32-bit word. */
  function Not32(a: u32): u32 {
    0xFFFF_FFFF - a
  }

  predicate IsPow2(n: nat) {
    n == 1 || (n > 0 && n % 2 == 0 && IsPow2(n / 2))
  }

  lemma {:induction false} BitAndSelf(a: nat)
    ensures BitAnd(a, a) == a
  {
    if a > 0 { BitAndSelf(a / 2); }
  }

  /** The power-of-two test `n & (n - 1) == 0` used to reject queue sizes. */
  lemma {:induction false} PowerOfTwoTest(n: nat)
    requires n > 0
    ensures BitAnd(n, n - 1) == 0 <==> IsPow2(n)
  {
    if n % 2 == 1 {
      BitAndSelf(n / 2);
      assert (n - 1) / 2 == n / 2;
    } else {
      PowerOfTwoTest(n / 2);
      assert (n - 1) / 2 == n / 2 - 1;
    }
  }

  lemma ModUnique(x: int, d: int, q: int, r: int)
    requires d > 0 && 0 <= r < d && x == d * q + r
    ensures x % d == r
  {
    var q', r' := x / d, x % d;
    assert x == d * q' + r';
    if q' > q {
      assert d * q' >= d * (q + 1) by { MulMono(d, q + 1, q'); }
    } else if q' < q {
      assert d * q >= d * (q' + 1) by { MulMono(d, q' + 1, q); }
    }
  }

  lemma MulMono(d: int, a: int, b: int)
    requires d >= 0 && a <= b
    ensures d * a <= d * b
  {
    assert d * (b - a) >= 0;
  }

  lemma ModDouble(x: nat, h: nat)
    requires h > 0
    ensures x % (2 * h) == 2 * (x / 2 % h) + x % 2
  {
    var y := x / 2;
    var q, r := y / h, y % h;
    assert y == h * q + r;
    assert x == (2 * h) * q + (2 * r + x % 2);
    ModUnique(x, 2 * h, q, 2 * r + x % 2);
  }

  /** Masking with a power of two minus one is reduction modulo it. */
  lemma {:induction false} MaskIsMod(x: nat, n: nat)
    requires IsPow2(n)
    ensures BitAnd(x, n - 1) == x % n
  {
    if n > 1 {
      var h := n / 2;
      MaskIsMod(x / 2, h);
      ModDouble(x, h);
      assert BitAnd(x, n - 1) == 2 * BitAnd(x / 2, h - 1) + x % 2 by {
        assert (n - 1) / 2 == h - 1 && (n - 1) % 2 == 1;
      }
    }
  }

  /** A smaller power of two divides a larger one. */
  lemma {:induction false} Pow2Divides(n: nat, m: nat)
    requires IsPow2(n) && IsPow2(m) && n <= m
    ensures m % n == 0
  {
    if n == 1 {
    } else {
      Pow2Divides(n / 2, m / 2);
      var q := m / 2 / (n / 2);
      assert m == n * q + 0 by {
        assert m / 2 == n / 2 * q;
        assert 2 * (n / 2 * q) == n * q;
      }
      ModUnique(m, n, q, 0);
    }
  }

  lemma {:induction false} Pow2Times(a: nat, b: nat)
    requires IsPow2(a) && IsPow2(b)
    ensures IsPow2(a * b)
  {
    if a > 1 {
      var h := a / 2;
      Pow2Times(h, b);
      assert a * b == 2 * (h * b);
    } else {
      assert a * b == b;
    }
  }

  lemma Pow2Constants()
    ensures IsPow2(0x8000) && IsPow2(0x1_0000) && IsPow2(0x100_0000) && IsPow2(0x1_0000_0000)
  {
    assert IsPow2(16) && IsPow2(8);
    Pow2Times(16, 16);
    Pow2Times(16, 8);
    Pow2Times(256, 128);
    Pow2Times(256, 256);
    Pow2Times(256, 0x1_0000);
    Pow2Times(0x1_0000, 0x1_0000);
  }

  // ── Sequences ───────────────────────────────────────────────────────

  function Min(a: nat, b: nat): nat {
    if a < b then a else b
  }

  /** Index of the first element satisfying `p`, or `|s|`. */
  function FirstIndex<T>(s: seq<T>, p: T -> bool): (i: nat)
    ensures i <= |s|
    ensures forall k :: 0 <= k < i ==> !p(s[k])
    ensures i < |s| ==> p(s[i])
  {
    if s == [] || p(s[0]) then 0 else 1 + FirstIndex(s[1..], p)
  }

  lemma Assoc<T>(a: seq<T>, b: seq<T>, c: seq<T>)
    ensures (a + b) + c == a + (b + c)
  {
  }

  // ── In-place overwrites ─────────────────────────────────────────────

  /** `s` with the bytes from `off` on overwritten by `b`. */
  function Splice<T>(s: seq<T>, off: nat, b: seq<T>): (r: seq<T>)
    requires off + |b| <= |s|
    ensures |r| == |s|
  {
    s[..off] + b + s[off + |b|..]
  }

  /** Two overwrites that touch end to end are one. */
  lemma SpliceJoin<T>(s: seq<T>, off: nat, a: seq<T>, b: seq<T>)
    requires off + |a| + |b| <= |s|
    ensures Splice(Splice(s, off + |a|, b), off, a) == Splice(s, off, a + b)
    ensures Splice(Splice(s, off, a), off + |a|, b) == Splice(s, off, a + b)
  {
  }

  /** `copy_from_slice` into a region of a buffer. */
  method CopyInto(buf: array<u8>, off: nat, src: seq<u8>)
    requires off + |src| <= buf.Length
    modifies buf
    ensures buf[..] == Splice(old(buf[..]), off, src)
  {
    var i := 0;
    while i < |src|
      invariant 0 <= i <= |src|
      invariant buf[off..off + i] == src[..i]
      invariant forall k :: 0 <= k < buf.Length && !(off <= k < off + i) ==> buf[k] == old(buf[k])
    {
      buf[off + i] := src[i];
      i := i + 1;
    }
    assert buf[..off] == old(buf[..off]);
    assert buf[off + |src|..] == old(buf[off + |src|..]);
    assert buf[..] == buf[..off] + buf[off..off + |src|] + buf[off + |src|..];
  }
}
