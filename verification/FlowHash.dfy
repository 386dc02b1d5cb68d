/** The software flow hash that maps a TCP/UDP 4-tuple to its owning core:
    FNV-1a over the tuple's fields, then the Murmur3 finaliser. Every step is a
    bijection on 32-bit words, which is what makes one-field changes visible. */
module FlowHash {
  import opened Basics

  const WORD := 0x1_0000_0000
  const FNV_BASIS: u32 := 2166136261
  const FNV_PRIME: u32 := 16777619
  const FNV_INVERSE: u32 := 0x359C_449B
  const MIX_A: u32 := 0x85EB_CA6B
  const MIX_A_INVERSE: u32 := 0xA5CB_9243
  const MIX_B: u32 := 0xC2B2_AE35
  const MIX_B_INVERSE: u32 := 0x7ED1_B41D

  // ── Exclusive or on natural numbers ─────────────────────────────────

  function BitXor(a: nat, b: nat): nat
    decreases a + b
  {
    if a == 0 && b == 0 then 0
    else 2 * BitXor(a / 2, b / 2) + (if a % 2 != b % 2 then 1 else 0)
  }

  lemma {:induction false} XorTwice(a: nat, b: nat)
    ensures BitXor(BitXor(a, b), b) == a
    decreases a + b
  {
    if a > 0 || b > 0 {
      var x := BitXor(a, b);
      assert x / 2 == BitXor(a / 2, b / 2) && x % 2 == (if a % 2 != b % 2 then 1 else 0);
      XorTwice(a / 2, b / 2);
    }
  }

  lemma {:induction false} XorBound(a: nat, b: nat, n: nat)
    requires IsPow2(n) && a < n && b < n
    ensures BitXor(a, b) < n
  {
    if n > 1 { XorBound(a / 2, b / 2, n / 2); }
  }

  // ── The xorshift `h ^= h >> s` ──────────────────────────────────────

  /** The logical right shift `h >> s`. */
  function Shr(h: nat, s: nat): (r: nat)
    ensures r <= h
    ensures h > 0 && s > 0 ==> r < h
  {
    if s == 0 then h else Shr(h / 2, s - 1)
  }

  /** Shifting distributes over exclusive or. */
  lemma {:induction false} XorShifted(a: nat, b: nat, s: nat)
    ensures Shr(BitXor(a, b), s) == BitXor(Shr(a, s), Shr(b, s))
  {
    if s > 0 {
      XorShifted(a / 2, b / 2, s - 1);
      assert BitXor(a, b) / 2 == BitXor(a / 2, b / 2);
    }
  }

  function XorShift(h: nat, s: nat): nat {
    BitXor(h, Shr(h, s))
  }

  /** The inverse of the xorshift. */
  function UnXorShift(y: nat, s: nat): nat
    requires s > 0
  {
    if y == 0 then 0 else BitXor(y, UnXorShift(Shr(y, s), s))
  }

  lemma {:induction false} UnXorShiftLeft(h: nat, s: nat)
    requires s > 0
    ensures UnXorShift(XorShift(h, s), s) == h
  {
    var t := Shr(h, s);
    if h > 0 {
      XorShifted(h, t, s);
      UnXorShiftLeft(t, s);
      XorTwice(h, t);
    }
  }

  lemma {:induction false} UnXorShiftRight(y: nat, s: nat)
    requires s > 0
    ensures XorShift(UnXorShift(y, s), s) == y
  {
    if y > 0 {
      var z := Shr(y, s);
      var g := UnXorShift(z, s);
      UnXorShiftRight(z, s);
      XorShifted(y, g, s);
      XorTwice(g, Shr(g, s));
      XorTwice(y, g);
    }
  }

  lemma {:induction false} UnXorShiftBound(y: nat, s: nat, n: nat)
    requires s > 0 && IsPow2(n) && y < n
    ensures UnXorShift(y, s) < n
  {
    if y > 0 {
      UnXorShiftBound(Shr(y, s), s, n);
      XorBound(y, UnXorShift(Shr(y, s), s), n);
    }
  }

  // ── Wrapping multiplication by an odd constant ──────────────────────

  function WrappingMul(x: u32, c: u32): u32 {
    x * c % WORD
  }

  /** A wrapping product is undone by the modular inverse of the factor. */
  lemma MulUndone(x: u32, c: u32, d: u32, k: nat)
    requires c * d == 1 + WORD * k
    ensures WrappingMul(WrappingMul(x, c), d) == x
  {
    var q, r := x * c / WORD, x * c % WORD;
    calc {
      r * d;
      (x * c - WORD * q) * d;
      x * (c * d) - WORD * (q * d);
      x * (1 + WORD * k) - WORD * (q * d);
      WORD * (x * k - q * d) + x;
    }
    ModUnique(r * d, WORD, x * k - q * d, x);
  }

  lemma MulBijective(x: u32, c: u32, d: u32)
    requires (c, d) in {(FNV_PRIME, FNV_INVERSE), (MIX_A, MIX_A_INVERSE), (MIX_B, MIX_B_INVERSE)}
    ensures WrappingMul(WrappingMul(x, c), d) == x
    ensures WrappingMul(WrappingMul(x, d), c) == x
  {
    var k := (c * d - 1) / WORD;
    assert c * d == 1 + WORD * k;
    MulUndone(x, c, d, k);
    MulUndone(x, d, c, k);
  }

  // ── One FNV-1a step and the finaliser ───────────────────────────────

  function Xor32(a: u32, b: u32): u32 {
    Pow2Constants();
    XorBound(a, b, WORD);
    BitXor(a, b)
  }

  function FnvStep(h: u32, v: u32): u32 {
    WrappingMul(Xor32(h, v), FNV_PRIME)
  }

  /** For each folded word, a step is a bijection of the running hash. */
  lemma FnvStepBijective(h: u32, v: u32)
    ensures Xor32(WrappingMul(FnvStep(h, v), FNV_INVERSE), v) == h
    ensures FnvStep(Xor32(WrappingMul(h, FNV_INVERSE), v), v) == h
  {
    MulBijective(Xor32(h, v), FNV_PRIME, FNV_INVERSE);
    XorTwice(h, v);
    var g := WrappingMul(h, FNV_INVERSE);
    XorTwice(g, v);
    MulBijective(h, FNV_PRIME, FNV_INVERSE);
  }

  function Shifted(h: u32, s: nat): u32 {
    Pow2Constants();
    XorBound(h, Shr(h, s), WORD);
    XorShift(h, s)
  }

  function Unshifted(y: u32, s: nat): u32
    requires s > 0
  {
    Pow2Constants();
    UnXorShiftBound(y, s, WORD);
    UnXorShift(y, s)
  }

  function Mix(h: u32): u32 {
    Shifted(WrappingMul(Shifted(WrappingMul(Shifted(h, 16), MIX_A), 13), MIX_B), 16)
  }

  /** The inverse of the finaliser, undoing its five stages from the last. */
  function Unmix(r: u32): u32 {
    Unshifted(WrappingMul(Unshifted(WrappingMul(Unshifted(r, 16), MIX_B_INVERSE), 13), MIX_A_INVERSE), 16)
  }

  lemma ShiftBijective(h: u32, s: nat)
    requires s > 0
    ensures Unshifted(Shifted(h, s), s) == h
    ensures Shifted(Unshifted(h, s), s) == h
  {
    UnXorShiftLeft(h, s);
    UnXorShiftRight(h, s);
  }

  /** The finaliser is a bijection on 32-bit words. */
  lemma MixBijective(h: u32)
    ensures Unmix(Mix(h)) == h
    ensures Mix(Unmix(h)) == h
  {
    MixUndone(h);
    var a := Unshifted(h, 16);
    var b := WrappingMul(a, MIX_B_INVERSE);
    var c := Unshifted(b, 13);
    var d := WrappingMul(c, MIX_A_INVERSE);
    ShiftBijective(d, 16);
    MulBijective(c, MIX_A, MIX_A_INVERSE);
    ShiftBijective(b, 13);
    MulBijective(a, MIX_B, MIX_B_INVERSE);
    ShiftBijective(h, 16);
  }

  lemma MixUndone(h: u32)
    ensures Unmix(Mix(h)) == h
  {
    var a := Shifted(h, 16);
    var b := WrappingMul(a, MIX_A);
    var c := Shifted(b, 13);
    var d := WrappingMul(c, MIX_B);
    ShiftBijective(d, 16);
    MulBijective(c, MIX_B, MIX_B_INVERSE);
    ShiftBijective(b, 13);
    MulBijective(a, MIX_A, MIX_A_INVERSE);
    ShiftBijective(h, 16);
  }

  // ── Hashing a tuple ─────────────────────────────────────────────────

  /** The running hash after folding in `words`, first word first. */
  function Fold(h: u32, words: seq<u32>): u32
    decreases |words|
  {
    if words == [] then h else Fold(FnvStep(h, words[0]), words[1..])
  }

  function Hash(words: seq<u32>): u32 {
    Mix(Fold(FNV_BASIS, words))
  }

  /** The fields folded for an IPv4 tuple: whole addresses, then the ports. */
  function WordsV4(src: Ipv4, dst: Ipv4, srcPort: u16, dstPort: u16): seq<u32> {
    [src, dst, srcPort, dstPort]
  }

  /** The fields folded for an IPv6 tuple: every address octet, then the ports. */
  function WordsV6(src: Ipv6, dst: Ipv6, srcPort: u16, dstPort: u16): seq<u32> {
    src + dst + [srcPort, dstPort]
  }

  /** Different running hashes stay different however many words follow. */
  lemma {:induction false} FoldKeepsApart(g: u32, h: u32, words: seq<u32>)
    requires g != h
    ensures Fold(g, words) != Fold(h, words)
    decreases |words|
  {
    if words != [] {
      var v := words[0];
      FnvStepBijective(g, v);
      FnvStepBijective(h, v);
      FoldKeepsApart(FnvStep(g, v), FnvStep(h, v), words[1..]);
    }
  }

  lemma StepSeparates(h: u32, v: u32, w: u32)
    requires v != w
    ensures FnvStep(h, v) != FnvStep(h, w)
  {
    MulBijective(Xor32(h, v), FNV_PRIME, FNV_INVERSE);
    MulBijective(Xor32(h, w), FNV_PRIME, FNV_INVERSE);
    XorTwice(v, h);
    XorTwice(w, h);
    XorCommutes(v, h);
    XorCommutes(w, h);
  }

  lemma {:induction false} XorCommutes(a: nat, b: nat)
    ensures BitXor(a, b) == BitXor(b, a)
    decreases a + b
  {
    if a > 0 || b > 0 { XorCommutes(a / 2, b / 2); }
  }

  lemma {:induction false} FoldSeparates(h: u32, words: seq<u32>, i: nat, w: u32)
    requires i < |words| && w != words[i]
    ensures Fold(h, words) != Fold(h, words[i := w])
    decreases |words|
  {
    var changed := words[i := w];
    if i == 0 {
      assert changed[1..] == words[1..];
      StepSeparates(h, words[0], w);
      FoldKeepsApart(FnvStep(h, words[0]), FnvStep(h, w), words[1..]);
    } else {
      assert changed[1..] == words[1..][i - 1 := w];
      FoldSeparates(FnvStep(h, words[0]), words[1..], i - 1, w);
    }
  }

  /** Changing exactly one folded field always changes the hash. */
  lemma OneFieldSeparates(words: seq<u32>, i: nat, w: u32)
    requires i < |words| && w != words[i]
    ensures Hash(words) != Hash(words[i := w])
  {
    FoldSeparates(FNV_BASIS, words, i, w);
    MixBijective(Fold(FNV_BASIS, words));
    MixBijective(Fold(FNV_BASIS, words[i := w]));
  }

  /** Two IPv4 tuples that differ in exactly one of the four fields. */
  lemma V4NeighboursApart(src: Ipv4, dst: Ipv4, sp: u16, dp: u16, src': Ipv4, dst': Ipv4, sp': u16, dp': u16)
    requires (if src != src' then 1 else 0) + (if dst != dst' then 1 else 0)
             + (if sp != sp' then 1 else 0) + (if dp != dp' then 1 else 0) == 1
    ensures Hash(WordsV4(src, dst, sp, dp)) != Hash(WordsV4(src', dst', sp', dp'))
  {
    var words, words' := WordsV4(src, dst, sp, dp), WordsV4(src', dst', sp', dp');
    var i := if src != src' then 0 else if dst != dst' then 1 else if sp != sp' then 2 else 3;
    assert words' == words[i := words'[i]];
    OneFieldSeparates(words, i, words'[i]);
  }

  /** Two IPv6 tuples that differ in exactly one octet of one address. */
  lemma V6OctetApart(src: Ipv6, dst: Ipv6, src': Ipv6, dst': Ipv6, sp: u16, dp: u16, i: nat)
    requires i < 32 && (src + dst)[i] != (src' + dst')[i]
    requires forall k :: 0 <= k < 32 && k != i ==> (src + dst)[k] == (src' + dst')[k]
    ensures Hash(WordsV6(src, dst, sp, dp)) != Hash(WordsV6(src', dst', sp, dp))
  {
    var words := WordsV6(src, dst, sp, dp);
    var o := (src' + dst')[i];
    assert src' + dst' == (src + dst)[i := o];
    assert words[i := o] == WordsV6(src', dst', sp, dp);
    OneFieldSeparates(words, i, o);
  }

  /** Two IPv6 tuples that differ in one port. */
  lemma V6PortApart(src: Ipv6, dst: Ipv6, sp: u16, dp: u16, port: u16)
    ensures sp != port ==> Hash(WordsV6(src, dst, sp, dp)) != Hash(WordsV6(src, dst, port, dp))
    ensures dp != port ==> Hash(WordsV6(src, dst, sp, dp)) != Hash(WordsV6(src, dst, sp, port))
  {
    var words := WordsV6(src, dst, sp, dp);
    if sp != port {
      assert words[32 := port] == WordsV6(src, dst, port, dp);
      OneFieldSeparates(words, 32, port);
    }
    if dp != port {
      assert words[33 := port] == WordsV6(src, dst, sp, port);
      OneFieldSeparates(words, 33, port);
    }
  }

  // ── The running-hash implementations ────────────────────────────────

  method Fmix32(x: u32) returns (h: u32)
    ensures h == Mix(x)
  {
    h := Shifted(x, 16);
    h := WrappingMul(h, MIX_A);
    h := Shifted(h, 13);
    h := WrappingMul(h, MIX_B);
    h := Shifted(h, 16);
  }

  lemma {:induction false} FoldLast(h: u32, words: seq<u32>, v: u32)
    ensures Fold(h, words + [v]) == FnvStep(Fold(h, words), v)
    decreases |words|
  {
    if words == [] {
      assert Fold(FnvStep(h, v), []) == FnvStep(h, v);
    } else {
      assert (words + [v])[1..] == words[1..] + [v];
      FoldLast(FnvStep(h, words[0]), words[1..], v);
    }
  }

  method FlowHashV4(src: Ipv4, dst: Ipv4, srcPort: u16, dstPort: u16, cores: u32) returns (core: u32)
    requires cores > 0
    ensures core == Hash(WordsV4(src, dst, srcPort, dstPort)) % cores
    ensures core < cores
  {
    var h := FNV_BASIS;
    h := FnvStep(h, src);
    h := FnvStep(h, dst);
    h := FnvStep(h, srcPort);
    h := FnvStep(h, dstPort);
    FoldLast(FNV_BASIS, [], src);
    FoldLast(FNV_BASIS, [src], dst);
    FoldLast(FNV_BASIS, [src, dst], srcPort);
    FoldLast(FNV_BASIS, [src, dst, srcPort], dstPort);
    assert h == Fold(FNV_BASIS, WordsV4(src, dst, srcPort, dstPort)) by {
      assert [] + [src] == [src];
      assert [src] + [dst] == [src, dst];
      assert [src, dst] + [srcPort] == [src, dst, srcPort];
      assert [src, dst, srcPort] + [dstPort] == [src, dst, srcPort, dstPort];
    }
    h := Fmix32(h);
    core := h % cores;
  }

  method FlowHashV6(src: Ipv6, dst: Ipv6, srcPort: u16, dstPort: u16, cores: u32) returns (core: u32)
    requires cores > 0
    ensures core == Hash(WordsV6(src, dst, srcPort, dstPort)) % cores
    ensures core < cores
  {
    var h := FNV_BASIS;
    var octets := src + dst;
    var i := 0;
    while i < |octets|
      invariant 0 <= i <= |octets|
      invariant h == Fold(FNV_BASIS, octets[..i])
    {
      h := FnvStep(h, octets[i]);
      FoldLast(FNV_BASIS, octets[..i], octets[i]);
      assert octets[..i + 1] == octets[..i] + [octets[i]];
      i := i + 1;
    }
    assert octets[..i] == octets;
    FoldLast(FNV_BASIS, octets, srcPort);
    h := FnvStep(h, srcPort);
    FoldLast(FNV_BASIS, octets + [srcPort], dstPort);
    h := FnvStep(h, dstPort);
    assert octets + [srcPort] + [dstPort] == WordsV6(src, dst, srcPort, dstPort);
    h := Fmix32(h);
    core := h % cores;
  }

  /** The owning core of a tuple; mixed families never come out of one frame. */
  function OwnerOf(src: IpAddr, dst: IpAddr, srcPort: u16, dstPort: u16, cores: u32): (core: u32)
    requires cores > 0
    ensures core < cores
  {
    match (src, dst)
    case (V4(s), V4(d)) => Hash(WordsV4(s, d, srcPort, dstPort)) % cores
    case (V6(s), V6(d)) => Hash(WordsV6(s, d, srcPort, dstPort)) % cores
    case _ => 0
  }

  method FlowOwner(src: IpAddr, dst: IpAddr, srcPort: u16, dstPort: u16, cores: u32) returns (core: u32)
    requires cores > 0
    ensures core == OwnerOf(src, dst, srcPort, dstPort, cores)
  {
    match (src, dst) {
      case (V4(s), V4(d)) => core := FlowHashV4(s, d, srcPort, dstPort, cores);
      case (V6(s), V6(d)) => core := FlowHashV6(s, d, srcPort, dstPort, cores);
      case _ => core := 0;
    }
  }
}
