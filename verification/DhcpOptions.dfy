/** The DHCP option walker (RFC 2132 type-length-value options) and the fixed
    reply header check. */
module DhcpOptions {
  import opened Basics
  import opened Prefix

  const OP_BOOTREPLY: u8 := 2
  const OPT_PAD: u8 := 0
  const OPT_SUBNET: u8 := 1
  const OPT_ROUTER: u8 := 3
  const OPT_DNS: u8 := 6
  const OPT_MSG_TYPE: u8 := 53
  const OPT_SERVER_ID: u8 := 54
  const OPT_END: u8 := 255
  const MAGIC_COOKIE: seq<u8> := [0x63, 0x82, 0x53, 0x63]
  const HEADER_LEN := 240

  datatype ParsedOptions = ParsedOptions(
    msgType: u8, subnet: Option<Ipv4>, gateway: Option<Ipv4>, dns: Option<Ipv4>, serverId: Option<Ipv4>)

  const NOTHING := ParsedOptions(0, None, None, None, None)

  // ── Reference reading ───────────────────────────────────────────────

  datatype Tlv = Tlv(code: u8, value: seq<u8>)

  /** The well-formed options up to the first End or truncation. */
  function Tlvs(opts: seq<u8>): seq<Tlv> {
    if opts == [] || opts[0] == OPT_END then []
    else if opts[0] == OPT_PAD then Tlvs(opts[1..])
    else if |opts| == 1 || 2 + opts[1] as int > |opts| then []
    else [Tlv(opts[0], opts[2..2 + opts[1]])] + Tlvs(opts[2 + opts[1]..])
  }

  function Address(v: seq<u8>): Ipv4
    requires |v| >= 4
  {
    Le32(v[0], v[1], v[2], v[3])
  }

  /** What one option contributes; short values and unknown codes nothing. */
  function Absorb(p: ParsedOptions, t: Tlv): ParsedOptions {
    if t.code == OPT_MSG_TYPE then (if |t.value| > 0 then p.(msgType := t.value[0]) else p)
    else if |t.value| < 4 then p
    else if t.code == OPT_SUBNET then p.(subnet := Some(Address(t.value)))
    else if t.code == OPT_ROUTER then p.(gateway := Some(Address(t.value)))
    else if t.code == OPT_DNS then p.(dns := Some(Address(t.value)))
    else if t.code == OPT_SERVER_ID then p.(serverId := Some(Address(t.value)))
    else p
  }

  /** The left fold of `Absorb` over a list of options. */
  function Collect(p: ParsedOptions, ts: seq<Tlv>): ParsedOptions
    decreases |ts|
  {
    if ts == [] then p else Collect(Absorb(p, ts[0]), ts[1..])
  }

  // ── Which option a field is read from ───────────────────────────────

  predicate Carries(t: Tlv, code: u8, min: nat) {
    t.code == code && |t.value| >= min
  }

  /** Option `i` is the last of its code that is long enough. */
  ghost predicate LastAt(ts: seq<Tlv>, code: u8, min: nat, i: int) {
    && 0 <= i < |ts| && Carries(ts[i], code, min)
    && forall j :: i < j < |ts| ==> !Carries(ts[j], code, min)
  }

  ghost predicate NoneCarries(ts: seq<Tlv>, code: u8, min: nat) {
    forall j :: 0 <= j < |ts| ==> !Carries(ts[j], code, min)
  }

  /** An address field holds the first four bytes of the last option of its code
      that has four, and nothing if there is none. */
  ghost predicate ReadsFrom(field: Option<Ipv4>, ts: seq<Tlv>, code: u8) {
    match field
    case None => NoneCarries(ts, code, 4)
    case Some(a) => exists i :: LastAt(ts, code, 4, i) && Octets4(a) == ts[i].value[..4]
  }

  /** The message type is the first byte of the last option 53 that has one, else 0. */
  ghost predicate TypeFrom(msgType: u8, ts: seq<Tlv>) {
    || (msgType == 0 && NoneCarries(ts, 53, 1))
    || exists i :: LastAt(ts, 53, 1, i) && msgType == ts[i].value[0]
  }

  /** Every field by its code in RFC 2132: subnet mask 1, router 3, DNS server 6,
      message type 53, server identifier 54. */
  ghost predicate ReadsAll(p: ParsedOptions, ts: seq<Tlv>) {
    && ReadsFrom(p.subnet, ts, 1) && ReadsFrom(p.gateway, ts, 3) && ReadsFrom(p.dns, ts, 6)
    && ReadsFrom(p.serverId, ts, 54) && TypeFrom(p.msgType, ts)
  }

  lemma LastSnoc(ts: seq<Tlv>, t: Tlv, code: u8, min: nat)
    ensures Carries(t, code, min) ==> LastAt(ts + [t], code, min, |ts|)
    ensures !Carries(t, code, min) ==> NoneCarries(ts, code, min) ==> NoneCarries(ts + [t], code, min)
    ensures !Carries(t, code, min) ==> forall i :: LastAt(ts, code, min, i) ==> LastAt(ts + [t], code, min, i)
  {
  }

  lemma ReadsSnoc(field: Option<Ipv4>, ts: seq<Tlv>, t: Tlv, code: u8)
    requires ReadsFrom(field, ts, code)
    ensures ReadsFrom(if Carries(t, code, 4) then Some(Address(t.value)) else field, ts + [t], code)
  {
    LastSnoc(ts, t, code, 4);
    if Carries(t, code, 4) {
      AddressOctets(t.value);
      assert LastAt(ts + [t], code, 4, |ts|) && (ts + [t])[|ts|] == t;
    } else if field.Some? {
      var i :| LastAt(ts, code, 4, i) && Octets4(field.value) == ts[i].value[..4];
      assert LastAt(ts + [t], code, 4, i) && (ts + [t])[i] == ts[i];
    }
  }

  lemma AddressOctets(v: seq<u8>)
    requires |v| >= 4
    ensures Octets4(Address(v)) == v[..4]
  {
    OctetsOfLe32(v[0], v[1], v[2], v[3]);
  }

  lemma TypeSnoc(msgType: u8, ts: seq<Tlv>, t: Tlv)
    requires TypeFrom(msgType, ts)
    ensures TypeFrom(if Carries(t, 53, 1) then t.value[0] else msgType, ts + [t])
  {
    LastSnoc(ts, t, 53, 1);
    if Carries(t, 53, 1) {
      assert LastAt(ts + [t], 53, 1, |ts|) && (ts + [t])[|ts|] == t;
    } else if !(msgType == 0 && NoneCarries(ts, 53, 1)) {
      var i :| LastAt(ts, 53, 1, i) && msgType == ts[i].value[0];
      assert LastAt(ts + [t], 53, 1, i) && (ts + [t])[i] == ts[i];
    }
  }

  /** The fold reads every field from the option it should. */
  lemma {:induction false} CollectReads(ts: seq<Tlv>)
    ensures ReadsAll(Collect(NOTHING, ts), ts)
  {
    if ts != [] {
      var n := |ts| - 1;
      var init, t := ts[..n], ts[n];
      var p := Collect(NOTHING, init);
      CollectReads(init);
      assert ts == init + [t];
      CollectAppend(NOTHING, init, [t]);
      assert [t][1..] == [] && Collect(p, [t]) == Absorb(p, t);
      AbsorbReads(p, init, t);
    }
  }

  lemma AbsorbReads(p: ParsedOptions, ts: seq<Tlv>, t: Tlv)
    requires ReadsAll(p, ts)
    ensures ReadsAll(Absorb(p, t), ts + [t])
  {
    ReadsSnoc(p.subnet, ts, t, 1);
    ReadsSnoc(p.gateway, ts, t, 3);
    ReadsSnoc(p.dns, ts, t, 6);
    ReadsSnoc(p.serverId, ts, t, 54);
    TypeSnoc(p.msgType, ts, t);
  }

  // ── The walker ──────────────────────────────────────────────────────

  method Take(p: ParsedOptions, code: u8, val: seq<u8>) returns (out: ParsedOptions)
    ensures out == Absorb(p, Tlv(code, val))
  {
    out := p;
    if code == OPT_SUBNET && |val| >= 4 {
      out := out.(subnet := Some(Address(val)));
    } else if code == OPT_ROUTER && |val| >= 4 {
      out := out.(gateway := Some(Address(val)));
    } else if code == OPT_DNS && |val| >= 4 {
      out := out.(dns := Some(Address(val)));
    } else if code == OPT_MSG_TYPE && |val| > 0 {
      out := out.(msgType := val[0]);
    } else if code == OPT_SERVER_ID && |val| >= 4 {
      out := out.(serverId := Some(Address(val)));
    }
  }

  method ParseOptions(opts: seq<u8>) returns (out: ParsedOptions)
    ensures out == Collect(NOTHING, Tlvs(opts))
    ensures ReadsAll(out, Tlvs(opts))
  {
    out := Walk(opts);
    CollectReads(Tlvs(opts));
  }

  method Walk(opts: seq<u8>) returns (out: ParsedOptions)
    ensures out == Collect(NOTHING, Tlvs(opts))
  {
    out := NOTHING;
    var i := 0;
    while i < |opts|
      invariant 0 <= i <= |opts|
      invariant Collect(out, Tlvs(opts[i..])) == Collect(NOTHING, Tlvs(opts))
    {
      ghost var left := opts[i..];
      var code := opts[i];
      if code == OPT_END { break; }
      if code == OPT_PAD {
        assert opts[i + 1..] == left[1..];
        i := i + 1;
        continue;
      }
      if i + 1 >= |opts| { break; }
      var len := opts[i + 1];
      if i + 2 + len > |opts| { break; }
      var val := opts[i + 2..i + 2 + len];
      OneMore(out, left, val);
      assert opts[i + 2 + len..] == left[2 + len..];
      out := Take(out, code, val);
      i := i + 2 + len;
    }
  }

  /** An option in front is the first one read. */
  lemma FirstOption(code: u8, value: seq<u8>, after: seq<u8>)
    requires code != OPT_PAD && code != OPT_END && |value| < 256
    ensures Tlvs([code, |value|] + value + after) == [Tlv(code, value)] + Tlvs(after)
  {
    var all := [code, |value|] + value + after;
    assert all[2..2 + |value|] == value && all[2 + |value|..] == after;
  }

  lemma OneMore(p: ParsedOptions, left: seq<u8>, val: seq<u8>)
    requires |left| >= 2 && left[0] != OPT_END && left[0] != OPT_PAD && 2 + left[1] as int <= |left|
    requires val == left[2..2 + left[1]]
    ensures Collect(p, Tlvs(left)) == Collect(Absorb(p, Tlv(left[0], val)), Tlvs(left[2 + left[1]..]))
  {
    var t, rest := Tlv(left[0], val), Tlvs(left[2 + left[1]..]);
    assert Tlvs(left) == [t] + rest;
    assert ([t] + rest)[1..] == rest;
  }

  // ── Insertions between options ──────────────────────────────────────

  /** A run of whole options and pads: the walker gets to its end. */
  predicate Whole(block: seq<u8>) {
    || block == []
    || (block[0] == OPT_PAD && Whole(block[1..]))
    || (block[0] != OPT_PAD && block[0] != OPT_END && |block| >= 2 && 2 + block[1] as int <= |block|
        && Whole(block[2 + block[1]..]))
  }

  lemma FirstPad(after: seq<u8>)
    ensures Tlvs([OPT_PAD] + after) == Tlvs(after)
  {
    assert ([OPT_PAD] + after)[1..] == after;
  }

  /** Reading a block and then the rest is reading them in one go. */
  ghost predicate Joins(block: seq<u8>, rest: seq<u8>) {
    Tlvs(block + rest) == Tlvs(block) + Tlvs(rest)
  }

  lemma PadThenRest(block: seq<u8>, tail: seq<u8>, rest: seq<u8>)
    requires block == [OPT_PAD] + tail && Joins(tail, rest)
    ensures Joins(block, rest)
  {
    FirstPad(tail);
    FirstPad(tail + rest);
    Assoc([OPT_PAD], tail, rest);
  }

  lemma {:induction false} WholeJoins(block: seq<u8>, rest: seq<u8>)
    requires Whole(block)
    ensures Joins(block, rest)
  {
    if block == [] {
      assert block + rest == rest;
    } else if block[0] == OPT_PAD {
      WholeJoins(block[1..], rest);
      PadThenRest(block, block[1..], rest);
    } else {
      var value, tail := FirstOf(block);
      WholeJoins(tail, rest);
      OptionThenRest(block, block[0], value, tail, rest);
    }
  }

  lemma TlvsAppend(block: seq<u8>, rest: seq<u8>)
    requires Whole(block)
    ensures Tlvs(block + rest) == Tlvs(block) + Tlvs(rest)
  {
    WholeJoins(block, rest);
  }

  lemma FirstOf(block: seq<u8>) returns (value: seq<u8>, tail: seq<u8>)
    requires Whole(block) && block != [] && block[0] != OPT_PAD
    ensures block[0] != OPT_END && |value| < 256 && |tail| < |block| && Whole(tail)
    ensures block == [block[0], |value|] + value + tail
  {
    var n := 2 + block[1] as int;
    value, tail := block[2..n], block[n..];
  }

  /** One step of the split: the first option of the block is the first of all. */
  lemma OptionThenRest(block: seq<u8>, code: u8, value: seq<u8>, tail: seq<u8>, rest: seq<u8>)
    requires code != OPT_PAD && code != OPT_END && |value| < 256 && block == [code, |value|] + value + tail
    requires Joins(tail, rest)
    ensures Joins(block, rest)
  {
    FirstOption(code, value, tail);
    FirstOption(code, value, tail + rest);
    Assoc([code, |value|] + value, tail, rest);
    Assoc([Tlv(code, value)], Tlvs(tail), Tlvs(rest));
  }

  lemma {:induction false} CollectAppend(p: ParsedOptions, a: seq<Tlv>, b: seq<Tlv>)
    ensures Collect(p, a + b) == Collect(Collect(p, a), b)
    decreases |a|
  {
    if a == [] {
      assert a + b == b;
    } else {
      assert (a + b)[1..] == a[1..] + b;
      CollectAppend(Absorb(p, a[0]), a[1..], b);
    }
  }

  lemma {:induction false} TlvsPads(n: nat, rest: seq<u8>)
    ensures Tlvs(seq(n, _ => OPT_PAD) + rest) == Tlvs(rest)
  {
    var pads := seq(n, _ => OPT_PAD);
    if n == 0 {
      assert pads + rest == rest;
    } else {
      assert (pads + rest)[1..] == seq(n - 1, _ => OPT_PAD) + rest;
      TlvsPads(n - 1, rest);
    }
  }

  /** Any number of pads between two options is invisible. */
  lemma PadsChangeNothing(before: seq<u8>, n: nat, after: seq<u8>)
    requires Whole(before)
    ensures Tlvs(before + (seq(n, _ => OPT_PAD) + after)) == Tlvs(before + after)
  {
    TlvsAppend(before, seq(n, _ => OPT_PAD) + after);
    TlvsAppend(before, after);
    TlvsPads(n, after);
  }

  predicate Known(code: u8) {
    code in {OPT_SUBNET, OPT_ROUTER, OPT_DNS, OPT_MSG_TYPE, OPT_SERVER_ID}
  }

  /** An option the client does not know, between two options, is invisible. */
  lemma UnknownChangesNothing(before: seq<u8>, code: u8, value: seq<u8>, after: seq<u8>)
    requires Whole(before) && !Known(code) && code != OPT_PAD && code != OPT_END && |value| < 256
    ensures Collect(NOTHING, Tlvs(before + ([code, |value|] + value + after))) == Collect(NOTHING, Tlvs(before + after))
  {
    var t, rest := Tlv(code, value), Tlvs(after);
    TlvsAppend(before, [code, |value|] + value + after);
    TlvsAppend(before, after);
    FirstOption(code, value, after);
    CollectAppend(NOTHING, Tlvs(before), [t] + rest);
    CollectAppend(NOTHING, Tlvs(before), rest);
    CollectSkips(Collect(NOTHING, Tlvs(before)), t, rest);
  }

  lemma CollectSkips(p: ParsedOptions, t: Tlv, rest: seq<Tlv>)
    requires !Known(t.code)
    ensures Collect(p, [t] + rest) == Collect(p, rest)
  {
    assert ([t] + rest)[1..] == rest;
  }

  /** Nothing after the End marker is read. */
  lemma EndStops(before: seq<u8>, after: seq<u8>)
    requires Whole(before)
    ensures Tlvs(before + ([OPT_END] + after)) == Tlvs(before)
  {
    TlvsAppend(before, [OPT_END] + after);
    assert Tlvs([OPT_END] + after) == [];
  }

  // ── Writing options ─────────────────────────────────────────────────

  predicate Writable(t: Tlv) {
    t.code != OPT_PAD && t.code != OPT_END && |t.value| < 256
  }

  /** The options `ts` on the wire, followed by `end`. */
  function Written(ts: seq<Tlv>, end: seq<u8>): seq<u8>
    requires forall i :: 0 <= i < |ts| ==> Writable(ts[i])
  {
    if ts == [] then end
    else
      var t := ts[0];
      assert Writable(t);
      var n: u8 := |t.value|;
      [t.code, n] + t.value + Written(ts[1..], end)
  }

  /** Reading back written options. */
  lemma {:induction false} WrittenReadBack(ts: seq<Tlv>, end: seq<u8>)
    requires forall i :: 0 <= i < |ts| ==> Writable(ts[i])
    requires Tlvs(end) == []
    ensures Tlvs(Written(ts, end)) == ts
  {
    if ts != [] {
      WrittenReadBack(ts[1..], end);
      FirstOption(ts[0].code, ts[0].value, Written(ts[1..], end));
      assert [ts[0]] + ts[1..] == ts;
    }
  }

  // ── The fixed header ────────────────────────────────────────────────

  /** The address offered by a reply to transaction `xid`, or nothing for a
      short buffer, a request, another transaction, or a missing cookie. */
  function ValidateHeader(bytes: seq<u8>, xid: u32): (r: Option<Ipv4>)
    ensures r.Some? ==> |bytes| >= HEADER_LEN
  {
    if |bytes| < HEADER_LEN || bytes[0] != OP_BOOTREPLY || bytes[4..8] != Octets4(xid) || bytes[236..240] != MAGIC_COOKIE
    then None
    else Some(Address(bytes[16..20]))
  }

  /** A reply on the wire is taken for exactly the transaction it names, and
      yields exactly the address it offers, whatever its other fields hold. */
  lemma ReplyHeaderRead(op: u8, a: seq<u8>, xid: u32, b: seq<u8>, yiaddr: Ipv4, c: seq<u8>, options: seq<u8>, expected: u32)
    requires |a| == 3 && |b| == 8 && |c| == 216
    ensures ValidateHeader([op] + a + Octets4(xid) + b + Octets4(yiaddr) + c + MAGIC_COOKIE + options, expected)
         == if op == OP_BOOTREPLY && expected == xid then Some(yiaddr) else None
  {
    var bytes := [op] + a + Octets4(xid) + b + Octets4(yiaddr) + c + MAGIC_COOKIE + options;
    assert bytes[0] == op && bytes[4..8] == Octets4(xid);
    assert bytes[16..20] == Octets4(yiaddr);
    assert bytes[236..240] == MAGIC_COOKIE;
    assert Address(Octets4(yiaddr)) == yiaddr && Address(Octets4(xid)) == xid && Address(Octets4(expected)) == expected;
  }
}
