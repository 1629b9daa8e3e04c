/**
  Capabilities and AUTH records: wire layout, signed messages and offline verification.
  Ed25519 and HMAC are function values; what is assumed of them is stated where it is used.
  */
module Capability {
  import opened Bytes

  type u64 = x: int | 0 <= x < U64_LIMIT
  type Bytes16 = s: Octets | |s| == 16 witness seq(16, _ => 0)
  type Bytes32 = s: Octets | |s| == 32 witness seq(32, _ => 0)
  type Bytes64 = s: Octets | |s| == 64 witness seq(64, _ => 0)

  const SUITE_CLASSIC_V1: u8 := 1
  const ROLE_USER: u8 := 0
  const ROLE_RELAY: u8 := 1
  const MAX_SCOPE_LEN: nat := 255
  const CAP_FIXED_LEN: nat := 66
  const CAP_V2_FIXED_LEN: nat := 67

  /** "veil-cap-v1", "veil-cap-v2" and "veil-auth-v1" */
  const CAP_DOMAIN: Octets := [118, 101, 105, 108, 45, 99, 97, 112, 45, 118, 49]
  const CAP_V2_DOMAIN: Octets := [118, 101, 105, 108, 45, 99, 97, 112, 45, 118, 50]
  const AUTH_V3_SIG_DOMAIN: Octets := [118, 101, 105, 108, 45, 97, 117, 116, 104, 45, 118, 49]

  // ---- UTF-8 and little-endian fields ----

  predicate IsTail(b: u8) {
    0x80 <= b <= 0xBF
  }

  /** Well-formed UTF-8 (table 3-7 of the Unicode standard): what `String::from_utf8` accepts. */
  predicate ValidUtf8(s: Octets) {
    if s == [] then true
    else if s[0] < 0x80 then ValidUtf8(s[1..])
    else if 0xC2 <= s[0] <= 0xDF then |s| >= 2 && IsTail(s[1]) && ValidUtf8(s[2..])
    else if 0xE0 <= s[0] <= 0xEF then
      && |s| >= 3 && IsTail(s[1]) && IsTail(s[2])
      && (s[0] == 0xE0 ==> s[1] >= 0xA0) && (s[0] == 0xED ==> s[1] <= 0x9F)
      && ValidUtf8(s[3..])
    else if 0xF0 <= s[0] <= 0xF4 then
      && |s| >= 4 && IsTail(s[1]) && IsTail(s[2]) && IsTail(s[3])
      && (s[0] == 0xF0 ==> s[1] >= 0x90) && (s[0] == 0xF4 ==> s[1] <= 0x8F)
      && ValidUtf8(s[4..])
    else false
  }

  type Utf8 = s: Octets | ValidUtf8(s) witness []

  function Le(x: nat, n: nat): (s: Octets)
    ensures |s| == n
  {
    if n == 0 then [] else [x % 256] + Le(x / 256, n - 1)
  }

  function FromLe(s: Octets): nat {
    if s == [] then 0 else s[0] + 256 * FromLe(s[1..])
  }

  function Pow256(n: nat): nat {
    if n == 0 then 1 else 256 * Pow256(n - 1)
  }

  lemma {:induction false} LeInverse(x: nat, n: nat)
    requires x < Pow256(n)
    ensures FromLe(Le(x, n)) == x
  {
    if n > 0 {
      LeInverse(x / 256, n - 1);
      assert Le(x, n)[1..] == Le(x / 256, n - 1);
    }
  }

  lemma LowByte(b: u8, v: nat)
    ensures (b + 256 * v) % 256 == b && (b + 256 * v) / 256 == v
  {
  }

  lemma {:induction false} FromLeInverse(s: Octets)
    ensures Le(FromLe(s), |s|) == s && FromLe(s) < Pow256(|s|)
  {
    if s != [] {
      FromLeInverse(s[1..]);
      var v := FromLe(s[1..]);
      LowByte(s[0], v);
      assert Le(FromLe(s), |s|) == [s[0]] + Le(v, |s| - 1);
    }
  }

  lemma Pow256Is64()
    ensures Pow256(8) == U64_LIMIT
  {
    assert Pow256(2) == 0x1_0000 && Pow256(4) == 0x1_0000_0000 && Pow256(6) == 0x1_0000_0000_0000;
  }

  function Le64(x: u64): (s: Octets)
    ensures |s| == 8
  {
    Le(x, 8)
  }

  function FromLe64(s: Octets): u64
    requires |s| == 8
  {
    FromLeInverse(s);
    Pow256Is64();
    FromLe(s)
  }

  /** Eight bytes and a u64 are the same thing. */
  lemma Le64Exactly(s: Octets, x: u64)
    requires |s| == 8
    ensures FromLe64(s) == x <==> s == Le64(x)
  {
    hide Le, FromLe, Pow256;
    Pow256Is64();
    LeInverse(x, 8);
    FromLeInverse(s);
  }

  // ---- Records ----

  datatype Ticket = Ticket(ticketId: Bytes16, authKey: Bytes32, notBefore: u64, notAfter: u64, suiteId: u8)

  /** The bearer capability (B2) and its AUTH v2 record. */
  datatype Cap = Cap(ticket: Ticket, scope: Utf8, sig: Bytes64)
  datatype AuthV2 = AuthV2(cap: Cap, authcode: Bytes32)

  /** The key-bound capability (B1) and its AUTH v3 record. */
  datatype CapV2 = CapV2(
    ticketId: Bytes16, veilPk: Bytes32, role: u8, notBefore: u64, notAfter: u64, suiteId: u8, scope: Utf8, sig: Bytes64)
  datatype AuthV3 = AuthV3(cap: CapV2, clientSig: Bytes64)

  // ---- Signed messages ----

  function CapMessage(t: Ticket, scope: Utf8): Octets {
    CAP_DOMAIN + t.ticketId + t.authKey + Le64(t.notBefore) + Le64(t.notAfter) + [t.suiteId] + scope
  }

  function CapV2Message(c: CapV2): Octets {
    CAP_V2_DOMAIN + c.ticketId + c.veilPk + [c.role] + Le64(c.notBefore) + Le64(c.notAfter) + [c.suiteId] + c.scope
  }

  function AuthV3Message(c: CapV2, exporter: Bytes32): Octets {
    AUTH_V3_SIG_DOMAIN + exporter + c.ticketId + Le64(c.notAfter)
  }

  function AuthcodeMessage(t: Ticket, exporter: Bytes32): Octets {
    exporter + t.ticketId + Le64(t.notAfter)
  }

  lemma Le64Injective(x: u64, y: u64)
    requires Le64(x) == Le64(y)
    ensures x == y
  {
    hide Le64, FromLe64;
    Le64Exactly(Le64(x), x);
    Le64Exactly(Le64(x), y);
  }

  /** Two concatenations with equally long first parts agree part by part. */
  lemma SplitEqual(a: Octets, b: Octets, a': Octets, b': Octets)
    requires |a| == |a'| && a + b == a' + b'
    ensures a == a' && b == b'
  {
    assert a == (a + b)[..|a|] && b == (a + b)[|a|..];
    assert a' == (a' + b')[..|a|] && b' == (a' + b')[|a|..];
  }

  /** The bearer message determines every signed field. */
  lemma CapMessageInjective(t: Ticket, scope: Utf8, t': Ticket, scope': Utf8)
    requires CapMessage(t, scope) == CapMessage(t', scope')
    ensures t == t' && scope == scope'
  {
    hide Le64;
    var p5, p5' := CAP_DOMAIN + t.ticketId + t.authKey + Le64(t.notBefore) + Le64(t.notAfter),
                   CAP_DOMAIN + t'.ticketId + t'.authKey + Le64(t'.notBefore) + Le64(t'.notAfter);
    SplitEqual(p5 + [t.suiteId], scope, p5' + [t'.suiteId], scope');
    SplitEqual(p5, [t.suiteId], p5', [t'.suiteId]);
    var p3, p3' := CAP_DOMAIN + t.ticketId + t.authKey, CAP_DOMAIN + t'.ticketId + t'.authKey;
    SplitEqual(p3 + Le64(t.notBefore), Le64(t.notAfter), p3' + Le64(t'.notBefore), Le64(t'.notAfter));
    SplitEqual(p3, Le64(t.notBefore), p3', Le64(t'.notBefore));
    SplitEqual(CAP_DOMAIN + t.ticketId, t.authKey, CAP_DOMAIN + t'.ticketId, t'.authKey);
    SplitEqual(CAP_DOMAIN, t.ticketId, CAP_DOMAIN, t'.ticketId);
    Le64Injective(t.notBefore, t'.notBefore);
    Le64Injective(t.notAfter, t'.notAfter);
  }

  /** The key-bound message determines every signed field, the role among them. */
  lemma CapV2MessageInjective(c: CapV2, d: CapV2)
    requires CapV2Message(c) == CapV2Message(d)
    ensures c == d.(sig := c.sig)
  {
    hide Le64;
    var p4, q4 := CAP_V2_DOMAIN + c.ticketId + c.veilPk + [c.role], CAP_V2_DOMAIN + d.ticketId + d.veilPk + [d.role];
    var p6, q6 := p4 + Le64(c.notBefore) + Le64(c.notAfter), q4 + Le64(d.notBefore) + Le64(d.notAfter);
    SplitEqual(p6 + [c.suiteId], c.scope, q6 + [d.suiteId], d.scope);
    SplitEqual(p6, [c.suiteId], q6, [d.suiteId]);
    SplitEqual(p4 + Le64(c.notBefore), Le64(c.notAfter), q4 + Le64(d.notBefore), Le64(d.notAfter));
    SplitEqual(p4, Le64(c.notBefore), q4, Le64(d.notBefore));
    SplitEqual(CAP_V2_DOMAIN + c.ticketId + c.veilPk, [c.role], CAP_V2_DOMAIN + d.ticketId + d.veilPk, [d.role]);
    SplitEqual(CAP_V2_DOMAIN + c.ticketId, c.veilPk, CAP_V2_DOMAIN + d.ticketId, d.veilPk);
    SplitEqual(CAP_V2_DOMAIN, c.ticketId, CAP_V2_DOMAIN, d.ticketId);
    Le64Injective(c.notBefore, d.notBefore);
    Le64Injective(c.notAfter, d.notAfter);
  }

  /** The client's message determines the session, the ticket and its expiry. */
  lemma AuthV3MessageInjective(c: CapV2, e: Bytes32, d: CapV2, e': Bytes32)
    requires AuthV3Message(c, e) == AuthV3Message(d, e')
    ensures e == e' && c.ticketId == d.ticketId && c.notAfter == d.notAfter
  {
    hide Le64;
    var p2, q2 := AUTH_V3_SIG_DOMAIN + e + c.ticketId, AUTH_V3_SIG_DOMAIN + e' + d.ticketId;
    SplitEqual(p2, Le64(c.notAfter), q2, Le64(d.notAfter));
    SplitEqual(AUTH_V3_SIG_DOMAIN + e, c.ticketId, AUTH_V3_SIG_DOMAIN + e', d.ticketId);
    SplitEqual(AUTH_V3_SIG_DOMAIN, e, AUTH_V3_SIG_DOMAIN, e');
    Le64Injective(c.notAfter, d.notAfter);
  }

  /** The authcode's message determines the session, the ticket and its expiry. */
  lemma AuthcodeMessageInjective(t: Ticket, e: Bytes32, t': Ticket, e': Bytes32)
    requires AuthcodeMessage(t, e) == AuthcodeMessage(t', e')
    ensures e == e' && t.ticketId == t'.ticketId && t.notAfter == t'.notAfter
  {
    hide Le64;
    SplitEqual(e + t.ticketId, Le64(t.notAfter), e' + t'.ticketId, Le64(t'.notAfter));
    SplitEqual(e, t.ticketId, e', t'.ticketId);
    Le64Injective(t.notAfter, t'.notAfter);
  }

  /** No message of one kind is a message of another: a signature never crosses domains. */
  lemma DomainsDisjoint(t: Ticket, scope: Utf8, c: CapV2, d: CapV2, e: Bytes32)
    ensures CapMessage(t, scope) != CapV2Message(c)
    ensures CapMessage(t, scope) != AuthV3Message(d, e)
    ensures CapV2Message(c) != AuthV3Message(d, e)
  {
    assert CapMessage(t, scope)[10] == 49 && CapMessage(t, scope)[5] == 99;
    assert CapV2Message(c)[10] == 50 && CapV2Message(c)[5] == 99;
    assert AuthV3Message(d, e)[5] == 97;
  }

  // ---- Wire layout ----

  /** The blob of a bearer capability; `encode` panics on a scope the length byte cannot hold. */
  function EncodeCap(c: Cap): Octets
    requires |c.scope| <= MAX_SCOPE_LEN
  {
    c.ticket.ticketId + c.ticket.authKey + Le64(c.ticket.notBefore) + Le64(c.ticket.notAfter)
    + [c.ticket.suiteId] + [|c.scope|] + c.scope + c.sig
  }

  function EncodeV2(r: AuthV2): Octets
    requires |r.cap.scope| <= MAX_SCOPE_LEN
  {
    EncodeCap(r.cap) + r.authcode
  }

  function EncodeCapV2(c: CapV2): Octets
    requires |c.scope| <= MAX_SCOPE_LEN
  {
    c.ticketId + c.veilPk + [c.role] + Le64(c.notBefore) + Le64(c.notAfter)
    + [c.suiteId] + [|c.scope|] + c.scope + c.sig
  }

  function EncodeV3(r: AuthV3): Octets
    requires |r.cap.scope| <= MAX_SCOPE_LEN
  {
    EncodeCapV2(r.cap) + r.clientSig
  }

  /** Where the scope lies in a bearer blob, whatever follows it: the blob ends where it says it ends. */
  lemma CapShape(c: Cap, tail: Octets)
    requires |c.scope| <= MAX_SCOPE_LEN
    ensures var p, n := EncodeCap(c) + tail, |c.scope|;
            |EncodeCap(c)| == CAP_FIXED_LEN + n + 64 && p[65] == n && p[66..66 + n] == c.scope
  {
    hide Le64, ValidUtf8;
    var t := c.ticket;
    var head := t.ticketId + t.authKey + Le64(t.notBefore) + Le64(t.notAfter) + [t.suiteId];
    assert |head| == 65;
    assert EncodeCap(c) + tail == head + ([|c.scope|] + c.scope + (c.sig + tail));
  }

  /** The same of a key-bound blob. */
  lemma CapV2Shape(c: CapV2, tail: Octets)
    requires |c.scope| <= MAX_SCOPE_LEN
    ensures var p, n := EncodeCapV2(c) + tail, |c.scope|;
            |EncodeCapV2(c)| == CAP_V2_FIXED_LEN + n + 64 && p[66] == n && p[67..67 + n] == c.scope
  {
    hide Le64, ValidUtf8;
    var head := c.ticketId + c.veilPk + [c.role] + Le64(c.notBefore) + Le64(c.notAfter) + [c.suiteId];
    assert |head| == 66;
    assert EncodeCapV2(c) + tail == head + ([|c.scope|] + c.scope + (c.sig + tail));
  }

  /** A read cursor over a payload; the caller has checked that the bytes are there. */
  class Cursor {
    var left: Octets

    constructor (data: Octets)
      ensures left == data
    {
      left := data;
    }

    method Take(n: nat) returns (s: Octets)
      requires n <= |left|
      modifies this
      ensures |s| == n && s + left == old(left)
    {
      s, left := left[..n], left[n..];
    }

    method TakeU8() returns (b: u8)
      requires 1 <= |left|
      modifies this
      ensures [b] + left == old(left)
    {
      b, left := left[0], left[1..];
    }

    method TakeU64() returns (x: u64)
      requires 8 <= |left|
      modifies this
      ensures Le64(x) + left == old(left)
    {
      hide Le64, FromLe64;
      var s := Take(8);
      x := FromLe64(s);
      Le64Exactly(s, x);
    }
  }

  /** Consumes one bearer blob, or fails exactly when the data starts with none. */
  method DecodeCap(data: Cursor) returns (r: Option<Cap>)
    modifies data
    ensures r.Some? ==> |r.value.scope| <= MAX_SCOPE_LEN && old(data.left) == EncodeCap(r.value) + data.left
    ensures r.None? ==>
              forall c: Cap, tail: Octets :: |c.scope| <= MAX_SCOPE_LEN ==> old(data.left) != EncodeCap(c) + tail
  {
    hide Le64, ValidUtf8, EncodeCap;
    ghost var all := data.left;
    forall c: Cap, tail: Octets | |c.scope| <= MAX_SCOPE_LEN && all == EncodeCap(c) + tail
      ensures |all| >= 130 + |c.scope| && all[65] == |c.scope| && all[66..66 + |c.scope|] == c.scope
    {
      CapShape(c, tail);
    }
    if |data.left| < CAP_FIXED_LEN {
      return None;
    }
    var ticketId := data.Take(16);
    var authKey := data.Take(32);
    var notBefore := data.TakeU64();
    var notAfter := data.TakeU64();
    var suiteId := data.TakeU8();
    var scopeLen: int := data.TakeU8();
    ghost var head := ticketId + authKey + Le64(notBefore) + Le64(notAfter) + [suiteId];
    assert all == head + ([scopeLen] + data.left);
    if |data.left| < scopeLen + 64 {
      return None;
    }
    var scope := data.Take(scopeLen);
    assert all == head + [scopeLen] + scope + data.left;
    if !ValidUtf8(scope) {
      assert all[66..66 + scopeLen] == scope;
      return None;
    }
    var sig := data.Take(64);
    r := Some(Cap(Ticket(ticketId, authKey, notBefore, notAfter, suiteId), scope, sig));
    JoinCap(r.value, head, data.left);
  }

  lemma JoinCap(c: Cap, head: Octets, tail: Octets)
    requires |c.scope| <= MAX_SCOPE_LEN
    requires head == c.ticket.ticketId + c.ticket.authKey + Le64(c.ticket.notBefore) + Le64(c.ticket.notAfter)
                     + [c.ticket.suiteId]
    ensures head + [|c.scope|] + c.scope + (c.sig + tail) == EncodeCap(c) + tail
  {
  }

  /** Consumes one key-bound blob, or fails exactly when the data starts with none. */
  method DecodeCapV2(data: Cursor) returns (r: Option<CapV2>)
    modifies data
    ensures r.Some? ==> |r.value.scope| <= MAX_SCOPE_LEN && old(data.left) == EncodeCapV2(r.value) + data.left
    ensures r.None? ==>
              forall c: CapV2, tail: Octets :: |c.scope| <= MAX_SCOPE_LEN ==> old(data.left) != EncodeCapV2(c) + tail
  {
    hide Le64, ValidUtf8, EncodeCapV2;
    ghost var all := data.left;
    forall c: CapV2, tail: Octets | |c.scope| <= MAX_SCOPE_LEN && all == EncodeCapV2(c) + tail
      ensures |all| >= 131 + |c.scope| && all[66] == |c.scope| && all[67..67 + |c.scope|] == c.scope
    {
      CapV2Shape(c, tail);
    }
    if |data.left| < CAP_V2_FIXED_LEN {
      return None;
    }
    var ticketId := data.Take(16);
    var veilPk := data.Take(32);
    var role := data.TakeU8();
    var notBefore := data.TakeU64();
    var notAfter := data.TakeU64();
    var suiteId := data.TakeU8();
    var scopeLen: int := data.TakeU8();
    ghost var head := ticketId + veilPk + [role] + Le64(notBefore) + Le64(notAfter) + [suiteId];
    assert all == head + ([scopeLen] + data.left);
    if |data.left| < scopeLen + 64 {
      return None;
    }
    var scope := data.Take(scopeLen);
    assert all == head + [scopeLen] + scope + data.left;
    if !ValidUtf8(scope) {
      assert all[67..67 + scopeLen] == scope;
      return None;
    }
    var sig := data.Take(64);
    r := Some(CapV2(ticketId, veilPk, role, notBefore, notAfter, suiteId, scope, sig));
    JoinCapV2(r.value, head, data.left);
  }

  lemma JoinCapV2(c: CapV2, head: Octets, tail: Octets)
    requires |c.scope| <= MAX_SCOPE_LEN
    requires head == c.ticketId + c.veilPk + [c.role] + Le64(c.notBefore) + Le64(c.notAfter) + [c.suiteId]
    ensures head + [|c.scope|] + c.scope + (c.sig + tail) == EncodeCapV2(c) + tail
  {
  }

  /** `decode_payload` of AUTH v2: accepts exactly the images of `encode_payload`, and inverts it. */
  method DecodeV2(payload: Octets) returns (r: Option<AuthV2>)
    ensures r.Some? ==> |r.value.cap.scope| <= MAX_SCOPE_LEN && payload == EncodeV2(r.value)
    ensures r.None? ==> forall a: AuthV2 :: |a.cap.scope| <= MAX_SCOPE_LEN ==> payload != EncodeV2(a)
  {
    hide EncodeCap, ValidUtf8;
    var data := new Cursor(payload);
    var cap := DecodeCap(data);
    if cap.None? {
      return None;
    }
    if |data.left| != 32 {
      forall a: AuthV2 | |a.cap.scope| <= MAX_SCOPE_LEN
        ensures payload != EncodeV2(a)
      {
        CapShape(cap.value, data.left);
        CapShape(a.cap, a.authcode);
      }
      return None;
    }
    var authcode := data.left;
    r := Some(AuthV2(cap.value, authcode));
  }

  /** `decode_payload` of AUTH v3: accepts exactly the images of `encode_payload`, and inverts it. */
  method DecodeV3(payload: Octets) returns (r: Option<AuthV3>)
    ensures r.Some? ==> |r.value.cap.scope| <= MAX_SCOPE_LEN && payload == EncodeV3(r.value)
    ensures r.None? ==> forall a: AuthV3 :: |a.cap.scope| <= MAX_SCOPE_LEN ==> payload != EncodeV3(a)
  {
    hide EncodeCapV2, ValidUtf8;
    var data := new Cursor(payload);
    var cap := DecodeCapV2(data);
    if cap.None? {
      return None;
    }
    if |data.left| != 64 {
      forall a: AuthV3 | |a.cap.scope| <= MAX_SCOPE_LEN
        ensures payload != EncodeV3(a)
      {
        CapV2Shape(cap.value, data.left);
        CapV2Shape(a.cap, a.clientSig);
      }
      return None;
    }
    var clientSig := data.left;
    r := Some(AuthV3(cap.value, clientSig));
  }

  /** `encode_payload` of AUTH v2. */
  method EncodePayloadV2(r: AuthV2) returns (payload: Octets)
    requires |r.cap.scope| <= MAX_SCOPE_LEN
    ensures payload == EncodeV2(r)
  {
    hide Le64, ValidUtf8;
    var buf := new Buffer([]);
    buf.PutSlice(r.cap.ticket.ticketId);
    buf.PutSlice(r.cap.ticket.authKey);
    buf.PutSlice(Le64(r.cap.ticket.notBefore));
    buf.PutSlice(Le64(r.cap.ticket.notAfter));
    buf.PutU8(r.cap.ticket.suiteId);
    buf.PutU8(|r.cap.scope|);
    buf.PutSlice(r.cap.scope);
    buf.PutSlice(r.cap.sig);
    buf.PutSlice(r.authcode);
    payload := buf.bytes;
  }

  /** `encode_payload` of AUTH v3. */
  method EncodePayloadV3(r: AuthV3) returns (payload: Octets)
    requires |r.cap.scope| <= MAX_SCOPE_LEN
    ensures payload == EncodeV3(r)
  {
    hide Le64, ValidUtf8;
    var buf := new Buffer([]);
    buf.PutSlice(r.cap.ticketId);
    buf.PutSlice(r.cap.veilPk);
    buf.PutU8(r.cap.role);
    buf.PutSlice(Le64(r.cap.notBefore));
    buf.PutSlice(Le64(r.cap.notAfter));
    buf.PutU8(r.cap.suiteId);
    buf.PutU8(|r.cap.scope|);
    buf.PutSlice(r.cap.scope);
    buf.PutSlice(r.cap.sig);
    buf.PutSlice(r.clientSig);
    payload := buf.bytes;
  }

  /** No two bearer records share a payload. */
  lemma EncodeV2Injective(a: AuthV2, b: AuthV2)
    requires |a.cap.scope| <= MAX_SCOPE_LEN && |b.cap.scope| <= MAX_SCOPE_LEN && EncodeV2(a) == EncodeV2(b)
    ensures a == b
  {
    CapShape(a.cap, a.authcode);
    CapShape(b.cap, b.authcode);
    SplitEqual(EncodeCap(a.cap), a.authcode, EncodeCap(b.cap), b.authcode);
    EncodeCapInjective(a.cap, b.cap);
  }

  lemma EncodeCapInjective(c: Cap, d: Cap)
    requires |c.scope| <= MAX_SCOPE_LEN && c.scope == d.scope && EncodeCap(c) == EncodeCap(d)
    ensures c == d
  {
    hide Le64, ValidUtf8;
    var p, q := c.ticket, d.ticket;
    var h, g := p.ticketId + p.authKey + Le64(p.notBefore) + Le64(p.notAfter),
                q.ticketId + q.authKey + Le64(q.notBefore) + Le64(q.notAfter);
    var u, v := [|c.scope|] + c.scope, [|d.scope|] + d.scope;
    assert EncodeCap(c) == h + [p.suiteId] + (u + c.sig) && EncodeCap(d) == g + [q.suiteId] + (v + d.sig);
    SplitEqual(h + [p.suiteId], u + c.sig, g + [q.suiteId], v + d.sig);
    SplitEqual(u, c.sig, v, d.sig);
    assert CapMessage(p, c.scope) == CAP_DOMAIN + (h + [p.suiteId]) + c.scope;
    assert CapMessage(q, c.scope) == CAP_DOMAIN + (g + [q.suiteId]) + c.scope;
    CapMessageInjective(p, c.scope, q, c.scope);
  }

  /** No two key-bound records share a payload. */
  lemma EncodeV3Injective(a: AuthV3, b: AuthV3)
    requires |a.cap.scope| <= MAX_SCOPE_LEN && |b.cap.scope| <= MAX_SCOPE_LEN && EncodeV3(a) == EncodeV3(b)
    ensures a == b
  {
    CapV2Shape(a.cap, a.clientSig);
    CapV2Shape(b.cap, b.clientSig);
    SplitEqual(EncodeCapV2(a.cap), a.clientSig, EncodeCapV2(b.cap), b.clientSig);
    EncodeCapV2Injective(a.cap, b.cap);
  }

  lemma EncodeCapV2Injective(c: CapV2, d: CapV2)
    requires |c.scope| <= MAX_SCOPE_LEN && c.scope == d.scope && EncodeCapV2(c) == EncodeCapV2(d)
    ensures c == d
  {
    hide Le64, ValidUtf8;
    var h, g := c.ticketId + c.veilPk + [c.role] + Le64(c.notBefore) + Le64(c.notAfter),
                d.ticketId + d.veilPk + [d.role] + Le64(d.notBefore) + Le64(d.notAfter);
    var u, v := [|c.scope|] + c.scope, [|d.scope|] + d.scope;
    assert EncodeCapV2(c) == h + [c.suiteId] + (u + c.sig) && EncodeCapV2(d) == g + [d.suiteId] + (v + d.sig);
    SplitEqual(h + [c.suiteId], u + c.sig, g + [d.suiteId], v + d.sig);
    SplitEqual(u, c.sig, v, d.sig);
    assert CapV2Message(c) == CAP_V2_DOMAIN + (h + [c.suiteId]) + c.scope;
    assert CapV2Message(d) == CAP_V2_DOMAIN + (g + [d.suiteId]) + c.scope;
    CapV2MessageInjective(c, d);
  }

  // ---- Issuing and verifying ----

  /** Ed25519 and HMAC-SHA-256, as functions; `verify` is false on a key that does not parse. */
  datatype Crypto = Crypto(
    publicKey: Bytes32 -> Bytes32,
    sign: (Bytes32, Octets) -> Bytes64,
    verify: (Bytes32, Octets, Bytes64) -> bool,
    hmac: (Bytes32, Octets) -> Bytes32)

  datatype Issued<T> = Ok(cap: T) | ScopeTooLong(len: nat)

  predicate ScopeMatches(capScope: Octets, relayScope: Octets) {
    capScope == [] || relayScope == [] || capScope == relayScope
  }

  function Sign(k: Crypto, t: Ticket, scope: Utf8, seed: Bytes32): Issued<Cap> {
    if |scope| > MAX_SCOPE_LEN then ScopeTooLong(|scope|)
    else Ok(Cap(t, scope, k.sign(seed, CapMessage(t, scope))))
  }

  /** `draft` carries the fields to sign; its signature is ignored. */
  function SignV2(k: Crypto, draft: CapV2, seed: Bytes32): Issued<CapV2> {
    if |draft.scope| > MAX_SCOPE_LEN then ScopeTooLong(|draft.scope|)
    else Ok(draft.(sig := k.sign(seed, CapV2Message(draft))))
  }

  function FromCapability(k: Crypto, cap: Cap, exporter: Bytes32): AuthV2 {
    AuthV2(cap, k.hmac(cap.ticket.authKey, AuthcodeMessage(cap.ticket, exporter)))
  }

  function FromCapabilityV2(k: Crypto, cap: CapV2, veilSk: Bytes32, exporter: Bytes32): AuthV3 {
    AuthV3(cap, k.sign(veilSk, AuthV3Message(cap, exporter)))
  }

  predicate VerifyV2(k: Crypto, r: AuthV2, issuer: Bytes32, relayScope: Octets, exporter: Bytes32, now: nat) {
    var t := r.cap.ticket;
    if !(t.notBefore <= now <= t.notAfter) || t.suiteId != SUITE_CLASSIC_V1 || !ScopeMatches(r.cap.scope, relayScope)
    then false
    else if !k.verify(issuer, CapMessage(t, r.cap.scope), r.cap.sig) then false
    else k.hmac(t.authKey, AuthcodeMessage(t, exporter)) == r.authcode
  }

  predicate VerifyV3(k: Crypto, r: AuthV3, issuer: Bytes32, relayScope: Octets, role: u8, exporter: Bytes32, now: nat) {
    var c := r.cap;
    if c.role != role || !(c.notBefore <= now <= c.notAfter) || c.suiteId != SUITE_CLASSIC_V1
       || !ScopeMatches(c.scope, relayScope)
    then false
    else if !k.verify(issuer, CapV2Message(c), c.sig) then false
    else k.verify(c.veilPk, AuthV3Message(c, exporter), r.clientSig)
  }

  /** An ideal signature among `messages`: it verifies for the message it was made for and for no other. */
  ghost predicate IdealAmong(k: Crypto, seed: Bytes32, messages: iset<Octets>) {
    forall m, m' :: m in messages && m' in messages ==> (k.verify(k.publicKey(seed), m', k.sign(seed, m)) <==> m == m')
  }

  /** What the holder of `c` may be asked to sign: one message per TLS session. */
  ghost function ClientMessages(c: CapV2): iset<Octets> {
    iset e: Bytes32 :: AuthV3Message(c, e)
  }

  /**
    An honestly issued and presented AUTH v3 record verifies exactly when role, window,
    suite, scope and TLS session all match.
    */
  lemma HonestV3VerifiesExactly(k: Crypto, draft: CapV2, issuerSeed: Bytes32, veilSk: Bytes32,
                                relayScope: Octets, role: u8, mine: Bytes32, theirs: Bytes32, now: nat)
    requires SignV2(k, draft, issuerSeed).Ok? && draft.veilPk == k.publicKey(veilSk)
    requires IdealAmong(k, issuerSeed, iset{CapV2Message(draft)})
    requires IdealAmong(k, veilSk, ClientMessages(draft))
    ensures var c := SignV2(k, draft, issuerSeed).cap;
            var r := FromCapabilityV2(k, c, veilSk, mine);
            VerifyV3(k, r, k.publicKey(issuerSeed), relayScope, role, theirs, now) <==>
              && c.role == role && c.notBefore <= now <= c.notAfter && c.suiteId == SUITE_CLASSIC_V1
              && (c.scope == [] || relayScope == [] || c.scope == relayScope)
              && mine == theirs
  {
    hide ValidUtf8, Le64;
    var c := SignV2(k, draft, issuerSeed).cap;
    assert CapV2Message(c) == CapV2Message(draft);
    assert AuthV3Message(c, mine) == AuthV3Message(draft, mine);
    assert AuthV3Message(c, theirs) == AuthV3Message(draft, theirs);
    assert AuthV3Message(c, mine) in ClientMessages(draft) && AuthV3Message(c, theirs) in ClientMessages(draft);
    if AuthV3Message(c, mine) == AuthV3Message(c, theirs) {
      AuthV3MessageInjective(c, mine, c, theirs);
    }
  }

  /** Under one ticket's key, different messages have different authcodes. */
  ghost predicate AuthcodesDiffer(k: Crypto, t: Ticket) {
    forall e, e' :: k.hmac(t.authKey, AuthcodeMessage(t, e)) == k.hmac(t.authKey, AuthcodeMessage(t, e')) ==>
                      AuthcodeMessage(t, e) == AuthcodeMessage(t, e')
  }

  /** The bearer record: the same, with the session bound by the authcode. */
  lemma HonestV2VerifiesExactly(k: Crypto, t: Ticket, scope: Utf8, issuerSeed: Bytes32,
                                relayScope: Octets, mine: Bytes32, theirs: Bytes32, now: nat)
    requires Sign(k, t, scope, issuerSeed).Ok?
    requires IdealAmong(k, issuerSeed, iset{CapMessage(t, scope)})
    requires AuthcodesDiffer(k, t)
    ensures var c := Sign(k, t, scope, issuerSeed).cap;
            VerifyV2(k, FromCapability(k, c, mine), k.publicKey(issuerSeed), relayScope, theirs, now) <==>
              && t.notBefore <= now <= t.notAfter && t.suiteId == SUITE_CLASSIC_V1
              && (scope == [] || relayScope == [] || scope == relayScope)
              && mine == theirs
  {
    hide ValidUtf8, Le64;
    if AuthcodeMessage(t, mine) == AuthcodeMessage(t, theirs) {
      AuthcodeMessageInjective(t, mine, t, theirs);
    }
  }

  /**
    An issued signature moves to no other capability: changing any field, the role for one,
    makes every record built on it fail at every relay of that issuer.
    */
  lemma AlteredCapabilityRejected(k: Crypto, draft: CapV2, other: CapV2, issuerSeed: Bytes32, clientSig: Bytes64,
                                  relayScope: Octets, role: u8, exporter: Bytes32, now: nat)
    requires SignV2(k, draft, issuerSeed).Ok?
    requires IdealAmong(k, issuerSeed, iset{CapV2Message(draft), CapV2Message(other)})
    requires other.sig == SignV2(k, draft, issuerSeed).cap.sig && other != SignV2(k, draft, issuerSeed).cap
    ensures !VerifyV3(k, AuthV3(other, clientSig), k.publicKey(issuerSeed), relayScope, role, exporter, now)
  {
    hide ValidUtf8, Le64;
    if CapV2Message(draft) == CapV2Message(other) {
      CapV2MessageInjective(draft, other);
    }
  }

  /** Nor does a bearer signature, whatever authcode comes with it. */
  lemma AlteredBearerRejected(k: Crypto, t: Ticket, scope: Utf8, other: Cap, issuerSeed: Bytes32, authcode: Bytes32,
                              relayScope: Octets, exporter: Bytes32, now: nat)
    requires Sign(k, t, scope, issuerSeed).Ok?
    requires IdealAmong(k, issuerSeed, iset{CapMessage(t, scope), CapMessage(other.ticket, other.scope)})
    requires other.sig == Sign(k, t, scope, issuerSeed).cap.sig && other != Sign(k, t, scope, issuerSeed).cap
    ensures !VerifyV2(k, AuthV2(other, authcode), k.publicKey(issuerSeed), relayScope, exporter, now)
  {
    hide ValidUtf8, Le64;
    if CapMessage(t, scope) == CapMessage(other.ticket, other.scope) {
      CapMessageInjective(t, scope, other.ticket, other.scope);
    }
  }

  /** A capability is issued exactly when its scope fits the length byte, with the fields asked for. */
  lemma IssuedExactly(k: Crypto, t: Ticket, scope: Utf8, draft: CapV2, seed: Bytes32)
    ensures Sign(k, t, scope, seed).Ok? <==> |scope| <= 255
    ensures Sign(k, t, scope, seed).Ok? ==>
              Sign(k, t, scope, seed).cap.ticket == t && Sign(k, t, scope, seed).cap.scope == scope
    ensures SignV2(k, draft, seed).Ok? <==> |draft.scope| <= 255
    ensures SignV2(k, draft, seed).Ok? ==> SignV2(k, draft, seed).cap.(sig := draft.sig) == draft
  {
    hide ValidUtf8, CapMessage, CapV2Message;
  }

  // ---- Field by field ----

  lemma LittleEndian(x: u64)
    ensures Le64(x)[0] == x % 256 && Le64(x)[1] == x / 256 % 256
    ensures x < 256 ==> Le64(x) == [x, 0, 0, 0, 0, 0, 0, 0]
  {
    assert Le(x, 8) == [x % 256] + Le(x / 256, 7);
    assert Le(x / 256, 7) == [x / 256 % 256] + Le(x / 256 / 256, 6);
    if x < 256 {
      LeZero(7);
      assert Le(0, 7) == [0, 0, 0, 0, 0, 0, 0];
    }
  }

  lemma {:induction false} LeZero(n: nat)
    ensures Le(0, n) == seq(n, _ => 0)
  {
    if n > 0 {
      LeZero(n - 1);
    }
  }

  /** Where each field of a bearer payload lies. */
  lemma LayoutV2(r: AuthV2)
    requires |r.cap.scope| <= MAX_SCOPE_LEN
    ensures var p, t, n := EncodeV2(r), r.cap.ticket, |r.cap.scope|;
            && |p| == 162 + n
            && p[..16] == t.ticketId && p[16..48] == t.authKey && p[48..56] == Le64(t.notBefore)
            && p[56..64] == Le64(t.notAfter) && p[64] == t.suiteId && p[65] == n && p[66..66 + n] == r.cap.scope
            && p[66 + n..130 + n] == r.cap.sig && p[130 + n..] == r.authcode
  {
    hide Le64, ValidUtf8;
  }

  /** Where each field of a key-bound payload lies. */
  lemma LayoutV3(r: AuthV3)
    requires |r.cap.scope| <= MAX_SCOPE_LEN
    ensures var p, c, n := EncodeV3(r), r.cap, |r.cap.scope|;
            && |p| == 195 + n
            && p[..16] == c.ticketId && p[16..48] == c.veilPk && p[48] == c.role && p[49..57] == Le64(c.notBefore)
            && p[57..65] == Le64(c.notAfter) && p[65] == c.suiteId && p[66] == n && p[67..67 + n] == c.scope
            && p[67 + n..131 + n] == c.sig && p[131 + n..] == r.clientSig
  {
    hide Le64, ValidUtf8;
  }
}
