/** The relay's gate: is the start of this connection a valid AUTH frame, or a visitor of the cover site? */
module Gate {
  import opened Bytes
  import opened Framing
  import opened Capability

  /** What the gate validates against: the session's TLS exporter, the issuer's key, the relay's scope. */
  datatype Policy = Policy(crypto: Crypto, exporter: Bytes32, issuer: Bytes32, relayScope: Octets)

  datatype Decision = Admit(leftover: Octets) | Site

  /** The frame is a well-formed AUTH record that verifies at `now`. */
  ghost predicate Authorised(p: Policy, f: Frame, now: nat) {
    || (f.kind == AUTH_V2 && exists r: AuthV2 ::
          && |r.cap.scope| <= MAX_SCOPE_LEN && f.payload == EncodeV2(r)
          && VerifyV2(p.crypto, r, p.issuer, p.relayScope, p.exporter, now))
    || (f.kind == AUTH_V3 && exists r: AuthV3 ::
          && |r.cap.scope| <= MAX_SCOPE_LEN && f.payload == EncodeV3(r) && r.cap.role in {ROLE_USER, ROLE_RELAY}
          && VerifyV3(p.crypto, r, p.issuer, p.relayScope, r.cap.role, p.exporter, now))
  }

  /** The verdict on what has been read so far, if there is one yet. */
  ghost function Decide(p: Policy, buf: Octets, now: nat): Option<Decision> {
    match DecodeFrame(PLAIN, buf)
    case NeedMore => None
    case Bad(_) => Some(Site)
    case Got(f, rest) => Some(if Authorised(p, f, now) then Admit(rest) else Site)
  }

  method CheckV2(p: Policy, f: Frame, now: nat) returns (ok: bool)
    requires f.kind == AUTH_V2
    ensures ok <==> Authorised(p, f, now)
  {
    hide EncodeV2, VerifyV2, ValidUtf8;
    var rec := DecodeV2(f.payload);
    if rec.None? {
      return false;
    }
    ok := VerifyV2(p.crypto, rec.value, p.issuer, p.relayScope, p.exporter, now);
    forall r: AuthV2 | |r.cap.scope| <= MAX_SCOPE_LEN && f.payload == EncodeV2(r)
      ensures r == rec.value
    {
      EncodeV2Injective(r, rec.value);
    }
  }

  method CheckV3(p: Policy, f: Frame, now: nat) returns (ok: bool)
    requires f.kind == AUTH_V3
    ensures ok <==> Authorised(p, f, now)
  {
    hide EncodeV3, VerifyV3, ValidUtf8;
    var rec := DecodeV3(f.payload);
    if rec.None? {
      return false;
    }
    var role := rec.value.cap.role;
    ok := (role == ROLE_USER || role == ROLE_RELAY)
          && VerifyV3(p.crypto, rec.value, p.issuer, p.relayScope, role, p.exporter, now);
    forall r: AuthV3 | |r.cap.scope| <= MAX_SCOPE_LEN && f.payload == EncodeV3(r)
      ensures r == rec.value
    {
      EncodeV3Injective(r, rec.value);
    }
  }

  /** `try_decode_auth`: decodes a copy of the buffer and validates what it finds. */
  method TryDecodeAuth(p: Policy, buf: Octets, now: nat) returns (d: Option<Decision>)
    ensures d == Decide(p, buf, now)
  {
    hide DecodeFrame, Authorised;
    var copy := new Buffer(buf);
    var next := Decode(PLAIN, copy);
    match next {
      case Nothing => d := None;
      case Error(_) => d := Some(Site);
      case One(f) =>
        var ok := false;
        if f.kind == AUTH_V2 {
          ok := CheckV2(p, f, now);
        } else if f.kind == AUTH_V3 {
          ok := CheckV3(p, f, now);
        } else {
          OtherFrame(p, f, now);
        }
        d := Some(if ok then Admit(copy.bytes) else Site);
    }
  }

  lemma OtherFrame(p: Policy, f: Frame, now: nat)
    requires f.kind !in {AUTH_V2, AUTH_V3}
    ensures !Authorised(p, f, now)
  {
  }

  /** One read of the socket: bytes (none means end-of-file), a timeout, or an error. */
  datatype Arrival = Data(bytes: Octets) | TimedOut | Failed

  datatype GateResult = ToTunnel(leftover: Octets) | ToSite(firstBytes: Octets) | IoError

  function BytesOf(a: Arrival): Octets {
    if a.Data? then a.bytes else []
  }

  function Consume(d: Decision, buf: Octets): GateResult {
    match d
    case Admit(leftover) => ToTunnel(leftover)
    case Site => ToSite(buf)
  }

  /**
    `gate_stream`. A decision falls on what the first read brought, or failing that on what
    the first two brought; no decision, no bytes, a timeout or a late error mean the site.
    `taken` is the number of reads that brought bytes.
    */
  method GateStream(p: Policy, first: Arrival, second: Arrival, now: nat, later: nat)
    returns (g: GateResult, taken: nat)
    ensures g.IoError? <==> first.Failed?
    ensures !first.Failed? && BytesOf(first) == [] ==> g == ToSite([]) && taken == 0
    ensures BytesOf(first) != [] ==>
              match Decide(p, BytesOf(first), now) {
                case Some(d) => g == Consume(d, BytesOf(first)) && taken == 1
                case None =>
                  var both := BytesOf(first) + BytesOf(second);
                  && taken == (if BytesOf(second) == [] then 1 else 2)
                  && match Decide(p, both, later) {
                       case Some(d) => g == Consume(d, both)
                       case None => g == ToSite(both)
                     }
              }
  {
    hide Decide;
    var buf := new Buffer([]);
    match first {
      case Failed => return IoError, 0;
      case TimedOut => return ToSite([]), 0;
      case Data(bytes) => buf.PutSlice(bytes);
    }
    if |first.bytes| == 0 {
      return ToSite(buf.bytes), 0;
    }
    assert buf.bytes == first.bytes;
    var d := TryDecodeAuth(p, buf.bytes, now);
    if d.Some? {
      return Consume(d.value, buf.bytes), 1;
    }
    taken := 1;
    UndecidedAtAnyTime(p, buf.bytes, now, later);
    assert BytesOf(second) == [] ==> buf.bytes + BytesOf(second) == buf.bytes;
    if second.Data? && |second.bytes| > 0 {
      buf.PutSlice(second.bytes);
      d := TryDecodeAuth(p, buf.bytes, later);
      taken := 2;
      if d.Some? {
        return Consume(d.value, buf.bytes), 2;
      }
    }
    g := ToSite(buf.bytes);
  }

  /** Whether a verdict is possible does not depend on the clock. */
  lemma UndecidedAtAnyTime(p: Policy, buf: Octets, now: nat, later: nat)
    ensures Decide(p, buf, now).None? <==> Decide(p, buf, later).None?
  {
    hide Authorised, DecodeFrame;
  }

  /** A verdict is final: more bytes change nothing but the leftover, which they extend. */
  lemma VerdictIsStable(p: Policy, buf: Octets, more: Octets, now: nat)
    requires Decide(p, buf, now).Some?
    ensures Decide(p, buf + more, now) ==
            match Decide(p, buf, now).value {
              case Admit(leftover) => Some(Admit(leftover + more))
              case Site => Some(Site)
            }
  {
    hide Authorised, DecodeFrame;
    DecodeStable(PLAIN, buf, more);
  }

  /**
    Exactly what opens a tunnel: the wire image of one authorised frame, with any padding,
    and the leftover is every byte after it.
    */
  lemma TunnelExactly(p: Policy, buf: Octets, leftover: Octets, now: nat)
    ensures Decide(p, buf, now) == Some(Admit(leftover)) <==>
            exists f: Frame, pad: Octets ::
              && Fits(PLAIN, |f.payload|, |pad|) && Authorised(p, f, now)
              && buf == WireImage(f, pad) + leftover
  {
    hide Authorised, DecodeFrame, WireImage, Fits;
    match DecodeFrame(PLAIN, buf) {
      case Got(f, rest) =>
        DecodeExactly(PLAIN, buf, f, rest);
      case _ =>
    }
    forall f: Frame, pad: Octets | Fits(PLAIN, |f.payload|, |pad|) && buf == WireImage(f, pad) + leftover
      ensures DecodeFrame(PLAIN, buf) == Got(f, leftover)
    {
      DecodeExactly(PLAIN, buf, f, leftover);
    }
  }

  /**
    An honest AUTH v3 frame opens a tunnel exactly when the capability is a user's or a
    relay's, in its window, of a known suite and of this relay's scope, and was presented
    in this very TLS session.
    */
  lemma HonestV3AdmittedExactly(p: Policy, draft: CapV2, issuerSeed: Bytes32, veilSk: Bytes32, mine: Bytes32, now: nat)
    requires SignV2(p.crypto, draft, issuerSeed).Ok? && draft.veilPk == p.crypto.publicKey(veilSk)
    requires p.issuer == p.crypto.publicKey(issuerSeed)
    requires IdealAmong(p.crypto, issuerSeed, iset{CapV2Message(draft)})
    requires IdealAmong(p.crypto, veilSk, ClientMessages(draft))
    ensures var c := SignV2(p.crypto, draft, issuerSeed).cap;
            var r := FromCapabilityV2(p.crypto, c, veilSk, mine);
            Authorised(p, Frame(AUTH_V3, EncodeV3(r)), now) <==>
              && c.role in {ROLE_USER, ROLE_RELAY} && c.notBefore <= now <= c.notAfter
              && c.suiteId == SUITE_CLASSIC_V1
              && (c.scope == [] || p.relayScope == [] || c.scope == p.relayScope)
              && mine == p.exporter
  {
    hide EncodeV3, VerifyV3, ValidUtf8, IdealAmong, ClientMessages, CapV2Message, AuthV3Message;
    var c := SignV2(p.crypto, draft, issuerSeed).cap;
    var r := FromCapabilityV2(p.crypto, c, veilSk, mine);
    HonestV3VerifiesExactly(p.crypto, draft, issuerSeed, veilSk, p.relayScope, c.role, mine, p.exporter, now);
    forall x: AuthV3 | |x.cap.scope| <= MAX_SCOPE_LEN && EncodeV3(r) == EncodeV3(x)
      ensures x == r
    {
      EncodeV3Injective(r, x);
    }
  }

  /** An honest AUTH v2 frame: the same, but for the role it does not have. */
  lemma HonestV2AdmittedExactly(p: Policy, t: Ticket, scope: Utf8, issuerSeed: Bytes32, mine: Bytes32, now: nat)
    requires Sign(p.crypto, t, scope, issuerSeed).Ok? && p.issuer == p.crypto.publicKey(issuerSeed)
    requires IdealAmong(p.crypto, issuerSeed, iset{CapMessage(t, scope)})
    requires AuthcodesDiffer(p.crypto, t)
    ensures var r := FromCapability(p.crypto, Sign(p.crypto, t, scope, issuerSeed).cap, mine);
            Authorised(p, Frame(AUTH_V2, EncodeV2(r)), now) <==>
              && t.notBefore <= now <= t.notAfter && t.suiteId == SUITE_CLASSIC_V1
              && (scope == [] || p.relayScope == [] || scope == p.relayScope)
              && mine == p.exporter
  {
    hide EncodeV2, VerifyV2, ValidUtf8, IdealAmong, CapMessage, AuthcodeMessage, AuthcodesDiffer;
    var r := FromCapability(p.crypto, Sign(p.crypto, t, scope, issuerSeed).cap, mine);
    HonestV2VerifiesExactly(p.crypto, t, scope, issuerSeed, p.relayScope, mine, p.exporter, now);
    forall x: AuthV2 | |x.cap.scope| <= MAX_SCOPE_LEN && EncodeV2(r) == EncodeV2(x)
      ensures x == r
    {
      EncodeV2Injective(r, x);
    }
  }

  /** No bearer capability but the one issued gets through with its signature, whatever comes with it. */
  lemma AlteredBearerNotAdmitted(p: Policy, t: Ticket, scope: Utf8, other: Cap, issuerSeed: Bytes32,
                                 authcode: Bytes32, now: nat)
    requires Sign(p.crypto, t, scope, issuerSeed).Ok? && p.issuer == p.crypto.publicKey(issuerSeed)
    requires IdealAmong(p.crypto, issuerSeed, iset{CapMessage(t, scope), CapMessage(other.ticket, other.scope)})
    requires other.sig == Sign(p.crypto, t, scope, issuerSeed).cap.sig
    requires other != Sign(p.crypto, t, scope, issuerSeed).cap && |other.scope| <= MAX_SCOPE_LEN
    ensures !Authorised(p, Frame(AUTH_V2, EncodeV2(AuthV2(other, authcode))), now)
  {
    hide EncodeV2, VerifyV2, ValidUtf8, IdealAmong, CapMessage;
    var r := AuthV2(other, authcode);
    AlteredBearerRejected(p.crypto, t, scope, other, issuerSeed, authcode, p.relayScope, p.exporter, now);
    forall x: AuthV2 | |x.cap.scope| <= MAX_SCOPE_LEN && EncodeV2(r) == EncodeV2(x)
      ensures x == r
    {
      EncodeV2Injective(r, x);
    }
  }

  /** Nor does any key-bound one: a user capability turned into a relay's, for one. */
  lemma AlteredCapabilityNotAdmitted(p: Policy, draft: CapV2, other: CapV2, issuerSeed: Bytes32, clientSig: Bytes64,
                                     now: nat)
    requires SignV2(p.crypto, draft, issuerSeed).Ok? && p.issuer == p.crypto.publicKey(issuerSeed)
    requires IdealAmong(p.crypto, issuerSeed, iset{CapV2Message(draft), CapV2Message(other)})
    requires other.sig == SignV2(p.crypto, draft, issuerSeed).cap.sig
    requires other != SignV2(p.crypto, draft, issuerSeed).cap && |other.scope| <= MAX_SCOPE_LEN
    ensures !Authorised(p, Frame(AUTH_V3, EncodeV3(AuthV3(other, clientSig))), now)
  {
    hide EncodeV3, VerifyV3, ValidUtf8, IdealAmong, CapV2Message;
    var r := AuthV3(other, clientSig);
    AlteredCapabilityRejected(p.crypto, draft, other, issuerSeed, clientSig, p.relayScope, other.role, p.exporter, now);
    forall x: AuthV3 | |x.cap.scope| <= MAX_SCOPE_LEN && EncodeV3(r) == EncodeV3(x)
      ensures x == r
    {
      EncodeV3Injective(r, x);
    }
  }

  /** Frames of no AUTH v2 or v3 kind, and payloads no record encodes to, authorise nothing. */
  lemma NoRecordNoEntry(p: Policy, f: Frame, now: nat)
    requires f.kind == AUTH_V2 ==> forall r: AuthV2 :: |r.cap.scope| <= MAX_SCOPE_LEN ==> f.payload != EncodeV2(r)
    requires f.kind == AUTH_V3 ==> forall r: AuthV3 :: |r.cap.scope| <= MAX_SCOPE_LEN ==> f.payload != EncodeV3(r)
    ensures !Authorised(p, f, now)
  {
    hide EncodeV2, EncodeV3, VerifyV2, VerifyV3, ValidUtf8;
  }

  /**
    Exactly what goes to the site at once: bytes with a fault no frame starts with (a
    visitor's HTTP request has one in its first byte), or one whole frame that is not
    authorised.
    */
  lemma SiteExactly(p: Policy, buf: Octets, now: nat)
    ensures Decide(p, buf, now) == Some(Site) <==>
            || (exists e :: Faulty(PLAIN, buf, e))
            || (exists f: Frame, pad: Octets, rest: Octets ::
                  && Fits(PLAIN, |f.payload|, |pad|) && !Authorised(p, f, now)
                  && buf == WireImage(f, pad) + rest)
  {
    hide Authorised, DecodeFrame, WireImage, Fits, Faulty;
    match DecodeFrame(PLAIN, buf) {
      case Got(f, rest) => DecodeExactly(PLAIN, buf, f, rest);
      case Bad(e) => ErrorExactly(PLAIN, buf, e);
      case NeedMore =>
    }
    forall e
      ensures Faulty(PLAIN, buf, e) ==> DecodeFrame(PLAIN, buf) == Bad(e)
    {
      ErrorExactly(PLAIN, buf, e);
    }
    forall f: Frame, pad: Octets, rest: Octets | Fits(PLAIN, |f.payload|, |pad|) && buf == WireImage(f, pad) + rest
      ensures DecodeFrame(PLAIN, buf) == Got(f, rest)
    {
      DecodeExactly(PLAIN, buf, f, rest);
    }
  }

  /** A visitor of the cover site is known by the first byte, and keeps every byte of the request. */
  method VisitorGoesToSite(p: Policy, request: Octets, second: Arrival, now: nat, later: nat) returns (g: GateResult)
    requires request != [] && request[0] != WIRE_VER
    ensures g == ToSite(request)
  {
    hide Decide, DecodeFrame;
    assert Faulty(PLAIN, request, WrongVersion(request[0]));
    SiteExactly(p, request, now);
    var taken;
    g, taken := GateStream(p, Data(request), second, now, later);
  }

  // ---- The gate in front of the de-framer ----

  lemma DecideOnPrefix(p: Policy, f: Frame, stream: Octets, m: nat, now: nat)
    requires |f.payload| <= DEFAULT_MAX_PAYLOAD && EncodeFrame(BUCKETED, f) <= stream && m <= |stream|
    ensures var n := |EncodeFrame(BUCKETED, f)|;
            Decide(p, stream[..m], now) ==
              if m < n then None else Some(if Authorised(p, f, now) then Admit(stream[n..m]) else Site)
  {
    hide EncodeFrame, DecodeFrame, Authorised;
    DecodePrefix(f, stream, m);
  }

  /** Where the gate stands when it decides on a stream cut into `pieces`: after one read, or after two. */
  function GateReads(pieces: seq<Octets>, n: nat, inTime: bool): (k: nat)
    requires pieces != []
    ensures k <= |pieces|
  {
    if |pieces[0]| >= n || |pieces| == 1 || !inTime then 1 else 2
  }

  /**
    A connection that starts with one bucketed frame, cut anywhere by TCP: it becomes a
    tunnel exactly when that frame is authorised when it is complete, and complete by the
    second read (which must come in time). Then the leftover and what is still to be read
    are exactly the bytes after the frame; otherwise the site gets every byte read so far.
    */
  method GateOpening(p: Policy, opening: Frame, ghost after: Octets, pieces: seq<Octets>, inTime: bool,
                     now: nat, later: nat)
    returns (g: GateResult, rest: seq<Octets>)
    requires |opening.payload| <= DEFAULT_MAX_PAYLOAD
    requires CutOf(pieces, EncodeFrame(BUCKETED, opening) + after)
    ensures pieces != []
    ensures var n := |EncodeFrame(BUCKETED, opening)|;
            var k := GateReads(pieces, n, inTime);
            && (g.ToTunnel? <==> |Flatten(pieces[..k])| >= n && Authorised(p, opening, if k == 1 then now else later))
            && (g.ToTunnel? ==> g.leftover + Received(rest) == after)
            && (!g.ToTunnel? ==> g == ToSite(Flatten(pieces[..k])))
  {
    hide EncodeFrame, Authorised, Decide, Flatten, Received;
    ghost var stream := EncodeFrame(BUCKETED, opening) + after;
    ghost var n := |EncodeFrame(BUCKETED, opening)|;
    FrameNotEmpty(opening);
    NonEmptyCut(pieces, stream);
    var second := if |pieces| > 1 && inTime then Data(pieces[1]) else TimedOut;
    var taken;
    g, taken := GateStream(p, Data(pieces[0]), second, now, later);
    ghost var k := GateReads(pieces, n, inTime);
    FirstPieces(pieces, stream, k);
    assert pieces[0] + [] == pieces[0];
    DecideOnPrefix(p, opening, stream, |pieces[0]|, now);
    DecideOnPrefix(p, opening, stream, |Flatten(pieces[..k])|, later);
    rest := pieces[taken..];
    if g.ToTunnel? {
      assert taken == k && g.leftover == stream[n..|Flatten(pieces[..k])|];
      assert g.leftover + Received(pieces[k..]) == stream[n..] == after;
    }
  }

  lemma FrameNotEmpty(f: Frame)
    ensures EncodeFrame(BUCKETED, f) != []
  {
  }

  lemma NonEmptyCut(pieces: seq<Octets>, stream: Octets)
    requires CutOf(pieces, stream) && stream != []
    ensures pieces != []
  {
  }

  lemma FirstPieces(pieces: seq<Octets>, stream: Octets, k: nat)
    requires CutOf(pieces, stream) && pieces != [] && 1 <= k <= |pieces| && k <= 2
    ensures Flatten(pieces[..k]) == pieces[0] + (if k == 2 then pieces[1] else [])
    ensures pieces[0] <= stream && Flatten(pieces[..k]) + Received(pieces[k..]) == stream
    ensures stream[..|pieces[0]|] == pieces[0] && stream[..|Flatten(pieces[..k])|] == Flatten(pieces[..k])
  {
    FlattenAppend(pieces[..k], pieces[k..]);
    assert pieces[..k] + pieces[k..] == pieces;
    CutIsReceived(pieces[k..], Flatten(pieces[k..]));
    assert pieces[..1][1..] == [];
    if k == 2 {
      assert pieces[..2] == pieces[..1] + [pieces[1]];
      FlattenSnoc(pieces[..1], pieces[1]);
    }
  }
}
