/**
  The whole data plane, composed: client ferry, wire, gate, tunnel, and the same over a
  second hop. `cut` and `deliver` stand for the network: any way of cutting any stream.
  */
module EndToEnd {
  import opened Bytes
  import opened Framing
  import opened Streams
  import opened Padding
  import opened Gate
  import Tunnel
  import Chain
  import Ferry

  /** Some way of cutting every byte stream into pieces. */
  ghost predicate Cuts(cut: Octets -> seq<Octets>) {
    forall s :: CutOf(cut(s), s)
  }

  /** The same, between the idle ticks of the reader. */
  ghost predicate Delivers(deliver: Octets -> seq<Tunnel.Turn>) {
    forall s :: Tunnel.Incoming(deliver(s)) == s && Tunnel.Paced(deliver(s))
  }

  /** The two reads and two clocks the gate of one relay gets. */
  datatype Admission = Admission(policy: Policy, inTime: bool, now: nat, later: nat)

  /** The opening frame is authorised when it is complete, and complete by the second read. */
  ghost predicate Admitted(a: Admission, opening: Frame, pieces: seq<Octets>) {
    var n := |EncodeFrame(BUCKETED, opening)|;
    && pieces != []
    && var k := GateReads(pieces, n, a.inTime);
       |Flatten(pieces[..k])| >= n && Authorised(a.policy, opening, if k == 1 then a.now else a.later)
  }

  ghost predicate ChaffDraws(draws: seq<Octets>) {
    |draws| == MAX_CHAFF_QUEUE && forall i :: 0 <= i < |draws| ==> IsChaffSize(|draws[i]|)
  }

  /**
    Client to backend over one relay: for every schedule of local reads, every clock, every
    chaff and every cut of the wire, the tunnel opens exactly when AUTH is admitted, and
    then the backend gets exactly the local bytes.
    */
  method DirectUp(a: Admission, auth: Frame, draws: seq<Octets>, turns: seq<Ferry.Turn>, cut: Octets -> seq<Octets>)
    returns (wire: Octets, g: GateResult, backend: Octets)
    requires |auth.payload| <= DEFAULT_MAX_PAYLOAD && ChaffDraws(draws) && Ferry.Timeline(turns) && Cuts(cut)
    ensures EncodeFrame(BUCKETED, auth) <= wire
    ensures g.ToTunnel? <==> Admitted(a, auth, cut(wire))
    ensures g.ToTunnel? ==> backend == Ferry.LocalBytes(turns)
    ensures !g.ToTunnel? ==> backend == [] && g.ToSite? && g.firstBytes <= wire
  {
    hide EncodeFrame, EncodeAll, Authorised, Drain, DataBytes;
    var opening := new Buffer([]);
    Encode(BUCKETED, auth, opening);
    var out, emitted, _, _, _ := Ferry.UpFerry(draws, turns);
    wire := opening.bytes + out;
    assert opening.bytes == EncodeFrame(BUCKETED, auth);
    var pieces := cut(wire);
    var rest;
    g, rest := GateOpening(a.policy, auth, out, pieces, a.inTime, a.now, a.later);
    backend := [];
    if g.ToTunnel? {
      DeliveredOfEncoded(emitted);
      var count, ok;
      backend, count, ok := Tunnel.Deframe(g.leftover, rest);
    } else {
      FirstPieces(pieces, wire, GateReads(pieces, |EncodeFrame(BUCKETED, auth)|, a.inTime));
    }
  }

  /**
    Client to backend over a chain of two relays, each with its own gate, its own AUTH frame
    and its own cut of the wire: the backend still gets exactly the local bytes.
    */
  method ChainedUp(a: Admission, auth: Frame, b: Admission, relayAuth: Frame, draws: seq<Octets>,
                   turns: seq<Ferry.Turn>, cut: Octets -> seq<Octets>, cut': Octets -> seq<Octets>)
    returns (wire: Octets, hop: Octets, g: GateResult, h: GateResult, backend: Octets)
    requires |auth.payload| <= DEFAULT_MAX_PAYLOAD && |relayAuth.payload| <= DEFAULT_MAX_PAYLOAD
    requires ChaffDraws(draws) && Ferry.Timeline(turns) && Cuts(cut) && Cuts(cut')
    ensures g.ToTunnel? <==> Admitted(a, auth, cut(wire))
    ensures g.ToTunnel? ==> (h.ToTunnel? <==> Admitted(b, relayAuth, cut'(hop)))
    ensures g.ToTunnel? && h.ToTunnel? ==> backend == Ferry.LocalBytes(turns)
    ensures !(g.ToTunnel? && h.ToTunnel?) ==> backend == []
  {
    hide EncodeFrame, EncodeAll, Authorised, Drain, DataBytes, DataFrames;
    var opening := new Buffer([]);
    Encode(BUCKETED, auth, opening);
    var out, emitted, _, _, _ := Ferry.UpFerry(draws, turns);
    wire := opening.bytes + out;
    assert opening.bytes == EncodeFrame(BUCKETED, auth);
    var rest, rest', count, ok;
    g, rest := GateOpening(a.policy, auth, out, cut(wire), a.inTime, a.now, a.later);
    hop, h, backend := [], ToSite([]), [];
    if g.ToTunnel? {
      DeliveredOfEncoded(emitted);
      HopTransparency(out);
      var upstream;
      upstream, ok := Chain.FerryToUpstream(g.leftover, rest);
      var opening' := new Buffer([]);
      Encode(BUCKETED, relayAuth, opening');
      assert opening'.bytes == EncodeFrame(BUCKETED, relayAuth);
      hop := opening'.bytes + upstream;
      h, rest' := GateOpening(b.policy, relayAuth, upstream, cut'(hop), b.inTime, b.now, b.later);
      if h.ToTunnel? {
        backend, count, ok := Tunnel.Deframe(h.leftover, rest');
      }
    }
  }

  ghost predicate BackendTurns(turns: seq<Tunnel.Turn>) {
    && Tunnel.Paced(turns)
    && forall i :: 0 <= i < |turns| && turns[i].Chunk? ==> |turns[i].bytes| <= Tunnel.COPY_BUF
  }

  /** Backend to client over one relay: initial and idle chaff leave no trace. */
  method DirectDown(initial: Octets, turns: seq<Tunnel.Turn>, cut: Octets -> seq<Octets>)
    returns (local: Octets, ok: bool)
    requires |initial| in Tunnel.INITIAL_CHAFF_BUCKETS && BackendTurns(turns) && Cuts(cut)
    ensures local == Tunnel.Incoming(turns) && ok
  {
    hide EncodeAll, Drain, DataBytes, Tunnel.Incoming, Tunnel.Paced;
    var out, emitted := Tunnel.ForwardDown(initial, turns);
    CutIsReceived(cut(out), out);
    DeliveredOfEncoded(emitted);
    local, ok := Ferry.DownFerry(cut(out));
  }

  /** Backend to client over a chain of two relays, each adding chaff of its own. */
  method ChainedDown(initial: Octets, turns: seq<Tunnel.Turn>, deliver: Octets -> seq<Tunnel.Turn>,
                     cut: Octets -> seq<Octets>)
    returns (local: Octets, ok: bool)
    requires |initial| in Tunnel.INITIAL_CHAFF_BUCKETS && BackendTurns(turns) && Delivers(deliver) && Cuts(cut)
    ensures local == Tunnel.Incoming(turns) && ok
  {
    hide EncodeAll, Drain, DataBytes, DataFrames, Tunnel.Incoming, Tunnel.Paced;
    var out, emitted := Tunnel.ForwardDown(initial, turns);
    DeliveredOfEncoded(emitted);
    assert Tunnel.Incoming(deliver(out)) == out;
    var wire, mixed, fine := Chain.FerryToClient(Tunnel.IDLE_CHAFF_WINDOW, deliver(out));
    DataBytesOfDataFrames(emitted);
    DataBytesOfDataFrames(mixed);
    DeliveredOfEncoded(mixed);
    CutIsReceived(cut(wire), wire);
    local, ok := Ferry.DownFerry(cut(wire));
  }

  /** A tunnel torn down early, at any byte, has delivered a prefix of the bytes sent and reports no error. */
  lemma EarlyCloseDeliversPrefix(frames: seq<Frame>, m: nat)
    requires AllFit(frames) && m <= |EncodeAll(BUCKETED, frames)|
    ensures var wire := EncodeAll(BUCKETED, frames);
            Delivered(wire[..m]) <= DataBytes(frames) && Drain(PLAIN, wire[..m]).error == None
  {
    hide EncodeAll, DecodeFrame;
    var wire := EncodeAll(BUCKETED, frames);
    assert wire == wire[..m] + wire[m..];
    DeliveredOfEncoded(frames);
    TruncationDeliversPrefix(wire[..m], wire[m..]);
    DrainAppend(PLAIN, wire[..m], wire[m..]);
  }
}
