/** The chaining relay: client frames re-framed toward the upstream relay, and back. */
module Chain {
  import opened Bytes
  import opened Framing
  import opened Streams
  import opened Tunnel

  lemma {:induction false} DataIsNotChaff(a: seq<Frame>, b: seq<Frame>)
    requires forall f :: f in b ==> f.kind == DATA
    ensures ChaffCount(a + b) == ChaffCount(a)
  {
    if b == [] {
      assert a + b == a;
    } else {
      var n := |b| - 1;
      DataIsNotChaff(a, b[..n]);
      assert a + b == a + b[..n] + [b[n]];
      CountSnoc(a + b[..n], b[n]);
    }
  }

  lemma {:induction false} DataFramesOfData(frames: seq<Frame>)
    requires forall f :: f in frames ==> f.kind == DATA
    ensures DataFrames(frames) == frames
  {
    if frames != [] {
      DataFramesOfData(frames[1..]);
    }
  }

  /** The inner loop of both ferries: every complete DATA frame leaves in a frame of the relay's own making. */
  method ReframeBuffered(buf: Buffer, out: Buffer, ghost seen: Octets, ghost had: seq<Frame>)
    returns (sent: seq<Frame>, next: Next, ghost taken: seq<Frame>)
    requires buf != out && Holds(seen, buf.bytes, had)
    modifies buf, out
    ensures Holds(seen, buf.bytes, taken) && DataFrames(taken) == DataFrames(had) + sent
    ensures var d := Drain(PLAIN, old(buf.bytes));
            && sent == DataFrames(d.frames) && (next.Error? <==> d.error.Some?)
            && (next.Nothing? ==> buf.bytes == d.residue)
    ensures forall f :: f in sent ==> f.kind == DATA && |f.payload| <= DEFAULT_MAX_PAYLOAD
    ensures out.bytes == old(out.bytes) + EncodeAll(BUCKETED, sent)
    ensures next.Nothing? ==> DecodeFrame(PLAIN, buf.bytes) == NeedMore
    ensures next.Error? ==> DecodeFrame(PLAIN, buf.bytes) == Bad(next.error)
    ensures !next.One?
  {
    hide Holds, DecodeFrame, EncodeFrame, DataFrames, EncodeAll, Drain;
    sent, taken := [], had;
    ghost var was, more: seq<Frame> := buf.bytes, [];
    HoldsInit(was);
    next := Decode(PLAIN, buf);
    NothingEncoded();
    while next.One?
      invariant match DecodeFrame(PLAIN, was) {
                  case NeedMore => next == Nothing && buf.bytes == was
                  case Bad(e) => next == Error(e) && buf.bytes == was
                  case Got(f, rest) => next == One(f) && buf.bytes == rest
                }
      invariant Holds(seen, was, taken) && DataFrames(taken) == DataFrames(had) + sent
      invariant Holds(old(buf.bytes), was, more) && DataFrames(more) == sent
      invariant forall f :: f in sent ==> f.kind == DATA && |f.payload| <= DEFAULT_MAX_PAYLOAD
      invariant out.bytes == old(out.bytes) + EncodeAll(BUCKETED, sent)
      decreases |was|
    {
      HoldsTake(seen, was, taken, next.frame, buf.bytes);
      HoldsTake(old(buf.bytes), was, more, next.frame, buf.bytes);
      DataFramesSnoc(taken, next.frame);
      DataFramesSnoc(more, next.frame);
      taken, more := taken + [next.frame], more + [next.frame];
      if next.frame.kind == DATA {
        EncodeAllSnoc(BUCKETED, sent, Frame(DATA, next.frame.payload));
        Encode(BUCKETED, Frame(DATA, next.frame.payload), out);
        sent := sent + [Frame(DATA, next.frame.payload)];
      }
      was := buf.bytes;
      next := Decode(PLAIN, buf);
    }
    HoldsDone(old(buf.bytes), buf.bytes, more, []);
    assert old(buf.bytes) + [] == old(buf.bytes);
    if next.Nothing? {
      HoldsResidue(old(buf.bytes), buf.bytes, more);
    }
  }

  lemma HoldsResidue(seen: Octets, buf: Octets, taken: seq<Frame>)
    requires Holds(seen, buf, taken) && DecodeFrame(PLAIN, buf) == NeedMore
    ensures Drain(PLAIN, seen).residue == buf
  {
    hide DecodeFrame;
  }

  lemma NothingEncoded()
    ensures EncodeAll(BUCKETED, []) == [] && DataFrames([]) == [] && ChaffCount([]) == 0
  {
  }

  lemma DataFramesSnoc(a: seq<Frame>, f: Frame)
    ensures DataFrames(a + [f]) == DataFrames(a) + if f.kind == DATA then [f] else []
  {
    DataFramesAppend(a, [f]);
    assert DataFrames([f][1..]) == [];
  }

  /**
    Client to upstream: the upstream relay gets exactly the client's DATA frames, re-made,
    whatever else the client sends and however TCP cuts it.
    */
  method FerryToUpstream(leftover: Octets, pieces: seq<Octets>) returns (upstream: Octets, ok: bool)
    ensures upstream == Reframed(leftover + Received(pieces))
    ensures ok <==> Drain(PLAIN, leftover + Received(pieces)).error == None
  {
    hide Holds, DecodeFrame, Drain, DataFrames, EncodeAll, EncodeFrame;
    var buf := new Buffer(leftover);
    var out := new Buffer([]);
    var i := 0;
    ghost var seen: Octets, taken: seq<Frame> := leftover, [];
    HoldsInit(leftover);
    NothingEncoded();
    assert pieces[0..] == pieces;
    while true
      invariant 0 <= i <= |pieces| && fresh(buf) && fresh(out) && buf != out
      invariant seen + Received(pieces[i..]) == leftover + Received(pieces)
      invariant Holds(seen, buf.bytes, taken) && out.bytes == EncodeAll(BUCKETED, DataFrames(taken))
      decreases |pieces| - i
    {
      ghost var had := taken;
      var sent, next;
      sent, next, taken := ReframeBuffered(buf, out, seen, taken);
      EncodeAllAppend(BUCKETED, DataFrames(had), sent);
      ReceivedStep(pieces, i);
      if next.Error? {
        HoldsDone(seen, buf.bytes, taken, Received(pieces[i..]));
        return out.bytes, false;
      }
      if i == |pieces| || pieces[i] == [] {
        HoldsDone(seen, buf.bytes, taken, []);
        return out.bytes, true;
      }
      HoldsRead(seen, buf.bytes, taken, pieces[i]);
      buf.PutSlice(pieces[i]);
      assert seen + (pieces[i] + Received(pieces[i + 1..])) == seen + pieces[i] + Received(pieces[i + 1..]);
      seen := seen + pieces[i];
      i := i + 1;
    }
    assert false;
  }

  /** What the downward ferry has sent: the upstream's DATA frames so far, between chaff of its own. */
  ghost predicate Mixed(emitted: seq<Frame>, taken: seq<Frame>) {
    && AllFit(emitted) && (forall f :: f in emitted ==> f.kind in {DATA, CHAFF})
    && DataFrames(emitted) == DataFrames(taken)
  }

  lemma MixData(emitted: seq<Frame>, had: seq<Frame>, sent: seq<Frame>, taken: seq<Frame>)
    requires Mixed(emitted, had) && DataFrames(taken) == DataFrames(had) + sent
    requires forall f :: f in sent ==> f.kind == DATA && |f.payload| <= DEFAULT_MAX_PAYLOAD
    ensures Mixed(emitted + sent, taken) && ChaffCount(emitted + sent) == ChaffCount(emitted)
    ensures EncodeAll(BUCKETED, emitted + sent) == EncodeAll(BUCKETED, emitted) + EncodeAll(BUCKETED, sent)
  {
    hide EncodeFrame;
    DataFramesAppend(emitted, sent);
    DataFramesOfData(sent);
    DataIsNotChaff(emitted, sent);
    EncodeAllAppend(BUCKETED, emitted, sent);
  }

  lemma MixChaff(emitted: seq<Frame>, taken: seq<Frame>, chaff: Octets)
    requires Mixed(emitted, taken) && |chaff| in CHAFF_BUCKETS
    ensures Mixed(emitted + [Frame(CHAFF, chaff)], taken)
    ensures ChaffCount(emitted + [Frame(CHAFF, chaff)]) == ChaffCount(emitted) + 1
    ensures EncodeAll(BUCKETED, emitted + [Frame(CHAFF, chaff)])
         == EncodeAll(BUCKETED, emitted) + EncodeFrame(BUCKETED, Frame(CHAFF, chaff))
  {
    hide EncodeFrame, EncodeAll, DataFrames, ChaffCount, ChaffBytes;
    DataFramesSnoc(emitted, Frame(CHAFF, chaff));
    CountSnoc(emitted, Frame(CHAFF, chaff));
    EncodeAllSnoc(BUCKETED, emitted, Frame(CHAFF, chaff));
  }

  /**
    The frames of the downward ferry, turn by turn: `held` is the start of a frame not yet
    complete. A chunk brings out the DATA frames it completes, an idle tick inside the window
    the relay's own chaff; an undecodable header ends it.
    */
  function Relayed(window: int, held: Octets, turns: seq<Turn>): seq<Frame>
    decreases |turns|
  {
    if AtEof(turns) then []
    else match turns[0]
      case Chunk(_, bytes) =>
        var d := Drain(PLAIN, held + bytes);
        DataFrames(d.frames) + if d.error.Some? then [] else Relayed(window, d.residue, turns[1..])
      case Idle(elapsed, draw) =>
        (if elapsed < window then [Frame(CHAFF, draw)] else []) + Relayed(window, held, turns[1..])
  }

  lemma RelayedStep(window: int, held: Octets, turns: seq<Turn>, i: nat, done: seq<Frame>)
    requires i <= |turns|
    ensures AtEof(turns[i..]) ==> done + Relayed(window, held, turns[i..]) == done
    ensures !AtEof(turns[i..]) && turns[i].Chunk? ==>
              var d := Drain(PLAIN, held + turns[i].bytes);
              done + Relayed(window, held, turns[i..])
              == done + DataFrames(d.frames) + if d.error.Some? then [] else Relayed(window, d.residue, turns[i + 1..])
    ensures !AtEof(turns[i..]) && turns[i].Idle? ==>
              done + Relayed(window, held, turns[i..])
              == done + (if turns[i].elapsed < window then [Frame(CHAFF, turns[i].draw)] else [])
                 + Relayed(window, held, turns[i + 1..])
  {
    hide Drain, DataFrames, AtEof;
    var now := turns[i..];
    if AtEof(now) {
      assert done + [] == done;
    } else {
      NotAtEof(turns, i);
      match turns[i] {
        case Chunk(_, bytes) =>
          var d := Drain(PLAIN, held + bytes);
          Reassociate(done, DataFrames(d.frames), if d.error.Some? then [] else Relayed(window, d.residue, now[1..]));
        case Idle(elapsed, draw) =>
          Reassociate(done, if elapsed < window then [Frame(CHAFF, draw)] else [], Relayed(window, held, now[1..]));
      }
    }
  }

  lemma {:induction false} DataThenChaff(data: seq<Frame>, rest: seq<Frame>)
    requires forall f :: f in data ==> f.kind == DATA
    ensures ChaffCount(data + rest) == ChaffCount(rest)
  {
    hide ChaffCount, ChaffBytes;
    if data == [] {
      assert data + rest == rest;
    } else {
      DataThenChaff(data[1..], rest);
      CountCons(data[0], data[1..] + rest);
      assert data + rest == [data[0]] + (data[1..] + rest);
    }
  }

  /** While the upstream's bytes decode, every idle tick inside the window gets its chaff frame. */
  lemma {:induction false} RelayedChaffPerIdleTick(window: int, held: Octets, turns: seq<Turn>)
    requires Drain(PLAIN, held + Incoming(turns)).error == None
    ensures ChaffCount(Relayed(window, held, turns)) == IdleInside(window, turns)
    decreases |turns|
  {
    hide ChaffCount, ChaffBytes, Drain, DataFrames;
    if AtEof(turns) {
      NoChaff();
    } else {
      var rest := turns[1..];
      match turns[0] {
        case Chunk(_, bytes) =>
          var d := Drain(PLAIN, held + bytes);
          DrainAppend(PLAIN, held + bytes, Incoming(rest));
          assert held + Incoming(turns) == held + bytes + Incoming(rest);
          RelayedChaffPerIdleTick(window, d.residue, rest);
          DataThenChaff(DataFrames(d.frames), Relayed(window, d.residue, rest));
        case Idle(elapsed, draw) =>
          assert Incoming(turns) == Incoming(rest);
          RelayedChaffPerIdleTick(window, held, rest);
          var tail := Relayed(window, held, rest);
          CountCons(Frame(CHAFF, draw), tail);
          assert [] + tail == tail;
      }
    }
  }

  /**
    Upstream to client: the client gets exactly the upstream's DATA frames, re-made and in
    order; the upstream's chaff is gone and the relay's own idle chaff is bounded by its window.
    */
  method FerryToClient(window: int, turns: seq<Turn>) returns (out: Octets, emitted: seq<Frame>, ok: bool)
    requires Paced(turns)
    ensures out == EncodeAll(BUCKETED, emitted) && emitted == Relayed(window, [], turns)
    ensures Mixed(emitted, Drain(PLAIN, Incoming(turns)).frames)
    ensures ok <==> Drain(PLAIN, Incoming(turns)).error == None
    ensures ChaffCount(emitted) > 0 ==> IDLE_CHAFF_TICK * (ChaffCount(emitted) - 1) < window
  {
    hide Holds, DecodeFrame, Drain, EncodeFrame, EncodeAll, DataFrames, ChaffCount;
    hide Incoming, IdleLedger, AtEof, Mixed, Relayed;
    var buf := new Buffer([]);
    var client := new Buffer([]);
    emitted := [];
    var i := 0;
    ghost var seen: Octets, taken: seq<Frame>, floor := [], [], 0;
    HoldsInit([]);
    LoopStart(window, turns);
    StartDown();
    assert turns[0..] == turns;
    while true
      invariant 0 <= i <= |turns| && fresh(buf) && fresh(client) && buf != client
      invariant seen + Incoming(turns[i..]) == Incoming(turns)
      invariant Holds(seen, buf.bytes, taken) && DecodeFrame(PLAIN, buf.bytes) == NeedMore
      invariant client.bytes == EncodeAll(BUCKETED, emitted) && Mixed(emitted, taken)
      invariant emitted + Relayed(window, buf.bytes, turns[i..]) == Relayed(window, [], turns)
      invariant IdleLedger(ChaffCount(emitted), window, floor, turns, i)
      decreases |turns| - i
    {
      IncomingStep(turns, i);
      RelayedStep(window, buf.bytes, turns, i, emitted);
      LoopEnd(ChaffCount(emitted), window, floor, turns, i);
      if i == |turns| || (turns[i].Chunk? && turns[i].bytes == []) {
        HoldsDone(seen, buf.bytes, taken, []);
        return client.bytes, emitted, true;
      }
      IdleKeepsLedger(ChaffCount(emitted), window, floor, turns, i);
      if turns[i].Chunk? {
        HoldsRead(seen, buf.bytes, taken, turns[i].bytes);
        buf.PutSlice(turns[i].bytes);
        assert seen + (turns[i].bytes + Incoming(turns[i + 1..])) == seen + turns[i].bytes + Incoming(turns[i + 1..]);
        seen := seen + turns[i].bytes;
        ghost var had := taken;
        var sent, next;
        sent, next, taken := ReframeBuffered(buf, client, seen, taken);
        MixData(emitted, had, sent, taken);
        emitted := emitted + sent;
        if next.Error? {
          HoldsDone(seen, buf.bytes, taken, Incoming(turns[i + 1..]));
          return client.bytes, emitted, false;
        }
      } else if turns[i].elapsed < window {
        MixChaff(emitted, taken, turns[i].draw);
        Encode(BUCKETED, Frame(CHAFF, turns[i].draw), client);
        emitted := emitted + [Frame(CHAFF, turns[i].draw)];
        floor := turns[i].elapsed + IDLE_CHAFF_TICK;
      }
      i := i + 1;
    }
    assert false;
  }

  lemma StartDown()
    ensures Mixed([], []) && DecodeFrame(PLAIN, []) == NeedMore
  {
  }
}
