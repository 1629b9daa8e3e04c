/** The sans-IO session: local bytes and a clock in, wire bytes out, and the reverse. */
module Session {
  import opened Bytes
  import opened Framing
  import opened Padding
  import opened Streams

  /** Up half: local plaintext to DATA frames, with chaff in idle time. */
  class VeilFrontUp {
    const strategy: WriteStrategy

    ghost predicate Valid()
      reads this, strategy, strategy.payloadQueue, strategy.chaffScheduler
    {
      strategy.chaffScheduler.Valid()
    }

    ghost function Queued(): seq<Frame>
      reads strategy.payloadQueue
    {
      strategy.payloadQueue.frames
    }

    ghost function State(): Chaffing
      reads strategy.chaffScheduler
    {
      strategy.chaffScheduler.State()
    }

    /** The chaff generated when the session opened. */
    ghost function ChaffQueue(): seq<Frame>
      reads strategy.chaffScheduler
    {
      strategy.chaffScheduler.chaffQueue
    }

    constructor (draws: seq<Octets>)
      requires |draws| == MAX_CHAFF_QUEUE
      requires forall i :: 0 <= i < |draws| ==> IsChaffSize(|draws[i]|)
      ensures Valid() && fresh(strategy) && fresh(strategy.payloadQueue) && fresh(strategy.chaffScheduler)
      ensures Queued() == [] && State() == INITIAL && ChaffQueue() == QueueOf(draws)
    {
      strategy := new WriteStrategy(draws);
    }

    method QueueLocal(data: Octets)
      requires Valid()
      modifies strategy.payloadQueue
      ensures Valid() && State() == old(State()) && Queued() == old(Queued()) + [Frame(DATA, data)]
      ensures forall now :: !WaitsForLocal(now)
    {
      strategy.payloadQueue.Push(Frame(DATA, data));
    }

    predicate WaitsForLocal(now: int)
      reads strategy.payloadQueue, strategy.chaffScheduler
    {
      strategy.WaitsForPayload(now)
    }

    /**
      The next frame due at `now`, encoded. Once the half waits for local bytes it has
      nothing to say at that or any later instant, and goes on waiting.
      */
    method NextWire(now: int, draw: Octets) returns (wire: Option<Octets>, sent: Option<Frame>)
      requires Valid() && IsChaffSize(|draw|)
      modifies strategy.payloadQueue, strategy.chaffScheduler
      ensures Valid() && ChaffQueue() == old(ChaffQueue())
      ensures wire == if sent.Some? then Some(EncodeFrame(BUCKETED, sent.value)) else None
      ensures old(Queued()) != [] ==> sent == Some(old(Queued())[0]) && old(Queued()) == [sent.value] + Queued()
      ensures old(Queued()) != [] ==> State() == old(State()).(lastPayload := Some(now))
      ensures old(Queued()) == [] ==> Queued() == [] && ChaffStep(old(State()), State(), now, sent)
      ensures old(Queued()) == [] && sent.Some? ==> sent.value == ChaffFrom(ChaffQueue(), old(State()).index, draw)
      ensures forall t :: t <= now && old(WaitsForLocal(t)) ==> wire.None? && WaitsForLocal(t) && WaitsForLocal(now)
    {
      hide EncodeFrame;
      sent := strategy.NextFrame(now, draw);
      if sent.None? {
        return None, None;
      }
      var out := new Buffer([]);
      Encode(BUCKETED, sent.value, out);
      assert out.bytes == EncodeFrame(BUCKETED, sent.value);
      wire := Some(out.bytes);
    }
  }

  /** Down half: wire bytes to DATA payloads; everything else is dropped. */
  class VeilFrontDown {
    const buf: Buffer

    constructor ()
      ensures fresh(buf) && buf.bytes == []
    {
      buf := new Buffer([]);
    }

    method Feed(data: Octets)
      modifies buf
      ensures buf.bytes == old(buf.bytes) + data
    {
      buf.PutSlice(data);
    }

    /**
      Pops one DATA payload, dropping the frames before it. `skipped` is the trace of what
      was dropped; what stays buffered is untouched.
      */
    method NextPayload(ghost seen: Octets, ghost taken: seq<Frame>) returns (r: Next, ghost skipped: seq<Frame>)
      requires Holds(seen, buf.bytes, taken)
      modifies buf
      ensures DataBytes(skipped) == [] && forall f :: f in skipped ==> f.kind != DATA
      ensures r.One? ==> r.frame.kind == DATA && Holds(seen, buf.bytes, taken + skipped + [r.frame])
      ensures |buf.bytes| <= |old(buf.bytes)| && (r.One? ==> |buf.bytes| < |old(buf.bytes)|)
      ensures !r.One? ==> Holds(seen, buf.bytes, taken + skipped)
      ensures r.Nothing? ==> DecodeFrame(PLAIN, buf.bytes) == NeedMore
      ensures r.Error? ==> DecodeFrame(PLAIN, buf.bytes) == Bad(r.error)
    {
      hide DecodeFrame, Holds;
      skipped := [];
      assert taken + skipped == taken;
      while true
        invariant DataBytes(skipped) == [] && Holds(seen, buf.bytes, taken + skipped)
        invariant forall f :: f in skipped ==> f.kind != DATA
        invariant |buf.bytes| <= |old(buf.bytes)|
        decreases |buf.bytes|
      {
        ghost var before := buf.bytes;
        r := Decode(PLAIN, buf);
        if !r.One? {
          return;
        }
        HoldsTake(seen, before, taken + skipped, r.frame, buf.bytes);
        if r.frame.kind == DATA {
          return;
        }
        DataBytesSnoc(skipped, r.frame);
        assert taken + skipped + [r.frame] == taken + (skipped + [r.frame]);
        skipped := skipped + [r.frame];
      }
      assert false;
    }
  }
}
