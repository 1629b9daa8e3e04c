/** The relay's tunnel loops: client frames to backend bytes, and backend bytes to client frames. */
module Tunnel {
  import opened Bytes
  import opened Framing
  import opened Streams
  import opened Padding

  const COPY_BUF: nat := 8192
  const CHAFF_BUCKETS: set<nat> := {32, 64, 128, 256, 512}
  const INITIAL_CHAFF_BUCKETS: set<nat> := {128, 256}
  const IDLE_CHAFF_WINDOW: nat := 3000 * MS
  const IDLE_CHAFF_TICK: nat := 20 * MS

  /**
    What a framing loop sees in one turn that starts `elapsed` after it opened: bytes (none
    means end-of-file), or a tick without any. `draw` is the chaff the generator would give.
    */
  datatype Turn = Chunk(elapsed: int, bytes: Octets) | Idle(elapsed: int, draw: Octets)

  predicate AtEof(turns: seq<Turn>) {
    turns == [] || (turns[0].Chunk? && turns[0].bytes == [])
  }

  /** The bytes read up to end-of-file. */
  function Incoming(turns: seq<Turn>): Octets {
    if AtEof(turns) then []
    else (if turns[0].Chunk? then turns[0].bytes else []) + Incoming(turns[1..])
  }

  lemma IncomingStep(turns: seq<Turn>, i: nat)
    requires i <= |turns|
    ensures AtEof(turns[i..]) <==> i == |turns| || (turns[i].Chunk? && turns[i].bytes == [])
    ensures AtEof(turns[i..]) ==> Incoming(turns[i..]) == []
    ensures !AtEof(turns[i..]) ==>
              Incoming(turns[i..]) == (if turns[i].Chunk? then turns[i].bytes else []) + Incoming(turns[i + 1..])
  {
    if i < |turns| {
      assert turns[i..][1..] == turns[i + 1..];
    }
  }

  /** What all the reads of `turns` brought. */
  function AllRead(turns: seq<Turn>): Octets {
    if turns == [] then [] else (if turns[0].Chunk? then turns[0].bytes else []) + AllRead(turns[1..])
  }

  /** End-of-file is the first read of no bytes: everything before it counts, nothing after it. */
  lemma {:induction false} UpToEof(turns: seq<Turn>, rest: seq<Turn>)
    requires forall i :: 0 <= i < |turns| && turns[i].Chunk? ==> |turns[i].bytes| > 0
    requires rest == [] || (rest[0].Chunk? && |rest[0].bytes| == 0)
    ensures Incoming(turns + rest) == AllRead(turns)
  {
    if turns == [] {
      assert turns + rest == rest;
    } else {
      UpToEof(turns[1..], rest);
      assert (turns + rest)[1..] == turns[1..] + rest;
    }
  }

  /** A clock that never runs backwards, ticks that take their twenty milliseconds, chaff of a bucket size. */
  ghost predicate Paced(turns: seq<Turn>) {
    && (forall i :: 0 <= i < |turns| ==>
          0 <= turns[i].elapsed && (turns[i].Idle? ==> |turns[i].draw| in CHAFF_BUCKETS))
    && (forall i, j :: 0 <= i < j < |turns| ==>
          turns[i].elapsed + (if turns[i].Idle? then IDLE_CHAFF_TICK else 0) <= turns[j].elapsed)
  }

  /** The frame that turn `turn` calls for: bytes always leave, an idle tick sends chaff inside the window. */
  function FrameOf(window: int, turn: Turn): seq<Frame> {
    match turn
    case Chunk(_, bytes) => [Frame(DATA, bytes)]
    case Idle(elapsed, draw) => if elapsed < window then [Frame(CHAFF, draw)] else []
  }

  /** The frames of a whole run, up to end-of-file. */
  function Framed(window: int, turns: seq<Turn>): seq<Frame> {
    if AtEof(turns) then [] else FrameOf(window, turns[0]) + Framed(window, turns[1..])
  }

  /** The idle ticks inside the window, up to end-of-file. */
  function IdleInside(window: int, turns: seq<Turn>): nat {
    if AtEof(turns) then 0
    else (if turns[0].Idle? && turns[0].elapsed < window then 1 else 0) + IdleInside(window, turns[1..])
  }

  /** Every idle tick inside the window gets its chaff frame, and no other turn does. */
  lemma {:induction false} ChaffPerIdleTick(window: int, turns: seq<Turn>)
    ensures ChaffCount(Framed(window, turns)) == IdleInside(window, turns)
  {
    hide ChaffCount, ChaffBytes;
    if AtEof(turns) {
      NoChaff();
    } else {
      ChaffPerIdleTick(window, turns[1..]);
      var first, rest := FrameOf(window, turns[0]), Framed(window, turns[1..]);
      if first == [] {
        assert first + rest == rest;
      } else {
        assert first == [first[0]];
        CountCons(first[0], rest);
      }
    }
  }

  lemma FramedStep(window: int, turns: seq<Turn>, i: nat, done: seq<Frame>)
    requires i <= |turns|
    ensures AtEof(turns[i..]) ==> done + Framed(window, turns[i..]) == done
    ensures !AtEof(turns[i..]) ==>
              done + Framed(window, turns[i..]) == done + FrameOf(window, turns[i]) + Framed(window, turns[i + 1..])
  {
    hide FrameOf, AtEof;
    var now := turns[i..];
    if AtEof(now) {
      assert done + [] == done;
    } else {
      NotAtEof(turns, i);
      Reassociate(done, FrameOf(window, now[0]), Framed(window, now[1..]));
    }
  }

  lemma NotAtEof(turns: seq<Turn>, i: nat)
    requires i <= |turns| && !AtEof(turns[i..])
    ensures i < |turns| && turns[i..][0] == turns[i] && turns[i..][1..] == turns[i + 1..]
  {
  }

  lemma Reassociate(a: seq<Frame>, b: seq<Frame>, c: seq<Frame>)
    ensures a + (b + c) == a + b + c
  {
  }

  /** Chaff sent so far against the clock: frames leave at least a tick apart, all from turns inside the window. */
  ghost predicate IdleLedger(count: nat, window: int, floor: int, turns: seq<Turn>, i: nat) {
    && IDLE_CHAFF_TICK * count <= floor
    && (count > 0 ==> IDLE_CHAFF_TICK * (count - 1) < window)
    && forall j :: i <= j < |turns| ==> floor <= turns[j].elapsed
  }

  lemma IdleKeepsLedger(count: nat, window: int, floor: int, turns: seq<Turn>, i: nat)
    requires Paced(turns) && i < |turns| && IdleLedger(count, window, floor, turns, i)
    ensures turns[i].Idle? && turns[i].elapsed < window ==>
              IdleLedger(count + 1, window, turns[i].elapsed + IDLE_CHAFF_TICK, turns, i + 1)
    ensures IdleLedger(count, window, floor, turns, i + 1)
  {
  }

  /**
    Client to backend: whatever the client sends after AUTH, in any pieces, the backend gets
    exactly the DATA it carries, up to the first undecodable header if there is one.
    */
  method Deframe(leftover: Octets, pieces: seq<Octets>) returns (backend: Octets, count: nat, ok: bool)
    ensures backend == Delivered(leftover + Received(pieces)) && count == |backend|
    ensures ok <==> Drain(PLAIN, leftover + Received(pieces)).error == None
  {
    hide Holds, DecodeFrame, Drain, DataBytes;
    var buf := new Buffer(leftover);
    var out := new Buffer([]);
    count := 0;
    var i := 0;
    ghost var seen: Octets, taken: seq<Frame> := leftover, [];
    HoldsInit(leftover);
    DataBytesNone();
    assert pieces[0..] == pieces;
    while true
      invariant 0 <= i <= |pieces| && fresh(buf) && fresh(out) && buf != out
      invariant seen + Received(pieces[i..]) == leftover + Received(pieces)
      invariant Holds(seen, buf.bytes, taken) && out.bytes == DataBytes(taken) && count == |out.bytes|
      decreases |pieces| - i
    {
      var next;
      taken, next, count := DrainToBackend(buf, out, count, seen, taken);
      ReceivedStep(pieces, i);
      if next.Error? {
        HoldsDone(seen, buf.bytes, taken, Received(pieces[i..]));
        return out.bytes, count, false;
      }
      if i == |pieces| || pieces[i] == [] {
        HoldsDone(seen, buf.bytes, taken, []);
        return out.bytes, count, true;
      }
      HoldsRead(seen, buf.bytes, taken, pieces[i]);
      buf.PutSlice(pieces[i]);
      assert seen + (pieces[i] + Received(pieces[i + 1..])) == seen + pieces[i] + Received(pieces[i + 1..]);
      seen := seen + pieces[i];
      i := i + 1;
    }
    assert false;
  }

  lemma DataBytesNone()
    ensures DataBytes([]) == []
  {
  }

  /** The inner loop of `Deframe`: writes out every complete DATA frame in the buffer, drops the rest. */
  method DrainToBackend(buf: Buffer, out: Buffer, before: nat, ghost seen: Octets, ghost had: seq<Frame>)
    returns (ghost taken: seq<Frame>, next: Next, count: nat)
    requires buf != out && Holds(seen, buf.bytes, had)
    requires out.bytes == DataBytes(had) && before == |out.bytes|
    modifies buf, out
    ensures Holds(seen, buf.bytes, taken)
    ensures out.bytes == DataBytes(taken) && count == |out.bytes|
    ensures next.Nothing? ==> DecodeFrame(PLAIN, buf.bytes) == NeedMore
    ensures next.Error? ==> DecodeFrame(PLAIN, buf.bytes) == Bad(next.error)
    ensures !next.One?
  {
    hide Holds, DecodeFrame, DataBytes;
    taken, count := had, before;
    ghost var was := buf.bytes;
    next := Decode(PLAIN, buf);
    while next.One?
      invariant match DecodeFrame(PLAIN, was) {
                  case NeedMore => next == Nothing && buf.bytes == was
                  case Bad(e) => next == Error(e) && buf.bytes == was
                  case Got(f, rest) => next == One(f) && buf.bytes == rest
                }
      invariant Holds(seen, was, taken) && out.bytes == DataBytes(taken) && count == |out.bytes|
      decreases |was|
    {
      HoldsTake(seen, was, taken, next.frame, buf.bytes);
      DataBytesSnoc(taken, next.frame);
      taken := taken + [next.frame];
      if next.frame.kind == DATA {
        out.PutSlice(next.frame.payload);
        count := count + |next.frame.payload|;
      }
      was := buf.bytes;
      next := Decode(PLAIN, buf);
    }
  }

  /**
    Backend to client: every backend byte leaves in a DATA frame, in order and once. Inside
    the window an idle tick sends chaff, so at most one frame per tick that fits it; after
    the window an idle backend is an idle tunnel.
    */
  method FrameBackend(window: int, turns: seq<Turn>) returns (out: Octets, emitted: seq<Frame>, count: nat)
    requires Paced(turns)
    requires forall i :: 0 <= i < |turns| && turns[i].Chunk? ==> |turns[i].bytes| <= COPY_BUF
    ensures out == EncodeAll(BUCKETED, emitted) && emitted == Framed(window, turns)
    ensures DataBytes(emitted) == Incoming(turns) && count == |Incoming(turns)|
    ensures forall f :: f in emitted ==> f.kind in {DATA, CHAFF} && |f.payload| <= COPY_BUF
    ensures ChaffCount(emitted) > 0 ==> IDLE_CHAFF_TICK * (ChaffCount(emitted) - 1) < window
  {
    hide EncodeFrame, EncodeAll, DataBytes, ChaffCount, ChaffBytes, Incoming, IdleLedger, AtEof, Framed;
    var client := new Buffer([]);
    emitted, count := [], 0;
    var i := 0;
    ghost var floor := 0;
    LoopStart(window, turns);
    assert turns[0..] == turns;
    while true
      invariant 0 <= i <= |turns| && fresh(client)
      invariant client.bytes == EncodeAll(BUCKETED, emitted)
      invariant emitted + Framed(window, turns[i..]) == Framed(window, turns)
      invariant DataBytes(emitted) + Incoming(turns[i..]) == Incoming(turns) && count == |DataBytes(emitted)|
      invariant forall f :: f in emitted ==> f.kind in {DATA, CHAFF} && |f.payload| <= COPY_BUF
      invariant IdleLedger(ChaffCount(emitted), window, floor, turns, i)
      decreases |turns| - i
    {
      IncomingStep(turns, i);
      FramedStep(window, turns, i, emitted);
      if i == |turns| || (turns[i].Chunk? && turns[i].bytes == []) {
        LoopEnd(ChaffCount(emitted), window, floor, turns, i);
        return client.bytes, emitted, count;
      }
      IdleKeepsLedger(ChaffCount(emitted), window, floor, turns, i);
      if turns[i].Chunk? || turns[i].elapsed < window {
        var f := if turns[i].Chunk? then Frame(DATA, turns[i].bytes) else Frame(CHAFF, turns[i].draw);
        if turns[i].Chunk? {
          count := count + |f.payload|;
        } else {
          floor := turns[i].elapsed + IDLE_CHAFF_TICK;
        }
        Encode(BUCKETED, f, client);
        EncodeAllSnoc(BUCKETED, emitted, f);
        DataBytesSnoc(emitted, f);
        CountSnoc(emitted, f);
        emitted := emitted + [f];
      }
      i := i + 1;
    }
    assert false;
  }

  lemma LoopStart(window: int, turns: seq<Turn>)
    requires Paced(turns)
    ensures EncodeAll(BUCKETED, []) == [] && DataBytes([]) == [] && ChaffCount([]) == 0
    ensures IdleLedger(0, window, 0, turns, 0)
  {
  }

  lemma LoopEnd(count: nat, window: int, floor: int, turns: seq<Turn>, i: nat)
    requires IdleLedger(count, window, floor, turns, i)
    ensures count > 0 ==> IDLE_CHAFF_TICK * (count - 1) < window
  {
  }

  /** The whole downward half of a tunnel: one initial chaff frame, then the framing loop. */
  method ForwardDown(initial: Octets, turns: seq<Turn>) returns (out: Octets, emitted: seq<Frame>)
    requires |initial| in INITIAL_CHAFF_BUCKETS && Paced(turns)
    requires forall i :: 0 <= i < |turns| && turns[i].Chunk? ==> |turns[i].bytes| <= COPY_BUF
    ensures out == EncodeAll(BUCKETED, emitted) && AllFit(emitted)
    ensures emitted == [Frame(CHAFF, initial)] + Framed(IDLE_CHAFF_WINDOW, turns)
    ensures DataBytes(emitted) == Incoming(turns)
    ensures ChaffCount(emitted) <= 151
  {
    hide EncodeFrame, EncodeAll, DataBytes, ChaffCount, ChaffBytes, Incoming, Paced, Framed;
    var first := new Buffer([]);
    Encode(BUCKETED, Frame(CHAFF, initial), first);
    var rest, frames, _ := FrameBackend(IDLE_CHAFF_WINDOW, turns);
    out, emitted := first.bytes + rest, [Frame(CHAFF, initial)] + frames;
    FirstFrame(Frame(CHAFF, initial), frames);
  }

  lemma FirstFrame(chaff: Frame, frames: seq<Frame>)
    requires chaff.kind == CHAFF
    ensures EncodeAll(BUCKETED, [chaff] + frames) == EncodeFrame(BUCKETED, chaff) + EncodeAll(BUCKETED, frames)
    ensures DataBytes([chaff] + frames) == DataBytes(frames)
    ensures ChaffCount([chaff] + frames) == ChaffCount(frames) + 1
  {
    hide EncodeFrame, ChaffCount, ChaffBytes;
    assert ([chaff] + frames)[1..] == frames;
    CountCons(chaff, frames);
  }
}
