/** The client's ferry: the up and down loops of one tunnel. */
module Ferry {
  import opened Bytes
  import opened Framing
  import opened Streams
  import opened Padding
  import opened Session

  const READ_SIZE: nat := 8192
  const IDLE_TICK: nat := 20 * MS

  /**
    What happens at the local socket during one turn of the up loop: bytes arrive (none
    means end-of-file), or twenty milliseconds pass without any. `head` is the clock at the
    top of the turn, `wire` the clock when the session is asked for a frame, `draw` what the
    random generator would give.
    */
  datatype Turn =
    | Local(head: int, wire: int, draw: Octets, bytes: Octets)
    | Tick(head: int, wire: int, draw: Octets)

  ghost predicate TurnOk(turn: Turn) {
    && IsChaffSize(|turn.draw|)
    && if turn.Local? then turn.head <= turn.wire && |turn.bytes| <= READ_SIZE else turn.head + IDLE_TICK <= turn.wire
  }

  /** The clock never runs backwards, a tick takes its twenty milliseconds, a read fills at most its buffer. */
  ghost predicate Timeline(turns: seq<Turn>) {
    && (forall i :: 0 <= i < |turns| ==> TurnOk(turns[i]))
    && (forall i, j :: 0 <= i < j < |turns| ==> turns[i].wire <= turns[j].head)
  }

  predicate IsEof(turn: Turn) {
    turn.Local? && turn.bytes == []
  }

  /** The local bytes up to end-of-file. */
  function LocalBytes(turns: seq<Turn>): Octets {
    if turns == [] || IsEof(turns[0]) then []
    else (if turns[0].Local? then turns[0].bytes else []) + LocalBytes(turns[1..])
  }

  /** No chaff frame leaves within five milliseconds after a payload frame that left before it. */
  ghost predicate CooldownKept(frames: seq<Frame>, at: seq<int>)
    requires |frames| == |at|
  {
    forall i, j :: 0 <= i < j < |frames| && frames[i].kind == DATA && frames[j].kind == CHAFF ==>
      at[j] >= at[i] + PAYLOAD_COOLDOWN
  }

  /**
    The chaff ledger the up loop keeps: inside the window the frames sent are twenty
    milliseconds apart, after it only queued frames remain, and one fruitless wake-up at most.
    `last` is the clock of the last wake-up or payload.
    */
  ghost predicate Ledger(s: Chaffing, last: int, wakeups: nat) {
    && s.index <= MAX_CHAFF_QUEUE && s.sent <= 150
    && s.bytes <= 4096 * s.sent
    && (s.index < MAX_CHAFF_QUEUE ==> s.sent == s.index)
    && (s.start.None? ==> s.sent == 0 && !s.closed)
    && (s.start.Some? ==> s.start.value <= last)
    && (s.start.Some? && !s.closed && s.sent > 0 ==> IDLE_TICK * (s.sent - 1) <= last - s.start.value)
    && s.sent <= wakeups <= s.sent + 1
    && (wakeups == s.sent + 1 ==> s.closed && s.index == MAX_CHAFF_QUEUE)
    && (s.lastPayload.Some? ==> s.lastPayload.value <= last)
  }

  lemma PayloadKeepsLedger(s: Chaffing, last: int, now: int, wakeups: nat)
    requires Ledger(s, last, wakeups) && last <= now
    ensures Ledger(s.(lastPayload := Some(now)), now, wakeups)
  {
  }

  /** One wake-up keeps the ledger. */
  lemma TickKeepsLedger(s: Chaffing, t: Chaffing, last: int, head: int, now: int, r: Option<Frame>, wakeups: nat)
    requires Ledger(s, last, wakeups) && last <= head && head + IDLE_TICK <= now
    requires s.start.Some? && s.closed ==> s.index < MAX_CHAFF_QUEUE
    requires ChaffStep(s, t, now, r)
    ensures Ledger(t, now, wakeups + 1)
    ensures r.Some? ==> r.value.kind == CHAFF
    ensures r.None? ==> t.closed && t.index == MAX_CHAFF_QUEUE
    ensures t.closed && s.index < MAX_CHAFF_QUEUE ==> t.index == s.index + 1
  {
    if r.Some? {
      ChaffSizeBound(|r.value.payload|);
    }
  }

  /** The frames sent so far, against the scheduler's own books. */
  ghost predicate Trace(frames: seq<Frame>, at: seq<int>, s: Chaffing, last: int) {
    && |at| == |frames| && CooldownKept(frames, at)
    && (forall f :: f in frames ==> f.kind in {DATA, CHAFF} && |f.payload| <= READ_SIZE)
    && (forall k :: 0 <= k < |at| ==> at[k] <= last)
    && (forall k :: 0 <= k < |at| && frames[k].kind == DATA ==> s.lastPayload.Some? && at[k] <= s.lastPayload.value)
    && ChaffCount(frames) == s.sent && ChaffBytes(frames) == s.bytes
  }

  lemma PayloadKeepsTrace(frames: seq<Frame>, at: seq<int>, s: Chaffing, last: int, f: Frame, now: int)
    requires Trace(frames, at, s, last) && last <= now
    requires f.kind == DATA && |f.payload| <= READ_SIZE
    ensures Trace(frames + [f], at + [now], s.(lastPayload := Some(now)), now)
  {
    CountSnoc(frames, f);
  }

  lemma PollKeepsTrace(frames: seq<Frame>, at: seq<int>, s: Chaffing, t: Chaffing, last: int, r: Option<Frame>,
                       now: int)
    requires Trace(frames, at, s, last) && last <= now && ChaffStep(s, t, now, r)
    ensures if r.Some? then Trace(frames + [r.value], at + [now], t, now) else Trace(frames, at, t, now)
  {
    if r.Some? {
      ChaffSizeBound(|r.value.payload|);
      CountSnoc(frames, r.value);
    }
  }

  /** How one turn moves the session's books from `s` to `t`. */
  ghost predicate TurnEffect(s: Chaffing, t: Chaffing, turn: Turn, sent: Option<Frame>, woke: bool) {
    if turn.Local? then
      sent == Some(Frame(DATA, turn.bytes)) && !woke && t == s.(lastPayload := Some(turn.wire))
    else if woke then
      ChaffStep(s, t, turn.wire, sent) && (s.closed ==> s.index < MAX_CHAFF_QUEUE)
    else
      sent == None && t == s
  }

  /** The loop's books: the ledger, the trace and the clock. */
  ghost predicate Books(s: Chaffing, frames: seq<Frame>, at: seq<int>, last: int, wakeups: nat) {
    Ledger(s, last, wakeups) && Trace(frames, at, s, last)
  }

  lemma TurnKeepsBooks(s: Chaffing, t: Chaffing, turn: Turn, sent: Option<Frame>, woke: bool,
                       frames: seq<Frame>, at: seq<int>, last: int, wakeups: nat)
    requires Books(s, frames, at, last, wakeups) && last <= turn.head && TurnOk(turn)
    requires TurnEffect(s, t, turn, sent, woke)
    ensures Books(t, if sent.Some? then frames + [sent.value] else frames,
                  if sent.Some? then at + [turn.wire] else at,
                  if turn.Local? || woke then turn.wire else last,
                  if woke then wakeups + 1 else wakeups)
    ensures turn.Local? ==> sent == Some(Frame(DATA, turn.bytes)) && !woke
    ensures turn.Tick? && sent.Some? ==> sent.value.kind == CHAFF
  {
    hide Ledger, Trace;
    if turn.Local? {
      PayloadKeepsLedger(s, last, turn.wire, wakeups);
      PayloadKeepsTrace(frames, at, s, last, sent.value, turn.wire);
    } else if woke {
      TickKeepsLedger(s, t, last, turn.head, turn.wire, sent, wakeups);
      PollKeepsTrace(frames, at, s, t, last, sent, turn.wire);
    }
  }

  // ---- The loop as a function of its input ----

  /** Nothing is due at `now` or later unless local bytes come. */
  predicate Waits(s: Chaffing, now: int) {
    && (s.closed || (s.start.Some? && Since(s.start.value, now) >= FRONT_WINDOW))
    && s.index >= MAX_CHAFF_QUEUE
  }

  /** An idle poll, given the queued chaff and the draw that would follow it. */
  function Polled(queue: seq<Frame>, s: Chaffing, now: int, draw: Octets): (Chaffing, Option<Frame>) {
    var start := if s.start.Some? then s.start.value else now;
    var closed := s.closed || Since(start, now) >= FRONT_WINDOW;
    if Cooled(s.lastPayload, now) && (!closed || s.index < MAX_CHAFF_QUEUE) then
      var f := ChaffFrom(queue, s.index, draw);
      var index := if s.index < MAX_CHAFF_QUEUE then s.index + 1 else s.index;
      (Chaffing(index, Some(start), s.lastPayload, closed, s.sent + 1, s.bytes + |f.payload|), Some(f))
    else (Chaffing(s.index, Some(start), s.lastPayload, closed, s.sent, s.bytes), None)
  }

  function TurnStep(queue: seq<Frame>, s: Chaffing, turn: Turn): (Chaffing, Option<Frame>) {
    if turn.Local? then (s.(lastPayload := Some(turn.wire)), Some(Frame(DATA, turn.bytes)))
    else if Waits(s, turn.head) then (s, None)
    else Polled(queue, s, turn.wire, turn.draw)
  }

  /** The frames sent from state `s` on, up to end-of-file. */
  function SentBy(queue: seq<Frame>, s: Chaffing, turns: seq<Turn>): seq<Frame>
    decreases |turns|
  {
    if turns == [] || IsEof(turns[0]) then []
    else
      var (t, sent) := TurnStep(queue, s, turns[0]);
      (if sent.Some? then [sent.value] else []) + SentBy(queue, t, turns[1..])
  }

  lemma PollIsPolled(queue: seq<Frame>, s: Chaffing, t: Chaffing, now: int, draw: Octets, sent: Option<Frame>)
    requires ChaffStep(s, t, now, sent) && (sent.Some? ==> sent.value == ChaffFrom(queue, s.index, draw))
    ensures (t, sent) == Polled(queue, s, now, draw)
  {
    hide IsChaff, ChaffFrom;
  }

  lemma SentByStep(queue: seq<Frame>, s: Chaffing, turns: seq<Turn>, i: nat)
    requires i <= |turns|
    ensures i == |turns| || IsEof(turns[i]) ==> SentBy(queue, s, turns[i..]) == []
    ensures i < |turns| && !IsEof(turns[i]) ==>
              var (t, sent) := TurnStep(queue, s, turns[i]);
              SentBy(queue, s, turns[i..])
              == (if sent.Some? then [sent.value] else []) + SentBy(queue, t, turns[i + 1..])
  {
    hide TurnStep;
    if i < |turns| {
      assert turns[i..][1..] == turns[i + 1..];
    }
  }

  /**
    One turn: local bytes are queued and sent at once; a tick wakes the loop and may send
    chaff, unless the session waits for local bytes, when no timer is armed.
    */
  method UpTurn(up: VeilFrontUp, relay: Buffer, turn: Turn) returns (sent: Option<Frame>, woke: bool)
    requires up.Valid() && up.Queued() == [] && TurnOk(turn)
    modifies up.strategy.payloadQueue, up.strategy.chaffScheduler, relay
    ensures up.Valid() && up.Queued() == []
    ensures relay.bytes == old(relay.bytes) + if sent.Some? then EncodeFrame(BUCKETED, sent.value) else []
    ensures TurnEffect(old(up.State()), up.State(), turn, sent, woke)
    ensures turn.Tick? ==> woke == !Waits(old(up.State()), turn.head)
    ensures up.ChaffQueue() == old(up.ChaffQueue())
    ensures (up.State(), sent) == TurnStep(up.ChaffQueue(), old(up.State()), turn)
  {
    hide EncodeFrame, IsChaffSize, Polled, ChaffFrom;
    ghost var before := up.State();
    assert up.WaitsForLocal(turn.head) == Waits(before, turn.head);
    woke := false;
    if turn.Tick? {
      if up.WaitsForLocal(turn.head) {
        return None, false;
      }
      woke := true;
    } else {
      up.QueueLocal(turn.bytes);
    }
    var wire;
    wire, sent := up.NextWire(turn.wire, turn.draw);
    if wire.Some? {
      relay.PutSlice(wire.value);
    }
    if turn.Tick? {
      PollIsPolled(up.ChaffQueue(), before, up.State(), turn.wire, turn.draw, sent);
    }
  }

  /** The ticks before end-of-file. */
  function Ticks(turns: seq<Turn>): nat {
    if turns == [] || IsEof(turns[0]) then 0
    else (if turns[0].Tick? then 1 else 0) + Ticks(turns[1..])
  }

  /** What all the reads of `turns` brought, and how many turns brought none. */
  function AllRead(turns: seq<Turn>): Octets {
    if turns == [] then [] else (if turns[0].Local? then turns[0].bytes else []) + AllRead(turns[1..])
  }

  function AllTicks(turns: seq<Turn>): nat {
    if turns == [] then 0 else (if turns[0].Tick? then 1 else 0) + AllTicks(turns[1..])
  }

  /** End-of-file is the first read of no bytes: everything before it counts, nothing after it. */
  lemma {:induction false} UpToEof(turns: seq<Turn>, rest: seq<Turn>)
    requires forall i :: 0 <= i < |turns| && turns[i].Local? ==> |turns[i].bytes| > 0
    requires rest == [] || (rest[0].Local? && |rest[0].bytes| == 0)
    ensures LocalBytes(turns + rest) == AllRead(turns) && Ticks(turns + rest) == AllTicks(turns)
  {
    if turns == [] {
      assert turns + rest == rest;
    } else {
      UpToEof(turns[1..], rest);
      assert (turns + rest)[1..] == turns[1..] + rest;
    }
  }

  lemma TurnsStep(turns: seq<Turn>, i: nat)
    requires i < |turns| && !IsEof(turns[i])
    ensures LocalBytes(turns[i..]) == (if turns[i].Local? then turns[i].bytes else []) + LocalBytes(turns[i + 1..])
    ensures Ticks(turns[i..]) == (if turns[i].Tick? then 1 else 0) + Ticks(turns[i + 1..])
  {
    assert turns[i..][1..] == turns[i + 1..];
  }

  /** What is sent and what is still to come, from turn `i` on, make up the whole. */
  ghost predicate Remains(queue: seq<Frame>, turns: seq<Turn>, i: nat, s: Chaffing, sent: seq<Frame>, ticked: nat) {
    && i <= |turns|
    && sent + SentBy(queue, s, turns[i..]) == SentBy(queue, INITIAL, turns)
    && DataBytes(sent) + LocalBytes(turns[i..]) == LocalBytes(turns)
    && ticked + Ticks(turns[i..]) == Ticks(turns)
  }

  lemma AllRemains(queue: seq<Frame>, turns: seq<Turn>)
    ensures Remains(queue, turns, 0, INITIAL, [], 0)
  {
    hide SentBy, LocalBytes, Ticks;
    assert turns[0..] == turns;
  }

  lemma TurnKeepsRemains(queue: seq<Frame>, turns: seq<Turn>, i: nat, s: Chaffing, f: Option<Frame>, sent: seq<Frame>,
                         ticked: nat)
    requires Remains(queue, turns, i, s, sent, ticked) && i < |turns| && !IsEof(turns[i])
    requires TurnStep(queue, s, turns[i]).1 == f
    requires turns[i].Local? ==> f == Some(Frame(DATA, turns[i].bytes))
    requires turns[i].Tick? && f.Some? ==> f.value.kind == CHAFF
    ensures Remains(queue, turns, i + 1, TurnStep(queue, s, turns[i]).0, if f.Some? then sent + [f.value] else sent,
                    if turns[i].Tick? then ticked + 1 else ticked)
  {
    hide SentBy, TurnStep, LocalBytes, Ticks, DataBytes;
    TurnsStep(turns, i);
    SentByStep(queue, s, turns, i);
    if f.Some? {
      DataBytesSnoc(sent, f.value);
    }
  }

  lemma NothingRemains(queue: seq<Frame>, turns: seq<Turn>, i: nat, s: Chaffing, sent: seq<Frame>, ticked: nat)
    requires Remains(queue, turns, i, s, sent, ticked) && (i == |turns| || IsEof(turns[i]))
    ensures sent == SentBy(queue, INITIAL, turns) && DataBytes(sent) == LocalBytes(turns) && ticked == Ticks(turns)
  {
    hide SentBy, DataBytes;
    SentByStep(queue, s, turns, i);
    EndOfTurns(turns, i);
    assert sent + [] == sent;
  }

  lemma EmitKeepsOutput(frames: seq<Frame>, sent: Option<Frame>)
    ensures EncodeAll(BUCKETED, if sent.Some? then frames + [sent.value] else frames)
         == EncodeAll(BUCKETED, frames) + if sent.Some? then EncodeFrame(BUCKETED, sent.value) else []
  {
    hide EncodeFrame, EncodeAll;
    if sent.Some? {
      EncodeAllSnoc(BUCKETED, frames, sent.value);
    }
  }

  /**
    The up loop, over every local schedule and clock: what it writes is exactly the local
    bytes in DATA frames, in order and once, interleaved with at most 150 chaff frames
    (614400 chaff bytes) over the tunnel's life, none within five milliseconds after
    payload. Its timer fires at most 151 times: it sleeps through every further idle tick.
    The frames are those of `SentBy`, one by one.
    */
  method UpFerry(draws: seq<Octets>, turns: seq<Turn>)
    returns (out: Octets, emitted: seq<Frame>, at: seq<int>, wakeups: nat, slept: nat)
    requires |draws| == MAX_CHAFF_QUEUE && forall i :: 0 <= i < |draws| ==> IsChaffSize(|draws[i]|)
    requires Timeline(turns)
    ensures out == EncodeAll(BUCKETED, emitted)
    ensures emitted == SentBy(QueueOf(draws), INITIAL, turns)
    ensures DataBytes(emitted) == LocalBytes(turns)
    ensures forall f :: f in emitted ==> f.kind in {DATA, CHAFF} && |f.payload| <= READ_SIZE
    ensures ChaffCount(emitted) <= 150 && ChaffBytes(emitted) <= 614400
    ensures |at| == |emitted| && CooldownKept(emitted, at)
    ensures wakeups <= 151 && wakeups + slept == Ticks(turns)
  {
    hide EncodeFrame, EncodeAll, DataBytes, Books, IsChaffSize, TurnEffect, LocalBytes, Ticks;
    hide SentBy, TurnStep, QueueOf, Remains;
    var up := new VeilFrontUp(draws);
    var relay := new Buffer([]);
    emitted, at, wakeups, slept := [], [], 0, 0;
    var i := 0;
    ghost var last := if turns == [] then 0 else turns[0].head;
    StartOfTunnel(last);
    AllRemains(QueueOf(draws), turns);
    while i < |turns| && !IsEof(turns[i])
      invariant 0 <= i <= |turns|
      invariant up.Valid() && fresh(up.strategy.payloadQueue) && fresh(up.strategy.chaffScheduler) && fresh(relay)
      invariant up.Queued() == [] && up.ChaffQueue() == QueueOf(draws)
      invariant relay.bytes == EncodeAll(BUCKETED, emitted)
      invariant Remains(QueueOf(draws), turns, i, up.State(), emitted, wakeups + slept)
      invariant i < |turns| ==> last <= turns[i].head
      invariant Books(up.State(), emitted, at, last, wakeups)
    {
      var turn := turns[i];
      ghost var before := up.State();
      var sent, woke := UpTurn(up, relay, turn);
      TurnKeepsBooks(before, up.State(), turn, sent, woke, emitted, at, last, wakeups);
      EmitKeepsOutput(emitted, sent);
      TurnKeepsRemains(QueueOf(draws), turns, i, before, sent, emitted, wakeups + slept);
      if sent.Some? {
        emitted, at := emitted + [sent.value], at + [turn.wire];
      }
      if woke {
        wakeups := wakeups + 1;
      } else if turn.Tick? {
        slept := slept + 1;
      }
      last := if turn.Local? || woke then turn.wire else last;
      i := i + 1;
    }
    EndOfTunnel(emitted, at, up.State(), last, wakeups);
    NothingRemains(QueueOf(draws), turns, i, up.State(), emitted, wakeups + slept);
    out := relay.bytes;
  }

  lemma EndOfTurns(turns: seq<Turn>, i: nat)
    requires i <= |turns| && (i < |turns| ==> IsEof(turns[i]))
    ensures LocalBytes(turns[i..]) == [] && Ticks(turns[i..]) == 0
  {
  }

  lemma StartOfTunnel(last: int)
    ensures Books(INITIAL, [], [], last, 0)
    ensures EncodeAll(BUCKETED, []) == [] && DataBytes([]) == []
  {
  }

  lemma EndOfTunnel(frames: seq<Frame>, at: seq<int>, s: Chaffing, last: int, wakeups: nat)
    requires Books(s, frames, at, last, wakeups)
    ensures ChaffCount(frames) <= 150 && ChaffBytes(frames) <= 614400 && wakeups <= 151
    ensures |at| == |frames| && CooldownKept(frames, at)
    ensures forall f :: f in frames ==> f.kind in {DATA, CHAFF} && |f.payload| <= READ_SIZE
  {
  }

  /** The inner loop of `DownFerry`: writes out every DATA payload the session has, up to need-more or an error. */
  method DrainDown(down: VeilFrontDown, out: Buffer, ghost seen: Octets, ghost had: seq<Frame>)
    returns (r: Next, ghost taken: seq<Frame>)
    requires down.buf != out && Holds(seen, down.buf.bytes, had) && out.bytes == DataBytes(had)
    modifies down.buf, out
    ensures Holds(seen, down.buf.bytes, taken) && out.bytes == DataBytes(taken)
    ensures r.Nothing? ==> DecodeFrame(PLAIN, down.buf.bytes) == NeedMore
    ensures r.Error? ==> DecodeFrame(PLAIN, down.buf.bytes) == Bad(r.error)
    ensures !r.One?
  {
    hide Holds, DecodeFrame, DataBytes;
    taken := had;
    ghost var skipped;
    r, skipped := down.NextPayload(seen, taken);
    while r.One?
      invariant DataBytes(skipped) == [] && out.bytes == DataBytes(taken)
      invariant r.One? ==> r.frame.kind == DATA && Holds(seen, down.buf.bytes, taken + skipped + [r.frame])
      invariant !r.One? ==> Holds(seen, down.buf.bytes, taken + skipped)
      invariant r.Nothing? ==> DecodeFrame(PLAIN, down.buf.bytes) == NeedMore
      invariant r.Error? ==> DecodeFrame(PLAIN, down.buf.bytes) == Bad(r.error)
      decreases |down.buf.bytes|, r.One?
    {
      DataBytesAppend(taken, skipped);
      DataBytesSnoc(taken + skipped, r.frame);
      out.PutSlice(r.frame.payload);
      taken := taken + skipped + [r.frame];
      r, skipped := down.NextPayload(seen, taken);
    }
    DataBytesAppend(taken, skipped);
    taken := taken + skipped;
  }

  /** The down loop: everything the relay sends, in any pieces, arrives as the DATA it carries. */
  method DownFerry(pieces: seq<Octets>) returns (local: Octets, ok: bool)
    ensures local == Delivered(Received(pieces))
    ensures ok <==> Drain(PLAIN, Received(pieces)).error == None
  {
    hide Holds, DecodeFrame, Drain, DataBytes;
    var down := new VeilFrontDown();
    var out := new Buffer([]);
    var i := 0;
    ghost var seen: Octets, taken: seq<Frame> := [], [];
    HoldsInit([]);
    NoData();
    assert pieces[0..] == pieces;
    while true
      invariant 0 <= i <= |pieces| && fresh(down.buf) && fresh(out) && down.buf != out
      invariant seen + Received(pieces[i..]) == Received(pieces)
      invariant Holds(seen, down.buf.bytes, taken) && out.bytes == DataBytes(taken)
      decreases |pieces| - i
    {
      var r;
      r, taken := DrainDown(down, out, seen, taken);
      ReceivedStep(pieces, i);
      if r.Error? {
        HoldsDone(seen, down.buf.bytes, taken, Received(pieces[i..]));
        return out.bytes, false;
      }
      if i == |pieces| || pieces[i] == [] {
        HoldsDone(seen, down.buf.bytes, taken, []);
        return out.bytes, true;
      }
      HoldsRead(seen, down.buf.bytes, taken, pieces[i]);
      down.Feed(pieces[i]);
      assert seen + (pieces[i] + Received(pieces[i + 1..])) == seen + pieces[i] + Received(pieces[i + 1..]);
      seen := seen + pieces[i];
      i := i + 1;
    }
    assert false;
  }

  lemma NoData()
    ensures DataBytes([]) == []
  {
  }

  // ---- The bound is reached ----

  /** The scheduler of a silent client after `k` wake-ups, one every twenty milliseconds. */
  function Silent(k: nat): Chaffing {
    var index := if k < MAX_CHAFF_QUEUE then k else MAX_CHAFF_QUEUE;
    Chaffing(index, if k == 0 then None else Some(0), None, false, k, 4096 * k)
  }

  function SilentTick(k: nat, draw: Octets): Turn {
    Tick((k - 1) * IDLE_TICK, k * IDLE_TICK, draw)
  }

  /** The ticks `k` to 149 of a client that never says anything. */
  function SilentTurns(k: nat, draw: Octets): seq<Turn>
    requires k <= 150
    decreases 150 - k
  {
    if k == 150 then [] else [SilentTick(k, draw)] + SilentTurns(k + 1, draw)
  }

  predicate Largest(draws: seq<Octets>) {
    |draws| == MAX_CHAFF_QUEUE && forall i :: 0 <= i < |draws| ==> |draws[i]| == 4096
  }

  lemma SilentStep(draws: seq<Octets>, draw: Octets, k: nat)
    requires Largest(draws) && |draw| == 4096 && k < 150
    ensures var f := ChaffFrom(QueueOf(draws), k, draw);
            && f.kind == CHAFF && |f.payload| == 4096
            && TurnStep(QueueOf(draws), Silent(k), SilentTick(k, draw)) == (Silent(k + 1), Some(f))
  {
  }

  lemma {:induction false} SilentSends(draws: seq<Octets>, draw: Octets, k: nat)
    requires Largest(draws) && |draw| == 4096 && k <= 150
    ensures var frames := SentBy(QueueOf(draws), Silent(k), SilentTurns(k, draw));
            ChaffCount(frames) == 150 - k && ChaffBytes(frames) == 4096 * (150 - k)
    decreases 150 - k
  {
    hide TurnStep, QueueOf, ChaffFrom, Silent, SilentTick, SentBy, ChaffCount, ChaffBytes;
    var queue, turns := QueueOf(draws), SilentTurns(k, draw);
    assert turns[0..] == turns;
    SentByStep(queue, Silent(k), turns, 0);
    if k == 150 {
      NoChaff();
    } else {
      SilentIsTick(k, draw);
      SilentStep(draws, draw, k);
      SilentSends(draws, draw, k + 1);
      assert turns[1..] == SilentTurns(k + 1, draw);
      CountCons(ChaffFrom(queue, k, draw), SentBy(queue, Silent(k + 1), SilentTurns(k + 1, draw)));
    }
  }

  lemma SilentIsTick(k: nat, draw: Octets)
    ensures SilentTick(k, draw).Tick?
  {
  }

  lemma {:induction false} SilentTurnsAt(k: nat, draw: Octets)
    requires k <= 150
    ensures |SilentTurns(k, draw)| == 150 - k
    ensures forall i :: 0 <= i < 150 - k ==> SilentTurns(k, draw)[i] == SilentTick(k + i, draw)
    decreases 150 - k
  {
    hide SilentTick;
    if k < 150 {
      SilentTurnsAt(k + 1, draw);
    }
  }

  lemma SilentTimeline(draw: Octets)
    requires |draw| == 4096
    ensures Timeline(SilentTurns(0, draw))
  {
    hide SilentTurns;
    SilentTurnsAt(0, draw);
    assert LENGTH_BUCKETS[..12][11] == 4096;
  }

  /** The bound is exact: the up loop of a silent client with the largest draws sends all 150 frames. */
  method BoundIsReached(draws: seq<Octets>, draw: Octets) returns (emitted: seq<Frame>)
    requires Largest(draws) && |draw| == 4096
    ensures ChaffCount(emitted) == 150 && ChaffBytes(emitted) == 614400
  {
    hide Timeline, SilentTurns, SentBy, ChaffCount, ChaffBytes, QueueOf;
    assert forall i :: 0 <= i < |draws| ==> IsChaffSize(|draws[i]|) by {
      assert LENGTH_BUCKETS[..12][11] == 4096;
    }
    SilentTimeline(draw);
    SilentSends(draws, draw, 0);
    var out, at, wakeups, slept;
    out, emitted, at, wakeups, slept := UpFerry(draws, SilentTurns(0, draw));
    assert Silent(0) == INITIAL;
  }

  /** Inside the window chaff waits exactly five milliseconds after payload, and for nothing else. */
  lemma CooldownExactly(queue: seq<Frame>, s: Chaffing, now: int, draw: Octets)
    requires s.start.Some? && !s.closed && now - s.start.value < 3_000_000_000
    ensures Polled(queue, s, now, draw).1.Some? <==>
            s.lastPayload.None? || now - s.lastPayload.value >= 5_000_000
  {
  }

  /** After the window, the same for what is left of the first sixty-four frames, and then no more. */
  lemma AfterWindowExactly(queue: seq<Frame>, s: Chaffing, now: int, draw: Octets)
    requires s.start.Some? && (s.closed || now - s.start.value >= 3_000_000_000)
    ensures Polled(queue, s, now, draw).1.Some? <==>
            s.index < 64 && (s.lastPayload.None? || now - s.lastPayload.value >= 5_000_000)
    ensures Waits(s, now) <==> s.index >= 64
  {
  }

  /** The generated chaff goes out in its order, each frame once, before any fresh draw. */
  lemma QueueInOrder(queue: seq<Frame>, s: Chaffing, now: int, draw: Octets)
    requires |queue| == 64 && s.index <= 64 && Polled(queue, s, now, draw).1.Some?
    ensures var (t, sent) := Polled(queue, s, now, draw);
            if s.index < 64 then sent.value == queue[s.index] && t.index == s.index + 1
            else sent.value == Frame(CHAFF, draw) && t.index == 64
  {
  }
}
