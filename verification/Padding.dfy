/**
  Mode 0 padding: front-loaded chaff, payload first. Clock readings (nanoseconds) and
  random draws are injected.
  */
module Padding {
  import opened Bytes
  import opened Framing

  const MS: nat := 1_000_000
  const PAYLOAD_COOLDOWN: nat := 5 * MS
  const FRONT_WINDOW: nat := 3000 * MS
  const MAX_CHAFF_QUEUE: nat := 64

  /** A size `sample_chaff_size` can return: one of the first twelve buckets. */
  predicate IsChaffSize(n: nat) {
    n in LENGTH_BUCKETS[..12]
  }

  lemma ChaffSizeBound(n: nat)
    requires IsChaffSize(n)
    ensures 64 <= n <= 4096
  {
  }

  predicate IsChaff(f: Frame) {
    f.kind == CHAFF && IsChaffSize(|f.payload|)
  }

  /** `now.saturating_duration_since(start)` */
  function Since(start: int, now: int): nat {
    if now >= start then now - start else 0
  }

  predicate Cooled(lastPayloadAt: Option<int>, now: int) {
    lastPayloadAt.Some? ==> Since(lastPayloadAt.value, now) >= PAYLOAD_COOLDOWN
  }

  /** The part of a scheduler that decides about chaff. */
  datatype Chaffing = Chaffing(
    index: nat, start: Option<int>, lastPayload: Option<int>, closed: bool, sent: nat, bytes: nat)

  const INITIAL := Chaffing(0, None, None, false, 0, 0)

  /**
    An idle poll at `now` takes the scheduler from `s` to `t` and yields `r`: a frame exactly
    when the cooldown is over and either the window is still open or queued chaff remains.
    */
  ghost predicate ChaffStep(s: Chaffing, t: Chaffing, now: int, r: Option<Frame>) {
    && t.start == (if s.start.Some? then s.start else Some(now))
    && t.lastPayload == s.lastPayload
    && t.closed == (s.closed || Since(t.start.value, now) >= FRONT_WINDOW)
    && (r.Some? <==> Cooled(s.lastPayload, now) && (!t.closed || s.index < MAX_CHAFF_QUEUE))
    && (r.Some? ==> IsChaff(r.value))
    && t.index == s.index + (if r.Some? && s.index < MAX_CHAFF_QUEUE then 1 else 0)
    && t.sent == s.sent + (if r.Some? then 1 else 0)
    && t.bytes == s.bytes + (if r.Some? then |r.value.payload| else 0)
  }

  /** The queue made from the first draws. */
  function QueueOf(draws: seq<Octets>): (q: seq<Frame>)
    ensures |q| == |draws| && forall i :: 0 <= i < |q| ==> q[i] == Frame(CHAFF, draws[i])
  {
    seq(|draws|, i requires 0 <= i < |draws| => Frame(CHAFF, draws[i]))
  }

  /** The chaff that is next: queued frames in order, then a fresh draw. */
  function ChaffFrom(queue: seq<Frame>, index: nat, draw: Octets): Frame {
    if index < |queue| then queue[index] else Frame(CHAFF, draw)
  }

  class FrontChaffScheduler {
    var chaffQueue: seq<Frame>
    var queueIndex: nat
    var connectionStart: Option<int>
    var lastPayloadAt: Option<int>
    var chaffBytes: nat
    var payloadBytes: nat
    var chaffFramesSent: nat
    var frontWindowClosed: bool

    ghost predicate Valid()
      reads this
    {
      && |chaffQueue| == MAX_CHAFF_QUEUE && queueIndex <= MAX_CHAFF_QUEUE
      && (forall i :: 0 <= i < |chaffQueue| ==> IsChaff(chaffQueue[i]))
      && (frontWindowClosed ==> connectionStart.Some?)
      && (connectionStart.None? ==> queueIndex == 0)
    }

    ghost function State(): Chaffing
      reads this
    {
      Chaffing(queueIndex, connectionStart, lastPayloadAt, frontWindowClosed, chaffFramesSent, chaffBytes)
    }

    constructor (draws: seq<Octets>)
      requires |draws| == MAX_CHAFF_QUEUE
      requires forall i :: 0 <= i < |draws| ==> IsChaffSize(|draws[i]|)
      ensures Valid() && State() == INITIAL && payloadBytes == 0 && chaffQueue == QueueOf(draws)
    {
      chaffQueue := [];
      queueIndex, connectionStart, lastPayloadAt := 0, None, None;
      chaffBytes, payloadBytes, chaffFramesSent, frontWindowClosed := 0, 0, 0, false;
      new;
      while |chaffQueue| < MAX_CHAFF_QUEUE
        invariant |chaffQueue| <= MAX_CHAFF_QUEUE
        invariant forall i :: 0 <= i < |chaffQueue| ==> IsChaff(chaffQueue[i])
        invariant forall i :: 0 <= i < |chaffQueue| ==> chaffQueue[i] == Frame(CHAFF, draws[i])
        invariant State() == INITIAL && payloadBytes == 0
        decreases MAX_CHAFF_QUEUE - |chaffQueue|
      {
        chaffQueue := chaffQueue + [Frame(CHAFF, draws[|chaffQueue|])];
      }
    }

    predicate ShouldInjectChaff(now: int)
      reads this
    {
      && Cooled(lastPayloadAt, now)
      && (frontWindowClosed ==> queueIndex < |chaffQueue|)
    }

    /** No poll at this or any later instant yields chaff again. */
    predicate IsDone(now: int)
      reads this
    {
      && (frontWindowClosed || (connectionStart.Some? && Since(connectionStart.value, now) >= FRONT_WINDOW))
      && queueIndex >= |chaffQueue|
    }

    method OnPayloadSent(now: int, len: nat)
      requires Valid()
      modifies this`payloadBytes, this`lastPayloadAt
      ensures Valid() && payloadBytes == old(payloadBytes) + len
      ensures State() == old(State()).(lastPayload := Some(now))
    {
      payloadBytes := payloadBytes + len;
      lastPayloadAt := Some(now);
    }

    /** Queued chaff goes first, in order; after it, a fresh draw while the window lasts. */
    method PollChaff(now: int, draw: Octets) returns (r: Option<Frame>)
      requires Valid() && IsChaffSize(|draw|)
      modifies this
      ensures Valid() && chaffQueue == old(chaffQueue) && payloadBytes == old(payloadBytes)
      ensures ChaffStep(old(State()), State(), now, r)
      ensures r.Some? ==> r.value == ChaffFrom(chaffQueue, old(queueIndex), draw)
    {
      if connectionStart.None? {
        connectionStart := Some(now);
      }
      if Since(connectionStart.value, now) >= FRONT_WINDOW {
        frontWindowClosed := true;
      }
      if !ShouldInjectChaff(now) {
        return None;
      }
      if queueIndex < |chaffQueue| {
        var frame := chaffQueue[queueIndex];
        queueIndex := queueIndex + 1;
        chaffBytes := chaffBytes + |frame.payload|;
        chaffFramesSent := chaffFramesSent + 1;
        return Some(frame);
      }
      if !frontWindowClosed {
        var frame := Frame(CHAFF, draw);
        chaffBytes := chaffBytes + |frame.payload|;
        chaffFramesSent := chaffFramesSent + 1;
        return Some(frame);
      }
      return None;
    }
  }

  class PayloadQueue {
    var frames: seq<Frame>
    var queuedBytes: nat

    constructor ()
      ensures frames == [] && queuedBytes == 0
    {
      frames, queuedBytes := [], 0;
    }

    method Push(frame: Frame)
      modifies this
      ensures frames == old(frames) + [frame] && queuedBytes == old(queuedBytes) + |frame.payload|
    {
      queuedBytes := queuedBytes + |frame.payload|;
      frames := frames + [frame];
    }

    /** First in, first out. */
    method Pop() returns (r: Option<Frame>)
      modifies this`frames
      ensures old(frames) == [] ==> r == None && frames == []
      ensures old(frames) != [] ==> r == Some(old(frames)[0]) && old(frames) == [r.value] + frames
    {
      if frames == [] {
        return None;
      }
      r := Some(frames[0]);
      frames := frames[1..];
    }
  }

  class WriteStrategy {
    const payloadQueue: PayloadQueue
    const chaffScheduler: FrontChaffScheduler

    constructor (draws: seq<Octets>)
      requires |draws| == MAX_CHAFF_QUEUE
      requires forall i :: 0 <= i < |draws| ==> IsChaffSize(|draws[i]|)
      ensures fresh(payloadQueue) && fresh(chaffScheduler) && chaffScheduler.Valid()
      ensures payloadQueue.frames == []
      ensures chaffScheduler.State() == INITIAL && chaffScheduler.chaffQueue == QueueOf(draws)
    {
      payloadQueue := new PayloadQueue();
      chaffScheduler := new FrontChaffScheduler(draws);
    }

    /** Payload always goes before chaff. */
    method NextFrame(now: int, draw: Octets) returns (r: Option<Frame>)
      requires chaffScheduler.Valid() && IsChaffSize(|draw|)
      modifies payloadQueue, chaffScheduler
      ensures chaffScheduler.Valid() && chaffScheduler.chaffQueue == old(chaffScheduler.chaffQueue)
      ensures old(payloadQueue.frames) != [] ==>
                && r == Some(old(payloadQueue.frames)[0]) && old(payloadQueue.frames) == [r.value] + payloadQueue.frames
                && chaffScheduler.State() == old(chaffScheduler.State()).(lastPayload := Some(now))
      ensures old(payloadQueue.frames) == [] ==>
                && payloadQueue.frames == []
                && ChaffStep(old(chaffScheduler.State()), chaffScheduler.State(), now, r)
                && (r.Some? ==>
                      r.value == ChaffFrom(chaffScheduler.chaffQueue, old(chaffScheduler.queueIndex), draw))
    {
      var payload := payloadQueue.Pop();
      if payload.Some? {
        chaffScheduler.OnPayloadSent(now, |payload.value.payload|);
        return payload;
      }
      r := chaffScheduler.PollChaff(now, draw);
    }

    /** The queue is empty and so is the schedule: a driver needs no timer. */
    predicate WaitsForPayload(now: int)
      reads payloadQueue, chaffScheduler
    {
      payloadQueue.frames == [] && chaffScheduler.IsDone(now)
    }
  }
}
