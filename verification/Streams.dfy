/** Frame streams: draining a buffer, feeding it in pieces, and carrying DATA over hops. */
module Streams {
  import opened Bytes
  import opened Framing

  // ---- Draining and chunking ----

  /** Everything a decode loop gets out of a buffer: frames, what is left, and the error it stopped on. */
  datatype Drained = Drained(frames: seq<Frame>, residue: Octets, error: Option<FrameError>)

  function Drain(c: Codec, buf: Octets): (d: Drained)
    ensures forall f :: f in d.frames ==> |f.payload| <= c.maxPayload
    decreases |buf|
  {
    match DecodeFrame(c, buf)
    case NeedMore => Drained([], buf, None)
    case Bad(e) => Drained([], buf, Some(e))
    case Got(f, rest) =>
      var d := Drain(c, rest);
      Drained([f] + d.frames, d.residue, d.error)
  }

  /** One more chunk arrives: decode what is now complete; after an error nothing is decoded. */
  function Feed(c: Codec, d: Drained, chunk: Octets): Drained {
    if d.error.Some? then d.(residue := d.residue + chunk)
    else
      var e := Drain(c, d.residue + chunk);
      Drained(d.frames + e.frames, e.residue, e.error)
  }

  function FeedAll(c: Codec, d: Drained, chunks: seq<Octets>): Drained
    decreases |chunks|
  {
    if chunks == [] then d else FeedAll(c, Feed(c, d, chunks[0]), chunks[1..])
  }

  lemma {:induction false} DrainAppend(c: Codec, a: Octets, b: Octets)
    ensures Feed(c, Drain(c, a), b) == Drain(c, a + b)
    decreases |a|
  {
    hide ParseHeader;
    match DecodeFrame(c, a) {
      case NeedMore =>
      case Bad(e) =>
        DecodeStable(c, a, b);
      case Got(f, rest) =>
        DecodeStable(c, a, b);
        DrainAppend(c, rest, b);
        var d, e := Drain(c, rest), Drain(c, Drain(c, rest).residue + b);
        assert [f] + d.frames + e.frames == [f] + (d.frames + e.frames);
    }
  }

  /**
    Confluence: feeding a stream in any chunks, draining after each, gives the frames,
    the residue and the error that decoding it whole gives.
    */
  lemma {:induction false} ChunkingConfluence(c: Codec, buf: Octets, chunks: seq<Octets>)
    ensures FeedAll(c, Drain(c, buf), chunks) == Drain(c, buf + Flatten(chunks))
    decreases |chunks|
  {
    hide Drain, Feed;
    if chunks == [] {
      assert buf + Flatten(chunks) == buf;
    } else {
      DrainAppend(c, buf, chunks[0]);
      ChunkingConfluence(c, buf + chunks[0], chunks[1..]);
      assert buf + chunks[0] + Flatten(chunks[1..]) == buf + Flatten(chunks);
    }
  }

  /** The residue holds no further frame: only the start of one, or the bytes of the error. */
  lemma {:induction false} ResidueIsStuck(c: Codec, buf: Octets)
    ensures var d := Drain(c, buf);
            DecodeFrame(c, d.residue) == if d.error.Some? then Bad(d.error.value) else NeedMore
    decreases |buf|
  {
    match DecodeFrame(c, buf) {
      case Got(f, rest) => ResidueIsStuck(c, rest);
      case _ =>
    }
  }

  // ---- Streams the encoder writes ----

  function EncodeAll(c: Codec, frames: seq<Frame>): Octets {
    if frames == [] then [] else EncodeFrame(c, frames[0]) + EncodeAll(c, frames[1..])
  }

  lemma {:induction false} EncodeAllAppend(c: Codec, a: seq<Frame>, b: seq<Frame>)
    ensures EncodeAll(c, a + b) == EncodeAll(c, a) + EncodeAll(c, b)
  {
    if a == [] {
      assert a + b == b;
    } else {
      assert (a + b)[1..] == a[1..] + b;
      EncodeAllAppend(c, a[1..], b);
    }
  }

  lemma EncodeAllSnoc(c: Codec, a: seq<Frame>, f: Frame)
    ensures EncodeAll(c, a + [f]) == EncodeAll(c, a) + EncodeFrame(c, f)
  {
    EncodeAllAppend(c, a, [f]);
    assert EncodeAll(c, [f]) == EncodeFrame(c, f) + EncodeAll(c, [f][1..]);
  }

  ghost predicate AllFit(frames: seq<Frame>) {
    forall f :: f in frames ==> |f.payload| <= DEFAULT_MAX_PAYLOAD
  }

  /** Bucketed frames decode to themselves, with nothing left over and whatever follows intact. */
  lemma {:induction false} DrainEncoded(frames: seq<Frame>, tail: Octets)
    requires AllFit(frames)
    ensures var d := Drain(PLAIN, tail);
            Drain(PLAIN, EncodeAll(BUCKETED, frames) + tail) == Drained(frames + d.frames, d.residue, d.error)
  {
    hide EncodeFrame, ParseHeader, DecodeFrame;
    if frames == [] {
      assert EncodeAll(BUCKETED, frames) + tail == tail;
    } else {
      var rest := EncodeAll(BUCKETED, frames[1..]) + tail;
      BucketedRoundTrip(frames[0], rest);
      assert EncodeAll(BUCKETED, frames) + tail == EncodeFrame(BUCKETED, frames[0]) + rest;
      DrainEncoded(frames[1..], tail);
      assert frames + Drain(PLAIN, tail).frames == [frames[0]] + (frames[1..] + Drain(PLAIN, tail).frames);
    }
  }

  // ---- The DATA a stream carries ----

  function DataFrames(frames: seq<Frame>): (r: seq<Frame>)
    ensures forall f :: f in r ==> f.kind == DATA && f in frames
  {
    if frames == [] then []
    else (if frames[0].kind == DATA then [frames[0]] else []) + DataFrames(frames[1..])
  }

  function DataBytes(frames: seq<Frame>): Octets {
    if frames == [] then []
    else (if frames[0].kind == DATA then frames[0].payload else []) + DataBytes(frames[1..])
  }

  lemma {:induction false} DataBytesAppend(a: seq<Frame>, b: seq<Frame>)
    ensures DataBytes(a + b) == DataBytes(a) + DataBytes(b)
  {
    if a == [] {
      assert a + b == b;
    } else {
      assert (a + b)[1..] == a[1..] + b;
      DataBytesAppend(a[1..], b);
    }
  }

  lemma DataBytesSnoc(a: seq<Frame>, f: Frame)
    ensures DataBytes(a + [f]) == DataBytes(a) + if f.kind == DATA then f.payload else []
  {
    DataBytesAppend(a, [f]);
    assert DataBytes([f][1..]) == [];
  }

  lemma {:induction false} DataFramesAppend(a: seq<Frame>, b: seq<Frame>)
    ensures DataFrames(a + b) == DataFrames(a) + DataFrames(b)
  {
    if a == [] {
      assert a + b == b;
    } else {
      assert (a + b)[1..] == a[1..] + b;
      DataFramesAppend(a[1..], b);
    }
  }

  lemma {:induction false} DataBytesOfDataFrames(frames: seq<Frame>)
    ensures DataBytes(DataFrames(frames)) == DataBytes(frames)
  {
    if frames != [] {
      DataBytesOfDataFrames(frames[1..]);
      DataBytesAppend(if frames[0].kind == DATA then [frames[0]] else [], DataFrames(frames[1..]));
      assert [frames[0]][1..] == [];
    }
  }

  function ChaffCount(frames: seq<Frame>): nat {
    if frames == [] then 0
    else ChaffCount(frames[..|frames| - 1]) + if frames[|frames| - 1].kind == CHAFF then 1 else 0
  }

  function ChaffBytes(frames: seq<Frame>): nat {
    if frames == [] then 0
    else ChaffBytes(frames[..|frames| - 1])
         + if frames[|frames| - 1].kind == CHAFF then |frames[|frames| - 1].payload| else 0
  }

  lemma CountSnoc(frames: seq<Frame>, f: Frame)
    ensures ChaffCount(frames + [f]) == ChaffCount(frames) + if f.kind == CHAFF then 1 else 0
    ensures ChaffBytes(frames + [f]) == ChaffBytes(frames) + if f.kind == CHAFF then |f.payload| else 0
  {
    assert (frames + [f])[..|frames|] == frames;
  }

  lemma {:induction false} CountCons(f: Frame, frames: seq<Frame>)
    ensures ChaffCount([f] + frames) == ChaffCount(frames) + if f.kind == CHAFF then 1 else 0
    ensures ChaffBytes([f] + frames) == ChaffBytes(frames) + if f.kind == CHAFF then |f.payload| else 0
  {
    if frames == [] {
      assert ([f] + frames)[..0] == [];
    } else {
      var n := |frames| - 1;
      CountCons(f, frames[..n]);
      assert ([f] + frames)[..n + 1] == [f] + frames[..n];
    }
  }

  lemma NoChaff()
    ensures ChaffCount([]) == 0 && ChaffBytes([]) == 0
  {
  }

  /** What a de-framing end hands on from the wire bytes `wire`. */
  function Delivered(wire: Octets): Octets {
    DataBytes(Drain(PLAIN, wire).frames)
  }

  /** What a relay writes to the next hop from the wire bytes `wire`: fresh frames, DATA only. */
  function Reframed(wire: Octets): Octets {
    EncodeAll(BUCKETED, DataFrames(Drain(PLAIN, wire).frames))
  }

  /** A bucketed stream delivers its DATA payloads: chaff and padding leave no trace. */
  lemma DeliveredOfEncoded(frames: seq<Frame>)
    requires AllFit(frames)
    ensures Delivered(EncodeAll(BUCKETED, frames)) == DataBytes(frames)
    ensures Drain(PLAIN, EncodeAll(BUCKETED, frames)) == Drained(frames, [], None)
  {
    DrainEncoded(frames, []);
    assert EncodeAll(BUCKETED, frames) + [] == EncodeAll(BUCKETED, frames);
    assert Drain(PLAIN, []) == Drained([], [], None);
    assert frames + [] == frames;
  }

  /**
    Hop transparency and hop isolation, for every byte stream a peer may send, even a bad one:
    the next hop sees exactly its DATA, in frames of the relay's own making.
    */
  lemma HopTransparency(wire: Octets)
    ensures Delivered(Reframed(wire)) == Delivered(wire)
    ensures Drain(PLAIN, Reframed(wire)) == Drained(DataFrames(Drain(PLAIN, wire).frames), [], None)
  {
    var data := DataFrames(Drain(PLAIN, wire).frames);
    DeliveredOfEncoded(data);
    DataBytesOfDataFrames(Drain(PLAIN, wire).frames);
  }

  /** Cutting a stream short never delivers anything but a prefix of what it would have delivered. */
  lemma TruncationDeliversPrefix(wire: Octets, lost: Octets)
    ensures Delivered(wire) <= Delivered(wire + lost)
  {
    DrainAppend(PLAIN, wire, lost);
    var d := Drain(PLAIN, wire);
    if d.error.None? {
      DataBytesAppend(d.frames, Drain(PLAIN, d.residue + lost).frames);
    }
  }

  // ---- Decode loops ----

  /**
    A decode loop has taken `out` off a stream of which `seen` has arrived, and still holds
    `buf`: what was taken and what is buffered add up to the stream.
    */
  ghost predicate Holds(seen: Octets, buf: Octets, taken: seq<Frame>) {
    var whole, held := Drain(PLAIN, seen), Drain(PLAIN, buf);
    && whole.residue == held.residue && whole.error == held.error
    && whole.frames == taken + held.frames
  }

  lemma HoldsInit(buf: Octets)
    ensures Holds(buf, buf, [])
  {
  }

  /** Taking the next frame off the buffer keeps the balance. */
  lemma HoldsTake(seen: Octets, buf: Octets, taken: seq<Frame>, f: Frame, rest: Octets)
    requires Holds(seen, buf, taken) && DecodeFrame(PLAIN, buf) == Got(f, rest)
    ensures Holds(seen, rest, taken + [f])
  {
    hide DecodeFrame;
    assert taken + ([f] + Drain(PLAIN, rest).frames) == taken + [f] + Drain(PLAIN, rest).frames;
  }

  /** So does appending a newly read chunk to an exhausted buffer. */
  lemma HoldsRead(seen: Octets, buf: Octets, taken: seq<Frame>, chunk: Octets)
    requires Holds(seen, buf, taken) && DecodeFrame(PLAIN, buf) == NeedMore
    ensures Holds(seen + chunk, buf + chunk, taken)
    ensures Drain(PLAIN, seen).frames == taken
  {
    hide DecodeFrame;
    DrainAppend(PLAIN, seen, chunk);
    assert taken + [] == taken;
  }

  /** A loop that runs dry, or stops at an error, has taken all the whole stream will ever give. */
  lemma HoldsDone(seen: Octets, buf: Octets, taken: seq<Frame>, unread: Octets)
    requires Holds(seen, buf, taken) && !DecodeFrame(PLAIN, buf).Got?
    requires DecodeFrame(PLAIN, buf).NeedMore? ==> unread == []
    ensures Drain(PLAIN, seen + unread).frames == taken
    ensures Drain(PLAIN, seen + unread).error ==
            if DecodeFrame(PLAIN, buf).Bad? then Some(DecodeFrame(PLAIN, buf).error) else None
  {
    hide ParseHeader;
    DrainAppend(PLAIN, seen, unread);
    assert taken + [] == taken;
    assert seen + [] == seen;
  }

  lemma ReceivedStep(pieces: seq<Octets>, i: nat)
    requires i <= |pieces|
    ensures Received(pieces[i..]) ==
            if i == |pieces| || pieces[i] == [] then [] else pieces[i] + Received(pieces[i + 1..])
  {
    if i < |pieces| {
      assert pieces[i..][1..] == pieces[i + 1..];
    }
  }
}
