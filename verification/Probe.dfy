/** The probe: is what the relay sends back our tunnel, or the cover site? */
module Probe {
  import opened Bytes
  import opened Framing
  import opened Streams

  const PROBE_LIMIT: nat := 65536

  /** The first frame that is not chaff. */
  function FirstReal(frames: seq<Frame>): Option<Frame> {
    if frames == [] then None
    else if frames[0].kind != CHAFF then Some(frames[0])
    else FirstReal(frames[1..])
  }

  /** What a byte stream shows: a tunnel if its first real frame is DATA; anything else, or an error, is not ours. */
  function Shows(wire: Octets): Option<bool> {
    var d := Drain(PLAIN, wire);
    match FirstReal(d.frames)
    case Some(f) => Some(f.kind == DATA)
    case None => if d.error.Some? then Some(false) else None
  }

  lemma {:induction false} FirstRealAppend(a: seq<Frame>, b: seq<Frame>)
    ensures FirstReal(a + b) == if FirstReal(a).Some? then FirstReal(a) else FirstReal(b)
  {
    if a == [] {
      assert a + b == b;
    } else {
      assert (a + b)[1..] == a[1..] + b;
      FirstRealAppend(a[1..], b);
    }
  }

  /** What a stream shows, every longer stream shows. */
  lemma ShowsStable(wire: Octets, more: Octets)
    requires Shows(wire).Some?
    ensures Shows(wire + more) == Shows(wire)
  {
    hide DecodeFrame;
    DrainAppend(PLAIN, wire, more);
    var d := Drain(PLAIN, wire);
    if d.error.None? {
      FirstRealAppend(d.frames, Drain(PLAIN, d.residue + more).frames);
    }
  }

  /** `probe_verdict`: decodes what is buffered until something other than chaff turns up. */
  method ProbeVerdict(rx: Buffer, ghost seen: Octets, ghost had: seq<Frame>)
    returns (v: Option<bool>, ghost taken: seq<Frame>)
    requires Holds(seen, rx.bytes, had) && FirstReal(had).None?
    modifies rx
    ensures v == Shows(seen)
    ensures v.None? ==> Holds(seen, rx.bytes, taken) && FirstReal(taken).None?
    ensures v.None? ==> DecodeFrame(PLAIN, rx.bytes) == NeedMore
  {
    hide DecodeFrame, Drain, FirstReal;
    taken := had;
    while true
      invariant Holds(seen, rx.bytes, taken) && FirstReal(taken).None?
      decreases |rx.bytes|
    {
      ghost var was := rx.bytes;
      var next := Decode(PLAIN, rx);
      match next {
        case One(f) =>
          HoldsTake(seen, was, taken, f, rx.bytes);
          FirstRealAppend(taken, [f]);
          FirstRealOne(f);
          taken := taken + [f];
          if f.kind != CHAFF {
            FirstRealAppend(taken, Drain(PLAIN, rx.bytes).frames);
            return Some(f.kind == DATA), taken;
          }
        case Nothing =>
          HoldsDone(seen, was, taken, []);
          assert seen + [] == seen;
          return None, taken;
        case Error(_) =>
          HoldsDone(seen, was, taken, []);
          assert seen + [] == seen;
          return Some(false), taken;
      }
    }
    assert false;
  }

  lemma FirstRealOne(f: Frame)
    ensures FirstReal([f]) == if f.kind != CHAFF then Some(f) else None
  {
    assert [f][1..] == [];
  }

  datatype ProbeEnd = Tunnel | NotOurs | RelayClosed | TooMuch

  /** A verdict if the bytes show one, else giving up. */
  function EndOn(shows: Option<bool>): ProbeEnd {
    match shows
    case Some(ours) => if ours then Tunnel else NotOurs
    case None => TooMuch
  }

  /**
    The probe's read loop: it stops after the first read, its `taken`th, by which the bytes
    read show something or exceed the limit; or when the relay closes before either.
    */
  method ProbeLoop(pieces: seq<Octets>) returns (r: ProbeEnd, taken: nat)
    ensures taken <= |pieces|
    ensures r.RelayClosed? ==> |Received(pieces)| <= PROBE_LIMIT && Shows(Received(pieces)) == None
    ensures !r.RelayClosed? ==>
              && taken > 0 && r == EndOn(Shows(Flatten(pieces[..taken])))
              && (r.TooMuch? ==> |Flatten(pieces[..taken])| > PROBE_LIMIT)
              && |Flatten(pieces[..taken - 1])| <= PROBE_LIMIT && Shows(Flatten(pieces[..taken - 1])) == None
              && Flatten(pieces[..taken]) <= Received(pieces)
  {
    hide DecodeFrame, Drain, Holds, Shows, FirstReal, Flatten;
    var rx := new Buffer([]);
    var total := 0;
    taken := 0;
    ghost var seen: Octets, frames: seq<Frame> := [], [];
    HoldsInit([]);
    NoFrames();
    assert pieces[0..] == pieces;
    while true
      invariant 0 <= taken <= |pieces| && fresh(rx) && total == |seen| <= PROBE_LIMIT
      invariant seen + Received(pieces[taken..]) == Received(pieces) && seen == Flatten(pieces[..taken])
      invariant Holds(seen, rx.bytes, frames) && FirstReal(frames).None? && DecodeFrame(PLAIN, rx.bytes) == NeedMore
      invariant Shows(seen) == None
      decreases |pieces| - taken
    {
      ReceivedStep(pieces, taken);
      if taken == |pieces| || pieces[taken] == [] {
        assert seen + [] == seen;
        return RelayClosed, taken;
      }
      var piece := pieces[taken];
      HoldsRead(seen, rx.bytes, frames, piece);
      rx.PutSlice(piece);
      total := total + |piece|;
      assert seen + (piece + Received(pieces[taken + 1..])) == seen + piece + Received(pieces[taken + 1..]);
      FlattenSnoc(pieces[..taken], piece);
      assert pieces[..taken + 1] == pieces[..taken] + [piece];
      seen := seen + piece;
      var v;
      v, frames := ProbeVerdict(rx, seen, frames);
      taken := taken + 1;
      if v.Some? || total > PROBE_LIMIT {
        return EndOn(v), taken;
      }
    }
    assert false;
  }

  lemma NoFrames()
    ensures Shows([]) == None && FirstReal([]) == None && DecodeFrame(PLAIN, []) == NeedMore
    ensures Flatten<u8>([]) == []
  {
  }

  /** The stream is short, or its first 65537 bytes show something, or all of it shows nothing. */
  predicate CutProof(stream: Octets) {
    |stream| <= PROBE_LIMIT || Shows(stream[..PROBE_LIMIT + 1]).Some? || Shows(stream).None?
  }

  /** How the probe of such a stream ends. */
  function EndOf(stream: Octets): ProbeEnd {
    if |stream| <= PROBE_LIMIT && Shows(stream).None? then RelayClosed else EndOn(Shows(stream))
  }

  /** A stream that shows nothing has no prefix that does, and a prefix that shows something settles the stream. */
  lemma ShowsPrefix(stream: Octets, prefix: Octets)
    requires prefix <= stream && Shows(prefix).Some?
    ensures Shows(stream) == Shows(prefix)
  {
    hide Shows;
    assert stream == prefix + stream[|prefix|..];
    ShowsStable(prefix, stream[|prefix|..]);
  }

  /** Every cut of such a stream ends the probe alike. */
  method ProbeAnyCut(ghost stream: Octets, pieces: seq<Octets>) returns (r: ProbeEnd)
    requires CutOf(pieces, stream) && CutProof(stream)
    ensures r == EndOf(stream)
  {
    hide Shows, Flatten, Received;
    CutIsReceived(pieces, stream);
    var taken;
    r, taken := ProbeLoop(pieces);
    if !r.RelayClosed? {
      ghost var seen := Flatten(pieces[..taken]);
      if r.TooMuch? {
        if Shows(stream[..PROBE_LIMIT + 1]).Some? {
          assert stream[..PROBE_LIMIT + 1] <= seen;
          ShowsPrefix(seen, stream[..PROBE_LIMIT + 1]);
        }
      } else {
        ShowsPrefix(stream, seen);
      }
    }
  }

  /** And every other stream has two cuts that do not: in one piece it gets its verdict, in two the probe gives up. */
  method ProbeTwoCuts(stream: Octets) returns (pieces: seq<Octets>, r: ProbeEnd, pieces': seq<Octets>, r': ProbeEnd)
    requires !CutProof(stream)
    ensures CutOf(pieces, stream) && CutOf(pieces', stream)
    ensures !r.TooMuch? && r'.TooMuch?
  {
    hide Shows;
    var n := PROBE_LIMIT + 1;
    pieces, pieces' := [stream], [stream[..n], stream[n..]];
    CutWhole(stream);
    CutAt(stream, n);
    CutIsReceived(pieces, stream);
    CutIsReceived(pieces', stream);
    var taken, taken';
    r, taken := ProbeLoop(pieces);
    assert pieces[..1] == pieces;
    r', taken' := ProbeLoop(pieces');
    assert pieces'[..1] == [stream[..n]];
  }

  lemma CutWhole(stream: Octets)
    requires stream != []
    ensures CutOf([stream], stream) && Flatten([stream]) == stream
  {
    assert [stream][1..] == [];
  }

  lemma CutAt(stream: Octets, n: nat)
    requires 0 < n < |stream|
    ensures CutOf([stream[..n], stream[n..]], stream) && Flatten([stream[..n]]) == stream[..n]
  {
    assert [stream[..n], stream[n..]] == [stream[..n]] + [stream[n..]];
    CutWhole(stream[..n]);
    FlattenSnoc([stream[..n]], stream[n..]);
  }

  /** Such a stream: one large chaff frame before the first DATA. */
  lemma NotCutProof(chaff: Frame, data: Frame)
    requires chaff.kind == CHAFF && |chaff.payload| == PROBE_LIMIT && data.kind == DATA && |data.payload| <= PROBE_LIMIT
    ensures !CutProof(EncodeAll(BUCKETED, [chaff, data]))
  {
    hide EncodeFrame, DecodeFrame;
    var frames := [chaff, data];
    var stream, wire := EncodeAll(BUCKETED, frames), EncodeFrame(BUCKETED, chaff);
    DeliveredOfEncoded(frames);
    assert FirstReal(frames) == Some(data) by {
      assert frames == [chaff] + [data];
      FirstRealAppend([chaff], [data]);
      FirstRealOne(chaff);
      FirstRealOne(data);
    }
    assert stream == wire + EncodeAll(BUCKETED, frames[1..]);
    LargeFrame(chaff);
    DecodePrefix(chaff, stream, PROBE_LIMIT + 1);
    assert Drain(PLAIN, stream[..PROBE_LIMIT + 1]) == Drained([], stream[..PROBE_LIMIT + 1], None);
  }

  lemma LargeFrame(f: Frame)
    requires |f.payload| == PROBE_LIMIT
    ensures |EncodeFrame(BUCKETED, f)| > PROBE_LIMIT + 1
  {
    hide EncodeFrame, BucketFor;
    EncodedLength(BUCKETED, f);
  }

  // ---- What the relay may answer ----

  ghost predicate AllChaff(frames: seq<Frame>) {
    AllFit(frames) && forall f :: f in frames ==> f.kind == CHAFF
  }

  lemma {:induction false} ChaffIsNotReal(frames: seq<Frame>)
    requires AllChaff(frames)
    ensures FirstReal(frames) == None
  {
    if frames != [] {
      ChaffIsNotReal(frames[1..]);
    }
  }

  lemma ShowsFrame(chaff: seq<Frame>, f: Frame)
    requires AllChaff(chaff) && f.kind != CHAFF && |f.payload| <= DEFAULT_MAX_PAYLOAD
    ensures Shows(EncodeAll(BUCKETED, chaff + [f])) == Some(f.kind == DATA)
  {
    hide EncodeAll, FirstReal, Drain;
    DeliveredOfEncoded(chaff + [f]);
    ChaffIsNotReal(chaff);
    FirstRealAppend(chaff, [f]);
    FirstRealOne(f);
  }

  lemma ShowsFault(chaff: seq<Frame>, junk: Octets, e: FrameError)
    requires AllChaff(chaff) && Faulty(PLAIN, junk, e)
    ensures Shows(EncodeAll(BUCKETED, chaff) + junk) == Some(false)
  {
    hide EncodeAll, FirstReal, Faulty;
    ErrorExactly(PLAIN, junk, e);
    assert Drain(PLAIN, junk) == Drained([], junk, Some(e));
    DrainEncoded(chaff, junk);
    assert chaff + [] == chaff;
    ChaffIsNotReal(chaff);
  }

  lemma SettledEarly(stream: Octets, head: Octets)
    requires head <= stream && |head| <= PROBE_LIMIT + 1 && Shows(head).Some?
    ensures CutProof(stream) && EndOf(stream) == EndOn(Shows(head))
  {
    hide Shows;
    ShowsPrefix(stream, head);
    if |stream| > PROBE_LIMIT {
      ShowsPrefix(stream[..PROBE_LIMIT + 1], head);
    }
  }

  /**
    The probe of a relay that sends chaff and then `f`, in any pieces: DATA is our tunnel,
    and any other frame is not.
    */
  method ProbeFrame(ghost chaff: seq<Frame>, f: Frame, ghost tail: Octets, pieces: seq<Octets>) returns (r: ProbeEnd)
    requires AllChaff(chaff) && f.kind != CHAFF && |f.payload| <= DEFAULT_MAX_PAYLOAD
    requires |EncodeAll(BUCKETED, chaff + [f])| <= PROBE_LIMIT + 1
    requires CutOf(pieces, EncodeAll(BUCKETED, chaff + [f]) + tail)
    ensures r == if f.kind == DATA then Tunnel else NotOurs
  {
    hide EncodeAll, Shows, Flatten, CutProof, EndOf;
    ghost var head := EncodeAll(BUCKETED, chaff + [f]);
    ShowsFrame(chaff, f);
    SettledEarly(head + tail, head);
    r := ProbeAnyCut(head + tail, pieces);
  }

  /** The probe of a peer that sends chaff, if anything, and then bytes with a fault: not our tunnel. */
  method ProbeFault(ghost chaff: seq<Frame>, ghost junk: Octets, ghost e: FrameError, ghost tail: Octets,
                    pieces: seq<Octets>)
    returns (r: ProbeEnd)
    requires AllChaff(chaff) && Faulty(PLAIN, junk, e)
    requires |EncodeAll(BUCKETED, chaff)| + |junk| <= PROBE_LIMIT + 1
    requires CutOf(pieces, EncodeAll(BUCKETED, chaff) + junk + tail)
    ensures r == NotOurs
  {
    hide EncodeAll, Shows, Flatten, CutProof, EndOf, Faulty;
    ghost var head := EncodeAll(BUCKETED, chaff) + junk;
    ShowsFault(chaff, junk, e);
    SettledEarly(head + tail, head);
    r := ProbeAnyCut(head + tail, pieces);
  }
}
