/** The veil-front frame codec: version byte, type, two length fields, payload, padding. */
module Framing {
  import opened Bytes
  import Varint

  const WIRE_VER: u8 := 3

  const AUTH: u8 := 0
  const DATA: u8 := 1
  const CHAFF: u8 := 2
  const AUTH_V2: u8 := 3
  const AUTH_V3: u8 := 4

  const DEFAULT_MAX_PAYLOAD: nat := 1024 * 1024
  const USIZE_MAX_32: nat := 0xFFFF_FFFF
  const USIZE_MAX_64: nat := 0xFFFF_FFFF_FFFF_FFFF

  const LENGTH_BUCKETS: seq<nat> :=
    [64, 128, 192, 256, 384, 512, 768, 1024, 1536, 2048, 3072, 4096, 6144, 8192, 12288, 16384]

  datatype Frame = Frame(kind: u8, payload: Octets)

  /** A codec's settings; `usizeMax` is the largest length the target's word holds. */
  datatype Codec = Codec(maxPayload: nat, buckets: Option<seq<nat>>, usizeMax: nat) {
    predicate Valid() {
      && maxPayload <= usizeMax <= USIZE_MAX_64
      && (buckets.Some? ==> forall b :: b in buckets.value ==> b <= usizeMax)
    }
  }

  /** `VeilFrontCodec::default()` and `.with_buckets(LENGTH_BUCKETS)`. */
  const PLAIN := Codec(DEFAULT_MAX_PAYLOAD, None, USIZE_MAX_64)
  const BUCKETED := Codec(DEFAULT_MAX_PAYLOAD, Some(LENGTH_BUCKETS), USIZE_MAX_64)

  // ---- Encoding ----

  /** The first bucket that holds `len`, or `len` itself. */
  function BucketFor(buckets: seq<nat>, len: nat): (b: nat)
    ensures b >= len && (b == len || b in buckets)
  {
    if buckets == [] then len
    else if buckets[0] >= len then buckets[0]
    else BucketFor(buckets[1..], len)
  }

  function PadLen(c: Codec, len: nat): nat {
    if c.buckets.Some? then BucketFor(c.buckets.value, len) - len else 0
  }

  function Zeros(n: nat): (z: Octets)
    ensures |z| == n
  {
    seq(n, _ => 0)
  }

  /** A frame on the wire with `pad` as its padding bytes. */
  function WireImage(f: Frame, pad: Octets): Octets {
    [WIRE_VER, f.kind] + Varint.Encode(|f.payload|) + Varint.Encode(|pad|) + f.payload + pad
  }

  function EncodeFrame(c: Codec, f: Frame): Octets {
    WireImage(f, Zeros(PadLen(c, |f.payload|)))
  }

  /** `pick_bucket` */
  method PickBucket(buckets: seq<nat>, len: nat) returns (b: nat)
    ensures b == BucketFor(buckets, len)
  {
    assert buckets[0..] == buckets;
    for i := 0 to |buckets|
      invariant BucketFor(buckets, len) == BucketFor(buckets[i..], len)
    {
      if buckets[i] >= len {
        return buckets[i];
      }
      assert buckets[i..][1..] == buckets[i + 1..];
    }
    return len;
  }

  /** On an ascending table the first fitting bucket is the least fitting bucket. */
  lemma {:induction false} BucketForIsLeast(buckets: seq<nat>, len: nat)
    requires forall i, j :: 0 <= i < j < |buckets| ==> buckets[i] < buckets[j]
    ensures forall b :: b in buckets && b >= len ==> BucketFor(buckets, len) in buckets && BucketFor(buckets, len) <= b
  {
    if buckets != [] && buckets[0] < len {
      BucketForIsLeast(buckets[1..], len);
      forall b | b in buckets && b >= len
        ensures b in buckets[1..]
      {
        var i :| 0 <= i < |buckets| && buckets[i] == b;
        assert buckets[1..][i - 1] == b;
      }
    }
  }

  /** `VeilFrontCodec::encode` */
  method Encode(c: Codec, item: Frame, dst: Buffer)
    modifies dst
    ensures dst.bytes == old(dst.bytes) + EncodeFrame(c, item)
  {
    hide Varint.Encode;
    var payloadLen := |item.payload|;
    var padLen := 0;
    if c.buckets.Some? {
      var bucket := PickBucket(c.buckets.value, payloadLen);
      padLen := bucket - payloadLen;
    }
    dst.PutU8(WIRE_VER);
    dst.PutU8(item.kind);
    var _ := Varint.EncodeVarint(payloadLen, dst);
    var _ := Varint.EncodeVarint(padLen, dst);
    dst.PutSlice(item.payload);
    if padLen > 0 {
      dst.PutSlice(Zeros(padLen));
    }
  }

  // ---- Decoding ----

  datatype FrameError =
    | WrongVersion(got: u8)
    | MalformedPayloadLen
    | PayloadTooLarge(len: nat)
    | MalformedPadLen
    | PadTooLarge(len: nat)
    | LengthOverflow

  datatype Header =
    | NeedHeader
    | Header(kind: u8, payloadLen: nat, padLen: nat, size: nat)
    | BadHeader(error: FrameError)

  /** `bounded_len`: a wire length as a `usize` no larger than `max`. */
  predicate Bounded(c: Codec, len: nat) {
    len <= c.usizeMax && len <= c.maxPayload
  }

  function ParseHeader(c: Codec, src: Octets): Header {
    if src == [] then NeedHeader
    else if src[0] != WIRE_VER then BadHeader(WrongVersion(src[0]))
    else if |src| < 2 then NeedHeader
    else
      match Varint.Decode(src[2..])
      case Incomplete => NeedHeader
      case Malformed => BadHeader(MalformedPayloadLen)
      case Value(len, n) =>
        if !Bounded(c, len) then BadHeader(PayloadTooLarge(len))
        else if |src| <= 2 + n then NeedHeader
        else
          match Varint.Decode(src[2 + n..])
          case Incomplete => NeedHeader
          case Malformed => BadHeader(MalformedPadLen)
          case Value(pad, m) =>
            if !Bounded(c, pad) then BadHeader(PadTooLarge(pad))
            else if 2 + n + m + len + pad > c.usizeMax then BadHeader(LengthOverflow)
            else Header(src[1], len, pad, 2 + n + m)
  }

  datatype Decoded = NeedMore | Got(frame: Frame, rest: Octets) | Bad(error: FrameError)

  function DecodeFrame(c: Codec, src: Octets): (r: Decoded)
    ensures r.Got? ==> |r.rest| < |src| && |r.frame.payload| <= c.maxPayload
  {
    match ParseHeader(c, src)
    case NeedHeader => NeedMore
    case BadHeader(e) => Bad(e)
    case Header(kind, len, pad, size) =>
      if |src| < size + len + pad then NeedMore
      else Got(Frame(kind, src[size..size + len]), src[size + len + pad..])
  }

  /** Lengths the decoder lets through. */
  predicate Fits(c: Codec, len: nat, pad: nat) {
    && Bounded(c, len) && Bounded(c, pad)
    && 2 + |Varint.Encode(len)| + |Varint.Encode(pad)| + len + pad <= c.usizeMax
  }

  /** What the decoder makes of a header with any two u64 lengths: accepted exactly when they fit. */
  lemma HeaderOf(c: Codec, kind: u8, len: nat, pad: nat, tail: Octets)
    requires len < U64_LIMIT && pad < U64_LIMIT
    ensures var n, m := |Varint.Encode(len)|, |Varint.Encode(pad)|;
            var h := ParseHeader(c, [WIRE_VER, kind] + Varint.Encode(len) + Varint.Encode(pad) + tail);
            if Fits(c, len, pad) then h == Header(kind, len, pad, 2 + n + m) else h.BadHeader?
  {
    hide Varint.Encode;
    Varint.RoundTrip(len, Varint.Encode(pad) + tail);
    Varint.RoundTrip(pad, tail);
    HeaderFrom(c, kind, Varint.Encode(len), len, Varint.Encode(pad), pad, tail);
  }

  lemma HeaderFrom(c: Codec, kind: u8, a: Octets, len: nat, b: Octets, pad: nat, tail: Octets)
    requires Varint.Decode(a + (b + tail)) == Varint.Value(len, |a|)
    requires b != [] && Varint.Decode(b + tail) == Varint.Value(pad, |b|)
    ensures var h := ParseHeader(c, [WIRE_VER, kind] + a + b + tail);
            if Bounded(c, len) && Bounded(c, pad) && 2 + |a| + |b| + len + pad <= c.usizeMax
            then h == Header(kind, len, pad, 2 + |a| + |b|) else h.BadHeader?
  {
    hide Varint.DecodeFrom;
    var src := [WIRE_VER, kind] + a + b + tail;
    assert src[2..] == a + (b + tail);
    assert src[2 + |a|..] == b + tail;
  }

  lemma HeaderShape(c: Codec, src: Octets)
    requires ParseHeader(c, src).Header?
    ensures var Header(kind, len, pad, size) := ParseHeader(c, src);
            && len < U64_LIMIT && pad < U64_LIMIT && Fits(c, len, pad) && size <= |src|
            && src[..size] == [WIRE_VER, kind] + Varint.Encode(len) + Varint.Encode(pad)
  {
    hide Varint.DecodeFrom;
    var Header(kind, len, pad, size) := ParseHeader(c, src);
    var n := Varint.Decode(src[2..]).n;
    var m := size - 2 - n;
    Varint.ValueExactly(src[2..], len, n);
    Varint.ValueExactly(src[2 + n..], pad, m);
    assert src[2..][..n] == Varint.Encode(len);
    assert src[2 + n..][..m] == Varint.Encode(pad);
    assert src[..size] == src[..2] + src[2..][..n] + src[2 + n..][..m];
    assert src[..2] == [WIRE_VER, kind];
  }

  /**
    The decoder, exactly: it yields `f` and leaves `rest` when and only when the buffer
    starts with an image of `f` under some padding the limits allow.
    */
  lemma DecodeExactly(c: Codec, src: Octets, f: Frame, rest: Octets)
    requires c.Valid()
    ensures DecodeFrame(c, src) == Got(f, rest) <==>
            exists pad :: Fits(c, |f.payload|, |pad|) && src == WireImage(f, pad) + rest
  {
    hide Varint.Encode, ParseHeader;
    if DecodeFrame(c, src) == Got(f, rest) {
      HeaderShape(c, src);
      var Header(kind, len, padLen, size) := ParseHeader(c, src);
      SplitFour(src, size, len, padLen);
      var pad := src[size + len..size + len + padLen];
      assert src == WireImage(f, pad) + rest;
      assert Fits(c, |f.payload|, |pad|);
    }
    forall pad | Fits(c, |f.payload|, |pad|) && src == WireImage(f, pad) + rest
      ensures DecodeFrame(c, src) == Got(f, rest)
    {
      DecodeImage(c, f, pad, rest);
    }
  }

  lemma DecodeImage(c: Codec, f: Frame, pad: Octets, rest: Octets)
    requires |f.payload| < U64_LIMIT && |pad| < U64_LIMIT
    ensures var r := DecodeFrame(c, WireImage(f, pad) + rest);
            if Fits(c, |f.payload|, |pad|) then r == Got(f, rest) else r.Bad?
  {
    hide Varint.Encode, ParseHeader, Fits;
    var head := [WIRE_VER, f.kind] + Varint.Encode(|f.payload|) + Varint.Encode(|pad|);
    HeaderOf(c, f.kind, |f.payload|, |pad|, f.payload + pad + rest);
    assert WireImage(f, pad) + rest == head + (f.payload + pad + rest);
    SliceFour(head, f.payload, pad, rest);
  }

  lemma SplitFour(s: Octets, a: nat, b: nat, c: nat)
    requires a + b + c <= |s|
    ensures s == s[..a] + s[a..a + b] + s[a + b..a + b + c] + s[a + b + c..]
  {
  }

  lemma SliceFour(a: Octets, b: Octets, c: Octets, d: Octets)
    ensures var s := a + (b + c + d);
            && s[|a|..|a| + |b|] == b && s[|a| + |b| + |c|..] == d
            && |s| >= |a| + |b| + |c|
  {
  }

  /** Encode with one codec, decode with another: the frame survives exactly when its lengths fit. */
  lemma RoundTrip(enc: Codec, dec: Codec, f: Frame, suffix: Octets)
    requires enc.Valid() && dec.Valid() && |f.payload| <= enc.usizeMax
    ensures var r := DecodeFrame(dec, EncodeFrame(enc, f) + suffix);
            if Fits(dec, |f.payload|, PadLen(enc, |f.payload|)) then r == Got(f, suffix) else r.Bad?
  {
    hide Varint.Encode;
    DecodeImage(dec, f, Zeros(PadLen(enc, |f.payload|)), suffix);
  }

  /** A parsed header, or a header error, never changes when bytes are appended. */
  lemma HeaderStable(c: Codec, src: Octets, more: Octets)
    requires !ParseHeader(c, src).NeedHeader?
    ensures ParseHeader(c, src + more) == ParseHeader(c, src)
  {
    hide Varint.DecodeFrom;
    if src[0] == WIRE_VER {
      assert (src + more)[2..] == src[2..] + more;
      Varint.Stable(src[2..], more);
      match Varint.Decode(src[2..]) {
        case Value(len, n) =>
          if Bounded(c, len) {
            assert (src + more)[2 + n..] == src[2 + n..] + more;
            Varint.Stable(src[2 + n..], more);
          }
        case _ =>
      }
    }
  }

  /** Neither a decoded frame nor an error changes when bytes are appended. */
  lemma DecodeStable(c: Codec, src: Octets, more: Octets)
    requires !DecodeFrame(c, src).NeedMore?
    ensures DecodeFrame(c, src + more) ==
            match DecodeFrame(c, src) { case Got(f, rest) => Got(f, rest + more) case other => other }
  {
    hide Varint.DecodeFrom;
    HeaderStable(c, src, more);
    match ParseHeader(c, src) {
      case Header(kind, len, pad, size) =>
        assert (src + more)[size..size + len] == src[size..size + len];
        assert (src + more)[size + len + pad..] == src[size + len + pad..] + more;
      case _ =>
    }
  }

  /** The lengths are compared before any narrowing, so 32- and 64-bit targets decode alike. */
  lemma WordSizeIrrelevant(max: nat, src: Octets)
    requires max <= 0x7FFF_0000
    ensures DecodeFrame(Codec(max, None, USIZE_MAX_32), src) == DecodeFrame(Codec(max, None, USIZE_MAX_64), src)
  {
    hide Varint.DecodeFrom;
    if |src| >= 2 && Varint.Decode(src[2..]).Value? {
      Varint.ValueLength(src[2..]);
      var n := Varint.Decode(src[2..]).n;
      if Varint.Decode(src[2 + n..]).Value? {
        Varint.ValueLength(src[2 + n..]);
      }
    }
  }

  datatype Next = Nothing | One(frame: Frame) | Error(error: FrameError)

  /** `VeilFrontCodec::decode`: takes one frame off the front of `src`, or leaves it alone. */
  method Decode(c: Codec, src: Buffer) returns (r: Next)
    modifies src
    ensures match DecodeFrame(c, old(src.bytes)) {
              case Got(f, rest) => r == One(f) && src.bytes == rest
              case NeedMore => r == Nothing && src.bytes == old(src.bytes)
              case Bad(e) => r == Error(e) && src.bytes == old(src.bytes)
            }
  {
    hide Varint.DecodeFrom;
    if src.bytes == [] {
      return Nothing;
    }
    if src.bytes[0] != WIRE_VER {
      return Error(WrongVersion(src.bytes[0]));
    }
    if |src.bytes| < 2 {
      return Nothing;
    }
    var kind := src.bytes[1];
    var first := Varint.DecodeVarintChecked(src.bytes[2..]);
    if first.Incomplete? {
      return Nothing;
    } else if first.Malformed? {
      return Error(MalformedPayloadLen);
    }
    var payloadLen, vbPayload := first.v, first.n;
    if !Bounded(c, payloadLen) {
      return Error(PayloadTooLarge(payloadLen));
    }
    if |src.bytes| <= 2 + vbPayload {
      return Nothing;
    }
    var second := Varint.DecodeVarintChecked(src.bytes[2 + vbPayload..]);
    if second.Incomplete? {
      return Nothing;
    } else if second.Malformed? {
      return Error(MalformedPadLen);
    }
    var padLen, vbPad := second.v, second.n;
    if !Bounded(c, padLen) {
      return Error(PadTooLarge(padLen));
    }
    var headerLen := 2 + vbPayload + vbPad;
    var totalLen := headerLen + payloadLen + padLen;
    if totalLen > c.usizeMax {
      return Error(LengthOverflow);
    }
    if |src.bytes| < totalLen {
      return Nothing;
    }
    src.bytes := src.bytes[headerLen..];
    var payload := src.bytes[..payloadLen];
    src.bytes := src.bytes[payloadLen..];
    src.bytes := src.bytes[padLen..];
    return One(Frame(kind, payload));
  }

  // ---- Padding arithmetic ----

  lemma BucketsAscend()
    ensures forall i, j :: 0 <= i < j < |LENGTH_BUCKETS| ==> LENGTH_BUCKETS[i] < LENGTH_BUCKETS[j]
    ensures forall b :: b in LENGTH_BUCKETS ==> 64 <= b <= 16384
  {
  }

  lemma BucketAtMost(len: nat, i: nat)
    requires i < |LENGTH_BUCKETS| && len <= LENGTH_BUCKETS[i]
    ensures BucketFor(LENGTH_BUCKETS, len) in LENGTH_BUCKETS
    ensures BucketFor(LENGTH_BUCKETS, len) <= LENGTH_BUCKETS[i]
    ensures forall b :: b in LENGTH_BUCKETS && b >= len ==> BucketFor(LENGTH_BUCKETS, len) <= b
  {
    BucketsAscend();
    BucketForIsLeast(LENGTH_BUCKETS, len);
    assert LENGTH_BUCKETS[i] in LENGTH_BUCKETS;
  }

  /** Padding never exceeds 4095 bytes on payloads the table covers. */
  lemma PadAtMost(len: nat)
    requires len <= 16384
    ensures BucketFor(LENGTH_BUCKETS, len) - len <= 4095
  {
    BucketAtMost(len, if len <= 64 then 0 else if len <= 4096 then 11 else if len <= 8192 then 13
                      else if len <= 12288 then 14 else 15);
  }

  /** The bytes a length field takes. */
  function FieldSize(v: nat): nat {
    if v < 128 then 1 else if v < 16384 then 2 else 3
  }

  lemma VarintLen(v: nat)
    requires v <= 16384
    ensures |Varint.Encode(v)| == FieldSize(v)
  {
  }

  /** A payload of up to 16384 bytes travels as its least bucket plus a header of 4 to 6 bytes. */
  lemma BucketedLength(f: Frame)
    requires |f.payload| <= 16384
    ensures var b := BucketFor(LENGTH_BUCKETS, |f.payload|);
            && b in LENGTH_BUCKETS && (forall x :: x in LENGTH_BUCKETS && x >= |f.payload| ==> b <= x)
            && |EncodeFrame(BUCKETED, f)| == b + 2 + FieldSize(|f.payload|) + FieldSize(b - |f.payload|)
            && b + 4 <= |EncodeFrame(BUCKETED, f)| <= b + 6
  {
    hide EncodeFrame, Varint.Encode, BucketFor;
    var len := |f.payload|;
    LastBucket();
    BucketAtMost(len, 15);
    PadAtMost(len);
    VarintLen(len);
    VarintLen(PadLen(BUCKETED, len));
    EncodedLength(BUCKETED, f);
  }

  lemma LastBucket()
    ensures |LENGTH_BUCKETS| == 16 && LENGTH_BUCKETS[15] == 16384
  {
  }

  lemma EncodedLength(c: Codec, f: Frame)
    ensures var len := |f.payload|;
            var pad := PadLen(c, len);
            |EncodeFrame(c, f)| == 2 + |Varint.Encode(len)| + |Varint.Encode(pad)| + len + pad
  {
    hide Varint.Encode, PadLen;
  }

  /** A DATA frame made from one 8192-byte read stays below the 16384-byte record limit. */
  lemma ReadFitsRecord(f: Frame)
    requires |f.payload| <= 8192
    ensures |EncodeFrame(BUCKETED, f)| <= 8198
  {
    BucketedLength(f);
    BucketAtMost(|f.payload|, 13);
  }

  /** Two payloads of one bucket leave frames of one length exactly when their length fields add up the same. */
  lemma SameRecordLengthExactly(a: Frame, b: Frame)
    requires |a.payload| <= 16384 && |b.payload| <= 16384
    requires BucketFor(LENGTH_BUCKETS, |a.payload|) == BucketFor(LENGTH_BUCKETS, |b.payload|)
    ensures var bucket := BucketFor(LENGTH_BUCKETS, |a.payload|);
            |EncodeFrame(BUCKETED, a)| == |EncodeFrame(BUCKETED, b)| <==>
              FieldSize(|a.payload|) + FieldSize(bucket - |a.payload|)
              == FieldSize(|b.payload|) + FieldSize(bucket - |b.payload|)
  {
    hide EncodeFrame, BucketFor;
    BucketedLength(a);
    BucketedLength(b);
  }

  /** So a bucket does not fix the record length: 65 and 128 bytes share a bucket and differ on the wire. */
  lemma BucketsDoNotFixRecordLength(a: Frame, b: Frame)
    requires |a.payload| == 65 && |b.payload| == 128
    ensures BucketFor(LENGTH_BUCKETS, 65) == BucketFor(LENGTH_BUCKETS, 128) == 128
    ensures |EncodeFrame(BUCKETED, a)| == 132 && |EncodeFrame(BUCKETED, b)| == 133
  {
    BucketAtMost(65, 1);
    BucketAtMost(128, 1);
    assert BucketFor(LENGTH_BUCKETS, 65) != 64;
    VarintLen(65);
    VarintLen(63);
    VarintLen(128);
    VarintLen(0);
  }

  /** What the default decoder accepts from the bucketing encoder: every payload up to its limit. */
  lemma BucketedFits(len: nat)
    ensures Fits(PLAIN, len, PadLen(BUCKETED, len)) <==> len <= DEFAULT_MAX_PAYLOAD
  {
    hide Varint.Encode, BucketFor;
    if len <= DEFAULT_MAX_PAYLOAD {
      BucketsAscend();
      var pad := PadLen(BUCKETED, len);
      assert pad <= 16384;
      Varint.RoundTrip(len, []);
      Varint.RoundTrip(pad, []);
    }
  }

  /** One bucketed frame in front of anything decodes to itself, for every payload within the limit. */
  lemma BucketedRoundTrip(f: Frame, suffix: Octets)
    requires |f.payload| <= DEFAULT_MAX_PAYLOAD
    ensures DecodeFrame(PLAIN, EncodeFrame(BUCKETED, f) + suffix) == Got(f, suffix)
  {
    hide DecodeFrame, EncodeFrame, Fits;
    BucketsAscend();
    BucketedFits(|f.payload|);
    RoundTrip(BUCKETED, PLAIN, f, suffix);
  }

  /** A strict prefix of a frame decides nothing; the whole frame decides, whatever follows. */
  lemma DecodePrefix(f: Frame, stream: Octets, m: nat)
    requires |f.payload| <= DEFAULT_MAX_PAYLOAD && EncodeFrame(BUCKETED, f) <= stream && m <= |stream|
    ensures var n := |EncodeFrame(BUCKETED, f)|;
            DecodeFrame(PLAIN, stream[..m]) == if m < n then NeedMore else Got(f, stream[n..m])
  {
    hide EncodeFrame, DecodeFrame;
    var wire := EncodeFrame(BUCKETED, f);
    if m < |wire| {
      BucketedRoundTrip(f, []);
      assert wire + [] == wire == stream[..m] + wire[m..];
      if DecodeFrame(PLAIN, stream[..m]) != NeedMore {
        DecodeStable(PLAIN, stream[..m], wire[m..]);
      }
    } else {
      BucketedRoundTrip(f, stream[|wire|..m]);
      assert stream[..m] == wire + stream[|wire|..m];
    }
  }

  // ---- What "need more" and each error mean ----

  /** `src` is the start of a frame with some payload and padding, cut short. */
  ghost predicate Unfinished(src: Octets, f: Frame, pad: Octets) {
    |f.payload| < U64_LIMIT && |pad| < U64_LIMIT && src < WireImage(f, pad)
  }

  lemma ImageParts(f: Frame, pad: Octets, head: Octets, body: Octets)
    requires head == [WIRE_VER, f.kind] + Varint.Encode(|f.payload|) + Varint.Encode(|pad|) && body == f.payload + pad
    ensures WireImage(f, pad) == head + body
  {
    hide Varint.Encode;
  }

  /** A buffer that ends inside one of the two length fields, or between them. */
  lemma CutInHeader(src: Octets, kind: u8, len: nat, pad: nat)
    requires len < U64_LIMIT && pad < U64_LIMIT
    requires src < [WIRE_VER, kind] + Varint.Encode(len) + Varint.Encode(pad)
    ensures Unfinished(src, Frame(kind, Zeros(len)), Zeros(pad))
  {
    hide Varint.Encode, WireImage;
    var f, p := Frame(kind, Zeros(len)), Zeros(pad);
    var head := [WIRE_VER, kind] + Varint.Encode(len) + Varint.Encode(pad);
    ImageParts(f, p, head, f.payload + p);
    assert src < head + (f.payload + p);
  }

  /** A buffer that ends inside payload or padding. */
  lemma CutInBody(src: Octets, kind: u8, len: nat, pad: nat) returns (f: Frame, p: Octets)
    requires len < U64_LIMIT && pad < U64_LIMIT
    requires var head := [WIRE_VER, kind] + Varint.Encode(len) + Varint.Encode(pad);
             head <= src && |src| < |head| + len + pad
    ensures Unfinished(src, f, p)
  {
    hide Varint.Encode, WireImage;
    var head := [WIRE_VER, kind] + Varint.Encode(len) + Varint.Encode(pad);
    var body := src[|head|..] + Zeros(|head| + len + pad - |src|);
    f, p := Frame(kind, body[..len]), body[len..];
    assert f.payload + p == body;
    ImageParts(f, p, head, body);
    assert head + body == src + Zeros(|head| + len + pad - |src|);
  }

  /** "Need more" is only ever said of a frame cut short: bytes that no frame starts with are an error. */
  lemma NeedMoreIsUnfinished(c: Codec, src: Octets) returns (f: Frame, pad: Octets)
    requires DecodeFrame(c, src).NeedMore?
    ensures Unfinished(src, f, pad)
  {
    hide Varint.Encode, Varint.DecodeFrom, WireImage, Unfinished;
    f, pad := Frame(0, []), [];
    if |src| < 2 {
      ShortHeader(src);
      f, pad := Frame(0, Zeros(0)), Zeros(0);
    } else {
      var kind := src[1];
      assert src == [WIRE_VER, kind] + src[2..];
      match Varint.Decode(src[2..]) {
        case Incomplete =>
          var len := Varint.IncompleteIsPrefix(src[2..]);
          CutBefore(src, kind, len, src[2..], [], 0);
          f, pad := Frame(kind, Zeros(len)), Zeros(0);
        case Value(len, n) =>
          Varint.ValueExactly(src[2..], len, n);
          var rest := src[2 + n..];
          assert src == [WIRE_VER, kind] + Varint.Encode(len) + rest;
          if |src| <= 2 + n {
            CutBetween(src, kind, len, rest, 0);
            f, pad := Frame(kind, Zeros(len)), Zeros(0);
          } else {
            match Varint.Decode(rest) {
              case Incomplete =>
                var p := Varint.IncompleteIsPrefix(rest);
                CutBetween(src, kind, len, rest, p);
                f, pad := Frame(kind, Zeros(len)), Zeros(p);
              case Value(p, m) =>
                Varint.ValueExactly(rest, p, m);
                assert [WIRE_VER, kind] + Varint.Encode(len) + Varint.Encode(p) <= src;
                f, pad := CutInBody(src, kind, len, p);
              case Malformed => assert false;
            }
          }
        case Malformed => assert false;
      }
    }
  }

  lemma ShortHeader(src: Octets)
    requires |src| < 2 && (src != [] ==> src[0] == WIRE_VER)
    ensures Unfinished(src, Frame(0, Zeros(0)), Zeros(0))
  {
    hide Varint.Encode;
  }

  lemma CutBefore(src: Octets, kind: u8, len: nat, part: Octets, after: Octets, pad: nat)
    requires len < U64_LIMIT && pad < U64_LIMIT && src == [WIRE_VER, kind] + part
    requires Varint.Encode(len) == part + [1] + after
    ensures Unfinished(src, Frame(kind, Zeros(len)), Zeros(pad))
  {
    hide Varint.Encode, Unfinished;
    assert src < [WIRE_VER, kind] + (part + [1] + after) + Varint.Encode(pad);
    CutInHeader(src, kind, len, pad);
  }

  lemma CutBetween(src: Octets, kind: u8, len: nat, part: Octets, pad: nat)
    requires len < U64_LIMIT && pad < U64_LIMIT && src == [WIRE_VER, kind] + Varint.Encode(len) + part
    requires part == [] || Varint.Encode(pad) == part + [1]
    ensures Unfinished(src, Frame(kind, Zeros(len)), Zeros(pad))
  {
    hide Varint.Encode, Unfinished;
    Varint.RoundTrip(pad, []);
    assert part < Varint.Encode(pad);
    CutInHeader(src, kind, len, pad);
  }

  /** And it is said of every frame the limits allow, cut short anywhere. */
  lemma UnfinishedNeedsMore(c: Codec, src: Octets, f: Frame, pad: Octets)
    requires c.Valid() && Fits(c, |f.payload|, |pad|) && Unfinished(src, f, pad)
    ensures DecodeFrame(c, src) == NeedMore
  {
    hide DecodeFrame, WireImage, Fits;
    var wire := WireImage(f, pad);
    DecodeImage(c, f, pad, []);
    assert wire + [] == wire == src + wire[|src|..];
    if DecodeFrame(c, src) != NeedMore {
      DecodeStable(c, src, wire[|src|..]);
    }
  }

  /** The buffer gives a payload length, and goes on after it with `rest`. */
  ghost predicate GivesLen(src: Octets, len: nat, rest: Octets) {
    len < U64_LIMIT && |src| >= 2 && src == [WIRE_VER, src[1]] + Varint.Encode(len) + rest
  }

  ghost predicate GivesPad(rest: Octets, pad: nat) {
    pad < U64_LIMIT && Varint.Encode(pad) <= rest
  }

  /** No u64 is written there, whatever follows. */
  ghost predicate NoLength(s: Octets) {
    forall more :: !Varint.Completes(s, more)
  }

  /** What each error says about the bytes. */
  ghost predicate Faulty(c: Codec, src: Octets, e: FrameError) {
    match e
    case WrongVersion(got) => src != [] && src[0] == got != WIRE_VER
    case MalformedPayloadLen => |src| >= 2 && src[0] == WIRE_VER && NoLength(src[2..])
    case PayloadTooLarge(len) => !Bounded(c, len) && exists rest :: GivesLen(src, len, rest)
    case MalformedPadLen =>
      exists len, rest :: GivesLen(src, len, rest) && Bounded(c, len) && rest != [] && NoLength(rest)
    case PadTooLarge(pad) =>
      !Bounded(c, pad) && exists len, rest :: GivesLen(src, len, rest) && Bounded(c, len) && GivesPad(rest, pad)
    case LengthOverflow => exists len, rest, pad ::
      && GivesLen(src, len, rest) && GivesPad(rest, pad) && Bounded(c, len) && Bounded(c, pad)
      && 2 + |Varint.Encode(len)| + |Varint.Encode(pad)| + len + pad > c.usizeMax
  }

  lemma LenRead(src: Octets, len: nat, rest: Octets)
    requires |src| >= 2 && src[0] == WIRE_VER
    ensures GivesLen(src, len, rest) <==>
            var n := |Varint.Encode(len)|;
            Varint.Decode(src[2..]) == Varint.Value(len, n) && 2 + n <= |src| && rest == src[2 + n..]
  {
    hide Varint.Encode, Varint.DecodeFrom;
    var n := |Varint.Encode(len)|;
    Varint.ValueExactly(src[2..], len, n);
    if GivesLen(src, len, rest) {
      assert src[2..] == Varint.Encode(len) + rest;
    }
    if Varint.Encode(len) <= src[2..] {
      assert src == [WIRE_VER, src[1]] + Varint.Encode(len) + src[2 + n..];
    }
  }

  lemma PadRead(rest: Octets, pad: nat)
    ensures GivesPad(rest, pad) <==> Varint.Decode(rest) == Varint.Value(pad, |Varint.Encode(pad)|)
  {
    hide Varint.Encode, Varint.DecodeFrom;
    Varint.ValueExactly(rest, pad, |Varint.Encode(pad)|);
  }

  lemma NoLengthRead(s: Octets)
    ensures NoLength(s) <==> Varint.Decode(s).Malformed?
  {
    hide Varint.DecodeFrom, Varint.Completes;
    Varint.MalformedExactly(s);
  }

  lemma ErrorIsFault(c: Codec, src: Octets)
    requires DecodeFrame(c, src).Bad?
    ensures Faulty(c, src, DecodeFrame(c, src).error)
  {
    hide Varint.Encode, Varint.DecodeFrom, NoLength, GivesLen, GivesPad;
    if |src| >= 2 && src[0] == WIRE_VER {
      NoLengthRead(src[2..]);
      match Varint.Decode(src[2..]) {
        case Value(len, n) =>
          Varint.ValueExactly(src[2..], len, n);
          var rest := src[2 + n..];
          LenRead(src, len, rest);
          NoLengthRead(rest);
          match Varint.Decode(rest) {
            case Value(pad, m) =>
              Varint.ValueExactly(rest, pad, m);
              PadRead(rest, pad);
            case _ =>
          }
        case _ =>
      }
    }
  }

  lemma FaultIsError(c: Codec, src: Octets, e: FrameError)
    requires Faulty(c, src, e)
    ensures DecodeFrame(c, src) == Bad(e)
  {
    hide Varint.Encode, Varint.DecodeFrom, NoLength, GivesLen, GivesPad;
    match e {
      case WrongVersion(_) =>
      case MalformedPayloadLen =>
        NoLengthRead(src[2..]);
      case PayloadTooLarge(len) =>
        var rest :| GivesLen(src, len, rest);
        LenGiven(src, len, rest);
      case MalformedPadLen =>
        var len, rest :| GivesLen(src, len, rest) && Bounded(c, len) && rest != [] && NoLength(rest);
        LenGiven(src, len, rest);
        NoLengthRead(rest);
      case PadTooLarge(pad) =>
        var len, rest :| GivesLen(src, len, rest) && Bounded(c, len) && GivesPad(rest, pad);
        LenGiven(src, len, rest);
        PadGiven(rest, pad);
      case LengthOverflow =>
        var len, rest, pad :|
          && GivesLen(src, len, rest) && GivesPad(rest, pad) && Bounded(c, len) && Bounded(c, pad)
          && 2 + |Varint.Encode(len)| + |Varint.Encode(pad)| + len + pad > c.usizeMax;
        LenGiven(src, len, rest);
        PadGiven(rest, pad);
    }
  }

  lemma LenGiven(src: Octets, len: nat, rest: Octets)
    requires GivesLen(src, len, rest)
    ensures var n := |Varint.Encode(len)|;
            && |src| >= 2 && src[0] == WIRE_VER && Varint.Decode(src[2..]) == Varint.Value(len, n)
            && 2 + n <= |src| && rest == src[2 + n..]
  {
    hide Varint.Encode, Varint.DecodeFrom;
    LenRead(src, len, rest);
  }

  lemma PadGiven(rest: Octets, pad: nat)
    requires GivesPad(rest, pad)
    ensures Varint.Decode(rest) == Varint.Value(pad, |Varint.Encode(pad)|) && rest != []
  {
    hide Varint.Encode, Varint.DecodeFrom;
    PadRead(rest, pad);
    Varint.RoundTrip(pad, []);
  }

  /** Each error, exactly: the decoder reports it if and only if the bytes have that fault. */
  lemma ErrorExactly(c: Codec, src: Octets, e: FrameError)
    ensures DecodeFrame(c, src) == Bad(e) <==> Faulty(c, src, e)
  {
    hide DecodeFrame, Faulty;
    if DecodeFrame(c, src).Bad? {
      ErrorIsFault(c, src);
    }
    if Faulty(c, src, e) {
      FaultIsError(c, src, e);
    }
  }

  /** What the encoder adds is zeros, and nothing but its padding. */
  lemma PadIsZero(c: Codec, f: Frame)
    ensures var wire, pad := EncodeFrame(c, f), PadLen(c, |f.payload|);
            && |wire| >= |f.payload| + pad
            && wire[|wire| - pad..] == seq(pad, _ => 0)
            && wire[|wire| - pad - |f.payload|..|wire| - pad] == f.payload
  {
    hide Varint.Encode, PadLen;
  }

  /** A frame byte by byte: version 3, DATA, five payload bytes, three of padding. */
  lemma WireVector()
    ensures WireImage(Frame(DATA, [104, 101, 108, 108, 111]), [0, 0, 0])
         == [3, 1, 5, 3, 104, 101, 108, 108, 111, 0, 0, 0]
  {
  }
}
