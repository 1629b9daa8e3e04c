/**
  Length fields of the wire format: unsigned LEB128 (section 7.6 of DWARF 5), at most ten
  bytes, with overlong and overflowing forms rejected.
  */
module Varint {
  import opened Bytes

  const VARINT_MAX_BYTES := 10

  /** The canonical encoding of `v`: seven bits a byte, least significant first. */
  function Encode(v: nat): Octets {
    if v < 128 then [v] else [v % 128 + 128] + Encode(v / 128)
  }

  datatype Varint = Value(v: nat, n: nat) | Incomplete | Malformed

  /** What decoding `buf` gives when `read` bytes of the varint came before it. */
  function DecodeFrom(buf: Octets, read: nat): Varint
    requires read <= VARINT_MAX_BYTES
    decreases VARINT_MAX_BYTES - read
  {
    if read == VARINT_MAX_BYTES then Malformed
    else if buf == [] then Incomplete
    else
      var low7 := buf[0] % 128;
      if read + 1 == VARINT_MAX_BYTES && low7 > 1 then Malformed
      else if buf[0] < 128 then
        if read > 0 && low7 == 0 then Malformed else Value(low7, 1)
      else
        match DecodeFrom(buf[1..], read + 1)
        case Value(v, n) => Value(low7 + 128 * v, n + 1)
        case other => other
  }

  function Decode(buf: Octets): Varint {
    DecodeFrom(buf, 0)
  }

  /** Values that still fit a u64 when `read` groups of seven bits come below them. */
  function Bound(read: nat): (b: nat)
    requires read <= 9
    ensures b >= if read == 9 then 2 else 256
    decreases 9 - read
  {
    if read == 9 then 2 else 128 * Bound(read + 1)
  }

  lemma BoundIsU64()
    ensures Bound(0) == U64_LIMIT
  {
    assert Bound(9) == 2 && Bound(8) == 256 && Bound(7) == 0x8000 && Bound(6) == 0x40_0000;
    assert Bound(5) == 0x2000_0000 && Bound(4) == 0x10_0000_0000 && Bound(3) == 0x800_0000_0000;
    assert Bound(2) == 0x4_0000_0000_0000 && Bound(1) == 0x200_0000_0000_0000;
  }

  lemma {:induction false} DecodeEncodeFrom(v: nat, read: nat, suffix: Octets)
    requires read <= 9 && v < Bound(read) && (read > 0 ==> v > 0)
    ensures DecodeFrom(Encode(v) + suffix, read) == Value(v, |Encode(v)|)
    ensures read + |Encode(v)| <= VARINT_MAX_BYTES
    decreases 9 - read
  {
    hide Encode;
    var buf := Encode(v) + suffix;
    EncodeUnfolded(v);
    if v >= 128 {
      assert read < 9;
      DecodeEncodeFrom(v / 128, read + 1, suffix);
      assert buf[1..] == Encode(v / 128) + suffix;
    }
  }

  lemma EncodeUnfolded(v: nat)
    ensures Encode(v) == if v < 128 then [v] else [v % 128 + 128] + Encode(v / 128)
  {
  }

  lemma Regroup7(low: nat, high: nat)
    requires low < 128
    ensures (low + 128 * high) / 128 == high && (low + 128 * high) % 128 == low
  {
  }

  /** One byte of a varint that decodes. */
  lemma ValueStep(buf: Octets, read: nat)
    requires read <= 9 && DecodeFrom(buf, read).Value?
    ensures buf != []
    ensures buf[0] < 128 ==> DecodeFrom(buf, read) == Value(buf[0], 1) && (read > 0 ==> buf[0] > 0)
    ensures read == 9 ==> buf[0] < 2
    ensures buf[0] >= 128 ==>
              && read < 9 && DecodeFrom(buf[1..], read + 1).Value?
              && var rest := DecodeFrom(buf[1..], read + 1);
                 DecodeFrom(buf, read) == Value(buf[0] - 128 + 128 * rest.v, rest.n + 1)
  {
  }

  lemma {:induction false} EncodeDecodeFrom(buf: Octets, read: nat)
    requires read <= 9 && DecodeFrom(buf, read).Value?
    ensures var Value(v, n) := DecodeFrom(buf, read);
            v < Bound(read) && (read > 0 ==> v > 0) && n == |Encode(v)| && Encode(v) <= buf
    decreases 9 - read
  {
    hide Encode, DecodeFrom;
    ValueStep(buf, read);
    EncodeUnfolded(DecodeFrom(buf, read).v);
    if buf[0] >= 128 {
      EncodeDecodeFrom(buf[1..], read + 1);
      Regroup7(buf[0] - 128, DecodeFrom(buf[1..], read + 1).v);
      assert buf == [buf[0]] + buf[1..];
    }
  }

  lemma {:induction false} DecodeFromStable(buf: Octets, more: Octets, read: nat)
    requires read <= VARINT_MAX_BYTES && !DecodeFrom(buf, read).Incomplete?
    ensures DecodeFrom(buf + more, read) == DecodeFrom(buf, read)
    decreases VARINT_MAX_BYTES - read
  {
    if read < VARINT_MAX_BYTES && buf[0] >= 128 {
      assert (buf + more)[1..] == buf[1..] + more;
      if !DecodeFrom(buf[1..], read + 1).Incomplete? {
        DecodeFromStable(buf[1..], more, read + 1);
      }
    }
  }

  lemma {:induction false} IncompleteCompletesFrom(buf: Octets, read: nat)
    requires read <= VARINT_MAX_BYTES && DecodeFrom(buf, read).Incomplete?
    ensures DecodeFrom(buf + [1], read).Value?
    decreases VARINT_MAX_BYTES - read
  {
    if buf != [] {
      assert (buf + [1])[1..] == buf[1..] + [1];
      IncompleteCompletesFrom(buf[1..], read + 1);
    }
  }

  /** A complete varint is read exactly where a canonical u64 encoding is a prefix. */
  lemma ValueExactly(buf: Octets, v: nat, n: nat)
    ensures Decode(buf) == Value(v, n) <==>
            v < U64_LIMIT && n == |Encode(v)| && Encode(v) <= buf
  {
    hide Encode, DecodeFrom, Bound;
    BoundIsU64();
    if Decode(buf) == Value(v, n) {
      EncodeDecodeFrom(buf, 0);
    }
    if v < U64_LIMIT && n == |Encode(v)| && Encode(v) <= buf {
      DecodeEncodeFrom(v, 0, buf[|Encode(v)|..]);
      assert buf == Encode(v) + buf[|Encode(v)|..];
    }
  }

  /** Every u64 round-trips, whatever follows it, in at most ten bytes. */
  lemma RoundTrip(v: nat, suffix: Octets)
    requires v < U64_LIMIT
    ensures Decode(Encode(v) + suffix) == Value(v, |Encode(v)|)
    ensures 1 <= |Encode(v)| <= VARINT_MAX_BYTES
  {
    hide DecodeFrom, Bound;
    BoundIsU64();
    DecodeEncodeFrom(v, 0, suffix);
  }

  lemma ValueLength(buf: Octets)
    requires Decode(buf).Value?
    ensures 1 <= Decode(buf).n <= VARINT_MAX_BYTES && Decode(buf).n <= |buf| && Decode(buf).v < U64_LIMIT
  {
    ValueExactly(buf, Decode(buf).v, Decode(buf).n);
    RoundTrip(Decode(buf).v, []);
  }

  /** More bytes never change a verdict. */
  lemma Stable(buf: Octets, more: Octets)
    requires !Decode(buf).Incomplete?
    ensures Decode(buf + more) == Decode(buf)
  {
    DecodeFromStable(buf, more, 0);
  }

  /** What a sequence of seven-bit groups stands for, least significant first. */
  function Meaning(s: Octets): nat {
    if s == [] then 0 else s[0] % 128 + 128 * Meaning(s[1..])
  }

  /** The encoding is LEB128: every byte but the last carries the continuation bit, and the groups spell `v`. */
  lemma {:induction false} EncodeMeans(v: nat)
    ensures var s := Encode(v);
            && s != [] && Meaning(s) == v
            && (forall i :: 0 <= i < |s| ==> (s[i] >= 128 <==> i < |s| - 1))
            && (|s| > 1 ==> s[|s| - 1] != 0)
  {
    hide Encode;
    EncodeUnfolded(v);
    var s := Encode(v);
    if v >= 128 {
      EncodeMeans(v / 128);
      assert s[1..] == Encode(v / 128);
    } else {
      assert s[1..] == [];
    }
  }

  /** A varint cut short is one byte away from the encoding of some u64. */
  lemma IncompleteIsPrefix(buf: Octets) returns (v: nat)
    requires Decode(buf).Incomplete?
    ensures v < U64_LIMIT && Encode(v) == buf + [1]
  {
    hide Encode, DecodeFrom;
    IncompleteCompletesFrom(buf, 0);
    var d := Decode(buf + [1]);
    v := d.v;
    ValueExactly(buf + [1], d.v, d.n);
    if d.n <= |buf| {
      assert Encode(v) <= buf;
      ValueExactly(buf, d.v, d.n);
    }
  }

  ghost predicate Completes(buf: Octets, more: Octets) {
    Decode(buf + more).Value?
  }

  /** `Incomplete` says exactly "not yet, but some further bytes finish it". */
  lemma IncompleteExactly(buf: Octets)
    ensures Decode(buf).Incomplete? <==> !Decode(buf).Value? && exists more :: Completes(buf, more)
  {
    if Decode(buf).Incomplete? {
      IncompleteCompletesFrom(buf, 0);
      assert Completes(buf, [1]);
    } else {
      forall more
        ensures Completes(buf, more) ==> Decode(buf).Value?
      {
        Stable(buf, more);
      }
    }
  }

  /** Malformed buffers are exactly the ones that every continuation leaves without a value. */
  lemma MalformedExactly(buf: Octets)
    ensures Decode(buf).Malformed? <==> forall more :: !Completes(buf, more)
  {
    IncompleteExactly(buf);
    if Decode(buf).Malformed? {
      forall more
        ensures !Completes(buf, more)
      {
        Stable(buf, more);
      }
    } else if Decode(buf).Value? {
      assert buf + [] == buf;
      assert Completes(buf, []);
    }
  }

  /** `encode_varint`: the byte loop writes the canonical encoding. */
  method EncodeVarint(value: nat, dst: Buffer) returns (len: nat)
    modifies dst
    ensures dst.bytes == old(dst.bytes) + Encode(value)
    ensures len == |Encode(value)|
  {
    hide Encode;
    if value == 0 {
      EncodeUnfolded(0);
      dst.PutU8(0);
      return 1;
    }
    var rest: nat := value;
    len := 0;
    ghost var written: Octets := [];
    while rest > 0
      invariant dst.bytes == old(dst.bytes) + written && len == |written|
      invariant rest > 0 ==> Encode(value) == written + Encode(rest)
      invariant rest == 0 ==> Encode(value) == written
    {
      var byte: u8 := rest % 128;
      var next := rest / 128;
      if next > 0 {
        byte := byte + 128;
      }
      EncodeStep(rest, byte);
      assert next > 0 ==> written + ([byte] + Encode(next)) == written + [byte] + Encode(next);
      dst.PutU8(byte);
      written := written + [byte];
      rest, len := next, len + 1;
    }
  }

  lemma EncodeStep(v: nat, byte: u8)
    requires byte == if v / 128 > 0 then v % 128 + 128 else v % 128
    ensures Encode(v) == [byte] + if v / 128 > 0 then Encode(v / 128) else []
  {
  }

  function Pow128(k: nat): nat {
    if k == 0 then 1 else 128 * Pow128(k - 1)
  }

  /** `d << 7k` */
  function Shl7(d: nat, k: nat): nat {
    d * Pow128(k)
  }

  /** A verdict on the tail, with `read` bytes worth `low` in front of it. */
  ghost function Shifted(low: nat, read: nat, tail: Varint): Varint {
    match tail
    case Value(v, n) => Value(low + Shl7(v, read), read + n)
    case other => other
  }

  lemma ShiftedStep(buf: Octets, low: nat, read: nat)
    requires read < VARINT_MAX_BYTES && buf != []
    requires buf[0] >= 128 && !(read + 1 == VARINT_MAX_BYTES && buf[0] % 128 > 1)
    ensures Shifted(low, read, DecodeFrom(buf, read))
         == Shifted(low + Shl7(buf[0] % 128, read), read + 1, DecodeFrom(buf[1..], read + 1))
  {
    var tail := DecodeFrom(buf[1..], read + 1);
    if tail.Value? {
      Distribute(Pow128(read), buf[0] % 128, tail.v);
      assert DecodeFrom(buf, read) == Value(buf[0] % 128 + 128 * tail.v, tail.n + 1);
    }
  }

  lemma LastStep(buf: Octets, low: nat, read: nat)
    requires read < VARINT_MAX_BYTES && buf != [] && DecodeFrom(buf, read).Value? && buf[0] < 128
    ensures Shifted(low, read, DecodeFrom(buf, read))
         == Value(low + Shl7(buf[0] % 128, read), read + 1)
  {
  }

  lemma Distribute(p: nat, d: nat, v: nat)
    ensures (d + 128 * v) * p == d * p + v * (128 * p)
  {
    assert (128 * v) * p == v * (128 * p);
  }

  /** `decode_varint_checked`: the accumulating loop agrees with the recursive reading. */
  method DecodeVarintChecked(buf: Octets) returns (r: Varint)
    ensures r == Decode(buf)
  {
    var result: nat, read: nat := 0, 0;
    assert buf[0..] == buf;
    while true
      invariant 0 <= read <= VARINT_MAX_BYTES && read <= |buf|
      invariant Decode(buf) == Shifted(result, read, DecodeFrom(buf[read..], read))
      decreases VARINT_MAX_BYTES - read
    {
      if read == VARINT_MAX_BYTES {
        return Malformed;
      }
      if read == |buf| {
        return Incomplete;
      }
      ghost var tail := buf[read..];
      var byte := buf[read];
      var low7 := byte % 128;
      if read + 1 == VARINT_MAX_BYTES && low7 > 1 {
        return Malformed;
      }
      if byte < 128 {
        if read > 0 && low7 == 0 {
          return Malformed;
        }
        LastStep(tail, result, read);
        return Value(result + Shl7(low7, read), read + 1);
      }
      ShiftedStep(tail, result, read);
      assert tail[1..] == buf[read + 1..];
      result, read := result + Shl7(low7, read), read + 1;
    }
    assert false;
  }
}
