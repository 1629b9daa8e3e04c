/** Bytes, growable byte buffers and the small containers every module shares. */
module Bytes {

  type u8 = x: int | 0 <= x < 256

  type Octets = seq<u8>

  const U64_LIMIT: nat := 0x1_0000_0000_0000_0000

  datatype Option<+T> = None | Some(value: T)

  /** A growable byte buffer (`BytesMut`, or the write side of a socket). */
  class Buffer {
    var bytes: Octets

    constructor (init: Octets)
      ensures bytes == init
    {
      bytes := init;
    }

    method PutU8(b: u8)
      modifies this
      ensures bytes == old(bytes) + [b]
    {
      bytes := bytes + [b];
    }

    method PutSlice(s: Octets)
      modifies this
      ensures bytes == old(bytes) + s
    {
      bytes := bytes + s;
    }
  }

  /** The concatenation of a list of chunks. */
  function Flatten<T>(chunks: seq<seq<T>>): seq<T> {
    if chunks == [] then [] else chunks[0] + Flatten(chunks[1..])
  }

  lemma {:induction false} FlattenAppend<T>(a: seq<seq<T>>, b: seq<seq<T>>)
    ensures Flatten(a + b) == Flatten(a) + Flatten(b)
  {
    if a == [] {
      assert a + b == b;
    } else {
      assert (a + b)[1..] == a[1..] + b;
      FlattenAppend(a[1..], b);
    }
  }

  lemma FlattenSnoc<T>(a: seq<seq<T>>, x: seq<T>)
    ensures Flatten(a + [x]) == Flatten(a) + x
  {
    FlattenAppend(a, [x]);
    assert Flatten([x]) == x + Flatten([x][1..]);
  }

  /**
    What a reader gets from a socket that yields `pieces` in turn: a read of zero
    bytes is end-of-file, and so is running out of pieces.
    */
  function Received(pieces: seq<Octets>): Octets {
    if pieces == [] || pieces[0] == [] then [] else pieces[0] + Received(pieces[1..])
  }

  /** `pieces` is some way TCP may cut `stream`: non-empty pieces, then end-of-file. */
  ghost predicate CutOf(pieces: seq<Octets>, stream: Octets) {
    && Flatten(pieces) == stream
    && forall i :: 0 <= i < |pieces| ==> pieces[i] != []
  }

  lemma {:induction false} CutIsReceived(pieces: seq<Octets>, stream: Octets)
    requires CutOf(pieces, stream)
    ensures Received(pieces) == stream
  {
    if pieces != [] {
      CutIsReceived(pieces[1..], Flatten(pieces[1..]));
    }
  }
}
