/** Obfuscation methods, the allowed-methods bitmask, score rows and configuration. */
module Methods {
  import opened Bytes

  datatype MethodId = Obfs4 | WebTunnel | Masque | VeilFront

  const ALL: seq<MethodId> := [Obfs4, WebTunnel, Masque, VeilFront]

  function Bit(m: MethodId): bv32 {
    match m
    case Obfs4 => 1
    case WebTunnel => 2
    case Masque => 4
    case VeilFront => 8
  }

  /** Position in `ALL`: what breaks ties. */
  function Index(m: MethodId): nat {
    match m
    case Obfs4 => 0
    case WebTunnel => 1
    case Masque => 2
    case VeilFront => 3
  }

  /** A set bit disables its method; zero allows everything. */
  predicate Contains(bits: bv32, m: MethodId) {
    bits == 0 || bits & Bit(m) == 0
  }

  predicate Ascending(s: seq<MethodId>) {
    forall i, j :: 0 <= i < j < |s| ==> Index(s[i]) < Index(s[j])
  }

  predicate Distinct(s: seq<MethodId>) {
    forall i, j :: 0 <= i < j < |s| ==> s[i] != s[j]
  }

  /** The methods of `s` that `keep` keeps, in order. */
  function Filter(keep: MethodId -> bool, s: seq<MethodId>): seq<MethodId> {
    if s == [] then []
    else (if keep(s[0]) then [s[0]] else []) + Filter(keep, s[1..])
  }

  lemma {:induction false} FilterExactly(keep: MethodId -> bool, s: seq<MethodId>)
    ensures forall m :: m in Filter(keep, s) <==> m in s && keep(m)
  {
    if s != [] {
      FilterExactly(keep, s[1..]);
      assert s == [s[0]] + s[1..];
    }
  }

  lemma {:induction false} FilterAscends(keep: MethodId -> bool, s: seq<MethodId>)
    requires Ascending(s)
    ensures Ascending(Filter(keep, s))
  {
    if s != [] {
      FilterAscends(keep, s[1..]);
      FilterExactly(keep, s[1..]);
      var rest := Filter(keep, s[1..]);
      forall k | 0 <= k < |rest|
        ensures Index(s[0]) < Index(rest[k])
      {
        assert rest[k] in s[1..];
      }
    }
  }

  /** `iter_allowed`. */
  function Allowed(bits: bv32): seq<MethodId> {
    Filter(m => Contains(bits, m), ALL)
  }

  lemma AllMethods(m: MethodId)
    ensures m in ALL && Ascending(ALL)
  {
    assert m == ALL[Index(m)];
  }

  lemma AllowedExactly(bits: bv32)
    ensures Ascending(Allowed(bits))
    ensures forall m :: m in Allowed(bits) <==> Contains(bits, m)
  {
    hide Contains, Filter;
    forall m: MethodId
      ensures m in Allowed(bits) <==> Contains(bits, m)
    {
      AllMethods(m);
      FilterExactly(m => Contains(bits, m), ALL);
    }
    AllMethods(Obfs4);
    FilterAscends(m => Contains(bits, m), ALL);
  }

  /** Masking out a method removes it from the set and touches no other. */
  lemma MaskRemovesExactly(bits: bv32, gone: MethodId, m: MethodId)
    ensures Contains(bits | Bit(gone), m) <==> Contains(bits, m) && m != gone
  {
    OrThenAnd(bits, Bit(gone), Bit(m));
    BitsApart(gone, m);
  }

  /** What a host's mask means: bit k disables the kth method, and 7 leaves VeilFront alone. */
  lemma HostMask(m: MethodId)
    ensures Contains(1, m) <==> m != Obfs4
    ensures Contains(2, m) <==> m != WebTunnel
    ensures Contains(4, m) <==> m != Masque
    ensures Contains(8, m) <==> m != VeilFront
    ensures Contains(7, m) <==> m == VeilFront
    ensures Contains(0, m) && !Contains(0xFFFF_FFFF, m)
  {
  }

  lemma OrThenAnd(a: bv32, b: bv32, c: bv32)
    ensures (a | b) & c == (a & c) | (b & c)
    ensures (a & c) | (b & c) == 0 <==> a & c == 0 && b & c == 0
    ensures (0 as bv32) & c == 0
    ensures a | b == 0 ==> b == 0
  {
  }

  lemma BitsApart(a: MethodId, b: MethodId)
    ensures Bit(a) != 0 && (Bit(a) & Bit(b) == 0 <==> a != b)
  {
  }

  /** Instants and wall-clock times, in nanoseconds. */
  type Time = int

  const SECOND: int := 1_000_000_000

  type u32 = x: int | 0 <= x < 0x1_0000_0000

  datatype ScoreEntry = ScoreEntry(
    successes: u32, failures: u32,
    lastSuccessAt: Option<Time>, lastFailureAt: Option<Time>,
    medianLatencyMs: u32,
    blockedAt: Option<Time>,
    consecutiveFailures: u8)

  /** What the score store says about each method on the network at hand. */
  datatype Lookup = Lookup(get: MethodId -> Option<ScoreEntry>, blocked: MethodId -> bool)

  datatype Config = Config(topK: nat, degradedThreshold: u8, cooldown: nat)
}
