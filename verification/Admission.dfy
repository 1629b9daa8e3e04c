/** Admission at the relay's accept loop: handshake permits and the per-peer connection cap. */
module Admission {
  import opened Bytes

  type u16 = x: int | 0 <= x < 0x1_0000
  type Segments = s: seq<u16> | |s| == 8 witness seq(8, _ => 0)

  datatype Ip = V4(hi: u16, lo: u16) | V6(seg: Segments)

  /** `::ffff:a.b.c.d` (section 2.5.5.2 of RFC 4291). */
  predicate IsMapped(s: Segments) {
    s[0] == 0 && s[1] == 0 && s[2] == 0 && s[3] == 0 && s[4] == 0 && s[5] == 0xFFFF
  }

  /** The key the cap counts under. */
  function PerIpBucket(ip: Ip): Ip {
    match ip
    case V4(_, _) => ip
    case V6(s) => if IsMapped(s) then V4(s[6], s[7]) else V6([s[0], s[1], s[2], s[3], 0, 0, 0, 0])
  }

  /** The IPv4 address an address stands for, if it stands for one. */
  function AsV4(ip: Ip): Option<(u16, u16)> {
    match ip
    case V4(hi, lo) => Some((hi, lo))
    case V6(s) => if IsMapped(s) then Some((s[6], s[7])) else None
  }

  /** Two peers share a bucket exactly when they are one IPv4 address, or two IPv6 addresses of one /64. */
  lemma BucketsExactly(a: Ip, b: Ip)
    ensures PerIpBucket(a) == PerIpBucket(b) <==>
            AsV4(a) == AsV4(b) && (AsV4(a).None? ==> a.seg[..4] == b.seg[..4])
    ensures PerIpBucket(PerIpBucket(a)) == PerIpBucket(a)
  {
    if AsV4(a).None? && AsV4(b).None? {
      var p, q := a.seg, b.seg;
      assert p[..4] == [p[0], p[1], p[2], p[3]] && q[..4] == [q[0], q[1], q[2], q[3]];
      assert PerIpBucket(a).seg[..4] == p[..4] && PerIpBucket(b).seg[..4] == q[..4];
    }
  }

  // ---- Connections ----

  datatype Phase = Handshaking | Established | Closed

  datatype Conn = Conn(bucket: Ip, phase: Phase)

  /** Connections that hold a slot of bucket `b`. */
  function LiveIn(conns: seq<Conn>, b: Ip): nat {
    if conns == [] then 0
    else
      var n := |conns| - 1;
      LiveIn(conns[..n], b) + if conns[n].bucket == b && !conns[n].phase.Closed? then 1 else 0
  }

  function InHandshake(conns: seq<Conn>): nat {
    if conns == [] then 0
    else
      var n := |conns| - 1;
      InHandshake(conns[..n]) + if conns[n].phase.Handshaking? then 1 else 0
  }

  lemma Appended(conns: seq<Conn>, c: Conn, b: Ip)
    ensures LiveIn(conns + [c], b) == LiveIn(conns, b) + if c.bucket == b && !c.phase.Closed? then 1 else 0
    ensures InHandshake(conns + [c]) == InHandshake(conns) + if c.phase.Handshaking? then 1 else 0
  {
    assert (conns + [c])[..|conns|] == conns;
  }

  lemma {:induction false} Updated(conns: seq<Conn>, k: nat, c: Conn, b: Ip)
    requires k < |conns|
    ensures LiveIn(conns[k := c], b) + (if conns[k].bucket == b && !conns[k].phase.Closed? then 1 else 0)
         == LiveIn(conns, b) + (if c.bucket == b && !c.phase.Closed? then 1 else 0)
    ensures InHandshake(conns[k := c]) + (if conns[k].phase.Handshaking? then 1 else 0)
         == InHandshake(conns) + (if c.phase.Handshaking? then 1 else 0)
  {
    var n := |conns| - 1;
    if k == n {
      assert conns[k := c][..n] == conns[..n];
    } else {
      assert conns[k := c][..n] == conns[..n][k := c];
      Updated(conns[..n], k, c, b);
    }
  }

  datatype Verdict = Admitted | ShedGlobal | ShedPerIp

  /** The shared counters, and as ghost the connections accepted so far. */
  class Gatekeeper {
    const permits: nat
    const cap: nat
    var free: nat
    var perIp: map<Ip, nat>
    ghost var conns: seq<Conn>

    /** The counters are the connections: every entry counts live ones, none is zero, none is over the cap. */
    ghost predicate Valid()
      reads this
    {
      && permits >= 1 && cap >= 1
      && free + InHandshake(conns) == permits
      && (forall b :: b in perIp <==> LiveIn(conns, b) > 0)
      && (forall b :: b in perIp ==> perIp[b] == LiveIn(conns, b) <= cap)
    }

    constructor (maxHandshakes: nat, maxPerIp: nat)
      ensures Valid() && conns == []
      ensures permits == (if maxHandshakes < 1 then 1 else maxHandshakes) && cap == if maxPerIp < 1 then 1 else maxPerIp
    {
      permits := if maxHandshakes < 1 then 1 else maxHandshakes;
      cap := if maxPerIp < 1 then 1 else maxPerIp;
      free := if maxHandshakes < 1 then 1 else maxHandshakes;
      perIp, conns := map[], [];
    }

    /** The counter side of `admit_ip`. */
    method AdmitIp(b: Ip) returns (ok: bool)
      requires cap >= 1
      modifies this`perIp
      ensures ok <==> (if b in old(perIp) then old(perIp)[b] else 0) < cap
      ensures ok ==> perIp == old(perIp)[b := (if b in old(perIp) then old(perIp)[b] else 0) + 1]
      ensures !ok ==> perIp == old(perIp)
    {
      if b !in perIp {
        perIp := perIp[b := 0];
      }
      if perIp[b] >= cap {
        return false;
      }
      perIp := perIp[b := perIp[b] + 1];
      ok := true;
    }

    /** A guard is dropped: the entry goes when its last connection does. */
    method DropGuard(b: Ip)
      requires b in perIp ==> perIp[b] >= 1
      modifies this`perIp
      ensures perIp == if b !in old(perIp) then old(perIp)
                       else if old(perIp)[b] == 1 then old(perIp) - {b}
                       else old(perIp)[b := old(perIp)[b] - 1]
    {
      if b in perIp {
        perIp := perIp[b := perIp[b] - 1];
        if perIp[b] == 0 {
          perIp := perIp - {b};
        }
      }
    }

    /** One turn of the accept loop: shed for want of a permit, shed at the peer's cap, or admitted with both. */
    method Accept(ip: Ip) returns (v: Verdict)
      requires Valid()
      modifies this
      ensures Valid()
      ensures v.ShedGlobal? <==> InHandshake(old(conns)) == permits
      ensures v.ShedPerIp? <==> InHandshake(old(conns)) < permits && LiveIn(old(conns), PerIpBucket(ip)) == cap
      ensures conns == if v.Admitted? then old(conns) + [Conn(PerIpBucket(ip), Handshaking)] else old(conns)
    {
      hide LiveIn, InHandshake, PerIpBucket;
      if free == 0 {
        return ShedGlobal;
      }
      free := free - 1;
      var b := PerIpBucket(ip);
      var ok := AdmitIp(b);
      if !ok {
        free := free + 1;
        return ShedPerIp;
      }
      ghost var c := Conn(b, Handshaking);
      forall x
        ensures LiveIn(conns + [c], x) == LiveIn(conns, x) + if b == x then 1 else 0
      {
        Appended(conns, c, x);
      }
      Appended(conns, c, b);
      conns := conns + [c];
      v := Admitted;
    }

    /** TLS is up: the permit goes back, the slot stays. */
    method HandshakeDone(ghost k: nat)
      requires Valid() && k < |conns| && conns[k].phase.Handshaking?
      modifies this
      ensures Valid() && conns == old(conns)[k := old(conns)[k].(phase := Established)]
    {
      hide LiveIn, InHandshake;
      ghost var c := conns[k].(phase := Established);
      forall x
        ensures LiveIn(conns[k := c], x) == LiveIn(conns, x)
      {
        Updated(conns, k, c, x);
      }
      Updated(conns, k, c, c.bucket);
      free := free + 1;
      conns := conns[k := c];
    }

    /** The connection's task ends, by any path: the slot goes back, and the permit if it is still held. */
    method Close(ghost k: nat, b: Ip, holdsPermit: bool)
      requires Valid() && k < |conns| && !conns[k].phase.Closed?
      requires b == conns[k].bucket && holdsPermit == conns[k].phase.Handshaking?
      modifies this
      ensures Valid() && conns == old(conns)[k := old(conns)[k].(phase := Closed)]
    {
      hide LiveIn, InHandshake;
      ghost var c := conns[k].(phase := Closed);
      forall x
        ensures LiveIn(conns[k := c], x) + (if x == b then 1 else 0) == LiveIn(conns, x)
      {
        Updated(conns, k, c, x);
      }
      Updated(conns, k, c, b);
      if holdsPermit {
        free := free + 1;
      }
      DropGuard(b);
      conns := conns[k := c];
    }
  }

  /** What may happen at the relay: a peer connects, connection `k` finishes its handshake, connection `k` ends. */
  datatype Event = Arrive(ip: Ip) | TlsUp(k: nat) | End(k: nat)

  /**
    Every run of the relay, from start-up, over any events in any order: at its end the map
    counts exactly the live connections of each bucket, with no stale and no zero entry and
    none over the cap, and every permit is free or held by a handshake in progress.
    */
  method Serve(maxHandshakes: nat, maxPerIp: nat, events: seq<Event>)
    returns (perIp: map<Ip, nat>, free: nat, tasks: seq<Conn>)
    ensures forall b :: b in perIp <==> LiveIn(tasks, b) > 0
    ensures forall b :: b in perIp ==> perIp[b] == LiveIn(tasks, b) <= if maxPerIp < 1 then 1 else maxPerIp
    ensures free + InHandshake(tasks) == if maxHandshakes < 1 then 1 else maxHandshakes
  {
    hide LiveIn, InHandshake, PerIpBucket;
    var gate := new Gatekeeper(maxHandshakes, maxPerIp);
    tasks := [];
    for i := 0 to |events|
      invariant fresh(gate) && gate.Valid() && gate.conns == tasks
    {
      match events[i] {
        case Arrive(ip) =>
          var v := gate.Accept(ip);
          if v.Admitted? {
            tasks := tasks + [Conn(PerIpBucket(ip), Handshaking)];
          }
        case TlsUp(k) =>
          if k < |tasks| && tasks[k].phase.Handshaking? {
            gate.HandshakeDone(k);
            tasks := tasks[k := tasks[k].(phase := Established)];
          }
        case End(k) =>
          if k < |tasks| && !tasks[k].phase.Closed? {
            gate.Close(k, tasks[k].bucket, tasks[k].phase.Handshaking?);
            tasks := tasks[k := tasks[k].(phase := Closed)];
          }
      }
    }
    perIp, free := gate.perIp, gate.free;
  }
}
