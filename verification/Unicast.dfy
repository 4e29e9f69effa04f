/** A unicast packet on its way: every device decides for itself, with the same next-hop
    table. The trip is the path along the table, cut short only by the time to live. */
module Unicast {
  import opened Walks
  import opened Wrappers
  import opened FloydWarshall
  import opened RouteTables
  import opened Relay

  /** The route lookup of a device, as the receive loop performs it. */
  ghost function Lookup(nh: NextHopTable, x: Vertex, dst: Vertex): Vertex {
    if Hop(nh, x, dst).Some? then Hop(nh, x, dst).value else NODE_INVALID
  }

  /** What the device `x` decides about a packet for `dst` that comes from `from`. */
  ghost function DecisionAt(nh: NextHopTable, usage: Usage, from: Vertex, x: Vertex, dst: Vertex, ttl: nat,
                            crc: nat): Verdict {
    VerdictOf(x, false, false, {}, Incoming(usage, dst, from, ttl, crc, Lookup(nh, x, dst))).0
  }

  /** The devices that receive a packet, in order, from `x` on. */
  ghost function Trip(nh: NextHopTable, usage: Usage, from: Vertex, x: Vertex, dst: Vertex, ttl: nat,
                      crc: nat): seq<Vertex>
    decreases ttl
  {
    var v := DecisionAt(nh, usage, from, x, dst, ttl, crc);
    [x] + if ttl > 0 && v.Verdict? && v.forward.Unicast?
          then Trip(nh, usage, x, v.forward.next, dst, ttl - 1, crc) else []
  }

  /** Devices are numbered below the special node IDs; edges exchange these packets. */
  predicate Ordinary(p: seq<Vertex>) {
    forall a :: 0 <= a < |p| ==> p[a] < NODE_INVALID
  }

  predicate BetweenEdges(usage: Usage) {
    usage == NORMAL_PACKET || EdgeToEdge(usage)
  }

  /** A device on the path passes the packet on and keeps nothing; the last one takes it. */
  lemma DecisionOnPath(nh: NextHopTable, usage: Usage, from: Vertex, p: seq<Vertex>, u: Vertex, v: Vertex, ttl: nat,
                       crc: nat)
    requires Chain(Hops(nh), p, u, v) && Ordinary(p) && BetweenEdges(usage)
    ensures DecisionAt(nh, usage, from, u, v, ttl, crc) ==
      if u == v then Verdict(usage != NORMAL_PACKET, usage == NORMAL_PACKET, Stay)
      else Verdict(false, false, if ttl > 0 then Forward.Unicast(p[1]) else Stay)
    ensures u == v <==> |p| == 1
  {
    if |p| > 1 {
      assert Link(Hops(nh), p[0], p[1], v);
    }
    assert p[|p| - 1] < NODE_INVALID;
  }

  /** The trip is the path, as far as the time to live goes. */
  lemma {:induction false} TripFollowsPath(nh: NextHopTable, usage: Usage, from: Vertex, p: seq<Vertex>, u: Vertex,
                                           v: Vertex, ttl: nat, crc: nat)
    requires Chain(Hops(nh), p, u, v) && Ordinary(p) && BetweenEdges(usage)
    ensures Trip(nh, usage, from, u, v, ttl, crc) == p[..if ttl + 1 < |p| then ttl + 1 else |p|]
    decreases ttl
  {
    DecisionOnPath(nh, usage, from, p, u, v, ttl, crc);
    if |p| > 1 && ttl > 0 {
      ChainWithoutFirst(Hops(nh), p, u, v);
      TripFollowsPath(nh, usage, u, p[1..], p[1], v, ttl - 1, crc);
    }
  }

  /** The sender hands the packet to its own next hop with the full time to live. It arrives
      exactly if that covers the relays in between; then it took a cheapest path. */
  lemma UnicastArrives(n: Net, t: Tables, usage: Usage, p: seq<Vertex>, u: Vertex, v: Vertex, ttl: nat, crc: nat)
    requires n.Valid() && Tame(n) && Shape(n.vert, t) && Routes(n, ViewOf(t)) && BetweenEdges(usage)
    requires (forall x :: x in n.vert ==> x < NODE_INVALID) && u in n.vert && v in n.vert && u != v
    requires ViewOf(t).d(u, v) < INFINITY && Chain(Hops(t.next), p, u, v)
    ensures |p| > 1 && Lookup(t.next, u, v) == p[1]
    ensures var trip := Trip(t.next, usage, u, p[1], v, ttl, crc);
      && trip == p[1..if ttl + 2 < |p| then ttl + 2 else |p|]
      && (v in trip <==> ttl + 2 >= |p|)
      && (v in trip ==> [u] + trip == p && Sum(n.cost, [u] + trip) == ViewOf(t).d(u, v))
  {
    PathIsShortest(n, ViewOf(t), u, v, p);
    TripAlong(t.next, usage, p, u, v, ttl, crc);
  }

  /** The trip that begins at the next hop of the sender. */
  lemma TripAlong(nh: NextHopTable, usage: Usage, p: seq<Vertex>, u: Vertex, v: Vertex, ttl: nat, crc: nat)
    requires Chain(Hops(nh), p, u, v) && u != v && Ordinary(p) && BetweenEdges(usage)
    ensures |p| > 1 && Lookup(nh, u, v) == p[1]
    ensures var trip := Trip(nh, usage, u, p[1], v, ttl, crc);
      && trip == p[1..if ttl + 2 < |p| then ttl + 2 else |p|]
      && (v in trip <==> ttl + 2 >= |p|) && (v in trip ==> [u] + trip == p)
  {
    ChainWithoutFirst(Hops(nh), p, u, v);
    TripFollowsPath(nh, usage, u, p[1..], p[1], v, ttl, crc);
    PartOfPath(nh, p, u, v, if ttl + 2 < |p| then ttl + 2 else |p|);
  }

  /** The first part of a path contains its end only if it is the whole path. */
  lemma PartOfPath(nh: NextHopTable, p: seq<Vertex>, u: Vertex, v: Vertex, m: nat)
    requires Chain(Hops(nh), p, u, v) && 1 < m <= |p|
    ensures p[1..][..m - 1] == p[1..m]
    ensures v in p[1..m] <==> m == |p|
    ensures [u] + p[1..] == p
  {
    if m == |p| {
      assert p[1..m][m - 2] == v;
    } else {
      forall a | 1 <= a < m ensures p[a] != v {
        ChainNeverReturns(Hops(nh), p, u, v, a, |p| - 1);
      }
    }
  }

  /** A path along the table visits no vertex twice, so n - 2 relays always suffice. */
  lemma EnoughTimeToLive(n: Net, t: Tables, usage: Usage, u: Vertex, v: Vertex, ttl: nat, crc: nat)
    requires n.Valid() && Tame(n) && Shape(n.vert, t) && Routes(n, ViewOf(t)) && BetweenEdges(usage)
    requires (forall x :: x in n.vert ==> x < NODE_INVALID) && u in n.vert && v in n.vert && u != v
    requires ViewOf(t).d(u, v) < INFINITY && ttl + 2 >= |n.vert|
    ensures Lookup(t.next, u, v) in n.vert && v in Trip(t.next, usage, u, Lookup(t.next, u, v), v, ttl, crc)
  {
    var p := RoutesReach(n, ViewOf(t), u, v);
    UnicastArrives(n, t, usage, p, u, v, ttl, crc);
    forall a, b | 0 <= a < b < |p| ensures p[a] != p[b] {
      ChainNeverReturns(Hops(t.next), p, u, v, a, b);
    }
    DistinctFit(p, n.vert);
  }
}
