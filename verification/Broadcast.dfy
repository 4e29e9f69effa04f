/** Routed broadcast: the source sends to its next hops, every receiver passes the packet
    on to those next hops whose route from the source leads through itself.

    All nodes hold the same tables, calculated over strictly positive weights; packets are
    delivered in any order and none is lost. */
module Broadcast {
  import opened Walks
  import opened Wrappers
  import opened FloydWarshall
  import opened RouteTables
  import Relay

  datatype Setup = Setup(n: Net, t: Tables, s: Vertex, ttl: nat) {
    ghost predicate Valid() {
      && n.Valid() && n.NonNegative() && (forall u, v :: (u, v) in n.cost ==> n.cost[(u, v)] > 0.0)
      && Shape(n.vert, t) && Routes(n, ViewOf(t)) && s in n.vert
    }

    /** Distance between two vertices, and distance from the source. */
    ghost function Far(u: Vertex, v: Vertex): real {
      ViewOf(t).d(u, v)
    }

    ghost function Away(x: Vertex): real {
      Far(s, x)
    }
  }

  // ------------------------------------------------- distances along routes

  lemma FarPositive(c: Setup, u: Vertex, v: Vertex)
    requires c.Valid() && u in c.n.vert && v in c.n.vert
    ensures c.Far(u, v) >= 0.0 && (c.Far(u, v) == 0.0 <==> u == v)
  {
    var t := ViewOf(c.t);
    if t.d(u, v) < INFINITY {
      var p := WalkOf(c.n, t, c.n.vert, u, v);
      SumNonNegative(c.n, p);
      if u != v {
        assert (p[0], p[1]) in c.n.cost;
        SumNonNegative(c.n, p[1..]);
      } else {
        DiagonalIsZero(c.n, t, c.n.vert, u);
      }
    }
  }

  lemma FarTriangle(c: Setup, u: Vertex, x: Vertex, v: Vertex)
    requires c.Valid() && {u, x, v} <= c.n.vert && c.Far(u, x) < INFINITY && c.Far(x, v) < INFINITY
    ensures c.Far(u, v) <= c.Far(u, x) + c.Far(x, v)
  {
    var t := ViewOf(c.t);
    var p := WalkOf(c.n, t, c.n.vert, u, x);
    var q := WalkOf(c.n, t, c.n.vert, x, v);
    GlueIsWalk(c.n, p, q, c.n.vert);
    GlueSum(c.n.cost, p, q);
    FarAtMost(c, Glue(p, q));
  }

  lemma FarAtMost(c: Setup, p: seq<Vertex>)
    requires c.Valid() && Walk(c.n, p)
    ensures c.Far(p[0], p[|p| - 1]) <= Sum(c.n.cost, p)
  {
    NonNegativeIsTame(c.n);
    InteriorOfWalk(c.n, p);
    TameBound(c.n, ViewOf(c.t), c.n.vert, p);
  }

  /** The route to `v` that the table yields is a cheapest walk. */
  lemma RouteIsShortest(c: Setup, p: seq<Vertex>, u: Vertex, v: Vertex)
    requires c.Valid() && u in c.n.vert && v in c.n.vert && Chain(Hops(c.t.next), p, u, v)
    ensures c.Far(u, v) < INFINITY && Walk(c.n, p) && Sum(c.n.cost, p) == c.Far(u, v)
  {
    var t := ViewOf(c.t);
    if u == v {
      FarPositive(c, u, v);
    } else {
      assert Link(Hops(c.t.next), p[0], p[1], v);
      assert SoundAt(c.n, t, c.n.vert, u, v);
    }
    NonNegativeIsTame(c.n);
    var q := RoutesReach(c.n, t, u, v);
    ChainIsUnique(Hops(c.t.next), p, q, u, v);
  }

  /** A vertex on the route splits the distance, and is strictly nearer than the end. */
  lemma OnRoute(c: Setup, p: seq<Vertex>, u: Vertex, v: Vertex, a: nat)
    requires c.Valid() && u in c.n.vert && v in c.n.vert && Chain(Hops(c.t.next), p, u, v) && a < |p|
    ensures p[a] in c.n.vert && c.Far(u, p[a]) + c.Far(p[a], v) == c.Far(u, v) < INFINITY
    ensures p[a] != v ==> c.Far(u, p[a]) < c.Far(u, v)
  {
    var x := p[a];
    assert x in c.n.vert && c.Far(u, x) + c.Far(x, v) <= c.Far(u, v) < INFINITY by {
      RouteIsShortest(c, p, u, v);
      Halves(c, p, a);
    }
    SplitExact(c, u, x, v, c.Far(u, v));
  }

  lemma SplitExact(c: Setup, u: Vertex, x: Vertex, v: Vertex, sum: real)
    requires c.Valid() && {u, x, v} <= c.n.vert && c.Far(u, x) + c.Far(x, v) <= sum == c.Far(u, v) < INFINITY
    ensures c.Far(u, x) + c.Far(x, v) == sum && (x != v ==> c.Far(u, x) < sum)
  {
    FarPositive(c, u, x);
    FarPositive(c, x, v);
    FarTriangle(c, u, x, v);
  }

  lemma Halves(c: Setup, p: seq<Vertex>, a: nat)
    requires c.Valid() && Walk(c.n, p) && a < |p|
    ensures p[a] in c.n.vert && Sum(c.n.cost, p) == Sum(c.n.cost, p[..a + 1]) + Sum(c.n.cost, p[a..])
    ensures c.Far(p[0], p[a]) <= Sum(c.n.cost, p[..a + 1])
    ensures c.Far(p[a], p[|p| - 1]) <= Sum(c.n.cost, p[a..])
  {
    SumSplit(c.n.cost, p, a);
    PartAtMost(c, p, 0, a + 1, p[..a + 1]);
    PartAtMost(c, p, a, |p|, p[a..]);
  }

  lemma PartAtMost(c: Setup, p: seq<Vertex>, a: nat, b: nat, part: seq<Vertex>)
    requires c.Valid() && Walk(c.n, p) && a < b <= |p| && part == p[a..b]
    ensures p[a] in c.n.vert && c.Far(p[a], p[b - 1]) <= Sum(c.n.cost, part)
  {
    PartIsWalk(c.n, p, a, b);
    FarAtMost(c, part);
  }

  /** Relays move outwards: whoever a relay sends to is farther from the source. */
  lemma RelayMovesOut(c: Setup, x: Vertex, from: Vertex, y: Vertex)
    requires c.Valid() && RelaysTo(c.t.next, x, from, c.s, y)
    ensures x in c.n.vert && y in c.n.vert && y != c.s && c.Away(x) < c.Away(y) < INFINITY
  {
    var d :| Hop(c.t.next, x, d) == Some(y);
    assert Has(c.t.next, x, d) && SoundAt(c.n, ViewOf(c.t), c.n.vert, x, d);
    assert (x, y) in c.n.cost && x != y;
    var p :| Chain(Hops(c.t.next), p, c.s, y) && x in p;
    var a :| 0 <= a < |p| && p[a] == x;
    OnRoute(c, p, c.s, y, a);
    FarPositive(c, c.s, x);
    FarPositive(c, c.s, c.s);
  }

  /** `x` is the last but one vertex of the route from the source to `y`. */
  ghost predicate Before(c: Setup, x: Vertex, y: Vertex) {
    exists p :: Chain(Hops(c.t.next), p, c.s, y) && |p| >= 2 && p[|p| - 2] == x
  }

  /** The node before `y` is nearer to the source and has `y` as a next hop. */
  lemma BeforeSends(c: Setup, x: Vertex, y: Vertex)
    requires c.Valid() && y in c.n.vert && Before(c, x, y)
    ensures x in c.n.vert && c.Away(x) < c.Away(y) < INFINITY && IsNextHop(c.t.next, x, y)
    ensures forall from :: from != y ==> RelaysTo(c.t.next, x, from, c.s, y)
  {
    var p :| Chain(Hops(c.t.next), p, c.s, y) && |p| >= 2 && p[|p| - 2] == x;
    assert Link(Hops(c.t.next), p[|p| - 2], p[|p| - 1], y);
    OnRoute(c, p, c.s, y, |p| - 2);
    assert Hop(c.t.next, x, y) == Some(y);
    assert x in p;
  }

  lemma RouteTo(c: Setup, y: Vertex) returns (p: seq<Vertex>)
    requires c.Valid() && y in c.n.vert && c.Away(y) < INFINITY
    ensures Chain(Hops(c.t.next), p, c.s, y)
  {
    NonNegativeIsTame(c.n);
    p := RoutesReach(c.n, ViewOf(c.t), c.s, y);
  }

  lemma HasBefore(c: Setup, y: Vertex) returns (x: Vertex)
    requires y != c.s && exists p :: Chain(Hops(c.t.next), p, c.s, y)
    ensures Before(c, x, y)
  {
    var p :| Chain(Hops(c.t.next), p, c.s, y);
    x := p[|p| - 2];
  }

  lemma FirstSendIsOutward(c: Setup, y: Vertex)
    requires c.Valid() && IsNextHop(c.t.next, c.s, y)
    ensures y in c.n.vert && y != c.s && c.Away(c.s) < c.Away(y) < INFINITY
  {
    var d :| Hop(c.t.next, c.s, d) == Some(y);
    assert Has(c.t.next, c.s, d) && SoundAt(c.n, ViewOf(c.t), c.n.vert, c.s, d);
    SumOfEdge(c.n.cost, c.s, y);
    FarAtMost(c, [c.s, y]);
    FarPositive(c, c.s, y);
    FarPositive(c, c.s, c.s);
  }

  /** All the network needs to know about routes: sends go outwards, and the node before
      `y` on its route passes the packet on to `y`. */
  ghost predicate Geometry(c: Setup) {
    && c.s in c.n.vert
    && (forall y :: IsNextHop(c.t.next, c.s, y) ==> y in c.n.vert && y != c.s && c.Away(c.s) < c.Away(y) < INFINITY)
    && (forall x, from, y :: RelaysTo(c.t.next, x, from, c.s, y) ==>
          x in c.n.vert && y in c.n.vert && y != c.s && c.Away(x) < c.Away(y) < INFINITY)
    && (forall x, y {:trigger Before(c, x, y)} :: y in c.n.vert && Before(c, x, y) ==> PassesOn(c, x, y))
  }

  ghost predicate PassesOn(c: Setup, x: Vertex, y: Vertex) {
    && x in c.n.vert && c.Away(x) < c.Away(y) < INFINITY && IsNextHop(c.t.next, x, y)
    && forall from :: from != y ==> RelaysTo(c.t.next, x, from, c.s, y)
  }

  lemma RoutesHaveGeometry(c: Setup)
    requires c.Valid()
    ensures Geometry(c)
  {
    forall y | IsNextHop(c.t.next, c.s, y)
      ensures y in c.n.vert && y != c.s && c.Away(c.s) < c.Away(y) < INFINITY
    {
      FirstSendIsOutward(c, y);
    }
    forall x, from, y | RelaysTo(c.t.next, x, from, c.s, y)
      ensures x in c.n.vert && y in c.n.vert && y != c.s && c.Away(x) < c.Away(y) < INFINITY
    {
      RelayMovesOut(c, x, from, y);
    }
    forall x, y | y in c.n.vert && Before(c, x, y)
      ensures PassesOn(c, x, y)
    {
      BeforeSends(c, x, y);
    }
  }

  // ------------------------------------------------- the network

  datatype Packet = Packet(from: Vertex, to: Vertex, ttl: nat)

  datatype State = State(flight: multiset<Packet>, received: map<Vertex, nat>)

  ghost function FirstSends(c: Setup): set<Packet> {
    set y | y in c.n.vert && IsNextHop(c.t.next, c.s, y) :: Packet(c.s, y, c.ttl)
  }

  ghost function Start(c: Setup): State {
    State(multiset(FirstSends(c)), map x | x in c.n.vert :: 0)
  }

  /** What the receiver of `p` decides when relaying is enabled. */
  ghost function Decision(p: Packet): Relay.Verdict {
    DecisionWith(p, {}, 0, NODE_INVALID).0
  }

  ghost function DecisionWith(p: Packet, seen: set<nat>, crc: nat, next: Vertex): (Relay.Verdict, set<nat>) {
    Relay.VerdictOf(p.to, false, false, seen,
                    Relay.Incoming(Relay.NORMAL_PACKET, NODE_BROADCAST, p.from, p.ttl, crc, next))
  }

  /** The copies that TransitBoardcastPacket sends, if the decision is to pass `p` through. */
  ghost function Relays(c: Setup, p: Packet): set<Packet> {
    var v := Decision(p);
    if v.Verdict? && v.forward.Through? && p.ttl > 0
    then set y | y in c.n.vert && RelaysTo(c.t.next, p.to, p.from, c.s, y) :: Packet(p.to, y, p.ttl - 1) else {}
  }

  ghost predicate Enabled(st: State, p: Packet) {
    p in st.flight && p.to in st.received
  }

  ghost function Deliver(c: Setup, st: State, p: Packet): State
    requires Enabled(st, p)
  {
    var v := Decision(p);
    State(st.flight - multiset{p} + multiset(Relays(c, p)),
          if v.Verdict? && v.receive then st.received[p.to := st.received[p.to] + 1] else st.received)
  }

  /** The step in plain terms: the receiver takes the packet, whatever its cache and table hold,
      and while time to live remains passes it on. */
  lemma DeliveryIsDecided(c: Setup, st: State, p: Packet, seen: set<nat>, crc: nat, next: Vertex)
    requires Enabled(st, p)
    ensures DecisionWith(p, seen, crc, next) == (Decision(p), seen)
    ensures Deliver(c, st, p).received == st.received[p.to := st.received[p.to] + 1]
    ensures forall q :: q in Relays(c, p) <==>
      p.ttl > 0 && q == Packet(p.to, q.to, p.ttl - 1) && q.to in c.n.vert && RelaysTo(c.t.next, p.to, p.from, c.s, q.to)
  {
  }

  ghost predicate Run(c: Setup, st: State, ps: seq<Packet>)
    decreases |ps|
  {
    ps == [] || (Enabled(st, ps[0]) && Run(c, Deliver(c, st, ps[0]), ps[1..]))
  }

  ghost function After(c: Setup, st: State, ps: seq<Packet>): State
    requires Run(c, st, ps)
    decreases |ps|
  {
    if ps == [] then st else After(c, Deliver(c, st, ps[0]), ps[1..])
  }

  // ------------------------------------------------- invariant

  /** Vertices strictly nearer to the source than `x`. */
  ghost function Nearer(c: Setup, x: Vertex): set<Vertex> {
    set y | y in c.n.vert && c.Away(y) < c.Away(x)
  }

  lemma NearerGrows(c: Setup, x: Vertex, y: Vertex)
    requires x in c.n.vert && y in c.n.vert && c.Away(x) < c.Away(y)
    ensures |Nearer(c, x)| < |Nearer(c, y)| <= |c.n.vert| - 1
  {
    SubsetSize(Nearer(c, x) + {x}, Nearer(c, y));
    SubsetSize(Nearer(c, y), c.n.vert - {y});
  }

  ghost predicate Outward(c: Setup, p: Packet) {
    && p.from in c.n.vert && p.to in c.n.vert && p.to != c.s
    && c.Away(p.from) < c.Away(p.to) < INFINITY
    && p.ttl + |Nearer(c, p.from)| >= c.ttl
  }

  /** Has the packet itself: the source from the start, others once it is delivered. */
  ghost predicate Holds(c: Setup, st: State, x: Vertex) {
    x == c.s || (x in st.received && st.received[x] > 0)
  }

  ghost predicate OnItsWay(st: State, y: Vertex) {
    exists p :: p in st.flight && p.to == y
  }

  ghost predicate Good(c: Setup, st: State) {
    && st.received.Keys == c.n.vert && c.s in st.received && st.received[c.s] == 0
    && (forall p :: p in st.flight ==> Outward(c, p))
    && (c.ttl + 2 >= |c.n.vert| ==>
          forall x, y {:trigger Before(c, x, y)} :: y in c.n.vert && Before(c, x, y) && Holds(c, st, x) ==>
            Holds(c, st, y) || OnItsWay(st, y))
  }

  lemma StartIsGood(c: Setup)
    requires Geometry(c)
    ensures Good(c, Start(c))
  {
    var st := Start(c);
    forall x, y | y in c.n.vert && Before(c, x, y) && Holds(c, st, x)
      ensures Holds(c, st, y) || OnItsWay(st, y)
    {
      assert PassesOn(c, x, y);
      assert Packet(c.s, y, c.ttl) in st.flight;
    }
  }

  lemma RelayIsOutward(c: Setup, p: Packet, q: Packet)
    requires Geometry(c) && Outward(c, p) && q in Relays(c, p)
    ensures Outward(c, q)
  {
    NearerGrows(c, p.from, p.to);
  }

  lemma RelayReaches(c: Setup, p: Packet, y: Vertex)
    requires Geometry(c) && Outward(c, p) && c.ttl + 2 >= |c.n.vert| && y in c.n.vert && Before(c, p.to, y)
    ensures exists q :: q in Relays(c, p) && q.to == y
  {
    assert PassesOn(c, p.to, y);
    NearerGrows(c, p.from, p.to);
    NearerGrows(c, p.to, y);
    assert RelaysTo(c.t.next, p.to, p.from, c.s, y);
    assert Packet(p.to, y, p.ttl - 1) in Relays(c, p);
  }

  lemma DeliverIsGood(c: Setup, st: State, p: Packet)
    requires Geometry(c) && Good(c, st) && Enabled(st, p)
    ensures Good(c, Deliver(c, st, p))
  {
    var st' := Deliver(c, st, p);
    forall q | q in st'.flight
      ensures Outward(c, q)
    {
      if q !in st.flight {
        RelayIsOutward(c, p, q);
      }
    }
    if c.ttl + 2 >= |c.n.vert| {
      forall x, y | y in c.n.vert && Before(c, x, y) && Holds(c, st', x)
        ensures Holds(c, st', y) || OnItsWay(st', y)
      {
        DeliverCovers(c, st, p, x, y);
      }
    }
  }

  lemma DeliverCovers(c: Setup, st: State, p: Packet, x: Vertex, y: Vertex)
    requires Geometry(c) && Good(c, st) && Enabled(st, p) && c.ttl + 2 >= |c.n.vert|
    requires y in c.n.vert && Before(c, x, y) && Holds(c, Deliver(c, st, p), x)
    ensures Holds(c, Deliver(c, st, p), y) || OnItsWay(Deliver(c, st, p), y)
  {
    if x != p.to || Holds(c, st, x) {
      StillHeld(c, st, p, y);
    } else {
      RelayReaches(c, p, y);
      var q :| q in Relays(c, p) && q.to == y;
      RelayIsInFlight(c, st, p, q);
    }
  }

  /** Whoever has the packet keeps it, and a copy on its way arrives or stays on its way. */
  lemma StillHeld(c: Setup, st: State, p: Packet, y: Vertex)
    requires Enabled(st, p) && (Holds(c, st, y) || OnItsWay(st, y))
    ensures Holds(c, Deliver(c, st, p), y) || OnItsWay(Deliver(c, st, p), y)
  {
    var st' := Deliver(c, st, p);
    if !Holds(c, st', y) {
      var q :| q in st.flight && q.to == y;
      assert q in st'.flight;
    }
  }

  lemma RelayIsInFlight(c: Setup, st: State, p: Packet, q: Packet)
    requires Enabled(st, p) && q in Relays(c, p)
    ensures q in Deliver(c, st, p).flight
  {
  }

  // ------------------------------------------------- whole runs

  lemma {:induction false} RunIsGood(c: Setup, st: State, ps: seq<Packet>)
    requires Geometry(c) && Good(c, st) && Run(c, st, ps)
    ensures Good(c, After(c, st, ps))
    decreases |ps|
  {
    if ps != [] {
      DeliverIsGood(c, st, ps[0]);
      RunIsGood(c, Deliver(c, st, ps[0]), ps[1..]);
    }
  }

  /** No relay ever sends the broadcast back to its source. */
  lemma NeverBackToSource(c: Setup, ps: seq<Packet>)
    requires c.Valid() && Run(c, Start(c), ps)
    ensures var last := After(c, Start(c), ps);
      c.s in last.received && last.received[c.s] == 0 && forall p :: p in last.flight ==> p.to != c.s
  {
    RoutesHaveGeometry(c);
    StartIsGood(c);
    RunIsGood(c, Start(c), ps);
  }

  lemma {:induction false} AllReached(c: Setup, st: State, y: Vertex)
    requires c.Valid() && Good(c, st) && st.flight == multiset{} && c.ttl + 2 >= |c.n.vert|
    requires y in c.n.vert && c.Away(y) < INFINITY
    ensures Holds(c, st, y)
    decreases |Nearer(c, y)|
  {
    if y != c.s {
      var p := RouteTo(c, y);
      var x := HasBefore(c, y);
      BeforeSends(c, x, y);
      NearerGrows(c, x, y);
      AllReached(c, st, x);
    }
  }

  /** With time to live at least n - 2, once nothing is in flight every node that the
      source has a route to has received the broadcast. */
  lemma BroadcastCoverage(c: Setup, ps: seq<Packet>, y: Vertex)
    requires c.Valid() && Run(c, Start(c), ps) && After(c, Start(c), ps).flight == multiset{}
    requires c.ttl + 2 >= |c.n.vert| && y in c.n.vert && y != c.s && c.Away(y) < INFINITY
    ensures Holds(c, After(c, Start(c), ps), y)
  {
    RoutesHaveGeometry(c);
    StartIsGood(c);
    RunIsGood(c, Start(c), ps);
    AllReached(c, After(c, Start(c), ps), y);
  }

  // ------------------------------------------------- the broadcast ends

  /** How many deliveries one packet can lead to among `n` nodes, its own included. */
  ghost function Load(n: nat, ttl: nat): nat {
    if ttl == 0 then 1 else 1 + n * Load(n, ttl - 1)
  }

  ghost function Work(n: nat, m: multiset<Packet>): nat
    decreases |m|
  {
    if m == multiset{} then 0
    else var p :| p in m; Load(n, p.ttl) + Work(n, m - multiset{p})
  }

  lemma {:induction false} WorkWithout(n: nat, m: multiset<Packet>, q: Packet)
    requires q in m
    ensures Work(n, m) == Load(n, q.ttl) + Work(n, m - multiset{q})
    decreases |m|
  {
    var p :| p in m && Work(n, m) == Load(n, p.ttl) + Work(n, m - multiset{p});
    if p != q {
      WorkWithout(n, m - multiset{p}, q);
      WorkWithout(n, m - multiset{q}, p);
      assert m - multiset{p} - multiset{q} == m - multiset{q} - multiset{p};
    }
  }

  lemma {:induction false} WorkOfCopies(n: nat, m: multiset<Packet>, s: set<Packet>, ttl: nat)
    requires forall p :: p in s ==> p.ttl == ttl
    ensures Work(n, m + multiset(s)) == Work(n, m) + |s| * Load(n, ttl)
    decreases |s|
  {
    if s == {} {
      assert m + multiset(s) == m;
    } else {
      var p :| p in s;
      WorkOfCopies(n, m, s - {p}, ttl);
      WorkWithout(n, m + multiset(s), p);
      assert m + multiset(s) - multiset{p} == m + multiset(s - {p});
      OneMore(|s - {p}|, Load(n, ttl));
      assert |s| == |s - {p}| + 1;
    }
  }

  lemma {:induction false} CopiesTo(from: Vertex, ttl: nat, s: set<Packet>, vert: set<Vertex>)
    requires forall p :: p in s ==> p == Packet(from, p.to, ttl) && p.to in vert
    ensures |s| <= |vert|
  {
    if s != {} {
      var p :| p in s;
      CopiesTo(from, ttl, s - {p}, vert - {p.to});
    }
  }

  lemma DeliverWorksOff(c: Setup, st: State, p: Packet)
    requires Enabled(st, p)
    ensures Work(|c.n.vert|, Deliver(c, st, p).flight) < Work(|c.n.vert|, st.flight)
  {
    var n := |c.n.vert|;
    WorkWithout(n, st.flight, p);
    if p.ttl > 0 {
      CopiesTo(p.to, p.ttl - 1, Relays(c, p), c.n.vert);
      WorkOfCopies(n, st.flight - multiset{p}, Relays(c, p), p.ttl - 1);
      Monotone(|Relays(c, p)|, n, Load(n, p.ttl - 1));
    } else {
      assert st.flight - multiset{p} + multiset(Relays(c, p)) == st.flight - multiset{p};
    }
  }

  lemma OneMore(a: nat, k: nat)
    ensures (a + 1) * k == a * k + k
  {
  }

  lemma Monotone(a: nat, b: nat, k: nat)
    requires a <= b
    ensures a * k <= b * k
  {
  }

  lemma {:induction false} RunWorksOff(c: Setup, st: State, ps: seq<Packet>)
    requires Run(c, st, ps)
    ensures |ps| + Work(|c.n.vert|, After(c, st, ps).flight) <= Work(|c.n.vert|, st.flight)
    decreases |ps|
  {
    if ps != [] {
      DeliverWorksOff(c, st, ps[0]);
      RunWorksOff(c, Deliver(c, st, ps[0]), ps[1..]);
    }
  }

  /** No run delivers more than this many packets, whatever the tables and weights. */
  lemma BroadcastTerminates(c: Setup, ps: seq<Packet>)
    requires Run(c, Start(c), ps)
    ensures |ps| <= |c.n.vert| * Load(|c.n.vert|, c.ttl)
  {
    var n, first := |c.n.vert|, FirstSends(c);
    RunWorksOff(c, Start(c), ps);
    CopiesTo(c.s, c.ttl, first, c.n.vert);
    WorkOfCopies(n, multiset{}, first, c.ttl);
    assert multiset{} + multiset(first) == multiset(first);
    Monotone(|first|, n, Load(n, c.ttl));
  }

  /** From any good state some deliveries lead to one with nothing in flight. */
  lemma {:induction false} Drain(c: Setup, st: State) returns (ps: seq<Packet>)
    requires Geometry(c) && Good(c, st)
    ensures Run(c, st, ps) && After(c, st, ps).flight == multiset{}
    decreases Work(|c.n.vert|, st.flight)
  {
    if st.flight == multiset{} {
      ps := [];
    } else {
      var p :| p in st.flight;
      assert Outward(c, p);
      DeliverIsGood(c, st, p);
      DeliverWorksOff(c, st, p);
      var rest := Drain(c, Deliver(c, st, p));
      ps := [p] + rest;
      assert ps[1..] == rest;
    }
  }

  /** Whatever has been delivered so far, the broadcast can be completed, and then it has reached
      every node that the source has a route to. */
  lemma BroadcastCompletes(c: Setup, ps: seq<Packet>) returns (rest: seq<Packet>)
    requires c.Valid() && Run(c, Start(c), ps) && c.ttl + 2 >= |c.n.vert|
    ensures var st := After(c, Start(c), ps);
      && Run(c, st, rest) && After(c, st, rest).flight == multiset{}
      && forall y :: y in c.n.vert && c.Away(y) < INFINITY ==> Holds(c, After(c, st, rest), y)
  {
    RoutesHaveGeometry(c);
    StartIsGood(c);
    RunIsGood(c, Start(c), ps);
    var st := After(c, Start(c), ps);
    rest := Drain(c, st);
    RunIsGood(c, st, rest);
    forall y | y in c.n.vert && c.Away(y) < INFINITY
      ensures Holds(c, After(c, st, rest), y)
    {
      AllReached(c, After(c, st, rest), y);
    }
  }

  // ------------------------------------------------- exactly one copy

  ghost predicate ShortestWalk(c: Setup, p: seq<Vertex>, u: Vertex, v: Vertex) {
    WalkBetween(c.n, p, u, v) && Sum(c.n.cost, p) == c.Far(u, v) < INFINITY
  }

  ghost predicate UniqueShortest(c: Setup) {
    forall p, q, u, v {:trigger ShortestWalk(c, p, u, v), ShortestWalk(c, q, u, v)} ::
      ShortestWalk(c, p, u, v) && ShortestWalk(c, q, u, v) ==> p == q
  }

  lemma HopIsSound(c: Setup, x: Vertex, y: Vertex, d: Vertex)
    requires c.Valid() && Hop(c.t.next, x, d) == Some(y)
    ensures {x, y, d} <= c.n.vert && (x, y) in c.n.cost && x != y && x != d && c.Far(x, d) < INFINITY
  {
    assert Has(c.t.next, x, d) && SoundAt(c.n, ViewOf(c.t), c.n.vert, x, d);
    FarPositive(c, x, d);
  }

  lemma HopIsTight(c: Setup, x: Vertex, y: Vertex, d: Vertex)
    requires c.Valid() && Hop(c.t.next, x, d) == Some(y)
    ensures {x, y, d} <= c.n.vert && (x, y) in c.n.cost && c.Far(y, d) < INFINITY
    ensures c.Far(x, d) == c.n.cost[(x, y)] + c.Far(y, d)
  {
    var t := ViewOf(c.t);
    HopIsSound(c, x, y, d);
    NonNegativeIsTame(c.n);
    var rank, bound :| Ranked(c.n, t, c.n.vert, rank, bound);
    NextHopIsTight(c.n, t, rank, bound, x, d);
  }

  /** The edge to a next hop is itself a shortest path. */
  lemma NextHopEdge(c: Setup, x: Vertex, y: Vertex)
    requires c.Valid() && IsNextHop(c.t.next, x, y)
    ensures (x, y) in c.n.cost && c.n.cost[(x, y)] == c.Far(x, y)
  {
    var d :| Hop(c.t.next, x, d) == Some(y);
    HopIsTight(c, x, y, d);
    EdgeAtMost(c, x, y);
    FarTriangle(c, x, y, d);
  }

  lemma EdgeAtMost(c: Setup, x: Vertex, y: Vertex)
    requires c.Valid() && (x, y) in c.n.cost
    ensures c.Far(x, y) <= c.n.cost[(x, y)] < INFINITY
  {
    SumOfEdge(c.n.cost, x, y);
    FarAtMost(c, [x, y]);
  }

  /** Entering `y` from a vertex of its route over a next-hop edge costs no more than the route. */
  lemma ShortcutIsShortest(c: Setup, p: seq<Vertex>, y: Vertex, a: nat)
    requires c.Valid() && y in c.n.vert && Chain(Hops(c.t.next), p, c.s, y) && a < |p| && IsNextHop(c.t.next, p[a], y)
    ensures ShortestWalk(c, p[..a + 1] + [y], c.s, y) && ShortestWalk(c, p, c.s, y)
  {
    var front, x := p[..a + 1], p[a];
    RouteIsShortest(c, p, c.s, y);
    NextHopEdge(c, x, y);
    OnRoute(c, p, c.s, y, a);
    assert front == p[0..a + 1];
    PartIsWalk(c.n, p, 0, a + 1);
    FrontIsShortest(c, p, y, a);
    var e := [x, y];
    assert Walk(c.n, e);
    InteriorOfWalk(c.n, front);
    GlueIsWalk(c.n, front, e, c.n.vert);
    GlueSum(c.n.cost, front, e);
    SumOfEdge(c.n.cost, x, y);
    assert Glue(front, e) == front + [y];
  }

  lemma FrontIsShortest(c: Setup, p: seq<Vertex>, y: Vertex, a: nat)
    requires c.Valid() && Walk(c.n, p) && p[0] == c.s && p[|p| - 1] == y && a < |p|
    requires Sum(c.n.cost, p) == c.Away(y) == c.Away(p[a]) + c.Far(p[a], y)
    ensures Sum(c.n.cost, p[..a + 1]) == c.Away(p[a])
  {
    Halves(c, p, a);
  }

  lemma OnlyBeforeSends(c: Setup, p: seq<Vertex>, x: Vertex, y: Vertex)
    requires c.Valid() && UniqueShortest(c) && y in c.n.vert && x != y
    requires Chain(Hops(c.t.next), p, c.s, y) && x in p && IsNextHop(c.t.next, x, y)
    ensures Before(c, x, y)
  {
    var a :| 0 <= a < |p| && p[a] == x;
    ShortcutIsShortest(c, p, y, a);
    assert p == p[..a + 1] + [y];
    assert p[|p| - 2] == x;
  }

  /** With unique shortest paths only the node before `y` ever sends to `y`. */
  ghost predicate SingleSender(c: Setup) {
    && (forall y :: IsNextHop(c.t.next, c.s, y) ==> Before(c, c.s, y))
    && (forall x, from, y :: RelaysTo(c.t.next, x, from, c.s, y) ==> Before(c, x, y))
    && (forall x, x', y {:trigger Before(c, x, y), Before(c, x', y)} :: Before(c, x, y) && Before(c, x', y) ==> x == x')
  }

  lemma UniqueHasSingleSender(c: Setup)
    requires c.Valid() && UniqueShortest(c)
    ensures SingleSender(c)
  {
    forall y | IsNextHop(c.t.next, c.s, y)
      ensures Before(c, c.s, y)
    {
      FirstSendIsOutward(c, y);
      var p := RouteTo(c, y);
      OnlyBeforeSends(c, p, c.s, y);
    }
    forall x, from, y | RelaysTo(c.t.next, x, from, c.s, y)
      ensures Before(c, x, y)
    {
      RelayMovesOut(c, x, from, y);
      var p :| Chain(Hops(c.t.next), p, c.s, y) && x in p;
      OnlyBeforeSends(c, p, x, y);
    }
    forall x, x', y | Before(c, x, y) && Before(c, x', y)
      ensures x == x'
    {
      var p :| Chain(Hops(c.t.next), p, c.s, y) && |p| >= 2 && p[|p| - 2] == x;
      var q :| Chain(Hops(c.t.next), q, c.s, y) && |q| >= 2 && q[|q| - 2] == x';
      ChainIsUnique(Hops(c.t.next), p, q, c.s, y);
    }
  }

  /** A copy in flight is the only one, comes from the node before its receiver, and the
      receiver does not have the packet yet. */
  ghost predicate OnlyCopy(c: Setup, st: State, p: Packet) {
    && st.flight[p] == 1 && !Holds(c, st, p.to) && Before(c, p.from, p.to) && Holds(c, st, p.from)
    && forall q :: q in st.flight && q.to == p.to ==> q == p
  }

  ghost predicate Once(c: Setup, st: State) {
    && (forall p {:trigger OnlyCopy(c, st, p)} :: p in st.flight ==> OnlyCopy(c, st, p))
    && (forall x :: x in st.received ==> st.received[x] <= 1)
    && (forall x, y {:trigger Before(c, x, y)} ::
          y in st.received && st.received[y] > 0 && Before(c, x, y) ==> Holds(c, st, x))
  }

  lemma StartOnce(c: Setup)
    requires Geometry(c) && SingleSender(c)
    ensures Once(c, Start(c))
  {
  }

  /** The receivers of a relay neither have the packet nor any copy on its way. */
  lemma RelayTarget(c: Setup, st: State, p: Packet, q: Packet)
    requires Geometry(c) && SingleSender(c) && Good(c, st) && Once(c, st) && Enabled(st, p) && q in Relays(c, p)
    ensures Before(c, p.to, q.to) && q.from == p.to && q.to != p.to && !Holds(c, st, q.to)
    ensures forall r :: r in st.flight ==> r.to != q.to
  {
    assert RelaysTo(c.t.next, p.to, p.from, c.s, q.to);
    assert Before(c, p.to, q.to) && OnlyCopy(c, st, p);
    forall r | r in st.flight
      ensures r.to != q.to
    {
      assert OnlyCopy(c, st, r);
    }
  }

  lemma OldCopy(c: Setup, st: State, p: Packet, q: Packet)
    requires Geometry(c) && SingleSender(c) && Good(c, st) && Once(c, st) && Enabled(st, p)
    requires q in st.flight && q != p
    ensures OnlyCopy(c, Deliver(c, st, p), q)
  {
    assert OnlyCopy(c, st, q) && OnlyCopy(c, st, p);
    forall r | r in Relays(c, p)
      ensures r.to != q.to
    {
      RelayTarget(c, st, p, r);
    }
    FlightAfter(c, st, p);
    StaysOnlyCopy(c, st, Deliver(c, st, p), p, q);
  }

  lemma FlightAfter(c: Setup, st: State, p: Packet)
    requires Enabled(st, p)
    ensures var st' := Deliver(c, st, p);
      && st'.received == st.received[p.to := st.received[p.to] + 1]
      && (forall r :: r in st'.flight ==> r in st.flight || r in Relays(c, p))
      && (forall r :: r != p && r !in Relays(c, p) ==> st'.flight[r] == st.flight[r])
  {
  }

  lemma StaysOnlyCopy(c: Setup, st: State, st': State, p: Packet, q: Packet)
    requires Enabled(st, p) && q in st.flight && q != p && OnlyCopy(c, st, p) && OnlyCopy(c, st, q)
    requires forall r :: r in st'.flight ==> r in st.flight || r.to != q.to
    requires st'.flight[q] == st.flight[q] && st'.received == st.received[p.to := st.received[p.to] + 1]
    ensures OnlyCopy(c, st', q)
  {
  }

  lemma NewCopy(c: Setup, st: State, p: Packet, q: Packet)
    requires Geometry(c) && SingleSender(c) && Good(c, st) && Once(c, st) && Enabled(st, p)
    requires q in Relays(c, p)
    ensures OnlyCopy(c, Deliver(c, st, p), q)
  {
    RelayTarget(c, st, p, q);
  }

  lemma CopiesStayOnly(c: Setup, st: State, p: Packet)
    requires Geometry(c) && SingleSender(c) && Good(c, st) && Once(c, st) && Enabled(st, p)
    ensures forall q {:trigger OnlyCopy(c, Deliver(c, st, p), q)} :: q in Deliver(c, st, p).flight ==>
      OnlyCopy(c, Deliver(c, st, p), q)
  {
    assert OnlyCopy(c, st, p);
    forall q | q in Deliver(c, st, p).flight
      ensures OnlyCopy(c, Deliver(c, st, p), q)
    {
      if q in Relays(c, p) {
        NewCopy(c, st, p, q);
      } else {
        OldCopy(c, st, p, q);
      }
    }
  }

  lemma ReceivedInOrder(c: Setup, st: State, p: Packet)
    requires SingleSender(c) && Once(c, st) && Enabled(st, p)
    ensures var st' := Deliver(c, st, p);
      && (forall x :: x in st'.received ==> st'.received[x] <= 1)
      && (forall x, y {:trigger Before(c, x, y)} ::
            y in st'.received && st'.received[y] > 0 && Before(c, x, y) ==> Holds(c, st', x))
  {
    assert OnlyCopy(c, st, p);
    forall x, y | y in st.received && (y == p.to || st.received[y] > 0) && Before(c, x, y)
      ensures Holds(c, Deliver(c, st, p), x)
    {
      if y != p.to { assert Holds(c, st, x); }
    }
  }

  lemma DeliverOnce(c: Setup, st: State, p: Packet)
    requires Geometry(c) && SingleSender(c) && Good(c, st) && Once(c, st) && Enabled(st, p)
    ensures Once(c, Deliver(c, st, p))
  {
    CopiesStayOnly(c, st, p);
    ReceivedInOrder(c, st, p);
  }

  lemma {:induction false} RunOnce(c: Setup, st: State, ps: seq<Packet>)
    requires Geometry(c) && SingleSender(c) && Good(c, st) && Once(c, st) && Run(c, st, ps)
    ensures Once(c, After(c, st, ps))
    decreases |ps|
  {
    if ps != [] {
      DeliverIsGood(c, st, ps[0]);
      DeliverOnce(c, st, ps[0]);
      RunOnce(c, Deliver(c, st, ps[0]), ps[1..]);
    }
  }

  /** When shortest paths are unique no node is ever sent a second copy, and once nothing is
      in flight every node with a route has received exactly one. */
  lemma ExactlyOneCopy(c: Setup, ps: seq<Packet>, y: Vertex)
    requires c.Valid() && UniqueShortest(c) && Run(c, Start(c), ps) && y in c.n.vert
    ensures var last := After(c, Start(c), ps); y in last.received && last.received[y] <= 1
    ensures var last := After(c, Start(c), ps);
      last.flight == multiset{} && c.ttl + 2 >= |c.n.vert| && y != c.s && c.Away(y) < INFINITY ==>
        y in last.received && last.received[y] == 1
  {
    RoutesHaveGeometry(c);
    UniqueHasSingleSender(c);
    StartIsGood(c);
    StartOnce(c);
    RunOnce(c, Start(c), ps);
    RunIsGood(c, Start(c), ps);
    var last := After(c, Start(c), ps);
    if last.flight == multiset{} && c.ttl + 2 >= |c.n.vert| && y != c.s && c.Away(y) < INFINITY {
      BroadcastCoverage(c, ps, y);
    }
  }
}
