/** The asynchronous flood: `SpreadPacket` sends a body to every peer, and each receiver
    relays it unless its CRC is already in the duplicate cache.

    Deliveries happen in any order; several bodies may be on their way at once. The run
    is shorter than the duplicate timeout, so nothing leaves the cache. */
module Flood {
  import opened Walks
  import opened Relay

  /** `peers` is the IDMap of every node; `crc` is injective on the bodies in use; the bodies
      are control messages from edge to edge. */
  datatype Group = Group(peers: map<Vertex, set<Vertex>>, bodies: set<nat>, crc: nat -> nat, usage: Usage) {
    ghost predicate Valid() {
      && EdgeToEdge(usage)
      && (forall x :: x in peers ==> x < NODE_INVALID && x !in peers[x] && peers[x] <= peers.Keys)
      && (forall a, b :: a in bodies && b in bodies && crc(a) == crc(b) ==> a == b)
    }
  }

  datatype Packet = Packet(body: nat, src: Vertex, from: Vertex, to: Vertex, ttl: nat)

  datatype State = State(flight: multiset<Packet>, seen: map<Vertex, set<nat>>, processed: map<(Vertex, nat), nat>)

  datatype Event = Inject(body: nat, origin: Vertex, initialTtl: nat) | Deliver(packet: Packet)

  // ------------------------------------------------- steps

  /** The copies that SpreadPacket at `self` sends, given its skip list. */
  ghost function Copies(g: Group, body: nat, src: Vertex, self: Vertex, skip: set<Vertex>, ttl: nat): set<Packet>
    requires self in g.peers
  {
    set z | z in g.peers[self] - skip :: Packet(body, src, self, z, ttl)
  }

  /** The receiver of `p` does not have its CRC in the duplicate cache. */
  ghost predicate First(g: Group, st: State, p: Packet)
    requires p.to in st.seen
  {
    g.crc(p.body) !in st.seen[p.to]
  }

  /** The copies that the receiver of `p` relays. */
  ghost function Relayed(g: Group, st: State, p: Packet): set<Packet>
    requires p.to in st.seen && p.to in g.peers
  {
    if First(g, st, p) && p.ttl > 0 then Copies(g, p.body, p.src, p.to, {p.src, p.from}, p.ttl - 1) else {}
  }

  /** What the receiver of `p` decides, with relaying enabled, and its cache afterwards. */
  ghost function Decision(g: Group, st: State, p: Packet): (Verdict, set<nat>)
    requires p.to in st.seen
  {
    VerdictOf(p.to, false, false, st.seen[p.to],
              Incoming(g.usage, NODE_SPREAD, p.from, p.ttl, g.crc(p.body), NODE_INVALID))
  }

  ghost function Count(m: map<(Vertex, nat), nat>, k: (Vertex, nat)): nat {
    if k in m then m[k] else 0
  }

  ghost predicate Enabled(g: Group, st: State, ev: Event) {
    match ev
    case Inject(body, origin, _) => body in g.bodies && origin in g.peers
    case Deliver(p) => p in st.flight && p.to in st.seen && p.to in g.peers
  }

  ghost function Exec(g: Group, st: State, ev: Event): State
    requires Enabled(g, st, ev)
  {
    match ev
    case Inject(body, origin, ttl) =>
      st.(flight := st.flight + multiset(Copies(g, body, origin, origin, {}, ttl)))
    case Deliver(p) =>
      var (v, seen) := Decision(g, st, p);
      var copies := if v.Verdict? && v.forward.Spread? && p.ttl > 0
                    then Copies(g, p.body, p.src, p.to, {p.src, p.from}, p.ttl - 1) else {};
      State(st.flight - multiset{p} + multiset(copies), st.seen[p.to := seen],
            if v.Verdict? && v.process then Processed(st.processed, (p.to, p.body)) else st.processed)
  }

  ghost function Processed(m: map<(Vertex, nat), nat>, k: (Vertex, nat)): map<(Vertex, nat), nat> {
    m[k := Count(m, k) + 1]
  }

  /** The step in plain terms: the first copy is processed, remembered and, while time to live
      remains, relayed to all peers but its source and its sender; others are dropped. */
  lemma DeliveryIsDecided(g: Group, st: State, p: Packet)
    requires g.Valid() && Enabled(g, st, Deliver(p))
    ensures Exec(g, st, Deliver(p)) ==
      State(st.flight - multiset{p} + multiset(Relayed(g, st, p)), st.seen[p.to := st.seen[p.to] + {g.crc(p.body)}],
            if First(g, st, p) then Processed(st.processed, (p.to, p.body)) else st.processed)
  {
  }

  /** The relayed copies: one for every peer but the source and the sender, with one less time to
      live, and only of a first copy that has time to live left. */
  lemma RelayedMeaning(g: Group, st: State, p: Packet, q: Packet)
    requires p.to in st.seen && p.to in g.peers
    ensures q in Relayed(g, st, p) <==>
      && g.crc(p.body) !in st.seen[p.to] && q.ttl + 1 == p.ttl
      && q.body == p.body && q.src == p.src && q.from == p.to
      && q.to in g.peers[p.to] && q.to != p.src && q.to != p.from
  {
  }

  ghost predicate Run(g: Group, st: State, evs: seq<Event>)
    decreases |evs|
  {
    evs == [] || (Enabled(g, st, evs[0]) && Run(g, Exec(g, st, evs[0]), evs[1..]))
  }

  ghost function After(g: Group, st: State, evs: seq<Event>): State
    requires Run(g, st, evs)
    decreases |evs|
  {
    if evs == [] then st else After(g, Exec(g, st, evs[0]), evs[1..])
  }

  // ------------------------------------------------- one body on its way

  ghost predicate Sane(g: Group, st: State) {
    && g.Valid() && st.seen.Keys == g.peers.Keys
    && forall p :: p in st.flight ==> p.body in g.bodies && p.to in g.peers
  }

  /** Nodes whose duplicate cache knows the body. */
  ghost function Reached(g: Group, st: State, b: nat): set<Vertex> {
    set x | x in st.seen && g.crc(b) in st.seen[x]
  }

  ghost predicate SameBody(p: Packet, b: nat, s: Vertex, reached: set<Vertex>, ttl: nat) {
    && p.src == s && p.to != s && (p.from == s || p.from in reached)
    && p.ttl + |reached| >= ttl
  }

  ghost predicate Covered(g: Group, st: State, b: nat, s: Vertex, z: Vertex) {
    z == s || z in Reached(g, st, b) || exists p :: p in st.flight && p.body == b && p.to == z
  }

  ghost predicate SafeFlood(g: Group, st: State, b: nat, s: Vertex, ttl: nat) {
    var reached := Reached(g, st, b);
    && Sane(g, st) && b in g.bodies && s in g.peers && s !in reached
    && (forall p :: p in st.flight && p.body == b ==> SameBody(p, b, s, reached, ttl))
    && (forall x :: Count(st.processed, (x, b)) == if x in reached then 1 else 0)
  }

  /** Whoever has the body has passed it on to all its peers, or it is on its way there. */
  ghost predicate Spreading(g: Group, st: State, b: nat, s: Vertex) {
    forall y, z {:trigger g.peers[y], Covered(g, st, b, s, z)} ::
      (y == s || y in Reached(g, st, b)) && y in g.peers && z in g.peers[y] ==> Covered(g, st, b, s, z)
  }

  /** The origin `s` put `b` on its way with time-to-live `ttl`, once. */
  ghost predicate Flooding(g: Group, st: State, b: nat, s: Vertex, ttl: nat) {
    SafeFlood(g, st, b, s, ttl) && (ttl + 2 >= |g.peers| ==> Spreading(g, st, b, s))
  }

  /** Nothing of body `b` is around yet. */
  ghost predicate Unknown(g: Group, st: State, b: nat) {
    && Sane(g, st) && b in g.bodies && Reached(g, st, b) == {}
    && (forall p :: p in st.flight ==> p.body != b)
    && (forall x :: Count(st.processed, (x, b)) == 0)
  }

  lemma InjectStarts(g: Group, st: State, b: nat, s: Vertex, ttl: nat)
    requires Unknown(g, st, b) && s in g.peers
    ensures Enabled(g, st, Inject(b, s, ttl)) && Flooding(g, Exec(g, st, Inject(b, s, ttl)), b, s, ttl)
  {
    var st' := Exec(g, st, Inject(b, s, ttl));
    assert Reached(g, st', b) == {};
    forall z | z in g.peers[s]
      ensures Covered(g, st', b, s, z)
    {
      assert Packet(b, s, s, z, ttl) in st'.flight;
    }
  }

  lemma DeliveryReaches(g: Group, st: State, p: Packet, b: nat)
    requires Sane(g, st) && Enabled(g, st, Deliver(p)) && b in g.bodies
    ensures Sane(g, Exec(g, st, Deliver(p)))
    ensures Reached(g, Exec(g, st, Deliver(p)), b) == Reached(g, st, b) + if p.body == b then {p.to} else {}
  {
  }

  lemma StillCovered(g: Group, st: State, b: nat, s: Vertex, p: Packet, z: Vertex)
    requires Sane(g, st) && Enabled(g, st, Deliver(p)) && b in g.bodies && Covered(g, st, b, s, z)
    ensures Covered(g, Exec(g, st, Deliver(p)), b, s, z)
  {
  }

  /** The copies of a body in flight stay consistent. */
  lemma CopiesStaySame(g: Group, st: State, b: nat, s: Vertex, ttl: nat, p: Packet, q: Packet)
    requires SafeFlood(g, st, b, s, ttl) && Enabled(g, st, Deliver(p))
    requires q in Exec(g, st, Deliver(p)).flight && q.body == b
    ensures SameBody(q, b, s, Reached(g, Exec(g, st, Deliver(p)), b), ttl)
  {
    var reached, reached' := Reached(g, st, b), Reached(g, Exec(g, st, Deliver(p)), b);
    DeliveryReaches(g, st, p, b);
    if q in st.flight {
      assert SameBody(q, b, s, reached, ttl);
      SubsetSize(reached, reached');
    } else {
      DeliveryIsDecided(g, st, p);
      assert q in Relayed(g, st, p) && SameBody(p, b, s, reached, ttl);
    }
  }

  /** Every delivery keeps the flood safe; another body's CRC does not interfere. */
  lemma DeliveryIsSafe(g: Group, st: State, b: nat, s: Vertex, ttl: nat, p: Packet)
    requires SafeFlood(g, st, b, s, ttl) && Enabled(g, st, Deliver(p))
    ensures SafeFlood(g, Exec(g, st, Deliver(p)), b, s, ttl)
  {
    DeliveryReaches(g, st, p, b);
    assert p.body == b ==> SameBody(p, b, s, Reached(g, st, b), ttl);
    forall q | q in Exec(g, st, Deliver(p)).flight && q.body == b
      ensures SameBody(q, b, s, Reached(g, Exec(g, st, Deliver(p)), b), ttl)
    {
      CopiesStaySame(g, st, b, s, ttl, p, q);
    }
    ProcessedOnce(g, st, b, p);
  }

  lemma ProcessedOnce(g: Group, st: State, b: nat, p: Packet)
    requires Sane(g, st) && Enabled(g, st, Deliver(p)) && b in g.bodies
    requires forall x :: Count(st.processed, (x, b)) == if x in Reached(g, st, b) then 1 else 0
    ensures var st' := Exec(g, st, Deliver(p));
      forall x :: Count(st'.processed, (x, b)) == if x in Reached(g, st', b) then 1 else 0
  {
  }

  /** A copy that arrives with no time to live left finds that everyone else has it. */
  lemma LastStop(g: Group, st: State, b: nat, s: Vertex, ttl: nat, p: Packet, z: Vertex)
    requires Flooding(g, st, b, s, ttl) && p in st.flight && p.body == b && p.to !in Reached(g, st, b)
    requires ttl + 2 >= |g.peers| && p.ttl == 0 && z in g.peers[p.to] && z != s
    ensures z in Reached(g, st, b)
  {
    var reached := Reached(g, st, b);
    var others := g.peers.Keys - {s, p.to};
    assert |others| == |g.peers.Keys| - 2;
    assert reached <= others;
    if z !in reached {
      assert reached <= others - {z};
      assert |reached| <= |others - {z}| by { SubsetSize(reached, others - {z}); }
    }
  }

  /** With enough time to live, every delivery keeps the flood spreading. */
  lemma DeliverySpreads(g: Group, st: State, b: nat, s: Vertex, ttl: nat, p: Packet, y: Vertex, z: Vertex)
    requires Flooding(g, st, b, s, ttl) && ttl + 2 >= |g.peers| && Enabled(g, st, Deliver(p))
    requires (y == s || y in Reached(g, Exec(g, st, Deliver(p)), b)) && y in g.peers && z in g.peers[y]
    ensures Covered(g, Exec(g, st, Deliver(p)), b, s, z)
  {
    DeliveryReaches(g, st, p, b);
    if y == s || y in Reached(g, st, b) {
      assert Covered(g, st, b, s, z);
      StillCovered(g, st, b, s, p, z);
    } else {
      RelayCovers(g, st, b, s, ttl, p, z);
    }
  }

  lemma RelayCovers(g: Group, st: State, b: nat, s: Vertex, ttl: nat, p: Packet, z: Vertex)
    requires Flooding(g, st, b, s, ttl) && ttl + 2 >= |g.peers| && Enabled(g, st, Deliver(p))
    requires p.body == b && p.to !in Reached(g, st, b) && z in g.peers[p.to]
    ensures Covered(g, Exec(g, st, Deliver(p)), b, s, z)
  {
    assert SameBody(p, b, s, Reached(g, st, b), ttl);
    if z == p.from && z != s {
      StillCovered(g, st, b, s, p, z);
    } else if p.ttl == 0 && z != s {
      LastStop(g, st, b, s, ttl, p, z);
      StillCovered(g, st, b, s, p, z);
    } else if z != s {
      RelayedIsInFlight(g, st, p, Packet(b, s, p.to, z, p.ttl - 1));
    }
  }

  lemma RelayedIsInFlight(g: Group, st: State, p: Packet, q: Packet)
    requires g.Valid() && Enabled(g, st, Deliver(p)) && q in Relayed(g, st, p)
    ensures q in Exec(g, st, Deliver(p)).flight
  {
  }

  lemma StepKeepsFlooding(g: Group, st: State, b: nat, s: Vertex, ttl: nat, ev: Event)
    requires Flooding(g, st, b, s, ttl) && Enabled(g, st, ev) && !(ev.Inject? && ev.body == b)
    ensures Flooding(g, Exec(g, st, ev), b, s, ttl)
  {
    var st' := Exec(g, st, ev);
    match ev
    case Inject(_, _, _) =>
      forall y, z | (y == s || y in Reached(g, st', b)) && y in g.peers && z in g.peers[y] && ttl + 2 >= |g.peers|
        ensures Covered(g, st', b, s, z)
      {
        assert Covered(g, st, b, s, z);
      }
    case Deliver(p) =>
      DeliveryIsSafe(g, st, b, s, ttl, p);
      forall y, z | (y == s || y in Reached(g, st', b)) && y in g.peers && z in g.peers[y] && ttl + 2 >= |g.peers|
        ensures Covered(g, st', b, s, z)
      {
        DeliverySpreads(g, st, b, s, ttl, p, y, z);
      }
  }

  // ------------------------------------------------- whole runs

  ghost predicate NotAgain(evs: seq<Event>, b: nat) {
    forall k :: 0 <= k < |evs| ==> !(evs[k].Inject? && evs[k].body == b)
  }

  lemma {:induction false} RunKeepsFlooding(g: Group, st: State, evs: seq<Event>, b: nat, s: Vertex, ttl: nat)
    requires Flooding(g, st, b, s, ttl) && Run(g, st, evs) && NotAgain(evs, b)
    ensures Flooding(g, After(g, st, evs), b, s, ttl)
    decreases |evs|
  {
    if evs != [] {
      StepKeepsFlooding(g, st, b, s, ttl, evs[0]);
      RunKeepsFlooding(g, Exec(g, st, evs[0]), evs[1..], b, s, ttl);
    }
  }

  /** In every run each node processes a body at most once, and the origin never gets its
      own body back: it processes none and no copy is addressed to it. */
  lemma FloodSafety(g: Group, st: State, b: nat, s: Vertex, ttl: nat, evs: seq<Event>)
    requires Unknown(g, st, b) && s in g.peers
    requires Run(g, st, [Inject(b, s, ttl)] + evs) && NotAgain(evs, b)
    ensures var last := After(g, st, [Inject(b, s, ttl)] + evs);
      && (forall x :: Count(last.processed, (x, b)) <= 1)
      && Count(last.processed, (s, b)) == 0
      && (forall p :: p in last.flight && p.body == b ==> p.to != s)
  {
    InjectStarts(g, st, b, s, ttl);
    assert ([Inject(b, s, ttl)] + evs)[1..] == evs;
    RunKeepsFlooding(g, Exec(g, st, Inject(b, s, ttl)), evs, b, s, ttl);
  }

  ghost predicate PeerLink(g: Group, x: Vertex, y: Vertex) {
    x in g.peers && y in g.peers[x]
  }

  ghost predicate PeerPath(g: Group, p: seq<Vertex>) {
    && p != [] && p[0] in g.peers
    && forall a, b :: 0 <= a && b == a + 1 < |p| ==> PeerLink(g, p[a], p[b])
  }

  lemma FrontOfPath(g: Group, p: seq<Vertex>)
    requires PeerPath(g, p) && |p| > 1
    ensures PeerPath(g, p[..|p| - 1])
  {
    var q := p[..|p| - 1];
    assert q[0] == p[0];
    forall a, b | 0 <= a && b == a + 1 < |q|
      ensures PeerLink(g, q[a], q[b])
    {
      assert PeerLink(g, p[a], p[b]);
    }
  }

  ghost predicate Quiescent(st: State, b: nat) {
    forall p :: p in st.flight ==> p.body != b
  }

  lemma {:induction false} SpreadAlongPath(g: Group, st: State, b: nat, s: Vertex, ttl: nat, p: seq<Vertex>)
    requires Flooding(g, st, b, s, ttl) && ttl + 2 >= |g.peers| && Quiescent(st, b)
    requires PeerPath(g, p) && p[0] == s
    ensures p[|p| - 1] == s || p[|p| - 1] in Reached(g, st, b)
    decreases |p|
  {
    if |p| > 1 {
      FrontOfPath(g, p);
      SpreadAlongPath(g, st, b, s, ttl, p[..|p| - 1]);
      var y, z := p[|p| - 2], p[|p| - 1];
      assert PeerLink(g, y, z);
      assert Covered(g, st, b, s, z);
    }
  }

  /** With time to live at least n - 2, once no copy is on its way every node that the
      origin can reach over peer links has processed the body exactly once. */
  lemma FloodCoverage(g: Group, st: State, b: nat, s: Vertex, ttl: nat, evs: seq<Event>, p: seq<Vertex>)
    requires Unknown(g, st, b) && s in g.peers && ttl + 2 >= |g.peers|
    requires Run(g, st, [Inject(b, s, ttl)] + evs) && NotAgain(evs, b)
    requires Quiescent(After(g, st, [Inject(b, s, ttl)] + evs), b)
    requires PeerPath(g, p) && p[0] == s && p[|p| - 1] != s
    ensures Count(After(g, st, [Inject(b, s, ttl)] + evs).processed, (p[|p| - 1], b)) == 1
  {
    InjectStarts(g, st, b, s, ttl);
    assert ([Inject(b, s, ttl)] + evs)[1..] == evs;
    RunKeepsFlooding(g, Exec(g, st, Inject(b, s, ttl)), evs, b, s, ttl);
    SpreadAlongPath(g, After(g, st, [Inject(b, s, ttl)] + evs), b, s, ttl, p);
  }

  // ------------------------------------------------- the flood ends

  /** Pairs of a node and a body that its cache does not know yet. */
  ghost function Missing(g: Group, st: State): set<(Vertex, nat)> {
    set x, b | x in st.seen && b in g.bodies && g.crc(b) !in st.seen[x] :: (x, b)
  }

  ghost function Potential(g: Group, st: State): nat {
    |st.flight| + |g.peers| * |Missing(g, st)|
  }

  lemma {:induction false} CopiesSize(g: Group, body: nat, src: Vertex, self: Vertex, targets: set<Vertex>, ttl: nat)
    ensures |set z | z in targets :: Packet(body, src, self, z, ttl)| == |targets|
  {
    var s := set z | z in targets :: Packet(body, src, self, z, ttl);
    if targets != {} {
      var z :| z in targets;
      var less := set y | y in targets - {z} :: Packet(body, src, self, y, ttl);
      CopiesSize(g, body, src, self, targets - {z}, ttl);
      assert s == less + {Packet(body, src, self, z, ttl)};
    }
  }

  lemma MissingAfter(g: Group, st: State, p: Packet)
    requires Sane(g, st) && Enabled(g, st, Deliver(p))
    ensures Missing(g, Exec(g, st, Deliver(p))) == Missing(g, st) - {(p.to, p.body)}
    ensures First(g, st, p) <==> (p.to, p.body) in Missing(g, st)
  {
  }

  lemma RelayedFew(g: Group, st: State, p: Packet)
    requires Sane(g, st) && Enabled(g, st, Deliver(p))
    ensures |Relayed(g, st, p)| < |g.peers|
  {
    var targets := g.peers[p.to] - {p.src, p.from};
    if p.ttl > 0 {
      CopiesSize(g, p.body, p.src, p.to, targets, p.ttl - 1);
    }
    SubsetSize(targets, g.peers.Keys - {p.to});
  }

  lemma DeliveryDecreases(g: Group, st: State, p: Packet)
    requires Sane(g, st) && Enabled(g, st, Deliver(p))
    ensures Potential(g, Exec(g, st, Deliver(p))) < Potential(g, st)
  {
    MissingAfter(g, st, p);
    FlightAfter(g, st, p);
    var miss := Missing(g, st);
    if First(g, st, p) {
      assert |Missing(g, Exec(g, st, Deliver(p)))| == |miss| - 1;
      Distribute(|g.peers|, |miss|);
    } else {
      assert Missing(g, Exec(g, st, Deliver(p))) == miss;
    }
  }

  lemma FlightAfter(g: Group, st: State, p: Packet)
    requires Sane(g, st) && Enabled(g, st, Deliver(p))
    ensures |Exec(g, st, Deliver(p)).flight| < |st.flight| - 1 + |g.peers|
    ensures !First(g, st, p) ==> |Exec(g, st, Deliver(p)).flight| == |st.flight| - 1
  {
    RelayedFew(g, st, p);
  }

  lemma Distribute(n: nat, m: nat)
    requires m > 0
    ensures n * m == n * (m - 1) + n
  {
  }

  /** No run delivers more often than the potential of its first state. */
  lemma {:induction false} FloodTerminates(g: Group, st: State, evs: seq<Event>)
    requires Sane(g, st) && Run(g, st, evs) && forall k :: 0 <= k < |evs| ==> evs[k].Deliver?
    ensures |evs| <= Potential(g, st)
    decreases |evs|
  {
    if evs != [] {
      var b := evs[0].packet;
      DeliveryDecreases(g, st, b);
      DeliveryReaches(g, st, b, b.body);
      FloodTerminates(g, Exec(g, st, evs[0]), evs[1..]);
    }
  }
}
