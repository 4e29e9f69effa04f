/** Edge weights of the routing graph at a given clock reading, and how the snapshot seen
    by one route calculation follows from them. */
module EdgeWeights {
  import opened Walks
  import opened Wrappers

  /** Times are nanoseconds since the zero time of the clock. */
  datatype Latency = Latency(ping: real, pingOld: real, additionalCost: real, validUntil: int)

  type Edges = map<Vertex, map<Vertex, Latency>>

  function LinkAt(e: Edges, u: Vertex, v: Vertex): Option<Latency> {
    if u in e && v in e[u] then Some(e[u][v]) else None
  }

  function Cap(x: real): real {
    if x >= INFINITY then INFINITY else x
  }

  function LinkWeight(l: Option<Latency>, withAC: bool, now: int): real {
    if l == None || now > l.value.validUntil then INFINITY
    else Cap(l.value.ping + (if withAC then l.value.additionalCost else 0.0))
  }

  function Weight(e: Edges, u: Vertex, v: Vertex, withAC: bool, now: int): real {
    if u == v then 0.0 else LinkWeight(LinkAt(e, u, v), withAC, now)
  }

  function OldWeight(e: Edges, u: Vertex, v: Vertex): real {
    if u == v then 0.0
    else if LinkAt(e, u, v) == None then INFINITY
    else Cap(e[u][v].pingOld)
  }

  /** Weights never exceed Infinity; the remembered one is Infinity exactly if there is no link or
      it was not below Infinity when it was remembered. */
  lemma WeightRange(e: Edges, u: Vertex, v: Vertex, ac: bool, now: int)
    ensures Weight(e, u, v, ac, now) <= INFINITY && OldWeight(e, u, v) <= INFINITY
    ensures u == v ==> Weight(e, u, v, ac, now) == OldWeight(e, u, v) == 0.0
    ensures u != v ==> (OldWeight(e, u, v) == INFINITY <==>
      LinkAt(e, u, v) == None || LinkAt(e, u, v).value.pingOld >= INFINITY)
    ensures u != v && OldWeight(e, u, v) < INFINITY ==> OldWeight(e, u, v) == LinkAt(e, u, v).value.pingOld
  {
  }

  /** Overwrite the record of an existing edge; a missing edge stays missing. */
  function Replace(e: Edges, u: Vertex, v: Vertex, l: Latency): Edges {
    if LinkAt(e, u, v).Some? then e[u := e[u][v := l]] else e
  }

  lemma ReplaceEntries(e: Edges, u: Vertex, v: Vertex, l: Latency)
    ensures forall x, y {:trigger LinkAt(Replace(e, u, v, l), x, y)} ::
      LinkAt(Replace(e, u, v, l), x, y) ==
        if x == u && y == v && LinkAt(e, u, v).Some? then Some(l) else LinkAt(e, x, y)
  {
  }

  function WithOldWeight(e: Edges, u: Vertex, v: Vertex, w: real): Edges {
    if LinkAt(e, u, v).Some? then Replace(e, u, v, e[u][v].(pingOld := w)) else e
  }

  function WithWeight(e: Edges, u: Vertex, v: Vertex, w: real): Edges {
    if LinkAt(e, u, v).Some? then Replace(e, u, v, e[u][v].(ping := w)) else e
  }

  /** Edges join known vertices and carry a non-negative additional cost. */
  ghost predicate ValidEdges(vert: set<Vertex>, e: Edges) {
    forall u, v {:trigger LinkAt(e, u, v)} :: LinkAt(e, u, v).Some? ==>
      u in vert && v in vert && LinkAt(e, u, v).value.additionalCost >= 0.0
  }

  // ------------------------------------------------- snapshots

  ghost function Pairs(vert: set<Vertex>): set<(Vertex, Vertex)> {
    set u, v | u in vert && v in vert :: (u, v)
  }

  ghost predicate Finite(e: Edges, u: Vertex, v: Vertex, now: int) {
    LinkAt(e, u, v).Some? && Weight(e, u, v, true, now) < INFINITY
  }

  /** The finite edges as one route calculation sees them. */
  ghost function Snapshot(vert: set<Vertex>, e: Edges, now: int): Net {
    Net(vert, map p | p in Pairs(vert) && Finite(e, p.0, p.1, now) :: Weight(e, p.0, p.1, true, now),
              map p | p in Pairs(vert) && Finite(e, p.0, p.1, now) :: Weight(e, p.0, p.1, false, now))
  }

  lemma SnapshotIsValid(vert: set<Vertex>, e: Edges, now: int)
    ensures Snapshot(vert, e, now).Valid()
  {
  }

  /** What the snapshot shows: exactly the links between known vertices that have not expired and
      whose ping and additional cost together are below Infinity, with these two values. */
  lemma SnapshotMeaning(vert: set<Vertex>, e: Edges, now: int, u: Vertex, v: Vertex)
    requires ValidEdges(vert, e) && u != v
    ensures var n, l := Snapshot(vert, e, now), LinkAt(e, u, v);
      && ((u, v) in n.cost <==>
            l.Some? && now <= l.value.validUntil && l.value.ping + l.value.additionalCost < INFINITY)
      && ((u, v) in n.cost ==>
            && (u, v) in n.ping && n.ping[(u, v)] == l.value.ping
            && n.cost[(u, v)] - n.ping[(u, v)] == l.value.additionalCost)
  {
  }

  /** Every hop of the walk is a link that has not expired. */
  ghost predicate AliveAlong(e: Edges, now: int, p: seq<Vertex>) {
    forall a, b :: 0 <= a && b == a + 1 < |p| ==>
      LinkAt(e, p[a], p[b]).Some? && now <= LinkAt(e, p[a], p[b]).value.validUntil
  }

  ghost function ExtraCost(e: Edges, u: Vertex, v: Vertex): real {
    if LinkAt(e, u, v).Some? then LinkAt(e, u, v).value.additionalCost else 0.0
  }

  /** The additional costs along a walk. */
  ghost function ExtraAlong(e: Edges, p: seq<Vertex>): real {
    if |p| < 2 then 0.0 else ExtraCost(e, p[0], p[1]) + ExtraAlong(e, p[1..])
  }

  ghost predicate NoStandstill(p: seq<Vertex>) {
    forall a, b :: 0 <= a && b == a + 1 < |p| ==> p[a] != p[b]
  }

  /** Along a walk through the snapshot the weights exceed the pings by the additional costs, and
      no link has expired. */
  lemma {:induction false} WalkMeaning(vert: set<Vertex>, e: Edges, now: int, p: seq<Vertex>)
    requires ValidEdges(vert, e) && Walk(Snapshot(vert, e, now), p) && NoStandstill(p)
    ensures AliveAlong(e, now, p)
    ensures var n := Snapshot(vert, e, now); Sum(n.cost, p) - Sum(n.ping, p) == ExtraAlong(e, p)
    decreases |p|
  {
    if |p| >= 2 {
      var n := Snapshot(vert, e, now);
      assert (p[0], p[1]) in n.cost && p[0] != p[1];
      SnapshotMeaning(vert, e, now, p[0], p[1]);
      RestOfWalk(n, p);
      WalkMeaning(vert, e, now, p[1..]);
      AliveStep(e, now, p);
    }
  }

  lemma RestOfWalk(n: Net, p: seq<Vertex>)
    requires Walk(n, p) && NoStandstill(p) && |p| >= 2
    ensures Walk(n, p[1..]) && NoStandstill(p[1..])
  {
    PartIsWalk(n, p, 1, |p|);
    assert p[1..|p|] == p[1..];
  }

  lemma AliveStep(e: Edges, now: int, p: seq<Vertex>)
    requires |p| >= 2 && AliveAlong(e, now, p[1..])
    requires LinkAt(e, p[0], p[1]).Some? && now <= LinkAt(e, p[0], p[1]).value.validUntil
    ensures AliveAlong(e, now, p)
  {
    forall a, b | 0 <= a && b == a + 1 < |p|
      ensures LinkAt(e, p[a], p[b]).Some? && now <= LinkAt(e, p[a], p[b]).value.validUntil
    {
      if a > 0 {
        assert p[1..][a - 1] == p[a] && p[1..][b - 1] == p[b];
      }
    }
  }

  /** Same edges with the same ping, additional cost and lifetime; old pings may differ. */
  ghost predicate SameLinks(e: Edges, e': Edges) {
    forall u, v {:trigger LinkAt(e', u, v)} :: SameLink(LinkAt(e, u, v), LinkAt(e', u, v))
  }

  ghost predicate SameLink(l: Option<Latency>, l': Option<Latency>) {
    if l == None then l' == None else l'.Some? && l'.value == l.value.(pingOld := l'.value.pingOld)
  }

  lemma SameLinksSameWeights(e: Edges, e': Edges, now: int)
    requires SameLinks(e, e')
    ensures forall u, v, ac :: Weight(e', u, v, ac, now) == Weight(e, u, v, ac, now)
    ensures forall u, v :: Finite(e', u, v, now) == Finite(e, u, v, now)
  {
  }

  lemma SameLinksSameSnapshot(vert: set<Vertex>, e: Edges, e': Edges, now: int)
    requires SameLinks(e, e')
    ensures Snapshot(vert, e', now) == Snapshot(vert, e, now)
  {
    SameLinksSameWeights(e, e', now);
    var n, n' := Snapshot(vert, e, now), Snapshot(vert, e', now);
    assert n.cost == n'.cost && n.ping == n'.ping;
  }

  lemma SameLinksValid(vert: set<Vertex>, e: Edges, e': Edges)
    requires SameLinks(e, e') && ValidEdges(vert, e)
    ensures ValidEdges(vert, e')
  {
  }

  /** Every edge remembers, as its old ping, the weight this calculation saw. */
  ghost predicate Settled(e: Edges, now: int) {
    forall u, v {:trigger LinkAt(e, u, v)} :: LinkAt(e, u, v).Some? ==>
      LinkAt(e, u, v).value.pingOld == Weight(e, u, v, false, now)
  }

  /** Edges of negative weight get ping zero; nothing else changes. */
  ghost predicate Floored(e: Edges, e': Edges, now: int) {
    forall u, v {:trigger LinkAt(e', u, v)} :: LinkAt(e', u, v) == FlooredLink(e, u, v, now)
  }

  ghost function FlooredLink(e: Edges, u: Vertex, v: Vertex, now: int): Option<Latency> {
    if LinkAt(e, u, v).Some? && Weight(e, u, v, true, now) < 0.0
    then Some(LinkAt(e, u, v).value.(ping := 0.0)) else LinkAt(e, u, v)
  }

  /** As `Floored`, but old pings may differ. */
  ghost predicate FlooredLinks(e: Edges, e': Edges, now: int) {
    forall u, v {:trigger LinkAt(e', u, v)} :: SameLink(FlooredLink(e, u, v, now), LinkAt(e', u, v))
  }

  /** Settling old pings before and after flooring does not matter. */
  lemma FlooredBetween(e: Edges, e1: Edges, e2: Edges, e': Edges, now: int)
    requires SameLinks(e, e1) && Floored(e1, e2, now) && SameLinks(e2, e')
    ensures FlooredLinks(e, e', now)
  {
  }

  /** After removing negative values no edge weight is negative: the additional cost never is. */
  lemma FlooredIsNonNegative(vert: set<Vertex>, e: Edges, e': Edges, now: int)
    requires ValidEdges(vert, e) && Floored(e, e', now)
    ensures ValidEdges(vert, e') && Snapshot(vert, e', now).NonNegative()
  {
    forall u, v | LinkAt(e', u, v).Some?
      ensures u in vert && v in vert && LinkAt(e', u, v).value.additionalCost >= 0.0
      ensures Weight(e', u, v, true, now) >= 0.0
    {
      assert LinkAt(e, u, v).Some?;
    }
  }

  /** What removing negative values does to the weights: negative ones become the additional cost
      alone, all others stay, and no edge appears. */
  lemma FlooredMeaning(vert: set<Vertex>, e: Edges, e': Edges, now: int, u: Vertex, v: Vertex)
    requires ValidEdges(vert, e) && Floored(e, e', now) && u != v && LinkAt(e, u, v).Some?
    ensures var n, n', extra := Snapshot(vert, e, now), Snapshot(vert, e', now), ExtraCost(e, u, v);
      && ((u, v) in n'.cost <==> (u, v) in n.cost && (n.cost[(u, v)] < 0.0 ==> extra < INFINITY))
      && ((u, v) in n'.cost ==> n'.cost[(u, v)] == if n.cost[(u, v)] < 0.0 then extra else n.cost[(u, v)])
  {
    FlooredIsNonNegative(vert, e, e', now);
    SnapshotMeaning(vert, e, now, u, v);
    SnapshotMeaning(vert, e', now, u, v);
    assert LinkAt(e', u, v) == FlooredLink(e, u, v, now);
  }

  // ------------------------------------------------- updates from latency reports

  datatype Setting = Setting(staticMode: bool, manual: map<Vertex, map<Vertex, real>>,
                             tolerance: real, multiplier: real, coolDown: int)

  function Abs(x: real): real {
    if x < 0.0 then -x else x
  }

  function Max(x: real, y: real): real {
    if x < y then y else x
  }

  /** Distance in milliseconds between two weights, and what the tolerance allows for them. */
  function Drift(oldVal: real, newVal: real): real {
    Abs(Abs(newVal * 1000.0) - Abs(oldVal * 1000.0))
  }

  function Allowance(s: Setting, oldVal: real, newVal: real): real {
    s.tolerance + Max(Abs(oldVal * 1000.0), Abs(newVal * 1000.0)) * (s.multiplier - 1.0)
  }

  /** `bucket` stands for the rounding of GetWeightType. */
  predicate ShouldUpdate(s: Setting, superMode: bool, bucket: real -> real, recalculated: int,
                         oldVal: real, newVal: real, withCoolDown: bool, now: int) {
    if (oldVal >= INFINITY) != (newVal >= INFINITY) then true
    else if withCoolDown && recalculated + s.coolDown > now then false
    else if superMode then
      if s.tolerance > 0.001 && s.multiplier >= 1.0 then Drift(oldVal, newVal) > Allowance(s, oldVal, newVal)
      else Abs(oldVal * 1000.0) == Abs(newVal * 1000.0)
    else bucket(Abs(oldVal * 1000.0)) != bucket(Abs(newVal * 1000.0))
  }

  datatype Pong = Pong(src: Vertex, dst: Vertex, timediff: real, additionalCost: real, timeToAlive: int)

  /** A manual latency overrides the measured one; the more specific key wins. */
  function Override(row: map<Vertex, real>, v: Vertex, val: real): real {
    if v in row then row[v] / 1000.0
    else if NODE_BROADCAST in row then row[NODE_BROADCAST] / 1000.0
    else val
  }

  function Measured(s: Setting, m: Pong): real {
    var x := if NODE_BROADCAST in s.manual then Override(s.manual[NODE_BROADCAST], m.dst, m.timediff) else m.timediff;
    if m.src in s.manual then Override(s.manual[m.src], m.dst, x) else x
  }

  function PongCost(m: Pong): real {
    (if m.additionalCost < 0.0 then 0.0 else m.additionalCost) / 1000.0
  }

  function Applied(s: Setting, e: Edges, m: Pong, now: int): Edges {
    var row := if m.src in e then e[m.src] else map[];
    var old_ := if m.dst in row then row[m.dst].pingOld else INFINITY;
    e[m.src := row[m.dst := Latency(Measured(s, m), old_, PongCost(m), now + m.timeToAlive)]]
  }

  function AppliedAll(s: Setting, e: Edges, ms: seq<Pong>, now: int): Edges {
    if ms == [] then e else Applied(s, AppliedAll(s, e, ms[..|ms| - 1], now), ms[|ms| - 1], now)
  }

  /** A manual latency, given in milliseconds, wins over the measured one; among manual ones that
      for this source and destination wins over that for this source and any destination, then
      any source and this destination, then any source and any destination. */
  lemma ManualLatencyWins(s: Setting, m: Pong)
    requires m.src != NODE_BROADCAST && m.dst != NODE_BROADCAST
    ensures var has := (u: Vertex, v: Vertex) => u in s.manual && v in s.manual[u];
      var any := NODE_BROADCAST;
      && (has(m.src, m.dst) ==> 1000.0 * Measured(s, m) == s.manual[m.src][m.dst])
      && (!has(m.src, m.dst) && has(m.src, any) ==> 1000.0 * Measured(s, m) == s.manual[m.src][any])
      && (!has(m.src, m.dst) && !has(m.src, any) && has(any, m.dst) ==>
            1000.0 * Measured(s, m) == s.manual[any][m.dst])
      && (!has(m.src, m.dst) && !has(m.src, any) && !has(any, m.dst) && has(any, any) ==>
            1000.0 * Measured(s, m) == s.manual[any][any])
      && (!has(m.src, m.dst) && !has(m.src, any) && !has(any, m.dst) && !has(any, any) ==> Measured(s, m) == m.timediff)
  {
  }

  /** `l'` is what a report makes of the link `l`: its latency and cost in seconds, the cost never
      negative, alive for the time it says, and the remembered ping as it was. */
  ghost predicate Reported(s: Setting, l: Option<Latency>, m: Pong, now: int, l': Option<Latency>) {
    && l'.Some? && l'.value.ping == Measured(s, m)
    && l'.value.pingOld == (if l.Some? then l.value.pingOld else INFINITY)
    && 1000.0 * l'.value.additionalCost == Max(m.additionalCost, 0.0)
    && l'.value.validUntil - now == m.timeToAlive
  }

  /** A report changes the link it is about and no other. */
  lemma AppliedMeaning(s: Setting, e: Edges, m: Pong, now: int, x: Vertex, y: Vertex)
    ensures var l, l' := LinkAt(e, x, y), LinkAt(Applied(s, e, m, now), x, y);
      if x == m.src && y == m.dst then Reported(s, l, m, now, l') else l' == l
  {
  }

  ghost predicate IsAbout(m: Pong, x: Vertex, y: Vertex) {
    m.src == x && m.dst == y
  }

  /** `k` is the last report about the link. */
  ghost predicate LastReport(ms: seq<Pong>, x: Vertex, y: Vertex, k: nat) {
    && k < |ms| && IsAbout(ms[k], x, y)
    && forall i :: k < i < |ms| ==> !IsAbout(ms[i], x, y)
  }

  /** After a list of reports every link holds the last report about it; a link without a report is
      as before. */
  lemma {:induction false} LastReportCounts(s: Setting, e: Edges, ms: seq<Pong>, now: int, x: Vertex, y: Vertex)
    ensures var l, l' := LinkAt(e, x, y), LinkAt(AppliedAll(s, e, ms, now), x, y);
      && ((forall i :: 0 <= i < |ms| ==> !IsAbout(ms[i], x, y)) ==> l' == l)
      && (forall k: nat {:trigger LastReport(ms, x, y, k)} ::
            LastReport(ms, x, y, k) ==> Reported(s, l, ms[k], now, l'))
  {
    if ms != [] {
      var front, m := ms[..|ms| - 1], ms[|ms| - 1];
      LastReportCounts(s, e, front, now, x, y);
      AppliedMeaning(s, AppliedAll(s, e, front, now), m, now, x, y);
      OldPingStays(s, e, front, now, x, y);
      forall k: nat | LastReport(ms, x, y, k)
        ensures if IsAbout(m, x, y) then k == |ms| - 1 else LastReport(front, x, y, k)
      {
      }
      forall i | 0 <= i < |front|
        ensures front[i] == ms[i]
      {
      }
    }
  }

  /** Reports never touch a remembered ping. */
  lemma {:induction false} OldPingStays(s: Setting, e: Edges, ms: seq<Pong>, now: int, x: Vertex, y: Vertex)
    ensures var l, l' := LinkAt(e, x, y), LinkAt(AppliedAll(s, e, ms, now), x, y);
      && (l.Some? ==> l'.Some?)
      && (l'.Some? ==> l'.value.pingOld == if l.Some? then l.value.pingOld else INFINITY)
  {
    if ms != [] {
      var front := ms[..|ms| - 1];
      OldPingStays(s, e, front, now, x, y);
      AppliedMeaning(s, AppliedAll(s, e, front, now), ms[|ms| - 1], now, x, y);
    }
  }

  /** The vertices that the reports mention. */
  function Ends(ms: seq<Pong>): set<Vertex> {
    if ms == [] then {} else Ends(ms[..|ms| - 1]) + {ms[|ms| - 1].src, ms[|ms| - 1].dst}
  }

  /** The weight in a report differs enough from the one remembered, cool-down aside. */
  predicate Differs(s: Setting, superMode: bool, bucket: real -> real, e: Edges, m: Pong, now: int) {
    ShouldUpdate(s, superMode, bucket, 0, OldWeight(e, m.src, m.dst), Measured(s, m), false, now)
  }

  /** Some report differs enough from the weight remembered when it is entered. */
  predicate Moved(s: Setting, superMode: bool, bucket: real -> real, e: Edges, ms: seq<Pong>, now: int) {
    ms != [] && var front, last := ms[..|ms| - 1], ms[|ms| - 1];
    Moved(s, superMode, bucket, e, front, now) || Differs(s, superMode, bucket, AppliedAll(s, e, front, now), last, now)
  }

  /** Some report comes from a vertex that had no edges. */
  ghost predicate NewSource(e: Edges, ms: seq<Pong>) {
    exists k :: 0 <= k < |ms| && ms[k].src !in e
  }

  lemma {:induction false} SourcesAfter(s: Setting, e: Edges, ms: seq<Pong>, now: int, x: Vertex)
    ensures x in AppliedAll(s, e, ms, now) <==> x in e || exists k :: 0 <= k < |ms| && ms[k].src == x
  {
    if ms != [] {
      var front := ms[..|ms| - 1];
      SourcesAfter(s, e, front, now, x);
      assert forall k :: 0 <= k < |front| ==> front[k] == ms[k];
    }
  }

  /** Reports leave the remembered weights alone. */
  lemma OldWeightStays(s: Setting, e: Edges, ms: seq<Pong>, now: int, x: Vertex, y: Vertex)
    ensures OldWeight(AppliedAll(s, e, ms, now), x, y) == OldWeight(e, x, y)
  {
    OldPingStays(s, e, ms, now, x, y);
  }

  /** A list of reports asks for an update exactly if one of them does, by itself and in any order. */
  lemma {:induction false} MovedMeaning(s: Setting, superMode: bool, bucket: real -> real, e: Edges, ms: seq<Pong>,
                                        now: int)
    ensures Moved(s, superMode, bucket, e, ms, now) <==>
      exists k :: 0 <= k < |ms| && Differs(s, superMode, bucket, e, ms[k], now)
  {
    if ms != [] {
      var front, m := ms[..|ms| - 1], ms[|ms| - 1];
      MovedMeaning(s, superMode, bucket, e, front, now);
      OldWeightStays(s, e, front, now, m.src, m.dst);
      assert Differs(s, superMode, bucket, AppliedAll(s, e, front, now), m, now) <==>
        Differs(s, superMode, bucket, e, m, now);
      if k :| 0 <= k < |front| && Differs(s, superMode, bucket, e, front[k], now) {
        assert ms[k] == front[k];
      }
      if k :| 0 <= k < |ms| && Differs(s, superMode, bucket, e, ms[k], now) {
        assert k < |front| ==> front[k] == ms[k];
      }
    }
  }

  /** Entering one more report. */
  lemma EnterOneMore(s: Setting, superMode: bool, bucket: real -> real, e: Edges, ms: seq<Pong>, n: nat, now: int)
    requires n < |ms|
    ensures var front := AppliedAll(s, e, ms[..n], now);
      && AppliedAll(s, e, ms[..n + 1], now) == Applied(s, front, ms[n], now)
      && (Moved(s, superMode, bucket, e, ms[..n + 1], now) <==>
          Moved(s, superMode, bucket, e, ms[..n], now) || Differs(s, superMode, bucket, front, ms[n], now))
      && (NewSource(e, ms[..n + 1]) <==> NewSource(e, ms[..n]) || ms[n].src !in front)
    ensures Ends(ms[..n + 1]) == Ends(ms[..n]) + {ms[n].src, ms[n].dst}
  {
    assert ms[..n + 1][..n] == ms[..n] && ms[..n + 1][n] == ms[n];
    SourcesAfter(s, e, ms[..n], now, ms[n].src);
    NewSourceStep(e, ms, n);
  }

  lemma NewSourceStep(e: Edges, ms: seq<Pong>, n: nat)
    requires n < |ms|
    ensures NewSource(e, ms[..n + 1]) <==> NewSource(e, ms[..n]) || ms[n].src !in e
  {
  }

  lemma AppliedIsValid(s: Setting, vert: set<Vertex>, e: Edges, m: Pong, now: int)
    requires ValidEdges(vert, e)
    ensures ValidEdges(vert + {m.src, m.dst}, Applied(s, e, m, now))
  {
    forall u, v | LinkAt(Applied(s, e, m, now), u, v).Some?
      ensures u in vert + {m.src, m.dst} && v in vert + {m.src, m.dst}
      ensures LinkAt(Applied(s, e, m, now), u, v).value.additionalCost >= 0.0
    {
      if u != m.src || v != m.dst {
        assert LinkAt(Applied(s, e, m, now), u, v) == LinkAt(e, u, v);
      }
    }
  }

  /** The edges that do not touch `v`. */
  ghost predicate Isolated(e: Edges, e': Edges, v: Vertex) {
    forall x, y {:trigger LinkAt(e', x, y)} :: LinkAt(e', x, y) == if x == v || y == v then None else LinkAt(e, x, y)
  }

  lemma IsolatedIsValid(vert: set<Vertex>, e: Edges, e': Edges, v: Vertex)
    requires ValidEdges(vert, e) && Isolated(e, e', v)
    ensures ValidEdges(vert - {v}, e')
  {
  }

  lemma DropEntry(e: Edges, u: Vertex, v: Vertex)
    requires u in e
    ensures forall x, y {:trigger LinkAt(e[u := e[u] - {v}], x, y)} ::
      LinkAt(e[u := e[u] - {v}], x, y) == if x == u && y == v then None else LinkAt(e, x, y)
  {
  }

  // ------------------------------------------------- freshness

  ghost predicate WithinTolerance(s: Setting, e: Edges, now: int, u: Vertex, v: Vertex) {
    var o, w := OldWeight(e, u, v), Weight(e, u, v, false, now);
    Drift(o, w) <= Allowance(s, o, w)
  }

  ghost predicate AgreeOnFinite(e: Edges, now: int, u: Vertex, v: Vertex) {
    OldWeight(e, u, v) >= INFINITY <==> Weight(e, u, v, false, now) >= INFINITY
  }

  ghost predicate AllAgreeOnFinite(vert: set<Vertex>, e: Edges, now: int) {
    forall u, v {:trigger AgreeOnFinite(e, now, u, v)} ::
      u in vert && v in vert && u != v ==> AgreeOnFinite(e, now, u, v)
  }

  ghost predicate JitterTolerance(s: Setting, superMode: bool) {
    superMode && s.tolerance > 0.001 && s.multiplier >= 1.0
  }

  /** Remembered and current weights agree on which edges are finite; unless calculations
      are `cooling` down, jitter tolerance also bounds how far they are apart. */
  ghost predicate Fresh(s: Setting, superMode: bool, vert: set<Vertex>, e: Edges, now: int, cooling: bool) {
    forall u, v {:trigger AgreeOnFinite(e, now, u, v)} :: u in vert && v in vert && u != v ==>
      && AgreeOnFinite(e, now, u, v)
      && (JitterTolerance(s, superMode) && !cooling ==> WithinTolerance(s, e, now, u, v))
  }

  lemma SettledIsFresh(s: Setting, superMode: bool, vert: set<Vertex>, e: Edges, now: int, cooling: bool)
    requires Settled(e, now)
    ensures Fresh(s, superMode, vert, e, now, cooling)
  {
    forall u, v | u in vert && v in vert && u != v
      ensures AgreeOnFinite(e, now, u, v) && (JitterTolerance(s, superMode) ==> WithinTolerance(s, e, now, u, v))
    {
      assert OldWeight(e, u, v) == Weight(e, u, v, false, now);
      if JitterTolerance(s, superMode) {
        assert Abs(OldWeight(e, u, v) * 1000.0) * (s.multiplier - 1.0) >= 0.0;
      }
    }
  }

  /** The weight of an edge has moved enough to justify a recalculation outside the cool-down. */
  predicate Stale(s: Setting, superMode: bool, bucket: real -> real, recalculated: int, e: Edges, now: int,
                  u: Vertex, v: Vertex) {
    ShouldUpdate(s, superMode, bucket, recalculated, OldWeight(e, u, v), Weight(e, u, v, false, now), true, now)
  }

  ghost predicate Quiet(s: Setting, superMode: bool, bucket: real -> real, recalculated: int, vert: set<Vertex>,
                        e: Edges, now: int) {
    forall u, v {:trigger Stale(s, superMode, bucket, recalculated, e, now, u, v)} ::
      u in vert && v in vert && u != v ==> !Stale(s, superMode, bucket, recalculated, e, now, u, v)
  }

  /** Exactly when no update is due, if jitter is tolerated: remembered and current weights are
      fresh. In particular nothing is due during the cool-down while they agree on finiteness. */
  lemma QuietIffFresh(s: Setting, superMode: bool, bucket: real -> real, recalculated: int, vert: set<Vertex>,
                      e: Edges, now: int)
    requires JitterTolerance(s, superMode)
    ensures Quiet(s, superMode, bucket, recalculated, vert, e, now) <==>
      Fresh(s, superMode, vert, e, now, recalculated + s.coolDown > now)
  {
    if Fresh(s, superMode, vert, e, now, recalculated + s.coolDown > now) {
      forall u, v | u in vert && v in vert && u != v
        ensures !Stale(s, superMode, bucket, recalculated, e, now, u, v)
      {
        assert AgreeOnFinite(e, now, u, v);
      }
    } else if Quiet(s, superMode, bucket, recalculated, vert, e, now) {
      QuietIsFresh(s, superMode, bucket, recalculated, vert, e, now);
    }
  }

  /** In every mode nothing is due during the cool-down exactly while finiteness agrees. */
  lemma QuietWhileCooling(s: Setting, superMode: bool, bucket: real -> real, recalculated: int, vert: set<Vertex>,
                          e: Edges, now: int)
    requires recalculated + s.coolDown > now
    ensures Quiet(s, superMode, bucket, recalculated, vert, e, now) <==>
      AllAgreeOnFinite(vert, e, now)
  {
    forall u, v
      ensures AgreeOnFinite(e, now, u, v) <==> !Stale(s, superMode, bucket, recalculated, e, now, u, v)
    {
    }
  }

  /** Outside the cool-down an edge asks for an update exactly if finiteness has changed or, between
      edges, the bucket of the weight; in super mode without tolerance, if the weight has not. */
  lemma StaleOutsideCoolDown(s: Setting, superMode: bool, bucket: real -> real, recalculated: int,
                             e: Edges, now: int, u: Vertex, v: Vertex)
    requires recalculated + s.coolDown <= now
    ensures var o, w := 1000.0 * OldWeight(e, u, v), 1000.0 * Weight(e, u, v, false, now);
      var stale := Stale(s, superMode, bucket, recalculated, e, now, u, v);
      && (!AgreeOnFinite(e, now, u, v) ==> stale)
      && (AgreeOnFinite(e, now, u, v) && !superMode ==> (stale <==> bucket(Abs(o)) != bucket(Abs(w))))
      && (AgreeOnFinite(e, now, u, v) && superMode && !JitterTolerance(s, superMode) ==>
            (stale <==> o == w || o == -w))
  {
  }

  /** The tolerance in milliseconds, spelled out for weights that are not negative. */
  lemma ToleranceInMilliseconds(s: Setting, e: Edges, now: int, u: Vertex, v: Vertex)
    requires s.multiplier >= 1.0 && OldWeight(e, u, v) >= 0.0 && Weight(e, u, v, false, now) >= 0.0
    ensures var o, w := 1000.0 * OldWeight(e, u, v), 1000.0 * Weight(e, u, v, false, now);
      WithinTolerance(s, e, now, u, v) <==>
        && (o <= w ==> w - o <= s.tolerance + (s.multiplier - 1.0) * w)
        && (w <= o ==> o - w <= s.tolerance + (s.multiplier - 1.0) * o)
  {
  }

  /** A report asks for an update exactly if it changes finiteness or leaves the tolerance; the
      cool-down does not matter. */
  lemma DiffersMeaning(s: Setting, superMode: bool, bucket: real -> real, e: Edges, m: Pong, now: int)
    requires JitterTolerance(s, superMode)
    ensures var o, w := OldWeight(e, m.src, m.dst), Measured(s, m);
      Differs(s, superMode, bucket, e, m, now) <==>
        || (o >= INFINITY) != (w >= INFINITY)
        || Abs(Abs(1000.0 * w) - Abs(1000.0 * o)) >
             s.tolerance + (s.multiplier - 1.0) * Max(Abs(1000.0 * o), Abs(1000.0 * w))
  {
  }

  lemma QuietIsFresh(s: Setting, superMode: bool, bucket: real -> real, recalculated: int, vert: set<Vertex>,
                     e: Edges, now: int)
    requires Quiet(s, superMode, bucket, recalculated, vert, e, now)
    ensures Fresh(s, superMode, vert, e, now, recalculated + s.coolDown > now)
  {
    forall u, v | u in vert && v in vert && u != v
      ensures AgreeOnFinite(e, now, u, v)
      ensures JitterTolerance(s, superMode) && recalculated + s.coolDown <= now ==> WithinTolerance(s, e, now, u, v)
    {
      assert !Stale(s, superMode, bucket, recalculated, e, now, u, v);
    }
  }
}
