/** When following the next hops delivers, with signed weights under the finite Infinity: a pair
    below Infinity, even one with an optimal entry, may have no chain or run in circles. */
module HopByHop {
  import opened Walks
  import opened Wrappers
  import opened FloydWarshall
  import opened FiniteInfinity

  // ------------------------------------------------- exactly when it works

  ghost predicate PositiveCycles(n: Net) {
    forall p {:trigger Walk(n, p)} :: Walk(n, p) && |p| >= 2 && p[0] == p[|p| - 1] ==> Sum(n.cost, p) > 0.0
  }

  /** The distance is the weight of the next hop plus the distance from there. */
  ghost predicate Tight(n: Net, t: View, i: Vertex, j: Vertex) {
    && t.hop(i, j).Some?
    && var y := t.hop(i, j).value;
    (i, y) in n.cost && y in n.vert && t.d(y, j) < INFINITY && t.d(i, j) == n.cost[(i, y)] + t.d(y, j)
  }

  ghost predicate AllTight(n: Net, t: View, j: Vertex) {
    forall i {:trigger t.d(i, j)} :: i in n.vert && i != j && t.d(i, j) < INFINITY ==> Tight(n, t, i, j)
  }

  /** Following the next hops arrives over real edges that sum to the distance. */
  ghost predicate Delivers(n: Net, t: View, p: seq<Vertex>, i: Vertex, j: Vertex) {
    Chain(t.hop, p, i, j) && Walk(n, p) && Sum(n.cost, p) == t.d(i, j)
  }

  ghost predicate AllDelivered(n: Net, t: View, j: Vertex) {
    forall i {:trigger t.d(i, j)} :: i in n.vert && t.d(i, j) < INFINITY ==> exists p :: Delivers(n, t, p, i, j)
  }

  lemma DiagonalOfPositive(n: Net, t: View, j: Vertex)
    requires Sound(n, t, n.vert) && PositiveCycles(n) && j in n.vert
    ensures t.d(j, j) == 0.0
  {
    var p := WalkOf(n, t, n.vert, j, j);
  }

  /** What is delivered from a vertex is delivered from its next hop, so its entry is tight. */
  lemma DeliveredIsTight(n: Net, t: View, i: Vertex, j: Vertex)
    requires n.Valid() && Sound(n, t, n.vert) && PositiveCycles(n) && AllDelivered(n, t, j)
    requires i in n.vert && j in n.vert && i != j && t.d(i, j) < INFINITY
    ensures Tight(n, t, i, j)
  {
    var p :| Delivers(n, t, p, i, j);
    var y, rest := p[1], p[1..];
    assert Link(t.hop, p[0], p[1], j);
    ChainWithoutFirst(t.hop, p, i, j);
    if y == j {
      DiagonalOfPositive(n, t, j);
    } else {
      ChainGoesOn(t.hop, rest, y, j, 0);
      assert SoundAt(n, t, n.vert, y, j);
    }
    var q :| Delivers(n, t, q, y, j);
    ChainIsUnique(t.hop, rest, q, y, j);
    assert p == [i] + rest;
    InteriorOfWalk(n, rest);
    PrependEdge(n, i, rest, n.vert);
  }

  /** A part of the chain: real edges along tight entries. */
  ghost predicate TightPart(n: Net, t: View, q: seq<Vertex>, j: Vertex) {
    && Walk(n, q) && j in n.vert && t.d(q[|q| - 1], j) < INFINITY
    && forall a, b :: 0 <= a && b == a + 1 < |q| ==> Link(t.hop, q[a], q[b], j)
  }

  /** Along tight entries weights telescope. */
  lemma {:induction false} Telescopes(n: Net, t: View, q: seq<Vertex>, j: Vertex)
    requires n.Valid() && Sound(n, t, n.vert) && AllTight(n, t, j) && TightPart(n, t, q, j)
    ensures t.d(q[0], j) < INFINITY && t.d(q[0], j) == Sum(n.cost, q) + t.d(q[|q| - 1], j)
    decreases |q|
  {
    if |q| > 1 {
      RestIsTightPart(n, t, q, j);
      Telescopes(n, t, q[1..], j);
      assert Link(t.hop, q[0], q[1], j);
      TightHop(n, t, q[0], q[1], j);
    }
  }

  lemma TightHop(n: Net, t: View, x: Vertex, y: Vertex, j: Vertex)
    requires n.Valid() && Sound(n, t, n.vert) && AllTight(n, t, j)
    requires x in n.vert && j in n.vert && Link(t.hop, x, y, j)
    ensures t.d(x, j) < INFINITY && (x, y) in n.cost && t.d(x, j) == n.cost[(x, y)] + t.d(y, j)
  {
    assert SoundAt(n, t, n.vert, x, j);
    assert Tight(n, t, x, j);
  }

  lemma RestIsTightPart(n: Net, t: View, q: seq<Vertex>, j: Vertex)
    requires TightPart(n, t, q, j) && |q| > 1
    ensures TightPart(n, t, q[1..], j)
  {
    var rest := q[1..];
    PartIsWalk(n, q, 1, |q|);
    assert q[1..|q|] == rest;
    forall a, b | 0 <= a && b == a + 1 < |rest|
      ensures Link(t.hop, rest[a], rest[b], j)
    {
      assert Link(t.hop, q[a + 1], q[b + 1], j);
    }
  }

  lemma {:induction false} SuffixIsTightPart(n: Net, t: View, q: seq<Vertex>, j: Vertex, a: nat)
    requires TightPart(n, t, q, j) && a < |q|
    ensures TightPart(n, t, q[a..], j)
    decreases a
  {
    if a == 0 {
      assert q[0..] == q;
    } else {
      RestIsTightPart(n, t, q, j);
      SuffixIsTightPart(n, t, q[1..], j, a - 1);
      assert q[1..][a - 1..] == q[a..];
    }
  }

  /** One more hop. */
  lemma ExtendTightPart(n: Net, t: View, q: seq<Vertex>, j: Vertex)
    requires n.Valid() && AllTight(n, t, j) && TightPart(n, t, q, j) && q[|q| - 1] != j
    ensures t.hop(q[|q| - 1], j).Some? && TightPart(n, t, q + [t.hop(q[|q| - 1], j).value], j)
  {
    var x := q[|q| - 1];
    assert Tight(n, t, x, j);
    var r := q + [t.hop(x, j).value];
    forall a, b | 0 <= a && b == a + 1 < |r|
      ensures Link(t.hop, r[a], r[b], j) && (r[a], r[b]) in n.cost
    {
      if b < |q| {
        assert Link(t.hop, q[a], q[b], j);
      }
    }
  }

  /** Positive cycles keep the hops from coming back to where they were. */
  lemma NoReturn(n: Net, t: View, q: seq<Vertex>, y: Vertex, j: Vertex)
    requires n.Valid() && Sound(n, t, n.vert) && AllTight(n, t, j) && PositiveCycles(n)
    requires q != [] && TightPart(n, t, q + [y], j)
    ensures y !in q
  {
    if a :| 0 <= a < |q| && q[a] == y {
      var r := q + [y];
      SuffixIsTightPart(n, t, r, j, a);
      Telescopes(n, t, r[a..], j);
    }
  }

  lemma {:induction false} Follow(n: Net, t: View, q: seq<Vertex>, j: Vertex) returns (p: seq<Vertex>)
    requires n.Valid() && Sound(n, t, n.vert) && AllTight(n, t, j) && PositiveCycles(n) && j in n.vert
    requires TightPart(n, t, q, j) && Simple(q)
    ensures Delivers(n, t, p, q[0], j)
    decreases |n.vert| - |q|
  {
    DistinctFit(q, n.vert);
    if q[|q| - 1] == j {
      DiagonalOfPositive(n, t, j);
      Telescopes(n, t, q, j);
      p := q;
    } else {
      ExtendTightPart(n, t, q, j);
      var y := t.hop(q[|q| - 1], j).value;
      NoReturn(n, t, q, y, j);
      DistinctFit(q + [y], n.vert);
      p := Follow(n, t, q + [y], j);
    }
  }

  /** For sound tables over a graph with positive cycles, signed weights or not: every vertex less
      than Infinity away from `j` reaches it hop by hop, at the cost of its distance, if and only
      if all these entries are tight. */
  lemma DeliversIffTight(n: Net, t: View, j: Vertex)
    requires n.Valid() && Sound(n, t, n.vert) && PositiveCycles(n) && j in n.vert
    ensures AllDelivered(n, t, j) <==> AllTight(n, t, j)
  {
    if AllDelivered(n, t, j) {
      forall i | i in n.vert && i != j && t.d(i, j) < INFINITY
        ensures Tight(n, t, i, j)
      {
        DeliveredIsTight(n, t, i, j);
      }
    }
    if AllTight(n, t, j) {
      forall i | i in n.vert && t.d(i, j) < INFINITY
        ensures exists p :: Delivers(n, t, p, i, j)
      {
        var p := Follow(n, t, [i], j);
      }
    }
  }

  // ------------------------------------------------- graphs without negative cycles

  type Heights = Vertex -> real

  /** No edge costs less than it descends. */
  ghost predicate Feasible(n: Net, h: Heights) {
    forall u, v :: (u, v) in n.cost ==> n.cost[(u, v)] >= h(v) - h(u)
  }

  lemma {:induction false} WalkDescends(n: Net, h: Heights, p: seq<Vertex>)
    requires Feasible(n, h) && Walk(n, p)
    ensures Sum(n.cost, p) >= h(p[|p| - 1]) - h(p[0])
    decreases |p|
  {
    if |p| > 1 {
      PartIsWalk(n, p, 1, |p|);
      assert p[1..|p|] == p[1..] && (p[0], p[1]) in n.cost;
      WalkDescends(n, h, p[1..]);
    }
  }

  lemma FeasibleHasNoNegativeCycle(n: Net, h: Heights)
    requires Feasible(n, h)
    ensures NoNegativeCycle(n)
  {
    forall p | Walk(n, p) && p[0] == p[|p| - 1]
      ensures Sum(n.cost, p) >= 0.0
    {
      WalkDescends(n, h, p);
    }
  }

  /** An entry that is no more than the descent is optimal. */
  lemma FeasibleBound(n: Net, h: Heights, t: View, i: Vertex, j: Vertex)
    requires Feasible(n, h) && t.d(i, j) <= h(j) - h(i)
    ensures Optimal(n, t, i, j)
  {
    forall p | WalkBetween(n, p, i, j)
      ensures t.d(i, j) <= Sum(n.cost, p)
    {
      WalkDescends(n, h, p);
    }
  }

  /** Without negative cycles the diagonal test passes, whatever the cap does. */
  lemma NoNegativeCycleIsClean(n: Net, order: seq<Vertex>, t: View)
    requires n.Valid() && Ran(n, order, t) && NoNegativeCycle(n) && (forall k :: k in order ==> k in n.vert)
    ensures Clean(n, t)
  {
    forall i | i in n.vert
      ensures t.d(i, i) >= 0.0
    {
      if t.d(i, i) < 0.0 {
        var p := EntryIsFound(n, order, t, i, i);
      }
    }
  }

  lemma LastPhase(n: Net, order: seq<Vertex>, k: Vertex, t: View) returns (before: View)
    requires n.Valid() && Ran(n, order + [k], t)
    ensures Ran(n, order, before) && Phase(n, before, t, k)
  {
    before :| RanTo(n, order + [k], before, t);
    assert (order + [k])[..|order|] == order;
  }

  lemma FourPhases(n: Net, a: Vertex, b: Vertex, c: Vertex, d: Vertex, t: View)
    returns (t0: View, t1: View, t2: View, t3: View)
    requires n.Valid() && Ran(n, [a, b, c, d], t)
    ensures Initial(n, t0) && Phase(n, t0, t1, a) && Phase(n, t1, t2, b) && Phase(n, t2, t3, c) && Phase(n, t3, t, d)
  {
    assert [a, b, c, d] == [a, b, c] + [d] && [a, b, c] == [a, b] + [c] && [a, b] == [a] + [b] && [a] == [] + [a];
    t3 := LastPhase(n, [a, b, c], d, t);
    t2 := LastPhase(n, [a, b], c, t3);
    t1 := LastPhase(n, [a], b, t2);
    t0 := LastPhase(n, [], a, t1);
  }

  // ------------------------------------------------- a hop without an entry

  ghost function Stopping(): Net {
    var cost: Costs := map[(1, 2) := -50000.0, (2, 3) := 60000.0, (3, 4) := 60000.0];
    Net({1, 2, 3, 4}, cost, cost)
  }

  ghost function StoppingHeights(): Heights {
    v => if v == 2 then -50000.0 else if v == 3 then 10000.0 else if v == 4 then 70000.0 else 0.0
  }

  /** The phases of 2 and 3 find 1-2-3-4 but not 2-3-4, which exceeds Infinity. */
  lemma StoppingTables(t0: View, t1: View, t2: View, t3: View, t4: View)
    requires Stopping().Valid() && Initial(Stopping(), t0)
    requires Phase(Stopping(), t0, t1, 2) && Phase(Stopping(), t1, t2, 3)
    requires Phase(Stopping(), t2, t3, 1) && Phase(Stopping(), t3, t4, 4)
    ensures t4.d(1, 4) == 70000.0 && t4.hop(1, 4) == Some(2) && t4.hop(2, 4) == None
  {
    assert t1.d(1, 3) == 10000.0 && t1.hop(1, 3) == Some(2) && t1.d(3, 4) == 60000.0 && t1.d(1, 4) == INFINITY;
    assert t1.d(2, 3) == 60000.0 && t1.d(2, 4) == INFINITY && t1.hop(2, 4) == None && t1.d(2, 1) == INFINITY;
    assert t1.d(3, 1) == INFINITY && t1.d(1, 1) == 0.0 && t1.d(4, 4) == 0.0;
    assert t2.d(1, 4) == 70000.0 && t2.hop(1, 4) == Some(2) && t2.d(2, 4) == INFINITY && t2.hop(2, 4) == None;
    assert t2.d(2, 1) == INFINITY && t2.d(1, 1) == 0.0 && t2.d(4, 4) == 0.0;
    assert t3.d(1, 4) == 70000.0 && t3.hop(1, 4) == Some(2) && t3.d(2, 4) == INFINITY && t3.hop(2, 4) == None;
    assert t3.d(4, 4) == 0.0;
    assert t4.d(1, 4) == 70000.0 && t4.d(2, 4) == INFINITY;
  }

  lemma StoppingHops(t: View)
    requires Stopping().Valid() && Ran(Stopping(), [2, 3, 1, 4], t)
    ensures t.d(1, 4) == 70000.0 && t.hop(1, 4) == Some(2) && t.hop(2, 4) == None
  {
    var t0, t1, t2, t3 := FourPhases(Stopping(), 2, 3, 1, 4, t);
    StoppingTables(t0, t1, t2, t3, t);
  }

  /** The graph has no negative cycle and the entry is optimal, yet its first hop
      has no entry, and no chain leads to 4. */
  lemma OptimalMayStop()
    ensures Stopping().Valid() && NoNegativeCycle(Stopping())
    ensures exists t :: Ran(Stopping(), [2, 3, 1, 4], t)
    ensures forall t :: Ran(Stopping(), [2, 3, 1, 4], t) ==>
      Clean(Stopping(), t) && Optimal(Stopping(), t, 1, 4) && t.d(1, 4) == 70000.0 && !exists p :: Chain(t.hop, p, 1, 4)
  {
    FeasibleHasNoNegativeCycle(Stopping(), StoppingHeights());
    var t := RunExists(Stopping(), [2, 3, 1, 4]);
    forall t | Ran(Stopping(), [2, 3, 1, 4], t)
      ensures Clean(Stopping(), t) && Optimal(Stopping(), t, 1, 4) && t.d(1, 4) == 70000.0
      ensures !exists p :: Chain(t.hop, p, 1, 4)
    {
      StoppingHops(t);
      NoNegativeCycleIsClean(Stopping(), [2, 3, 1, 4], t);
      FeasibleBound(Stopping(), StoppingHeights(), t, 1, 4);
      assert ChainPrefix(t.hop, [1], 2, 1, 4);
      StuckPrefix(t.hop, [1], 2, 1, 4);
    }
  }

  // ------------------------------------------------- hops in a circle

  ghost function Circling(): Net {
    var cost: Costs := map[(1, 2) := -50000.0, (2, 3) := 60000.0, (3, 4) := 60000.0, (4, 5) := -50000.0,
                           (2, 1) := 55000.0];
    Net({1, 2, 3, 4, 5}, cost, cost)
  }

  ghost function CirclingHeights(): Heights {
    v => if v == 2 then -50000.0 else if v == 3 then 10000.0 else if v == 4 then 70000.0
         else if v == 5 then 20000.0 else 0.0
  }

  lemma CirclingIsWellBehaved()
    ensures Circling().Valid() && Feasible(Circling(), CirclingHeights()) && NoNegativeCycle(Circling())
  {
    FeasibleHasNoNegativeCycle(Circling(), CirclingHeights());
  }

  lemma HopsCircle(hop: (Vertex, Vertex) -> Option<Vertex>, a: Vertex, b: Vertex, v: Vertex)
    requires a != v && b != v && hop(a, v) == Some(b) && hop(b, v) == Some(a)
    ensures !exists p :: Chain(hop, p, a, v)
  {
    assert [a, b] + [a] == [a, b, a];
    assert ChainPrefix(hop, [a, b], a, a, v);
    StuckPrefix(hop, [a, b], a, a, v);
  }

  /** The entries that matter after the phase of 2: 1-2-3 is found. */
  ghost predicate AfterTwo(t: View) {
    && t.d(1, 3) == 10000.0 && t.hop(1, 3) == Some(2) && t.d(3, 4) == 60000.0 && t.d(4, 5) == -50000.0
    && t.d(2, 3) == 60000.0 && t.d(2, 1) == 55000.0 && t.hop(2, 1) == Some(1) && t.d(1, 1) == 0.0 && t.d(5, 5) == 0.0
    && t.d(1, 4) == INFINITY && t.d(1, 5) == INFINITY && t.d(2, 4) == INFINITY && t.d(2, 5) == INFINITY
    && t.d(3, 1) == INFINITY && t.d(3, 5) == INFINITY && t.d(4, 1) == INFINITY && t.d(4, 3) == INFINITY
    && t.d(5, 1) == INFINITY && t.d(5, 3) == INFINITY && t.d(5, 4) == INFINITY
  }

  /** After the phase of 3: 1-2-3-4 is found, 2-3-4 exceeds Infinity. */
  ghost predicate AfterThree(t: View) {
    && t.d(1, 4) == 70000.0 && t.hop(1, 4) == Some(2) && t.d(4, 5) == -50000.0
    && t.d(2, 1) == 55000.0 && t.hop(2, 1) == Some(1) && t.d(1, 1) == 0.0 && t.d(5, 5) == 0.0
    && t.d(1, 5) == INFINITY && t.d(2, 4) == INFINITY && t.d(2, 5) == INFINITY
    && t.d(4, 1) == INFINITY && t.d(5, 1) == INFINITY && t.d(5, 4) == INFINITY
  }

  /** After the phase of 4: 1-2-3-4-5 is found, 2-3-4-5 is not. */
  ghost predicate AfterFour(t: View) {
    && t.d(1, 5) == 20000.0 && t.hop(1, 5) == Some(2) && t.d(2, 5) == INFINITY
    && t.d(2, 1) == 55000.0 && t.hop(2, 1) == Some(1) && t.d(1, 1) == 0.0 && t.d(5, 5) == 0.0 && t.d(5, 1) == INFINITY
  }

  lemma PhaseOfTwo(t0: View, t1: View)
    requires Circling().Valid() && Initial(Circling(), t0) && Phase(Circling(), t0, t1, 2)
    ensures AfterTwo(t1)
  {
  }

  lemma PhaseOfThree(t1: View, t2: View)
    requires Phase(Circling(), t1, t2, 3) && AfterTwo(t1)
    ensures AfterThree(t2)
  {
  }

  lemma PhaseOfFour(t2: View, t3: View)
    requires Phase(Circling(), t2, t3, 4) && AfterThree(t2)
    ensures AfterFour(t3)
  {
  }

  /** The phase of 1 leads 2 to 5 by way of 1; that of 5 changes nothing. */
  lemma PhaseOfOne(t3: View, t4: View, t5: View)
    requires Phase(Circling(), t3, t4, 1) && Phase(Circling(), t4, t5, 5) && AfterFour(t3)
    ensures t5.d(1, 5) == 20000.0 && t5.hop(1, 5) == Some(2) && t5.hop(2, 5) == Some(1)
  {
    assert t4.d(2, 5) == 75000.0 && t4.hop(2, 5) == Some(1) && t4.d(1, 5) == 20000.0 && t4.hop(1, 5) == Some(2);
    assert t4.d(5, 5) == 0.0;
    assert t5.d(1, 5) == 20000.0 && t5.d(2, 5) == 75000.0;
  }

  lemma CirclingHops(t: View)
    requires Circling().Valid() && Ran(Circling(), [2, 3, 4, 1, 5], t)
    ensures t.d(1, 5) == 20000.0 && t.hop(1, 5) == Some(2) && t.hop(2, 5) == Some(1)
  {
    assert [2, 3, 4, 1, 5] == [2, 3, 4, 1] + [5];
    var t4 := LastPhase(Circling(), [2, 3, 4, 1], 5, t);
    var t0, t1, t2, t3 := FourPhases(Circling(), 2, 3, 4, 1, t4);
    PhaseOfTwo(t0, t1);
    PhaseOfThree(t1, t2);
    PhaseOfFour(t2, t3);
    PhaseOfOne(t3, t4, t);
  }

  /** The graph has no negative cycle and the entry is optimal, yet the hops lead from 1 to 2 and
      back: following the table reports a cycle. */
  lemma OptimalMayCircle()
    ensures Circling().Valid() && NoNegativeCycle(Circling())
    ensures exists t :: Ran(Circling(), [2, 3, 4, 1, 5], t)
    ensures forall t :: Ran(Circling(), [2, 3, 4, 1, 5], t) ==>
      && Clean(Circling(), t) && Optimal(Circling(), t, 1, 5) && t.d(1, 5) == 20000.0
      && t.hop(1, 5) == Some(2) && t.hop(2, 5) == Some(1) && !exists p :: Chain(t.hop, p, 1, 5)
  {
    CirclingIsWellBehaved();
    var t := RunExists(Circling(), [2, 3, 4, 1, 5]);
    forall t | Ran(Circling(), [2, 3, 4, 1, 5], t)
      ensures Clean(Circling(), t) && Optimal(Circling(), t, 1, 5) && t.d(1, 5) == 20000.0
      ensures t.hop(1, 5) == Some(2) && t.hop(2, 5) == Some(1) && !exists p :: Chain(t.hop, p, 1, 5)
    {
      CirclingHops(t);
      NoNegativeCycleIsClean(Circling(), [2, 3, 4, 1, 5], t);
      FeasibleBound(Circling(), CirclingHeights(), t, 1, 5);
      HopsCircle(t.hop, 1, 2, 5);
    }
  }
}
