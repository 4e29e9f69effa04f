/** What the finite Infinity of path.go costs when weights are signed: exactly which walks the
    phases find, for a given order of the vertices. */
module FiniteInfinity {
  import opened Walks
  import opened Wrappers
  import opened FloydWarshall

  // ------------------------------------------------- the walks that are found

  /** A walk is found if it has at most one edge, if it was found before the last phase, or if
      the last phase glues it from two found walks that both weigh less than Infinity. */
  ghost predicate Found(n: Net, order: seq<Vertex>, p: seq<Vertex>)
    decreases |order|
  {
    if order == [] then |p| <= 2
    else
      var earlier, k := order[..|order| - 1], order[|order| - 1];
      || Found(n, earlier, p)
      || exists q, r :: Found(n, earlier, q) && Found(n, earlier, r) && GluedAt(n, k, p, q, r)
  }

  ghost predicate GluedAt(n: Net, k: Vertex, p: seq<Vertex>, q: seq<Vertex>, r: seq<Vertex>) {
    && q != [] && r != [] && p == Glue(q, r)
    && WalkBetween(n, q, q[0], k) && WalkBetween(n, r, k, r[|r| - 1])
    && Sum(n.cost, q) < INFINITY && Sum(n.cost, r) < INFINITY
  }

  /** A found walk from `i` to `j` that weighs less than Infinity. */
  ghost predicate FoundBetween(n: Net, order: seq<Vertex>, p: seq<Vertex>, i: Vertex, j: Vertex) {
    WalkBetween(n, p, i, j) && Found(n, order, p) && Sum(n.cost, p) < INFINITY
  }

  lemma GlueFound(n: Net, order: seq<Vertex>, k: Vertex, q: seq<Vertex>, r: seq<Vertex>, i: Vertex, j: Vertex)
    requires FoundBetween(n, order, q, i, k) && FoundBetween(n, order, r, k, j)
    ensures WalkBetween(n, Glue(q, r), i, j) && Found(n, order + [k], Glue(q, r))
    ensures Sum(n.cost, Glue(q, r)) == Sum(n.cost, q) + Sum(n.cost, r)
  {
    GlueIsWalk(n, q, r, n.vert);
    GlueSum(n.cost, q, r);
    assert (order + [k])[..|order|] == order;
    assert GluedAt(n, k, Glue(q, r), q, r);
  }

  lemma FoundLater(n: Net, order: seq<Vertex>, k: Vertex, p: seq<Vertex>)
    requires Found(n, order, p)
    ensures Found(n, order + [k], p)
  {
    assert (order + [k])[..|order|] == order;
  }

  /** What the phase of `k` adds is glued from two halves. */
  lemma Halves(n: Net, order: seq<Vertex>, k: Vertex, p: seq<Vertex>) returns (q: seq<Vertex>, r: seq<Vertex>)
    requires Found(n, order + [k], p) && !Found(n, order, p)
    ensures q != [] && r != [] && p == Glue(q, r) && p[0] == q[0] && p[|p| - 1] == r[|r| - 1]
    ensures FoundBetween(n, order, q, p[0], k) && FoundBetween(n, order, r, k, p[|p| - 1])
    ensures Sum(n.cost, p) == Sum(n.cost, q) + Sum(n.cost, r)
  {
    assert (order + [k])[..|order|] == order;
    q, r :| Found(n, order, q) && Found(n, order, r) && GluedAt(n, k, p, q, r);
    GlueIsWalk(n, q, r, n.vert);
    GlueSum(n.cost, q, r);
  }

  // ------------------------------------------------- what the tables hold

  /** A finite entry is the weight of a found walk. */
  lemma {:induction false} EntryIsFound(n: Net, order: seq<Vertex>, t: View, i: Vertex, j: Vertex)
    returns (p: seq<Vertex>)
    requires n.Valid() && Ran(n, order, t) && (forall k :: k in order ==> k in n.vert)
    requires i in n.vert && j in n.vert && t.d(i, j) < INFINITY
    ensures FoundBetween(n, order, p, i, j) && Sum(n.cost, p) == t.d(i, j)
    decreases |order|
  {
    if order == [] {
      assert InitialEntry(n, i, j, t.d(i, j), t.bare(i, j), t.hop(i, j));
      p := if i == j then [i] else [i, j];
      if i != j {
        SumOfEdge(n.cost, i, j);
      }
    } else {
      var earlier, k := order[..|order| - 1], order[|order| - 1];
      assert order == earlier + [k];
      var before :| RanTo(n, order, before, t);
      assert Relaxed(before, t, k, i, j);
      if Improves(before, k, i, j) {
        var q := EntryIsFound(n, earlier, before, i, k);
        var r := EntryIsFound(n, earlier, before, k, j);
        p := Glue(q, r);
        GlueFound(n, earlier, k, q, r, i, j);
      } else {
        p := EntryIsFound(n, earlier, before, i, j);
        FoundLater(n, earlier, k, p);
      }
    }
  }

  /** No found walk is cheaper than its entry. */
  lemma {:induction false} FoundIsBound(n: Net, order: seq<Vertex>, t: View, p: seq<Vertex>)
    requires n.Valid() && Ran(n, order, t) && (forall k :: k in order ==> k in n.vert)
    requires Walk(n, p) && Found(n, order, p)
    ensures t.d(p[0], p[|p| - 1]) <= Sum(n.cost, p)
    decreases |order|
  {
    var i, j := p[0], p[|p| - 1];
    if order == [] {
      assert InitialEntry(n, i, j, t.d(i, j), t.bare(i, j), t.hop(i, j));
    } else {
      var earlier, k := order[..|order| - 1], order[|order| - 1];
      assert order == earlier + [k];
      var before :| RanTo(n, order, before, t);
      assert Relaxed(before, t, k, i, j);
      if Found(n, earlier, p) {
        FoundIsBound(n, earlier, before, p);
      } else {
        var q, r := Halves(n, earlier, k, p);
        FoundIsBound(n, earlier, before, q);
        FoundIsBound(n, earlier, before, r);
      }
    }
  }

  lemma {:induction false} NeverAboveInfinity(n: Net, order: seq<Vertex>, t: View, i: Vertex, j: Vertex)
    requires n.Valid() && Ran(n, order, t) && i in n.vert && j in n.vert
    ensures t.d(i, j) <= INFINITY
    decreases |order|
  {
    if order == [] {
      assert InitialEntry(n, i, j, t.d(i, j), t.bare(i, j), t.hop(i, j));
    } else {
      var before :| RanTo(n, order, before, t);
      NeverAboveInfinity(n, order[..|order| - 1], before, i, j);
      assert Relaxed(before, t, order[|order| - 1], i, j);
    }
  }

  // ------------------------------------------------- every order can be run

  ghost function FirstTables(n: Net): View
    requires n.Valid()
  {
    View((i: Vertex, j: Vertex) => if (i, j) in n.cost then n.cost[(i, j)] else if i == j then 0.0 else INFINITY,
         (i: Vertex, j: Vertex) => if (i, j) in n.ping then n.ping[(i, j)] else if i == j then 0.0 else INFINITY,
         (i: Vertex, j: Vertex) => if (i, j) in n.cost then Some(j) else None)
  }

  ghost function AfterPhase(t: View, k: Vertex): View {
    View((i: Vertex, j: Vertex) => if Improves(t, k, i, j) then t.d(i, k) + t.d(k, j) else t.d(i, j),
         (i: Vertex, j: Vertex) => if Improves(t, k, i, j) then t.bare(i, k) + t.bare(k, j) else t.bare(i, j),
         (i: Vertex, j: Vertex) => if Improves(t, k, i, j) then t.hop(i, k) else t.hop(i, j))
  }

  lemma {:induction false} RunExists(n: Net, order: seq<Vertex>) returns (t: View)
    requires n.Valid()
    ensures Ran(n, order, t)
    decreases |order|
  {
    if order == [] {
      t := FirstTables(n);
    } else {
      var earlier, k := order[..|order| - 1], order[|order| - 1];
      var before := RunExists(n, earlier);
      t := AfterPhase(before, k);
      forall i, j | i in n.vert && j in n.vert
        ensures Relaxed(before, t, k, i, j)
      {
        if Improves(before, k, i, j) {
          assert t.d(i, j) == before.d(i, k) + before.d(k, j);
        }
      }
      RanOneMore(n, earlier, before, t, k);
      assert earlier + [k] == order;
    }
  }

  // ------------------------------------------------- when nothing is lost

  /** No walk from `i` to `j` is cheaper than the entry. */
  ghost predicate Optimal(n: Net, t: View, i: Vertex, j: Vertex) {
    forall p :: WalkBetween(n, p, i, j) ==> t.d(i, j) <= Sum(n.cost, p)
  }

  /** Some found walk has the ends of `p` and costs no more. */
  ghost predicate Matched(n: Net, order: seq<Vertex>, p: seq<Vertex>)
    requires p != []
  {
    exists q :: FoundBetween(n, order, q, p[0], p[|p| - 1]) && Sum(n.cost, q) <= Sum(n.cost, p)
  }

  /** Every walk from `i` to `j` below Infinity is matched: the graph and the order decide. */
  ghost predicate AllMatched(n: Net, order: seq<Vertex>, i: Vertex, j: Vertex) {
    forall p :: WalkBetween(n, p, i, j) && Sum(n.cost, p) < INFINITY ==> Matched(n, order, p)
  }

  /** Exactly when the cap loses nothing between two vertices, signed weights or not. */
  lemma OptimalIffMatched(n: Net, order: seq<Vertex>, t: View, i: Vertex, j: Vertex)
    requires n.Valid() && Ran(n, order, t) && (forall k :: k in order ==> k in n.vert)
    requires i in n.vert && j in n.vert
    ensures Optimal(n, t, i, j) <==> AllMatched(n, order, i, j)
  {
    NeverAboveInfinity(n, order, t, i, j);
    forall p | WalkBetween(n, p, i, j) && Sum(n.cost, p) < INFINITY
      ensures Matched(n, order, p) <==> t.d(i, j) <= Sum(n.cost, p)
    {
      MatchedIffBounded(n, order, t, p);
    }
  }

  lemma MatchedIffBounded(n: Net, order: seq<Vertex>, t: View, p: seq<Vertex>)
    requires n.Valid() && Ran(n, order, t) && (forall k :: k in order ==> k in n.vert)
    requires Walk(n, p) && Sum(n.cost, p) < INFINITY
    ensures Matched(n, order, p) <==> t.d(p[0], p[|p| - 1]) <= Sum(n.cost, p)
  {
    var i, j := p[0], p[|p| - 1];
    if t.d(i, j) <= Sum(n.cost, p) {
      var q := EntryIsFound(n, order, t, i, j);
    }
    if q :| FoundBetween(n, order, q, i, j) && Sum(n.cost, q) <= Sum(n.cost, p) {
      FoundIsBound(n, order, t, q);
    }
  }

  /** The tables that a calculation installs are optimal exactly under that condition, for the
      order in which it happened to visit the vertices. */
  lemma RoutesOptimalIff(n: Net, t: View) returns (order: seq<Vertex>)
    requires Routes(n, t)
    ensures Enumerates(order, n.vert) && Ran(n, order, t)
    ensures forall i, j {:trigger Optimal(n, t, i, j)} :: i in n.vert && j in n.vert ==>
      (Optimal(n, t, i, j) <==> AllMatched(n, order, i, j))
  {
    order :| Enumerates(order, n.vert) && Ran(n, order, t);
    forall i, j | i in n.vert && j in n.vert
      ensures Optimal(n, t, i, j) <==> AllMatched(n, order, i, j)
    {
      OptimalIffMatched(n, order, t, i, j);
    }
  }

  // ------------------------------------------------- a condition for every order

  ghost predicate Within(p: seq<Vertex>, order: seq<Vertex>) {
    forall a :: 0 < a < |p| - 1 ==> p[a] in order
  }

  /** A simple walk all of whose parts stay below Infinity is found in every order. */
  lemma {:induction false} LightIsFound(n: Net, order: seq<Vertex>, p: seq<Vertex>)
    requires Walk(n, p) && Simple(p) && Light(n, p) && Within(p, order)
    ensures Found(n, order, p)
    decreases |order|, 0
  {
    if order == [] {
      var second := (p + p)[1];
    } else {
      var earlier, k := order[..|order| - 1], order[|order| - 1];
      assert order == earlier + [k];
      if m :| 0 < m < |p| - 1 && p[m] == k {
        OtherVertices(earlier, k, p, m);
        PartIsFound(n, earlier, p, 0, m + 1);
        PartIsFound(n, earlier, p, m, |p|);
        GlueParts(n, earlier, p, m);
      } else {
        NotVisited(earlier, k, p);
        LightIsFound(n, earlier, p);
        FoundLater(n, earlier, k, p);
      }
    }
  }

  lemma NotVisited(order: seq<Vertex>, k: Vertex, p: seq<Vertex>)
    requires Within(p, order + [k]) && forall m :: 0 < m < |p| - 1 ==> p[m] != k
    ensures Within(p, order)
  {
  }

  lemma OtherVertices(order: seq<Vertex>, k: Vertex, p: seq<Vertex>, m: nat)
    requires Simple(p) && 0 < m < |p| - 1 && p[m] == k && Within(p, order + [k])
    ensures Within(p[0..m + 1], order) && Within(p[m..|p|], order)
  {
  }

  lemma GlueParts(n: Net, order: seq<Vertex>, p: seq<Vertex>, m: nat)
    requires 0 < m < |p| - 1
    requires FoundBetween(n, order, p[0..m + 1], p[0], p[m]) && FoundBetween(n, order, p[m..|p|], p[m], p[|p| - 1])
    ensures Found(n, order + [p[m]], p)
  {
    GlueFound(n, order, p[m], p[0..m + 1], p[m..|p|], p[0], p[|p| - 1]);
    assert Glue(p[0..m + 1], p[m..|p|]) == p by {
      assert p[m..|p|][1..] == p[m + 1..] && p[0..m + 1] == p[..m + 1];
    }
  }

  lemma PartIsFound(n: Net, order: seq<Vertex>, p: seq<Vertex>, a: nat, b: nat)
    requires Walk(n, p) && Simple(p) && Light(n, p) && a < b <= |p| && Within(p[a..b], order)
    ensures FoundBetween(n, order, p[a..b], p[a], p[b - 1])
    decreases |order|, 1
  {
    PartIsWalk(n, p, a, b);
    LightPart(n, p, a, b);
    LightIsFound(n, order, p[a..b]);
  }

  /** Without negative cycles, and with simple paths below Infinity, no order loses a path. */
  lemma NothingLostInAnyOrder(n: Net, order: seq<Vertex>, t: View, i: Vertex, j: Vertex)
    requires n.Valid() && Ran(n, order, t) && Enumerates(order, n.vert) && i in n.vert && j in n.vert
    requires NoNegativeCycle(n) && SimpleSumsBelowInfinity(n)
    ensures Optimal(n, t, i, j)
  {
    forall p | WalkBetween(n, p, i, j) && Sum(n.cost, p) < INFINITY
      ensures Matched(n, order, p)
    {
      var q := SimplifyWalk(n, p);
      SimpleIsLight(n, q);
      LightIsFound(n, order, q);
    }
    OptimalIffMatched(n, order, t, i, j);
  }

  // ------------------------------------------------- a path that is lost

  /** 1-2-3-4 costs 70000, but its first two edges together exceed Infinity. */
  ghost function Lossy(): Net {
    var cost: Costs := map[(1, 2) := 60000.0, (2, 3) := 60000.0, (3, 4) := -50000.0];
    Net({1, 2, 3, 4}, cost, cost)
  }

  /** Every edge leads to the next number. */
  lemma {:induction false} LossyAscends(p: seq<Vertex>, a: nat)
    requires Walk(Lossy(), p) && a < |p|
    ensures p[a] as int == p[0] as int + a
  {
    if a > 0 {
      LossyAscends(p, a - 1);
      assert (p[a - 1], p[a]) in Lossy().cost;
    }
  }

  lemma LossyIsWellBehaved()
    ensures Lossy().Valid() && NoNegativeCycle(Lossy())
  {
    forall p | Walk(Lossy(), p) && p[0] == p[|p| - 1]
      ensures Sum(Lossy().cost, p) >= 0.0
    {
      LossyAscends(p, |p| - 1);
    }
  }

  lemma LossyWalk()
    ensures WalkBetween(Lossy(), [1, 2, 3, 4], 1, 4) && Sum(Lossy().cost, [1, 2, 3, 4]) == 70000.0
  {
  }

  ghost predicate Connects(order: seq<Vertex>, i: Vertex, j: Vertex) {
    exists p :: FoundBetween(Lossy(), order, p, i, j)
  }

  /** A phase connects two vertices only if both halves were connected. */
  lemma BothHalves(order: seq<Vertex>, k: Vertex, i: Vertex, j: Vertex)
    requires Connects(order + [k], i, j)
    ensures Connects(order, i, j) || (Connects(order, i, k) && Connects(order, k, j))
  {
    var p :| FoundBetween(Lossy(), order + [k], p, i, j);
    if Found(Lossy(), order, p) {
      assert FoundBetween(Lossy(), order, p, i, j);
    } else {
      var q, r := Halves(Lossy(), order, k, p);
      assert Connects(order, i, k) && Connects(order, k, j);
    }
  }

  lemma StaysApart(order: seq<Vertex>, k: Vertex, i: Vertex, j: Vertex)
    requires !Connects(order, i, j) && (!Connects(order, i, k) || !Connects(order, k, j))
    ensures !Connects(order + [k], i, j)
  {
    if Connects(order + [k], i, j) {
      BothHalves(order, k, i, j);
    }
  }

  /** Only an edge connects different vertices before the first phase. */
  lemma EdgesOnly(i: Vertex, j: Vertex)
    requires i != j && (i, j) !in Lossy().cost
    ensures !Connects([], i, j)
  {
  }

  lemma EdgeWeight(n: Net, i: Vertex, j: Vertex, p: seq<Vertex>)
    requires i != j && FoundBetween(n, [], p, i, j)
    ensures (i, j) in n.cost && Sum(n.cost, p) == n.cost[(i, j)]
  {
    assert p == [i, j];
    SumOfEdge(n.cost, i, j);
  }

  /** The first phase connects two vertices by an edge, or by two that it glues. */
  lemma FirstPhase(n: Net, k: Vertex, i: Vertex, j: Vertex, p: seq<Vertex>)
    requires i != j && i != k && k != j && FoundBetween(n, [k], p, i, j)
    ensures (i, j) in n.cost || ((i, k) in n.cost && (k, j) in n.cost && n.cost[(i, k)] + n.cost[(k, j)] < INFINITY)
  {
    assert [k] == [] + [k];
    if Found(n, [], p) {
      EdgeWeight(n, i, j, p);
    } else {
      var q, r := Halves(n, [], k, p);
      EdgeWeight(n, i, k, q);
      EdgeWeight(n, k, j, r);
    }
  }

  /** The phase of 2 does not connect 1 with 3: together the two edges exceed Infinity. */
  lemma TooHeavy()
    ensures !Connects([2], 1, 3)
  {
    if p :| FoundBetween(Lossy(), [2], p, 1, 3) {
      FirstPhase(Lossy(), 2, 1, 3, p);
    }
  }

  /** In the order 2, 3, 1, 4 no phase connects 1 with 4. */
  lemma NeverConnected()
    ensures !Connects([2, 3, 1, 4], 1, 4)
  {
    TooHeavy();
    EdgesOnly(1, 4);
    EdgesOnly(2, 4);
    StaysApart([], 2, 1, 4);
    assert [] + [2] == [2];
    StaysApart([2], 3, 1, 4);
    assert [2] + [3] == [2, 3];
    StaysApart([2, 3], 1, 1, 4);
    assert [2, 3] + [1] == [2, 3, 1];
    StaysApart([2, 3, 1], 4, 1, 4);
    assert [2, 3, 1] + [4] == [2, 3, 1, 4];
  }

  /** The graph has no negative cycle. Still the order 2, 3, 1, 4 loses the path of cost 70000,
      while the order 3, 2, 1, 4 finds it. */
  lemma CapCanLoseAPath()
    ensures Lossy().Valid() && NoNegativeCycle(Lossy())
    ensures forall t :: Ran(Lossy(), [2, 3, 1, 4], t) ==> !Optimal(Lossy(), t, 1, 4) && t.d(1, 4) == INFINITY
    ensures forall t :: Ran(Lossy(), [3, 2, 1, 4], t) ==> Optimal(Lossy(), t, 1, 4) && t.d(1, 4) == 70000.0
    ensures (exists t :: Ran(Lossy(), [2, 3, 1, 4], t)) && exists t :: Ran(Lossy(), [3, 2, 1, 4], t)
  {
    LossyIsWellBehaved();
    forall t | Ran(Lossy(), [2, 3, 1, 4], t)
      ensures !Optimal(Lossy(), t, 1, 4) && t.d(1, 4) == INFINITY
    {
      OneOrderLosesIt(t);
    }
    forall t | Ran(Lossy(), [3, 2, 1, 4], t)
      ensures Optimal(Lossy(), t, 1, 4) && t.d(1, 4) == 70000.0
    {
      AnotherOrderFindsIt(t);
    }
    var t := RunExists(Lossy(), [2, 3, 1, 4]);
    var t' := RunExists(Lossy(), [3, 2, 1, 4]);
  }

  lemma OneOrderLosesIt(t: View)
    requires Lossy().Valid() && Ran(Lossy(), [2, 3, 1, 4], t)
    ensures !Optimal(Lossy(), t, 1, 4) && t.d(1, 4) == INFINITY
  {
    LossyWalk();
    NeverConnected();
    assert !Matched(Lossy(), [2, 3, 1, 4], [1, 2, 3, 4]);
    OptimalIffMatched(Lossy(), [2, 3, 1, 4], t, 1, 4);
    NeverAboveInfinity(Lossy(), [2, 3, 1, 4], t, 1, 4);
    if t.d(1, 4) < INFINITY {
      var p := EntryIsFound(Lossy(), [2, 3, 1, 4], t, 1, 4);
    }
  }

  lemma AnotherOrderFindsIt(t: View)
    requires Lossy().Valid() && Ran(Lossy(), [3, 2, 1, 4], t)
    ensures Optimal(Lossy(), t, 1, 4) && t.d(1, 4) == 70000.0
  {
    LossyWalk();
    var p := [1, 2, 3, 4];
    FoundFromBehind(Lossy(), 1, 2, 3, 4);
    FoundLater(Lossy(), [3, 2], 1, p);
    assert [3, 2] + [1] == [3, 2, 1];
    FoundLater(Lossy(), [3, 2, 1], 4, p);
    assert [3, 2, 1] + [4] == [3, 2, 1, 4];
    forall q | WalkBetween(Lossy(), q, 1, 4)
      ensures q == p
    {
      OnlyLossyWalk(q);
    }
    OptimalIffMatched(Lossy(), [3, 2, 1, 4], t, 1, 4);
    FoundIsBound(Lossy(), [3, 2, 1, 4], t, p);
    var q := EntryIsFound(Lossy(), [3, 2, 1, 4], t, 1, 4);
  }

  lemma OnlyLossyWalk(q: seq<Vertex>)
    requires WalkBetween(Lossy(), q, 1, 4)
    ensures q == [1, 2, 3, 4]
  {
    forall a | 0 <= a < |q|
      ensures q[a] as int == 1 + a
    {
      LossyAscends(q, a);
    }
  }

  lemma EdgeIsFound(n: Net, order: seq<Vertex>, x: Vertex, y: Vertex)
    requires n.Valid() && (x, y) in n.cost && Found(n, order, [x, y])
    ensures FoundBetween(n, order, [x, y], x, y) && Sum(n.cost, [x, y]) == n.cost[(x, y)]
  {
    SumOfEdge(n.cost, x, y);
  }

  /** The phase of `y` glues the last two of three edges, and that of `x` the whole path. */
  lemma FoundFromBehind(n: Net, w: Vertex, x: Vertex, y: Vertex, z: Vertex)
    requires n.Valid() && (w, x) in n.cost && (x, y) in n.cost && (y, z) in n.cost
    requires n.cost[(x, y)] + n.cost[(y, z)] < INFINITY
    ensures Found(n, [y, x], [w, x, y, z])
  {
    EdgeIsFound(n, [], x, y);
    EdgeIsFound(n, [], y, z);
    GlueFound(n, [], y, [x, y], [y, z], x, z);
    assert [] + [y] == [y] && Glue([x, y], [y, z]) == [x, y, z];
    FoundLater(n, [], y, [w, x]);
    EdgeIsFound(n, [y], w, x);
    GlueFound(n, [y], x, [w, x], [x, y, z], w, z);
    assert [y] + [x] == [y, x] && Glue([w, x], [x, y, z]) == [w, x, y, z];
  }
}
