/** A snapshot of the routing graph and the arithmetic of walks through it.

    `cost` holds every edge whose weight (ping plus additional cost) is below
    Infinity at the moment of the snapshot, `ping` the same edges without the
    additional cost. */
module Walks {

  newtype Vertex = v: int | 0 <= v < 0x1_0000

  const INFINITY: real := 99999.0

  const NODE_BROADCAST: Vertex := 0xFFFF
  const NODE_SPREAD: Vertex := 0xFFFE
  const NODE_SUPER: Vertex := 0xFFFD
  const NODE_INVALID: Vertex := 0xFFFC

  type Costs = map<(Vertex, Vertex), real>

  datatype Net = Net(vert: set<Vertex>, cost: Costs, ping: Costs) {
    ghost predicate Valid() {
      && ping.Keys == cost.Keys
      && forall u, v :: (u, v) in cost ==>
           && u in vert && v in vert && cost[(u, v)] < INFINITY
           && (u == v ==> cost[(u, v)] == 0.0 && ping[(u, v)] == 0.0)
    }

    ghost predicate NonNegative() {
      forall u, v :: (u, v) in cost ==> cost[(u, v)] >= 0.0
    }
  }

  // ---------------------------------------------------------------- walks

  ghost predicate Walk(n: Net, p: seq<Vertex>) {
    && p != []
    && (forall a :: 0 <= a < |p| ==> p[a] in n.vert)
    && (forall a, b :: 0 <= a && b == a + 1 < |p| ==> (p[a], p[b]) in n.cost)
  }

  ghost predicate WalkBetween(n: Net, p: seq<Vertex>, u: Vertex, v: Vertex) {
    Walk(n, p) && p[0] == u && p[|p| - 1] == v
  }

  /** Sum of an edge measure along a sequence of vertices; missing edges count as zero. */
  ghost function Sum(m: Costs, p: seq<Vertex>): real {
    if |p| < 2 then 0.0
    else (if (p[0], p[1]) in m then m[(p[0], p[1])] else 0.0) + Sum(m, p[1..])
  }

  ghost predicate InteriorIn(p: seq<Vertex>, s: set<Vertex>) {
    forall a :: 0 < a < |p| - 1 ==> p[a] in s
  }

  /** Glue two walks that meet at the last vertex of the first one. */
  ghost function Glue(p: seq<Vertex>, q: seq<Vertex>): seq<Vertex>
    requires q != []
  {
    p + q[1..]
  }

  lemma {:induction false} SumSplit(m: Costs, p: seq<Vertex>, k: nat)
    requires k < |p|
    ensures Sum(m, p) == Sum(m, p[..k + 1]) + Sum(m, p[k..])
    decreases k
  {
    if k == 0 {
    } else {
      SumSplit(m, p[1..], k - 1);
      assert p[1..][..k] == p[..k + 1][1..];
      assert p[1..][k - 1..] == p[k..];
    }
  }

  lemma SumOfEdge(m: Costs, u: Vertex, v: Vertex)
    requires (u, v) in m
    ensures Sum(m, [u, v]) == m[(u, v)]
  {
  }

  lemma PartIsWalk(n: Net, p: seq<Vertex>, a: nat, b: nat)
    requires Walk(n, p) && a < b <= |p|
    ensures WalkBetween(n, p[a..b], p[a], p[b - 1])
  {
  }

  lemma GlueSum(m: Costs, p: seq<Vertex>, q: seq<Vertex>)
    requires p != [] && q != [] && p[|p| - 1] == q[0]
    ensures Sum(m, Glue(p, q)) == Sum(m, p) + Sum(m, q)
  {
    var g := Glue(p, q);
    SumSplit(m, g, |p| - 1);
    assert g[..|p|] == p && g[|p| - 1..] == q;
  }

  lemma GlueIsWalk(n: Net, p: seq<Vertex>, q: seq<Vertex>, s: set<Vertex>)
    requires Walk(n, p) && Walk(n, q) && p[|p| - 1] == q[0]
    requires InteriorIn(p, s) && InteriorIn(q, s)
    ensures WalkBetween(n, Glue(p, q), p[0], q[|q| - 1])
    ensures InteriorIn(Glue(p, q), s + {q[0]})
    ensures |p| >= 2 ==> Glue(p, q)[1] == p[1]
  {
  }

  lemma PrependEdge(n: Net, x: Vertex, q: seq<Vertex>, s: set<Vertex>)
    requires n.Valid() && Walk(n, q) && (x, q[0]) in n.cost
    requires InteriorIn(q, s) && (q[0] in s || |q| == 1)
    ensures WalkBetween(n, [x] + q, x, q[|q| - 1]) && InteriorIn([x] + q, s)
    ensures Sum(n.cost, [x] + q) == n.cost[(x, q[0])] + Sum(n.cost, q)
    ensures Sum(n.ping, [x] + q) == n.ping[(x, q[0])] + Sum(n.ping, q)
  {
  }

  lemma {:induction false} SumNonNegative(n: Net, p: seq<Vertex>)
    requires n.NonNegative()
    ensures Sum(n.cost, p) >= 0.0
  {
    if |p| >= 2 {
      SumNonNegative(n, p[1..]);
    }
  }

  // ---------------------------------------------- the finite Infinity

  /** Every contiguous part of the walk weighs less than Infinity. */
  ghost predicate Light(n: Net, p: seq<Vertex>) {
    forall a, b :: 0 <= a <= b <= |p| ==> Sum(n.cost, p[a..b]) < INFINITY
  }

  lemma SliceOfSlice<T>(p: seq<T>, a: nat, b: nat, c: nat, d: nat)
    requires a <= b <= |p| && c <= d <= b - a
    ensures p[a..b][c..d] == p[a + c..a + d]
  {
    forall e | 0 <= e < d - c
      ensures p[a..b][c..d][e] == p[a + c..a + d][e]
    {
    }
  }

  lemma LightPart(n: Net, p: seq<Vertex>, a: nat, b: nat)
    requires Light(n, p) && a <= b <= |p|
    ensures Light(n, p[a..b]) && Sum(n.cost, p[a..b]) < INFINITY
  {
    forall c, d | 0 <= c <= d <= b - a
      ensures Sum(n.cost, p[a..b][c..d]) < INFINITY
    {
      SliceOfSlice(p, a, b, c, d);
    }
  }

  /** Some light walk with the same ends and no new interior vertex costs at most as much. */
  ghost predicate HasLight(n: Net, p: seq<Vertex>)
    requires p != []
  {
    exists q :: LightShortcut(n, p, q)
  }

  ghost predicate LightShortcut(n: Net, p: seq<Vertex>, q: seq<Vertex>)
    requires p != []
  {
    && WalkBetween(n, q, p[0], p[|p| - 1]) && Light(n, q)
    && Sum(n.cost, q) <= Sum(n.cost, p)
    && forall s :: InteriorIn(p, s) ==> InteriorIn(q, s)
  }

  /** A condition under which capping distances at Infinity loses nothing, in any order. */
  ghost predicate Tame(n: Net) {
    forall p {:trigger HasLight(n, p)} :: Walk(n, p) ==>
      HasLight(n, p) || (n.NonNegative() && Sum(n.cost, p) >= INFINITY)
  }

  lemma NonNegativeIsTame(n: Net)
    requires n.NonNegative()
    ensures Tame(n)
  {
    forall p | Walk(n, p)
      ensures HasLight(n, p) || Sum(n.cost, p) >= INFINITY
    {
      if Sum(n.cost, p) < INFINITY {
        forall a, b | 0 <= a <= b <= |p|
          ensures Sum(n.cost, p[a..b]) < INFINITY
        {
          PartCostsLess(n, p, a, b);
        }
        assert LightShortcut(n, p, p);
      }
    }
  }

  lemma PartCostsLess(n: Net, p: seq<Vertex>, a: nat, b: nat)
    requires n.NonNegative() && a <= b <= |p|
    ensures Sum(n.cost, p[a..b]) <= Sum(n.cost, p)
  {
    if a < b {
      SumSplit(n.cost, p, b - 1);
      SumSplit(n.cost, p[..b], a);
      assert p[..b][a..] == p[a..b];
      SumNonNegative(n, p[b - 1..]);
      SumNonNegative(n, p[..b][..a + 1]);
    } else {
      SumNonNegative(n, p);
    }
  }

  // -------------------------------------------- signed weights

  ghost predicate NoNegativeCycle(n: Net) {
    forall p {:trigger Walk(n, p)} :: Walk(n, p) && p[0] == p[|p| - 1] ==> Sum(n.cost, p) >= 0.0
  }

  ghost predicate Simple(p: seq<Vertex>) {
    forall a, b :: 0 <= a < b < |p| ==> p[a] != p[b]
  }

  ghost predicate SimpleSumsBelowInfinity(n: Net) {
    forall p {:trigger Simple(p)} :: Walk(n, p) && Simple(p) ==> Sum(n.cost, p) < INFINITY
  }

  /** Cutting a closed part out of a walk keeps its ends and does not raise its cost. */
  lemma CutLoop(n: Net, p: seq<Vertex>, a: nat, b: nat) returns (q: seq<Vertex>)
    requires Walk(n, p) && NoNegativeCycle(n)
    requires a < b < |p| && p[a] == p[b]
    ensures WalkBetween(n, q, p[0], p[|p| - 1]) && |q| < |p|
    ensures Sum(n.cost, q) <= Sum(n.cost, p)
    ensures forall s :: InteriorIn(p, s) ==> InteriorIn(q, s)
  {
    q := p[..a + 1] + p[b + 1..];
    CutIsWalk(n, p, a, b);
    SumWithoutLoop(n.cost, p, a, b);
    ClosedPart(n, p, a, b);
  }

  lemma ClosedPart(n: Net, p: seq<Vertex>, a: nat, b: nat)
    requires Walk(n, p) && NoNegativeCycle(n) && a < b < |p| && p[a] == p[b]
    ensures Sum(n.cost, p[a..b + 1]) >= 0.0
  {
    PartIsWalk(n, p, a, b + 1);
  }

  lemma CutIsWalk(n: Net, p: seq<Vertex>, a: nat, b: nat)
    requires Walk(n, p) && a < b < |p| && p[a] == p[b]
    ensures WalkBetween(n, p[..a + 1] + p[b + 1..], p[0], p[|p| - 1])
    ensures forall s :: InteriorIn(p, s) ==> InteriorIn(p[..a + 1] + p[b + 1..], s)
  {
  }

  lemma SumWithoutLoop(m: Costs, p: seq<Vertex>, a: nat, b: nat)
    requires a < b < |p| && p[a] == p[b]
    ensures Sum(m, p) == Sum(m, p[..a + 1] + p[b + 1..]) + Sum(m, p[a..b + 1])
  {
    var q, front := p[..a + 1] + p[b + 1..], p[..b + 1];
    SumSplit(m, p, b);
    SumSplit(m, front, a);
    assert front[..a + 1] == p[..a + 1] && front[a..] == p[a..b + 1];
    SumSplit(m, q, a);
    assert q[..a + 1] == p[..a + 1] && q[a..] == p[b..];
  }

  lemma {:induction false} SimplifyWalk(n: Net, p: seq<Vertex>) returns (q: seq<Vertex>)
    requires Walk(n, p) && NoNegativeCycle(n)
    ensures WalkBetween(n, q, p[0], p[|p| - 1]) && Simple(q)
    ensures Sum(n.cost, q) <= Sum(n.cost, p)
    ensures forall s :: InteriorIn(p, s) ==> InteriorIn(q, s)
    decreases |p|
  {
    if Simple(p) {
      q := p;
    } else {
      var a, b :| 0 <= a < b < |p| && p[a] == p[b];
      var r := CutLoop(n, p, a, b);
      q := SimplifyWalk(n, r);
    }
  }

  lemma SimpleIsLight(n: Net, q: seq<Vertex>)
    requires SimpleSumsBelowInfinity(n) && Walk(n, q) && Simple(q)
    ensures Light(n, q) && Sum(n.cost, q) < INFINITY
  {
    forall a, b | 0 <= a <= b <= |q|
      ensures Sum(n.cost, q[a..b]) < INFINITY
    {
      if a < b {
        PartIsWalk(n, q, a, b);
        assert Simple(q[a..b]);
      }
    }
  }

  /** One-way latencies may be negative (clock skew): without a negative cycle, and with
      simple paths that stay below Infinity, the cap is still harmless. */
  lemma SignedIsTame(n: Net)
    requires NoNegativeCycle(n) && SimpleSumsBelowInfinity(n)
    ensures Tame(n)
  {
    forall p | Walk(n, p)
      ensures HasLight(n, p)
    {
      var q := SimplifyWalk(n, p);
      SimpleIsLight(n, q);
      assert LightShortcut(n, p, q);
    }
  }

  lemma {:induction false} SubsetSize<T>(a: set<T>, b: set<T>)
    requires a <= b
    ensures |a| <= |b|
  {
    if a != {} {
      var x :| x in a;
      SubsetSize(a - {x}, b - {x});
    }
  }

  lemma {:induction false} DistinctFit(p: seq<Vertex>, s: set<Vertex>)
    requires forall a :: 0 <= a < |p| ==> p[a] in s
    requires forall a, b :: 0 <= a < b < |p| ==> p[a] != p[b]
    ensures |p| <= |s|
    decreases |p|
  {
    if p != [] {
      DistinctFit(p[1..], s - {p[0]});
    }
  }
}
