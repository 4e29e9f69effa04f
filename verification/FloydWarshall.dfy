/** What each phase of the triple loop in path.go keeps, for any vertex order.

    A phase relaxes every pair of vertices through one vertex `k`, in place. The
    invariants below hold between phases; `s` is the set of vertices whose phase is over.
    They speak about the three tables as functions of a pair of vertices. */
module FloydWarshall {
  import opened Walks
  import opened Wrappers

  type Rank = (Vertex, Vertex) -> nat

  /** Distance, distance without additional cost, and next hop of every pair. */
  datatype View = View(d: (Vertex, Vertex) -> real, bare: (Vertex, Vertex) -> real,
                       hop: (Vertex, Vertex) -> Option<Vertex>)

  // ------------------------------------------------- every finite entry is a walk

  /** `p` is a walk through `s` with weight `d`, bare weight `bare` and first hop `hop`. */
  ghost predicate Realises(n: Net, s: set<Vertex>, i: Vertex, j: Vertex,
                           d: real, bare: real, hop: Option<Vertex>, p: seq<Vertex>) {
    && WalkBetween(n, p, i, j) && InteriorIn(p, s)
    && Sum(n.cost, p) == d && Sum(n.ping, p) == bare
    && (|p| >= 2 ==> hop == Some(p[1]))
  }

  ghost predicate Realised(n: Net, s: set<Vertex>, i: Vertex, j: Vertex,
                           d: real, bare: real, hop: Option<Vertex>) {
    exists p :: Realises(n, s, i, j, d, bare, hop, p)
  }

  /** Entry (i, j) stands for a walk if it is finite, and a next hop is an edge. */
  ghost predicate SoundEntry(n: Net, s: set<Vertex>, i: Vertex, j: Vertex,
                             d: real, bare: real, hop: Option<Vertex>) {
    && (d < INFINITY ==> Realised(n, s, i, j, d, bare, hop))
    && (hop.Some? ==> d < INFINITY && (i, hop.value) in n.cost)
    && (hop.Some? && i == j ==> (i, i) in n.cost || d < 0.0)
  }

  ghost predicate SoundAt(n: Net, t: View, s: set<Vertex>, i: Vertex, j: Vertex) {
    SoundEntry(n, s, i, j, t.d(i, j), t.bare(i, j), t.hop(i, j))
  }

  ghost predicate Capped(n: Net, t: View) {
    forall i, j {:trigger t.d(i, j)} :: i in n.vert && j in n.vert ==>
      t.d(i, j) <= INFINITY && (i == j ==> t.d(i, j) <= 0.0)
  }

  ghost predicate Sound(n: Net, t: View, s: set<Vertex>) {
    && Capped(n, t)
    && forall i, j {:trigger SoundAt(n, t, s, i, j)} :: i in n.vert && j in n.vert ==> SoundAt(n, t, s, i, j)
  }

  lemma SoundGrows(n: Net, t: View, s: set<Vertex>, s': set<Vertex>)
    requires Sound(n, t, s) && s <= s'
    ensures Sound(n, t, s')
  {
    forall i, j | i in n.vert && j in n.vert
      ensures SoundAt(n, t, s', i, j)
    {
      assert SoundAt(n, t, s, i, j);
      if t.d(i, j) < INFINITY {
        var p := WalkOf(n, t, s, i, j);
        assert Realises(n, s', i, j, t.d(i, j), t.bare(i, j), t.hop(i, j), p);
      }
    }
  }

  lemma WalkOf(n: Net, t: View, s: set<Vertex>, i: Vertex, j: Vertex) returns (p: seq<Vertex>)
    requires Sound(n, t, s) && i in n.vert && j in n.vert && t.d(i, j) < INFINITY
    ensures Realises(n, s, i, j, t.d(i, j), t.bare(i, j), t.hop(i, j), p)
  {
    assert SoundAt(n, t, s, i, j);
    p :| Realises(n, s, i, j, t.d(i, j), t.bare(i, j), t.hop(i, j), p);
  }

  lemma GlueRealises(n: Net, s: set<Vertex>, i: Vertex, k: Vertex, j: Vertex, d: real, d': real,
                     bare: real, bare': real, hop: Option<Vertex>, hop': Option<Vertex>)
    requires k in s && Realised(n, s, i, k, d, bare, hop) && Realised(n, s, k, j, d', bare', hop')
    requires i != k || d < 0.0
    ensures hop.Some? && (i, hop.value) in n.cost
    ensures Realised(n, s, i, j, d + d', bare + bare', hop)
  {
    var p :| Realises(n, s, i, k, d, bare, hop, p);
    var q :| Realises(n, s, k, j, d', bare', hop', q);
    GlueIsWalk(n, p, q, s);
    GlueSum(n.cost, p, q);
    GlueSum(n.ping, p, q);
    assert |p| >= 2;
    assert (p[0], p[1]) in n.cost;
    assert Realises(n, s, i, j, d + d', bare + bare', hop, Glue(p, q));
  }

  ghost predicate Improves(t: View, k: Vertex, i: Vertex, j: Vertex) {
    t.d(i, k) < INFINITY && t.d(k, j) < INFINITY && t.d(i, j) > t.d(i, k) + t.d(k, j)
  }

  /** An improving relaxation always finds a next hop to copy, and what it writes is the
      weight, the bare weight and the first hop of a real walk, negative cycles or not. */
  lemma RelaxIsSound(n: Net, t: View, s: set<Vertex>, k: Vertex, i: Vertex, j: Vertex)
    requires Sound(n, t, s) && k in s && {i, j, k} <= n.vert && Improves(t, k, i, j)
    ensures t.hop(i, k).Some?
    ensures SoundEntry(n, s, i, j, t.d(i, k) + t.d(k, j), t.bare(i, k) + t.bare(k, j), t.hop(i, k))
  {
    assert SoundAt(n, t, s, i, k) && SoundAt(n, t, s, k, j);
    GlueRealises(n, s, i, k, j, t.d(i, k), t.d(k, j), t.bare(i, k), t.bare(k, j), t.hop(i, k), t.hop(k, j));
  }

  // ------------------------------------------------- one phase as a whole

  ghost predicate Clean(n: Net, t: View) {
    forall i :: i in n.vert ==> t.d(i, i) >= 0.0
  }

  ghost predicate SameEntry(t: View, t': View, i: Vertex, j: Vertex) {
    t'.d(i, j) == t.d(i, j) && t'.bare(i, j) == t.bare(i, j) && t'.hop(i, j) == t.hop(i, j)
  }

  /** Entry (i, j) after the phase of `k`, in terms of the tables before it. */
  ghost predicate Relaxed(t: View, t': View, k: Vertex, i: Vertex, j: Vertex) {
    if Improves(t, k, i, j) then
      && t'.d(i, j) == t.d(i, k) + t.d(k, j)
      && t'.bare(i, j) == t.bare(i, k) + t.bare(k, j)
      && t'.hop(i, j) == t.hop(i, k)
    else
      SameEntry(t, t', i, j)
  }

  ghost predicate Phase(n: Net, t: View, t': View, k: Vertex) {
    forall i, j {:trigger t'.d(i, j)} :: i in n.vert && j in n.vert ==> Relaxed(t, t', k, i, j)
  }

  /** Relaxing one pair in place keeps every entry sound. */
  lemma RelaxKeepsSound(n: Net, t: View, t': View, s: set<Vertex>, k: Vertex, i: Vertex, j: Vertex)
    requires Sound(n, t, s) && k in s && {i, j, k} <= n.vert
    requires Relaxed(t, t', k, i, j)
    requires forall a, b :: a != i || b != j ==> SameEntry(t, t', a, b)
    ensures Sound(n, t', s)
    ensures Improves(t, k, i, j) ==> t.hop(i, k).Some?
  {
    if Improves(t, k, i, j) {
      RelaxIsSound(n, t, s, k, i, j);
    }
    forall a, b | a in n.vert && b in n.vert
      ensures SoundAt(n, t', s, a, b)
    {
      assert SoundAt(n, t, s, a, b);
      assert a != i || b != j ==> SameEntry(t, t', a, b);
    }
    forall a, b | a in n.vert && b in n.vert
      ensures t'.d(a, b) <= t.d(a, b)
    {
      assert a != i || b != j ==> SameEntry(t, t', a, b);
    }
  }

  // ------------------------------------------------- no cheaper walk is missed

  /** No light walk through `s` is cheaper than its table entry. */
  ghost predicate Complete(n: Net, t: View, s: set<Vertex>) {
    forall p {:trigger Light(n, p)} :: Walk(n, p) && Light(n, p) && InteriorIn(p, s)
      ==> t.d(p[0], p[|p| - 1]) <= Sum(n.cost, p)
  }

  lemma {:induction false} PhaseKeepsBound(n: Net, t: View, t': View, k: Vertex, s: set<Vertex>, p: seq<Vertex>)
    requires Complete(n, t, s) && Phase(n, t, t', k) && k in n.vert && t.d(k, k) == 0.0
    requires Walk(n, p) && Light(n, p) && InteriorIn(p, s + {k})
    ensures t'.d(p[0], p[|p| - 1]) <= Sum(n.cost, p)
    decreases |p|
  {
    if InteriorIn(p, s) {
      assert Relaxed(t, t', k, p[0], p[|p| - 1]);
    } else {
      var front, back := SplitAtFirstVisit(n, k, s, p);
      assert t.d(p[0], k) <= Sum(n.cost, front);
      PhaseKeepsBound(n, t, t', k, s, back);
      var j := p[|p| - 1];
      assert Relaxed(t, t', k, k, j) && Relaxed(t, t', k, p[0], j);
    }
  }

  lemma SplitAtFirstVisit(n: Net, k: Vertex, s: set<Vertex>, p: seq<Vertex>)
    returns (front: seq<Vertex>, back: seq<Vertex>)
    requires Walk(n, p) && Light(n, p) && InteriorIn(p, s + {k}) && !InteriorIn(p, s)
    ensures WalkBetween(n, front, p[0], k) && Light(n, front) && InteriorIn(front, s)
    ensures WalkBetween(n, back, k, p[|p| - 1]) && Light(n, back) && InteriorIn(back, s + {k})
    ensures |back| < |p| && Sum(n.cost, p) == Sum(n.cost, front) + Sum(n.cost, back)
    ensures Sum(n.cost, front) < INFINITY && Sum(n.cost, back) < INFINITY
  {
    var m := FirstVisit(k, s, p);
    front, back := p[0..m + 1], p[m..|p|];
    PartIsWalk(n, p, 0, m + 1);
    PartIsWalk(n, p, m, |p|);
    LightPart(n, p, 0, m + 1);
    LightPart(n, p, m, |p|);
    SumSplit(n.cost, p, m);
    assert p[..m + 1] == front && p[m..] == back;
  }

  lemma FirstVisit(k: Vertex, s: set<Vertex>, p: seq<Vertex>) returns (m: nat)
    requires InteriorIn(p, s + {k}) && !InteriorIn(p, s)
    ensures 0 < m < |p| - 1 && p[m] == k
    ensures InteriorIn(p[0..m + 1], s) && InteriorIn(p[m..|p|], s + {k})
  {
    m := 1;
    while m < |p| - 1 && p[m] != k
      invariant 1 <= m
      invariant forall a :: 0 < a < m && a < |p| - 1 ==> p[a] in s
    {
      m := m + 1;
    }
  }

  lemma PhaseComplete(n: Net, t: View, t': View, k: Vertex, s: set<Vertex>)
    requires Complete(n, t, s) && Phase(n, t, t', k) && k in n.vert && t.d(k, k) == 0.0
    ensures Complete(n, t', s + {k})
  {
    forall p | Walk(n, p) && Light(n, p) && InteriorIn(p, s + {k})
      ensures t'.d(p[0], p[|p| - 1]) <= Sum(n.cost, p)
    {
      PhaseKeepsBound(n, t, t', k, s, p);
    }
  }

  /** On a tame graph the bound holds for every walk, and the entry is finite unless
      weights are non-negative and the walk itself costs Infinity or more. */
  lemma TameBound(n: Net, t: View, s: set<Vertex>, p: seq<Vertex>)
    requires Sound(n, t, s) && Complete(n, t, s) && Tame(n)
    requires Walk(n, p) && InteriorIn(p, s)
    ensures t.d(p[0], p[|p| - 1]) <= Sum(n.cost, p)
    ensures t.d(p[0], p[|p| - 1]) < INFINITY || (n.NonNegative() && Sum(n.cost, p) >= INFINITY)
  {
    if HasLight(n, p) {
      var q :| LightShortcut(n, p, q);
      LightPart(n, q, 0, |q|);
      assert q[0..|q|] == q;
      assert InteriorIn(q, s);
    }
  }

  // ------------------------------------------------- next hops never run in circles

  /** From `i` towards `j` the next hop is a real edge, does not overshoot the distance, adds
      exactly its ping to the bare distance, and is strictly closer to `j` in the order `rank`. */
  ghost predicate Descends(n: Net, t: View, s: set<Vertex>, rank: Rank, i: Vertex, j: Vertex) {
    && t.hop(i, j).Some?
    && var y := t.hop(i, j).value;
    && (i, y) in n.cost && t.d(y, j) < INFINITY
    && t.d(i, j) >= n.cost[(i, y)] + t.d(y, j)
    && (i, y) in n.ping && t.bare(i, j) == n.ping[(i, y)] + t.bare(y, j)
    && (y != j ==> y in s && rank(y, j) < rank(i, j))
  }

  ghost predicate Ranked(n: Net, t: View, s: set<Vertex>, rank: Rank, bound: nat) {
    && (forall i {:trigger t.bare(i, i)} :: i in n.vert ==> t.bare(i, i) == 0.0)
    && forall i, j {:trigger t.d(i, j)} ::
         i in n.vert && j in n.vert && i != j && t.d(i, j) < INFINITY ==>
           Descends(n, t, s, rank, i, j) && rank(i, j) < bound
  }

  /** Improved entries are ranked above all old ones of their column, in the order in
      which they lead to `k`. */
  ghost function Reranked(t: View, k: Vertex, rank: Rank, bound: nat): Rank {
    (i: Vertex, j: Vertex) => if Improves(t, k, i, j) then rank(i, k) + bound else rank(i, j)
  }

  ghost predicate PhaseSetting(n: Net, t: View, t': View, k: Vertex, s: set<Vertex>) {
    && n.Valid() && Tame(n) && k in n.vert && Phase(n, t, t', k)
    && Sound(n, t, s) && Clean(n, t) && Complete(n, t, s)
    && Sound(n, t', s + {k}) && Clean(n, t') && Complete(n, t', s + {k})
  }

  /** One edge followed by a table entry is a walk, so the table is no worse. */
  lemma EdgeThenEntry(n: Net, t: View, s: set<Vertex>, x: Vertex, y: Vertex, k: Vertex)
    requires n.Valid() && Tame(n) && Sound(n, t, s) && Clean(n, t) && Complete(n, t, s)
    requires (x, y) in n.cost && k in n.vert && (y in s || y == k) && t.d(y, k) < INFINITY
    ensures t.d(x, k) <= n.cost[(x, y)] + t.d(y, k)
    ensures t.d(x, k) < INFINITY || (n.NonNegative() && n.cost[(x, y)] + t.d(y, k) >= INFINITY)
  {
    var q := [k];
    if y != k {
      q := WalkOf(n, t, s, y, k);
    }
    PrependEdge(n, x, q, s);
    TameBound(n, t, s, [x] + q);
  }

  /** If the hop of an old entry was improved through `k`, so was the entry itself. */
  lemma ImprovementSpreads(n: Net, t: View, t': View, k: Vertex, s: set<Vertex>, rank: Rank, x: Vertex, j: Vertex)
    requires PhaseSetting(n, t, t', k, s)
    requires x in n.vert && j in n.vert && x != j && t.d(x, j) < INFINITY && Descends(n, t, s, rank, x, j)
    requires t.hop(x, j).value != j && Improves(t, k, t.hop(x, j).value, j)
    ensures Improves(t, k, x, j)
  {
    var y := t.hop(x, j).value;
    EdgeThenEntry(n, t, s, x, y, k);
    if n.NonNegative() {
      EntryNonNegative(n, t, s, k, j);
    }
  }

  lemma EntryNonNegative(n: Net, t: View, s: set<Vertex>, i: Vertex, j: Vertex)
    requires n.NonNegative() && Sound(n, t, s) && i in n.vert && j in n.vert
    ensures t.d(i, j) >= 0.0
  {
    if t.d(i, j) < INFINITY {
      var p := WalkOf(n, t, s, i, j);
      SumNonNegative(n, p);
    }
  }

  /** If an entry is improved through `k`, so is that of its next hop towards `k`. */
  lemma ImprovementFollows(n: Net, t: View, t': View, k: Vertex, s: set<Vertex>, rank: Rank, i: Vertex, j: Vertex)
    requires PhaseSetting(n, t, t', k, s) && {i, j} <= n.vert && Improves(t, k, i, j)
    requires Descends(n, t, s, rank, i, k) && t.hop(i, k).value != k
    ensures Improves(t, k, t.hop(i, k).value, j)
  {
    var y := t.hop(i, k).value;
    assert Relaxed(t, t', k, y, j);
    if !Improves(t, k, y, j) {
      if t.d(y, j) >= INFINITY {
        EntryThenEntry(n, t', s + {k}, t, s, y, k, j);
      } else {
        EdgeThenEntry(n, t, s, i, y, j);
      }
    }
  }

  /** The hop of an improved entry: towards `k`, still finite, and not overshooting. */
  lemma ImprovedHop(n: Net, t: View, t': View, k: Vertex, s: set<Vertex>, rank: Rank, i: Vertex, j: Vertex)
    requires PhaseSetting(n, t, t', k, s) && {i, j} <= n.vert && Improves(t, k, i, j)
    requires Descends(n, t, s, rank, i, k)
    ensures var y := t.hop(i, k).value;
            t'.d(y, j) < INFINITY && t'.d(i, j) >= n.cost[(i, y)] + t'.d(y, j)
  {
    var y := t.hop(i, k).value;
    assert Relaxed(t, t', k, i, j) && Relaxed(t, t', k, y, j);
    if t'.d(y, j) >= INFINITY {
      EntryThenEntry(n, t', s + {k}, t, s, y, k, j);
    }
  }

  /** The bare distance of an improved entry is the ping of its hop plus that of the rest. */
  lemma ImprovedBare(n: Net, t: View, t': View, k: Vertex, s: set<Vertex>, rank: Rank, i: Vertex, j: Vertex)
    requires PhaseSetting(n, t, t', k, s) && {i, j} <= n.vert && Improves(t, k, i, j)
    requires Descends(n, t, s, rank, i, k) && t.bare(k, k) == 0.0 && t.d(k, k) == 0.0
    ensures var y := t.hop(i, k).value; t'.bare(i, j) == n.ping[(i, y)] + t'.bare(y, j)
  {
    var y := t.hop(i, k).value;
    assert Relaxed(t, t', k, i, j) && Relaxed(t, t', k, y, j);
    if y != k {
      ImprovementFollows(n, t, t', k, s, rank, i, j);
    }
  }

  /** The diagonal stays as it is. */
  lemma DiagonalIsKept(n: Net, t: View, t': View, k: Vertex, s: set<Vertex>, i: Vertex)
    requires PhaseSetting(n, t, t', k, s) && i in n.vert
    ensures !Improves(t, k, i, i) && SameEntry(t, t', i, i)
  {
    assert Relaxed(t, t', k, i, i);
    DiagonalIsZero(n, t, s, i);
    DiagonalIsZero(n, t', s + {k}, i);
  }

  /** The entry that a phase improves again descends: towards `k` first, then as before. */
  lemma ImprovedDescends(n: Net, t: View, t': View, k: Vertex, s: set<Vertex>, rank: Rank, bound: nat, i: Vertex,
                         j: Vertex)
    requires Ranked(n, t, s, rank, bound) && Phase(n, t, t', k) && t.d(k, k) == 0.0
    requires i in n.vert && j in n.vert && i != j && Improves(t, k, i, j)
    requires i != k && Descends(n, t, s, rank, i, k) && t.hop(i, k).value in n.vert
    requires var y := t.hop(i, k).value;
             && t'.d(y, j) < INFINITY && t'.d(i, j) >= n.cost[(i, y)] + t'.d(y, j)
             && t'.bare(i, j) == n.ping[(i, y)] + t'.bare(y, j)
    ensures Descends(n, t', s + {k}, Reranked(t, k, rank, bound), i, j)
  {
    assert Relaxed(t, t', k, i, j);
    var y := t.hop(i, k).value;
    if y != j && !Improves(t, k, y, j) {
      assert Relaxed(t, t', k, y, j);
      assert Descends(n, t, s, rank, y, j) && rank(y, j) < bound;
    }
  }

  /** Two entries in a row are a walk through `k`. */
  lemma EntryThenEntry(n: Net, t': View, s': set<Vertex>, t: View, s: set<Vertex>, y: Vertex, k: Vertex, j: Vertex)
    requires Tame(n) && Sound(n, t', s') && Complete(n, t', s') && Sound(n, t, s) && s' == s + {k}
    requires {y, k, j} <= n.vert && t.d(y, k) < INFINITY && t.d(k, j) < INFINITY
    ensures t'.d(y, j) < INFINITY || (n.NonNegative() && t.d(y, k) + t.d(k, j) >= INFINITY)
  {
    var p := WalkOf(n, t, s, y, k);
    var q := WalkOf(n, t, s, k, j);
    GlueIsWalk(n, p, q, s);
    GlueSum(n.cost, p, q);
    TameBound(n, t', s', Glue(p, q));
  }

  lemma DiagonalIsZero(n: Net, t: View, s: set<Vertex>, k: Vertex)
    requires Sound(n, t, s) && Clean(n, t) && k in n.vert
    ensures t.d(k, k) == 0.0
  {
  }

  lemma RankedEntry(n: Net, t: View, s: set<Vertex>, rank: Rank, bound: nat, i: Vertex, j: Vertex)
    requires n.Valid() && Ranked(n, t, s, rank, bound) && {i, j} <= n.vert && i != j && t.d(i, j) < INFINITY
    ensures Descends(n, t, s, rank, i, j) && rank(i, j) < bound && t.hop(i, j).value in n.vert
  {
  }

  lemma ImprovedRank(n: Net, t: View, t': View, k: Vertex, s: set<Vertex>, rank: Rank, bound: nat, i: Vertex, j: Vertex)
    requires PhaseSetting(n, t, t', k, s) && Ranked(n, t, s, rank, bound)
    requires i in n.vert && j in n.vert && i != j && Improves(t, k, i, j)
    ensures Descends(n, t', s + {k}, Reranked(t, k, rank, bound), i, j) && Reranked(t, k, rank, bound)(i, j) < 2 * bound
  {
    DiagonalIsZero(n, t, s, k);
    RankedEntry(n, t, s, rank, bound, i, k);
    ImprovedHop(n, t, t', k, s, rank, i, j);
    ImprovedBare(n, t, t', k, s, rank, i, j);
    ImprovedDescends(n, t, t', k, s, rank, bound, i, j);
  }

  lemma KeptRank(n: Net, t: View, t': View, k: Vertex, s: set<Vertex>, rank: Rank, bound: nat, i: Vertex, j: Vertex)
    requires PhaseSetting(n, t, t', k, s) && Ranked(n, t, s, rank, bound)
    requires i in n.vert && j in n.vert && i != j && t'.d(i, j) < INFINITY && !Improves(t, k, i, j)
    ensures Descends(n, t', s + {k}, Reranked(t, k, rank, bound), i, j) && Reranked(t, k, rank, bound)(i, j) < 2 * bound
  {
    assert Relaxed(t, t', k, i, j);
    assert Descends(n, t, s, rank, i, j) && rank(i, j) < bound;
    var y := t.hop(i, j).value;
    assert Relaxed(t, t', k, y, j);
    if y == j {
      DiagonalIsKept(n, t, t', k, s, j);
    } else if Improves(t, k, y, j) {
      ImprovementSpreads(n, t, t', k, s, rank, i, j);
    }
  }

  lemma PhaseRanked(n: Net, t: View, t': View, k: Vertex, s: set<Vertex>, rank: Rank, bound: nat)
    requires PhaseSetting(n, t, t', k, s) && Ranked(n, t, s, rank, bound)
    ensures Ranked(n, t', s + {k}, Reranked(t, k, rank, bound), 2 * bound)
  {
    var rank' := Reranked(t, k, rank, bound);
    forall i | i in n.vert
      ensures t'.bare(i, i) == 0.0
    {
      DiagonalIsKept(n, t, t', k, s, i);
    }
    forall i, j | i in n.vert && j in n.vert && i != j && t'.d(i, j) < INFINITY
      ensures Descends(n, t', s + {k}, rank', i, j) && rank'(i, j) < 2 * bound
    {
      if Improves(t, k, i, j) {
        ImprovedRank(n, t, t', k, s, rank, bound, i, j);
      } else {
        KeptRank(n, t, t', k, s, rank, bound, i, j);
      }
    }
  }

  // ------------------------------------------------- before the first phase

  ghost predicate InitialEntry(n: Net, i: Vertex, j: Vertex, d: real, bare: real, hop: Option<Vertex>)
    requires n.Valid()
  {
    if (i, j) in n.cost then
      d == n.cost[(i, j)] && bare == n.ping[(i, j)] && hop == Some(j)
    else
      d == bare == (if i == j then 0.0 else INFINITY) && hop == None
  }

  ghost predicate Initial(n: Net, t: View)
    requires n.Valid()
  {
    forall i, j {:trigger t.d(i, j)} :: i in n.vert && j in n.vert ==>
      InitialEntry(n, i, j, t.d(i, j), t.bare(i, j), t.hop(i, j))
  }

  ghost function NoRank(): Rank {
    (i: Vertex, j: Vertex) => 0
  }

  lemma InitialSound(n: Net, t: View)
    requires n.Valid() && Initial(n, t)
    ensures Sound(n, t, {})
  {
    forall i, j | i in n.vert && j in n.vert
      ensures SoundAt(n, t, {}, i, j)
    {
      if i == j {
        assert Realises(n, {}, i, j, 0.0, 0.0, t.hop(i, j), [i]);
      } else if (i, j) in n.cost {
        SumOfEdge(n.cost, i, j);
        SumOfEdge(n.ping, i, j);
        assert Realises(n, {}, i, j, n.cost[(i, j)], n.ping[(i, j)], Some(j), [i, j]);
      }
    }
  }

  lemma InitialComplete(n: Net, t: View)
    requires n.Valid() && Initial(n, t)
    ensures Complete(n, t, {})
  {
  }

  lemma InitialInvariant(n: Net, t: View)
    requires n.Valid() && Initial(n, t)
    ensures Sound(n, t, {}) && Complete(n, t, {}) && Ranked(n, t, {}, NoRank(), 1)
  {
    InitialSound(n, t);
    InitialComplete(n, t);
    forall i | i in n.vert
      ensures t.bare(i, i) == 0.0
    {
      assert InitialEntry(n, i, i, t.d(i, i), t.bare(i, i), t.hop(i, i));
    }
  }

  // ------------------------------------------------- all phases

  /** The tables after the phases of `order`, one after the other. */
  ghost predicate Ran(n: Net, order: seq<Vertex>, t: View)
    requires n.Valid()
    decreases |order|
  {
    if order == [] then Initial(n, t)
    else exists before :: RanTo(n, order, before, t)
  }

  ghost predicate RanTo(n: Net, order: seq<Vertex>, before: View, t: View)
    requires n.Valid() && order != []
    decreases |order|, 0
  {
    Ran(n, order[..|order| - 1], before) && Phase(n, before, t, order[|order| - 1])
  }

  lemma RanOneMore(n: Net, order: seq<Vertex>, before: View, t: View, k: Vertex)
    requires n.Valid() && Ran(n, order, before) && Phase(n, before, t, k)
    ensures Ran(n, order + [k], t)
  {
    assert (order + [k])[..|order|] == order;
    assert RanTo(n, order + [k], before, t);
  }

  /** Every vertex of `vert` occurs in `order`, once. */
  ghost predicate Enumerates(order: seq<Vertex>, vert: set<Vertex>) {
    Simple(order) && forall v :: v in order <==> v in vert
  }

  /** The tables are those after all phases, in some order of the vertices. */
  ghost predicate RanInOrder(n: Net, t: View)
    requires n.Valid()
  {
    exists order :: Enumerates(order, n.vert) && Ran(n, order, t)
  }

  // ------------------------------------------------- after the last phase

  /** What a run that ends without a negative diagonal entry delivers. */
  ghost predicate Routes(n: Net, t: View) {
    && n.Valid() && RanInOrder(n, t)
    && Sound(n, t, n.vert) && Clean(n, t) && Complete(n, t, n.vert)
    && (Tame(n) ==> exists rank, bound :: Ranked(n, t, n.vert, rank, bound))
  }

  lemma InteriorOfWalk(n: Net, p: seq<Vertex>)
    requires Walk(n, p)
    ensures InteriorIn(p, n.vert)
  {
  }

  lemma NonNegativeIsClean(n: Net, t: View)
    requires n.NonNegative() && Sound(n, t, n.vert)
    ensures Clean(n, t)
  {
    forall i | i in n.vert
      ensures t.d(i, i) >= 0.0
    {
      EntryNonNegative(n, t, n.vert, i, i);
    }
  }

  ghost predicate NegativeCycle(n: Net, p: seq<Vertex>) {
    Walk(n, p) && p[0] == p[|p| - 1] && Sum(n.cost, p) < 0.0
  }

  /** The diagonal test is exact: it fires only on a real negative cycle, and if simple
      paths stay below Infinity it misses none. */
  lemma NegativeCycleTest(n: Net, t: View)
    requires Sound(n, t, n.vert) && (Clean(n, t) ==> Complete(n, t, n.vert))
    ensures !Clean(n, t) ==> exists p :: NegativeCycle(n, p)
    ensures Clean(n, t) && SimpleSumsBelowInfinity(n) ==> NoNegativeCycle(n)
  {
    if i :| i in n.vert && t.d(i, i) < 0.0 {
      var p := WalkOf(n, t, n.vert, i, i);
      assert NegativeCycle(n, p);
    }
    if Clean(n, t) && SimpleSumsBelowInfinity(n) {
      forall p | Walk(n, p) && p[0] == p[|p| - 1]
        ensures Sum(n.cost, p) >= 0.0
      {
        if Sum(n.cost, p) < 0.0 {
          var q := TightCycle(n, p);
          TightCycleIsLight(n, q);
          InteriorOfWalk(n, q);
        }
      }
    }
  }

  /** A negative cycle contains one that repeats no vertex but its end. */
  lemma {:induction false} TightCycle(n: Net, p: seq<Vertex>) returns (q: seq<Vertex>)
    requires NegativeCycle(n, p)
    ensures NegativeCycle(n, q) && Simple(q[1..])
    decreases |p|
  {
    if Simple(p[1..]) {
      q := p;
    } else {
      var a, b :| 0 <= a < b < |p[1..]| && p[1..][a] == p[1..][b];
      a, b := a + 1, b + 1;
      SumWithoutLoop(n.cost, p, a, b);
      CutIsWalk(n, p, a, b);
      PartIsWalk(n, p, a, b + 1);
      if Sum(n.cost, p[a..b + 1]) < 0.0 {
        q := TightCycle(n, p[a..b + 1]);
      } else {
        q := TightCycle(n, p[..a + 1] + p[b + 1..]);
      }
    }
  }

  lemma TightCycleIsLight(n: Net, q: seq<Vertex>)
    requires NegativeCycle(n, q) && Simple(q[1..]) && SimpleSumsBelowInfinity(n)
    ensures Light(n, q)
  {
    forall a, b | 0 <= a <= b <= |q|
      ensures Sum(n.cost, q[a..b]) < INFINITY
    {
      if a == 0 && b == |q| {
        assert q[a..b] == q;
      } else if a < b {
        PartIsWalk(n, q, a, b);
        assert Simple(q[a..b]) by {
          forall c, d | 0 <= c < d < b - a
            ensures q[a..b][c] != q[a..b][d]
          {
            if a + c > 0 {
              assert q[a..b][c] == q[1..][a + c - 1] && q[a..b][d] == q[1..][a + d - 1];
            } else {
              assert q[0] == q[1..][|q| - 2] && q[a..b][d] == q[1..][d - 1];
            }
          }
        }
      }
    }
  }

  // ------------------------------------------------- following the table

  /** `p` is what following the next hops from `u` towards `v` visits. */
  ghost predicate Chain(hop: (Vertex, Vertex) -> Option<Vertex>, p: seq<Vertex>, u: Vertex, v: Vertex) {
    && p != [] && p[0] == u && p[|p| - 1] == v
    && forall a, b :: 0 <= a && b == a + 1 < |p| ==> Link(hop, p[a], p[b], v)
  }

  ghost predicate Link(hop: (Vertex, Vertex) -> Option<Vertex>, x: Vertex, y: Vertex, v: Vertex) {
    x != v && hop(x, v) == Some(y)
  }

  /** The next hop lies on a shortest path: the distance equation holds with equality. */
  lemma NextHopIsTight(n: Net, t: View, rank: Rank, bound: nat, i: Vertex, j: Vertex)
    requires n.Valid() && Routes(n, t) && Tame(n) && Ranked(n, t, n.vert, rank, bound)
    requires i in n.vert && j in n.vert && i != j && t.d(i, j) < INFINITY
    ensures Descends(n, t, n.vert, rank, i, j)
    ensures t.d(i, j) == n.cost[(i, t.hop(i, j).value)] + t.d(t.hop(i, j).value, j)
  {
    RankedEntry(n, t, n.vert, rank, bound, i, j);
    EdgeThenEntry(n, t, n.vert, i, t.hop(i, j).value, j);
  }

  /** Following the next hops reaches the destination over real edges, and their weights
      sum to exactly the distance, zero-weight cycles and ties included. */
  lemma {:induction false} TableWalk(n: Net, t: View, rank: Rank, bound: nat, i: Vertex, j: Vertex)
    returns (p: seq<Vertex>)
    requires n.Valid() && Routes(n, t) && Tame(n) && Ranked(n, t, n.vert, rank, bound)
    requires i in n.vert && j in n.vert && t.d(i, j) < INFINITY
    ensures Chain(t.hop, p, i, j) && Walk(n, p)
    ensures Sum(n.cost, p) == t.d(i, j) && Sum(n.ping, p) == t.bare(i, j)
    decreases if i == j then 0 else rank(i, j) + 1
  {
    if i == j {
      p := [i];
    } else {
      NextHopIsTight(n, t, rank, bound, i, j);
      var y := t.hop(i, j).value;
      var q := TableWalk(n, t, rank, bound, y, j);
      InteriorOfWalk(n, q);
      PrependEdge(n, i, q, n.vert);
      ChainPrepend(t.hop, i, q, j);
      p := [i] + q;
    }
  }

  lemma ChainPrepend(hop: (Vertex, Vertex) -> Option<Vertex>, u: Vertex, q: seq<Vertex>, v: Vertex)
    requires q != [] && Chain(hop, q, q[0], v) && u != v && hop(u, v) == Some(q[0])
    ensures Chain(hop, [u] + q, u, v)
  {
  }

  lemma RoutesReach(n: Net, t: View, i: Vertex, j: Vertex) returns (p: seq<Vertex>)
    requires n.Valid() && Routes(n, t) && Tame(n) && i in n.vert && j in n.vert && t.d(i, j) < INFINITY
    ensures Chain(t.hop, p, i, j) && Walk(n, p)
    ensures Sum(n.cost, p) == t.d(i, j) && Sum(n.ping, p) == t.bare(i, j)
  {
    var rank, bound :| Ranked(n, t, n.vert, rank, bound);
    p := TableWalk(n, t, rank, bound, i, j);
  }

  /** Every distance is the minimum over all walks, or Infinity when no walk costs less. The
      route that the next hops follow is one of the cheapest walks, and the bare distance is
      the sum of its pings. */
  lemma ShortestPaths(n: Net, t: View, i: Vertex, j: Vertex)
    requires Routes(n, t) && Tame(n) && i in n.vert && j in n.vert
    ensures forall p :: WalkBetween(n, p, i, j) ==> t.d(i, j) <= Sum(n.cost, p)
    ensures t.d(i, j) < INFINITY ==>
      exists p :: Chain(t.hop, p, i, j) && Walk(n, p) && Sum(n.cost, p) == t.d(i, j) && Sum(n.ping, p) == t.bare(i, j)
    ensures t.d(i, j) >= INFINITY ==> t.d(i, j) == INFINITY
  {
    forall p | WalkBetween(n, p, i, j)
      ensures t.d(i, j) <= Sum(n.cost, p)
    {
      InteriorOfWalk(n, p);
      TameBound(n, t, n.vert, p);
    }
    if t.d(i, j) < INFINITY {
      var p := RoutesReach(n, t, i, j);
    }
  }

  /** The same with signed one-way latencies: the diagonal test has already excluded negative
      cycles, so it is enough that simple paths stay below Infinity. */
  lemma SignedShortestPaths(n: Net, t: View, i: Vertex, j: Vertex)
    requires Routes(n, t) && SimpleSumsBelowInfinity(n) && i in n.vert && j in n.vert
    ensures NoNegativeCycle(n) && Tame(n)
    ensures forall p :: WalkBetween(n, p, i, j) ==> t.d(i, j) <= Sum(n.cost, p)
    ensures t.d(i, j) < INFINITY ==>
      exists p :: Chain(t.hop, p, i, j) && Walk(n, p) && Sum(n.cost, p) == t.d(i, j) && Sum(n.ping, p) == t.bare(i, j)
  {
    NegativeCycleTest(n, t);
    SignedIsTame(n);
    ShortestPaths(n, t, i, j);
  }

  /** A chain that came back to a vertex would never arrive. */
  lemma {:induction false} ChainNeverReturns(hop: (Vertex, Vertex) -> Option<Vertex>, p: seq<Vertex>, u: Vertex,
                                             v: Vertex, a: nat, b: nat)
    requires Chain(hop, p, u, v) && a < b < |p|
    ensures p[a] != p[b]
    decreases |p| - b
  {
    if p[a] == p[b] {
      assert Link(hop, p[a], p[a + 1], v);
      if b + 1 < |p| {
        assert Link(hop, p[b], p[b + 1], v);
        ChainNeverReturns(hop, p, u, v, a + 1, b + 1);
      }
    }
  }

  lemma ChainGoesOn(hop: (Vertex, Vertex) -> Option<Vertex>, p: seq<Vertex>, u: Vertex, v: Vertex, k: nat)
    requires Chain(hop, p, u, v) && k < |p|
    ensures k < |p| - 1 ==> p[k] != v && hop(p[k], v) == Some(p[k + 1])
  {
  }

  lemma ChainWithoutFirst(hop: (Vertex, Vertex) -> Option<Vertex>, p: seq<Vertex>, u: Vertex, v: Vertex)
    requires Chain(hop, p, u, v) && |p| > 1
    ensures Chain(hop, p[1..], p[1], v) && Link(hop, u, p[1], v)
  {
    forall a, b | 0 <= a && b == a + 1 < |p[1..]|
      ensures Link(hop, p[1..][a], p[1..][b], v)
    {
      assert Link(hop, p[a + 1], p[b + 1], v);
    }
    assert Link(hop, p[0], p[1], v);
  }

  /** `path` is as far as one gets from `u` towards `v` before visiting `cur`. */
  ghost predicate ChainPrefix(hop: (Vertex, Vertex) -> Option<Vertex>, path: seq<Vertex>, cur: Vertex, u: Vertex,
                              v: Vertex) {
    && (path + [cur])[0] == u
    && forall a, b :: 0 <= a && b == a + 1 <= |path| ==> Link(hop, path[a], (path + [cur])[b], v)
  }

  lemma {:induction false} PrefixOfChain(hop: (Vertex, Vertex) -> Option<Vertex>, path: seq<Vertex>, cur: Vertex,
                                         u: Vertex, v: Vertex, p: seq<Vertex>, k: nat)
    requires ChainPrefix(hop, path, cur, u, v) && Chain(hop, p, u, v) && k <= |path|
    ensures k < |p| && p[k] == (path + [cur])[k]
  {
    if k > 0 {
      PrefixOfChain(hop, path, cur, u, v, p, k - 1);
      assert Link(hop, path[k - 1], (path + [cur])[k], v);
      assert p[k - 1] != v;
      assert Link(hop, p[k - 1], p[k], v);
    }
  }

  /** Following the table is deterministic: there is at most one chain. */
  lemma ChainIsUnique(hop: (Vertex, Vertex) -> Option<Vertex>, p: seq<Vertex>, q: seq<Vertex>, u: Vertex, v: Vertex)
    requires Chain(hop, p, u, v) && Chain(hop, q, u, v)
    ensures p == q
  {
    var path, cur := p[..|p| - 1], p[|p| - 1];
    assert path + [cur] == p;
    assert ChainPrefix(hop, path, cur, u, v);
    PrefixOfChain(hop, path, cur, u, v, q, |path|);
    forall k | 0 <= k < |p|
      ensures k < |q| && q[k] == p[k]
    {
      PrefixOfChain(hop, path, cur, u, v, q, k);
    }
    if |q| > |p| {
      ChainGoesOn(hop, q, u, v, |p| - 1);
    }
  }

  /** Reaching a vertex twice, or one without an entry, means that no chain exists. */
  lemma StuckPrefix(hop: (Vertex, Vertex) -> Option<Vertex>, path: seq<Vertex>, cur: Vertex, u: Vertex, v: Vertex)
    requires ChainPrefix(hop, path, cur, u, v) && cur != v && (cur in path || hop(cur, v) == None)
    ensures !exists p :: Chain(hop, p, u, v)
  {
    forall p
      ensures !Chain(hop, p, u, v)
    {
      if Chain(hop, p, u, v) {
        var k := |path|;
        PrefixOfChain(hop, path, cur, u, v, p, k);
        if hop(cur, v) == None {
          ChainGoesOn(hop, p, u, v, k);
        } else {
          var a :| 0 <= a < |path| && path[a] == cur;
          PrefixOfChain(hop, path, cur, u, v, p, a);
          ChainNeverReturns(hop, p, u, v, a, k);
        }
      }
    }
  }

  /** A path that the table yields is a real walk; its weights sum to the distance, its pings
      to the distance without additional cost. */
  lemma PathIsShortest(n: Net, t: View, i: Vertex, j: Vertex, path: seq<Vertex>)
    requires n.Valid() && Routes(n, t) && Tame(n) && i in n.vert && j in n.vert && t.d(i, j) < INFINITY
    requires Chain(t.hop, path, i, j)
    ensures Walk(n, path) && Sum(n.cost, path) == t.d(i, j) && Sum(n.ping, path) == t.bare(i, j)
  {
    var p := RoutesReach(n, t, i, j);
    ChainIsUnique(t.hop, p, path, i, j);
  }
}
