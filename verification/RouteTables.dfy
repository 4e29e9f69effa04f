/** The in-place triple loop of `FloydWarshall` over the three nested tables. */
module RouteTables {
  import opened Walks
  import opened Wrappers
  import opened FloydWarshall

  type DistTable = map<Vertex, map<Vertex, real>>
  type NextHopTable = map<Vertex, map<Vertex, Vertex>>

  datatype Tables = Tables(dist: DistTable, noAC: DistTable, next: NextHopTable)

  ghost function At(d: DistTable, i: Vertex, j: Vertex): real {
    if i in d && j in d[i] then d[i][j] else INFINITY
  }

  ghost function Hop(next: NextHopTable, i: Vertex, j: Vertex): Option<Vertex> {
    if i in next && j in next[i] then Some(next[i][j]) else None
  }

  ghost function Hops(next: NextHopTable): (Vertex, Vertex) -> Option<Vertex> {
    (i: Vertex, j: Vertex) => Hop(next, i, j)
  }

  ghost function ViewOf(t: Tables): View {
    View((i: Vertex, j: Vertex) => At(t.dist, i, j), (i: Vertex, j: Vertex) => At(t.noAC, i, j), Hops(t.next))
  }

  ghost predicate Has<T>(m: map<Vertex, map<Vertex, T>>, i: Vertex, j: Vertex) {
    i in m && j in m[i]
  }

  /** Both distance tables have an entry for every pair; the next-hop table has a row for
      every vertex and no entry for anything else. */
  ghost predicate Shape(vert: set<Vertex>, t: Tables) {
    && (forall i, j {:trigger Has(t.dist, i, j)} :: i in vert && j in vert <==> Has(t.dist, i, j))
    && (forall i, j {:trigger Has(t.noAC, i, j)} :: i in vert && j in vert <==> Has(t.noAC, i, j))
    && (forall i :: i in vert <==> i in t.next)
    && (forall i, j {:trigger Has(t.next, i, j)} :: Has(t.next, i, j) ==> i in vert && j in vert)
  }

  function Put<T>(m: map<Vertex, map<Vertex, T>>, i: Vertex, j: Vertex, x: T): map<Vertex, map<Vertex, T>>
    requires i in m
  {
    m[i := m[i][j := x]]
  }

  lemma PutHas<T>(m: map<Vertex, map<Vertex, T>>, i: Vertex, j: Vertex, x: T)
    requires i in m
    ensures forall a, b :: Has(Put(m, i, j, x), a, b) <==> Has(m, a, b) || (a == i && b == j)
  {
  }

  /** The three assignments of an improving relaxation. */
  function Assigned(t: Tables, k: Vertex, i: Vertex, j: Vertex): Tables
    requires Has(t.dist, i, k) && Has(t.dist, k, j) && Has(t.noAC, i, k) && Has(t.noAC, k, j) && Has(t.next, i, k)
  {
    Tables(Put(t.dist, i, j, t.dist[i][k] + t.dist[k][j]),
           Put(t.noAC, i, j, t.noAC[i][k] + t.noAC[k][j]),
           Put(t.next, i, j, t.next[i][k]))
  }

  lemma AssignedEntries(vert: set<Vertex>, t: Tables, k: Vertex, i: Vertex, j: Vertex)
    requires Shape(vert, t) && i in vert && j in vert && k in vert && Has(t.next, i, k)
    requires Has(t.dist, i, k) && Has(t.dist, k, j) && Has(t.noAC, i, k) && Has(t.noAC, k, j)
    requires Improves(ViewOf(t), k, i, j)
    ensures Shape(vert, Assigned(t, k, i, j))
    ensures Relaxed(ViewOf(t), ViewOf(Assigned(t, k, i, j)), k, i, j)
    ensures forall a, b :: a != i || b != j ==> SameEntry(ViewOf(t), ViewOf(Assigned(t, k, i, j)), a, b)
  {
    PutHas(t.dist, i, j, t.dist[i][k] + t.dist[k][j]);
    PutHas(t.noAC, i, j, t.noAC[i][k] + t.noAC[k][j]);
    PutHas(t.next, i, j, t.next[i][k]);
    AssignedView(t, k, i, j);
  }

  lemma AssignedView(t: Tables, k: Vertex, i: Vertex, j: Vertex)
    requires Has(t.dist, i, k) && Has(t.dist, k, j) && Has(t.noAC, i, k) && Has(t.noAC, k, j) && Has(t.next, i, k)
    requires Improves(ViewOf(t), k, i, j)
    ensures Relaxed(ViewOf(t), ViewOf(Assigned(t, k, i, j)), k, i, j)
    ensures forall a, b :: a != i || b != j ==> SameEntry(ViewOf(t), ViewOf(Assigned(t, k, i, j)), a, b)
  {
  }

  /** The relaxation of one pair. */
  method RelaxPair(t: Tables, k: Vertex, i: Vertex, j: Vertex, ghost n: Net, ghost s: set<Vertex>) returns (t': Tables)
    requires Shape(n.vert, t) && Sound(n, ViewOf(t), s) && k in s && {i, j, k} <= n.vert
    ensures Shape(n.vert, t') && Sound(n, ViewOf(t'), s)
    ensures Relaxed(ViewOf(t), ViewOf(t'), k, i, j)
    ensures forall a, b :: a != i || b != j ==> SameEntry(ViewOf(t), ViewOf(t'), a, b)
  {
    t' := t;
    assert Has(t.dist, i, k) && Has(t.dist, k, j) && Has(t.dist, i, j);
    assert Has(t.noAC, i, k) && Has(t.noAC, k, j);
    if t.dist[i][k] < INFINITY && t.dist[k][j] < INFINITY && t.dist[i][j] > t.dist[i][k] + t.dist[k][j] {
      assert Improves(ViewOf(t), k, i, j);
      assert Has(t.next, i, k) by { RelaxIsSound(n, ViewOf(t), s, k, i, j); }
      t' := Assigned(t, k, i, j);
      AssignedEntries(n.vert, t, k, i, j);
      RelaxKeepsSound(n, ViewOf(t), ViewOf(t'), s, k, i, j);
    }
  }

  /** How far row `i` of the phase of `k` has come when the columns in `rest` remain. */
  ghost predicate RowProgress(vert: set<Vertex>, t: View, t': View, k: Vertex, i: Vertex, rest: set<Vertex>) {
    && (forall a, b {:trigger SameEntry(t, t', a, b)} :: a != i || b in rest ==> SameEntry(t, t', a, b))
    && (forall b :: b in vert ==> t'.d(i, b) <= t.d(i, b))
    && (t.d(k, k) == 0.0 ==>
          forall b {:trigger Relaxed(t, t', k, i, b)} :: b in vert && b !in rest ==> Relaxed(t, t', k, i, b))
  }

  lemma RowStep(vert: set<Vertex>, t: View, m: View, t': View, k: Vertex, i: Vertex, j: Vertex, rest: set<Vertex>)
    requires {i, k} <= vert && rest <= vert && j in rest
    requires RowProgress(vert, t, m, k, i, rest)
    requires forall a, b {:trigger SameEntry(m, t', a, b)} :: a != i || b != j ==> SameEntry(m, t', a, b)
    requires Relaxed(m, t', k, i, j)
    ensures RowProgress(vert, t, t', k, i, rest - {j})
  {
    forall a, b | a != i || b in rest - {j}
      ensures SameEntry(t, t', a, b)
    {
      assert SameEntry(t, m, a, b) && SameEntry(m, t', a, b);
    }
    assert SameEntry(t, m, i, j);
    forall b | b in vert
      ensures t'.d(i, b) <= t.d(i, b)
    {
      assert b != j ==> SameEntry(m, t', i, b);
    }
    if t.d(k, k) == 0.0 {
      assert SameEntry(t, m, i, k) by {
        if k !in rest { assert Relaxed(t, m, k, i, k); }
      }
      assert SameEntry(t, m, k, j);
      forall b | b in vert && b !in rest - {j}
        ensures Relaxed(t, t', k, i, b)
      {
        if b != j {
          assert Relaxed(t, m, k, i, b) && SameEntry(m, t', i, b);
        }
      }
    }
  }

  /** Row `i` of the phase of `k`: one pass over all columns, in any order. */
  method RelaxRow(t: Tables, vert: set<Vertex>, k: Vertex, i: Vertex, ghost n: Net, ghost s: set<Vertex>)
    returns (t': Tables)
    requires vert == n.vert && Shape(vert, t) && Sound(n, ViewOf(t), s) && k in s && i in vert && k in vert
    ensures Shape(vert, t') && Sound(n, ViewOf(t'), s)
    ensures RowProgress(vert, ViewOf(t), ViewOf(t'), k, i, {})
  {
    t' := t;
    var rest := vert;
    while rest != {}
      invariant rest <= vert && Shape(vert, t') && Sound(n, ViewOf(t'), s)
      invariant RowProgress(vert, ViewOf(t), ViewOf(t'), k, i, rest)
    {
      var j :| j in rest;
      ghost var before := t';
      t' := RelaxPair(t', k, i, j, n, s);
      RowStep(vert, ViewOf(t), ViewOf(before), ViewOf(t'), k, i, j, rest);
      rest := rest - {j};
    }
  }

  /** How far the phase of `k` has come when the rows in `rest` remain. */
  ghost predicate PhaseProgress(vert: set<Vertex>, t: View, t': View, k: Vertex, rest: set<Vertex>) {
    && (forall a, b {:trigger SameEntry(t, t', a, b)} :: a in rest ==> SameEntry(t, t', a, b))
    && (forall a, b {:trigger t'.d(a, b)} :: a in vert && b in vert ==> t'.d(a, b) <= t.d(a, b))
    && (t.d(k, k) == 0.0 ==>
          forall a, b {:trigger Relaxed(t, t', k, a, b)} :: a in vert && a !in rest && b in vert ==>
            Relaxed(t, t', k, a, b))
  }

  lemma PhaseStep(vert: set<Vertex>, t: View, m: View, t': View, k: Vertex, i: Vertex, rest: set<Vertex>)
    requires k in vert && rest <= vert && i in rest
    requires PhaseProgress(vert, t, m, k, rest)
    requires RowProgress(vert, m, t', k, i, {})
    ensures PhaseProgress(vert, t, t', k, rest - {i})
  {
    forall a, b | a in rest - {i}
      ensures SameEntry(t, t', a, b)
    {
      assert SameEntry(t, m, a, b) && SameEntry(m, t', a, b);
    }
    forall a, b | a in vert && b in vert
      ensures t'.d(a, b) <= t.d(a, b)
    {
      assert m.d(a, b) <= t.d(a, b);
      assert a != i ==> SameEntry(m, t', a, b);
    }
    if t.d(k, k) == 0.0 {
      forall a, b | a in vert && a !in rest - {i} && b in vert
        ensures Relaxed(t, t', k, a, b)
      {
        if a != i {
          assert Relaxed(t, m, k, a, b) && SameEntry(m, t', a, b);
        } else {
          assert SameEntry(t, m, i, b) && SameEntry(t, m, i, k);
          RowOfPivot(vert, t, m, k, rest, b);
          RowOfPivot(vert, t, m, k, rest, k);
          assert Relaxed(m, t', k, i, b);
        }
      }
    }
  }

  /** With a zero diagonal the phase of `k` never changes row `k`. */
  lemma RowOfPivot(vert: set<Vertex>, t: View, m: View, k: Vertex, rest: set<Vertex>, b: Vertex)
    requires k in vert && b in vert && t.d(k, k) == 0.0 && PhaseProgress(vert, t, m, k, rest)
    ensures SameEntry(t, m, k, b)
  {
    if k !in rest {
      assert Relaxed(t, m, k, k, b);
    }
  }

  /** The phase of `k`: all rows, in any order, each in place. */
  method RelaxPhase(t: Tables, vert: set<Vertex>, k: Vertex, ghost n: Net, ghost s: set<Vertex>) returns (t': Tables)
    requires vert == n.vert && Shape(vert, t) && Sound(n, ViewOf(t), s) && k in s && k in vert
    ensures Shape(vert, t') && Sound(n, ViewOf(t'), s)
    ensures PhaseProgress(vert, ViewOf(t), ViewOf(t'), k, {})
  {
    t' := t;
    var rest := vert;
    while rest != {}
      invariant rest <= vert && Shape(vert, t') && Sound(n, ViewOf(t'), s)
      invariant PhaseProgress(vert, ViewOf(t), ViewOf(t'), k, rest)
    {
      var i :| i in rest;
      ghost var before := t';
      t' := RelaxRow(t', vert, k, i, n, s);
      PhaseStep(vert, ViewOf(t), ViewOf(before), ViewOf(t'), k, i, rest);
      rest := rest - {i};
    }
  }

  /** What holds between phases: `s` holds the vertices whose phase is over. */
  ghost predicate Between(n: Net, t: View, order: seq<Vertex>, s: set<Vertex>, rank: Rank, bound: nat)
    requires n.Valid()
  {
    && Enumerates(order, s) && Sound(n, t, s)
    && (Clean(n, t) ==> Ran(n, order, t) && Complete(n, t, s) && (Tame(n) ==> Ranked(n, t, s, rank, bound)))
  }

  lemma PhaseInvariant(n: Net, t: View, t': View, k: Vertex, order: seq<Vertex>, s: set<Vertex>, rank: Rank, bound: nat)
    returns (rank': Rank, bound': nat)
    requires n.Valid() && k in n.vert && k !in s && Between(n, t, order, s, rank, bound)
    requires Sound(n, t', s + {k}) && PhaseProgress(n.vert, t, t', k, {})
    ensures Between(n, t', order + [k], s + {k}, rank', bound')
  {
    rank', bound' := Reranked(t, k, rank, bound), 2 * bound;
    if Clean(n, t') {
      forall i | i in n.vert
        ensures t.d(i, i) >= 0.0
      {
        assert t'.d(i, i) <= t.d(i, i);
      }
      DiagonalIsZero(n, t, s, k);
      forall i, j | i in n.vert && j in n.vert
        ensures Relaxed(t, t', k, i, j)
      {
      }
      RanOneMore(n, order, t, t', k);
      PhaseComplete(n, t, t', k, s);
      if Tame(n) {
        PhaseRanked(n, t, t', k, s, rank, bound);
      }
    }
  }

  /** All phases, in any order of the vertices. */
  method RelaxAll(t: Tables, vert: set<Vertex>, ghost n: Net) returns (t': Tables)
    requires n.Valid() && vert == n.vert && Shape(vert, t) && Initial(n, ViewOf(t))
    ensures Shape(vert, t') && Sound(n, ViewOf(t'), vert)
    ensures Clean(n, ViewOf(t')) ==> Routes(n, ViewOf(t'))
  {
    t' := t;
    var rest := vert;
    ghost var order: seq<Vertex>, s: set<Vertex>, rank: Rank, bound: nat := [], {}, NoRank(), 1;
    InitialInvariant(n, ViewOf(t));
    while rest != {}
      invariant rest <= vert && s == vert - rest && Shape(vert, t')
      invariant Between(n, ViewOf(t'), order, s, rank, bound)
    {
      var k :| k in rest;
      ghost var before := ViewOf(t');
      SoundGrows(n, before, s, s + {k});
      t' := RelaxPhase(t', vert, k, n, s + {k});
      rank, bound := PhaseInvariant(n, before, ViewOf(t'), k, order, s, rank, bound);
      rest, s, order := rest - {k}, s + {k}, order + [k];
    }
    assert s == vert;
  }

  // ------------------------------------------------- what the installed table says

  /** `c` is the next hop of `id` for some destination. */
  ghost predicate IsNextHop(nh: NextHopTable, id: Vertex, c: Vertex) {
    exists d :: Hop(nh, id, d) == Some(c)
  }

  /** A relay at `self` hands a broadcast of `src` that came from `from` on to `c`. */
  ghost predicate RelaysTo(nh: NextHopTable, self: Vertex, from: Vertex, src: Vertex, c: Vertex) {
    && IsNextHop(nh, self, c) && c != from
    && exists p :: Chain(Hops(nh), p, src, c) && self in p
  }
}
