/** The routing graph `IG` of path.go: edges updated in place, tables recalculated and
    followed. Clock readings are arguments; every call sees one reading. */
module RouteGraph {
  import opened Walks
  import opened Wrappers
  import opened FloydWarshall
  import opened RouteTables
  import opened EdgeWeights

  datatype CalculationError = NoError | NegativeCycleDetected | DetectedAgain

  datatype PathError = CycleInTable | NoRow | NoEntry

  // ------------------------------------------------- first rows of the tables

  /** One row of each table while the neighbours in `todo` are still to be entered. */
  ghost predicate RowBegun(n: Net, u: Vertex, todo: set<Vertex>, d: map<Vertex, real>, b: map<Vertex, real>,
                           h: map<Vertex, Vertex>) {
    && (forall v :: v in n.vert <==> v in d) && (forall v :: v in n.vert <==> v in b)
    && (forall v :: v in h ==> v in n.vert)
    && forall v {:trigger d[v]} :: v in n.vert ==>
         if (u, v) in n.cost && v !in todo then
           v in h && h[v] == v && d[v] == n.cost[(u, v)] && (u, v) in n.ping && b[v] == n.ping[(u, v)]
         else
           v !in h && d[v] == b[v] == (if u == v then 0.0 else INFINITY)
  }

  /** Old pings of row `u` are settled except for `todo`; everything else is as before. */
  ghost predicate RowSettled(e: Edges, e': Edges, u: Vertex, todo: set<Vertex>, now: int) {
    forall x, y {:trigger LinkAt(e', x, y)} ::
      LinkAt(e', x, y) ==
        if LinkAt(e, x, y).Some? && x == u && y !in todo
        then Some(LinkAt(e, x, y).value.(pingOld := Weight(e, u, y, false, now))) else LinkAt(e, x, y)
  }

  /** Old pings are settled in all rows except `todo`. */
  ghost predicate RowsSettled(e: Edges, e': Edges, todo: set<Vertex>, now: int) {
    forall x, y {:trigger LinkAt(e', x, y)} ::
      LinkAt(e', x, y) ==
        if LinkAt(e, x, y).Some? && x !in todo
        then Some(LinkAt(e, x, y).value.(pingOld := Weight(e, x, y, false, now))) else LinkAt(e, x, y)
  }

  lemma RowSettledIsSame(e: Edges, e': Edges, u: Vertex, todo: set<Vertex>, now: int)
    requires RowSettled(e, e', u, todo, now)
    ensures SameLinks(e, e')
    ensures forall x, y, ac :: Weight(e', x, y, ac, now) == Weight(e, x, y, ac, now)
  {
  }

  /** The snapshot `n` shows the edge from `u` to `v` with its weights exactly if it is finite. */
  ghost predicate EdgeShown(n: Net, e: Edges, now: int, u: Vertex, v: Vertex) {
    if Finite(e, u, v, now) then
      && (u, v) in n.cost && n.cost[(u, v)] == Weight(e, u, v, true, now)
      && (u, v) in n.ping && n.ping[(u, v)] == Weight(e, u, v, false, now)
    else (u, v) !in n.cost
  }

  ghost predicate RowShown(n: Net, e: Edges, now: int, u: Vertex) {
    forall v {:trigger EdgeShown(n, e, now, u, v)} :: v in n.vert ==> EdgeShown(n, e, now, u, v)
  }

  lemma SnapshotShows(vert: set<Vertex>, e: Edges, now: int, u: Vertex)
    requires u in vert
    ensures RowShown(Snapshot(vert, e, now), e, now, u)
  {
  }

  function Neighbours(e: Edges, u: Vertex): set<Vertex> {
    if u in e then e[u].Keys else {}
  }

  ghost predicate IsLinked(n: Net, e: Edges, u: Vertex, todo: set<Vertex>) {
    forall v :: v in todo ==> LinkAt(e, u, v).Some? && v in n.vert
  }

  /** An edge that is not there is not in the snapshot either. */
  lemma RowAtFirst(vert: set<Vertex>, e: Edges, now: int, n: Net, u: Vertex, todo: set<Vertex>, d: map<Vertex, real>)
    requires n.vert == vert && RowShown(n, e, now, u) && ValidEdges(vert, e) && (forall v :: v in vert <==> v in d)
    requires forall v :: v in vert ==> d[v] == if u == v then 0.0 else INFINITY
    requires todo == Neighbours(e, u)
    ensures RowBegun(n, u, todo, d, d, map[]) && RowSettled(e, e, u, todo, now) && IsLinked(n, e, u, todo)
  {
    forall v | v in vert && v !in todo
      ensures (u, v) !in n.cost
    {
      assert EdgeShown(n, e, now, u, v);
    }
  }

  lemma OneNeighbour(e: Edges, e': Edges, now: int, n: Net, u: Vertex, v: Vertex, todo: set<Vertex>, w: real, wo: real)
    requires v in n.vert && RowShown(n, e, now, u) && LinkAt(e, u, v).Some? && RowSettled(e, e', u, todo, now)
    requires w == Weight(e', u, v, true, now) && wo == Weight(e', u, v, false, now)
    ensures wo == Weight(e, u, v, false, now)
    ensures if w < INFINITY then (u, v) in n.cost && n.cost[(u, v)] == w && (u, v) in n.ping && n.ping[(u, v)] == wo
            else (u, v) !in n.cost
  {
    RowSettledIsSame(e, e', u, todo, now);
    assert EdgeShown(n, e, now, u, v);
  }

  lemma RowBegunStep(n: Net, u: Vertex, v: Vertex, todo: set<Vertex>, w: real, wo: real,
                     d: map<Vertex, real>, b: map<Vertex, real>, h: map<Vertex, Vertex>)
    requires RowBegun(n, u, todo, d, b, h) && v in todo && v in n.vert
    requires if w < INFINITY then (u, v) in n.cost && n.cost[(u, v)] == w && (u, v) in n.ping && n.ping[(u, v)] == wo
             else (u, v) !in n.cost
    ensures w < INFINITY ==> RowBegun(n, u, todo - {v}, d[v := w], b[v := wo], h[v := v])
    ensures w >= INFINITY ==> RowBegun(n, u, todo - {v}, d, b, h)
  {
  }

  lemma RowSettledStep(e: Edges, e': Edges, u: Vertex, v: Vertex, todo: set<Vertex>, now: int)
    requires RowSettled(e, e', u, todo, now) && v in todo
    ensures RowSettled(e, WithOldWeight(e', u, v, Weight(e, u, v, false, now)), u, todo - {v}, now)
  {
    if LinkAt(e', u, v).Some? {
      ReplaceEntries(e', u, v, e'[u][v].(pingOld := Weight(e, u, v, false, now)));
    }
  }

  lemma RowsSettledStep(e: Edges, m: Edges, e': Edges, u: Vertex, todo: set<Vertex>, now: int)
    requires RowsSettled(e, m, todo, now) && RowSettled(m, e', u, {}, now) && u in todo
    ensures RowsSettled(e, e', todo - {u}, now)
  {
  }

  lemma AllRowsSettled(e: Edges, e': Edges, now: int)
    requires RowsSettled(e, e', {}, now)
    ensures SameLinks(e, e') && Settled(e', now)
  {
  }

  ghost predicate RowOf(n: Net, t: Tables, u: Vertex) {
    u in t.dist && u in t.noAC && u in t.next && RowBegun(n, u, {}, t.dist[u], t.noAC[u], t.next[u])
  }

  lemma RowsHaveShape(n: Net, t: Tables)
    requires RowsOf(n, t, n.vert)
    ensures Shape(n.vert, t)
  {
    forall i, j
      ensures i in n.vert && j in n.vert <==> Has(t.dist, i, j)
      ensures i in n.vert && j in n.vert <==> Has(t.noAC, i, j)
      ensures Has(t.next, i, j) ==> i in n.vert && j in n.vert
    {
      if i in n.vert { assert RowOf(n, t, i); }
    }
  }

  lemma RowIsInitial(n: Net, t: Tables, i: Vertex, j: Vertex)
    requires n.Valid() && RowOf(n, t, i) && j in n.vert
    ensures InitialEntry(n, i, j, ViewOf(t).d(i, j), ViewOf(t).bare(i, j), ViewOf(t).hop(i, j))
  {
  }

  lemma RowsMakeTables(n: Net, t: Tables)
    requires n.Valid() && RowsOf(n, t, n.vert)
    ensures Shape(n.vert, t) && Initial(n, ViewOf(t))
  {
    RowsHaveShape(n, t);
    forall i, j | i in n.vert && j in n.vert
      ensures InitialEntry(n, i, j, ViewOf(t).d(i, j), ViewOf(t).bare(i, j), ViewOf(t).hop(i, j))
    {
      assert RowOf(n, t, i);
      RowIsInitial(n, t, i, j);
    }
  }

  ghost predicate RowsOf(n: Net, t: Tables, done: set<Vertex>) {
    && (forall u :: u in t.dist || u in t.noAC || u in t.next ==> u in done)
    && (forall u :: u in done ==> RowOf(n, t, u))
  }

  lemma AddRow(n: Net, t: Tables, done: set<Vertex>, u: Vertex, d: map<Vertex, real>, b: map<Vertex, real>,
               h: map<Vertex, Vertex>)
    requires RowsOf(n, t, done) && RowBegun(n, u, {}, d, b, h)
    ensures RowsOf(n, Tables(t.dist[u := d], t.noAC[u := b], t.next[u := h]), done + {u})
  {
    var t' := Tables(t.dist[u := d], t.noAC[u := b], t.next[u := h]);
    forall x | x in done + {u}
      ensures RowOf(n, t', x)
    {
      assert x != u ==> RowOf(n, t, x);
    }
  }

  /** State of the initialisation when the rows in `rest` remain. */
  ghost predicate InitProgress(vert: set<Vertex>, e: Edges, e': Edges, now: int, n: Net, t: Tables, rest: set<Vertex>) {
    && ValidEdges(vert, e') && n == Snapshot(vert, e', now)
    && RowsOf(n, t, vert - rest) && RowsSettled(e, e', rest, now)
  }

  lemma InitStep(vert: set<Vertex>, e: Edges, m: Edges, e': Edges, now: int, n: Net, t: Tables, rest: set<Vertex>,
                 u: Vertex, d: map<Vertex, real>, b: map<Vertex, real>, h: map<Vertex, Vertex>)
    requires rest <= vert && u in rest && InitProgress(vert, e, m, now, n, t, rest)
    requires RowSettled(m, e', u, {}, now) && RowBegun(n, u, {}, d, b, h)
    ensures InitProgress(vert, e, e', now, n, Tables(t.dist[u := d], t.noAC[u := b], t.next[u := h]), rest - {u})
  {
    RowSettledIsSame(m, e', u, {}, now);
    SameLinksValid(vert, m, e');
    SameLinksSameSnapshot(vert, m, e', now);
    RowsSettledStep(e, m, e', u, rest, now);
    AddRow(n, t, vert - rest, u, d, b, h);
    assert vert - (rest - {u}) == vert - rest + {u};
  }

  lemma InitDone(vert: set<Vertex>, e: Edges, e': Edges, now: int, n: Net, t: Tables)
    requires InitProgress(vert, e, e', now, n, t, {})
    ensures n.Valid() && Shape(vert, t) && Initial(n, ViewOf(t))
    ensures SameLinks(e, e') && Settled(e', now)
  {
    SnapshotIsValid(vert, e', now);
    assert vert - {} == vert;
    RowsMakeTables(n, t);
    AllRowsSettled(e, e', now);
  }

  /** Negative values are removed in the rows outside `todo` and, in row `u`, outside `cols`. */
  ghost predicate FlooredSoFar(e: Edges, e': Edges, todo: set<Vertex>, u: Vertex, cols: set<Vertex>, now: int) {
    forall x, y {:trigger LinkAt(e', x, y)} ::
      LinkAt(e', x, y) == if x in todo || (x == u && y in cols) then LinkAt(e, x, y) else FlooredLink(e, x, y, now)
  }

  lemma FlooredStep(e: Edges, e': Edges, todo: set<Vertex>, u: Vertex, v: Vertex, cols: set<Vertex>, now: int)
    requires FlooredSoFar(e, e', todo, u, cols, now) && u !in todo && v in cols
    ensures Weight(e', u, v, true, now) == Weight(e, u, v, true, now)
    ensures FlooredSoFar(e, if Weight(e, u, v, true, now) < 0.0 then WithWeight(e', u, v, 0.0) else e',
                         todo, u, cols - {v}, now)
  {
    assert LinkAt(e', u, v) == LinkAt(e, u, v);
    if LinkAt(e', u, v).Some? {
      ReplaceEntries(e', u, v, e'[u][v].(ping := 0.0));
    }
  }

  lemma DiagonalFinding(n: Net, t: View)
    requires Sound(n, t, n.vert) && !Clean(n, t)
    ensures !n.NonNegative() && exists p :: NegativeCycle(n, p)
  {
    NegativeCycleTest(n, t);
    if n.NonNegative() {
      NonNegativeIsClean(n, t);
    }
  }

  /** What a calculation that starts on edges `e` and ends on edges `e'` promises: the
      tables are the routes of the graph as it is afterwards; a first pass that finds a
      negative cycle leaves non-negative weights; a second pass then finds none. */
  ghost predicate Calculated(vert: set<Vertex>, e: Edges, e': Edges, now: int, again: bool, t: Tables,
                             err: CalculationError) {
    && Settled(e', now)
    && (err != DetectedAgain ==> Shape(vert, t) && Routes(Snapshot(vert, e', now), ViewOf(t)))
    && (err == NoError ==> SameLinks(e, e'))
    && (err != NoError ==> exists p :: NegativeCycle(Snapshot(vert, e, now), p))
    && (err == NegativeCycleDetected ==> !again && Snapshot(vert, e', now).NonNegative() && FlooredLinks(e, e', now))
    && (err == DetectedAgain ==> again)
    && (Snapshot(vert, e, now).NonNegative() ==> err == NoError)
  }

  /** What a recalculation may do to the edges besides remembering their weights: nothing,
      unless there is a negative cycle. */
  ghost predicate Corrected(vert: set<Vertex>, e: Edges, e': Edges, now: int) {
    || SameLinks(e, e')
    || (FlooredLinks(e, e', now) && exists p :: NegativeCycle(Snapshot(vert, e, now), p))
  }

  /** The tables are the routes of the graph at `now`, and every edge remembers its weight. */
  ghost predicate RoutesOf(vert: set<Vertex>, e: Edges, now: int, t: Tables) {
    Settled(e, now) && Shape(vert, t) && Routes(Snapshot(vert, e, now), ViewOf(t))
  }

  lemma SecondPass(vert: set<Vertex>, e: Edges, floored: Edges, e': Edges, now: int, t: Tables,
                   second: CalculationError)
    requires exists e1 :: SameLinks(e, e1) && Floored(e1, floored, now)
    requires Snapshot(vert, floored, now).NonNegative() && Calculated(vert, floored, e', now, true, t, second)
    requires !Snapshot(vert, e, now).NonNegative() && exists p :: NegativeCycle(Snapshot(vert, e, now), p)
    ensures Calculated(vert, e, e', now, false, t, NegativeCycleDetected)
  {
    SameLinksSameSnapshot(vert, floored, e', now);
    var e1 :| SameLinks(e, e1) && Floored(e1, floored, now);
    FlooredBetween(e, e1, floored, e', now);
  }

  /** Why the walk along the table ended at `cur`, before `v`. */
  ghost predicate StoppedAt(nh: NextHopTable, path: seq<Vertex>, cur: Vertex, u: Vertex, v: Vertex, err: PathError) {
    && ChainPrefix(Hops(nh), path, cur, u, v) && cur != v
    && match err
       case CycleInTable => cur in path
       case NoRow => cur !in path && cur !in nh
       case NoEntry => cur !in path && cur in nh && v !in nh[cur]
  }

  function NextIn(nh: NextHopTable, u: Vertex, v: Vertex): Vertex {
    if u in nh && v in nh[u] then nh[u][v] else NODE_INVALID
  }

  /** Some entry of `next` is not what a lookup in `nh` yields. */
  ghost predicate SomeHopDiffers(next: NextHopTable, nh: NextHopTable) {
    exists u, v :: Has(next, u, v) && next[u][v] != NextIn(nh, u, v)
  }

  /** A next hop where there was none, or another one, is a change; entries that are gone are not. */
  lemma HopChanges(next: NextHopTable, nh: NextHopTable)
    ensures SomeHopDiffers(next, nh) <==>
      exists u, v {:trigger Has(next, u, v)} ::
        && Has(next, u, v)
        && if Has(nh, u, v) then next[u][v] != nh[u][v] else next[u][v] != NODE_INVALID
  {
    forall u, v
      ensures NextIn(nh, u, v) == if Has(nh, u, v) then nh[u][v] else NODE_INVALID
    {
    }
  }

  class Graph {
    const setting: Setting
    const superMode: bool
    const bucket: real -> real
    var vert: set<Vertex>
    var edges: Edges
    var recalculateTime: int
    var changed: bool
    var dlTable: DistTable
    var dlTableNoAC: DistTable
    var nhTable: NextHopTable

    ghost predicate Valid()
      reads this
    {
      ValidEdges(vert, edges)
    }

    constructor (setting: Setting, superMode: bool, bucket: real -> real)
      ensures Valid() && vert == {} && edges == map[] && nhTable == map[]
    {
      this.setting, this.superMode, this.bucket := setting, superMode, bucket;
      vert, edges, recalculateTime, changed := {}, map[], 0, false;
      dlTable, dlTableNoAC, nhTable := map[], map[], map[];
    }

    method InfiniteRow(u: Vertex) returns (d: map<Vertex, real>)
      requires u in vert
      ensures forall v :: v in vert <==> v in d
      ensures forall v :: v in vert ==> d[v] == if u == v then 0.0 else INFINITY
    {
      d := map[];
      var rest := vert;
      while rest != {}
        invariant rest <= vert && d.Keys == vert - rest && forall v :: v in d ==> d[v] == INFINITY
      {
        var v :| v in rest;
        d := d[v := INFINITY];
        rest := rest - {v};
      }
      d := d[u := 0.0];
    }

    method InitRow(u: Vertex, now: int, ghost n: Net)
      returns (d: map<Vertex, real>, b: map<Vertex, real>, h: map<Vertex, Vertex>)
      requires Valid() && u in vert && n.vert == vert && RowShown(n, edges, now, u)
      modifies this`edges
      ensures RowBegun(n, u, {}, d, b, h)
      ensures RowSettled(old(edges), edges, u, {}, now)
    {
      d := InfiniteRow(u);
      b := d;
      h := map[];
      var todo := Neighbours(edges, u);
      ghost var e := edges;
      RowAtFirst(vert, e, now, n, u, todo, d);
      while todo != {}
        invariant IsLinked(n, e, u, todo) && RowBegun(n, u, todo, d, b, h) && RowSettled(e, edges, u, todo, now)
      {
        var v :| v in todo;
        d, b, h := EnterNeighbour(u, v, now, d, b, h, n, e, todo);
        todo := todo - {v};
      }
    }

    /** Enter the edge from `u` to `v` into its row if it is finite, and remember its weight. */
    method EnterNeighbour(u: Vertex, v: Vertex, now: int,
                          d: map<Vertex, real>, b: map<Vertex, real>, h: map<Vertex, Vertex>,
                          ghost n: Net, ghost e: Edges, ghost todo: set<Vertex>)
      returns (d': map<Vertex, real>, b': map<Vertex, real>, h': map<Vertex, Vertex>)
      requires v in todo && v in n.vert && LinkAt(e, u, v).Some? && RowShown(n, e, now, u)
      requires RowBegun(n, u, todo, d, b, h) && RowSettled(e, edges, u, todo, now)
      modifies this`edges
      ensures RowBegun(n, u, todo - {v}, d', b', h') && RowSettled(e, edges, u, todo - {v}, now)
    {
      d', b', h' := d, b, h;
      var w, wo := Weight(edges, u, v, true, now), Weight(edges, u, v, false, now);
      OneNeighbour(e, edges, now, n, u, v, todo, w, wo);
      RowBegunStep(n, u, v, todo, w, wo, d, b, h);
      RowSettledStep(e, edges, u, v, todo, now);
      if w < INFINITY {
        d', b', h' := d[v := w], b[v := wo], h[v := v];
      }
      edges := WithOldWeight(edges, u, v, wo);
    }

    method InitTables(now: int, ghost n: Net) returns (t: Tables)
      requires Valid() && n == Snapshot(vert, edges, now)
      modifies this`edges
      ensures Shape(vert, t) && n.Valid() && Initial(n, ViewOf(t))
      ensures SameLinks(old(edges), edges) && Settled(edges, now)
    {
      t := Tables(map[], map[], map[]);
      var rest := vert;
      ghost var e := edges;
      while rest != {}
        invariant rest <= vert && InitProgress(vert, e, edges, now, n, t, rest)
      {
        var u :| u in rest;
        ghost var m := edges;
        SnapshotShows(vert, edges, now, u);
        var d, b, h := InitRow(u, now, n);
        InitStep(vert, e, m, edges, now, n, t, rest, u, d, b, h);
        t := Tables(t.dist[u := d], t.noAC[u := b], t.next[u := h]);
        rest := rest - {u};
      }
      InitDone(vert, e, edges, now, n, t);
    }

    method RemoveAllNegativeValue(now: int)
      requires Valid()
      modifies this`edges
      ensures Floored(old(edges), edges, now)
      ensures Valid() && Snapshot(vert, edges, now).NonNegative()
    {
      var rows := vert;
      ghost var e, u := edges, 0 as Vertex;
      while rows != {}
        invariant rows <= vert && FlooredSoFar(e, edges, rows, u, {}, now)
      {
        var r :| r in rows;
        u, rows := r, rows - {r};
        var cols := vert;
        while cols != {}
          invariant cols <= vert && FlooredSoFar(e, edges, rows, r, cols, now)
        {
          var v :| v in cols;
          FlooredStep(e, edges, rows, r, v, cols, now);
          if Weight(edges, r, v, true, now) < 0.0 {
            edges := WithWeight(edges, r, v, 0.0);
          }
          cols := cols - {v};
        }
      }
      FlooredIsNonNegative(vert, e, edges, now);
    }

    // ----------------------------------------------- route calculation

    method NegativeDiagonal(t: Tables, ghost n: Net) returns (found: bool)
      requires n.vert == vert && Shape(vert, t)
      ensures found <==> !Clean(n, ViewOf(t))
    {
      var rest := vert;
      while rest != {}
        invariant rest <= vert && forall i :: i in vert - rest ==> ViewOf(t).d(i, i) >= 0.0
      {
        var i :| i in rest;
        assert Has(t.dist, i, i);
        if t.dist[i][i] < 0.0 {
          assert ViewOf(t).d(i, i) < 0.0;
          return true;
        }
        rest := rest - {i};
      }
      return false;
    }

    /** Tables for the graph as it is when the call returns. */
    method Calculate(again: bool, now: int) returns (t: Tables, err: CalculationError)
      requires Valid()
      modifies this`edges
      ensures Valid() && Calculated(vert, old(edges), edges, now, again, t, err)
      decreases !again
    {
      ghost var e, n := edges, Snapshot(vert, edges, now);
      t := InitTables(now, n);
      SameLinksValid(vert, e, edges);
      SameLinksSameSnapshot(vert, e, edges, now);
      t := RelaxAll(t, vert, n);
      var found := NegativeDiagonal(t, n);
      if !found {
        err := NoError;
      } else {
        DiagonalFinding(n, ViewOf(t));
        if !again {
          RemoveAllNegativeValue(now);
          ghost var floored := edges;
          err := NegativeCycleDetected;
          var second;
          t, second := Calculate(true, now);
          SecondPass(vert, e, floored, edges, now, t, second);
        } else {
          t, err := Tables(map[], map[], map[]), DetectedAgain;
        }
      }
    }

    ghost function Installed(): Tables
      reads this
    {
      Tables(dlTable, dlTableNoAC, nhTable)
    }

    method CheckAnyShouldUpdate(now: int) returns (r: bool)
      ensures r <==> !Quiet(setting, superMode, bucket, recalculateTime, vert, edges, now)
    {
      var rows := vert;
      while rows != {}
        invariant rows <= vert
        invariant forall u, v :: u in vert - rows && v in vert && u != v ==>
          !Stale(setting, superMode, bucket, recalculateTime, edges, now, u, v)
      {
        var u :| u in rows;
        var cols := vert;
        while cols != {}
          invariant cols <= vert
          invariant forall v :: v in vert - cols && u != v ==>
            !Stale(setting, superMode, bucket, recalculateTime, edges, now, u, v)
        {
          var v :| v in cols;
          if u != v && Stale(setting, superMode, bucket, recalculateTime, edges, now, u, v) {
            return true;
          }
          cols := cols - {v};
        }
        rows := rows - {u};
      }
      return false;
    }

    function Next(u: Vertex, v: Vertex): Vertex
      reads this`nhTable
    {
      NextIn(nhTable, u, v)
    }

    /** Whether some entry of `next` differs from the installed table. */
    method NextHopsDiffer(next: NextHopTable) returns (r: bool)
      ensures r <==> SomeHopDiffers(next, nhTable)
    {
      var rows := next.Keys;
      while rows != {}
        invariant rows <= next.Keys
        invariant forall u, v :: Has(next, u, v) && u !in rows ==> next[u][v] == Next(u, v)
      {
        var u :| u in rows;
        var cols := next[u].Keys;
        while cols != {}
          invariant cols <= next[u].Keys
          invariant forall v :: v in next[u] && v !in cols ==> next[u][v] == Next(u, v)
        {
          var v :| v in cols;
          if next[u][v] != Next(u, v) {
            assert Has(next, u, v);
            return true;
          }
          cols := cols - {v};
        }
        rows := rows - {u};
      }
      return false;
    }

    /** The installed tables are the routes of the graph as it is at `now`. */
    ghost predicate UpToDate(now: int)
      reads this
    {
      recalculateTime == now && RoutesOf(vert, edges, now, Installed())
    }

    /** Compare with the old next hops if asked to, and install. */
    method Replace(t: Tables, checkChange: bool, now: int) returns (change: bool)
      modifies this`recalculateTime, this`dlTable, this`dlTableNoAC, this`nhTable
      ensures Installed() == t && recalculateTime == now
      ensures change <==> checkChange && SomeHopDiffers(t.next, old(nhTable))
    {
      change := false;
      if checkChange {
        change := NextHopsDiffer(t.next);
      }
      dlTable, dlTableNoAC, nhTable := t.dist, t.noAC, t.next;
      recalculateTime := now;
    }

    /** A first calculation never fails for good. */
    method CalculateRoutes(now: int) returns (t: Tables)
      requires Valid()
      modifies this`edges
      ensures Valid() && RoutesOf(vert, edges, now, t) && Corrected(vert, old(edges), edges, now)
    {
      var err;
      t, err := Calculate(false, now);
    }

    method Install(checkChange: bool, now: int) returns (change: bool)
      requires Valid()
      modifies this`edges, this`recalculateTime, this`dlTable, this`dlTableNoAC, this`nhTable
      ensures Valid() && UpToDate(now) && Corrected(vert, old(edges), edges, now)
      ensures change <==> checkChange && SomeHopDiffers(nhTable, old(nhTable))
    {
      var t := CalculateRoutes(now);
      change := Replace(t, checkChange, now);
    }

    ghost predicate Calm(now: int)
      reads this
    {
      Quiet(setting, superMode, bucket, recalculateTime, vert, edges, now)
    }

    /** In dynamic mode the remembered weights are fresh afterwards, whether or not the
        tables were replaced; replaced tables are the routes of the graph as it is now. */
    method RecalculateNhTable(checkChange: bool, now: int) returns (change: bool)
      requires Valid()
      modifies this`edges, this`recalculateTime, this`dlTable, this`dlTableNoAC, this`nhTable
      ensures Valid()
      ensures setting.staticMode ==> unchanged(this) && change == (changed && checkChange)
      ensures !setting.staticMode ==>
        Fresh(setting, superMode, vert, edges, now, old(recalculateTime) + setting.coolDown > now)
      ensures !setting.staticMode && old(Calm(now)) ==> unchanged(this) && !change
      ensures old(recalculateTime) + setting.coolDown > now && AllAgreeOnFinite(vert, old(edges), now) ==>
        unchanged(this)
      ensures !setting.staticMode && !old(Calm(now)) ==> UpToDate(now) && Corrected(vert, old(edges), edges, now)
      ensures !setting.staticMode && !old(Calm(now)) ==>
        (change <==> checkChange && SomeHopDiffers(nhTable, old(nhTable)))
    {
      change := false;
      if setting.staticMode {
        if changed { change := checkChange; }
        return;
      }
      if recalculateTime + setting.coolDown > now {
        QuietWhileCooling(setting, superMode, bucket, recalculateTime, vert, edges, now);
      }
      var stale := CheckAnyShouldUpdate(now);
      if !stale {
        QuietIsFresh(setting, superMode, bucket, recalculateTime, vert, edges, now);
      } else {
        ghost var cooling := recalculateTime + setting.coolDown > now;
        change := Install(checkChange, now);
        SettledIsFresh(setting, superMode, vert, edges, now, cooling);
      }
    }

    // ----------------------------------------------- changes of the graph

    /** Enter latency reports one by one. */
    method EnterPongs(pongs: seq<Pong>, now: int) returns (shouldUpdate: bool)
      requires Valid()
      modifies this`vert, this`edges, this`recalculateTime
      ensures Valid() && edges == AppliedAll(setting, old(edges), pongs, now)
      ensures vert == old(vert) + Ends(pongs)
      ensures recalculateTime == if NewSource(old(edges), pongs) then 0 else old(recalculateTime)
      ensures shouldUpdate <==> Moved(setting, superMode, bucket, old(edges), pongs, now)
    {
      shouldUpdate := false;
      ghost var e, v := edges, vert;
      for k := 0 to |pongs|
        invariant Valid() && edges == AppliedAll(setting, e, pongs[..k], now)
        invariant vert == v + Ends(pongs[..k])
        invariant recalculateTime == if NewSource(e, pongs[..k]) then 0 else old(recalculateTime)
        invariant shouldUpdate <==> Moved(setting, superMode, bucket, e, pongs[..k], now)
      {
        var m := pongs[k];
        EnterOneMore(setting, superMode, bucket, e, pongs, k, now);
        AppliedIsValid(setting, vert, edges, m, now);
        vert := vert + {m.src, m.dst};
        if m.src !in edges {
          recalculateTime := 0;
        }
        shouldUpdate := shouldUpdate || Differs(setting, superMode, bucket, edges, m, now);
        edges := Applied(setting, edges, m, now);
      }
      assert pongs[..|pongs|] == pongs;
    }

    method UpdateLatencyMulti(pongs: seq<Pong>, recalculate: bool, checkChange: bool, now: int) returns (change: bool)
      requires Valid()
      modifies this`vert, this`edges, this`recalculateTime, this`dlTable, this`dlTableNoAC, this`nhTable
      ensures Valid()
      ensures vert == old(vert) + Ends(pongs)
      ensures !recalculate || !Moved(setting, superMode, bucket, old(edges), pongs, now) ==>
        edges == AppliedAll(setting, old(edges), pongs, now) && Installed() == old(Installed()) && !change
      ensures Corrected(vert, AppliedAll(setting, old(edges), pongs, now), edges, now)
      ensures recalculate && Moved(setting, superMode, bucket, old(edges), pongs, now) && !setting.staticMode ==>
        Fresh(setting, superMode, vert, edges, now,
              (if NewSource(old(edges), pongs) then 0 else old(recalculateTime)) + setting.coolDown > now)
      ensures Installed() == old(Installed()) || UpToDate(now)
    {
      change := false;
      var shouldUpdate := EnterPongs(pongs, now);
      if shouldUpdate && recalculate {
        change := RecalculateNhTable(checkChange, now);
      }
    }

    method RemoveVirt(v: Vertex, recalculate: bool, checkChange: bool, now: int) returns (change: bool)
      requires Valid()
      modifies this`vert, this`edges, this`changed, this`recalculateTime, this`dlTable, this`dlTableNoAC, this`nhTable
      ensures Valid() && vert == old(vert) - {v} && changed
      ensures !recalculate ==> Isolated(old(edges), edges, v) && Installed() == old(Installed()) && !change
      ensures exists e :: Isolated(old(edges), e, v) && Corrected(vert, e, edges, now)
      ensures recalculate && !setting.staticMode ==>
        Fresh(setting, superMode, vert, edges, now, old(recalculateTime) + setting.coolDown > now)
      ensures recalculate && setting.staticMode ==> change == checkChange
      ensures Installed() == old(Installed()) || UpToDate(now)
    {
      change := false;
      Isolate(v);
      ghost var e := edges;
      changed := true;
      if recalculate {
        change := RecalculateNhTable(checkChange, now);
      }
      assert Isolated(old(edges), e, v) && Corrected(vert, e, edges, now);
    }

    /** Delete a vertex and every edge at it. */
    method Isolate(v: Vertex)
      requires Valid()
      modifies this`vert, this`edges
      ensures Valid() && vert == old(vert) - {v} && Isolated(old(edges), edges, v)
    {
      ghost var e := edges;
      vert := vert - {v};
      edges := edges - {v};
      var rows := edges.Keys;
      while rows != {}
        invariant rows <= edges.Keys
        invariant forall x, y {:trigger LinkAt(edges, x, y)} ::
          LinkAt(edges, x, y) == if x == v || (y == v && x !in rows) then None else LinkAt(e, x, y)
        decreases rows
        modifies this`edges
      {
        var u :| u in rows;
        DropEntry(edges, u, v);
        edges := edges[u := edges[u] - {v}];
        rows := rows - {u};
      }
      IsolatedIsValid(old(vert), e, edges, v);
    }

    // ----------------------------------------------- following the table

    /** The tables are the routes of a tame graph, and `v` is less than Infinity away from `u`. */
    ghost predicate Connected(now: int, u: Vertex, v: Vertex)
      reads this
    {
      UpToDate(now) && Tame(Snapshot(vert, edges, now)) && u in vert && v in vert && At(dlTable, u, v) < INFINITY
    }

    /** The path follows links that have not expired; its weights and pings sum to the installed
        distances, which differ by the additional costs along it. */
    ghost predicate FollowsShortest(now: int, u: Vertex, v: Vertex, path: seq<Vertex>)
      reads this
    {
      var n := Snapshot(vert, edges, now);
      && Chain(Hops(nhTable), path, u, v) && Walk(n, path)
      && Sum(n.cost, path) == At(dlTable, u, v) && Sum(n.ping, path) == At(dlTableNoAC, u, v)
      && AliveAlong(edges, now, path)
      && At(dlTable, u, v) - At(dlTableNoAC, u, v) == ExtraAlong(edges, path)
    }

    /** For any table whatsoever: the path along it, or the visited part and why it ended. On
        the routes of a tame graph there is no error, and the path is a shortest one. */
    method Path(u: Vertex, v: Vertex) returns (path: seq<Vertex>, err: Option<PathError>)
      ensures err == None ==> Chain(Hops(nhTable), path, u, v)
      ensures err != None ==> !exists p :: Chain(Hops(nhTable), p, u, v)
      ensures err != None ==> exists cur :: StoppedAt(nhTable, path, cur, u, v, err.value)
      ensures forall now :: Valid() && Connected(now, u, v) ==> err == None && FollowsShortest(now, u, v, path)
    {
      path, err := FollowTable(u, v);
      forall now | Valid() && Connected(now, u, v)
        ensures err == None && FollowsShortest(now, u, v, path)
      {
        var n := Snapshot(vert, edges, now);
        var p := RoutesReach(n, ViewOf(Installed()), u, v);
        PathIsShortest(n, ViewOf(Installed()), u, v, path);
        ChainMoves(Hops(nhTable), path, u, v);
        WalkMeaning(vert, edges, now, path);
      }
    }

    method FollowTable(u: Vertex, v: Vertex) returns (path: seq<Vertex>, err: Option<PathError>)
      ensures err == None ==> Chain(Hops(nhTable), path, u, v)
      ensures err != None ==> !exists p :: Chain(Hops(nhTable), p, u, v)
      ensures err != None ==> exists cur :: StoppedAt(nhTable, path, cur, u, v, err.value)
    {
      path := [];
      var cur, footprint := u, {};
      ghost var hop := Hops(nhTable);
      while cur != v
        invariant ChainPrefix(hop, path, cur, u, v)
        invariant footprint <= nhTable.Keys && forall x :: x in footprint <==> x in path
        decreases nhTable.Keys - footprint
      {
        if cur in footprint {
          StuckPrefix(hop, path, cur, u, v);
          assert StoppedAt(nhTable, path, cur, u, v, CycleInTable);
          return path, Some(CycleInTable);
        }
        if cur !in nhTable {
          StuckPrefix(hop, path, cur, u, v);
          assert StoppedAt(nhTable, path, cur, u, v, NoRow);
          return path, Some(NoRow);
        }
        if v !in nhTable[cur] {
          StuckPrefix(hop, path, cur, u, v);
          assert StoppedAt(nhTable, path, cur, u, v, NoEntry);
          return path, Some(NoEntry);
        }
        ExtendPrefix(hop, path, cur, u, v);
        path, footprint, cur := path + [cur], footprint + {cur}, nhTable[cur][v];
      }
      path := path + [cur];
      return path, None;
    }

    // ----------------------------------------------- broadcast lists

    method GetBoardcastList(id: Vertex) returns (tosend: set<Vertex>)
      ensures forall c :: c in tosend <==> IsNextHop(nhTable, id, c)
    {
      tosend := {};
      if id !in nhTable { return; }
      var todo := nhTable[id].Keys;
      while todo != {}
        invariant todo <= nhTable[id].Keys
        invariant forall c :: c in tosend <==>
          exists d :: d in nhTable[id] && d !in todo && Hop(nhTable, id, d) == Some(c)
      {
        var d :| d in todo;
        assert Hop(nhTable, id, d) == Some(nhTable[id][d]);
        tosend, todo := tosend + {nhTable[id][d]}, todo - {d};
      }
    }

    method GetBoardcastThroughList(self: Vertex, from: Vertex, src: Vertex)
      returns (tosend: set<Vertex>, errs: seq<PathError>)
      ensures forall c :: c in tosend <==> RelaysTo(nhTable, self, from, src, c)
      ensures errs == [] <==> forall c :: IsNextHop(nhTable, self, c) ==> exists p :: Chain(Hops(nhTable), p, src, c)
    {
      tosend, errs := {}, [];
      var list := GetBoardcastList(self);
      var todo := list;
      while todo != {}
        invariant todo <= list
        invariant forall c :: c in tosend <==> c in list && c !in todo && RelaysTo(nhTable, self, from, src, c)
        invariant errs == [] <==> forall c :: c in list && c !in todo ==> exists p :: Chain(Hops(nhTable), p, src, c)
      {
        var c :| c in todo;
        var path, err := Path(src, c);
        if err != None {
          errs := errs + [err.value];
        } else {
          OnlyChain(nhTable, self, from, src, c, path);
          for a := 0 to |path|
            invariant forall x :: x in tosend <==>
              || (x in list && x !in todo && RelaysTo(nhTable, self, from, src, x))
              || (x == c && c != from && self in path[..a])
          {
            if path[a] == self && c != from {
              tosend := tosend + {c};
            }
          }
          assert path[..|path|] == path;
        }
        todo := todo - {c};
      }
    }
  }

  lemma ChainMoves(hop: (Vertex, Vertex) -> Option<Vertex>, p: seq<Vertex>, u: Vertex, v: Vertex)
    requires Chain(hop, p, u, v)
    ensures NoStandstill(p)
  {
    forall a, b | 0 <= a && b == a + 1 < |p|
      ensures p[a] != p[b]
    {
      ChainNeverReturns(hop, p, u, v, a, b);
    }
  }

  lemma OnlyChain(nh: NextHopTable, self: Vertex, from: Vertex, src: Vertex, c: Vertex, path: seq<Vertex>)
    requires IsNextHop(nh, self, c) && Chain(Hops(nh), path, src, c)
    ensures RelaysTo(nh, self, from, src, c) <==> c != from && self in path
  {
    forall p | Chain(Hops(nh), p, src, c)
      ensures p == path
    {
      ChainIsUnique(Hops(nh), p, path, src, c);
    }
  }

  lemma ExtendPrefix(hop: (Vertex, Vertex) -> Option<Vertex>, path: seq<Vertex>, cur: Vertex, u: Vertex, v: Vertex)
    requires ChainPrefix(hop, path, cur, u, v) && cur != v && hop(cur, v).Some?
    ensures ChainPrefix(hop, path + [cur], hop(cur, v).value, u, v)
  {
  }
}
