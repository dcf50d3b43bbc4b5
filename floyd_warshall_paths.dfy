/**
 * The newer Floyd-Warshall copy's result: after the matrices and the
 * negative-diagonal check, every source starts with the empty path to
 * itself, and buildPath fills in the path to every target by following the
 * predecessor-edge matrix back to the source, memoising each path it builds.
 */
module FloydWarshallPaths {
  import opened Wrappers
  import opened Doubles
  import opened Graphs
  import opened Paths
  import opened Walks
  import opened FloydWarshalls

  /**
   * Row i of the predecessor matrices as buildPath reads it: a recorded edge
   * comes with a recorded vertex, runs from that vertex to the target, and,
   * unless that vertex is the source, the vertex has a recorded edge of its
   * own (so the path buildPath looks up for it has an edge list).
   */
  ghost predicate Chained<V>(order: seq<V>, P: seq<seq<Option<nat>>>, E: seq<seq<Option<Edge<V>>>>, i: nat)
    requires Square(P, |order|) && Square(E, |order|) && i < |order|
  {
    forall j {:trigger P[i][j]} | 0 <= j < |order| && E[i][j].Some? ::
      && P[i][j].Some? && P[i][j].value < |order|
      && E[i][j].value.source == order[P[i][j].value] && E[i][j].value.target == order[j]
      && (P[i][j].value != i ==> E[i][P[i][j].value].Some?)
  }

  /**
   * With no negative cycle every row is chained: a recorded edge's source is
   * reachable from the row's source, so its own entry is finite and has a
   * recorded edge.
   */
  lemma ChainedRow<V>(g: Graph<V>, w: Edge<V> -> real, order: seq<V>,
                      M: seq<seq<Double>>, P: seq<seq<Option<nat>>>, E: seq<seq<Option<Edge<V>>>>, i: nat)
    requires Computed(g, w, order, M, P, E) && NoNegativeCycle(g.edges, w) && i < |order|
    ensures Chained(order, P, E, i)
  {
    forall j | 0 <= j < |order| && E[i][j].Some?
      ensures P[i][j].Some? && P[i][j].value < |order|
      ensures E[i][j].value.source == order[P[i][j].value] && E[i][j].value.target == order[j]
      ensures P[i][j].value != i ==> E[i][P[i][j].value].Some?
    {
      assert Justified(g.edges, w, order, i, j, M[i][j], P[i][j], E[i][j]);
      var k := P[i][j].value;
      if k != i {
        var q :| IsPath(g.edges, order[i], q, order[k]) && Weight(w, q) + w(E[i][j].value) == M[i][j].r;
        Solved(g, w, order, M, P, E, i, k);
        assert Justified(g.edges, w, order, i, k, M[i][k], P[i][k], E[i][k]);
      }
    }
  }

  lemma AllChained<V>(g: Graph<V>, w: Edge<V> -> real, order: seq<V>,
                      M: seq<seq<Double>>, P: seq<seq<Option<nat>>>, E: seq<seq<Option<Edge<V>>>>)
    requires Computed(g, w, order, M, P, E) && NoNegativeCycle(g.edges, w)
    ensures forall i | 0 <= i < |order| :: Chained(order, P, E, i)
  {
    forall i | 0 <= i < |order|
      ensures Chained(order, P, E, i)
    {
      ChainedRow(g, w, order, M, P, E, i);
    }
  }

  /** A target has at most one trace. */
  lemma {:induction false} TracedUnique<V>(order: seq<V>, P: seq<seq<Option<nat>>>, E: seq<seq<Option<Edge<V>>>>,
                                           i: nat, j: nat, p: seq<Edge<V>>, q: seq<Edge<V>>)
    requires Square(P, |order|) && Square(E, |order|) && i < |order| && j < |order|
    requires Traced(order, P, E, i, j, p) && Traced(order, P, E, i, j, q)
    ensures p == q
    decreases |p|
  {
    if j != i {
      TracedUnique(order, P, E, i, P[i][j].value, p[..|p| - 1], q[..|q| - 1]);
      assert p == p[..|p| - 1] + [p[|p| - 1]];
      assert q == q[..|q| - 1] + [q[|q| - 1]];
    }
  }

  /** Every prefix of a trace is the trace of the vertex it ends at, a vertex other than the source. */
  lemma {:induction false} TracedPrefix<V>(order: seq<V>, P: seq<seq<Option<nat>>>, E: seq<seq<Option<Edge<V>>>>,
                                           i: nat, j: nat, p: seq<Edge<V>>, k: nat)
    returns (x: nat)
    requires Square(P, |order|) && Square(E, |order|) && i < |order| && j < |order| && Chained(order, P, E, i)
    requires Traced(order, P, E, i, j, p) && k < |p|
    ensures x < |order| && x != i && order[x] == p[k].target && Traced(order, P, E, i, x, p[..k + 1])
    decreases |p|
  {
    var n := |p| - 1;
    assert P[i][j].Some?;
    if k == n {
      assert p[..k + 1] == p;
      x := j;
    } else {
      x := TracedPrefix(order, P, E, i, P[i][j].value, p[..n], k);
      assert p[..n][..k + 1] == p[..k + 1];
    }
  }

  /** A trace passes each vertex at most once, so it has fewer edges than the graph has vertices. */
  lemma TracedShort<V>(g: Graph<V>, order: seq<V>, P: seq<seq<Option<nat>>>, E: seq<seq<Option<Edge<V>>>>,
                       i: nat, j: nat, p: seq<Edge<V>>)
    requires Enumerates(order, g.vertices) && Distinct(order)
    requires Square(P, |order|) && Square(E, |order|) && i < |order| && j < |order| && Chained(order, P, E, i)
    requires Traced(order, P, E, i, j, p)
    ensures |p| < |order|
  {
    EnumeratesSize(order, g.vertices);
    var others := g.vertices - {order[i]};
    assert |others| == |order| - 1;
    var xs := seq(|p|, k requires 0 <= k < |p| => p[k].target);
    forall k | 0 <= k < |xs|
      ensures xs[k] in others
    {
      var x := TracedPrefix(order, P, E, i, j, p, k);
      assert order[x] != order[i];
    }
    if |p| >= |order| {
      Pigeonhole(xs, others);
      var a, b :| 0 <= a < b < |xs| && xs[a] == xs[b];
      var x := TracedPrefix(order, P, E, i, j, p, a);
      var y := TracedPrefix(order, P, E, i, j, p, b);
      assert x == y;
      TracedUnique(order, P, E, i, x, p[..a + 1], p[..b + 1]);
    }
  }

  /**
   * Row i of the computed matrices is tight: the source's own distance is 0,
   * and every recorded edge is a graph edge from the recorded vertex to the
   * target whose weight added to the recorded vertex's finite distance gives
   * the target's distance.
   */
  ghost predicate Tight<V>(es: set<Edge<V>>, w: Edge<V> -> real, order: seq<V>,
                           M: seq<seq<Double>>, P: seq<seq<Option<nat>>>, E: seq<seq<Option<Edge<V>>>>, i: nat)
    requires Square(M, |order|) && Square(P, |order|) && Square(E, |order|) && i < |order|
  {
    && M[i][i] == Fin(0.0)
    && forall j {:trigger P[i][j]} | 0 <= j < |order| && E[i][j].Some? ::
         && P[i][j].Some? && P[i][j].value < |order|
         && E[i][j].value in es && E[i][j].value.source == order[P[i][j].value] && E[i][j].value.target == order[j]
         && M[i][P[i][j].value].Fin? && M[i][j] == Fin(M[i][P[i][j].value].r + w(E[i][j].value))
  }

  /** A trace of a tight row is a walk between its two vertices whose weight is the computed distance. */
  lemma {:induction false} TracedWeight<V>(es: set<Edge<V>>, w: Edge<V> -> real, order: seq<V>,
                                           M: seq<seq<Double>>, P: seq<seq<Option<nat>>>, E: seq<seq<Option<Edge<V>>>>,
                                           i: nat, j: nat, p: seq<Edge<V>>)
    requires Square(M, |order|) && Square(P, |order|) && Square(E, |order|) && i < |order| && j < |order|
    requires Tight(es, w, order, M, P, E, i) && Traced(order, P, E, i, j, p)
    ensures IsPath(es, order[i], p, order[j]) && M[i][j] == Fin(Weight(w, p))
    decreases |p|
  {
    if j != i {
      var k, e := P[i][j].value, E[i][j].value;
      var front := p[..|p| - 1];
      TracedWeight(es, w, order, M, P, E, i, k, front);
      PathSnoc(es, w, order[i], front, e);
      assert front + [e] == p;
    }
  }

  /** With no negative cycle every row of the computed matrices is tight. */
  lemma TightRow<V>(g: Graph<V>, w: Edge<V> -> real, order: seq<V>,
                    M: seq<seq<Double>>, P: seq<seq<Option<nat>>>, E: seq<seq<Option<Edge<V>>>>, i: nat)
    requires Computed(g, w, order, M, P, E) && NoNegativeCycle(g.edges, w) && i < |order|
    ensures Tight(g.edges, w, order, M, P, E, i)
  {
    DiagonalZero(g, w, order, M, P, E, i);
    forall j | 0 <= j < |order| && E[i][j].Some?
      ensures P[i][j].Some? && P[i][j].value < |order|
      ensures E[i][j].value in g.edges && E[i][j].value.source == order[P[i][j].value] && E[i][j].value.target == order[j]
      ensures M[i][P[i][j].value].Fin? && M[i][j] == Fin(M[i][P[i][j].value].r + w(E[i][j].value))
    {
      TightAt(g, w, order, M, P, E, i, j);
    }
  }

  lemma TightAt<V>(g: Graph<V>, w: Edge<V> -> real, order: seq<V>,
                   M: seq<seq<Double>>, P: seq<seq<Option<nat>>>, E: seq<seq<Option<Edge<V>>>>, i: nat, j: nat)
    requires Computed(g, w, order, M, P, E) && NoNegativeCycle(g.edges, w) && i < |order| && j < |order|
    requires E[i][j].Some?
    ensures P[i][j].Some? && P[i][j].value < |order|
    ensures E[i][j].value in g.edges && E[i][j].value.source == order[P[i][j].value] && E[i][j].value.target == order[j]
    ensures M[i][P[i][j].value].Fin? && M[i][j] == Fin(M[i][P[i][j].value].r + w(E[i][j].value))
  {
    assert Justified(g.edges, w, order, i, j, M[i][j], P[i][j], E[i][j]);
    var k, e := P[i][j].value, E[i][j].value;
    var q :| IsPath(g.edges, order[i], q, order[k]) && Weight(w, q) + w(e) == M[i][j].r;
    Solved(g, w, order, M, P, E, i, k);
    Solved(g, w, order, M, P, E, i, j);
    ExactStep(g.edges, w, order[i], e, M[i][k], M[i][j], q);
  }

  /**
   * If `dv` and `dt` are the least walk weights from `s` to an edge's two
   * ends and some walk to its source followed by the edge weighs `dt`, then
   * `dt` is `dv` plus the edge's weight.
   */
  lemma ExactStep<V>(es: set<Edge<V>>, w: Edge<V> -> real, s: V, e: Edge<V>, dv: Double, dt: Double, q: seq<Edge<V>>)
    requires e in es && Exact(es, w, s, e.source, dv) && Exact(es, w, s, e.target, dt)
    requires IsPath(es, s, q, e.source) && dt.Fin? && Weight(w, q) + w(e) == dt.r
    ensures dv.Fin? && dt == Fin(dv.r + w(e))
  {
    var r :| IsPath(es, s, r, e.source) && Weight(w, r) == dv.r;
    PathSnoc(es, w, s, r, e);
  }

  /** With no negative cycle the diagonal of the computed matrix is 0. */
  lemma DiagonalZero<V>(g: Graph<V>, w: Edge<V> -> real, order: seq<V>,
                        M: seq<seq<Double>>, P: seq<seq<Option<nat>>>, E: seq<seq<Option<Edge<V>>>>, i: nat)
    requires Computed(g, w, order, M, P, E) && NoNegativeCycle(g.edges, w) && i < |order|
    ensures M[i][i] == Fin(0.0)
  {
    Solved(g, w, order, M, P, E, i, i);
    assert IsPath(g.edges, order[i], [], order[i]);
    var c :| IsPath(g.edges, order[i], c, order[i]) && Weight(w, c) == M[i][i].r;
    CycleWeight(g.edges, w, order[i], c);
  }

  /**
   * What buildPath's map for source number i holds: paths from the source,
   * the source itself with the empty path, a target with no recorded edge
   * with no edge list, any other target with its trace.
   */
  ghost predicate Memo<V>(order: seq<V>, P: seq<seq<Option<nat>>>, E: seq<seq<Option<Edge<V>>>>, i: nat,
                          row: map<V, SimplePath<V>>)
    requires Square(P, |order|) && Square(E, |order|) && i < |order|
  {
    && order[i] in row
    && (forall t | t in row :: t in order)
    && forall j {:trigger row[order[j]]} | 0 <= j < |order| && order[j] in row ::
         && row[order[j]].source == order[i] && row[order[j]].target == order[j]
         && (if j != i && E[i][j].None? then row[order[j]].edges.None?
             else row[order[j]].edges.Some? && Traced(order, P, E, i, j, row[order[j]].edges.value))
  }

  /** The map buildPath starts from for a source: the source with the empty path. */
  function Start<V>(s: V): map<V, SimplePath<V>> {
    map[s := SimplePath(s, s, Some([]))]
  }

  lemma StartMemo<V>(order: seq<V>, P: seq<seq<Option<nat>>>, E: seq<seq<Option<Edge<V>>>>, i: nat)
    requires Square(P, |order|) && Square(E, |order|) && i < |order| && Distinct(order)
    ensures Memo(order, P, E, i, Start(order[i]))
  {
    forall j | 0 <= j < |order| && order[j] in Start(order[i])
      ensures j == i
    {
    }
  }

  /** Adding the path of target number j keeps the map a memo. */
  lemma MemoAdd<V>(order: seq<V>, P: seq<seq<Option<nat>>>, E: seq<seq<Option<Edge<V>>>>, i: nat,
                   row: map<V, SimplePath<V>>, j: nat, path: SimplePath<V>)
    requires Square(P, |order|) && Square(E, |order|) && i < |order| && j < |order| && Distinct(order)
    requires Memo(order, P, E, i, row)
    requires path.source == order[i] && path.target == order[j]
    requires if j != i && E[i][j].None? then path.edges.None?
             else path.edges.Some? && Traced(order, P, E, i, j, path.edges.value)
    ensures Memo(order, P, E, i, row[order[j] := path])
  {
    var row' := row[order[j] := path];
    forall b | 0 <= b < |order| && order[b] in row'
      ensures row'[order[b]].source == order[i] && row'[order[b]].target == order[b]
      ensures if b != i && E[i][b].None? then row'[order[b]].edges.None?
              else row'[order[b]].edges.Some? && Traced(order, P, E, i, b, row'[order[b]].edges.value)
    {
      if b != j {
        assert order[b] != order[j] && order[b] in row;
        assert row'[order[b]] == row[order[b]];
      }
    }
  }

  /**
   * buildPath for source number i and target number j: nothing when the
   * target already has a path; with no recorded edge, a path without an edge
   * list; otherwise the path of the recorded predecessor, built first when
   * missing, extended by the recorded edge. Each level of recursion uses up
   * one unit of `fuel`; running out is the StackOverflowError of a
   * predecessor cycle, and happens only when every trace is longer than the
   * fuel.
   */
  method BuildPath<V>(order: seq<V>, PV: array2<Option<nat>>, PE: array2<Option<Edge<V>>>,
                      ghost P: seq<seq<Option<nat>>>, ghost E: seq<seq<Option<Edge<V>>>>,
                      row: map<V, SimplePath<V>>, i: nat, j: nat, fuel: nat)
    returns (o: Outcome, row': map<V, SimplePath<V>>)
    requires Holds(PV, P, |order|) && Holds(PE, E, |order|) && Distinct(order)
    requires i < |order| && j < |order| && Chained(order, P, E, i) && Memo(order, P, E, i, row)
    ensures o.Fail? ==> o.error == StackOverflow && E[i][j].Some?
    ensures o.Fail? ==> forall p | Traced(order, P, E, i, j, p) :: |p| > fuel
    ensures o.Pass? ==> order[j] in row' && Memo(order, P, E, i, row') && row.Keys <= row'.Keys
    decreases fuel
  {
    if order[j] in row {
      return Pass, row;
    }
    var edge := PE[i, j];
    if edge.None? {
      MemoAdd(order, P, E, i, row, j, SimplePath(order[i], order[j], None));
      return Pass, row[order[j] := SimplePath(order[i], order[j], None)];
    }
    var e := edge.value;
    var k := PV[i, j].value;
    assert P[i][j].Some? && e.source == order[k];
    var mid := row;
    if e.source !in row {
      if fuel == 0 {
        return Fail(StackOverflow), row;
      }
      o, mid := BuildPath(order, PV, PE, P, E, row, i, k, fuel - 1);
      if o.Fail? {
        forall p | Traced(order, P, E, i, j, p)
          ensures |p| > fuel
        {
          assert Traced(order, P, E, i, k, p[..|p| - 1]);
        }
        return o, row;
      }
    }
    assert mid[order[k]].edges.Some?;
    var temp := mid[e.source].edges.value + [e];
    assert temp[..|temp| - 1] == mid[order[k]].edges.value;
    MemoAdd(order, P, E, i, mid, j, SimplePath(order[i], order[j], Some(temp)));
    row' := mid[order[j] := SimplePath(order[i], order[j], Some(temp))];
    o := Pass;
  }

  /** A finished row: a memo with every vertex as a key. */
  ghost predicate Built<V>(order: seq<V>, P: seq<seq<Option<nat>>>, E: seq<seq<Option<Edge<V>>>>, i: nat,
                           row: map<V, SimplePath<V>>)
    requires Square(P, |order|) && Square(E, |order|) && i < |order|
  {
    Memo(order, P, E, i, row) && row.Keys == (set t | t in order)
  }

  /**
   * The newer copy's inner loop over the targets of source number i, on the
   * map the source starts with. A failure is a target with a recorded edge
   * whose predecessors never lead back to the source.
   */
  method BuildRow<V>(ghost g: Graph<V>, order: seq<V>, PV: array2<Option<nat>>, PE: array2<Option<Edge<V>>>,
                     ghost P: seq<seq<Option<nat>>>, ghost E: seq<seq<Option<Edge<V>>>>,
                     row: map<V, SimplePath<V>>, i: nat)
    returns (o: Outcome, row': map<V, SimplePath<V>>)
    requires Enumerates(order, g.vertices) && Holds(PV, P, |order|) && Holds(PE, E, |order|)
    requires i < |order| && Chained(order, P, E, i) && row == Start(order[i])
    ensures o.Fail? ==> o.error == StackOverflow && exists j | 0 <= j < |order| && E[i][j].Some? :: !Traces(order, P, E, i, j)
    ensures o.Pass? ==> Built(order, P, E, i, row')
  {
    StartMemo(order, P, E, i);
    row' := row;
    for j := 0 to |order|
      invariant Memo(order, P, E, i, row')
      invariant forall a | 0 <= a < j :: order[a] in row'
    {
      o, row' := BuildPath(order, PV, PE, P, E, row', i, j, |order|);
      if o.Fail? {
        forall p | Traced(order, P, E, i, j, p)
          ensures false
        {
          TracedShort(g, order, P, E, i, j, p);
        }
        return;
      }
    }
    o := Pass;
  }

  /** The newer copy's result part way through the outer loop: sources before i are finished, the rest start. */
  ghost predicate Grown<V>(order: seq<V>, P: seq<seq<Option<nat>>>, E: seq<seq<Option<Edge<V>>>>,
                           result: map<V, map<V, SimplePath<V>>>, i: nat)
    requires Square(P, |order|) && Square(E, |order|)
  {
    && result.Keys == (set t | t in order)
    && forall a {:trigger result[order[a]]} | 0 <= a < |order| ::
         if a < i then Built(order, P, E, a, result[order[a]]) else result[order[a]] == Start(order[a])
  }

  /** The newer copy's outer loop: buildPath for every source and target. */
  method BuildRows<V>(ghost g: Graph<V>, order: seq<V>, PV: array2<Option<nat>>, PE: array2<Option<Edge<V>>>,
                      ghost P: seq<seq<Option<nat>>>, ghost E: seq<seq<Option<Edge<V>>>>,
                      start: map<V, map<V, SimplePath<V>>>)
    returns (r: Result<map<V, map<V, SimplePath<V>>>>)
    requires Enumerates(order, g.vertices) && Holds(PV, P, |order|) && Holds(PE, E, |order|)
    requires forall i | 0 <= i < |order| :: Chained(order, P, E, i)
    requires Grown(order, P, E, start, 0)
    ensures r.Err? ==> r.error == StackOverflow
    ensures r.Err? ==> exists i, j | 0 <= i < |order| && 0 <= j < |order| && E[i][j].Some? :: !Traces(order, P, E, i, j)
    ensures r.Ok? ==> Grown(order, P, E, r.value, |order|)
  {
    var result := start;
    for i := 0 to |order|
      invariant Grown(order, P, E, result, i)
    {
      assert order[i] in (set t | t in order);
      var o, row := BuildRow(g, order, PV, PE, P, E, result[order[i]], i);
      if o.Fail? {
        return Err(o.error);
      }
      GrowRow(order, P, E, result, i, row);
      result := result[order[i] := row];
    }
    r := Ok(result);
  }

  lemma GrowRow<V>(order: seq<V>, P: seq<seq<Option<nat>>>, E: seq<seq<Option<Edge<V>>>>,
                   result: map<V, map<V, SimplePath<V>>>, i: nat, row: map<V, SimplePath<V>>)
    requires Square(P, |order|) && Square(E, |order|) && i < |order| && Distinct(order)
    requires Grown(order, P, E, result, i) && Built(order, P, E, i, row)
    ensures Grown(order, P, E, result[order[i] := row], i + 1)
  {
    var result' := result[order[i] := row];
    assert order[i] in (set t | t in order);
    forall a | 0 <= a < |order|
      ensures if a < i + 1 then Built(order, P, E, a, result'[order[a]]) else result'[order[a]] == Start(order[a])
    {
      if a != i {
        assert order[a] != order[i] && order[a] in (set t | t in order);
        assert result'[order[a]] == result[order[a]];
      }
    }
  }

  /**
   * The newer copy's negative-cycle check, which also gives every source its
   * map with the empty path to itself.
   */
  method Starts<V>(order: seq<V>, D: array2<Double>, ghost M: seq<seq<Double>>)
    returns (r: Result<map<V, map<V, SimplePath<V>>>>)
    requires Holds(D, M, |order|)
    ensures r.Err? <==> exists i | 0 <= i < |order| :: Lt(M[i][i], Fin(0.0))
    ensures r.Err? ==> r.error == IllegalArgument
    ensures r.Ok? ==> r.value == map s | s in order :: Start(s)
  {
    var result := map[];
    for i := 0 to |order|
      invariant forall a | 0 <= a < i :: !Lt(M[a][a], Fin(0.0))
      invariant result == map s | s in order[..i] :: Start(s)
    {
      if Lt(D[i, i], Fin(0.0)) {
        return Err(IllegalArgument);
      }
      assert order[..i + 1] == order[..i] + [order[i]];
      result := result[order[i] := Start(order[i])];
    }
    assert order[..|order|] == order;
    r := Ok(result);
  }

  lemma StartsGrown<V>(order: seq<V>, P: seq<seq<Option<nat>>>, E: seq<seq<Option<Edge<V>>>>)
    requires Square(P, |order|) && Square(E, |order|)
    ensures Grown(order, P, E, map s | s in order :: Start(s), 0)
  {
  }

  /** With no negative cycle every path of a finished row answers its pair. */
  lemma BuiltAnswers<V>(g: Graph<V>, w: Edge<V> -> real, order: seq<V>,
                         M: seq<seq<Double>>, P: seq<seq<Option<nat>>>, E: seq<seq<Option<Edge<V>>>>,
                         i: nat, row: map<V, SimplePath<V>>, t: V)
    requires Computed(g, w, order, M, P, E) && NoNegativeCycle(g.edges, w) && i < |order|
    requires Built(order, P, E, i, row) && t in row
    ensures Answers(g.edges, w, order[i], t, row[t])
  {
    var j :| 0 <= j < |order| && order[j] == t;
    assert order[j] in row;
    Solved(g, w, order, M, P, E, i, j);
    if j != i && E[i][j].None? {
      assert Justified(g.edges, w, order, i, j, M[i][j], P[i][j], E[i][j]);
    } else {
      TightRow(g, w, order, M, P, E, i);
      TracedWeight(g.edges, w, order, M, P, E, i, j, row[order[j]].edges.value);
    }
  }

  /**
   * findAllShortestPaths of the newer copy: the matrices; a negative
   * diagonal entry throws; otherwise every source maps every vertex to the
   * path buildPath assembles, which is a shortest walk, or a path with no
   * edge list when the vertex is unreachable. The recursion overflows the
   * stack only on a predecessor chain that never returns to its source,
   * and with no negative cycle every chain returns, so the call succeeds.
   */
  method FindAllShortestPaths<V(==)>(g: Graph<V>, w: Edge<V> -> real, order: seq<V>)
    returns (r: Result<map<V, map<V, SimplePath<V>>>>,
             ghost M: seq<seq<Double>>, ghost P: seq<seq<Option<nat>>>, ghost E: seq<seq<Option<Edge<V>>>>)
    requires WellFormed(g) && Enumerates(order, g.vertices)
    ensures Computed(g, w, order, M, P, E)
    ensures r == Err(IllegalArgument) <==> !NoNegativeCycle(g.edges, w)
    ensures NoNegativeCycle(g.edges, w) ==> r.Ok?
    ensures r.Err? ==> r.error == IllegalArgument
    ensures r.Ok? ==> r.value.Keys == g.vertices && forall s | s in r.value :: r.value[s].Keys == g.vertices
    ensures r.Ok? ==> forall s, t | s in r.value && t in r.value[s] :: Answers(g.edges, w, s, t, r.value[s][t])
  {
    var D, PV, PE := Distances(g, w, order);
    M, P, E := Snap(D), Snap(PV), Snap(PE);
    assert Computed(g, w, order, M, P, E);
    NegativeDiagonal(g, w, order, M, P, E);
    EnumeratesSize(order, g.vertices);
    assert Holds(D, M, |order|) && Holds(PV, P, |order|) && Holds(PE, E, |order|);
    var start := Starts(order, D, M);
    if start.Err? {
      return start, M, P, E;
    }
    r := AllPaths(g, w, order, PV, PE, M, P, E, start.value);
  }

  /** The paths of the newer copy once the check has passed. */
  method AllPaths<V>(g: Graph<V>, w: Edge<V> -> real, order: seq<V>, PV: array2<Option<nat>>, PE: array2<Option<Edge<V>>>,
                     ghost M: seq<seq<Double>>, ghost P: seq<seq<Option<nat>>>, ghost E: seq<seq<Option<Edge<V>>>>,
                     start: map<V, map<V, SimplePath<V>>>)
    returns (r: Result<map<V, map<V, SimplePath<V>>>>)
    requires Computed(g, w, order, M, P, E) && NoNegativeCycle(g.edges, w)
    requires Holds(PV, P, |order|) && Holds(PE, E, |order|) && start == map s | s in order :: Start(s)
    ensures r.Err? ==> r.error == StackOverflow
    ensures r.Err? ==> exists i, j | 0 <= i < |order| && 0 <= j < |order| && E[i][j].Some? :: !Traces(order, P, E, i, j)
    ensures r.Ok? ==> r.value.Keys == g.vertices && forall s | s in r.value :: r.value[s].Keys == g.vertices
    ensures r.Ok? ==> forall s, t | s in r.value && t in r.value[s] :: Answers(g.edges, w, s, t, r.value[s][t])
  {
    AllChained(g, w, order, M, P, E);
    StartsGrown(order, P, E);
    r := BuildRows(g, order, PV, PE, P, E, start);
    if r.Ok? {
      Answered(g, w, order, M, P, E, r.value);
    }
  }

  /** A finished result answers every pair of vertices. */
  lemma Answered<V>(g: Graph<V>, w: Edge<V> -> real, order: seq<V>,
                    M: seq<seq<Double>>, P: seq<seq<Option<nat>>>, E: seq<seq<Option<Edge<V>>>>,
                    result: map<V, map<V, SimplePath<V>>>)
    requires Computed(g, w, order, M, P, E) && NoNegativeCycle(g.edges, w)
    requires Grown(order, P, E, result, |order|)
    ensures result.Keys == g.vertices && forall s | s in result :: result[s].Keys == g.vertices
    ensures forall s, t | s in result && t in result[s] :: Answers(g.edges, w, s, t, result[s][t])
  {
    forall s | s in result
      ensures result[s].Keys == g.vertices
      ensures forall t | t in result[s] :: Answers(g.edges, w, s, t, result[s][t])
    {
      var a :| 0 <= a < |order| && order[a] == s;
      assert Built(order, P, E, a, result[order[a]]);
      forall t | t in result[s]
        ensures Answers(g.edges, w, s, t, result[s][t])
      {
        BuiltAnswers(g, w, order, M, P, E, a, result[order[a]], t);
      }
    }
  }
}
