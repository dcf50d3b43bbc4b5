/**
 * Johnson's algorithm, the newer copy. Potentials start at 0 for every
 * vertex and are lowered by rounds that relax every edge (in the hash set's
 * iteration order, a parameter here) for i = 1 .. |V| - 2; if an edge can
 * still be relaxed afterwards the graph is taken to hold a negative cycle.
 * Each source then runs Dijkstra's settle loop on the reduced weights
 * w(e) + h(source of e) - h(target of e), and the result map holds, for
 * every target, the path built by following the recorded edges back to the
 * source.
 */
module Johnsons {
  import opened Wrappers
  import opened Doubles
  import opened Graphs
  import opened Paths
  import opened Walks
  import opened Searches
  import opened Dijkstras
  import BellmanFords

  /** The potential map `h`. */
  type Potentials<V> = map<V, real>

  /** Every vertex with potential 0. */
  function Zero<V>(vs: set<V>): Potentials<V> {
    map v | v in vs :: 0.0
  }

  /** One step of a round: the target's potential drops to the source's plus the weight when that is lower. */
  function Lower<V>(h: Potentials<V>, w: Edge<V> -> real, e: Edge<V>): (h': Potentials<V>)
    requires e.source in h && e.target in h
    ensures h'.Keys == h.Keys
  {
    var distance := h[e.source] + w(e);
    if h[e.target] > distance then h[e.target := distance] else h
  }

  /** Every edge of `order` joins two keys of `h`. */
  ghost predicate Spans<V>(h: Potentials<V>, order: seq<Edge<V>>) {
    forall e | e in order :: e.source in h && e.target in h
  }

  /** One round: the steps for the edges of `order`, first to last. */
  function Sweep<V>(h: Potentials<V>, w: Edge<V> -> real, order: seq<Edge<V>>): (h': Potentials<V>)
    requires Spans(h, order)
    ensures h'.Keys == h.Keys
    decreases |order|
  {
    if order == [] then h else Sweep(Lower(h, w, order[0]), w, order[1..])
  }

  /** `k` rounds. */
  function Rounds<V>(h: Potentials<V>, w: Edge<V> -> real, order: seq<Edge<V>>, k: nat): (h': Potentials<V>)
    requires Spans(h, order)
    ensures h'.Keys == h.Keys
    decreases k
  {
    if k == 0 then h else Rounds(Sweep(h, w, order), w, order, k - 1)
  }

  /** The potentials the code computes: |V| - 2 rounds from all zeros. */
  ghost function Computed<V>(g: Graph<V>, w: Edge<V> -> real, order: seq<Edge<V>>): Potentials<V>
    requires WellFormed(g) && Enumerates(order, g.edges)
  {
    Rounds(Zero(g.vertices), w, order, BellmanFords.RoundCount(|g.vertices|))
  }

  /** The first loop: every vertex, in the vertex set's order, gets potential 0. */
  method ZeroLoop<V>(vorder: seq<V>, ghost vs: set<V>) returns (h: Potentials<V>)
    requires Enumerates(vorder, vs)
    ensures h == Zero(vs)
  {
    h := map[];
    var k := 0;
    while k < |vorder|
      invariant k <= |vorder|
      invariant forall v :: v in h <==> v in vorder[..k]
      invariant forall v | v in h :: h[v] == 0.0
    {
      h := h[vorder[k] := 0.0];
      k := k + 1;
    }
    assert vorder[..k] == vorder;
  }

  /** The body of a round: each edge in order lowers its target's potential when it can. */
  method SweepLoop<V>(h: Potentials<V>, w: Edge<V> -> real, order: seq<Edge<V>>) returns (h': Potentials<V>)
    requires Spans(h, order)
    ensures h' == Sweep(h, w, order)
  {
    h' := h;
    var j := 0;
    while j < |order|
      invariant j <= |order| && h'.Keys == h.Keys
      invariant Sweep(h', w, order[j..]) == Sweep(h, w, order)
    {
      var e := order[j];
      assert order[j..][1..] == order[j + 1..];
      var distance := h'[e.source] + w(e);
      if h'[e.target] > distance {
        h' := h'[e.target := distance];
      }
      j := j + 1;
    }
    assert order[j..] == [];
  }

  /**
   * The potential loops: every vertex gets 0, then rounds i = 1 .. |V| - 2
   * each relax the edges in order.
   */
  method PotentialLoops<V>(g: Graph<V>, w: Edge<V> -> real, vorder: seq<V>, order: seq<Edge<V>>) returns (h: Potentials<V>)
    requires WellFormed(g) && Enumerates(vorder, g.vertices) && Enumerates(order, g.edges)
    ensures h == Computed(g, w, order)
    ensures h.Keys == g.vertices
  {
    h := ZeroLoop(vorder, g.vertices);
    var n := |g.vertices|;
    var i := 1;
    while i < n - 1
      invariant 1 <= i && h.Keys == g.vertices
      invariant Rounds(h, w, order, if n - 1 > i then n - 1 - i else 0) == Computed(g, w, order)
      decreases n - i
    {
      h := SweepLoop(h, w, order);
      i := i + 1;
    }
  }

  /**
   * The negative-cycle check: it throws IllegalArgumentException exactly
   * when some edge can still be relaxed, that is when the potentials are
   * not feasible.
   */
  method CheckPotentials<V>(g: Graph<V>, w: Edge<V> -> real, h: Potentials<V>, order: seq<Edge<V>>) returns (o: Outcome)
    requires WellFormed(g) && Enumerates(order, g.edges) && h.Keys == g.vertices
    ensures o.Fail? ==> o.error == IllegalArgument
    ensures o.Pass? <==> Feasible(g.edges, w, h)
  {
    var j := 0;
    while j < |order|
      invariant j <= |order|
      invariant forall a | 0 <= a < j :: h[order[a].target] <= h[order[a].source] + w(order[a])
    {
      var e := order[j];
      var distance := h[e.source] + w(e);
      if h[e.target] > distance {
        return Fail(IllegalArgument);
      }
      j := j + 1;
    }
    forall e | e in g.edges && e.source in h
      ensures e.target in h && h[e.target] <= h[e.source] + w(e)
    {
      var a :| 0 <= a < |order| && order[a] == e;
    }
    return Pass;
  }

  /** Feasible potentials on every vertex rule out negative cycles. */
  lemma FeasibleNoNegative<V>(g: Graph<V>, w: Edge<V> -> real, h: Potentials<V>)
    requires WellFormed(g) && g.vertices <= h.Keys && Feasible(g.edges, w, h)
    ensures NoNegativeCycle(g.edges, w)
  {
    forall e, c | e in g.edges && IsPath(g.edges, e.target, c, e.source)
      ensures w(e) + Weight(w, c) >= 0.0
    {
      FeasibleBound(g.edges, w, h, e.target, c, e.source);
    }
  }

  /** A potential, 0 for a vertex without one. */
  function Pot<V>(h: Potentials<V>, v: V): real {
    if v in h then h[v] else 0.0
  }

  /** The reduced weight of the per-source searches. */
  function Reduced<V>(w: Edge<V> -> real, h: Potentials<V>): Edge<V> -> real {
    e => w(e) + Pot(h, e.source) - Pot(h, e.target)
  }

  /** Along any walk the reduced weights telescope: the walk's weight plus the potential difference of its ends. */
  lemma {:induction false} ReducedWeight<V>(es: set<Edge<V>>, w: Edge<V> -> real, h: Potentials<V>, s: V, p: seq<Edge<V>>, t: V)
    requires IsPath(es, s, p, t)
    ensures Weight(Reduced(w, h), p) == Weight(w, p) + Pot(h, s) - Pot(h, t)
    decreases |p|
  {
    if p != [] {
      ReducedWeight(es, w, h, p[0].target, p[1..], t);
    }
  }

  /** With feasible potentials no reduced weight is negative, so the settle loop never throws. */
  lemma ReducedNonNegative<V>(g: Graph<V>, w: Edge<V> -> real, h: Potentials<V>, source: V)
    requires WellFormed(g) && h.Keys == g.vertices && Feasible(g.edges, w, h)
    ensures forall e | e in g.edges :: Reduced(w, h)(e) >= 0.0
    ensures !NegativeReachable(g, Reduced(w, h), source)
  {
  }

  /** Every walk of at most `k` edges, from anywhere, weighs at least the potential of its last vertex. */
  ghost predicate Bounded<V(!new)>(es: set<Edge<V>>, w: Edge<V> -> real, h: Potentials<V>, k: nat) {
    forall u, p, t | IsPath(es, u, p, t) && |p| <= k && t in h :: h[t] <= Weight(w, p)
  }

  /** Every potential is the weight of some walk ending at its vertex. */
  ghost predicate Grounded<V(!new)>(es: set<Edge<V>>, w: Edge<V> -> real, h: Potentials<V>) {
    forall t | t in h :: exists u, p :: IsPath(es, u, p, t) && Weight(w, p) == h[t]
  }

  lemma ZeroGrounded<V(!new)>(es: set<Edge<V>>, w: Edge<V> -> real, vs: set<V>)
    ensures Grounded(es, w, Zero(vs)) && Bounded(es, w, Zero(vs), 0)
  {
    forall t | t in Zero(vs)
      ensures exists u, p :: IsPath(es, u, p, t) && Weight(w, p) == Zero(vs)[t]
    {
      assert IsPath(es, t, [], t) && Weight(w, []) == 0.0;
    }
  }

  /** A round keeps every potential the weight of a walk. */
  lemma {:induction false} SweepGrounded<V(!new)>(es: set<Edge<V>>, w: Edge<V> -> real, h: Potentials<V>, order: seq<Edge<V>>)
    requires Grounded(es, w, h) && Spans(h, order) && forall e | e in order :: e in es
    ensures Grounded(es, w, Sweep(h, w, order))
    decreases |order|
  {
    if order != [] {
      var e := order[0];
      var h1 := Lower(h, w, e);
      if h[e.target] > h[e.source] + w(e) {
        forall t | t in h1
          ensures exists u, p :: IsPath(es, u, p, t) && Weight(w, p) == h1[t]
        {
          if t == e.target {
            var u, p :| IsPath(es, u, p, e.source) && Weight(w, p) == h[e.source];
            PathSnoc(es, w, u, p, e);
          }
        }
      }
      SweepGrounded(es, w, h1, order[1..]);
    }
  }

  lemma {:induction false} RoundsGrounded<V(!new)>(es: set<Edge<V>>, w: Edge<V> -> real, h: Potentials<V>, order: seq<Edge<V>>, k: nat)
    requires Grounded(es, w, h) && Spans(h, order) && forall e | e in order :: e in es
    ensures Grounded(es, w, Rounds(h, w, order, k))
    decreases k
  {
    if k > 0 {
      SweepGrounded(es, w, h, order);
      RoundsGrounded(es, w, Sweep(h, w, order), order, k - 1);
    }
  }

  /** A round lowers no potential's key set, raises no potential, and leaves every edge of `order` relaxed against the old source potential. */
  lemma {:induction false} SweepCovers<V>(h: Potentials<V>, w: Edge<V> -> real, order: seq<Edge<V>>)
    requires Spans(h, order)
    ensures forall v | v in h :: Sweep(h, w, order)[v] <= h[v]
    ensures forall e | e in order :: Sweep(h, w, order)[e.target] <= h[e.source] + w(e)
    decreases |order|
  {
    if order != [] {
      var h1 := Lower(h, w, order[0]);
      SweepCovers(h1, w, order[1..]);
      assert forall e | e in order :: e == order[0] || e in order[1..];
    }
  }

  /** After one more round, walks one edge longer are bounded too. */
  lemma SweepBound<V(!new)>(es: set<Edge<V>>, w: Edge<V> -> real, h: Potentials<V>, order: seq<Edge<V>>, k: nat)
    requires Bounded(es, w, h, k) && Spans(h, order) && forall e | e in es :: e in order
    ensures Bounded(es, w, Sweep(h, w, order), k + 1)
  {
    var out := Sweep(h, w, order);
    SweepCovers(h, w, order);
    forall u, p, t | IsPath(es, u, p, t) && |p| <= k + 1 && t in out
      ensures out[t] <= Weight(w, p)
    {
      if |p| == k + 1 {
        PathUnsnoc(es, u, p, t);
        var e := p[|p| - 1];
        var init := p[..|p| - 1];
        WeightAppend(w, init, [e]);
        assert init + [e] == p;
        assert Weight(w, [e]) == w(e) by {
          assert [e][1..] == [];
        }
      }
    }
  }

  lemma {:induction false} RoundsBound<V(!new)>(es: set<Edge<V>>, w: Edge<V> -> real, h: Potentials<V>, order: seq<Edge<V>>,
                                                j: nat, k: nat)
    requires Bounded(es, w, h, j) && Spans(h, order) && forall e | e in es :: e in order
    ensures Bounded(es, w, Rounds(h, w, order, k), j + k)
    decreases k
  {
    if k > 0 {
      SweepBound(es, w, h, order, j);
      RoundsBound(es, w, Sweep(h, w, order), order, j + 1, k - 1);
    }
  }

  /**
   * With the |V| - 1 rounds the algorithm intends, a graph without a
   * negative cycle always passes the check.
   */
  lemma IntendedFeasible<V(!new)>(g: Graph<V>, w: Edge<V> -> real, order: seq<Edge<V>>)
    requires WellFormed(g) && Enumerates(order, g.edges) && NoNegativeCycle(g.edges, w)
    ensures Feasible(g.edges, w, Rounds(Zero(g.vertices), w, order, BellmanFords.IntendedCount(|g.vertices|)))
  {
    var n := |g.vertices|;
    var h0 := Zero(g.vertices);
    var h := Rounds(h0, w, order, BellmanFords.IntendedCount(n));
    ZeroGrounded(g.edges, w, g.vertices);
    RoundsGrounded(g.edges, w, h0, order, BellmanFords.IntendedCount(n));
    RoundsBound(g.edges, w, h0, order, 0, BellmanFords.IntendedCount(n));
    forall e | e in g.edges && e.source in h
      ensures e.target in h && h[e.target] <= h[e.source] + w(e)
    {
      var u, p :| IsPath(g.edges, u, p, e.source) && Weight(w, p) == h[e.source];
      PathSnoc(g.edges, w, u, p, e);
      var q := Shortcut(g, w, u, p + [e], e.target);
    }
  }

  /** A walk along edges that each climb to a larger number never returns. */
  lemma {:induction false} Ascends(es: set<Edge<int>>, x: int, p: seq<Edge<int>>, y: int)
    requires (forall e | e in es :: e.source < e.target) && IsPath(es, x, p, y)
    ensures x <= y
    decreases |p|
  {
    if p != [] {
      Ascends(es, p[0].target, p[1..], y);
    }
  }

  /** Over climbing edges no edge closes a cycle. */
  lemma NoReturn(es: set<Edge<int>>, e: Edge<int>, c: seq<Edge<int>>)
    requires forall f | f in es :: f.source < f.target
    ensures !(e in es && IsPath(es, e.target, c, e.source))
  {
    if e in es && IsPath(es, e.target, c, e.source) {
      Ascends(es, e.target, c, e.source);
    }
  }

  /**
   * The rounds as written reject a graph without any cycle: on the chain
   * 0 -> 1 -> 2 with both weights -1 and the second edge first in the edge
   * set's order, the single round lowers 2 before 1 and the check then
   * finds the edge 1 -> 2 still relaxable.
   */
  lemma AsWrittenRejects()
    ensures var g := Graph({0, 1, 2}, {Edge(0, 1, Pair), Edge(1, 2, Pair)});
      var w := (e: Edge<int>) => -1.0;
      var order := [Edge(1, 2, Pair), Edge(0, 1, Pair)];
      && WellFormed(g) && Enumerates(order, g.edges) && NoNegativeCycle(g.edges, w)
      && !Feasible(g.edges, w, Rounds(Zero(g.vertices), w, order, BellmanFords.RoundCount(|g.vertices|)))
  {
    var g := Graph({0, 1, 2}, {Edge(0, 1, Pair), Edge(1, 2, Pair)});
    var w := (e: Edge<int>) => -1.0;
    var order := [Edge(1, 2, Pair), Edge(0, 1, Pair)];
    assert |g.vertices| == 3;
    forall e: Edge<int>, c: seq<Edge<int>>
      ensures e in g.edges && IsPath(g.edges, e.target, c, e.source) ==> w(e) + Weight(w, c) >= 0.0
    {
      NoReturn(g.edges, e, c);
    }
    var h0 := Zero(g.vertices);
    assert h0 == map[0 := 0.0, 1 := 0.0, 2 := 0.0];
    var h1 := Lower(h0, w, order[0]);
    assert h1 == map[0 := 0.0, 1 := 0.0, 2 := -1.0];
    var h2 := Lower(h1, w, order[1]);
    assert h2 == map[0 := 0.0, 1 := -1.0, 2 := -1.0];
    assert order[1..][1..] == [];
    assert Rounds(h0, w, order, 1) == h2;
    assert Edge(1, 2, Pair) in g.edges && h2[2] > h2[1] + w(Edge(1, 2, Pair));
  }

  /**
   * What the per-source map holds while it is filled: a vertex with a
   * recorded chain maps to the path of that chain, any other key to the
   * path with null edges.
   */
  ghost predicate Filled<V>(es: set<Edge<V>>, previous: map<V, Option<Edge<V>>>, source: V, rank: map<V, nat>,
                            paths: map<V, SimplePath<V>>) {
    && Chain(es, previous, source, rank)
    && source in paths
    && forall u | u in paths ::
         if u in rank then paths[u] == SimplePath(source, u, Some(Back(es, previous, source, rank, u)))
         else paths[u] == SimplePath(source, u, None)
  }

  /**
   * buildPath: a target already in the map is left alone; otherwise the
   * path of its recorded edge's source is built first when missing, and the
   * target's path is that path extended by the edge.
   */
  method BuildPath<V>(previous: map<V, Option<Edge<V>>>, paths: map<V, SimplePath<V>>, source: V, target: V,
                      ghost es: set<Edge<V>>, ghost rank: map<V, nat>)
    returns (paths': map<V, SimplePath<V>>)
    requires Filled(es, previous, source, rank, paths) && target in rank
    ensures Filled(es, previous, source, rank, paths') && target in paths'
    ensures paths.Keys <= paths'.Keys <= paths.Keys + rank.Keys
    decreases rank[target]
  {
    paths' := paths;
    if target !in paths {
      var edge := previous[target].value;
      if edge.source !in paths {
        paths' := BuildPath(previous, paths, source, edge.source, es, rank);
      }
      var temp := paths'[edge.source].edges.value + [edge];
      paths' := paths'[target := SimplePath(source, target, Some(temp))];
    }
  }

  /** A vertex the source reaches is a vertex of the graph. */
  lemma ReachedVertex<V>(g: Graph<V>, source: V, v: V)
    requires WellFormed(g) && source in g.vertices && Reachable(g.edges, source, v)
    ensures v in g.vertices
  {
    var p :| IsPath(g.edges, source, p, v);
    if p != [] {
      PathUnsnoc(g.edges, source, p, v);
    }
  }

  /**
   * The map filled after a settle loop on the reduced weights answers every
   * target with a least-weight path under the original weights, or with
   * null edges when the target is not reached.
   */
  lemma FilledAnswers<V>(g: Graph<V>, w: Edge<V> -> real, h: Potentials<V>, source: V, previous: map<V, Option<Edge<V>>>,
                         dist: map<V, real>, rank: map<V, nat>, paths: map<V, SimplePath<V>>, t: V)
    requires Shortest(g, Reduced(w, h), source, previous, dist, rank)
    requires forall v, p | IsPath(g.edges, source, p, v) :: v in dist && dist[v] <= Weight(Reduced(w, h), p)
    requires Filled(g.edges, previous, source, rank, paths) && t in paths
    ensures Answers(g.edges, w, source, t, paths[t])
  {
    if t in rank {
      var b := Back(g.edges, previous, source, rank, t);
      BackPath(g.edges, previous, source, rank, t);
      BackWeight(g.edges, previous, source, rank, Reduced(w, h), dist, t);
      ReducedWeight(g.edges, w, h, source, b, t);
      forall q | IsPath(g.edges, source, q, t)
        ensures Weight(w, b) <= Weight(w, q)
      {
        ReducedWeight(g.edges, w, h, source, q, t);
      }
    }
  }

  /**
   * The map loop of one source: the source maps to the empty path; every
   * other vertex with a recorded edge gets its built path, every vertex
   * without one a path with null edges.
   */
  method FillPaths<V>(previous: map<V, Option<Edge<V>>>, source: V, vorder: seq<V>,
                      ghost es: set<Edge<V>>, ghost rank: map<V, nat>, ghost vs: set<V>)
    returns (paths: map<V, SimplePath<V>>)
    requires Chain(es, previous, source, rank) && source !in previous && previous.Keys <= rank.Keys
    requires Enumerates(vorder, vs) && source in vs && rank.Keys <= vs
    ensures Filled(es, previous, source, rank, paths) && paths.Keys == vs
  {
    paths := map[source := SimplePath(source, source, Some([]))];
    var j := 0;
    while j < |vorder|
      invariant j <= |vorder|
      invariant Filled(es, previous, source, rank, paths) && paths.Keys <= vs
      invariant forall t | t in vorder[..j] :: t in paths
    {
      var target := vorder[j];
      if target != source {
        if target in previous {
          paths := BuildPath(previous, paths, source, target, es, rank);
        } else {
          paths := paths[target := SimplePath(source, target, None)];
        }
      }
      j := j + 1;
    }
    assert vorder[..j] == vorder;
  }

  /**
   * One source's search: the settle loop on the reduced weights, which
   * cannot throw with feasible potentials, then the map from every vertex
   * to its path.
   */
  method FromSource<V>(g: Graph<V>, w: Edge<V> -> real, h: Potentials<V>, vorder: seq<V>, source: V)
    returns (paths: map<V, SimplePath<V>>)
    requires WellFormed(g) && Enumerates(vorder, g.vertices) && h.Keys == g.vertices && source in g.vertices
    requires Feasible(g.edges, w, h)
    ensures paths.Keys == g.vertices
    ensures forall t | t in paths :: Answers(g.edges, w, source, t, paths[t])
  {
    var o, heap, hn, previous, dist, rank := Settle(g, Reduced(w, h), source, true);
    if o.Fail? {
      ReducedNonNegative(g, w, h, source);
      assert false;
    }
    forall v | v in rank
      ensures v in g.vertices
    {
      ReachedVertex(g, source, v);
    }
    paths := FillPaths(previous, source, vorder, g.edges, rank, g.vertices);
    forall t | t in paths
      ensures Answers(g.edges, w, source, t, paths[t])
    {
      FilledAnswers(g, w, h, source, previous, dist, rank, paths, t);
    }
  }

  /**
   * findAllShortestPaths of the newer copy: IllegalArgumentException
   * exactly when the potentials after the rounds are not feasible (always
   * the case with a negative cycle); otherwise every vertex maps every
   * vertex to a least-weight path, or to null edges when unreachable.
   */
  method AllShortestPaths<V>(g: Graph<V>, w: Edge<V> -> real, vorder: seq<V>, order: seq<Edge<V>>)
    returns (r: Result<map<V, map<V, SimplePath<V>>>>)
    requires WellFormed(g) && Enumerates(vorder, g.vertices) && Enumerates(order, g.edges)
    ensures r.Err? ==> r.error == IllegalArgument
    ensures r.Err? <==> !Feasible(g.edges, w, Computed(g, w, order))
    ensures !NoNegativeCycle(g.edges, w) ==> r.Err?
    ensures r.Ok? ==> r.value.Keys == g.vertices
    ensures r.Ok? ==> forall s | s in r.value ::
      && r.value[s].Keys == g.vertices
      && forall t | t in r.value[s] :: Answers(g.edges, w, s, t, r.value[s][t])
  {
    var h := PotentialLoops(g, w, vorder, order);
    var o := CheckPotentials(g, w, h, order);
    if o.Fail? {
      return Err(o.error);
    }
    FeasibleNoNegative(g, w, h);
    var result: map<V, map<V, SimplePath<V>>> := map[];
    var i := 0;
    while i < |vorder|
      invariant i <= |vorder|
      invariant forall s :: s in result <==> s in vorder[..i]
      invariant forall s | s in result ::
        && result[s].Keys == g.vertices
        && forall t | t in result[s] :: Answers(g.edges, w, s, t, result[s][t])
    {
      var source := vorder[i];
      var paths := FromSource(g, w, h, vorder, source);
      result := result[source := paths];
      i := i + 1;
    }
    assert vorder[..i] == vorder;
    r := Ok(result);
  }
}
