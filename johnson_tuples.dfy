/**
 * Johnson's algorithm, the older copy. The potentials are computed and
 * checked as in the newer copy (the same rounds i = 1 .. |V| - 2 and the
 * same check). Each source then runs the label-correcting search of
 * LazySearches on the reduced weights, with priority the new distance and
 * no early stop, and its `info` map is turned back into distances under the
 * original weights: a vertex met gets its distance minus h(source) plus
 * h(vertex), a vertex not met the tuple (null, +infinity).
 */
module JohnsonTuples {
  import opened Wrappers
  import opened Doubles
  import opened Graphs
  import opened Paths
  import opened Walks
  import opened Labels
  import opened LazySearches
  import Johnsons

  /** A result tuple: the vertex before the target on the path found (null for none) and the distance. */
  datatype Entry<V> = Entry(pred: Option<V>, dist: Double)

  /**
   * A result tuple that answers the pair (s, t): its distance is the least
   * walk weight (+infinity when there is no walk), and its vertex is the
   * one before `t` on a walk of that weight.
   */
  ghost predicate Answered<V>(es: set<Edge<V>>, w: Edge<V> -> real, s: V, t: V, entry: Entry<V>) {
    Exact(es, w, s, t, entry.dist) && LastHop(es, w, s, t, entry.pred, entry.dist)
  }

  /** One source's result map: every vertex, each with a tuple that answers it. */
  ghost predicate Row<V>(g: Graph<V>, w: Edge<V> -> real, s: V, row: map<V, Entry<V>>) {
    row.Keys == g.vertices && forall t | t in row :: Answered(g.edges, w, s, t, row[t])
  }

  /**
   * The result tuple for `v` after the search from `s` under the reduced
   * weights: the tuple of `info` with its distance shifted back, or (null,
   * +infinity) for a vertex the search never met.
   */
  function Restored<V>(info: map<V, Label<V>>, h: Johnsons.Potentials<V>, s: V, v: V): Entry<V> {
    if v in info then Entry(info[v].pred, Fin(info[v].dist - Johnsons.Pot(h, s) + Johnsons.Pot(h, v)))
    else Entry(None, PosInf)
  }

  /**
   * A search that ran to an empty heap on the reduced weights gives, once
   * shifted back, the least weight under the original weights, and the
   * vertex before the target on a walk of that weight.
   */
  lemma RestoredExact<V>(g: Graph<V>, w: Edge<V> -> real, h: Johnsons.Potentials<V>, s: V,
                         info: map<V, Label<V>>, snap: map<V, seq<Edge<V>>>, t: V)
    requires WellFormed(g) && Informed(g.edges, Johnsons.Reduced(w, h), s, info, snap)
    requires Exact(g.edges, Johnsons.Reduced(w, h), s, t, if t in info then Fin(info[t].dist) else PosInf)
    ensures Answered(g.edges, w, s, t, Restored(info, h, s, t))
  {
    RestoredDistance(g, w, h, s, info, t);
    RestoredHop(g, w, h, s, info, snap, t);
  }

  /** The shifted distance is the least walk weight under the original weights. */
  lemma RestoredDistance<V>(g: Graph<V>, w: Edge<V> -> real, h: Johnsons.Potentials<V>, s: V, info: map<V, Label<V>>, t: V)
    requires Exact(g.edges, Johnsons.Reduced(w, h), s, t, if t in info then Fin(info[t].dist) else PosInf)
    ensures Exact(g.edges, w, s, t, Restored(info, h, s, t).dist)
  {
    if t in info {
      var d := info[t].dist;
      var p :| IsPath(g.edges, s, p, t) && Weight(Johnsons.Reduced(w, h), p) == d;
      Johnsons.ReducedWeight(g.edges, w, h, s, p, t);
      forall q | IsPath(g.edges, s, q, t)
        ensures d - Johnsons.Pot(h, s) + Johnsons.Pot(h, t) <= Weight(w, q)
      {
        Johnsons.ReducedWeight(g.edges, w, h, s, q, t);
      }
    }
  }

  /** The tuple's vertex comes last before `t` on the walk recorded for `t`, which has the shifted weight. */
  lemma RestoredHop<V>(g: Graph<V>, w: Edge<V> -> real, h: Johnsons.Potentials<V>, s: V,
                       info: map<V, Label<V>>, snap: map<V, seq<Edge<V>>>, t: V)
    requires WellFormed(g) && Informed(g.edges, Johnsons.Reduced(w, h), s, info, snap)
    ensures LastHop(g.edges, w, s, t, Restored(info, h, s, t).pred, Restored(info, h, s, t).dist)
  {
    if t in info {
      assert Recorded(g.edges, Johnsons.Reduced(w, h), s, Dists(info), snap[t], t);
      if t != s {
        var b := snap[t];
        var e := b[|b| - 1];
        var front := b[..|b| - 1];
        PathUnsnoc(g.edges, s, b, t);
        assert b == front + [e];
        WeightAppend(w, front, [e]);
        Johnsons.ReducedWeight(g.edges, w, h, s, b, t);
      }
    }
  }

  /** The conversion loop over the vertices of one source's `info`. */
  method Restore<V>(info: map<V, Label<V>>, h: Johnsons.Potentials<V>, source: V, vorder: seq<V>, ghost vs: set<V>)
    returns (row: map<V, Entry<V>>)
    requires Enumerates(vorder, vs) && source in h && vs <= h.Keys
    ensures row.Keys == vs && forall v | v in row :: row[v] == Restored(info, h, source, v)
  {
    row := map[];
    var j := 0;
    while j < |vorder|
      invariant j <= |vorder|
      invariant row.Keys == set v | v in vorder[..j]
      invariant forall v | v in row :: row[v] == Restored(info, h, source, v)
    {
      var v := vorder[j];
      if v in info {
        var t := info[v];
        Grow(row, vorder, j, Entry(t.pred, Fin(t.dist - h[source] + h[v])), vorder[..j + 1]);
        row := row[v := Entry(t.pred, Fin(t.dist - h[source] + h[v]))];
      } else {
        Grow(row, vorder, j, Entry(None, PosInf), vorder[..j + 1]);
        row := row[v := Entry(None, PosInf)];
      }
      j := j + 1;
    }
    Whole(vorder, vs);
  }

  /**
   * One source's search: the label-correcting loop on the reduced weights,
   * which cannot throw with feasible potentials, then the conversion.
   */
  method TuplesFromSource<V>(g: Graph<V>, w: Edge<V> -> real, h: Johnsons.Potentials<V>, vorder: seq<V>, source: V)
    returns (row: map<V, Entry<V>>)
    requires WellFormed(g) && Enumerates(vorder, g.vertices) && h.Keys == g.vertices && source in g.vertices
    requires Feasible(g.edges, w, h)
    ensures Row(g, w, source, row)
  {
    Johnsons.ReducedNonNegative(g, w, h, source);
    var o, info, snap, stopped, _, _ := Search(g, Johnsons.Reduced(w, h), source, None, false, v => Fin(0.0));
    if o.Fail? {
      assert false;
    }
    row := Restore(info, h, source, vorder, g.vertices);
    forall t | t in row
      ensures Answered(g.edges, w, source, t, row[t])
    {
      RestoredExact(g, w, h, source, info, snap, t);
    }
  }

  /**
   * findAllShortestPaths of the older copy: IllegalArgumentException exactly
   * when the potentials after the rounds are not feasible (always the case
   * with a negative cycle); otherwise every vertex maps every vertex to the
   * least walk weight (+infinity when unreachable) and the vertex before it
   * on such a walk (null for the source itself and for unreachable ones).
   */
  method AllShortestTuples<V>(g: Graph<V>, w: Edge<V> -> real, vorder: seq<V>, order: seq<Edge<V>>)
    returns (r: Result<map<V, map<V, Entry<V>>>>)
    requires WellFormed(g) && Enumerates(vorder, g.vertices) && Enumerates(order, g.edges)
    ensures r.Err? ==> r.error == IllegalArgument
    ensures r.Err? <==> !Feasible(g.edges, w, Johnsons.Computed(g, w, order))
    ensures !NoNegativeCycle(g.edges, w) ==> r.Err?
    ensures r.Ok? ==> r.value.Keys == g.vertices
    ensures r.Ok? ==> forall s | s in r.value :: Row(g, w, s, r.value[s])
  {
    var h := Johnsons.PotentialLoops(g, w, vorder, order);
    var o := Johnsons.CheckPotentials(g, w, h, order);
    if o.Fail? {
      return Err(o.error);
    }
    Johnsons.FeasibleNoNegative(g, w, h);
    var result: map<V, map<V, Entry<V>>> := map[];
    var i := 0;
    while i < |vorder|
      invariant i <= |vorder|
      invariant result.Keys == set s | s in vorder[..i]
      invariant forall s | s in result :: Row(g, w, s, result[s])
    {
      var source := vorder[i];
      var row := TuplesFromSource(g, w, h, vorder, source);
      Grow(result, vorder, i, row, vorder[..i + 1]);
      result := result[source := row];
      i := i + 1;
    }
    Whole(vorder, g.vertices);
    r := Ok(result);
  }

  lemma Grow<K, X>(m: map<K, X>, order: seq<K>, i: nat, x: X, next: seq<K>)
    requires i < |order| && m.Keys == set k | k in order[..i]
    requires next == order[..i + 1]
    ensures m[order[i] := x].Keys == set k | k in next
  {
    assert next == order[..i] + [order[i]];
  }

  lemma Whole<K>(order: seq<K>, ks: set<K>)
    requires Enumerates(order, ks)
    ensures (set k | k in order[..|order|]) == ks
  {
    assert order[..|order|] == order;
  }
}
