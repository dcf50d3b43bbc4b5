/**
 * A* search, the older copy: the label-correcting search of LazySearches
 * with priority the new distance plus heuristic(vertex, target), stopped
 * as soon as the target leaves the heap. The answer is null when the target
 * never got a tuple, and otherwise the tuples met when following the
 * predecessors back from the target to the source's (null, 0), listed
 * source-first.
 */
module AStarTuples {
  import opened Wrappers
  import opened Doubles
  import opened Graphs
  import opened Paths
  import opened Walks
  import opened Labels
  import opened LazySearches
  import AStarSearches

  /** Some edge leads from `a` to `b`, and `a`'s distance plus its weight is at most `b`'s. */
  ghost predicate Joined<V>(es: set<Edge<V>>, w: Edge<V> -> real, a: V, b: V, da: real, db: real) {
    exists e | e in es && e.source == a && e.target == b :: da + w(e) <= db
  }

  /**
   * The result list against the vertices `vs` it stands for: it runs from
   * the source's (null, 0) to the target, every other tuple names the
   * vertex before it, some edge joins each vertex to the next without
   * beating the later distance, and the target's distance is the weight of
   * a walk from the source.
   */
  ghost predicate Traced<V>(es: set<Edge<V>>, w: Edge<V> -> real, s: V, t: V, vs: seq<V>, list: seq<Label<V>>) {
    && |vs| == |list| && vs != []
    && vs[0] == s && vs[|vs| - 1] == t && list[0] == Label(None, 0.0)
    && (forall i | 0 < i < |vs| :: list[i].pred == Some(vs[i - 1]))
    && (forall i | 0 < i < |vs| :: Joined(es, w, vs[i - 1], vs[i], list[i - 1].dist, list[i].dist))
    && exists p :: IsPath(es, s, p, t) && Weight(w, p) == list[|list| - 1].dist
  }

  /** The part of the list gathered so far: the tuples of `info` for `vs`, joined one to the next. */
  ghost predicate Gathered<V>(es: set<Edge<V>>, w: Edge<V> -> real, info: map<V, Label<V>>, vs: seq<V>, list: seq<Label<V>>) {
    && |vs| == |list|
    && (forall i | 0 <= i < |vs| :: vs[i] in info && list[i] == info[vs[i]])
    && (forall i | 0 < i < |vs| :: info[vs[i]].pred == Some(vs[i - 1]))
    && (forall i | 0 < i < |vs| :: Joined(es, w, vs[i - 1], vs[i], info[vs[i - 1]].dist, info[vs[i]].dist))
  }

  /**
   * A vertex other than the source has a predecessor with a tuple, ranked
   * lower, joined to it by the last edge of its recorded walk; the source's
   * tuple is (null, 0).
   */
  lemma Back<V>(g: Graph<V>, w: Edge<V> -> real, s: V, info: map<V, Label<V>>, snap: map<V, seq<Edge<V>>>, v: V)
    requires WellFormed(g) && Informed(g.edges, w, s, info, snap) && v in info
    ensures v == s <==> info[v].pred.None?
    ensures v == s ==> info[v] == Label(None, 0.0)
    ensures v != s ==> var u := info[v].pred.value;
      && u in info && Ranks(g, Dists(info), snap)[u] < Ranks(g, Dists(info), snap)[v]
      && Joined(g.edges, w, u, v, info[u].dist, info[v].dist)
  {
    var dist := Dists(info);
    if v != s {
      var p := snap[v];
      var e := p[|p| - 1];
      assert Recorded(g.edges, w, s, dist, p, v) && Hangs(w, dist, snap, v, e);
      PathUnsnoc(g.edges, s, p, v);
      Descend(g, w, s, dist, snap, v);
    }
  }

  /** The tuple of the predecessor `u` of the first vertex gathered goes in front. */
  lemma GatherFront<V>(es: set<Edge<V>>, w: Edge<V> -> real, info: map<V, Label<V>>, vs: seq<V>, list: seq<Label<V>>, u: V)
    requires Gathered(es, w, info, vs, list) && vs != [] && u in info && info[vs[0]].pred == Some(u)
    requires Joined(es, w, u, vs[0], info[u].dist, info[vs[0]].dist)
    ensures Gathered(es, w, info, [u] + vs, [info[u]] + list)
  {
    var vs', list' := [u] + vs, [info[u]] + list;
    forall i | 0 < i < |vs'|
      ensures info[vs'[i]].pred == Some(vs'[i - 1])
      ensures Joined(es, w, vs'[i - 1], vs'[i], info[vs'[i - 1]].dist, info[vs'[i]].dist)
    {
      if i > 1 {
        assert vs'[i] == vs[i - 1] && vs'[i - 1] == vs[i - 2];
      }
    }
  }

  /** Gathered back to the source, the list is the answer. */
  lemma GatherDone<V>(g: Graph<V>, w: Edge<V> -> real, s: V, t: V, info: map<V, Label<V>>, snap: map<V, seq<Edge<V>>>,
                      vs: seq<V>, list: seq<Label<V>>)
    requires WellFormed(g) && Informed(g.edges, w, s, info, snap) && t in info
    requires Gathered(g.edges, w, info, vs, list) && vs != [] && vs[0] == s && vs[|vs| - 1] == t
    ensures Traced(g.edges, w, s, t, vs, list)
  {
    Back(g, w, s, info, snap, s);
    assert Recorded(g.edges, w, s, Dists(info), snap[t], t);
    assert Dists(info)[t] == list[|list| - 1].dist;
  }

  /**
   * When the search stops at `t` under a heuristic that is admissible for
   * `t`, the label of `t` is at most the weight of every walk to it: each
   * live entry's distance plus heuristic is no less than the least priority
   * taken, which is no less than `t`'s, and some live entry lies on every
   * walk from the source that `t`'s label does not already beat.
   */
  lemma Optimal<V>(g: Graph<V>, w: Edge<V> -> real, s: V, dist: map<V, real>, snap: map<V, seq<Edge<V>>>,
                   live: set<V>, t: V, least: Double, key: V -> Double, p: seq<Edge<V>>)
    requires WellFormed(g) && Tentative(g.edges, w, s, dist, snap) && Leading(g.edges, w, s, dist, live, t, least, key)
    requires AStarSearches.Admissible(g.edges, w, key, t, g.vertices + {s}) && IsPath(g.edges, s, p, t)
    ensures dist[t] <= Weight(w, p)
  {
    var es := g.edges;
    assert key(s).r <= Weight(w, p);
    if t != s {
      AStarSearches.Sweep(es, w, dist, live, s, p, t, 0.0);
      if AStarSearches.Ahead(es, w, dist, live, t, 0.0 + Weight(w, p)) {
        var y, r :| y in live && IsPath(es, y, r, t) && y in dist && dist[y] + Weight(w, r) <= 0.0 + Weight(w, p);
        InGraph(g, w, s, dist, snap, y);
        InGraph(g, w, s, dist, snap, t);
        assert Le(Fin(dist[t] + key(t).r), least);
        if !(y == s && Le(least, Fin(0.0))) {
          assert key(y).r <= Weight(w, r);
          LeTransitive(Fin(dist[t] + key(t).r), least, Fin(dist[y] + key(y).r));
        }
      }
    }
  }

  /**
   * The list-building loop: push the target's tuple, then the tuple of each
   * predecessor until a tuple names none.
   */
  method Trace<V>(g: Graph<V>, w: Edge<V> -> real, source: V, target: V, info: map<V, Label<V>>,
                  ghost snap: map<V, seq<Edge<V>>>)
    returns (list: seq<Label<V>>, ghost vs: seq<V>)
    requires WellFormed(g) && Informed(g.edges, w, source, info, snap) && target in info
    ensures Traced(g.edges, w, source, target, vs, list) && list[|list| - 1] == info[target]
  {
    ghost var rank := Ranks(g, Dists(info), snap);
    var cur := target;
    list := [info[cur]];
    vs := [cur];
    while info[cur].pred.Some?
      invariant cur in info && vs != [] && vs[0] == cur && vs[|vs| - 1] == target
      invariant Gathered(g.edges, w, info, vs, list)
      decreases rank[cur]
    {
      Back(g, w, source, info, snap, cur);
      var u := info[cur].pred.value;
      GatherFront(g.edges, w, info, vs, list, u);
      cur := u;
      list := [info[cur]] + list;
      vs := [cur] + vs;
    }
    Back(g, w, source, info, snap, cur);
    GatherDone(g, w, source, target, info, snap, vs, list);
  }

  /**
   * findShortestPath of the older copy. It throws NullPointerException
   * exactly when the source is not a vertex (and is not the target, which
   * stops the search before the graph is asked), IllegalArgumentException
   * only for a negative out-edge of a reached vertex or a NaN priority, and
   * returns null exactly when the target cannot be reached. A list it
   * returns goes from (null, 0) to the target's tuple along edges of the
   * graph, and its last distance is the weight of a walk to the target,
   * no more than the weight of any walk to it when the heuristic is
   * admissible for the target.
   */
  method FindShortestPath<V>(g: Graph<V>, w: Edge<V> -> real, source: V, target: V, heuristic: (V, V) -> Double)
    returns (r: Result<Option<seq<Label<V>>>>, ghost vs: seq<V>)
    requires WellFormed(g)
    ensures r.Err? ==> r.error == NullPointer || r.error == IllegalArgument
    ensures r == Err(NullPointer) <==> source !in g.vertices && target != source
    ensures r == Err(IllegalArgument) ==>
      NegativeOut(g.edges, w, source, true) || NaNKey(g.edges, source, v => heuristic(v, target))
    ensures r == Ok(None) <==> r.Ok? && !Reachable(g.edges, source, target)
    ensures r.Ok? && r.value.Some? ==> Traced(g.edges, w, source, target, vs, r.value.value)
    ensures r.Ok? && r.value.Some? && AStarSearches.Admissible(g.edges, w, v => heuristic(v, target), target, g.vertices + {source}) ==>
      forall q | IsPath(g.edges, source, q, target) :: r.value.value[|r.value.value| - 1].dist <= Weight(w, q)
  {
    var o, info, snap, stopped, live, least := Search(g, w, source, Some(target), true, v => heuristic(v, target));
    if o.Fail? {
      return Err(o.error), [];
    }
    if target !in info {
      assert Exact(g.edges, w, source, target, PosInf);
      return Ok(None), [];
    }
    InGraph(g, w, source, Dists(info), snap, target);
    var list;
    list, vs := Trace(g, w, source, target, info, snap);
    r := Ok(Some(list));
    if AStarSearches.Admissible(g.edges, w, v => heuristic(v, target), target, g.vertices + {source}) {
      forall q | IsPath(g.edges, source, q, target)
        ensures list[|list| - 1].dist <= Weight(w, q)
      {
        if stopped {
          Optimal(g, w, source, Dists(info), snap, live, target, least, v => heuristic(v, target), q);
        } else {
          assert Exact(g.edges, w, source, target, Fin(info[target].dist));
        }
      }
    }
  }
}
