/**
 * Bellman-Ford in both copies of the library. `info` maps every vertex the
 * rounds have reached to the edge that last lowered its distance and that
 * distance; a round walks the edge set once (in the hash set's iteration
 * order, a parameter here) and relaxes every edge that leaves a reached
 * vertex. The rounds run for i = 2 .. |V| - 1 and stop early after a round
 * without change. The newer copy then turns `info` into path records by
 * following the recorded edges back to the source; the older one returns
 * (predecessor vertex, distance) pairs. Both can check, at the end, that no
 * edge between reached vertices can still be relaxed.
 */
module BellmanFords {
  import opened Wrappers
  import opened Doubles
  import opened Graphs
  import opened Paths
  import opened Walks

  /** What `info` holds for a reached vertex: the edge that last lowered its distance (none for the source's first entry) and the distance. */
  datatype Entry<V> = Entry(edge: Option<Edge<V>>, dist: real)

  type Info<V> = map<V, Entry<V>>

  /** `info` before the first round: the source with no edge and distance 0. */
  function Start<V>(source: V): Info<V> {
    map[source := Entry(None, 0.0)]
  }

  /** The distances of `info`. */
  function Dists<V>(info: Info<V>): map<V, real> {
    map v | v in info :: info[v].dist
  }

  /**
   * One step of a round: an edge out of a reached vertex lowers its target
   * when the target is new or the distance through the edge is smaller.
   * The flag says whether anything changed.
   */
  function Relax<V>(info: Info<V>, w: Edge<V> -> real, e: Edge<V>): (Info<V>, bool) {
    if e.source !in info then (info, false)
    else
      var distance := info[e.source].dist + w(e);
      if e.target !in info || info[e.target].dist > distance then (info[e.target := Entry(Some(e), distance)], true)
      else (info, false)
  }

  /** One round: every edge of `order` relaxed in turn. */
  function Round<V>(info: Info<V>, w: Edge<V> -> real, order: seq<Edge<V>>): (Info<V>, bool)
    decreases |order|
  {
    if order == [] then (info, false)
    else
      var (next, changed) := Relax(info, w, order[0]);
      var (last, later) := Round(next, w, order[1..]);
      (last, changed || later)
  }

  /** Up to `k` rounds, stopping after the first round that changes nothing. */
  function Rounds<V>(info: Info<V>, w: Edge<V> -> real, order: seq<Edge<V>>, k: nat): Info<V>
    decreases k
  {
    if k == 0 then info
    else
      var (next, changed) := Round(info, w, order);
      if changed then Rounds(next, w, order, k - 1) else next
  }

  /** The number of rounds `for (i = 2; i < vSize; i++)` runs. */
  function RoundCount(n: nat): nat {
    if n > 2 then n - 2 else 0
  }

  /** Every reached vertex other than the source has a recorded edge into it from a reached vertex. */
  ghost predicate Linked<V>(info: Info<V>, source: V) {
    && source in info
    && forall v | v in info && v != source ::
         info[v].edge.Some? && info[v].edge.value.target == v && info[v].edge.value.source in info
  }

  /**
   * What the rounds keep true of `info`: it is linked; only the source can
   * lack an edge, and then its distance is 0; recorded edges are edges of
   * the graph and the distance of a vertex is at least that of the edge's
   * source plus the edge's weight; and every distance is the weight of some
   * walk from the source.
   */
  ghost predicate Sound<V>(es: set<Edge<V>>, w: Edge<V> -> real, source: V, info: Info<V>) {
    && Linked(info, source)
    && (forall v | v in info && info[v].edge.None? :: v == source && info[v].dist == 0.0)
    && (forall v | v in info && info[v].edge.Some? ::
          && info[v].edge.value in es && info[v].edge.value.target == v && info[v].edge.value.source in info
          && info[v].dist >= info[info[v].edge.value.source].dist + w(info[v].edge.value))
    && Walked(es, w, source, info)
  }

  /** Every distance of `info` is the weight of some walk from the source. */
  ghost predicate Walked<V>(es: set<Edge<V>>, w: Edge<V> -> real, source: V, info: Info<V>) {
    forall v | v in info :: exists p :: IsPath(es, source, p, v) && Weight(w, p) == info[v].dist
  }

  /** No key is lost and no distance grows from `info` to `info'`. */
  ghost predicate Below<V>(info: Info<V>, info': Info<V>) {
    && info.Keys <= info'.Keys
    && forall v | v in info :: info'[v].dist <= info[v].dist
  }

  /** Every walk of at most `k` edges from the source ends at a reached vertex no nearer than the walk's weight. */
  ghost predicate Bounded<V(!new)>(es: set<Edge<V>>, w: Edge<V> -> real, source: V, info: Info<V>, k: nat) {
    forall p, t | IsPath(es, source, p, t) && |p| <= k :: t in info && info[t].dist <= Weight(w, p)
  }

  /**
   * A round that changes nothing leaves `info` as it was, and then no edge
   * of the order leaving a reached vertex can lower its target.
   */
  lemma {:induction false} QuietPass<V>(info: Info<V>, w: Edge<V> -> real, order: seq<Edge<V>>)
    requires !Round(info, w, order).1
    ensures Round(info, w, order).0 == info
    ensures forall e | e in order && e.source in info ::
              e.target in info && info[e.target].dist <= info[e.source].dist + w(e)
    decreases |order|
  {
    if order != [] {
      QuietPass(info, w, order[1..]);
      forall e | e in order && e.source in info
        ensures e.target in info && info[e.target].dist <= info[e.source].dist + w(e)
      {
        if e != order[0] {
          assert e in order[1..];
        }
      }
    }
  }

  /**
   * After a round every edge of the order that left a reached vertex leads
   * to a reached vertex, no farther than the source's distance before the
   * round plus the edge's weight; and nothing got lost or farther.
   */
  lemma {:induction false} PassCovers<V>(info: Info<V>, w: Edge<V> -> real, order: seq<Edge<V>>)
    ensures Below(info, Round(info, w, order).0)
    ensures var out := Round(info, w, order).0;
      forall e | e in order && e.source in info :: e.target in out && out[e.target].dist <= info[e.source].dist + w(e)
    decreases |order|
  {
    if order != [] {
      var next := Relax(info, w, order[0]).0;
      var out := Round(info, w, order).0;
      PassCovers(next, w, order[1..]);
      assert out == Round(next, w, order[1..]).0;
      forall e | e in order && e.source in info
        ensures e.target in out && out[e.target].dist <= info[e.source].dist + w(e)
      {
        if e != order[0] {
          assert e in order[1..];
        }
      }
    }
  }

  lemma RelaxSound<V>(es: set<Edge<V>>, w: Edge<V> -> real, source: V, info: Info<V>, e: Edge<V>)
    requires Sound(es, w, source, info) && e in es
    ensures Sound(es, w, source, Relax(info, w, e).0)
  {
    if Relax(info, w, e).1 {
      var out := info[e.target := Entry(Some(e), info[e.source].dist + w(e))];
      assert Relax(info, w, e).0 == out;
      RelaxEdges(es, w, source, info, e);
      RelaxWalks(es, w, source, info, e, out);
    }
  }

  /** A lowering keeps the recorded edges in the graph and the distances above their edges' sources. */
  lemma RelaxEdges<V>(es: set<Edge<V>>, w: Edge<V> -> real, source: V, info: Info<V>, e: Edge<V>)
    requires Sound(es, w, source, info) && e in es && Relax(info, w, e).1
    ensures var out := info[e.target := Entry(Some(e), info[e.source].dist + w(e))];
      && Linked(out, source)
      && (forall v | v in out && out[v].edge.None? :: v == source && out[v].dist == 0.0)
      && forall v | v in out && out[v].edge.Some? ::
           && out[v].edge.value in es && out[v].edge.value.target == v && out[v].edge.value.source in out
           && out[v].dist >= out[out[v].edge.value.source].dist + w(out[v].edge.value)
  {
    var out := info[e.target := Entry(Some(e), info[e.source].dist + w(e))];
    forall v | v in out && out[v].edge.Some?
      ensures && out[v].edge.value in es && out[v].edge.value.target == v && out[v].edge.value.source in out
              && out[v].dist >= out[out[v].edge.value.source].dist + w(out[v].edge.value)
    {
      if v != e.target {
        assert out[v] == info[v];
      }
    }
  }

  /** A lowering keeps every distance the weight of a walk from the source. */
  lemma RelaxWalks<V>(es: set<Edge<V>>, w: Edge<V> -> real, source: V, info: Info<V>, e: Edge<V>, out: Info<V>)
    requires Sound(es, w, source, info) && e in es && e.source in info
    requires out == info[e.target := Entry(Some(e), info[e.source].dist + w(e))]
    ensures Walked(es, w, source, out)
  {
    forall v | v in out
      ensures exists p :: IsPath(es, source, p, v) && Weight(w, p) == out[v].dist
    {
      if v == e.target {
        var p :| IsPath(es, source, p, e.source) && Weight(w, p) == info[e.source].dist;
        PathSnoc(es, w, source, p, e);
        assert IsPath(es, source, p + [e], v) && Weight(w, p + [e]) == out[v].dist;
      } else {
        assert out[v] == info[v];
      }
    }
  }

  lemma {:induction false} PassSound<V>(es: set<Edge<V>>, w: Edge<V> -> real, source: V, info: Info<V>, order: seq<Edge<V>>)
    requires Sound(es, w, source, info) && forall e | e in order :: e in es
    ensures Sound(es, w, source, Round(info, w, order).0)
    decreases |order|
  {
    if order != [] {
      RelaxSound(es, w, source, info, order[0]);
      PassSound(es, w, source, Relax(info, w, order[0]).0, order[1..]);
    }
  }

  /** A round over all edges extends the bound by one edge. */
  lemma PassBound<V(!new)>(es: set<Edge<V>>, w: Edge<V> -> real, source: V, info: Info<V>, order: seq<Edge<V>>, k: nat)
    requires Bounded(es, w, source, info, k) && forall e | e in es :: e in order
    ensures Bounded(es, w, source, Round(info, w, order).0, k + 1)
  {
    var out := Round(info, w, order).0;
    PassCovers(info, w, order);
    forall p, t | IsPath(es, source, p, t) && |p| <= k + 1
      ensures t in out && out[t].dist <= Weight(w, p)
    {
      if |p| == k + 1 {
        var e := p[|p| - 1];
        PathUnsnoc(es, source, p, t);
        WeightAppend(w, p[..|p| - 1], [e]);
        assert p[..|p| - 1] + [e] == p;
        assert Weight(w, [e]) == w(e) by {
          assert [e][1..] == [];
        }
      }
    }
  }

  /**
   * When no edge leaving a reached vertex can lower its target, the bound
   * holds for walks of every length.
   */
  lemma Settled<V(!new)>(es: set<Edge<V>>, w: Edge<V> -> real, source: V, info: Info<V>, k: nat)
    requires Bounded(es, w, source, info, 0)
    requires forall e | e in es && e.source in info :: e.target in info && info[e.target].dist <= info[e.source].dist + w(e)
    ensures Bounded(es, w, source, info, k)
  {
    var d := Dists(info);
    assert IsPath(es, source, [], source);
    forall p, t | IsPath(es, source, p, t) && |p| <= k
      ensures t in info && info[t].dist <= Weight(w, p)
    {
      FeasibleBound(es, w, d, source, p, t);
    }
  }

  /**
   * `k` more rounds over all edges, from an `info` bounded for walks of `j`
   * edges, give one bounded for walks of `j + k` edges, and keep it sound.
   */
  lemma {:induction false} RoundsBound<V(!new)>(es: set<Edge<V>>, w: Edge<V> -> real, source: V, info: Info<V>,
                                          order: seq<Edge<V>>, j: nat, k: nat)
    requires Bounded(es, w, source, info, j) && forall e | e in es :: e in order
    ensures Bounded(es, w, source, Rounds(info, w, order, k), j + k)
    decreases k
  {
    if k > 0 {
      var (next, changed) := Round(info, w, order);
      if changed {
        PassBound(es, w, source, info, order, j);
        RoundsBound(es, w, source, next, order, j + 1, k - 1);
      } else {
        QuietPass(info, w, order);
        Settled(es, w, source, info, j + k);
      }
    }
  }

  lemma StartSound<V>(es: set<Edge<V>>, w: Edge<V> -> real, source: V)
    ensures Sound(es, w, source, Start(source))
  {
    assert IsPath(es, source, [], source) && Weight(w, []) == 0.0;
  }

  /** Rounds over edges of the graph keep `info` sound. */
  lemma {:induction false} RoundsSound<V>(es: set<Edge<V>>, w: Edge<V> -> real, source: V, info: Info<V>,
                                          order: seq<Edge<V>>, k: nat)
    requires Sound(es, w, source, info) && forall e | e in order :: e in es
    ensures Sound(es, w, source, Rounds(info, w, order, k))
    decreases k
  {
    if k > 0 {
      PassSound(es, w, source, info, order);
      RoundsSound(es, w, source, Round(info, w, order).0, order, k - 1);
    }
  }

  /** The rounds from `Start(source)` keep every reached vertex linked back towards the source. */
  lemma RoundsLinked<V>(g: Graph<V>, w: Edge<V> -> real, source: V, order: seq<Edge<V>>, k: nat)
    requires WellFormed(g) && forall e | e in order :: e in g.edges
    ensures Linked(Rounds(Start(source), w, order, k), source)
    ensures Rounds(Start(source), w, order, k).Keys <= g.vertices + {source}
  {
    StartSound(g.edges, w, source);
    RoundsSound(g.edges, w, source, Start(source), order, k);
  }

  /** The rounds from `Start(source)`: sound, and bounded for walks of as many edges as rounds. */
  lemma RoundsFromStart<V(!new)>(es: set<Edge<V>>, w: Edge<V> -> real, source: V, order: seq<Edge<V>>, k: nat)
    requires forall e | e in es :: e in order
    requires forall e | e in order :: e in es
    ensures Sound(es, w, source, Rounds(Start(source), w, order, k))
    ensures Bounded(es, w, source, Rounds(Start(source), w, order, k), k)
  {
    var info := Start(source);
    assert IsPath(es, source, [], source) && Weight(w, []) == 0.0;
    forall p, t | IsPath(es, source, p, t) && |p| <= 0
      ensures t in info && info[t].dist <= Weight(w, p)
    {
    }
    RoundsBound(es, w, source, info, order, 0, k);
    StartSound(es, w, source);
    RoundsSound(es, w, source, info, order, k);
  }

  /** The number of rounds the comment at the loop intends: |V| - 1. */
  function IntendedCount(n: nat): nat {
    if n > 0 then n - 1 else 0
  }

  /** Every edge leaving a reached vertex leads to a reached vertex. */
  ghost predicate Closed<V>(es: set<Edge<V>>, info: Info<V>) {
    forall e | e in es && e.source in info :: e.target in info
  }

  /**
   * What the negative-cycle check looks for at a reached vertex `v`: an
   * out-edge of `v` to a reached vertex that would still lower it.
   */
  predicate Offends<V>(es: set<Edge<V>>, w: Edge<V> -> real, info: Info<V>, v: V)
    requires v in info
  {
    exists e | e in es && e.source == v && e.target in info :: info[e.target].dist > info[v].dist + w(e)
  }

  /**
   * `p` is what buildPath assembles for `v`: the recorded edges followed
   * back from `v` until the source, listed source-first.
   */
  ghost predicate Traced<V>(info: Info<V>, source: V, v: V, older p: seq<Edge<V>>)
    decreases |p|
  {
    if v == source then p == []
    else
      && v in info && info[v].edge.Some? && p != [] && p[|p| - 1] == info[v].edge.value
      && Traced(info, source, info[v].edge.value.source, p[..|p| - 1])
  }

  /** Following the recorded edges back from `v` reaches the source. */
  ghost predicate Traces<V>(info: Info<V>, source: V, v: V) {
    exists p :: Traced(info, source, v, p)
  }

  /** A vertex has at most one trace. */
  lemma {:induction false} TracedUnique<V>(info: Info<V>, source: V, v: V, p: seq<Edge<V>>, q: seq<Edge<V>>)
    requires Traced(info, source, v, p) && Traced(info, source, v, q)
    ensures p == q
    decreases |p|
  {
    if v != source {
      var u := info[v].edge.value.source;
      TracedUnique(info, source, u, p[..|p| - 1], q[..|q| - 1]);
      assert p == p[..|p| - 1] + [p[|p| - 1]];
      assert q == q[..|q| - 1] + [q[|q| - 1]];
    }
  }

  /** Every prefix of a trace is the trace of the vertex it ends at, a reached vertex other than the source. */
  lemma {:induction false} TracedPrefix<V>(info: Info<V>, source: V, v: V, p: seq<Edge<V>>, i: nat)
    requires Linked(info, source) && Traced(info, source, v, p) && i < |p|
    ensures p[i].target in info && p[i].target != source && Traced(info, source, p[i].target, p[..i + 1])
    decreases |p|
  {
    var n := |p| - 1;
    if i == n {
      assert p[..i + 1] == p;
    } else {
      var u := info[v].edge.value.source;
      TracedPrefix(info, source, u, p[..n], i);
      assert p[..n][..i + 1] == p[..i + 1];
    }
  }

  /** A trace visits each reached vertex at most once, so it is shorter than `info` is large. */
  lemma TracedShort<V>(info: Info<V>, source: V, v: V, p: seq<Edge<V>>)
    requires Linked(info, source) && Traced(info, source, v, p)
    ensures |p| < |info|
  {
    var others := info.Keys - {source};
    assert |others| == |info| - 1;
    var xs := seq(|p|, i requires 0 <= i < |p| => p[i].target);
    forall i | 0 <= i < |xs|
      ensures xs[i] in others
    {
      TracedPrefix(info, source, v, p, i);
    }
    if |p| >= |info| {
      Pigeonhole(xs, others);
      var i, j :| 0 <= i < j < |xs| && xs[i] == xs[j];
      TracedPrefix(info, source, v, p, i);
      TracedPrefix(info, source, v, p, j);
      TracedUnique(info, source, xs[i], p[..i + 1], p[..j + 1]);
    }
  }

  /** A trace is a walk from the source to `v` weighing at most `v`'s distance less the source's. */
  lemma {:induction false} TracedPath<V>(es: set<Edge<V>>, w: Edge<V> -> real, source: V, info: Info<V>, v: V, p: seq<Edge<V>>)
    requires Sound(es, w, source, info) && Traced(info, source, v, p)
    ensures IsPath(es, source, p, v) && Weight(w, p) <= info[v].dist - info[source].dist
    decreases |p|
  {
    if v != source {
      var e := info[v].edge.value;
      var front := p[..|p| - 1];
      TracedPath(es, w, source, info, e.source, front);
      PathSnoc(es, w, source, front, e);
      assert front + [e] == p;
    }
  }

  /** Every reached vertex traces back to the source. */
  ghost predicate TracesAll<V>(info: Info<V>, source: V) {
    forall v | v in info :: Traces(info, source, v)
  }

  /**
   * The part of a trace after its k-th edge is a walk from that edge's
   * target to the traced vertex, and the distances along it grow by at least
   * its weight.
   */
  lemma {:induction false} TracedTail<V>(es: set<Edge<V>>, w: Edge<V> -> real, source: V, info: Info<V>,
                                         u: V, p: seq<Edge<V>>, k: nat)
    returns (q: seq<Edge<V>>)
    requires Sound(es, w, source, info) && Traced(info, source, u, p) && k < |p|
    ensures p[k].target in info && u in info
    ensures IsPath(es, p[k].target, q, u) && info[u].dist >= info[p[k].target].dist + Weight(w, q)
    decreases |p|
  {
    TracedPrefix(info, source, u, p, k);
    var n := |p| - 1;
    var e := info[u].edge.value;
    if k == n {
      q := [];
    } else {
      q := TracedTail(es, w, source, info, e.source, p[..n], k);
      assert p[..n][k] == p[k];
      PathSnoc(es, w, p[k].target, q, e);
      q := q + [e];
    }
  }

  /** A trace that never passes `t` survives any change at `t`. */
  lemma {:induction false} TracedAvoiding<V>(info: Info<V>, out: Info<V>, source: V, v: V, p: seq<Edge<V>>, t: V)
    requires Linked(info, source) && Traced(info, source, v, p)
    requires forall k | 0 <= k < |p| :: p[k].target != t
    requires forall x | x in info && x != t :: x in out && out[x] == info[x]
    ensures Traced(out, source, v, p)
    decreases |p|
  {
    if v != source {
      var n := |p| - 1;
      TracedAvoiding(info, out, source, info[v].edge.value.source, p[..n], t);
    }
  }

  /** Once `t` traces back in `out`, so does every vertex that traced back in `info`. */
  lemma {:induction false} TracedThrough<V>(info: Info<V>, out: Info<V>, source: V, v: V, p: seq<Edge<V>>, t: V)
    requires Traced(info, source, v, p) && Traces(out, source, t)
    requires forall x | x in info && x != t :: x in out && out[x] == info[x]
    ensures Traces(out, source, v)
    decreases |p|
  {
    if v == source {
      assert Traced(out, source, v, []);
    } else if v != t {
      var e := info[v].edge.value;
      var n := |p| - 1;
      TracedThrough(info, out, source, e.source, p[..n], t);
      var px: seq<Edge<V>> :| Traced(out, source, e.source, px);
      assert (px + [e])[..|px|] == px;
      assert Traced(out, source, v, px + [e]);
    }
  }

  /**
   * With no negative cycle a lowering keeps every reached vertex traced back
   * to the source: the new edge's source never traces through the lowered
   * target, since the rest of that trace and the new edge would close a
   * cycle of negative weight.
   */
  lemma RelaxTraces<V>(es: set<Edge<V>>, w: Edge<V> -> real, source: V, info: Info<V>, e: Edge<V>)
    requires Sound(es, w, source, info) && e in es && NoNegativeCycle(es, w) && TracesAll(info, source)
    ensures TracesAll(Relax(info, w, e).0, source)
  {
    if Relax(info, w, e).1 {
      var u, t := e.source, e.target;
      var out := info[t := Entry(Some(e), info[u].dist + w(e))];
      assert Relax(info, w, e).0 == out;
      var pu: seq<Edge<V>> :| Traced(info, source, u, pu);
      forall k | 0 <= k < |pu|
        ensures pu[k].target != t
      {
        // otherwise the rest of the trace and `e` close a negative cycle
        var q := TracedTail(es, w, source, info, u, pu, k);
      }
      TracedAvoiding(info, out, source, u, pu, t);
      if t != source {
        assert (pu + [e])[..|pu|] == pu;
        assert Traced(out, source, t, pu + [e]);
      } else {
        assert Traced(out, source, t, []);
      }
      forall v | v in out
        ensures Traces(out, source, v)
      {
        if v != t {
          var p: seq<Edge<V>> :| Traced(info, source, v, p);
          TracedThrough(info, out, source, v, p, t);
        }
      }
    }
  }

  lemma {:induction false} PassTraces<V>(es: set<Edge<V>>, w: Edge<V> -> real, source: V, info: Info<V>, order: seq<Edge<V>>)
    requires Sound(es, w, source, info) && TracesAll(info, source) && NoNegativeCycle(es, w)
    requires forall e | e in order :: e in es
    ensures TracesAll(Round(info, w, order).0, source)
    decreases |order|
  {
    if order != [] {
      RelaxTraces(es, w, source, info, order[0]);
      RelaxSound(es, w, source, info, order[0]);
      PassTraces(es, w, source, Relax(info, w, order[0]).0, order[1..]);
    }
  }

  lemma {:induction false} RoundsTraces<V>(es: set<Edge<V>>, w: Edge<V> -> real, source: V, info: Info<V>,
                                           order: seq<Edge<V>>, k: nat)
    requires Sound(es, w, source, info) && TracesAll(info, source) && NoNegativeCycle(es, w)
    requires forall e | e in order :: e in es
    ensures TracesAll(Rounds(info, w, order, k), source)
    decreases k
  {
    if k > 0 {
      PassTraces(es, w, source, info, order);
      PassSound(es, w, source, info, order);
      RoundsTraces(es, w, source, Round(info, w, order).0, order, k - 1);
    }
  }

  /** With no negative cycle, every vertex the rounds reach traces back to the source. */
  lemma StartTraces<V>(es: set<Edge<V>>, w: Edge<V> -> real, source: V, order: seq<Edge<V>>, k: nat)
    requires forall e | e in order :: e in es
    ensures NoNegativeCycle(es, w) ==> TracesAll(Rounds(Start(source), w, order, k), source)
  {
    if NoNegativeCycle(es, w) {
      StartSound(es, w, source);
      assert Traced(Start(source), source, source, []);
      RoundsTraces(es, w, source, Start(source), order, k);
    }
  }

  /**
   * When `info` is sound, reached from the start, closed under the edges and
   * no reached vertex offends, the source's distance is 0 and every trace is
   * a walk of least weight to its vertex.
   */
  lemma CheckedShortest<V(!new)>(es: set<Edge<V>>, w: Edge<V> -> real, source: V, info: Info<V>)
    requires Sound(es, w, source, info) && Bounded(es, w, source, info, 0) && Closed(es, info)
    requires forall v | v in info :: !Offends(es, w, info, v)
    ensures info[source].dist == 0.0
    ensures forall v, p, q | Traced(info, source, v, p) && IsPath(es, source, q, v) :: Weight(w, p) <= Weight(w, q)
  {
    var d := Dists(info);
    forall e | e in es && e.source in d
      ensures e.target in d && d[e.target] <= d[e.source] + w(e)
    {
      assert !Offends(es, w, info, e.source);
    }
    assert IsPath(es, source, [], source);
    var c :| IsPath(es, source, c, source) && Weight(w, c) == info[source].dist;
    FeasibleBound(es, w, d, source, c, source);
    forall v, p, q | Traced(info, source, v, p) && IsPath(es, source, q, v)
      ensures Weight(w, p) <= Weight(w, q)
    {
      TracedPath(es, w, source, info, v, p);
      FeasibleBound(es, w, d, source, q, v);
    }
  }

  /**
   * With the intended |V| - 1 rounds the reached vertices are exactly those
   * the source reaches, every edge out of them stays among them, and when no
   * cycle is negative no reached vertex offends and every distance is at
   * most the weight of every walk to its vertex.
   */
  lemma IntendedRoundsReach<V(!new)>(g: Graph<V>, w: Edge<V> -> real, source: V, order: seq<Edge<V>>)
    requires WellFormed(g) && Enumerates(order, g.edges)
    ensures var info := Rounds(Start(source), w, order, IntendedCount(|g.vertices|));
      && (forall t :: t in info <==> Reachable(g.edges, source, t))
      && Closed(g.edges, info)
      && (NoNegativeCycle(g.edges, w) ==> forall v | v in info :: !Offends(g.edges, w, info, v))
      && (NoNegativeCycle(g.edges, w) ==> forall p, t | IsPath(g.edges, source, p, t) :: t in info && info[t].dist <= Weight(w, p))
  {
    var k := IntendedCount(|g.vertices|);
    var info := Rounds(Start(source), w, order, k);
    RoundsFromStart(g.edges, w, source, order, k);
    ShortWalksReach(g, w, source, info);
    ReachedClosed(g.edges, w, source, info);
    if NoNegativeCycle(g.edges, w) {
      ShortWalksBound(g, w, source, info);
      BoundedQuiet(g.edges, w, source, info);
    }
  }

  /** When every walk of fewer edges than vertices is bounded, the reached vertices are exactly the reachable ones. */
  lemma ShortWalksReach<V(!new)>(g: Graph<V>, w: Edge<V> -> real, source: V, info: Info<V>)
    requires WellFormed(g) && Sound(g.edges, w, source, info) && Bounded(g.edges, w, source, info, IntendedCount(|g.vertices|))
    ensures forall t :: t in info <==> Reachable(g.edges, source, t)
  {
    forall t | Reachable(g.edges, source, t)
      ensures t in info
    {
      var p :| IsPath(g.edges, source, p, t);
      var q := Shortcut(g, w, source, p, t);
    }
  }

  /** Sound and holding every reachable vertex: closed under the edges. */
  lemma ReachedClosed<V>(es: set<Edge<V>>, w: Edge<V> -> real, source: V, info: Info<V>)
    requires Sound(es, w, source, info) && forall t :: Reachable(es, source, t) ==> t in info
    ensures Closed(es, info)
  {
    forall e | e in es && e.source in info
      ensures e.target in info
    {
      var p :| IsPath(es, source, p, e.source) && Weight(w, p) == info[e.source].dist;
      PathSnoc(es, w, source, p, e);
    }
  }

  /** Without negative cycles, a bound for walks shorter than the vertex count is a bound for all walks. */
  lemma ShortWalksBound<V(!new)>(g: Graph<V>, w: Edge<V> -> real, source: V, info: Info<V>)
    requires WellFormed(g) && NoNegativeCycle(g.edges, w) && Bounded(g.edges, w, source, info, IntendedCount(|g.vertices|))
    ensures forall p, t | IsPath(g.edges, source, p, t) :: t in info && info[t].dist <= Weight(w, p)
  {
    forall p, t | IsPath(g.edges, source, p, t)
      ensures t in info && info[t].dist <= Weight(w, p)
    {
      var q := Shortcut(g, w, source, p, t);
    }
  }

  /** Distances that are walk weights and bound every walk leave nothing for the check to find. */
  lemma BoundedQuiet<V(!new)>(es: set<Edge<V>>, w: Edge<V> -> real, source: V, info: Info<V>)
    requires Sound(es, w, source, info)
    requires forall p, t | IsPath(es, source, p, t) :: t in info && info[t].dist <= Weight(w, p)
    ensures forall v | v in info :: !Offends(es, w, info, v)
  {
    forall v | v in info
      ensures !Offends(es, w, info, v)
    {
      var p :| IsPath(es, source, p, v) && Weight(w, p) == info[v].dist;
      forall e | e in es && e.source == v && e.target in info
        ensures info[e.target].dist <= info[v].dist + w(e)
      {
        PathSnoc(es, w, source, p, e);
      }
    }
  }

  /**
   * The rounds as written miss a vertex two edges away on a three-vertex
   * chain when the second edge comes first in the edge set's order: only
   * one round runs.
   */
  lemma AsWrittenMissesVertex()
    ensures var g := Graph({0, 1, 2}, {Edge(0, 1, Pair), Edge(1, 2, Pair)});
      var order := [Edge(1, 2, Pair), Edge(0, 1, Pair)];
      && WellFormed(g) && Enumerates(order, g.edges) && Reachable(g.edges, 0, 2)
      && 2 !in Rounds(Start(0), Hop, order, RoundCount(|g.vertices|))
  {
    var g := Graph({0, 1, 2}, {Edge(0, 1, Pair), Edge(1, 2, Pair)});
    var order := [Edge(1, 2, Pair), Edge(0, 1, Pair)];
    assert |g.vertices| == 3;
    var p := [Edge(0, 1, Pair), Edge(1, 2, Pair)];
    assert p[1..][1..] == [];
    assert IsPath(g.edges, 0, p, 2);
    var once := Relax(Relax(Start(0), Hop, order[0]).0, Hop, order[1]).0;
    assert once == map[0 := Entry(None, 0.0), 1 := Entry(Some(Edge(0, 1, Pair)), 1.0)];
    assert order[1..][1..] == [];
  }

  /**
   * The rounds loop, shared by both copies: rounds i = 2 .. vSize - 1, each
   * relaxing every edge in the edge set's order, stopping after a round
   * without change.
   */
  method Relaxations<V>(g: Graph<V>, w: Edge<V> -> real, source: V, order: seq<Edge<V>>) returns (info: Info<V>)
    ensures info == Rounds(Start(source), w, order, RoundCount(|g.vertices|))
  {
    var vSize := |g.vertices|;
    info := Start(source);
    var i := 2;
    while i < vSize
      invariant 2 <= i && (vSize > 2 ==> i <= vSize)
      invariant Rounds(info, w, order, if vSize > i then vSize - i else 0) == Rounds(Start(source), w, order, RoundCount(vSize))
      decreases vSize - i
    {
      ghost var before := info;
      var hasChanges := false;
      var j := 0;
      while j < |order|
        invariant 0 <= j <= |order|
        invariant Round(info, w, order[j..]).0 == Round(before, w, order).0
        invariant (hasChanges || Round(info, w, order[j..]).1) == Round(before, w, order).1
        invariant !hasChanges ==> info == before
      {
        var e := order[j];
        assert order[j..][1..] == order[j + 1..];
        if e.source in info {
          var distance := info[e.source].dist + w(e);
          var hasKey := e.target in info;
          if !hasKey || info[e.target].dist > distance {
            info := info[e.target := Entry(Some(e), distance)];
            hasChanges := true;
          }
        }
        j := j + 1;
      }
      if !hasChanges {
        break;
      }
      i := i + 1;
    }
  }

  /**
   * What the newer copy's result map holds for reached vertices: the source
   * with the empty path, every other reached key with its trace.
   */
  ghost predicate Memo<V>(info: Info<V>, source: V, result: map<V, SimplePath<V>>) {
    && source in result && result[source] == SimplePath(source, source, Some([]))
    && forall u | u in result && u in info ::
         && result[u].source == source && result[u].target == u && result[u].edges.Some?
         && Traced(info, source, u, result[u].edges.value)
  }

  /**
   * buildPath: unless `target` already has a path, build the path of its
   * recorded edge's source first, then extend it by that edge. Each level of
   * recursion uses up one unit of `fuel`; running out is the
   * StackOverflowError of a predecessor cycle, and happens only when every
   * trace of the target is longer than the fuel.
   */
  method BuildPath<V>(info: Info<V>, result: map<V, SimplePath<V>>, source: V, target: V, fuel: nat)
    returns (o: Outcome, result': map<V, SimplePath<V>>)
    requires Linked(info, source) && target in info && Memo(info, source, result)
    ensures o.Fail? ==> o.error == StackOverflow && forall p | Traced(info, source, target, p) :: |p| > fuel
    ensures o.Pass? ==> target in result' && Memo(info, source, result')
    ensures o.Pass? ==> forall u | u in result :: u in result' && result'[u] == result[u]
    ensures o.Pass? ==> forall u | u in result' && u !in result :: u in info
    decreases fuel
  {
    if target in result {
      return Pass, result;
    }
    if fuel == 0 {
      return Fail(StackOverflow), result;
    }
    var edge := info[target].edge.value;
    var mid := result;
    if edge.source !in result {
      o, mid := BuildPath(info, result, source, edge.source, fuel - 1);
      if o.Fail? {
        forall p | Traced(info, source, target, p)
          ensures |p| > fuel
        {
          assert Traced(info, source, edge.source, p[..|p| - 1]);
        }
        return o, result;
      }
    }
    var temp := mid[edge.source].edges.value + [edge];
    assert temp[..|temp| - 1] == mid[edge.source].edges.value;
    result' := mid[target := SimplePath(source, target, Some(temp))];
    o := Pass;
  }

  /** What the newer copy's final loop accepts at a vertex: unreached, or passing the optional check and traced back to the source. */
  ghost predicate Accepted<V>(es: set<Edge<V>>, w: Edge<V> -> real, info: Info<V>, source: V, check: bool, v: V) {
    v in info ==> (check ==> !Offends(es, w, info, v)) && Traces(info, source, v)
  }

  /**
   * findAllShortestPaths of the newer copy: after the rounds, the source
   * maps to the empty path and every vertex of the graph, in the vertex
   * set's order, either to a path with no edge list (unreached) or, once the
   * optional check found no out-edge to a reached vertex that would still
   * lower it, to the path buildPath assembles.
   */
  method ShortestPaths<V>(g: Graph<V>, w: Edge<V> -> real, source: V, checkNegativeCycles: bool,
                          order: seq<Edge<V>>, vorder: seq<V>)
    returns (r: Result<map<V, SimplePath<V>>>, ghost info: Info<V>)
    requires WellFormed(g) && Enumerates(order, g.edges) && Enumerates(vorder, g.vertices)
    ensures info == Rounds(Start(source), w, order, RoundCount(|g.vertices|))
    ensures r.Err? ==> r.error == IllegalArgument || r.error == StackOverflow
    ensures r == Err(IllegalArgument) ==>
      checkNegativeCycles && exists v | v in g.vertices && v in info :: Offends(g.edges, w, info, v)
    ensures r == Err(StackOverflow) ==> exists v | v in g.vertices && v in info :: !Traces(info, source, v)
    ensures NoNegativeCycle(g.edges, w) ==> r != Err(StackOverflow)
    ensures NoNegativeCycle(g.edges, w) && !checkNegativeCycles ==> r.Ok?
    ensures r.Ok? <==> forall v | v in g.vertices :: Accepted(g.edges, w, info, source, checkNegativeCycles, v)
    ensures r.Ok? ==> r.value.Keys == g.vertices + {source} && r.value[source].edges == Some([])
    ensures r.Ok? ==> forall v | v in r.value :: r.value[v].source == source && r.value[v].target == v
    ensures r.Ok? ==> forall v | v in r.value && v !in info :: r.value[v].edges.None?
    ensures r.Ok? ==> forall v | v in r.value && v in info ::
      r.value[v].edges.Some? && Traced(info, source, v, r.value[v].edges.value)
  {
    var reached := Relaxations(g, w, source, order);
    info := reached;
    RoundsLinked(g, w, source, order, RoundCount(|g.vertices|));
    StartTraces(g.edges, w, source, order, RoundCount(|g.vertices|));
    r := Assemble(g, w, source, checkNegativeCycles, vorder, reached);
  }

  /** The newer copy's final loop over the vertex set, given the rounds' `info`. */
  method Assemble<V>(g: Graph<V>, w: Edge<V> -> real, source: V, checkNegativeCycles: bool, vorder: seq<V>, info: Info<V>)
    returns (r: Result<map<V, SimplePath<V>>>)
    requires Linked(info, source) && info.Keys <= g.vertices + {source} && Enumerates(vorder, g.vertices)
    ensures r.Err? ==> r.error == IllegalArgument || r.error == StackOverflow
    ensures r == Err(IllegalArgument) ==>
      checkNegativeCycles && exists v | v in g.vertices && v in info :: Offends(g.edges, w, info, v)
    ensures r == Err(StackOverflow) ==> exists v | v in g.vertices && v in info :: !Traces(info, source, v)
    ensures r.Ok? <==> forall v | v in g.vertices :: Accepted(g.edges, w, info, source, checkNegativeCycles, v)
    ensures r.Ok? ==> r.value.Keys == g.vertices + {source} && r.value[source].edges == Some([])
    ensures r.Ok? ==> forall v | v in r.value :: r.value[v].source == source && r.value[v].target == v
    ensures r.Ok? ==> forall v | v in r.value && v !in info :: r.value[v].edges.None?
    ensures r.Ok? ==> forall v | v in r.value && v in info ::
      r.value[v].edges.Some? && Traced(info, source, v, r.value[v].edges.value)
  {
    var result := map[source := SimplePath(source, source, Some([]))];
    var j := 0;
    while j < |vorder|
      invariant 0 <= j <= |vorder|
      invariant Filed(info, source, g.vertices, result)
      invariant forall i | 0 <= i < j :: vorder[i] in result && Accepted(g.edges, w, info, source, checkNegativeCycles, vorder[i])
    {
      ghost var before := result;
      var o;
      o, result := Place(g, w, source, checkNegativeCycles, info, result, vorder[j]);
      if o.Fail? {
        return Err(o.error);
      }
      forall i | 0 <= i < j + 1
        ensures vorder[i] in result && Accepted(g.edges, w, info, source, checkNegativeCycles, vorder[i])
      {
        if i < j {
          assert vorder[i] in before;
        }
      }
      j := j + 1;
    }
    r := Ok(result);
  }

  /** The newer copy's result map part way through the final loop. */
  ghost predicate Filed<V>(info: Info<V>, source: V, vertices: set<V>, result: map<V, SimplePath<V>>) {
    && Memo(info, source, result)
    && result.Keys <= vertices + {source}
    && forall u | u in result && u !in info :: result[u] == SimplePath(source, u, None)
  }

  /**
   * One vertex of the newer copy's final loop: an unreached vertex gets a
   * path with no edge list; a reached one is checked, when asked, and then
   * gets the path buildPath assembles.
   */
  method Place<V>(g: Graph<V>, w: Edge<V> -> real, source: V, checkNegativeCycles: bool, info: Info<V>,
                  result: map<V, SimplePath<V>>, v: V)
    returns (o: Outcome, result': map<V, SimplePath<V>>)
    requires Linked(info, source) && info.Keys <= g.vertices + {source} && v in g.vertices
    requires Filed(info, source, g.vertices, result)
    ensures o.Pass? ==> Filed(info, source, g.vertices, result') && result.Keys <= result'.Keys && v in result'
    ensures o.Pass? <==> Accepted(g.edges, w, info, source, checkNegativeCycles, v)
    ensures o == Fail(IllegalArgument) ==> checkNegativeCycles && v in info && Offends(g.edges, w, info, v)
    ensures o == Fail(StackOverflow) ==> v in info && !Traces(info, source, v)
    ensures o.Fail? ==> o.error == IllegalArgument || o.error == StackOverflow
  {
    if v !in info {
      return Pass, result[v := SimplePath(source, v, None)];
    }
    if checkNegativeCycles && Offends(g.edges, w, info, v) {
      return Fail(IllegalArgument), result;
    }
    o, result' := BuildPath(info, result, source, v, |info|);
    if o.Fail? {
      forall p | Traced(info, source, v, p)
        ensures false
      {
        TracedShort(info, source, v, p);
      }
    } else {
      assert Traced(info, source, v, result'[v].edges.value);
    }
  }

  /** The older copy's entry for a vertex: its predecessor vertex (null when none) and its distance, +infinity when unreached. */
  function Row<V>(info: Info<V>, v: V): (Option<V>, Double) {
    if v !in info then (None, PosInf)
    else if info[v].edge.None? then (None, Fin(info[v].dist))
    else (Some(info[v].edge.value.source), Fin(info[v].dist))
  }

  /** The older copy's check at `v`: an out-edge to a vertex with an entry that would lower it. */
  predicate Lowers<V>(es: set<Edge<V>>, w: Edge<V> -> real, table: map<V, (Option<V>, Double)>, v: V)
    requires v in table
  {
    exists e | e in es && e.source == v && e.target in table :: Lt(Add(table[v].1, Fin(w(e))), table[e.target].1)
  }

  /**
   * Against a table that holds Row(info) for its keys: the check fires at a
   * reached vertex when `info` offends there, and only when some out-edge
   * leads to an unreached key or offends.
   */
  lemma LowersRow<V>(es: set<Edge<V>>, w: Edge<V> -> real, info: Info<V>, table: map<V, (Option<V>, Double)>, v: V)
    requires info.Keys <= table.Keys && forall u | u in table :: table[u] == Row(info, u)
    requires v in info
    ensures Offends(es, w, info, v) ==> Lowers(es, w, table, v)
    ensures Lowers(es, w, table, v) ==>
      exists e | e in es && e.source == v :: e.target !in info || info[e.target].dist > info[v].dist + w(e)
  {
    if Offends(es, w, info, v) {
      var e :| e in es && e.source == v && e.target in info && info[e.target].dist > info[v].dist + w(e);
      assert Lt(Add(table[v].1, Fin(w(e))), table[e.target].1);
    }
    if Lowers(es, w, table, v) {
      var e :| e in es && e.source == v && e.target in table && Lt(Add(table[v].1, Fin(w(e))), table[e.target].1);
      assert e.target !in info || info[e.target].dist > info[v].dist + w(e);
    }
  }

  /**
   * findAllShortestPaths of the older copy: `info` records predecessor
   * vertices; afterwards every unreached vertex of the graph, in the vertex
   * set's order, gets (null, +infinity), and with the check on, a reached
   * vertex with an out-edge to a vertex already in the table that would
   * lower it throws. An unreached vertex that got its +infinity entry
   * earlier in the order counts as such a vertex.
   */
  method PredecessorTable<V>(g: Graph<V>, w: Edge<V> -> real, source: V, checkNegativeCycles: bool,
                             order: seq<Edge<V>>, vorder: seq<V>)
    returns (r: Result<map<V, (Option<V>, Double)>>, ghost info: Info<V>)
    requires WellFormed(g) && Enumerates(order, g.edges) && Enumerates(vorder, g.vertices)
    ensures info == Rounds(Start(source), w, order, RoundCount(|g.vertices|))
    ensures r.Err? ==> r.error == IllegalArgument && checkNegativeCycles
    ensures r.Err? ==> exists v, e | v in g.vertices && v in info && e in g.edges && e.source == v ::
      e.target !in info || info[e.target].dist > info[v].dist + w(e)
    ensures checkNegativeCycles && (exists v | v in g.vertices && v in info :: Offends(g.edges, w, info, v)) ==> r.Err?
    ensures r.Ok? ==> r.value.Keys == g.vertices + {source}
    ensures r.Ok? ==> forall v | v in r.value :: r.value[v] == Row(info, v)
  {
    var reached := Relaxations(g, w, source, order);
    info := reached;
    RoundsLinked(g, w, source, order, RoundCount(|g.vertices|));
    r := Tabulate(g, w, checkNegativeCycles, vorder, source, reached);
  }

  /** The older copy's final loop over the vertex set, given the rounds' `info`. */
  method Tabulate<V>(g: Graph<V>, w: Edge<V> -> real, checkNegativeCycles: bool, vorder: seq<V>, ghost source: V, info: Info<V>)
    returns (r: Result<map<V, (Option<V>, Double)>>)
    requires source in info && info.Keys <= g.vertices + {source} && Enumerates(vorder, g.vertices)
    ensures r.Err? ==> r.error == IllegalArgument && checkNegativeCycles
    ensures r.Err? ==> exists v, e | v in g.vertices && v in info && e in g.edges && e.source == v ::
      e.target !in info || info[e.target].dist > info[v].dist + w(e)
    ensures checkNegativeCycles && (exists v | v in g.vertices && v in info :: Offends(g.edges, w, info, v)) ==> r.Err?
    ensures r.Ok? ==> r.value.Keys == g.vertices + {source}
    ensures r.Ok? ==> forall v | v in r.value :: r.value[v] == Row(info, v)
  {
    var table := map v | v in info :: Row(info, v);
    var j := 0;
    while j < |vorder|
      invariant 0 <= j <= |vorder|
      invariant info.Keys <= table.Keys <= g.vertices + {source}
      invariant forall i | 0 <= i < j :: vorder[i] in table
      invariant forall u | u in table :: table[u] == Row(info, u)
      invariant forall i | 0 <= i < j && vorder[i] in info :: checkNegativeCycles ==> !Offends(g.edges, w, info, vorder[i])
    {
      var v := vorder[j];
      if v !in table {
        table := table[v := (None, PosInf)];
      } else if v in info {
        LowersRow(g.edges, w, info, table, v);
        if checkNegativeCycles && Lowers(g.edges, w, table, v) {
          return Err(IllegalArgument);
        }
      }
      j := j + 1;
    }
    r := Ok(table);
  }
}
