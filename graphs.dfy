/**
 * Edges, the abstract value of a directed graph store, directed walks in it
 * and their total weight.
 */
module Graphs {
  import opened Wrappers

  /**
   * How an edge is told apart from another one with the same endpoints: a
   * simple edge is equal to every simple edge with the same source and target,
   * a multi-edge only to itself (each instance has its own number).
   */
  datatype Ident = Pair | Instance(n: nat)

  datatype Edge<V> = Edge(source: V, target: V, ident: Ident)

  function SimpleEdge<V>(source: V, target: V): Edge<V> {
    Edge(source, target, Pair)
  }

  /** What a graph store holds: its vertex set and its edge set. */
  datatype Graph<V> = Graph(vertices: set<V>, edges: set<Edge<V>>)

  /** Every edge joins two vertices of the graph. */
  ghost predicate WellFormed<V>(g: Graph<V>) {
    forall e | e in g.edges :: e.source in g.vertices && e.target in g.vertices
  }

  function Out<V(==)>(es: set<Edge<V>>, v: V): set<Edge<V>> {
    set e | e in es && e.source == v
  }

  function In<V(==)>(es: set<Edge<V>>, v: V): set<Edge<V>> {
    set e | e in es && e.target == v
  }

  function Between<V(==)>(es: set<Edge<V>>, s: V, t: V): set<Edge<V>> {
    set e | e in es && e.source == s && e.target == t
  }

  /**
   * getEdgesFromSource on the store's value: the out-edges of a vertex,
   * null for a value that is not a vertex.
   */
  function EdgesFrom<V(==)>(g: Graph<V>, v: V): Option<set<Edge<V>>> {
    if v in g.vertices then Some(Out(g.edges, v)) else None
  }

  /** The edges of `es` that do not touch `v`. */
  function Avoiding<V(==)>(es: set<Edge<V>>, v: V): set<Edge<V>> {
    set e | e in es && e.source != v && e.target != v
  }

  /** `order` lists the elements of `s`, each once: the iteration order of a hash set. */
  ghost predicate Enumerates<T>(order: seq<T>, s: set<T>) {
    && (forall x | x in s :: x in order)
    && (forall i | 0 <= i < |order| :: order[i] in s)
    && (forall i, j | 0 <= i < j < |order| :: order[i] != order[j])
  }

  /** An enumeration has as many entries as the set has elements. */
  lemma {:induction false} EnumeratesSize<T>(order: seq<T>, s: set<T>)
    requires Enumerates(order, s)
    ensures |order| == |s|
    decreases |order|
  {
    if order == [] {
      assert forall x | x in s :: x in order;
    } else {
      var k := |order| - 1;
      var rest := order[..k];
      assert Enumerates(rest, s - {order[k]}) by {
        forall x | x in s - {order[k]}
          ensures x in rest
        {
          var i :| 0 <= i < |order| && order[i] == x;
          assert i < k;
          assert rest[i] == x;
        }
      }
      EnumeratesSize(rest, s - {order[k]});
    }
  }

  /** `p` is a directed walk from `s` to `t` over edges of `es`. */
  ghost predicate IsPath<V>(es: set<Edge<V>>, s: V, older p: seq<Edge<V>>, older t: V)
    decreases |p|
  {
    if p == [] then s == t
    else p[0] in es && p[0].source == s && IsPath(es, p[0].target, p[1..], t)
  }

  /** Some walk leads from `s` to `t`. */
  ghost predicate Reachable<V>(es: set<Edge<V>>, s: V, t: V) {
    exists p :: IsPath(es, s, p, t)
  }

  /** Every edge weighs one: the weight of a walk is its number of edges. */
  function Hop<V>(e: Edge<V>): real {
    1.0
  }

  /** Total weight of a walk. */
  function Weight<V>(w: Edge<V> -> real, p: seq<Edge<V>>): real
    decreases |p|
  {
    if p == [] then 0.0 else w(p[0]) + Weight(w, p[1..])
  }

  /** The weight of a concatenation is the sum of the weights. */
  lemma {:induction false} WeightAppend<V>(w: Edge<V> -> real, p: seq<Edge<V>>, q: seq<Edge<V>>)
    ensures Weight(w, p + q) == Weight(w, p) + Weight(w, q)
    decreases |p|
  {
    if p == [] {
      assert p + q == q;
    } else {
      WeightAppend(w, p[1..], q);
      assert (p + q)[1..] == p[1..] + q;
    }
  }

  /** Walks compose, and their weights add up. */
  lemma {:induction false} PathAppend<V>(es: set<Edge<V>>, w: Edge<V> -> real, s: V, p: seq<Edge<V>>, m: V, q: seq<Edge<V>>, t: V)
    requires IsPath(es, s, p, m) && IsPath(es, m, q, t)
    ensures IsPath(es, s, p + q, t)
    ensures Weight(w, p + q) == Weight(w, p) + Weight(w, q)
    decreases |p|
  {
    if p == [] {
      assert p + q == q;
    } else {
      PathAppend(es, w, p[0].target, p[1..], m, q, t);
      assert (p + q)[1..] == p[1..] + q;
    }
  }

  /** Extending a walk by one edge at its end. */
  lemma PathSnoc<V>(es: set<Edge<V>>, w: Edge<V> -> real, s: V, p: seq<Edge<V>>, e: Edge<V>)
    requires IsPath(es, s, p, e.source) && e in es
    ensures IsPath(es, s, p + [e], e.target)
    ensures Weight(w, p + [e]) == Weight(w, p) + w(e)
  {
    assert IsPath(es, e.source, [e], e.target) by {
      assert [e][1..] == [];
    }
    PathAppend(es, w, s, p, e.source, [e], e.target);
    assert Weight(w, [e]) == w(e) by {
      assert [e][1..] == [];
    }
  }

  /** Extending a walk by one edge at its start. */
  lemma PathCons<V>(es: set<Edge<V>>, e: Edge<V>, p: seq<Edge<V>>, t: V)
    requires e in es && IsPath(es, e.target, p, t)
    ensures IsPath(es, e.source, [e] + p, t)
  {
    assert ([e] + p)[1..] == p;
  }

  /** A walk over a subset of the edges is a walk over the whole set. */
  lemma {:induction false} PathMono<V>(es: set<Edge<V>>, fs: set<Edge<V>>, s: V, p: seq<Edge<V>>, t: V)
    requires es <= fs && IsPath(es, s, p, t)
    ensures IsPath(fs, s, p, t)
    decreases |p|
  {
    if p != [] {
      PathMono(es, fs, p[0].target, p[1..], t);
    }
  }

  /**
   * A map `d` that is closed under the edges (every edge leaving a key leads
   * to a key, no farther than the edge's weight) bounds every walk from a key.
   */
  ghost predicate Feasible<V>(es: set<Edge<V>>, w: Edge<V> -> real, d: map<V, real>) {
    forall e | e in es && e.source in d :: e.target in d && d[e.target] <= d[e.source] + w(e)
  }

  lemma {:induction false} FeasibleBound<V>(es: set<Edge<V>>, w: Edge<V> -> real, d: map<V, real>, s: V, p: seq<Edge<V>>, t: V)
    requires Feasible(es, w, d) && s in d && IsPath(es, s, p, t)
    ensures t in d && d[t] <= d[s] + Weight(w, p)
    decreases |p|
  {
    if p != [] {
      FeasibleBound(es, w, d, p[0].target, p[1..], t);
    }
  }
}
