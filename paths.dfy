/**
 * The path records the search algorithms return: the Java SimplePath and
 * SimpleWeightedPath, and the Kotlin SimpleWeightedPath.
 */
module Paths {
  import opened Wrappers
  import opened Doubles
  import opened Graphs

  /**
   * A Java path record. `edges == None` is the null edge list the algorithms
   * use for "no path"; a present list runs from `source` to `target`.
   */
  datatype SimplePath<V> = SimplePath(source: V, target: V, edges: Option<seq<Edge<V>>>)

  function Sources<V>(es: seq<Edge<V>>): (vs: seq<V>)
    ensures |vs| == |es|
    ensures forall i :: 0 <= i < |es| ==> vs[i] == es[i].source
  {
    seq(|es|, i requires 0 <= i < |es| => es[i].source)
  }

  /** The vertex list of a Java path: each edge's source, then the target. */
  function Vertices<V>(p: SimplePath<V>): Option<seq<V>> {
    match p.edges
    case None => None
    case Some(es) => Some(Sources(es) + [p.target])
  }

  /**
   * On a walk from source to target the vertex list has one more entry than
   * the edge list, starts at the source, ends at the target, and the i-th
   * edge joins the i-th vertex to the next one.
   */
  lemma {:induction false} VerticesFollowPath<V>(es: set<Edge<V>>, p: SimplePath<V>)
    requires p.edges.Some? && IsPath(es, p.source, p.edges.value, p.target)
    ensures Vertices(p).Some?
    ensures |Vertices(p).value| == |p.edges.value| + 1
    ensures Vertices(p).value[0] == p.source
    ensures Vertices(p).value[|p.edges.value|] == p.target
    ensures forall i :: 0 <= i < |p.edges.value| ==>
              && p.edges.value[i] in es
              && Vertices(p).value[i] == p.edges.value[i].source && Vertices(p).value[i + 1] == p.edges.value[i].target
  {
    var ps := p.edges.value;
    var vs := Vertices(p).value;
    if ps != [] {
      assert vs[0] == ps[0].source == p.source;
    }
    forall i | 0 <= i < |ps|
      ensures ps[i] in es && vs[i + 1] == ps[i].target
    {
      PathLinks(es, p.source, ps, p.target, i);
    }
  }

  /** Consecutive edges of a walk meet, and the last one ends at the target. */
  lemma {:induction false} PathLinks<V>(es: set<Edge<V>>, s: V, ps: seq<Edge<V>>, t: V, i: nat)
    requires IsPath(es, s, ps, t) && i < |ps|
    ensures ps[i] in es
    ensures if i + 1 < |ps| then ps[i].target == ps[i + 1].source else ps[i].target == t
    decreases i
  {
    if i > 0 {
      PathLinks(es, ps[0].target, ps[1..], t, i - 1);
    } else if |ps| == 1 {
      assert ps[1..] == [];
    }
  }

  /** The forEach accumulation: the weights added one by one to a running total from 0. */
  function Accumulated<V>(w: Edge<V> -> real, es: seq<Edge<V>>): real
    decreases |es|
  {
    if es == [] then 0.0 else Accumulated(w, es[..|es| - 1]) + w(es[|es| - 1])
  }

  /** Adding the weights left to right gives the weight of the walk. */
  lemma {:induction false} AccumulatedIsWeight<V>(w: Edge<V> -> real, es: seq<Edge<V>>)
    ensures Accumulated(w, es) == Weight(w, es)
    decreases |es|
  {
    if es != [] {
      var init, last := es[..|es| - 1], es[|es| - 1];
      AccumulatedIsWeight(w, init);
      WeightAppend(w, init, [last]);
      assert init + [last] == es;
      assert Weight(w, [last]) == w(last) by {
        assert [last][1..] == [];
      }
    }
  }

  /**
   * The Java SimpleWeightedPath distance: the accumulated weights of the
   * edge list, or positive infinity for the null edge list.
   */
  function Distance<V>(w: Edge<V> -> real, p: SimplePath<V>): (d: Double)
    ensures p.edges.None? <==> d == PosInf
    ensures p.edges.Some? ==> d == Fin(Weight(w, p.edges.value))
  {
    match p.edges
    case None => PosInf
    case Some(es) =>
      AccumulatedIsWeight(w, es);
      Fin(Accumulated(w, es))
  }

  /** Extending a path record by one edge adds that edge's weight to its distance. */
  lemma DistanceExtends<V>(w: Edge<V> -> real, p: SimplePath<V>, e: Edge<V>)
    requires p.edges.Some?
    ensures Distance(w, SimplePath(p.source, e.target, Some(p.edges.value + [e]))) == Fin(Distance(w, p).r + w(e))
    ensures Distance(w, SimplePath(p.source, p.source, Some([]))) == Fin(0.0)
  {
    var es := p.edges.value;
    assert (es + [e])[..|es + [e]| - 1] == es;
    AccumulatedIsWeight(w, es);
    AccumulatedIsWeight(w, es + [e]);
  }

  /**
   * Kotlin's vertex list: walking from the source, each edge contributes the
   * endpoint it is entered from and moves on to its other endpoint.
   */
  function KotlinWalk<V(==)>(from: V, es: seq<Edge<V>>): seq<V>
    decreases |es|
  {
    if es == [] then []
    else if es[0].source == from then [es[0].source] + KotlinWalk(es[0].target, es[1..])
    else [es[0].target] + KotlinWalk(es[0].source, es[1..])
  }

  /** The vertex list of a Kotlin SimpleWeightedPath: empty without edges. */
  function KotlinVertices<V(==)>(source: V, target: V, es: seq<Edge<V>>): seq<V> {
    if es == [] then [] else KotlinWalk(source, es) + [target]
  }

  /** The Kotlin distance: the fold of the weights, positive infinity without edges. */
  function KotlinDistance<V>(w: Edge<V> -> real, es: seq<Edge<V>>): Double {
    if es == [] then PosInf else Fin(Weight(w, es))
  }

  /**
   * On a non-empty directed walk the Kotlin walk always leaves edges by their
   * target, so both path records list the same vertices.
   */
  lemma {:induction false} KotlinWalkOnDirectedPath<V>(es: set<Edge<V>>, s: V, ps: seq<Edge<V>>, t: V)
    requires IsPath(es, s, ps, t)
    ensures KotlinWalk(s, ps) == Sources(ps)
    decreases |ps|
  {
    if ps != [] {
      KotlinWalkOnDirectedPath(es, ps[0].target, ps[1..], t);
      assert Sources(ps) == [ps[0].source] + Sources(ps[1..]);
    }
  }

  lemma KotlinAgreesWithJava<V>(es: set<Edge<V>>, w: Edge<V> -> real, p: SimplePath<V>)
    requires p.edges.Some? && p.edges.value != [] && IsPath(es, p.source, p.edges.value, p.target)
    ensures Vertices(p) == Some(KotlinVertices(p.source, p.target, p.edges.value))
    ensures KotlinDistance(w, p.edges.value) == Fin(Weight(w, p.edges.value))
  {
    KotlinWalkOnDirectedPath(es, p.source, p.edges.value, p.target);
  }
}
