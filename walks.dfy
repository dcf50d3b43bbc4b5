/**
 * Facts about walks that the round-based algorithms rely on: a walk splits
 * at any position into two walks, and a walk that visits more positions
 * than the graph has vertices repeats one, so it can be shortened.
 */
module Walks {
  import opened Wrappers
  import opened Doubles
  import opened Graphs
  import opened Paths

  /** The vertex a walk from `s` has reached after its first `i` edges. */
  function At<V>(s: V, p: seq<Edge<V>>, i: nat): V
    requires i <= |p|
  {
    if i == 0 then s else p[i - 1].target
  }

  /**
   * No cycle of `es` has negative total weight: an edge followed by a walk
   * back to the edge's source weighs at least zero.
   */
  ghost predicate NoNegativeCycle<V>(es: set<Edge<V>>, w: Edge<V> -> real) {
    forall e, c | e in es && IsPath(es, e.target, c, e.source) :: w(e) + Weight(w, c) >= 0.0
  }

  lemma CycleWeight<V>(es: set<Edge<V>>, w: Edge<V> -> real, m: V, c: seq<Edge<V>>)
    requires NoNegativeCycle(es, w) && IsPath(es, m, c, m)
    ensures Weight(w, c) >= 0.0
  {
    if c != [] {
      assert c[0] in es && IsPath(es, c[0].target, c[1..], c[0].source);
    }
  }

  /** A walk splits after its first `i` edges into two walks that meet there. */
  lemma {:induction false} PathSplit<V>(es: set<Edge<V>>, s: V, p: seq<Edge<V>>, t: V, i: nat)
    requires IsPath(es, s, p, t) && i <= |p|
    ensures IsPath(es, s, p[..i], At(s, p, i)) && IsPath(es, At(s, p, i), p[i..], t)
    decreases i
  {
    if i > 0 {
      PathSplit(es, p[0].target, p[1..], t, i - 1);
      assert p[1..][..i - 1] == p[..i][1..];
      assert p[1..][i - 1..] == p[i..];
      assert At(p[0].target, p[1..], i - 1) == At(s, p, i);
    }
  }

  /** The last edge of a walk leads into its end, from the end of the rest. */
  lemma PathUnsnoc<V>(es: set<Edge<V>>, s: V, p: seq<Edge<V>>, t: V)
    requires IsPath(es, s, p, t) && p != []
    ensures p[|p| - 1] in es && p[|p| - 1].target == t
    ensures IsPath(es, s, p[..|p| - 1], p[|p| - 1].source)
  {
    var k := |p| - 1;
    PathSplit(es, s, p, t, k);
    assert p[k..] == [p[k]];
    assert p[k..][1..] == [];
    if k > 0 {
      PathSplit(es, s, p, t, k + 1);
      assert p[..k + 1][1..] == p[1..k + 1];
    }
    assert At(s, p, k) == p[k].source by {
      if k > 0 {
        LinkAt(es, s, p, t, k);
      }
    }
  }

  /** Consecutive edges of a walk meet: edge `k` starts where edge `k - 1` ends. */
  lemma {:induction false} LinkAt<V>(es: set<Edge<V>>, s: V, p: seq<Edge<V>>, t: V, k: nat)
    requires IsPath(es, s, p, t) && 0 < k < |p|
    ensures p[k].source == p[k - 1].target
    decreases k
  {
    if k > 1 {
      LinkAt(es, p[0].target, p[1..], t, k - 1);
    }
  }

  /** Every vertex a walk visits is a vertex of a well-formed graph. */
  lemma VisitsVertices<V>(g: Graph<V>, s: V, p: seq<Edge<V>>, t: V, i: nat)
    requires WellFormed(g) && IsPath(g.edges, s, p, t) && p != [] && i <= |p|
    ensures At(s, p, i) in g.vertices
  {
    if i == 0 {
      assert p[0] in g.edges;
    } else {
      PathSplit(g.edges, s, p, t, i);
      PathUnsnoc(g.edges, s, p[..i], At(s, p, i));
    }
  }

  /** A sequence longer than the set holding its elements repeats an element. */
  lemma {:induction false} Pigeonhole<T>(xs: seq<T>, S: set<T>)
    requires forall k | 0 <= k < |xs| :: xs[k] in S
    requires |xs| > |S|
    ensures exists i, j | 0 <= i < j < |xs| :: xs[i] == xs[j]
    decreases |xs|
  {
    if xs[0] in xs[1..] {
      var j :| 0 <= j < |xs[1..]| && xs[1..][j] == xs[0];
      assert xs[0] == xs[j + 1];
    } else {
      forall k | 0 <= k < |xs[1..]|
        ensures xs[1..][k] in S - {xs[0]}
      {
        assert xs[1..][k] == xs[k + 1];
      }
      Pigeonhole(xs[1..], S - {xs[0]});
      var i, j :| 0 <= i < j < |xs[1..]| && xs[1..][i] == xs[1..][j];
      assert xs[i + 1] == xs[j + 1];
    }
  }

  /**
   * Cutting out the stretch between two visits of the same vertex leaves a
   * shorter walk, no heavier when that stretch, a cycle, weighs nothing less
   * than zero.
   */
  lemma CutCycle<V>(es: set<Edge<V>>, w: Edge<V> -> real, s: V, p: seq<Edge<V>>, t: V, i: nat, j: nat)
    requires IsPath(es, s, p, t) && i < j <= |p| && At(s, p, i) == At(s, p, j)
    ensures IsPath(es, s, p[..i] + p[j..], t) && |p[..i] + p[j..]| < |p|
    ensures NoNegativeCycle(es, w) ==> Weight(w, p[..i] + p[j..]) <= Weight(w, p)
  {
    var m := At(s, p, i);
    PathSplit(es, s, p, t, j);
    var front := p[..j];
    PathSplit(es, s, front, m, i);
    assert front[..i] == p[..i];
    assert At(s, front, i) == m;
    PathAppend(es, w, s, p[..i], m, p[j..], t);
    PathAppend(es, w, s, front, m, p[j..], t);
    assert front + p[j..] == p;
    PathAppend(es, w, s, front[..i], m, front[i..], m);
    assert front[..i] + front[i..] == front;
    if NoNegativeCycle(es, w) {
      CycleWeight(es, w, m, front[i..]);
    }
  }

  /**
   * Every walk of a well-formed graph can be shortened to one with fewer
   * edges than the graph has vertices, between the same ends, and no heavier
   * when no cycle is negative.
   */
  lemma {:induction false} Shortcut<V>(g: Graph<V>, w: Edge<V> -> real, s: V, p: seq<Edge<V>>, t: V)
    returns (q: seq<Edge<V>>)
    requires WellFormed(g) && IsPath(g.edges, s, p, t)
    ensures IsPath(g.edges, s, q, t) && |q| <= |p| && (q == [] || |q| < |g.vertices|)
    ensures NoNegativeCycle(g.edges, w) ==> Weight(w, q) <= Weight(w, p)
    decreases |p|
  {
    if p == [] || |p| < |g.vertices| {
      return p;
    }
    var xs := seq(|p| + 1, k requires 0 <= k <= |p| => At(s, p, k));
    forall k | 0 <= k < |xs|
      ensures xs[k] in g.vertices
    {
      VisitsVertices(g, s, p, t, k);
    }
    Pigeonhole(xs, g.vertices);
    var i, j :| 0 <= i < j < |xs| && xs[i] == xs[j];
    CutCycle(g.edges, w, s, p, t, i, j);
    q := Shortcut(g, w, s, p[..i] + p[j..], t);
  }

  /** A walk that visits no vertex twice, except that a closed walk ends where it starts. */
  ghost predicate Simple<V>(s: V, p: seq<Edge<V>>) {
    forall a, b | 0 <= a < b <= |p| && At(s, p, a) == At(s, p, b) :: a == 0 && b == |p|
  }

  /** Every vertex the walk passes through strictly between its two ends is listed in `S`. */
  ghost predicate Inside<V>(s: V, p: seq<Edge<V>>, S: seq<V>) {
    forall a | 0 < a < |p| :: At(s, p, a) in S
  }

  /** A walk of two edges or more passes through some vertex strictly between its ends. */
  lemma Inner<V>(s: V, p: seq<Edge<V>>)
    requires |p| >= 2
    ensures !Inside(s, p, [])
  {
    assert At(s, p, 1) !in [];
  }

  /** The positions of a walk's front part are the walk's own first positions. */
  lemma AtPrefix<V>(s: V, p: seq<Edge<V>>, i: nat, a: nat)
    requires a <= i <= |p|
    ensures At(s, p[..i], a) == At(s, p, a)
  {
  }

  /** The positions of a walk's back part are the walk's own last positions. */
  lemma AtSuffix<V>(s: V, p: seq<Edge<V>>, i: nat, a: nat)
    requires i + a <= |p|
    ensures At(At(s, p, i), p[i..], a) == At(s, p, i + a)
  {
  }

  /** A simple walk's front part that stops short of its end is simple. */
  lemma SimpleFront<V>(s: V, p: seq<Edge<V>>, t: nat)
    requires Simple(s, p) && t < |p|
    ensures Simple(s, p[..t])
  {
    assert forall a | 0 <= a <= t :: At(s, p[..t], a) == At(s, p, a);
  }

  /** A simple walk's back part that starts after its beginning is simple. */
  lemma SimpleBack<V>(s: V, p: seq<Edge<V>>, t: nat)
    requires Simple(s, p) && 0 < t <= |p|
    ensures Simple(At(s, p, t), p[t..])
  {
    assert forall a | 0 <= a <= |p| - t :: At(At(s, p, t), p[t..], a) == At(s, p, t + a);
  }

  /**
   * The front part of a simple walk, cut where it visits `x` in between,
   * is simple and passes only through the rest of what the walk passes through.
   */
  lemma FrontAvoids<V>(s: V, p: seq<Edge<V>>, t: nat, S: seq<V>, x: V)
    requires Simple(s, p) && 0 < t < |p| && At(s, p, t) == x && Inside(s, p, S + [x])
    ensures Simple(s, p[..t]) && Inside(s, p[..t], S)
  {
    SimpleFront(s, p, t);
    forall a | 0 < a < t
      ensures At(s, p[..t], a) in S
    {
      AtPrefix(s, p, t, a);
    }
  }

  /** The same for the back part, from the visit of `x` on. */
  lemma BackAvoids<V>(s: V, p: seq<Edge<V>>, t: nat, S: seq<V>, x: V)
    requires Simple(s, p) && 0 < t < |p| && At(s, p, t) == x && Inside(s, p, S + [x])
    ensures Simple(x, p[t..]) && Inside(x, p[t..], S)
  {
    SimpleBack(s, p, t);
    forall a | 0 < a < |p| - t
      ensures At(x, p[t..], a) in S
    {
      AtSuffix(s, p, t, a);
    }
  }

  /**
   * Repeatedly cutting out the stretch between two visits of a vertex turns
   * any walk into a simple one between the same ends, no heavier when no
   * cycle is negative.
   */
  lemma {:induction false} Simplify<V>(es: set<Edge<V>>, w: Edge<V> -> real, s: V, p: seq<Edge<V>>, t: V)
    returns (q: seq<Edge<V>>)
    requires IsPath(es, s, p, t)
    ensures IsPath(es, s, q, t) && Simple(s, q) && |q| <= |p|
    ensures NoNegativeCycle(es, w) ==> Weight(w, q) <= Weight(w, p)
    decreases |p|
  {
    if Simple(s, p) {
      return p;
    }
    var a, b :| 0 <= a < b <= |p| && At(s, p, a) == At(s, p, b) && !(a == 0 && b == |p|);
    CutCycle(es, w, s, p, t, a, b);
    q := Simplify(es, w, s, p[..a] + p[b..], t);
  }

  /**
   * Splitting a closed walk at a repeated vertex: the stretch between the
   * two visits and the rest are closed walks whose weights add up to the
   * whole.
   */
  lemma CycleParts<V>(es: set<Edge<V>>, w: Edge<V> -> real, m: V, c: seq<Edge<V>>, a: nat, b: nat)
    requires IsPath(es, m, c, m) && a < b <= |c| && At(m, c, a) == At(m, c, b)
    ensures IsPath(es, At(m, c, a), c[a..b], At(m, c, a))
    ensures IsPath(es, m, c[..a] + c[b..], m)
    ensures Weight(w, c[a..b]) + Weight(w, c[..a] + c[b..]) == Weight(w, c)
  {
    var x := At(m, c, a);
    CutCycle(es, w, m, c, m, a, b);
    PathSplit(es, m, c, m, b);
    var front := c[..b];
    PathSplit(es, m, front, x, a);
    assert front[..a] == c[..a] && front[a..] == c[a..b];
    assert At(m, front, a) == x;
    WeightAppend(w, c[..a], c[b..]);
    WeightAppend(w, front, c[b..]);
    assert front + c[b..] == c;
    WeightAppend(w, front[..a], front[a..]);
    assert front[..a] + front[a..] == front;
  }

  /** A closed walk of negative weight contains a simple one. */
  lemma {:induction false} NegativeSimple<V>(es: set<Edge<V>>, w: Edge<V> -> real, m: V, c: seq<Edge<V>>)
    returns (x: V, q: seq<Edge<V>>)
    requires IsPath(es, m, c, m) && Weight(w, c) < 0.0
    ensures IsPath(es, x, q, x) && Simple(x, q) && Weight(w, q) < 0.0
    decreases |c|
  {
    if Simple(m, c) {
      return m, c;
    }
    var a, b :| 0 <= a < b <= |c| && At(m, c, a) == At(m, c, b) && !(a == 0 && b == |c|);
    CycleParts(es, w, m, c, a, b);
    if Weight(w, c[a..b]) < 0.0 {
      x, q := NegativeSimple(es, w, At(m, c, a), c[a..b]);
    } else {
      x, q := NegativeSimple(es, w, m, c[..a] + c[b..]);
    }
  }

  /** A closed walk of negative weight is a negative cycle. */
  lemma ClosedNegative<V>(es: set<Edge<V>>, w: Edge<V> -> real, m: V, c: seq<Edge<V>>)
    requires IsPath(es, m, c, m) && Weight(w, c) < 0.0
    ensures !NoNegativeCycle(es, w)
  {
    assert c[0] in es && IsPath(es, c[0].target, c[1..], c[0].source);
  }

  /** Some cycle is negative exactly when some simple closed walk weighs less than zero. */
  lemma NegativeCycleSimple<V>(es: set<Edge<V>>, w: Edge<V> -> real)
    ensures !NoNegativeCycle(es, w) <==> exists x, q | IsPath(es, x, q, x) && Simple(x, q) :: Weight(w, q) < 0.0
  {
    if !NoNegativeCycle(es, w) {
      var e, c :| e in es && IsPath(es, e.target, c, e.source) && w(e) + Weight(w, c) < 0.0;
      PathCons(es, e, c, e.source);
      assert ([e] + c)[1..] == c;
      var x, q := NegativeSimple(es, w, e.source, [e] + c);
    }
    if exists x, q | IsPath(es, x, q, x) && Simple(x, q) :: Weight(w, q) < 0.0 {
      var x, q :| IsPath(es, x, q, x) && Simple(x, q) && Weight(w, q) < 0.0;
      ClosedNegative(es, w, x, q);
    }
  }

  /** `d` is the least weight of a walk from `s` to `t`, and +infinity exactly when there is none. */
  ghost predicate Exact<V>(es: set<Edge<V>>, w: Edge<V> -> real, s: V, t: V, d: Double) {
    && (d.Fin? || d.PosInf?)
    && (d.PosInf? <==> !Reachable(es, s, t))
    && (d.Fin? ==> (exists p :: IsPath(es, s, p, t) && Weight(w, p) == d.r) && forall p | IsPath(es, s, p, t) :: d.r <= Weight(w, p))
  }

  /**
   * A Java path record that answers the pair (s, t): it runs from s to t,
   * its distance is the least weight of a walk from s to t (+infinity, with
   * no edge list, when there is none), and its edge list is such a walk.
   */
  ghost predicate Answers<V>(es: set<Edge<V>>, w: Edge<V> -> real, s: V, t: V, path: SimplePath<V>) {
    && path.source == s && path.target == t
    && Exact(es, w, s, t, Distance(w, path))
    && (path.edges.Some? ==> IsPath(es, s, path.edges.value, t))
  }

  /**
   * A predecessor entry `prev` for distance `d` from `s` to `t`: with none,
   * `d` is the starting value; otherwise `d` is the weight of a walk from
   * `s` to `prev` followed by an edge from `prev` to `t`.
   */
  ghost predicate LastHop<V>(es: set<Edge<V>>, w: Edge<V> -> real, s: V, t: V, prev: Option<V>, d: Double) {
    if prev.None? then d == (if s == t then Fin(0.0) else PosInf)
    else d.Fin? && exists e, q | e in es && e.source == prev.value && e.target == t && IsPath(es, s, q, prev.value) ::
      Weight(w, q) + w(e) == d.r
  }
}
