/**
 * The label-correcting searches: the older Johnson copy, all three A*
 * copies. Each keeps a tentative distance for every vertex it has met and
 * lowers it whenever a scanned edge offers a strictly shorter one. This
 * module holds what they share: every label is the weight of a recorded
 * walk from the source without a repeated vertex, and the last edge of
 * that walk leads from the vertex recorded as the predecessor. Labels only
 * go down, and the set of short walks that would still beat a label
 * shrinks with every improvement, which bounds how often the searches can
 * put a vertex back into their heap.
 */
module Labels {
  import opened Wrappers
  import opened Doubles
  import opened Graphs
  import opened Walks
  import opened Searches

  /** No edge of the walk weighs less than zero. */
  ghost predicate Light<V>(w: Edge<V> -> real, p: seq<Edge<V>>) {
    forall i | 0 <= i < |p| :: w(p[i]) >= 0.0
  }

  /** The walk from `s` visits no vertex twice. */
  ghost predicate Distinct<V>(s: V, p: seq<Edge<V>>) {
    forall a, b | 0 <= a < b <= |p| :: At(s, p, a) != At(s, p, b)
  }

  /** Every front part of the walk from `s` ends at a labelled vertex and weighs no less than its label. */
  ghost predicate Prefixes<V>(w: Edge<V> -> real, s: V, dist: map<V, real>, p: seq<Edge<V>>) {
    forall i | 0 <= i <= |p| :: At(s, p, i) in dist && dist[At(s, p, i)] <= Weight(w, p[..i])
  }

  /** `p` is a walk recorded for the label of `v`. */
  ghost predicate Recorded<V>(es: set<Edge<V>>, w: Edge<V> -> real, s: V, dist: map<V, real>, p: seq<Edge<V>>, v: V)
    requires v in dist
  {
    IsPath(es, s, p, v) && Weight(w, p) == dist[v] && Light(w, p) && Distinct(s, p) && Prefixes(w, s, dist, p)
  }

  /**
   * The last edge `e` of the walk recorded for `v` leaves a labelled vertex
   * whose label plus the weight of `e` is at most `v`'s; when the two are
   * equal, the walk recorded for that vertex is `v`'s walk without `e`.
   */
  ghost predicate Hangs<V>(w: Edge<V> -> real, dist: map<V, real>, snap: map<V, seq<Edge<V>>>, v: V, e: Edge<V>)
    requires v in dist && v in snap && snap[v] != []
  {
    && e.source in dist && e.source in snap
    && dist[e.source] + w(e) <= dist[v]
    && (dist[e.source] + w(e) == dist[v] ==> snap[e.source] == snap[v][..|snap[v]| - 1])
  }

  /** The shared invariant: `dist` holds the labels, `snap` the walks recorded for them. */
  ghost predicate Tentative<V>(es: set<Edge<V>>, w: Edge<V> -> real, s: V, dist: map<V, real>, snap: map<V, seq<Edge<V>>>) {
    && s in dist && snap.Keys == dist.Keys && dist[s] == 0.0 && snap[s] == []
    && (forall v {:trigger Recorded(es, w, s, dist, snap[v], v)} | v in dist :: Recorded(es, w, s, dist, snap[v], v))
    && (forall v | v in dist && v != s :: snap[v] != [])
    && (forall v {:trigger Hangs(w, dist, snap, v, snap[v][|snap[v]| - 1])} | v in dist && v != s ::
          Hangs(w, dist, snap, v, snap[v][|snap[v]| - 1]))
  }

  /** The vertex a recorded walk comes from last, if any. */
  function Pred<V>(p: seq<Edge<V>>): Option<V> {
    if p == [] then None else Some(p[|p| - 1].source)
  }

  /** `dist'` labels every vertex `dist` labels, none higher. */
  ghost predicate Lowered<V>(dist': map<V, real>, dist: map<V, real>) {
    dist.Keys <= dist'.Keys && forall v | v in dist :: dist'[v] <= dist[v]
  }

  /** Every edge leaving `v` leads to a labelled vertex whose label the edge cannot beat. */
  ghost predicate Done<V>(es: set<Edge<V>>, w: Edge<V> -> real, dist: map<V, real>, v: V)
    requires v in dist
  {
    forall e | e in es && e.source == v :: e.target in dist && dist[e.target] <= dist[v] + w(e)
  }

  /** Every labelled vertex other than `skip` is waiting in the heap or done. */
  ghost predicate Waiting<V>(es: set<Edge<V>>, w: Edge<V> -> real, dist: map<V, real>, queued: set<V>, skip: Option<V>) {
    forall v | v in dist && Some(v) != skip :: v in queued || Done(es, w, dist, v)
  }

  /** All walks of at most `k` edges of `es`. */
  ghost function Short<V>(es: set<Edge<V>>, k: nat): set<seq<Edge<V>>>
    decreases k
  {
    if k == 0 then {[]}
    else Short(es, k - 1) + set p, e | p in Short(es, k - 1) && e in es :: p + [e]
  }

  /** The end of a walk from `s`. */
  function End<V>(s: V, p: seq<Edge<V>>): V {
    At(s, p, |p|)
  }

  /** The walk would give its end a label it lacks or a lower one. */
  ghost predicate Open<V>(w: Edge<V> -> real, s: V, dist: map<V, real>, p: seq<Edge<V>>) {
    End(s, p) !in dist || Weight(w, p) < dist[End(s, p)]
  }

  /** The short walks that would still improve a label: finitely many, and fewer after every improvement. */
  ghost function Candidates<V>(g: Graph<V>, w: Edge<V> -> real, s: V, dist: map<V, real>): set<seq<Edge<V>>> {
    set p | p in Short(g.edges, |g.vertices|) && Open(w, s, dist, p)
  }

  lemma {:induction false} ShortHas<V>(es: set<Edge<V>>, p: seq<Edge<V>>, k: nat)
    requires |p| <= k && forall i | 0 <= i < |p| :: p[i] in es
    ensures p in Short(es, k)
    decreases k
  {
    if k > 0 {
      if |p| <= k - 1 {
        ShortHas(es, p, k - 1);
      } else {
        var q := p[..|p| - 1];
        ShortHas(es, q, k - 1);
        assert p == q + [p[|p| - 1]];
      }
    }
  }

  /** The edges of a walk are edges of the graph. */
  lemma {:induction false} PathEdges<V>(es: set<Edge<V>>, s: V, p: seq<Edge<V>>, t: V)
    requires IsPath(es, s, p, t)
    ensures forall i | 0 <= i < |p| :: p[i] in es
    decreases |p|
  {
    if p != [] {
      PathEdges(es, p[0].target, p[1..], t);
      assert forall i | 1 <= i < |p| :: p[i] == p[1..][i - 1];
    }
  }

  /** A walk ends where its last position is. */
  lemma PathEnd<V>(es: set<Edge<V>>, s: V, p: seq<Edge<V>>, t: V)
    requires IsPath(es, s, p, t)
    ensures End(s, p) == t
  {
    if p != [] {
      PathUnsnoc(es, s, p, t);
    }
  }

  /** A walk that visits no vertex twice has at most as many edges as the graph has vertices. */
  lemma DistinctLength<V>(g: Graph<V>, s: V, p: seq<Edge<V>>, t: V)
    requires WellFormed(g) && IsPath(g.edges, s, p, t) && Distinct(s, p)
    ensures |p| <= |g.vertices|
  {
    if p != [] {
      var S := g.vertices + {s};
      var xs := seq(|p| + 1, i requires 0 <= i <= |p| => At(s, p, i));
      forall k | 0 <= k < |xs|
        ensures xs[k] in S
      {
        if k > 0 {
          VisitsVertices(g, s, p, t, k);
        }
      }
      if |xs| > |S| {
        Pigeonhole(xs, S);
        assert false;
      }
      assert |S| <= |g.vertices| + 1;
    }
  }

  /** Every labelled vertex other than the source is a vertex of the graph, and the source reaches it. */
  lemma InGraph<V>(g: Graph<V>, w: Edge<V> -> real, s: V, dist: map<V, real>, snap: map<V, seq<Edge<V>>>, v: V)
    requires WellFormed(g) && Tentative(g.edges, w, s, dist, snap) && v in dist
    ensures v != s ==> v in g.vertices
    ensures Reachable(g.edges, s, v)
  {
    assert Recorded(g.edges, w, s, dist, snap[v], v);
    if v != s {
      VisitsVertices(g, s, snap[v], v, |snap[v]|);
      PathEnd(g.edges, s, snap[v], v);
    }
  }

  /** A walk of non-negative edges weighs nothing less than zero. */
  lemma {:induction false} LightWeight<V>(w: Edge<V> -> real, p: seq<Edge<V>>)
    requires Light(w, p)
    ensures Weight(w, p) >= 0.0
    decreases |p|
  {
    if p != [] {
      assert Light(w, p[1..]) by {
        assert forall i | 0 <= i < |p[1..]| :: p[1..][i] == p[i + 1];
      }
      LightWeight(w, p[1..]);
    }
  }

  /** A front part of a walk of non-negative edges weighs no more than the whole walk. */
  lemma LightFront<V>(w: Edge<V> -> real, p: seq<Edge<V>>, i: nat)
    requires Light(w, p) && i <= |p|
    ensures Weight(w, p[..i]) <= Weight(w, p)
  {
    assert p == p[..i] + p[i..];
    WeightAppend(w, p[..i], p[i..]);
    assert Light(w, p[i..]) by {
      assert forall k | 0 <= k < |p[i..]| :: p[i..][k] == p[i + k];
    }
    LightWeight(w, p[i..]);
  }

  /** The labelled vertex itself, the end of its recorded walk, comes first on no strictly shorter front part. */
  lemma Unvisited<V>(es: set<Edge<V>>, w: Edge<V> -> real, s: V, dist: map<V, real>, snap: map<V, seq<Edge<V>>>,
                     e: Edge<V>, nd: real, i: nat)
    requires Tentative(es, w, s, dist, snap) && e.source in dist && 0.0 <= w(e)
    requires nd == dist[e.source] + w(e) && (e.target !in dist || nd < dist[e.target])
    requires i <= |snap[e.source]|
    ensures At(s, snap[e.source], i) != e.target
  {
    var p := snap[e.source];
    assert Recorded(es, w, s, dist, p, e.source);
    if At(s, p, i) == e.target {
      assert dist[e.target] <= Weight(w, p[..i]);
      LightFront(w, p, i);
      assert false;
    }
  }

  /** The walk recorded for the target of an improving edge: the source's walk and the edge. */
  lemma Extended<V>(es: set<Edge<V>>, w: Edge<V> -> real, s: V, dist: map<V, real>, snap: map<V, seq<Edge<V>>>,
                    e: Edge<V>, nd: real)
    requires Tentative(es, w, s, dist, snap) && e in es && e.source in dist && 0.0 <= w(e)
    requires nd == dist[e.source] + w(e) && (e.target !in dist || nd < dist[e.target])
    ensures e.target != s && e.target != e.source
    ensures Lowered(dist[e.target := nd], dist)
    ensures Recorded(es, w, s, dist[e.target := nd], snap[e.source] + [e], e.target)
  {
    var p := snap[e.source];
    var p' := p + [e];
    var dist' := dist[e.target := nd];
    assert Recorded(es, w, s, dist, p, e.source);
    Unvisited(es, w, s, dist, snap, e, nd, 0);
    PathEnd(es, s, p, e.source);
    Unvisited(es, w, s, dist, snap, e, nd, |p|);
    PathSnoc(es, w, s, p, e);
    assert Light(w, p') by {
      assert forall k | 0 <= k < |p| :: p'[k] == p[k];
    }
    assert forall a | 0 <= a <= |p| :: At(s, p', a) == At(s, p, a);
    assert Distinct(s, p') by {
      forall a, b | 0 <= a < b <= |p'|
        ensures At(s, p', a) != At(s, p', b)
      {
        if b == |p'| {
          Unvisited(es, w, s, dist, snap, e, nd, a);
        }
      }
    }
    assert Prefixes(w, s, dist', p') by {
      forall i | 0 <= i <= |p'|
        ensures At(s, p', i) in dist' && dist'[At(s, p', i)] <= Weight(w, p'[..i])
      {
        if i <= |p| {
          assert p'[..i] == p[..i];
        } else {
          assert p'[..i] == p';
        }
      }
    }
  }

  /** Lowering labels keeps every front-part bound. */
  lemma PrefixesLowered<V>(w: Edge<V> -> real, s: V, dist: map<V, real>, dist': map<V, real>, p: seq<Edge<V>>)
    requires Prefixes(w, s, dist, p) && Lowered(dist', dist)
    ensures Prefixes(w, s, dist', p)
  {
  }

  /**
   * An improving edge: the target takes the label through it, and the
   * source's walk extended by the edge as its recorded walk. The shared
   * invariant holds again, and the improving walk is no longer a candidate.
   */
  lemma Improve<V>(g: Graph<V>, w: Edge<V> -> real, s: V, dist: map<V, real>, snap: map<V, seq<Edge<V>>>,
                   e: Edge<V>, nd: real)
    requires WellFormed(g) && Tentative(g.edges, w, s, dist, snap) && e in g.edges && e.source in dist && 0.0 <= w(e)
    requires nd == dist[e.source] + w(e) && (e.target !in dist || nd < dist[e.target])
    ensures e.target != s && e.target != e.source
    ensures Lowered(dist[e.target := nd], dist)
    ensures Tentative(g.edges, w, s, dist[e.target := nd], snap[e.target := snap[e.source] + [e]])
    ensures Candidates(g, w, s, dist[e.target := nd]) < Candidates(g, w, s, dist)
  {
    var v := e.target;
    var dist', snap' := dist[v := nd], snap[v := snap[e.source] + [e]];
    Extended(g.edges, w, s, dist, snap, e, nd);
    Rerecorded(g.edges, w, s, dist, snap, e, nd);
    Rehung(g.edges, w, s, dist, snap, e, nd);
    Fewer(g, w, s, dist, dist', snap'[v]);
  }

  /** After an improvement, every other label keeps its recorded walk. */
  lemma Rerecorded<V>(es: set<Edge<V>>, w: Edge<V> -> real, s: V, dist: map<V, real>, snap: map<V, seq<Edge<V>>>,
                      e: Edge<V>, nd: real)
    requires Tentative(es, w, s, dist, snap) && e.source in dist
    requires e.target !in dist || nd < dist[e.target]
    ensures forall x | x in dist && x != e.target ::
      Recorded(es, w, s, dist[e.target := nd], snap[e.target := snap[e.source] + [e]][x], x)
  {
    var dist', snap' := dist[e.target := nd], snap[e.target := snap[e.source] + [e]];
    forall x | x in dist && x != e.target
      ensures Recorded(es, w, s, dist', snap'[x], x)
    {
      assert Recorded(es, w, s, dist, snap[x], x);
      PrefixesLowered(w, s, dist, dist', snap[x]);
    }
  }

  /** After an improvement, every last edge still hangs from its predecessor. */
  lemma Rehung<V>(es: set<Edge<V>>, w: Edge<V> -> real, s: V, dist: map<V, real>, snap: map<V, seq<Edge<V>>>,
                  e: Edge<V>, nd: real)
    requires Tentative(es, w, s, dist, snap) && e.source in dist && e.target != s && e.target != e.source
    requires nd == dist[e.source] + w(e) && (e.target !in dist || nd < dist[e.target])
    ensures var dist', snap' := dist[e.target := nd], snap[e.target := snap[e.source] + [e]];
      forall x | x in dist' && x != s :: snap'[x] != [] && Hangs(w, dist', snap', x, snap'[x][|snap'[x]| - 1])
  {
    var dist', snap' := dist[e.target := nd], snap[e.target := snap[e.source] + [e]];
    forall x | x in dist' && x != s
      ensures snap'[x] != [] && Hangs(w, dist', snap', x, snap'[x][|snap'[x]| - 1])
    {
      if x != e.target {
        assert snap[x] != [] && Hangs(w, dist, snap, x, snap[x][|snap[x]| - 1]);
      } else {
        assert snap'[x][..|snap'[x]| - 1] == snap[e.source];
      }
    }
  }

  /** The improving walk leaves the candidates, and lowered labels admit no new ones. */
  lemma Fewer<V>(g: Graph<V>, w: Edge<V> -> real, s: V, dist: map<V, real>, dist': map<V, real>, p: seq<Edge<V>>)
    requires WellFormed(g) && Lowered(dist', dist) && IsPath(g.edges, s, p, End(s, p)) && Distinct(s, p)
    requires Open(w, s, dist, p) && !Open(w, s, dist', p)
    ensures Candidates(g, w, s, dist') < Candidates(g, w, s, dist)
  {
    PathEdges(g.edges, s, p, End(s, p));
    DistinctLength(g, s, p, End(s, p));
    ShortHas(g.edges, p, |g.vertices|);
    assert p in Candidates(g, w, s, dist) && p !in Candidates(g, w, s, dist');
  }

  /** A proper subset is smaller. */
  lemma Smaller<T>(a: set<T>, b: set<T>)
    requires a < b
    ensures |a| < |b|
  {
    var x :| x in b && x !in a;
    var c := b - {x};
    assert c == a + (c - a);
    assert b == c + {x};
  }

  /**
   * The order in which the predecessor chains descend: first by how many
   * labels lie strictly below, then by the length of the recorded walk.
   */
  ghost function Below<V>(dist: map<V, real>, d: real): nat {
    |set x | x in dist && dist[x] < d|
  }

  ghost function Ranks<V>(g: Graph<V>, dist: map<V, real>, snap: map<V, seq<Edge<V>>>): map<V, nat>
    requires snap.Keys == dist.Keys
  {
    map v | v in dist :: Below(dist, dist[v]) * (|g.vertices| + 1) + |snap[v]|
  }

  /** A label strictly below another has fewer labels strictly below it. */
  lemma BelowLess<V>(dist: map<V, real>, u: V, v: V)
    requires u in dist && v in dist && dist[u] < dist[v]
    ensures Below(dist, dist[u]) < Below(dist, dist[v])
  {
    var su := set x | x in dist && dist[x] < dist[u];
    var sv := set x | x in dist && dist[x] < dist[v];
    assert u in sv && u !in su;
    Smaller(su, sv);
  }

  /** Lexicographic order on (labels below, walk length) read as one number. */
  lemma RankOrder(bu: nat, bv: nat, lu: nat, lv: nat, n: nat)
    requires lu < n && lv < n && (bu < bv || (bu == bv && lu < lv))
    ensures bu * n + lu < bv * n + lv
  {
    if bu < bv {
      assert (bu + 1) * n <= bv * n;
    }
  }

  /** The predecessor of a labelled vertex other than the source ranks strictly lower. */
  lemma Descend<V>(g: Graph<V>, w: Edge<V> -> real, s: V, dist: map<V, real>, snap: map<V, seq<Edge<V>>>, v: V)
    requires WellFormed(g) && Tentative(g.edges, w, s, dist, snap) && v in dist && v != s
    ensures var u := snap[v][|snap[v]| - 1].source;
      u in dist && Ranks(g, dist, snap)[u] < Ranks(g, dist, snap)[v]
  {
    var p := snap[v];
    var e := p[|p| - 1];
    var u := e.source;
    assert Recorded(g.edges, w, s, dist, p, v) && Hangs(w, dist, snap, v, e);
    assert Recorded(g.edges, w, s, dist, snap[u], u);
    DistinctLength(g, s, snap[u], u);
    DistinctLength(g, s, p, v);
    assert w(e) >= 0.0;
    if dist[u] < dist[v] {
      BelowLess(dist, u, v);
    }
    RankOrder(Below(dist, dist[u]), Below(dist, dist[v]), |snap[u]|, |p|, |g.vertices| + 1);
  }

  /** In the final state the recorded predecessors form a chain back to the source. */
  lemma Chained<V>(g: Graph<V>, w: Edge<V> -> real, s: V, dist: map<V, real>, snap: map<V, seq<Edge<V>>>,
                   previous: map<V, Option<Edge<V>>>)
    requires WellFormed(g) && Tentative(g.edges, w, s, dist, snap)
    requires forall v | v in dist && v != s :: v in previous && previous[v] == Some(snap[v][|snap[v]| - 1])
    ensures Chain(g.edges, previous, s, Ranks(g, dist, snap))
  {
    forall v | v in dist && v != s
      ensures var e := snap[v][|snap[v]| - 1]; e in g.edges && e.target == v
    {
      assert Recorded(g.edges, w, s, dist, snap[v], v);
      PathUnsnoc(g.edges, s, snap[v], v);
    }
    forall v | v in dist && v != s
      ensures var u := snap[v][|snap[v]| - 1].source; u in dist && Ranks(g, dist, snap)[u] < Ranks(g, dist, snap)[v]
    {
      Descend(g, w, s, dist, snap, v);
    }
  }

  /**
   * When no labelled vertex is waiting, the labels are the least walk
   * weights from the source, and a vertex has a label exactly when the
   * source reaches it.
   */
  lemma Settled<V>(es: set<Edge<V>>, w: Edge<V> -> real, s: V, dist: map<V, real>, snap: map<V, seq<Edge<V>>>, t: V)
    requires Tentative(es, w, s, dist, snap) && Waiting(es, w, dist, {}, None)
    ensures Exact(es, w, s, t, if t in dist then Fin(dist[t]) else PosInf)
  {
    assert Feasible(es, w, dist) by {
      forall e | e in es && e.source in dist
        ensures e.target in dist && dist[e.target] <= dist[e.source] + w(e)
      {
        assert Done(es, w, dist, e.source);
      }
    }
    forall p | IsPath(es, s, p, t)
      ensures t in dist && dist[t] <= Weight(w, p)
    {
      FeasibleBound(es, w, dist, s, p, t);
    }
    if t in dist {
      assert Recorded(es, w, s, dist, snap[t], t);
    }
  }
}
