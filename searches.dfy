/**
 * Breadth-first and depth-first search, in both copies of the library.
 * One loop serves all four: it takes the first vertex off a list of
 * discovered vertices, stops at the target, and otherwise records, for
 * every out-neighbour not seen before, the edge that reached it and adds
 * the neighbour to the list: at the back (`offer`, a queue) for
 * breadth-first search, in front (`push`, a stack) for depth-first search.
 * The newer copies walk the recorded edges back from the target into a path
 * record; the older ones record the vertex the edge came from and walk those
 * vertices into a vertex list.
 */
module Searches {
  import opened Wrappers
  import opened Graphs
  import opened Paths

  /**
   * A predecessor map read back towards `source`: every ranked vertex other
   * than `source` has a recorded edge of `es` into it, whose source is ranked
   * lower.
   */
  ghost predicate Chain<V>(es: set<Edge<V>>, previous: map<V, Option<Edge<V>>>, source: V, rank: map<V, nat>) {
    && source in rank
    && forall v | v in rank && v != source ::
         && v in previous && previous[v].Some?
         && previous[v].value in es && previous[v].value.target == v
         && previous[v].value.source in rank
         && rank[previous[v].value.source] < rank[v]
  }

  /** Along every recorded edge the rank grows by exactly one. */
  ghost predicate Tight<V>(es: set<Edge<V>>, previous: map<V, Option<Edge<V>>>, source: V, rank: map<V, nat>) {
    && Chain(es, previous, source, rank)
    && forall v | v in rank && v != source :: rank[v] == rank[previous[v].value.source] + 1
  }

  /** Along every recorded edge `d` grows by the edge's weight. */
  ghost predicate Labelled<V>(es: set<Edge<V>>, previous: map<V, Option<Edge<V>>>, source: V, rank: map<V, nat>,
                              w: Edge<V> -> real, d: map<V, real>) {
    && Chain(es, previous, source, rank)
    && rank.Keys <= d.Keys
    && forall v | v in rank && v != source :: d[v] == d[previous[v].value.source] + w(previous[v].value)
  }

  /** The edges the reconstruction loop collects for `v`, source-first. */
  ghost function Back<V>(es: set<Edge<V>>, previous: map<V, Option<Edge<V>>>, source: V, rank: map<V, nat>, v: V): seq<Edge<V>>
    requires Chain(es, previous, source, rank) && v in rank
    decreases rank[v]
  {
    if v == source then []
    else
      var e := previous[v].value;
      Back(es, previous, source, rank, e.source) + [e]
  }

  /** The collected edges form a walk from `source` to `v`. */
  lemma {:induction false} BackPath<V>(es: set<Edge<V>>, previous: map<V, Option<Edge<V>>>, source: V, rank: map<V, nat>, v: V)
    requires Chain(es, previous, source, rank) && v in rank
    ensures IsPath(es, source, Back(es, previous, source, rank, v), v)
    decreases rank[v]
  {
    if v != source {
      var e := previous[v].value;
      BackPath(es, previous, source, rank, e.source);
      PathSnoc(es, Hop, source, Back(es, previous, source, rank, e.source), e);
    }
  }

  /** With ranks growing by one, the walk to `v` has as many edges as `v`'s rank above the source's. */
  lemma {:induction false} BackLength<V>(es: set<Edge<V>>, previous: map<V, Option<Edge<V>>>, source: V, rank: map<V, nat>, v: V)
    requires Tight(es, previous, source, rank) && v in rank
    ensures |Back(es, previous, source, rank, v)| + rank[source] == rank[v]
    ensures forall i | 0 <= i < |Back(es, previous, source, rank, v)| ::
              && Back(es, previous, source, rank, v)[i].source in rank
              && rank[Back(es, previous, source, rank, v)[i].source] == rank[source] + i
    decreases rank[v]
  {
    if v != source {
      var e := previous[v].value;
      BackLength(es, previous, source, rank, e.source);
    }
  }

  /** With labels growing by the weights, the walk to `v` weighs the difference of the labels. */
  lemma {:induction false} BackWeight<V>(es: set<Edge<V>>, previous: map<V, Option<Edge<V>>>, source: V, rank: map<V, nat>,
                                         w: Edge<V> -> real, d: map<V, real>, v: V)
    requires Labelled(es, previous, source, rank, w, d) && v in rank
    ensures Weight(w, Back(es, previous, source, rank, v)) == d[v] - d[source]
    decreases rank[v]
  {
    if v != source {
      var e := previous[v].value;
      var p := Back(es, previous, source, rank, e.source);
      BackWeight(es, previous, source, rank, w, d, e.source);
      WeightAppend(w, p, [e]);
      assert Weight(w, [e]) == w(e) by {
        assert [e][1..] == [];
      }
    }
  }

  /** Every edge of the walk to `v` is the edge recorded for its own target. */
  lemma {:induction false} BackRecorded<V>(es: set<Edge<V>>, previous: map<V, Option<Edge<V>>>, source: V, rank: map<V, nat>, v: V)
    requires Chain(es, previous, source, rank) && v in rank
    ensures forall i | 0 <= i < |Back(es, previous, source, rank, v)| ::
              var e := Back(es, previous, source, rank, v)[i];
              && e.target in rank && e.target != source && previous[e.target] == Some(e)
    decreases rank[v]
  {
    if v != source {
      BackRecorded(es, previous, source, rank, previous[v].value.source);
    }
  }

  /** One step back: the vertices of the walk to `v` are those of the walk to its predecessor, then the predecessor. */
  lemma SourcesBack<V>(es: set<Edge<V>>, previous: map<V, Option<Edge<V>>>, source: V, rank: map<V, nat>, v: V)
    requires Chain(es, previous, source, rank) && v in rank && v != source
    ensures var u := previous[v].value.source;
      u in rank && Sources(Back(es, previous, source, rank, v)) == Sources(Back(es, previous, source, rank, u)) + [u]
  {
  }

  /**
   * The reconstruction loop of the newer copies: starting at the target,
   * push the recorded edge and move to its source until the source vertex
   * is reached.
   */
  method Walk<V>(previous: map<V, Option<Edge<V>>>, source: V, target: V, ghost es: set<Edge<V>>, ghost rank: map<V, nat>)
    returns (edges: seq<Edge<V>>)
    requires Chain(es, previous, source, rank) && target in rank
    ensures edges == Back(es, previous, source, rank, target)
    ensures IsPath(es, source, edges, target)
  {
    var cur := target;
    edges := [];
    while cur != source
      invariant cur in rank
      invariant Back(es, previous, source, rank, cur) + edges == Back(es, previous, source, rank, target)
      decreases rank[cur]
    {
      var e := previous[cur].value;
      edges := [e] + edges;
      cur := e.source;
    }
    BackPath(es, previous, source, rank, target);
  }

  /** The state of the search loop: `source` is the root of a tree of recorded edges. */
  ghost predicate Tree<V>(es: set<Edge<V>>, previous: map<V, Option<Edge<V>>>, source: V, depth: map<V, nat>) {
    && source in previous && previous[source] == None
    && depth.Keys == previous.Keys && depth[source] == 0
    && Tight(es, previous, source, depth)
  }

  /** No walk from `source` reaches a recorded vertex in fewer edges than its depth. */
  ghost predicate Fewest<V>(es: set<Edge<V>>, source: V, depth: map<V, nat>) {
    forall v, p | v in depth && IsPath(es, source, p, v) :: depth[v] <= |p|
  }

  /** The queue is sorted by depth and spans at most the depths `d` and `d + 1`. */
  ghost predicate Layered<V>(list: seq<V>, depth: map<V, nat>, d: nat) {
    && (forall i | 0 <= i < |list| :: list[i] in depth && d <= depth[list[i]] <= d + 1)
    && (forall i, j | 0 <= i < j < |list| && list[i] in depth && list[j] in depth :: depth[list[i]] <= depth[list[j]])
  }

  /** Every edge leaving the recorded vertices is still to be looked at: in `todo`, or from a listed vertex. */
  ghost predicate Frontier<V>(es: set<Edge<V>>, previous: map<V, Option<Edge<V>>>, list: seq<V>, todo: set<Edge<V>>) {
    forall f | f in es && f.source in previous && f.target !in previous :: f in todo || f.source in list
  }

  /**
   * A walk from a recorded vertex `u`, itself reached by `pre`, to an
   * unrecorded `y` leaves the recorded vertices along an edge whose source
   * lies at depth at least `d`; when depths are least, the whole walk from
   * `source` therefore has more than `d` edges.
   */
  lemma {:induction false} ExitBound<V>(es: set<Edge<V>>, previous: map<V, Option<Edge<V>>>, depth: map<V, nat>, source: V,
                                        pre: seq<Edge<V>>, u: V, q: seq<Edge<V>>, y: V, d: nat)
    requires depth.Keys == previous.Keys && u in previous && y !in previous
    requires IsPath(es, source, pre, u) && IsPath(es, u, q, y)
    requires Fewest(es, source, depth)
    requires forall f | f in es && f.source in previous && f.target !in previous :: depth[f.source] >= d
    ensures |pre| + |q| >= d + 1
    decreases |q|
  {
    var f := q[0];
    if f.target !in previous {
      assert depth[u] <= |pre|;
    } else {
      PathSnoc(es, Hop, source, pre, f);
      ExitBound(es, previous, depth, source, pre + [f], f.target, q[1..], y, d);
    }
  }

  /** A set closed under the edges keeps every walk that starts in it. */
  lemma {:induction false} ClosedReach<V>(es: set<Edge<V>>, previous: map<V, Option<Edge<V>>>, s: V, p: seq<Edge<V>>, t: V)
    requires s in previous && IsPath(es, s, p, t)
    requires forall f | f in es && f.source in previous :: f.target in previous
    ensures t in previous
    decreases |p|
  {
    if p != [] {
      ClosedReach(es, previous, p[0].target, p[1..], t);
    }
  }

  /**
   * Recording `y` one level below `cur` keeps the depths least when every
   * edge leaving the recorded vertices starts at depth `depth[cur]` or more.
   */
  lemma Discover<V>(es: set<Edge<V>>, previous: map<V, Option<Edge<V>>>, depth: map<V, nat>, source: V, cur: V, e: Edge<V>)
    requires depth.Keys == previous.Keys && source in previous && cur in previous && e.target !in previous
    requires Fewest(es, source, depth)
    requires forall f | f in es && f.source in previous && f.target !in previous :: depth[f.source] >= depth[cur]
    ensures Fewest(es, source, depth[e.target := depth[cur] + 1])
  {
    var y, d := e.target, depth[cur];
    forall v, p | v in depth[y := d + 1] && IsPath(es, source, p, v)
      ensures depth[y := d + 1][v] <= |p|
    {
      if v == y {
        assert IsPath(es, source, [], source);
        ExitBound(es, previous, depth, source, [], source, p, y, d);
      }
    }
  }

  /**
   * What the search loop keeps: the tree of recorded edges, the listed
   * vertices recorded, every edge leaving the recorded vertices in `todo` or
   * from a listed vertex, and for a queue the least depths with the queue
   * sorted between depths `d` and `d + 1`.
   */
  ghost predicate Searching<V>(g: Graph<V>, source: V, fifo: bool, previous: map<V, Option<Edge<V>>>, list: seq<V>,
                               depth: map<V, nat>, todo: set<Edge<V>>, d: nat) {
    && Tree(g.edges, previous, source, depth)
    && (forall i | 0 <= i < |list| :: list[i] in previous)
    && previous.Keys <= g.vertices + {source}
    && Frontier(g.edges, previous, list, todo)
    && (fifo ==> Fewest(g.edges, source, depth) && Layered(list, depth, d))
  }

  /** Taking the first vertex off the list hands its out-edges to `todo`. */
  lemma Poll<V>(g: Graph<V>, source: V, fifo: bool, previous: map<V, Option<Edge<V>>>, list: seq<V>, depth: map<V, nat>)
    requires list != [] && Searching(g, source, fifo, previous, list, depth, {}, Level(list, depth))
    ensures Searching(g, source, fifo, previous, list[1..], depth, Out(g.edges, list[0]), depth[list[0]])
  {
    forall f | f in g.edges && f.source in previous && f.target !in previous
      ensures f in Out(g.edges, list[0]) || f.source in list[1..]
    {
      assert f.source in list;
    }
  }

  /** A sorted queue between depths `d` and `d + 1` lies between its head's depth and one more. */
  lemma Relevel<V>(g: Graph<V>, source: V, fifo: bool, previous: map<V, Option<Edge<V>>>, list: seq<V>, depth: map<V, nat>, d: nat)
    requires list != [] && Searching(g, source, fifo, previous, list, depth, {}, d)
    requires fifo ==> d <= depth[list[0]]
    ensures Searching(g, source, fifo, previous, list, depth, {}, Level(list, depth))
  {
  }

  /** A discovered vertex joins a queue at the back and a stack at the front. */
  function Enlist<V>(fifo: bool, list: seq<V>, v: V): (r: seq<V>)
    ensures |r| == |list| + 1 && v in r && forall x | x in list :: x in r
  {
    if fifo then list + [v] else [v] + list
  }

  /** Recording a newly reached out-neighbour of `cur` keeps the search state. */
  lemma Record<V>(g: Graph<V>, source: V, fifo: bool, cur: V, previous: map<V, Option<Edge<V>>>, list: seq<V>,
                  depth: map<V, nat>, todo: set<Edge<V>>, e: Edge<V>)
    requires WellFormed(g) && cur in previous && cur in depth && e in todo && e.target !in previous
    requires todo <= Out(g.edges, cur)
    requires Searching(g, source, fifo, previous, list, depth, todo, depth[cur])
    ensures Searching(g, source, fifo, previous[e.target := Some(e)], Enlist(fifo, list, e.target),
                      depth[e.target := depth[cur] + 1], todo - {e}, depth[cur])
  {
    var t, d := e.target, depth[cur];
    RecordTree(g.edges, previous, source, depth, e);
    if fifo {
      Discover(g.edges, previous, depth, source, cur, e);
      RecordLayered(list, depth, d, t);
    }
  }

  /** The tree with the edge `e` hung below its recorded source. */
  lemma RecordTree<V>(es: set<Edge<V>>, previous: map<V, Option<Edge<V>>>, source: V, depth: map<V, nat>, e: Edge<V>)
    requires Tree(es, previous, source, depth) && e in es && e.source in previous && e.target !in previous
    ensures Tree(es, previous[e.target := Some(e)], source, depth[e.target := depth[e.source] + 1])
  {
    var previous', depth' := previous[e.target := Some(e)], depth[e.target := depth[e.source] + 1];
    forall v | v in depth' && v != source
      ensures previous'[v].Some? && previous'[v].value.source in depth'
    {
    }
  }

  /** A queue between depths `d` and `d + 1` stays so with a new vertex at depth `d + 1` at its back. */
  lemma RecordLayered<V>(list: seq<V>, depth: map<V, nat>, d: nat, t: V)
    requires Layered(list, depth, d) && t !in depth
    ensures Layered(list + [t], depth[t := d + 1], d)
  {
  }

  /** An out-edge into a recorded vertex needs no further look. */
  lemma Skip<V>(g: Graph<V>, source: V, fifo: bool, previous: map<V, Option<Edge<V>>>, list: seq<V>,
                depth: map<V, nat>, todo: set<Edge<V>>, e: Edge<V>, d: nat)
    requires e.target in previous && Searching(g, source, fifo, previous, list, depth, todo, d)
    ensures Searching(g, source, fifo, previous, list, depth, todo - {e}, d)
  {
  }

  /** One out-edge of `cur`: its target, if not recorded yet, is recorded with the edge and listed. */
  method Consider<V>(g: Graph<V>, source: V, fifo: bool, cur: V, previous: map<V, Option<Edge<V>>>, list: seq<V>,
                     ghost depth: map<V, nat>, ghost todo: set<Edge<V>>, e: Edge<V>, ghost d: nat)
    returns (previous': map<V, Option<Edge<V>>>, list': seq<V>, ghost depth': map<V, nat>)
    requires WellFormed(g) && cur in previous && cur in depth && depth[cur] == d && e in todo && todo <= Out(g.edges, cur)
    requires Searching(g, source, fifo, previous, list, depth, todo, d)
    ensures Searching(g, source, fifo, previous', list', depth', todo - {e}, d)
    ensures previous.Keys <= previous'.Keys && cur in depth' && depth'[cur] == d
    ensures previous'.Keys == previous.Keys ==> list' == list
  {
    if e.target !in previous {
      Record(g, source, fifo, cur, previous, list, depth, todo, e);
      previous' := previous[e.target := Some(e)];
      depth' := depth[e.target := d + 1];
      list' := Enlist(fifo, list, e.target);
    } else {
      Skip(g, source, fifo, previous, list, depth, todo, e, d);
      previous', list', depth' := previous, list, depth;
    }
  }

  /**
   * The inner loop over the out-edges of `cur`: every target not recorded
   * yet is recorded with the edge and listed.
   */
  method Expand<V>(g: Graph<V>, source: V, fifo: bool, cur: V, previous: map<V, Option<Edge<V>>>, list: seq<V>,
                   ghost depth: map<V, nat>)
    returns (previous': map<V, Option<Edge<V>>>, list': seq<V>, ghost depth': map<V, nat>)
    requires WellFormed(g) && cur in g.vertices && cur in previous && cur in depth
    requires Searching(g, source, fifo, previous, list, depth, Out(g.edges, cur), depth[cur])
    ensures Searching(g, source, fifo, previous', list', depth', {}, depth[cur])
    ensures previous.Keys <= previous'.Keys && cur in depth' && depth'[cur] == depth[cur]
    ensures previous'.Keys == previous.Keys ==> list' == list
  {
    previous', list', depth' := previous, list, depth;
    var todo := Out(g.edges, cur);
    while todo != {}
      invariant Searching(g, source, fifo, previous', list', depth', todo, depth[cur])
      invariant previous.Keys <= previous'.Keys && cur in depth' && depth'[cur] == depth[cur]
      invariant previous'.Keys == previous.Keys ==> list' == list
      invariant todo <= Out(g.edges, cur)
      decreases |todo|
    {
      var e :| e in todo;
      previous', list', depth' := Consider(g, source, fifo, cur, previous', list', depth', todo, e, depth[cur]);
      todo := todo - {e};
    }
  }

  /** Once the list runs dry, or the target is recorded, the target is recorded exactly when it is reachable. */
  lemma Conclude<V>(g: Graph<V>, source: V, target: V, fifo: bool, previous: map<V, Option<Edge<V>>>, list: seq<V>,
                    depth: map<V, nat>, d: nat)
    requires Tree(g.edges, previous, source, depth)
    requires target !in previous ==> list == [] && Searching(g, source, fifo, previous, list, depth, {}, d)
    ensures target in previous <==> Reachable(g.edges, source, target)
  {
    if target !in previous {
      forall p | IsPath(g.edges, source, p, target)
        ensures false
      {
        ClosedReach(g.edges, previous, source, p, target);
      }
    } else {
      BackPath(g.edges, previous, source, depth, target);
      assert IsPath(g.edges, source, Back(g.edges, previous, source, depth, target), target);
    }
  }

  /** Recording more of a finite set leaves less of it unrecorded. */
  lemma Shrinks<V>(all: set<V>, known: set<V>, known': set<V>)
    requires known < known' <= all
    ensures |all - known'| < |all - known|
  {
    assert known' == known + (known' - known);
    assert all - known == (all - known') + (known' - known);
    assert (all - known') * (known' - known) == {};
  }

  /** The depth the queue starts at. */
  ghost function Level<V>(list: seq<V>, depth: map<V, nat>): nat {
    if list == [] || list[0] !in depth then 0 else depth[list[0]]
  }

  /** The status of one round of the search loop. */
  datatype Visited = Continue | Found | Missing

  /**
   * One round of the search loop: take the first vertex off the list; stop
   * at the target; look up its out-edges, which fails for a value that is
   * not a vertex; otherwise expand it.
   */
  method Visit<V>(g: Graph<V>, source: V, target: V, fifo: bool, previous: map<V, Option<Edge<V>>>, list: seq<V>,
                  ghost depth: map<V, nat>)
    returns (previous': map<V, Option<Edge<V>>>, list': seq<V>, ghost depth': map<V, nat>, status: Visited)
    requires WellFormed(g) && list != [] && Searching(g, source, fifo, previous, list, depth, {}, Level(list, depth))
    requires source !in g.vertices ==> list == [source]
    ensures status == Missing <==> list[0] !in g.vertices && list[0] != target
    ensures status == Missing ==> list[0] == source
    ensures status == Found ==> target in previous' && Tree(g.edges, previous', source, depth')
    ensures status == Found && fifo ==> Fewest(g.edges, source, depth')
    ensures status == Continue ==> Searching(g, source, fifo, previous', list', depth', {}, Level(list', depth'))
    ensures status == Continue ==> source in g.vertices
    ensures status == Continue ==>
              || |g.vertices + {source} - previous'.Keys| < |g.vertices + {source} - previous.Keys|
              || (previous'.Keys == previous.Keys && |list'| < |list|)
  {
    var cur := list[0];
    Poll(g, source, fifo, previous, list, depth);
    previous', list', depth' := previous, list[1..], depth;
    if cur == target {
      return previous', list', depth', Found;
    }
    var out := EdgesFrom(g, cur);
    if out.None? {
      return previous', list', depth', Missing;
    }
    previous', list', depth' := Expand(g, source, fifo, cur, previous, list', depth);
    if list' != [] {
      Relevel(g, source, fifo, previous', list', depth', depth[cur]);
    }
    ghost var all := g.vertices + {source};
    if previous'.Keys != previous.Keys {
      Shrinks(all, previous.Keys, previous'.Keys);
    }
    status := Continue;
  }

  /**
   * The search loop. A value that is not a vertex has no out-edge set, so
   * looking at the source's edges fails with a null pointer when the source
   * is not a vertex and not the target; every later vertex is the target of
   * an edge, hence a vertex.
   */
  method Search<V>(g: Graph<V>, source: V, target: V, fifo: bool)
    returns (r: Result<map<V, Option<Edge<V>>>>, ghost depth: map<V, nat>)
    requires WellFormed(g)
    ensures r.Err? <==> source !in g.vertices && source != target
    ensures r.Err? ==> r.error == NullPointer
    ensures r.Ok? ==> Tree(g.edges, r.value, source, depth)
    ensures r.Ok? ==> (target in r.value <==> Reachable(g.edges, source, target))
    ensures r.Ok? && fifo ==> Fewest(g.edges, source, depth)
  {
    var previous: map<V, Option<Edge<V>>> := map[source := None];
    var list := [source];
    depth := map[source := 0];
    while list != []
      invariant Searching(g, source, fifo, previous, list, depth, {}, Level(list, depth))
      invariant source !in g.vertices ==> list == [source]
      decreases |g.vertices + {source} - previous.Keys|, |list|
    {
      var status;
      previous, list, depth, status := Visit(g, source, target, fifo, previous, list, depth);
      if status == Missing {
        return Err(NullPointer), depth;
      } else if status == Found {
        break;
      }
    }
    Conclude(g, source, target, fifo, previous, list, depth, Level(list, depth));
    return Ok(previous), depth;
  }

  /**
   * findPath of the newer copies: search, then walk the recorded edges back
   * from the target; null when the target was never recorded.
   */
  method FindPath<V>(g: Graph<V>, source: V, target: V, fifo: bool) returns (r: Result<Option<SimplePath<V>>>)
    requires WellFormed(g)
    ensures r.Err? <==> source !in g.vertices && source != target
    ensures r.Err? ==> r.error == NullPointer
    ensures r.Ok? ==> (r.value.Some? <==> Reachable(g.edges, source, target))
    ensures r.Ok? && r.value.Some? ==>
              && r.value.value.source == source && r.value.value.target == target && r.value.value.edges.Some?
              && IsPath(g.edges, source, r.value.value.edges.value, target)
    ensures r.Ok? && r.value.Some? && fifo ==>
              forall q | IsPath(g.edges, source, q, target) :: |r.value.value.edges.value| <= |q|
    ensures source == target ==> r == Ok(Some(SimplePath(source, source, Some([]))))
  {
    var found, depth := Search(g, source, target, fifo);
    if found.Err? {
      return Err(found.error);
    }
    var previous := found.value;
    if target !in previous {
      return Ok(None);
    }
    var edges := Walk(previous, source, target, g.edges, depth);
    if fifo {
      BackLength(g.edges, previous, source, depth, target);
    }
    return Ok(Some(SimplePath(source, target, Some(edges))));
  }

  /** BreadthFirstSearch.findPath (newer copy): a queue, so the path has the fewest edges. */
  method BreadthFirstPath<V>(g: Graph<V>, source: V, target: V) returns (r: Result<Option<SimplePath<V>>>)
    requires WellFormed(g)
    ensures r.Err? <==> source !in g.vertices && source != target
    ensures r.Ok? ==> (r.value.Some? <==> Reachable(g.edges, source, target))
    ensures r.Ok? && r.value.Some? ==>
              && r.value.value.source == source && r.value.value.target == target && r.value.value.edges.Some?
              && IsPath(g.edges, source, r.value.value.edges.value, target)
              && forall q | IsPath(g.edges, source, q, target) :: |r.value.value.edges.value| <= |q|
  {
    r := FindPath(g, source, target, true);
  }

  /** DepthFirstSearch.findPath (newer copy): a stack, so the path is some walk to the target. */
  method DepthFirstPath<V>(g: Graph<V>, source: V, target: V) returns (r: Result<Option<SimplePath<V>>>)
    requires WellFormed(g)
    ensures r.Err? <==> source !in g.vertices && source != target
    ensures r.Ok? ==> (r.value.Some? <==> Reachable(g.edges, source, target))
    ensures r.Ok? && r.value.Some? ==>
              && r.value.value.source == source && r.value.value.target == target && r.value.value.edges.Some?
              && IsPath(g.edges, source, r.value.value.edges.value, target)
  {
    r := FindPath(g, source, target, false);
  }

  /** The older copies record the vertex an edge came from rather than the edge. */
  function Predecessors<V>(previous: map<V, Option<Edge<V>>>): (pred: map<V, Option<V>>)
    ensures pred.Keys == previous.Keys
    ensures forall v | v in previous :: pred[v].Some? <==> previous[v].Some?
    ensures forall v | v in previous && previous[v].Some? :: pred[v].value == previous[v].value.source
  {
    map v | v in previous :: if previous[v].Some? then Some(previous[v].value.source) else None
  }

  /**
   * The list-building loop of the older copies: start with the target and
   * push predecessors until the source, whose entry is null.
   */
  method VertexWalk<V>(pred: map<V, Option<V>>, target: V, ghost es: set<Edge<V>>,
                       ghost previous: map<V, Option<Edge<V>>>, ghost source: V, ghost depth: map<V, nat>)
    returns (vs: seq<V>)
    requires Tree(es, previous, source, depth) && target in depth && pred == Predecessors(previous)
    ensures vs == Vertices(SimplePath(source, target, Some(Back(es, previous, source, depth, target)))).value
  {
    var cur := target;
    vs := [target];
    while pred[cur] != None
      invariant cur in depth && vs != [] && vs[0] == cur
      invariant Sources(Back(es, previous, source, depth, cur)) + vs == Sources(Back(es, previous, source, depth, target)) + [target]
      decreases depth[cur]
    {
      var e := previous[cur].value;
      assert Sources(Back(es, previous, source, depth, cur)) == Sources(Back(es, previous, source, depth, e.source)) + [e.source];
      cur := pred[cur].value;
      vs := [cur] + vs;
    }
  }

  /** Consecutive vertices of `vs` are joined by an edge of `es`. */
  ghost predicate Joined<V>(es: set<Edge<V>>, vs: seq<V>) {
    forall i | 0 <= i < |vs| - 1 :: Between(es, vs[i], vs[i + 1]) != {}
  }

  /**
   * The vertex list read off the tree runs from `source` to `target` along
   * edges, and the i-th vertex lies at depth i, so none repeats.
   */
  lemma VertexListShape<V>(es: set<Edge<V>>, previous: map<V, Option<Edge<V>>>, source: V, depth: map<V, nat>, target: V)
    requires Tree(es, previous, source, depth) && target in depth
    ensures var vs := Vertices(SimplePath(source, target, Some(Back(es, previous, source, depth, target)))).value;
      && |vs| == depth[target] + 1 && vs[0] == source && vs[|vs| - 1] == target
      && Joined(es, vs)
      && (forall i | 0 <= i < |vs| :: vs[i] in depth && depth[vs[i]] == i)
  {
    var p := SimplePath(source, target, Some(Back(es, previous, source, depth, target)));
    BackPath(es, previous, source, depth, target);
    BackLength(es, previous, source, depth, target);
    VerticesFollowPath(es, p);
    var vs := Vertices(p).value;
    forall i | 0 <= i < |vs| - 1
      ensures Between(es, vs[i], vs[i + 1]) != {}
    {
      assert p.edges.value[i] in Between(es, vs[i], vs[i + 1]);
    }
  }

  /**
   * findPath of the older copies: search, then read the vertex list off the
   * predecessors; null when the target was never recorded.
   */
  method FindVertices<V>(g: Graph<V>, source: V, target: V, fifo: bool) returns (r: Result<Option<seq<V>>>)
    requires WellFormed(g)
    ensures r.Err? <==> source !in g.vertices && source != target
    ensures r.Err? ==> r.error == NullPointer
    ensures r.Ok? ==> (r.value.Some? <==> Reachable(g.edges, source, target))
    ensures r.Ok? && r.value.Some? ==>
              && |r.value.value| >= 1 && r.value.value[0] == source && r.value.value[|r.value.value| - 1] == target
              && Joined(g.edges, r.value.value)
              && forall i, j | 0 <= i < j < |r.value.value| :: r.value.value[i] != r.value.value[j]
    ensures r.Ok? && r.value.Some? && fifo ==>
              forall q | IsPath(g.edges, source, q, target) :: |r.value.value| <= |q| + 1
    ensures source == target ==> r == Ok(Some([source]))
  {
    var found, depth := Search(g, source, target, fifo);
    if found.Err? {
      return Err(found.error);
    }
    var previous := found.value;
    if target !in previous {
      return Ok(None);
    }
    var vs := VertexWalk(Predecessors(previous), target, g.edges, previous, source, depth);
    VertexListShape(g.edges, previous, source, depth, target);
    if source == target {
      assert Back(g.edges, previous, source, depth, target) == [];
      assert Sources<V>([]) + [target] == [target];
      assert vs == [target];
    }
    return Ok(Some(vs));
  }

  /** BreadthFirstSearch.findPath (older copy): the vertex list has the fewest hops. */
  method BreadthFirstVertices<V>(g: Graph<V>, source: V, target: V) returns (r: Result<Option<seq<V>>>)
    requires WellFormed(g)
    ensures r.Err? <==> source !in g.vertices && source != target
    ensures r.Ok? ==> (r.value.Some? <==> Reachable(g.edges, source, target))
    ensures r.Ok? && r.value.Some? ==>
              && |r.value.value| >= 1 && r.value.value[0] == source && r.value.value[|r.value.value| - 1] == target
              && Joined(g.edges, r.value.value)
              && (forall i, j | 0 <= i < j < |r.value.value| :: r.value.value[i] != r.value.value[j])
              && forall q | IsPath(g.edges, source, q, target) :: |r.value.value| <= |q| + 1
  {
    r := FindVertices(g, source, target, true);
  }

  /** DepthFirstSearch.findPath (older copy). */
  method DepthFirstVertices<V>(g: Graph<V>, source: V, target: V) returns (r: Result<Option<seq<V>>>)
    requires WellFormed(g)
    ensures r.Err? <==> source !in g.vertices && source != target
    ensures r.Ok? ==> (r.value.Some? <==> Reachable(g.edges, source, target))
    ensures r.Ok? && r.value.Some? ==>
              && |r.value.value| >= 1 && r.value.value[0] == source && r.value.value[|r.value.value| - 1] == target
              && Joined(g.edges, r.value.value)
              && forall i, j | 0 <= i < j < |r.value.value| :: r.value.value[i] != r.value.value[j]
  {
    r := FindVertices(g, source, target, false);
  }
}
