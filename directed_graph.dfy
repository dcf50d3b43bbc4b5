/**
 * The graph store of AbstractDirectedGraph: a vertex set and four edge
 * indices that its set views keep in step by hand. AbstractGraph, the older
 * copy, is the same store without a loop policy.
 */
module DirectedGraphs {
  import opened Wrappers
  import opened Graphs
  import opened EdgeIndices

  /**
   * The outgoing or incoming view of a vertex as its caller holds it: the
   * vertex and the stamp of the EdgeMap and incoming set it belongs to.
   */
  datatype VertexView<V> = VertexView(vertex: V, stamp: nat)

  /** Every bundle stored in `bun` has a stamp. */
  ghost predicate BundlesStamped<V>(bun: Bundles<V>, bundleStamps: map<(V, V), nat>) {
    forall s, t | s in bun && t in bun[s] :: (s, t) in bundleStamps
  }

  /** A bundle with a stamp that takes an edge leaves every bundle with a stamp. */
  lemma BundleWithStamped<V>(bun: Bundles<V>, bundleStamps: map<(V, V), nat>, e: Edge<V>)
    requires e.source in bun && BundlesStamped(bun, bundleStamps) && (e.source, e.target) in bundleStamps
    ensures BundlesStamped(bun[e.source := BundleWith(bun, e)], bundleStamps)
  {
    var s := e.source;
    var bun' := bun[s := BundleWith(bun, e)];
    forall x, y | x in bun' && y in bun'[x] ensures (x, y) in bundleStamps {
      if (x, y) != (s, e.target) {
        assert y in bun[x];
      }
    }
  }

  class DirectedGraph<V(==)> {
    /** The VertexSet. */
    var vertices: set<V>
    /** The global EdgeSetAll. */
    var edges: set<Edge<V>>
    /** Each vertex's EdgeSetOutgoing (the `edges` field of its EdgeMap). */
    var outgoing: map<V, set<Edge<V>>>
    /** Each vertex's EdgeSetIncoming. */
    var incoming: map<V, set<Edge<V>>>
    /** The `graph` map: for each source, its EdgeMap from target to bundle. */
    var bundles: map<V, map<V, set<Edge<V>>>>
    /**
     * Stamps stand for the identity of the view objects: `made` is the next
     * unused stamp, `stamps` holds the stamp of each vertex's EdgeMap and
     * incoming set (VertexSet.addToOthers makes both at once), and
     * `bundleStamps` the stamp of each bundle. The entries of detached views
     * stay behind, and no stamp is handed out twice.
     */
    var made: nat
    var stamps: map<V, nat>
    var bundleStamps: map<(V, V), nat>
    const withLoops: bool
    /** The edge factory; None is the null factory. */
    const edgeFactory: Option<(V, V) -> Edge<V>>

    /**
     * The indices describe the edge set `es`: every index is the matching
     * filter of `es`, every vertex has its entries, and a bundle exists
     * exactly while it holds an edge; and the views carry their stamps.
     */
    ghost predicate Indexes(es: set<Edge<V>>)
      reads this
    {
      Indexed(vertices, outgoing, incoming, bundles, es) && Stamped()
    }

    /** Every vertex and every bundle carries a stamp that has been handed out. */
    ghost predicate Stamped()
      reads this
    {
      && vertices <= stamps.Keys
      && BundlesStamped(bundles, bundleStamps)
      && (forall v | v in stamps :: stamps[v] < made)
      && (forall p | p in bundleStamps :: bundleStamps[p] < made)
    }

    /**
     * The view is the current outgoing or incoming set of its vertex. A view
     * made before the vertex was last removed was detached then: its vertex
     * field is null, and it was emptied.
     */
    predicate Attached(view: VertexView<V>)
      reads this
    {
      view.vertex in vertices && view.vertex in stamps && stamps[view.vertex] == view.stamp
    }

    /**
     * The view is the bundle stored for its pair. A bundle made before was
     * detached when it became empty or its source was removed: its endpoints
     * are null.
     */
    predicate BundleAttached(view: BundleView<V>)
      reads this
    {
      && view.source in bundles && view.target in bundles[view.source]
      && (view.source, view.target) in bundleStamps && bundleStamps[(view.source, view.target)] == view.stamp
    }

    ghost predicate Valid()
      reads this
    {
      && Indexes(edges)
      && (withLoops ==> forall e | e in edges :: e.source != e.target)
    }

    /** The graph the store holds: getAllVertices and getAllEdges. */
    function Value(): Graph<V>
      reads this
    {
      Graph(vertices, edges)
    }

    /** The loop policy as the source applies it (true lets the edge through). */
    predicate LoopGuard(e: Edge<V>) {
      !withLoops || e.source != e.target
    }

    constructor (edgeFactory: Option<(V, V) -> Edge<V>>, withLoops: bool)
      ensures Valid() && vertices == {} && edges == {}
      ensures this.edgeFactory == edgeFactory && this.withLoops == withLoops
    {
      this.edgeFactory := edgeFactory;
      this.withLoops := withLoops;
      vertices, edges := {}, {};
      outgoing, incoming, bundles := map[], map[], map[];
      made, stamps, bundleStamps := 0, map[], map[];
    }

    /** The AbstractGraph constructor: the same store with no loop policy. */
    constructor WithoutLoopPolicy(edgeFactory: Option<(V, V) -> Edge<V>>)
      ensures Valid() && vertices == {} && edges == {}
      ensures this.edgeFactory == edgeFactory && !withLoops
      ensures forall e :: LoopGuard(e)
    {
      this.edgeFactory := edgeFactory;
      this.withLoops := false;
      vertices, edges := {}, {};
      outgoing, incoming, bundles := map[], map[], map[];
      made, stamps, bundleStamps := 0, map[], map[];
    }

    /** VertexSet.addToOthers: a new vertex gets an empty EdgeMap and incoming set. */
    method Register(ghost es: set<Edge<V>>, v: V)
      requires Indexes(es) && v !in vertices
      modifies this
      ensures Indexes(es)
      ensures vertices == old(vertices) + {v} && edges == old(edges)
      ensures outgoing[v] == {} && incoming[v] == {} && bundles[v] == map[]
      ensures stamps == old(stamps)[v := old(made)] && made == old(made) + 1
      ensures bundleStamps == old(bundleStamps)
    {
      RegisterKeepsIndexed(vertices, outgoing, incoming, bundles, es, v);
      vertices := vertices + {v};
      outgoing := outgoing[v := {}];
      incoming := incoming[v := {}];
      bundles := bundles[v := map[]];
      stamps := stamps[v := made];
      made := made + 1;
    }

    /** A vertex is registered unless it is already known. */
    method Admit(ghost es: set<Edge<V>>, v: V)
      requires Indexes(es)
      modifies this
      ensures Indexes(es)
      ensures vertices == old(vertices) + {v} && edges == old(edges)
    {
      if v !in vertices {
        Register(es, v);
      }
    }

    /**
     * The addToOthers of the edge views: add missing endpoints, create the
     * bundle if needed, and put the edge into the bundle, the outgoing set
     * and the incoming set.
     */
    method Index(ghost es: set<Edge<V>>, e: Edge<V>)
      requires Indexes(es) && e !in es
      modifies this
      ensures Indexes(es + {e})
      ensures vertices == old(vertices) + {e.source, e.target} && edges == old(edges)
    {
      Admit(es, e.source);
      Admit(es, e.target);
      Insert(es, e);
    }

    /** The indices take an edge whose endpoints are known. */
    method Insert(ghost es: set<Edge<V>>, e: Edge<V>)
      requires Indexes(es) && e !in es && e.source in vertices && e.target in vertices
      modifies this
      ensures Indexes(es + {e})
      ensures vertices == old(vertices) && edges == old(edges)
    {
      var s, t := e.source, e.target;
      InsertKeepsIndexed(vertices, outgoing, incoming, bundles, es, e);
      if t !in bundles[s] {
        // a new EdgeSetSpecific
        StampBundle(s, t);
      }
      BundleWithStamped(bundles, bundleStamps, e);
      bundles, outgoing, incoming :=
        bundles[s := BundleWith(bundles, e)], outgoing[s := outgoing[s] + {e}], incoming[t := incoming[t] + {e}];
    }

    /** A new bundle object for (s, t) takes the next stamp. */
    method StampBundle(s: V, t: V)
      requires Stamped()
      modifies this
      ensures Stamped()
      ensures bundleStamps == old(bundleStamps)[(s, t) := old(made)] && made == old(made) + 1
      ensures vertices == old(vertices) && edges == old(edges) && stamps == old(stamps)
      ensures outgoing == old(outgoing) && incoming == old(incoming) && bundles == old(bundles)
    {
      ghost var before := bundleStamps;
      bundleStamps := bundleStamps[(s, t) := made];
      made := made + 1;
      forall p | p in bundleStamps ensures bundleStamps[p] < made {
        if p != (s, t) {
          assert p in before;
        }
      }
    }

    /**
     * The removeFromOthers of the edge views: take the edge out of its bundle
     * (detaching the bundle when it becomes empty), the outgoing set and the
     * incoming set.
     */
    method Unindex(ghost es: set<Edge<V>>, e: Edge<V>)
      requires Indexes(es) && e in es
      modifies this
      ensures Indexes(es - {e})
      ensures vertices == old(vertices) && edges == old(edges)
    {
      var s, t := e.source, e.target;
      DeleteKeepsIndexed(vertices, outgoing, incoming, bundles, es, e);
      var bundle := bundles[s][t] - {e};
      if bundle == {} {
        // detach: the empty bundle leaves its source's map
        bundles := bundles[s := bundles[s] - {t}];
      } else {
        bundles := bundles[s := bundles[s][t := bundle]];
      }
      outgoing := outgoing[s := outgoing[s] - {e}];
      incoming := incoming[t := incoming[t] - {e}];
    }

    /** Removal of a stored edge from the global set and all indices. */
    method Drop(e: Edge<V>)
      requires Valid() && e in edges
      modifies this
      ensures Valid()
      ensures vertices == old(vertices) && edges == old(edges) - {e}
    {
      ghost var es := edges;
      edges := edges - {e};
      Unindex(es, e);
    }

    /** addVertex: VertexSet.add through SetExtension.add. */
    method AddVertex(v: V) returns (added: bool)
      requires Valid()
      modifies this
      ensures Valid()
      ensures added <==> v !in old(vertices)
      ensures vertices == old(vertices) + {v} && edges == old(edges)
      ensures ContainsVertex(v) && (added ==> GetInDegree(v) == 0 && GetOutDegree(v) == 0)
      ensures added ==> ViewOf(v) == Some(VertexView(v, old(made)))
      ensures added ==> forall view: VertexView<V> | view.stamp < old(made) :: view.vertex == v ==> !Attached(view)
      ensures !added ==> unchanged(this)
    {
      if v in vertices {
        return false;
      }
      Register(edges, v);
      added := true;
    }

    /** addEdge(e): EdgeSetAll.add, the loop guard and then SetExtension.add. */
    method AddEdge(e: Edge<V>) returns (added: bool)
      requires Valid()
      modifies this
      ensures Valid()
      ensures added <==> LoopGuard(e) && e !in old(edges)
      ensures edges == if added then old(edges) + {e} else old(edges)
      ensures vertices == if added then old(vertices) + {e.source, e.target} else old(vertices)
      ensures added ==> |edges| == |old(edges)| + 1
      ensures added ==> e in outgoing[e.source] && e in incoming[e.target] && e in bundles[e.source][e.target]
    {
      if !LoopGuard(e) || e in edges {
        return false;
      }
      ghost var es := edges;
      edges := edges + {e};
      Index(es, e);
      added := true;
    }

    /** addEdge(v1, v2): the edge factory's edge, added as by addEdge(e). */
    method AddEdgeBetween(v1: V, v2: V) returns (r: Result<bool>)
      requires Valid()
      modifies this
      ensures Valid()
      ensures edgeFactory.None? ==> r == Err(NullPointer) && edges == old(edges) && vertices == old(vertices)
      ensures edgeFactory.Some? ==> (
        var e := edgeFactory.value(v1, v2);
        && r.Ok?
        && (r.value <==> LoopGuard(e) && e !in old(edges))
        && edges == (if r.value then old(edges) + {e} else old(edges))
        && vertices == (if r.value then old(vertices) + {e.source, e.target} else old(vertices)))
    {
      if edgeFactory.None? {
        return Err(NullPointer);
      }
      var added := AddEdge(edgeFactory.value(v1, v2));
      r := Ok(added);
    }

    /**
     * add on an outgoing view: only edges leaving its vertex are accepted. A
     * detached view compares every source with its null vertex and accepts
     * nothing.
     */
    method AddThroughOutgoing(view: VertexView<V>, e: Edge<V>) returns (added: bool)
      requires Valid()
      modifies this
      ensures Valid()
      ensures added <==> old(Attached(view)) && e.source == view.vertex && LoopGuard(e) && e !in old(edges)
      ensures edges == if added then old(edges) + {e} else old(edges)
      ensures vertices == if added then old(vertices) + {e.target} else old(vertices)
      ensures !added ==> unchanged(this)
    {
      var v := view.vertex;
      if !Attached(view) || e.source != v || !LoopGuard(e) || e in outgoing[v] {
        return false;
      }
      ghost var es := edges;
      edges := edges + {e};
      Index(es, e);
      added := true;
    }

    /**
     * add on an incoming view: only edges entering its vertex are accepted. A
     * detached view compares every target with its null vertex and accepts
     * nothing.
     */
    method AddThroughIncoming(view: VertexView<V>, e: Edge<V>) returns (added: bool)
      requires Valid()
      modifies this
      ensures Valid()
      ensures added <==> old(Attached(view)) && e.target == view.vertex && LoopGuard(e) && e !in old(edges)
      ensures edges == if added then old(edges) + {e} else old(edges)
      ensures vertices == if added then old(vertices) + {e.source} else old(vertices)
      ensures !added ==> unchanged(this)
    {
      var v := view.vertex;
      if !Attached(view) || e.target != v || !LoopGuard(e) || e in incoming[v] {
        return false;
      }
      ghost var es := edges;
      edges := edges + {e};
      Index(es, e);
      added := true;
    }

    /**
     * add on a bundle view, as written: after the bundle takes the edge, its
     * addToOthers calls the checked add of the global set, whose own
     * addToOthers finds the edge already in the bundle and fails. The call
     * throws with the edge in the bundle and the global set only, so the
     * indices no longer agree. A detached bundle has null endpoints and
     * accepts nothing.
     */
    method AddThroughBundle(view: BundleView<V>, e: Edge<V>) returns (r: Result<bool>)
      requires Valid()
      modifies this
      ensures r.Ok? <==> !(old(BundleAttached(view)) && e.source == view.source && e.target == view.target && e !in old(edges))
      ensures r.Ok? ==> r == Ok(false) && Valid() && unchanged(this)
      ensures r.Err? ==> r.error == ConcurrentModification && !Valid()
      ensures r.Err? ==> edges == old(edges) + {e} && vertices == old(vertices)
      ensures r.Err? ==> var s, t := view.source, view.target;
        bundles == old(bundles)[s := old(bundles)[s][t := old(bundles)[s][t] + {e}]]
      ensures r.Err? ==> outgoing == old(outgoing) && incoming == old(incoming)
    {
      if !BundleAttached(view) {
        return Ok(false);
      }
      var s, t := view.source, view.target;
      // A stored bundle never joins a vertex to itself when loops are refused.
      assert LoopGuard(Edge(s, t, Pair)) by {
        BundleIndexed(vertices, outgoing, incoming, bundles, edges, s, t);
        var x :| x in bundles[s][t];
      }
      if e.source != s || e.target != t || e in bundles[s][t] {
        return Ok(false);
      }
      bundles := bundles[s := bundles[s][t := bundles[s][t] + {e}]];
      edges := edges + {e};
      assert e !in outgoing[s];
      r := Err(ConcurrentModification);
    }

    /** removeEdge(e): SetExtension.remove on the global set. */
    method RemoveEdge(e: Edge<V>) returns (removed: bool)
      requires Valid()
      modifies this
      ensures Valid()
      ensures removed <==> e in old(edges)
      ensures edges == old(edges) - {e} && vertices == old(vertices)
      ensures removed ==> e !in outgoing[e.source] && e !in incoming[e.target]
      ensures removed ==> (e.target in bundles[e.source] <==> Between(edges, e.source, e.target) != {})
    {
      if e !in edges {
        return false;
      }
      Drop(e);
      removed := true;
    }

    /**
     * remove on an outgoing view. A detached view was emptied when it was
     * detached, so it holds nothing to remove.
     */
    method RemoveThroughOutgoing(view: VertexView<V>, e: Edge<V>) returns (removed: bool)
      requires Valid()
      modifies this
      ensures Valid()
      ensures removed <==> old(Attached(view)) && e in old(edges) && e.source == view.vertex
      ensures edges == if removed then old(edges) - {e} else old(edges)
      ensures vertices == old(vertices)
      ensures !removed ==> unchanged(this)
    {
      if !Attached(view) || e !in outgoing[view.vertex] {
        return false;
      }
      Drop(e);
      removed := true;
    }

    /**
     * remove on an incoming view. A detached view was emptied when it was
     * detached, so it holds nothing to remove.
     */
    method RemoveThroughIncoming(view: VertexView<V>, e: Edge<V>) returns (removed: bool)
      requires Valid()
      modifies this
      ensures Valid()
      ensures removed <==> old(Attached(view)) && e in old(edges) && e.target == view.vertex
      ensures edges == if removed then old(edges) - {e} else old(edges)
      ensures vertices == old(vertices)
      ensures !removed ==> unchanged(this)
    {
      if !Attached(view) || e !in incoming[view.vertex] {
        return false;
      }
      Drop(e);
      removed := true;
    }

    /**
     * remove on a bundle view, as written: removing the bundle's last edge
     * detaches the bundle first, clearing its endpoints, and the following
     * lookup of the null source fails after the edge has left the global set
     * but before it leaves the outgoing and incoming sets. A detached bundle
     * was emptied when it was detached, so it holds nothing to remove.
     */
    method RemoveThroughBundle(view: BundleView<V>, e: Edge<V>) returns (r: Result<bool>)
      requires Valid()
      modifies this
      ensures !old(BundleAttached(view)) ==> r == Ok(false) && unchanged(this)
      ensures old(BundleAttached(view)) ==> var s, t := view.source, view.target;
        && (e !in old(bundles[s][t]) ==> r == Ok(false) && unchanged(this))
        && (e in old(bundles[s][t]) && |old(bundles[s][t])| > 1 ==>
              r == Ok(true) && Valid() && edges == old(edges) - {e} && vertices == old(vertices))
        && (e in old(bundles[s][t]) && |old(bundles[s][t])| == 1 ==>
              && r == Err(NullPointer) && !Valid()
              && bundles == old(bundles)[s := old(bundles)[s] - {t}]
              && edges == old(edges) - {e}
              && outgoing == old(outgoing) && incoming == old(incoming) && vertices == old(vertices))
    {
      if !BundleAttached(view) {
        return Ok(false);
      }
      var s, t := view.source, view.target;
      if e !in bundles[s][t] {
        return Ok(false);
      }
      if |bundles[s][t]| > 1 {
        Drop(e);
        return Ok(true);
      }
      bundles := bundles[s := bundles[s] - {t}];
      edges := edges - {e};
      assert e in outgoing[s];
      r := Err(NullPointer);
    }

    /**
     * removeVertex: VertexSet.remove. The vertex leaves the vertex set and
     * removeFromOthers unhooks it; a vertex whose edges reach two or more
     * distinct targets fails there with one bundle gone and its index
     * entries still in place.
     */
    method RemoveVertex(v: V) returns (r: Result<bool>)
      requires Valid()
      modifies this
      ensures r.Ok? <==> !(v in old(vertices) && |Targets(old(edges), v)| >= 2)
      ensures r.Ok? ==> Valid() && (r.value <==> v in old(vertices))
      ensures r.Ok? ==> vertices == old(vertices) - {v} && edges == Avoiding(old(edges), v)
      ensures r.Err? ==> r.error == ConcurrentModification && !Valid()
      ensures r.Err? ==> vertices == old(vertices) - {v} && Torn(old(vertices), old(edges), v)
    {
      if v !in vertices {
        return Ok(false);
      }
      var o := Unhook(v);
      if o.Fail? {
        assert v in bundles;
        vertices := vertices - {v};
        return Err(ConcurrentModification);
      }
      r := Ok(true);
    }

    /**
     * The indices after removeFromOthers failed on `v` in a store whose
     * vertices were `vs` and edges `es`: the bundle for one target of `v` is
     * gone with its edges, and everything else is as before.
     */
    ghost predicate Torn(vs: set<V>, es: set<Edge<V>>, v: V)
      reads this
    {
      && Indexed(vs, outgoing, incoming, bundles, edges)
      && exists t | t in Targets(es, v) :: edges == es - Between(es, v, t)
    }

    /**
     * VertexSet.removeFromOthers. It walks the key set of the vertex's EdgeMap
     * and detaches each bundle from that same map, so the iteration fails on
     * the second key: a vertex with edges to two or more distinct targets
     * loses the first bundle only. Otherwise the vertex goes with every edge
     * touching it.
     */
    method Unhook(v: V) returns (o: Outcome)
      requires Valid() && v in vertices
      modifies this
      ensures o.Pass? <==> |Targets(old(edges), v)| < 2
      ensures o.Pass? ==> Valid() && vertices == old(vertices) - {v} && edges == Avoiding(old(edges), v)
      ensures o.Fail? ==> o.error == ConcurrentModification && Valid() && vertices == old(vertices)
      ensures o.Fail? ==> Torn(vertices, old(edges), v)
    {
      assert bundles[v].Keys == Targets(edges, v);
      if |bundles[v]| < 2 {
        Cascade(v);
        return Pass;
      }
      var t :| t in bundles[v];
      DropBundle(v, t);
      o := Fail(ConcurrentModification);
    }

    /** The bundle from `v` to `t` leaves the EdgeMap of `v`, and its edges leave every index. */
    method DropBundle(v: V, t: V)
      requires Valid() && v in vertices && t in bundles[v]
      modifies this
      ensures Valid() && vertices == old(vertices)
      ensures edges == old(edges) - Between(old(edges), v, t)
    {
      ghost var removed: set<Edge<V>> := {};
      while t in bundles[v]
        invariant Valid() && vertices == old(vertices)
        invariant removed <= Between(old(edges), v, t)
        invariant edges == old(edges) - removed
        decreases |edges|
      {
        removed := DropFromBundle(v, t, old(edges), removed);
      }
      BundleIndexed(vertices, outgoing, incoming, bundles, edges, v, t);
      DrainedBetween(old(edges), removed, v, t);
    }

    /** One step of that drop: some edge of the bundle goes and joins `removed`. */
    method DropFromBundle(v: V, t: V, ghost before: set<Edge<V>>, ghost removed: set<Edge<V>>)
      returns (ghost removed': set<Edge<V>>)
      requires Valid() && v in vertices && t in bundles[v]
      requires removed <= Between(before, v, t) && edges == before - removed
      modifies this
      ensures Valid() && vertices == old(vertices)
      ensures removed' <= Between(before, v, t) && edges == before - removed' && |edges| < |old(edges)|
    {
      BundleIndexed(vertices, outgoing, incoming, bundles, edges, v, t);
      var x :| x in bundles[v][t];
      Drop(x);
      removed' := removed + {x};
    }

    /**
     * The documented removeVertex: every edge leaving the vertex is removed,
     * then every edge entering it, and then its own entries.
     */
    method Cascade(v: V)
      requires Valid() && v in vertices
      modifies this
      ensures Valid()
      ensures vertices == old(vertices) - {v}
      ensures edges == Avoiding(old(edges), v)
    {
      EmptyOutgoing(v);
      EmptyIncoming(v);
      CascadeAvoids(old(edges), v);
      Forget(v);
    }

    /** VertexSet.removeFromOthers, last step: an isolated vertex loses its entries. */
    method Forget(v: V)
      requires Valid() && v in vertices && Out(edges, v) == {} && In(edges, v) == {}
      modifies this
      ensures Valid() && vertices == old(vertices) - {v} && edges == old(edges)
    {
      DropVertexKeepsIndexed(vertices, outgoing, incoming, bundles, edges, v);
      vertices, outgoing, incoming, bundles := vertices - {v}, outgoing - {v}, incoming - {v}, bundles - {v};
    }

    /** removeAllEdges: removeEdge for each element, true if any was stored. */
    method RemoveAllEdges(c: seq<Edge<V>>) returns (modified: bool)
      requires Valid()
      modifies this
      ensures Valid()
      ensures modified <==> exists j :: 0 <= j < |c| && c[j] in old(edges)
      ensures edges == old(edges) - set j | 0 <= j < |c| :: c[j]
      ensures vertices == old(vertices)
    {
      modified := false;
      var i := 0;
      while i < |c|
        invariant 0 <= i <= |c| && Valid()
        invariant modified <==> exists j :: 0 <= j < i && c[j] in old(edges)
        invariant edges == old(edges) - set j | 0 <= j < i :: c[j]
        invariant vertices == old(vertices)
      {
        var r := RemoveEdge(c[i]);
        modified := modified || r;
        i := i + 1;
      }
    }

    /**
     * removeAllVertices: removeVertex for each element, true if any was
     * present. It stops at the first listed vertex that still has edges to
     * two or more distinct targets when its turn comes.
     */
    method RemoveAllVertices(c: seq<V>) returns (r: Result<bool>)
      requires Valid()
      modifies this
      ensures r.Err? <==> exists i | 0 <= i < |c| :: Splits(old(vertices), old(edges), c, i)
      ensures r.Ok? ==> Valid() && (r.value <==> exists j | 0 <= j < |c| :: c[j] in old(vertices))
      ensures r.Ok? ==> vertices == old(vertices) - Prefix(c, |c|) && edges == Remaining(old(edges), Prefix(c, |c|))
      ensures r.Err? ==> r.error == ConcurrentModification && !Valid()
      ensures r.Err? ==> exists i | 0 <= i < |c| ::
        && Splits(old(vertices), old(edges), c, i)
        && (forall j | 0 <= j < i :: !Splits(old(vertices), old(edges), c, j))
        && vertices == old(vertices) - Prefix(c, i + 1)
        && Torn(old(vertices) - Prefix(c, i), Remaining(old(edges), Prefix(c, i)), c[i])
    {
      var modified := false;
      var i := 0;
      while i < |c|
        invariant 0 <= i <= |c| && Valid()
        invariant forall j | 0 <= j < i :: !Splits(old(vertices), old(edges), c, j)
        invariant modified <==> exists j | 0 <= j < i :: c[j] in old(vertices)
        invariant vertices == old(vertices) - Prefix(c, i)
        invariant edges == Remaining(old(edges), Prefix(c, i))
      {
        PrefixStep(c, i);
        RemainingStep(old(edges), Prefix(c, i), c[i]);
        var step := RemoveVertex(c[i]);
        if step.Err? {
          assert Splits(old(vertices), old(edges), c, i);
          return Err(ConcurrentModification);
        }
        modified := modified || step.value;
        i := i + 1;
      }
      r := Ok(modified);
    }

    /** clear on the global edge set: every edge goes, every vertex stays. */
    method ClearEdges()
      requires Valid()
      modifies this
      ensures Valid() && edges == {} && vertices == old(vertices)
    {
      var todo := edges;
      while todo != {}
        invariant Indexes(todo) && edges == old(edges) && vertices == old(vertices)
        decreases todo
      {
        var e :| e in todo;
        Unindex(todo, e);
        todo := todo - {e};
      }
      edges := {};
    }

    /**
     * clear on an outgoing view: every edge leaving its vertex goes. A
     * detached view is empty, so clearing it changes nothing.
     */
    method ClearOutgoing(view: VertexView<V>)
      requires Valid()
      modifies this
      ensures Valid() && vertices == old(vertices)
      ensures edges == if old(Attached(view)) then old(edges) - Out(old(edges), view.vertex) else old(edges)
      ensures !old(Attached(view)) ==> unchanged(this)
    {
      if Attached(view) {
        EmptyOutgoing(view.vertex);
      }
    }

    /** The edges leaving `v` go, one by one. */
    method EmptyOutgoing(v: V)
      requires Valid() && v in vertices
      modifies this
      ensures Valid() && vertices == old(vertices)
      ensures edges == old(edges) - Out(old(edges), v)
    {
      ghost var removed: set<Edge<V>> := {};
      while outgoing[v] != {}
        invariant Valid() && vertices == old(vertices)
        invariant removed <= Out(old(edges), v)
        invariant edges == old(edges) - removed
        decreases |edges|
      {
        removed := DropOutgoing(v, old(edges), removed);
      }
    }

    /** One step of that clear: some edge leaving `v` goes and joins `removed`. */
    method DropOutgoing(v: V, ghost before: set<Edge<V>>, ghost removed: set<Edge<V>>) returns (ghost removed': set<Edge<V>>)
      requires Valid() && v in vertices && outgoing[v] != {}
      requires removed <= Out(before, v) && edges == before - removed
      modifies this
      ensures Valid() && vertices == old(vertices)
      ensures removed' <= Out(before, v) && edges == before - removed' && |edges| < |old(edges)|
    {
      var x :| x in outgoing[v];
      assert x in Out(edges, v);
      Drop(x);
      removed' := removed + {x};
    }

    /**
     * clear on an incoming view: every edge entering its vertex goes. A
     * detached view is empty, so clearing it changes nothing.
     */
    method ClearIncoming(view: VertexView<V>)
      requires Valid()
      modifies this
      ensures Valid() && vertices == old(vertices)
      ensures edges == if old(Attached(view)) then old(edges) - In(old(edges), view.vertex) else old(edges)
      ensures !old(Attached(view)) ==> unchanged(this)
    {
      if Attached(view) {
        EmptyIncoming(view.vertex);
      }
    }

    /** The edges entering `v` go, one by one. */
    method EmptyIncoming(v: V)
      requires Valid() && v in vertices
      modifies this
      ensures Valid() && vertices == old(vertices)
      ensures edges == old(edges) - In(old(edges), v)
    {
      ghost var removed: set<Edge<V>> := {};
      while incoming[v] != {}
        invariant Valid() && vertices == old(vertices)
        invariant removed <= In(old(edges), v)
        invariant edges == old(edges) - removed
        decreases |edges|
      {
        removed := DropIncoming(v, old(edges), removed);
      }
    }

    /** One step of that clear: some edge entering `v` goes and joins `removed`. */
    method DropIncoming(v: V, ghost before: set<Edge<V>>, ghost removed: set<Edge<V>>) returns (ghost removed': set<Edge<V>>)
      requires Valid() && v in vertices && incoming[v] != {}
      requires removed <= In(before, v) && edges == before - removed
      modifies this
      ensures Valid() && vertices == old(vertices)
      ensures removed' <= In(before, v) && edges == before - removed' && |edges| < |old(edges)|
    {
      var x :| x in incoming[v];
      assert x in In(edges, v);
      Drop(x);
      removed' := removed + {x};
    }

    /**
     * clear on a bundle view, as written: it detaches the bundle before
     * removing anything, so the first removal looks up the null source and
     * fails, after one edge of the bundle has left the global set. On a
     * detached bundle the detach itself looks up the null source and fails
     * with nothing changed.
     */
    method ClearBundle(view: BundleView<V>) returns (r: Outcome)
      requires Valid()
      modifies this
      ensures r == Fail(NullPointer)
      ensures !old(BundleAttached(view)) ==> unchanged(this)
      ensures old(BundleAttached(view)) ==> var s, t := view.source, view.target;
        && !Valid()
        && bundles == old(bundles)[s := old(bundles)[s] - {t}]
        && (exists x :: x in old(bundles)[s][t] && edges == old(edges) - {x})
        && outgoing == old(outgoing) && incoming == old(incoming) && vertices == old(vertices)
    {
      if !BundleAttached(view) {
        return Fail(NullPointer);
      }
      var s, t := view.source, view.target;
      BundleIndexed(vertices, outgoing, incoming, bundles, edges, s, t);
      var x :| x in bundles[s][t];
      bundles := bundles[s := bundles[s] - {t}];
      edges := edges - {x};
      assert x in outgoing[s];
      r := Fail(NullPointer);
    }

    /**
     * clear: SetExtension.clear on the vertex set, which unhooks every vertex
     * in the set's own iteration order `order` and only then empties the set.
     * It fails at the first vertex that still has edges to two or more
     * distinct targets, with the vertex set untouched.
     */
    method Clear(order: seq<V>) returns (r: Outcome)
      requires Valid() && Enumerates(order, vertices)
      modifies this
      ensures r.Fail? <==> exists i | 0 <= i < |order| :: Splits(old(vertices), old(edges), order, i)
      ensures r.Pass? ==> Valid() && vertices == {} && edges == {}
      ensures r.Pass? ==> SizeOfVertices() == 0 && SizeOfEdges() == 0
      ensures r.Fail? ==> r.error == ConcurrentModification && vertices == old(vertices)
      ensures r.Fail? ==> exists i | 0 <= i < |order| ::
        && Splits(old(vertices), old(edges), order, i)
        && (forall j | 0 <= j < i :: !Splits(old(vertices), old(edges), order, j))
        && Torn(old(vertices) - Prefix(order, i), Remaining(old(edges), Prefix(order, i)), order[i])
    {
      var all := vertices;
      var i := 0;
      while i < |order|
        invariant 0 <= i <= |order| && Valid() && all == old(vertices)
        invariant forall j | 0 <= j < i :: !Splits(old(vertices), old(edges), order, j)
        invariant vertices == old(vertices) - Prefix(order, i)
        invariant edges == Remaining(old(edges), Prefix(order, i))
      {
        PrefixStep(order, i);
        RemainingStep(old(edges), Prefix(order, i), order[i]);
        assert order[i] !in Prefix(order, i);
        var step := Unhook(order[i]);
        if step.Fail? {
          assert Splits(old(vertices), old(edges), order, i);
          // the vertex set itself is emptied only after the loop
          vertices := all;
          return Fail(ConcurrentModification);
        }
        i := i + 1;
      }
      assert Prefix(order, |order|) == old(vertices);
      NoVerticesNoEdges(vertices, outgoing, incoming, bundles, edges);
      r := Pass;
    }

    /** containsEdge(e): false for null, else membership in the global set. */
    function ContainsEdge(e: Option<Edge<V>>): (r: bool)
      reads this
      requires Valid()
      ensures r <==> e.Some? && e.value in edges
      ensures r ==> e.value in outgoing[e.value.source] && e.value in incoming[e.value.target]
    {
      e.Some? && e.value in edges
    }

    /** containsEdge(v1, v2): whether a bundle from v1 to v2 is attached. */
    function ContainsEdgeBetween(v1: V, v2: V): (r: bool)
      reads this
      requires Valid()
      ensures r <==> Between(edges, v1, v2) != {}
    {
      BundleIndexed(vertices, outgoing, incoming, bundles, edges, v1, v2);
      v1 in bundles && v2 in bundles[v1]
    }

    /** containsVertex: a key of the `graph` map. */
    function ContainsVertex(v: V): (r: bool)
      reads this
      requires Valid()
      ensures r <==> v in vertices
    {
      v in bundles
    }

    /** The view getEdgesFromSource and getEdgesToTarget hand out for `v`: null for an unknown vertex. */
    function ViewOf(v: V): (r: Option<VertexView<V>>)
      reads this
      requires Valid()
      ensures r.Some? <==> v in vertices
      ensures r.Some? ==> r.value.vertex == v && Attached(r.value) && r.value.stamp < made
    {
      if v in vertices then Some(VertexView(v, stamps[v])) else None
    }

    /** The bundle view getEdges(s, t) hands out: null when no edge runs from `s` to `t`. */
    function BundleOf(s: V, t: V): (r: Option<BundleView<V>>)
      reads this
      requires Valid()
      ensures r.Some? <==> Between(edges, s, t) != {}
      ensures r.Some? ==> r.value.source == s && r.value.target == t && BundleAttached(r.value) && r.value.stamp < made
    {
      BundleIndexed(vertices, outgoing, incoming, bundles, edges, s, t);
      if s in bundles && t in bundles[s] then Some(BundleView(s, t, bundleStamps[(s, t)])) else None
    }

    /** getEdges(v1, v2): null for an unknown source or a detached bundle. */
    function GetEdges(v1: V, v2: V): (r: Option<set<Edge<V>>>)
      reads this
      requires Valid()
      ensures v1 !in vertices ==> r.None?
      ensures r.Some? <==> Between(edges, v1, v2) != {}
      ensures r.Some? ==> r.value == Between(edges, v1, v2)
    {
      BundleIndexed(vertices, outgoing, incoming, bundles, edges, v1, v2);
      if v1 !in bundles then None
      else if v2 in bundles[v1] then Some(bundles[v1][v2])
      else None
    }

    /** getEdgesFromSource: null for an unknown vertex. */
    function GetEdgesFromSource(v: V): (r: Option<set<Edge<V>>>)
      reads this
      requires Valid()
      ensures r.Some? <==> v in vertices
      ensures r.Some? ==> r.value == Out(edges, v)
    {
      if v in bundles then Some(outgoing[v]) else None
    }

    /** getEdgesToTarget: null for an unknown vertex. */
    function GetEdgesToTarget(v: V): (r: Option<set<Edge<V>>>)
      reads this
      requires Valid()
      ensures r.Some? <==> v in vertices
      ensures r.Some? ==> r.value == In(edges, v)
    {
      if v in incoming then Some(incoming[v]) else None
    }

    /** getInDegree: -1 for an unknown vertex. */
    function GetInDegree(v: V): (d: int)
      reads this
      requires Valid()
      ensures v !in vertices ==> d == -1
      ensures v in vertices ==> d == |In(edges, v)|
    {
      if v in incoming then |incoming[v]| else -1
    }

    /** getOutDegree: -1 for an unknown vertex. */
    function GetOutDegree(v: V): (d: int)
      reads this
      requires Valid()
      ensures v !in vertices ==> d == -1
      ensures v in vertices ==> d == |Out(edges, v)|
    {
      if v in bundles then |outgoing[v]| else -1
    }

    function SizeOfEdges(): (n: nat)
      reads this
      requires Valid()
      ensures n == |edges|
    {
      |edges|
    }

    /** sizeOfVertices: the number of keys of the `graph` map. */
    function SizeOfVertices(): (n: nat)
      reads this
      requires Valid()
      ensures n == |vertices|
    {
      assert bundles.Keys == vertices;
      |bundles|
    }
  }
}
