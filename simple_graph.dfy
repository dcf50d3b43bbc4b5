/**
 * SimpleGraph, the leaner graph store: the same edge indices as the directed
 * store, but its views override add and remove directly and its vertex set
 * keeps nothing of its own; the vertices are the keys of the `graph` map.
 */
module SimpleGraphs {
  import opened Wrappers
  import opened Graphs
  import opened EdgeIndices

  /**
   * SetExtension.iterator, as written: it hands out the iterator of an
   * unmodifiable wrapper around the set itself, and the wrapper asks the set
   * for its iterator again. Each round takes one of the `stack` frames left,
   * so every walk over one of the store's own sets ends in StackOverflowError
   * before it sees an element: clear on the store and on every view, and
   * removeAll handed one of those sets.
   */
  function Iterate(stack: nat): (r: Outcome)
    ensures r == Fail(StackOverflow)
  {
    if stack == 0 then Fail(StackOverflow) else Iterate(stack - 1)
  }

  /** A detached bundle object holds only edges between its own endpoints, which are known vertices. */
  ghost predicate ShelfMatches<V>(vs: set<V>, shelf: map<BundleView<V>, set<Edge<V>>>) {
    && (forall h | h in shelf :: h.source in vs && h.target in vs)
    && (forall h, x | h in shelf && x in shelf[h] :: x.source == h.source && x.target == h.target)
  }

  /** Taking out an edge that touches `v` leaves the edges avoiding `v` as they were. */
  lemma AvoidingWithout<V>(es: set<Edge<V>>, x: Edge<V>, v: V)
    requires x.source == v || x.target == v
    ensures Avoiding(es - {x}, v) == Avoiding(es, v)
  {
  }

  /** With no edge leaving or entering `v`, every edge avoids it. */
  lemma IsolatedAvoiding<V>(es: set<Edge<V>>, v: V)
    requires Out(es, v) == {} && In(es, v) == {}
    ensures Avoiding(es, v) == es
  {
    forall e | e in es ensures e.source != v && e.target != v {
      assert e !in Out(es, v) && e !in In(es, v);
    }
  }

  class SimpleGraph<V(==)> {
    /** The global EdgeSetAll. */
    var edges: set<Edge<V>>
    /** Each vertex's EdgeSetOutgoing (the `edges` field of its EdgeMap). */
    var outgoing: map<V, set<Edge<V>>>
    /** Each vertex's EdgeSetIncoming. */
    var incoming: map<V, set<Edge<V>>>
    /** The `graph` map: for each source, its EdgeMap from target to bundle. */
    var bundles: map<V, map<V, set<Edge<V>>>>
    /** The HashSet storage behind the VertexSet view, which its `add` never fills. */
    var vertexSet: set<V>
    /** The key set of `graph`, kept beside it for the proofs. */
    ghost var keys: set<V>
    /**
     * Stamps stand for the identity of the bundle objects getEdges hands out:
     * `made` is the next unused stamp and `bundleStamps` holds the stamp of
     * the bundle attached for each pair. A bundle object stays with whoever
     * holds it after the store detaches it; `shelf` keeps what each detached
     * one holds, which its own add and remove still change.
     */
    var made: nat
    var bundleStamps: map<(V, V), nat>
    var shelf: map<BundleView<V>, set<Edge<V>>>

    ghost predicate Valid()
      reads this
    {
      && Indexed(keys, outgoing, incoming, bundles, edges) && keys == bundles.Keys && vertexSet == {}
      && Stamped()
    }

    /**
     * Every bundle with an edge has a stamp, and no stamp at or above `made`
     * has been handed out, so a bundle made anew never takes the handle of a
     * detached one.
     */
    ghost predicate Stamped()
      reads this
    {
      && (forall e | e in edges :: (e.source, e.target) in bundleStamps && bundleStamps[(e.source, e.target)] < made)
      && ShelfMatches(keys, shelf)
      && (forall h | h in shelf :: h.stamp < made)
    }

    /** The view is the bundle attached for its pair. */
    predicate Attached(h: BundleView<V>)
      reads this
    {
      && h.source in bundles && h.target in bundles[h.source]
      && (h.source, h.target) in bundleStamps && bundleStamps[(h.source, h.target)] == h.stamp
    }

    /** A bundle view the store handed out: attached, or detached and kept by its holder. */
    predicate Handed(h: BundleView<V>)
      reads this
    {
      Attached(h) || h in shelf
    }

    /** What the bundle object behind a handed-out view holds. */
    function Contents(h: BundleView<V>): set<Edge<V>>
      reads this
      requires Handed(h)
    {
      if Attached(h) then bundles[h.source][h.target] else shelf[h]
    }

    /** The graph the store holds: the keys of `graph` and the global edge set. */
    function Value(): Graph<V>
      reads this
    {
      Graph(bundles.Keys, edges)
    }

    /**
     * The shelf once the stored edge `e` has left its bundle: a bundle left
     * empty is detached and joins the shelf holding `kept`.
     */
    ghost function ShelfAfter(e: Edge<V>, kept: set<Edge<V>>): map<BundleView<V>, set<Edge<V>>>
      reads this
    {
      var s, t := e.source, e.target;
      if s in bundles && t in bundles[s] && bundles[s][t] == {e} && (s, t) in bundleStamps
      then shelf[BundleView(s, t, bundleStamps[(s, t)]) := kept]
      else shelf
    }

    constructor ()
      ensures Valid() && Value() == Graph({}, {}) && shelf == map[]
    {
      edges, vertexSet, keys := {}, {}, {};
      outgoing, incoming, bundles := map[], map[], map[];
      made, bundleStamps, shelf := 0, map[], map[];
    }

    /** VertexSet.add: a new vertex gets an EdgeMap and an incoming set. */
    method Admit(v: V)
      requires Valid()
      modifies this
      ensures Valid() && bundles == (if v in old(bundles) then old(bundles) else old(bundles)[v := map[]]) && edges == old(edges)
      ensures keys == old(keys) + {v}
      ensures shelf == old(shelf) && bundleStamps == old(bundleStamps) && made == old(made)
      ensures v in old(bundles) ==> unchanged(this)
    {
      if v !in bundles {
        RegisterKeepsIndexed(keys, outgoing, incoming, bundles, edges, v);
        SetIndices(edges, outgoing[v := {}], incoming[v := {}], bundles[v := map[]]);
        SetKeys(keys + {v});
      }
    }

    /**
     * The common tail of every add: endpoints registered, the bundle created
     * if absent, and the edge put into the bundle, the outgoing set and the
     * incoming set after it has entered the global set.
     */
    method Insert(e: Edge<V>)
      requires Valid() && e !in edges
      modifies this
      ensures Valid()
      ensures edges == old(edges) + {e} && keys == old(keys) + {e.source} + {e.target}
      ensures e.source in old(bundles) && e.target in old(bundles) ==> keys == old(keys)
      ensures e.source in old(bundles) && e.target in old(bundles)[e.source] ==>
        && bundleStamps == old(bundleStamps) && made == old(made)
        && bundles[e.source][e.target] == old(bundles)[e.source][e.target] + {e}
      ensures e.target in bundles[e.source] && e in bundles[e.source][e.target]
      ensures shelf == old(shelf)
    {
      Admit(e.source);
      Admit(e.target);
      Link(e);
    }

    /** The bundle of (e.source, e.target), made and stamped if absent, takes the edge. */
    method Link(e: Edge<V>)
      requires Valid() && e !in edges && e.source in bundles && e.target in bundles
      modifies this
      ensures Valid() && edges == old(edges) + {e} && bundles.Keys == old(bundles.Keys)
      ensures e.target in bundles[e.source] && e in bundles[e.source][e.target]
      ensures shelf == old(shelf)
      ensures e.target in old(bundles)[e.source] ==> bundleStamps == old(bundleStamps) && made == old(made)
      ensures bundles == old(bundles)[e.source := BundleWith(old(bundles), e)] && keys == old(keys)
    {
      StampBundle(e.source, e.target);
      Store(e);
    }

    /** A new EdgeSetSpecific for (s, t) takes the next stamp; an attached one keeps its own. */
    method StampBundle(s: V, t: V)
      requires Valid() && s in bundles
      modifies this
      ensures Valid() && (s, t) in bundleStamps && bundleStamps[(s, t)] < made
      ensures t in old(bundles)[s] ==> unchanged(this)
      ensures edges == old(edges) && outgoing == old(outgoing) && incoming == old(incoming)
      ensures bundles == old(bundles) && shelf == old(shelf) && vertexSet == old(vertexSet) && keys == old(keys)
    {
      if t !in bundles[s] {
        bundleStamps, made := bundleStamps[(s, t) := made], made + 1;
      } else {
        AttachedStamped(s, t);
      }
    }

    /** An attached bundle holds an edge, so it has a stamp below `made`. */
    lemma AttachedStamped(s: V, t: V)
      requires Valid() && s in bundles && t in bundles[s]
      ensures (s, t) in bundleStamps && bundleStamps[(s, t)] < made
    {
      BundleIndexed(keys, outgoing, incoming, bundles, edges, s, t);
      var x :| x in Between(edges, s, t);
      assert x in edges;
    }

    /** The edge enters the global set, its (stamped) bundle and its endpoints' sets. */
    method Store(e: Edge<V>)
      requires Valid() && e !in edges && e.source in bundles && e.target in bundles
      requires (e.source, e.target) in bundleStamps && bundleStamps[(e.source, e.target)] < made
      modifies this
      ensures Valid() && edges == old(edges) + {e} && bundles.Keys == old(bundles.Keys)
      ensures e.target in bundles[e.source] && e in bundles[e.source][e.target]
      ensures bundles == old(bundles)[e.source := BundleWith(old(bundles), e)]
      ensures shelf == old(shelf) && bundleStamps == old(bundleStamps) && made == old(made) && keys == old(keys)
    {
      var s, t := e.source, e.target;
      InsertKeepsIndexed(keys, outgoing, incoming, bundles, edges, e);
      SetIndices(edges + {e}, outgoing[s := outgoing[s] + {e}], incoming[t := incoming[t] + {e}], bundles[s := BundleWith(bundles, e)]);
    }

    /** The four edge indices take the given values; nothing else changes. */
    method SetIndices(es: set<Edge<V>>, out: map<V, set<Edge<V>>>, inc: map<V, set<Edge<V>>>, bun: map<V, map<V, set<Edge<V>>>>)
      modifies this
      ensures edges == es && outgoing == out && incoming == inc && bundles == bun
      ensures vertexSet == old(vertexSet) && keys == old(keys)
      ensures made == old(made) && bundleStamps == old(bundleStamps) && shelf == old(shelf)
    {
      edges, outgoing, incoming, bundles := es, out, inc, bun;
    }

    /** The key set kept for the proofs takes the given value; nothing else changes. */
    method SetKeys(ghost vs: set<V>)
      modifies this
      ensures keys == vs
      ensures edges == old(edges) && outgoing == old(outgoing) && incoming == old(incoming) && bundles == old(bundles)
      ensures vertexSet == old(vertexSet) && made == old(made) && bundleStamps == old(bundleStamps) && shelf == old(shelf)
    {
      keys := vs;
    }

    /** The bundle object attached for (s, t) joins the shelf holding `kept`; its detaching is up to the caller. */
    method Shelve(s: V, t: V, kept: set<Edge<V>>)
      requires Stamped() && s in keys && t in keys
      requires (s, t) in bundleStamps && bundleStamps[(s, t)] < made
      requires forall x | x in kept :: x.source == s && x.target == t
      modifies this
      ensures Stamped()
      ensures shelf == old(shelf)[BundleView(s, t, old(bundleStamps)[(s, t)]) := kept]
      ensures edges == old(edges) && outgoing == old(outgoing) && incoming == old(incoming) && bundles == old(bundles)
      ensures bundleStamps == old(bundleStamps) && made == old(made) && vertexSet == old(vertexSet) && keys == old(keys)
    {
      shelf := shelf[BundleView(s, t, bundleStamps[(s, t)]) := kept];
    }

    /** The shelf takes the given value; nothing else changes. */
    method SetShelf(m: map<BundleView<V>, set<Edge<V>>>)
      modifies this
      ensures shelf == m
      ensures edges == old(edges) && outgoing == old(outgoing) && incoming == old(incoming) && bundles == old(bundles)
      ensures bundleStamps == old(bundleStamps) && made == old(made) && vertexSet == old(vertexSet) && keys == old(keys)
    {
      shelf := m;
    }

    /**
     * The common tail of every remove: the edge leaves the global set, the
     * outgoing and incoming sets, and its bundle, which is detached from the
     * source's map when the edge was its only one. The bundle's own remove
     * empties the object first; the other views leave the edge in it.
     */
    method Unlink(e: Edge<V>, viaBundle: bool)
      requires Valid() && e in edges
      modifies this
      ensures Valid() && edges == old(edges) - {e} && bundles.Keys == old(bundles.Keys)
      ensures shelf == old(ShelfAfter(e, if viaBundle then {} else {e}))
      ensures old(e.source in bundles && e.target in bundles[e.source]) && bundles == BundlesWithout(old(bundles), e)
      ensures bundleStamps == old(bundleStamps) && made == old(made) && keys == old(keys)
    {
      var s, t := e.source, e.target;
      DeleteKeepsIndexed(keys, outgoing, incoming, bundles, edges, e);
      if bundles[s][t] == {e} {
        Shelve(s, t, if viaBundle then {} else {e});
      }
      SetIndices(edges - {e}, outgoing[s := outgoing[s] - {e}], incoming[t := incoming[t] - {e}], BundlesWithout(bundles, e));
    }

    /** addVertex: true whether or not the vertex was there. */
    method AddVertex(v: V) returns (added: bool)
      requires Valid()
      modifies this
      ensures Valid() && added
      ensures Value() == Graph(old(bundles.Keys) + {v}, old(edges)) && shelf == old(shelf)
      ensures v in old(bundles) ==> unchanged(this)
    {
      Admit(v);
      added := true;
    }

    /** addEdge: EdgeSetAll.add. */
    method AddEdge(e: Edge<V>) returns (added: bool)
      requires Valid()
      modifies this
      ensures Valid()
      ensures added <==> e !in old(edges)
      ensures !added ==> unchanged(this)
      ensures added ==> Value() == Graph(old(bundles.Keys) + {e.source, e.target}, old(edges) + {e})
      ensures shelf == old(shelf)
    {
      if e in edges {
        return false;
      }
      Insert(e);
      added := true;
    }

    /** add on the incoming view of `v`: only edges entering `v`. */
    method AddThroughIncoming(v: V, e: Edge<V>) returns (added: bool)
      requires Valid() && v in bundles
      modifies this
      ensures Valid()
      ensures added <==> e.target == v && e !in old(edges)
      ensures !added ==> unchanged(this)
      ensures added ==> Value() == Graph(old(bundles.Keys) + {e.source}, old(edges) + {e})
      ensures shelf == old(shelf)
    {
      if e.target != v || e in edges {
        return false;
      }
      Insert(e);
      added := true;
    }

    /** add on the outgoing view of `v`: only edges leaving `v`. */
    method AddThroughOutgoing(v: V, e: Edge<V>) returns (added: bool)
      requires Valid() && v in bundles
      modifies this
      ensures Valid()
      ensures added <==> e.source == v && e !in old(edges)
      ensures !added ==> unchanged(this)
      ensures added ==> Value() == Graph(old(bundles.Keys) + {e.target}, old(edges) + {e})
      ensures shelf == old(shelf)
    {
      if e.source != v || e in edges {
        return false;
      }
      Insert(e);
      added := true;
    }

    /**
     * add on a bundle view, as written. An attached bundle takes exactly the
     * new edges between its endpoints. A detached one still checks its own
     * endpoints and puts the edge into the global set, but then into itself
     * instead of the bundle in the map: if it already holds the edge the call
     * returns false there, otherwise the edge also enters the outgoing and
     * incoming sets and the call returns true. Either way the bundle index
     * misses a stored edge.
     */
    method AddThroughBundle(h: BundleView<V>, e: Edge<V>) returns (added: bool)
      requires Valid() && Handed(h)
      modifies this
      ensures Handed(h)
      ensures added <==> e.source == h.source && e.target == h.target && e !in old(edges) && (old(Attached(h)) || e !in old(shelf)[h])
      ensures e.source != h.source || e.target != h.target || e in old(edges) ==> unchanged(this)
      ensures e.source == h.source && e.target == h.target && e !in old(edges) ==>
        && edges == old(edges) + {e} && bundles.Keys == old(bundles.Keys)
        && Contents(h) == old(Contents(h)) + {e}
      ensures old(Attached(h)) ==> Valid() && Attached(h) && shelf == old(shelf)
      ensures !old(Attached(h)) && e.source == h.source && e.target == h.target && e !in old(edges) ==>
        && !Valid()
        && bundles == old(bundles) && shelf == old(shelf)[h := old(shelf)[h] + {e}]
        && outgoing == (if added then old(outgoing)[e.source := old(outgoing)[e.source] + {e}] else old(outgoing))
        && incoming == (if added then old(incoming)[e.target := old(incoming)[e.target] + {e}] else old(incoming))
    {
      if e.source != h.source || e.target != h.target || e in edges {
        return false;
      }
      if Attached(h) {
        Insert(e);
        return true;
      }
      // both endpoints are known already, so addVertex changes nothing
      BundleIndexed(keys, outgoing, incoming, bundles, edges, e.source, e.target);
      added := AddThroughDetached(h, e);
      IndexedBundlesEdge(keys, outgoing, incoming, bundles, edges, e);
    }

    /** The detached half of AddThroughBundle, for a new edge between the bundle's endpoints. */
    method AddThroughDetached(h: BundleView<V>, e: Edge<V>) returns (added: bool)
      requires h in shelf && e.source == h.source && e.target == h.target && e !in edges
      requires e.source in outgoing && e.target in incoming
      modifies this
      ensures added <==> e !in old(shelf)[h]
      ensures edges == old(edges) + {e} && bundles == old(bundles) && shelf == old(shelf)[h := old(shelf)[h] + {e}]
      ensures outgoing == (if added then old(outgoing)[e.source := old(outgoing)[e.source] + {e}] else old(outgoing))
      ensures incoming == (if added then old(incoming)[e.target := old(incoming)[e.target] + {e}] else old(incoming))
      ensures keys == old(keys) && bundleStamps == old(bundleStamps) && made == old(made) && vertexSet == old(vertexSet)
    {
      var s, t := e.source, e.target;
      added := e !in shelf[h];
      SetShelf(shelf[h := shelf[h] + {e}]);
      if added {
        SetIndices(edges + {e}, outgoing[s := outgoing[s] + {e}], incoming[t := incoming[t] + {e}], bundles);
      } else {
        SetIndices(edges + {e}, outgoing, incoming, bundles);
      }
    }

    /** The evidently intended add on a bundle view: a detached bundle adds as the other views do. */
    method AddThroughBundleIntended(h: BundleView<V>, e: Edge<V>) returns (added: bool)
      requires Valid() && Handed(h)
      modifies this
      ensures Valid()
      ensures added <==> e.source == h.source && e.target == h.target && e !in old(edges)
      ensures !added ==> unchanged(this)
      ensures added ==> Value() == Graph(old(bundles.Keys), old(edges) + {e})
      ensures added ==> e in bundles[e.source][e.target]
    {
      if e.source != h.source || e.target != h.target || e in edges {
        return false;
      }
      Insert(e);
      added := true;
    }

    /** removeEdge: EdgeSetAll.remove; an emptied bundle is detached still holding the edge. */
    method RemoveEdge(e: Edge<V>) returns (removed: bool)
      requires Valid()
      modifies this
      ensures Valid()
      ensures removed <==> e in old(edges)
      ensures Value() == Graph(old(bundles.Keys), old(edges) - {e})
      ensures !removed ==> unchanged(this)
      ensures removed ==> shelf == old(ShelfAfter(e, {e}))
      ensures old(shelf).Keys <= shelf.Keys
    {
      if e !in edges {
        removed := false;
      } else {
        Unlink(e, false);
        removed := true;
      }
    }

    /** remove on the incoming view of `v`. */
    method RemoveThroughIncoming(v: V, e: Edge<V>) returns (removed: bool)
      requires Valid() && v in bundles
      modifies this
      ensures Valid()
      ensures removed <==> e in old(edges) && e.target == v
      ensures Value() == Graph(old(bundles.Keys), if removed then old(edges) - {e} else old(edges))
      ensures !removed ==> unchanged(this)
      ensures removed ==> shelf == old(ShelfAfter(e, {e}))
    {
      if e !in incoming[v] {
        return false;
      }
      Unlink(e, false);
      removed := true;
    }

    /** remove on the outgoing view of `v`. */
    method RemoveThroughOutgoing(v: V, e: Edge<V>) returns (removed: bool)
      requires Valid() && v in bundles
      modifies this
      ensures Valid()
      ensures removed <==> e in old(edges) && e.source == v
      ensures Value() == Graph(old(bundles.Keys), if removed then old(edges) - {e} else old(edges))
      ensures !removed ==> unchanged(this)
      ensures removed ==> shelf == old(ShelfAfter(e, {e}))
    {
      if e !in outgoing[v] {
        return false;
      }
      Unlink(e, false);
      removed := true;
    }

    /**
     * remove on a bundle view, as written: the bundle object drops the edge
     * first. An attached bundle left empty is detached. A detached bundle
     * left empty removes whatever bundle is attached for its pair now, and
     * the edge then leaves the other sets only if it is stored.
     */
    method RemoveThroughBundle(h: BundleView<V>, e: Edge<V>) returns (removed: bool)
      requires Valid() && Handed(h)
      modifies this
      ensures Handed(h) && Contents(h) == old(Contents(h)) - {e}
      ensures removed <==> e in old(Contents(h)) && e in old(edges)
      ensures e !in old(Contents(h)) ==> unchanged(this)
      ensures edges == (if removed then old(edges) - {e} else old(edges)) && bundles.Keys == old(bundles.Keys)
      ensures old(Attached(h)) ==> Valid()
      ensures old(Attached(h)) && removed ==> shelf == old(ShelfAfter(e, {}))
      ensures !old(Attached(h)) && e in old(shelf)[h] ==> var s, t := h.source, h.target;
        && outgoing == (if removed then old(outgoing)[s := old(outgoing)[s] - {e}] else old(outgoing))
        && incoming == (if removed then old(incoming)[t := old(incoming)[t] - {e}] else old(incoming))
        && if old(shelf)[h] == {e} && t in old(bundles)[s] then
             && bundles == old(bundles)[s := old(bundles)[s] - {t}]
             && shelf == old(shelf)[h := {}][BundleView(s, t, old(bundleStamps)[(s, t)]) := old(bundles)[s][t]]
           else bundles == old(bundles) && shelf == old(shelf)[h := old(shelf)[h] - {e}]
    {
      if Attached(h) {
        if e !in bundles[h.source][h.target] {
          return false;
        }
        BundleIndexed(keys, outgoing, incoming, bundles, edges, h.source, h.target);
        Unlink(e, true);
        if old(bundles)[h.source][h.target] == {e} {
          assert shelf == old(shelf)[h := {}];
        } else {
          assert Attached(h);
        }
        return true;
      }
      if h.target in bundles[h.source] {
        AttachedStamped(h.source, h.target);
      }
      removed := RemoveThroughDetached(h, e);
    }

    /** The detached half of RemoveThroughBundle; the bundle attached for the pair, if any, has a stamp. */
    method RemoveThroughDetached(h: BundleView<V>, e: Edge<V>) returns (removed: bool)
      requires h in shelf && !Attached(h) && h.source in bundles && h.source in outgoing && h.target in incoming
      requires h.target in bundles[h.source] ==> (h.source, h.target) in bundleStamps
      modifies this
      ensures h in shelf && !Attached(h) && shelf[h] == old(shelf)[h] - {e}
      ensures removed <==> e in old(shelf)[h] && e in old(edges)
      ensures e !in old(shelf)[h] ==> unchanged(this)
      ensures edges == (if removed then old(edges) - {e} else old(edges)) && bundles.Keys == old(bundles.Keys)
      ensures e in old(shelf)[h] ==> var s, t := h.source, h.target;
        && outgoing == (if removed then old(outgoing)[s := old(outgoing)[s] - {e}] else old(outgoing))
        && incoming == (if removed then old(incoming)[t := old(incoming)[t] - {e}] else old(incoming))
        && if old(shelf)[h] == {e} && t in old(bundles)[s] then
             && bundles == old(bundles)[s := old(bundles)[s] - {t}]
             && shelf == old(shelf)[h := {}][BundleView(s, t, old(bundleStamps)[(s, t)]) := old(bundles)[s][t]]
           else bundles == old(bundles) && shelf == old(shelf)[h := old(shelf)[h] - {e}]
    {
      if e !in shelf[h] {
        return false;
      }
      var s, t := h.source, h.target;
      var rest := shelf[h] - {e};
      var shelved, attached := shelf[h := rest], bundles;
      if rest == {} && t in bundles[s] {
        // map.remove(target) takes out the bundle attached now
        assert BundleView(s, t, bundleStamps[(s, t)]) != h;
        shelved := shelved[BundleView(s, t, bundleStamps[(s, t)]) := bundles[s][t]];
        attached := bundles[s := bundles[s] - {t}];
      }
      removed := e in edges;
      SetShelf(shelved);
      if removed {
        SetIndices(edges - {e}, outgoing[s := outgoing[s] - {e}], incoming[t := incoming[t] - {e}], attached);
      } else {
        SetIndices(edges, outgoing, incoming, attached);
      }
    }

    /**
     * removeVertex, as written: the vertex's EdgeMap leaves `graph`, and the
     * removeAll that should then take out its outgoing edges walks that set
     * with its own iterator, which overflows the stack. An unknown vertex
     * gives false.
     */
    method RemoveVertex(v: V, stack: nat) returns (r: Result<bool>)
      modifies this
      ensures v !in old(bundles) ==> r == Ok(false) && unchanged(this)
      ensures v in old(bundles) ==> r == Err(StackOverflow) && bundles == old(bundles) - {v}
      ensures edges == old(edges) && outgoing == old(outgoing) && incoming == old(incoming)
      ensures shelf == old(shelf) && bundleStamps == old(bundleStamps) && made == old(made) && vertexSet == old(vertexSet)
    {
      if v !in bundles {
        return Ok(false);
      }
      bundles, keys := bundles - {v}, keys - {v};
      var walk := Iterate(stack);
      r := Err(walk.error);
    }

    /**
     * removeVertex as its contract in Graph describes it: the vertex and
     * every edge touching it are gone. Detached bundles of the vertex are
     * retired with it.
     */
    method RemoveVertexIntended(v: V) returns (removed: bool)
      requires Valid()
      modifies this
      ensures Valid()
      ensures removed <==> v in old(bundles)
      ensures Value() == Graph(old(bundles.Keys) - {v}, Avoiding(old(edges), v))
    {
      if v !in bundles {
        return false;
      }
      Isolate(v);
      assert Out(edges, v) == {} && In(edges, v) == {};
      DropVertexKeepsIndexed(keys, outgoing, incoming, bundles, edges, v);
      SetIndices(edges, outgoing - {v}, incoming - {v}, bundles - {v});
      SetKeys(keys - {v});
      SetShelf(map h | h in shelf && h.source != v && h.target != v :: shelf[h]);
      removed := true;
    }

    /** Every edge touching `v` is unlinked, one at a time, leaving `v` with no edges. */
    method Isolate(v: V)
      requires Valid() && v in bundles
      modifies this
      ensures Valid() && keys == old(keys) && bundles.Keys == old(bundles.Keys)
      ensures edges == Avoiding(old(edges), v)
    {
      while outgoing[v] + incoming[v] != {}
        invariant Valid() && keys == old(keys)
        invariant edges <= old(edges) && Avoiding(edges, v) == Avoiding(old(edges), v)
        decreases edges
      {
        var x :| x in outgoing[v] + incoming[v];
        assert x in edges && (x.source == v || x.target == v);
        AvoidingWithout(edges, x, v);
        Unlink(x, false);
      }
      IsolatedAvoiding(edges, v);
    }

    /**
     * removeAllEdges: removeEdge for each element of the caller's list, true
     * if any was stored.
     */
    method RemoveAllEdges(c: seq<Edge<V>>) returns (modified: bool)
      requires Valid()
      modifies this
      ensures Valid()
      ensures modified <==> exists j :: 0 <= j < |c| && c[j] in old(edges)
      ensures Value() == Graph(old(bundles.Keys), old(edges) - set j | 0 <= j < |c| :: c[j])
      ensures old(shelf).Keys <= shelf.Keys
    {
      modified := false;
      var i := 0;
      while i < |c|
        invariant 0 <= i <= |c| && Valid()
        invariant modified <==> exists j :: 0 <= j < i && c[j] in old(edges)
        invariant Value() == Graph(old(bundles.Keys), old(edges) - Prefix(c, i))
        invariant old(shelf).Keys <= shelf.Keys
      {
        var r := RemoveEdge(c[i]);
        modified := modified || r;
        PrefixStep(c, i);
        i := i + 1;
      }
    }

    /**
     * removeAllVertices: removeVertex for each element of the caller's list.
     * Unknown vertices change nothing; the first known one leaves the map and
     * the call ends in StackOverflowError. It never returns true.
     */
    method RemoveAllVertices(c: seq<V>, stack: nat) returns (r: Result<bool>)
      modifies this
      ensures r != Ok(true)
      ensures r.Ok? <==> forall j :: 0 <= j < |c| ==> c[j] !in old(bundles)
      ensures r.Ok? ==> unchanged(this)
      ensures r.Err? ==> (r == Err(StackOverflow) &&
        exists i :: 0 <= i < |c| && c[i] in old(bundles) && (forall j :: 0 <= j < i ==> c[j] !in old(bundles))
          && bundles == old(bundles) - {c[i]})
      ensures edges == old(edges) && outgoing == old(outgoing) && incoming == old(incoming) && shelf == old(shelf)
    {
      var i := 0;
      while i < |c|
        invariant 0 <= i <= |c| && unchanged(this)
        invariant forall j :: 0 <= j < i ==> c[j] !in old(bundles)
      {
        var removed := RemoveVertex(c[i], stack);
        if removed.Err? {
          return removed;
        }
        i := i + 1;
      }
      r := Ok(false);
    }

    /** clear: it walks the VertexSet with its own iterator and overflows the stack before removing anything. */
    method Clear(stack: nat) returns (r: Outcome)
      ensures r == Fail(StackOverflow)
    {
      r := Iterate(stack);
    }

    /** clear as Graph documents it: every vertex is removed, and no vertex and no edge remain. */
    method ClearIntended()
      requires Valid()
      modifies this
      ensures Valid() && Value() == Graph({}, {})
    {
      while bundles != map[]
        invariant Valid()
        decreases |bundles.Keys|
      {
        var v :| v in bundles;
        var removed := RemoveVertexIntended(v);
      }
      // no vertex is left, and every stored edge has its source among them
      assert forall x | x in edges :: x.source in Ends(edges);
    }

    /** getEdges(v1, v2) as a view: the bundle attached for the pair, null when no edge runs between them. */
    function BundleOf(v1: V, v2: V): (r: Option<BundleView<V>>)
      reads this
      requires Valid()
      ensures r.Some? <==> Between(edges, v1, v2) != {}
      ensures r.Some? ==> r.value.source == v1 && r.value.target == v2 && Attached(r.value)
      ensures r.Some? ==> Contents(r.value) == Between(edges, v1, v2) && r.value.stamp < made
    {
      BundleIndexed(keys, outgoing, incoming, bundles, edges, v1, v2);
      if v1 in bundles && v2 in bundles[v1] then Some(BundleView(v1, v2, bundleStamps[(v1, v2)])) else None
    }

    /** getAllVertices: the VertexSet, which stays empty however many vertices there are. */
    function GetAllVertices(): (r: set<V>)
      reads this
      requires Valid()
      ensures r == {}
      ensures r == Value().vertices <==> Value().vertices == {}
    {
      vertexSet
    }

    /** containsVertex: a key of the `graph` map. */
    function ContainsVertex(v: V): (r: bool)
      reads this
      requires Valid()
      ensures r <==> v in Value().vertices
    {
      v in bundles
    }

    /** containsEdge(e): false for null, else membership in the global set. */
    function ContainsEdge(e: Option<Edge<V>>): (r: bool)
      reads this
      requires Valid()
      ensures r <==> e.Some? && e.value in Value().edges
      ensures r ==> e.value.source in Value().vertices && e.value.target in Value().vertices
    {
      if e.Some? then
        (if e.value in edges then EdgeIndexed(keys, outgoing, incoming, bundles, edges, e.value); true else false)
      else false
    }

    /** containsEdge(v1, v2): whether a bundle from v1 to v2 is attached. */
    function ContainsEdgeBetween(v1: V, v2: V): (r: bool)
      reads this
      requires Valid()
      ensures r <==> Between(edges, v1, v2) != {}
    {
      BundleIndexed(keys, outgoing, incoming, bundles, edges, v1, v2);
      v1 in bundles && v2 in bundles[v1]
    }

    /** getEdges(v1, v2): null for an unknown source or a detached bundle. */
    function GetEdges(v1: V, v2: V): (r: Option<set<Edge<V>>>)
      reads this
      requires Valid()
      ensures r.Some? <==> Between(edges, v1, v2) != {}
      ensures r.Some? ==> r.value == Between(edges, v1, v2)
    {
      BundleIndexed(keys, outgoing, incoming, bundles, edges, v1, v2);
      if v1 !in bundles then None
      else if v2 in bundles[v1] then Some(bundles[v1][v2])
      else None
    }

    /** getEdgesFromSource: null for an unknown vertex. */
    function GetEdgesFromSource(v: V): (r: Option<set<Edge<V>>>)
      reads this
      requires Valid()
      ensures r.Some? <==> v in Value().vertices
      ensures r.Some? ==> r.value == Out(edges, v)
    {
      if v in bundles then Some(outgoing[v]) else None
    }

    /** getEdgesToTarget: the incoming map's entry, null when absent. */
    function GetEdgesToTarget(v: V): (r: Option<set<Edge<V>>>)
      reads this
      requires Valid()
      ensures r.Some? <==> v in Value().vertices
      ensures r.Some? ==> r.value == In(edges, v)
    {
      if v in incoming then Some(incoming[v]) else None
    }

    function SizeOfEdges(): (n: nat)
      reads this
      requires Valid()
      ensures n == |Value().edges|
    {
      |edges|
    }

    /** sizeOfVertices: the number of keys of the `graph` map. */
    function SizeOfVertices(): (n: nat)
      reads this
      requires Valid()
      ensures n == |Value().vertices|
    {
      |bundles|
    }
  }
}
