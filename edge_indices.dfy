/**
 * The edge indices shared by the graph stores, as values: each vertex's
 * outgoing and incoming sets and, for each source, the map from target to the
 * bundle of parallel edges. Each index is a function of the vertex and edge
 * sets; `Indexed` says the stored maps are those functions, and the lemmas say
 * which single updates keep that true.
 */
module EdgeIndices {
  import opened Graphs

  type Index<V> = map<V, set<Edge<V>>>
  type Bundles<V> = map<V, map<V, set<Edge<V>>>>

  /**
   * A bundle view as its caller holds it: the source and target it was made
   * for, and the stamp its store gave it when it was made. A store never
   * hands out a stamp twice, so a bundle made again for the same pair is a
   * different handle from the one made before.
   */
  datatype BundleView<V> = BundleView(source: V, target: V, stamp: nat)

  /** Every endpoint of an edge of `es`. */
  ghost function Ends<V>(es: set<Edge<V>>): set<V> {
    (set e | e in es :: e.source) + (set e | e in es :: e.target)
  }

  /** The targets of the edges of `es` leaving `s`. */
  ghost function Targets<V>(es: set<Edge<V>>, s: V): set<V> {
    set e | e in es && e.source == s :: e.target
  }

  ghost function OutIndex<V>(vs: set<V>, es: set<Edge<V>>): Index<V> {
    map v | v in vs :: Out(es, v)
  }

  ghost function InIndex<V>(vs: set<V>, es: set<Edge<V>>): Index<V> {
    map v | v in vs :: In(es, v)
  }

  /** The EdgeMap of `s`: one bundle per target `s` has an edge to. */
  ghost function BundleMap<V>(es: set<Edge<V>>, s: V): map<V, set<Edge<V>>> {
    map t | t in Targets(es, s) :: Between(es, s, t)
  }

  ghost function BundleIndex<V>(vs: set<V>, es: set<Edge<V>>): Bundles<V> {
    map s | s in vs :: BundleMap(es, s)
  }

  ghost predicate Indexed<V>(vs: set<V>, out: Index<V>, inc: Index<V>, bun: Bundles<V>, es: set<Edge<V>>) {
    && Ends(es) <= vs
    && out == OutIndex(vs, es)
    && inc == InIndex(vs, es)
    && bun == BundleIndex(vs, es)
  }

  /** A bundle is attached exactly while it holds an edge. */
  lemma TargetsBetween<V>(es: set<Edge<V>>, s: V, t: V)
    ensures t in Targets(es, s) <==> Between(es, s, t) != {}
  {
    if t in Targets(es, s) {
      var x :| x in es && x.source == s && x.target == t;
      assert x in Between(es, s, t);
    }
  }

  /** What the bundle index says about the pair (s, t). */
  lemma BundleIndexed<V>(vs: set<V>, out: Index<V>, inc: Index<V>, bun: Bundles<V>, es: set<Edge<V>>, s: V, t: V)
    requires Indexed(vs, out, inc, bun, es)
    ensures s in bun <==> s in vs
    ensures s in vs ==> (t in bun[s] <==> Between(es, s, t) != {})
    ensures s in vs && t in bun[s] ==> bun[s][t] == Between(es, s, t)
    ensures s !in vs ==> Between(es, s, t) == {}
  {
    TargetsBetween(es, s, t);
    assert forall x | x in es :: x.source in Ends(es);
  }

  /** What the indices say about one stored edge. */
  lemma EdgeIndexed<V>(vs: set<V>, out: Index<V>, inc: Index<V>, bun: Bundles<V>, es: set<Edge<V>>, e: Edge<V>)
    requires Indexed(vs, out, inc, bun, es) && e in es
    ensures e.source in vs && e.target in vs
    ensures e in out[e.source] && e in inc[e.target]
    ensures e.target in bun[e.source] && e in bun[e.source][e.target]
  {
    assert e.source in Ends(es) && e.target in Ends(es);
    assert e.target in Targets(es, e.source);
  }

  /** Every stored edge sits in its bundle, so an edge missing from the bundle index shows the indices are out of step. */
  lemma IndexedBundlesEdge<V>(vs: set<V>, out: Index<V>, inc: Index<V>, bun: Bundles<V>, es: set<Edge<V>>, e: Edge<V>)
    requires e in es
    ensures Indexed(vs, out, inc, bun, es) ==>
      e.source in bun && e.target in bun[e.source] && e in bun[e.source][e.target]
  {
    if Indexed(vs, out, inc, bun, es) {
      EdgeIndexed(vs, out, inc, bun, es, e);
    }
  }

  /** A new vertex gets empty entries. */
  lemma RegisterKeepsIndexed<V>(vs: set<V>, out: Index<V>, inc: Index<V>, bun: Bundles<V>, es: set<Edge<V>>, v: V)
    requires Indexed(vs, out, inc, bun, es) && v !in vs
    ensures Indexed(vs + {v}, out[v := {}], inc[v := {}], bun[v := map[]], es)
  {
    assert v !in Ends(es);
    assert Out(es, v) == {} && In(es, v) == {};
    assert Targets(es, v) == {};
    assert BundleMap(es, v) == map[];
  }

  /** The bundle (s, t) after adding `e` to it, created if absent. */
  function BundleWith<V>(bun: Bundles<V>, e: Edge<V>): map<V, set<Edge<V>>>
    requires e.source in bun
  {
    var old_ := if e.target in bun[e.source] then bun[e.source][e.target] else {};
    bun[e.source][e.target := old_ + {e}]
  }

  lemma InsertBundles<V>(vs: set<V>, es: set<Edge<V>>, e: Edge<V>)
    requires e !in es && e.source in vs
    ensures BundleIndex(vs, es + {e}) == BundleIndex(vs, es)[e.source := BundleWith(BundleIndex(vs, es), e)]
  {
    var es' := es + {e};
    var s, t := e.source, e.target;
    forall u | u in vs
      ensures BundleMap(es', u) == BundleIndex(vs, es)[s := BundleWith(BundleIndex(vs, es), e)][u]
    {
      if u == s {
        assert Targets(es', s) == Targets(es, s) + {t};
        forall x | x in Targets(es', s)
          ensures Between(es', s, x) == BundleWith(BundleIndex(vs, es), e)[x]
        {
          if x == t {
            TargetsBetween(es, s, t);
            assert Between(es', s, t) == Between(es, s, t) + {e};
          } else {
            assert Between(es', s, x) == Between(es, s, x);
          }
        }
      } else {
        assert Targets(es', u) == Targets(es, u);
        forall x | x in Targets(es', u)
          ensures Between(es', u, x) == Between(es, u, x)
        {
        }
      }
    }
  }

  /** Inserting a new edge between two known vertices into every index. */
  lemma InsertKeepsIndexed<V>(vs: set<V>, out: Index<V>, inc: Index<V>, bun: Bundles<V>, es: set<Edge<V>>, e: Edge<V>)
    requires Indexed(vs, out, inc, bun, es) && e !in es && e.source in vs && e.target in vs
    ensures Indexed(vs, out[e.source := out[e.source] + {e}], inc[e.target := inc[e.target] + {e}],
                    bun[e.source := BundleWith(bun, e)], es + {e})
  {
    var es' := es + {e};
    assert Ends(es') == Ends(es) + {e.source, e.target};
    InsertOut(vs, es, e);
    InsertIn(vs, es, e);
    InsertBundles(vs, es, e);
  }

  lemma InsertOut<V>(vs: set<V>, es: set<Edge<V>>, e: Edge<V>)
    requires e.source in vs
    ensures OutIndex(vs, es + {e}) == OutIndex(vs, es)[e.source := Out(es, e.source) + {e}]
  {
    forall v | v in vs
      ensures Out(es + {e}, v) == OutIndex(vs, es)[e.source := Out(es, e.source) + {e}][v]
    {
      assert Out(es + {e}, v) == Out(es, v) + (if e.source == v then {e} else {});
    }
  }

  lemma InsertIn<V>(vs: set<V>, es: set<Edge<V>>, e: Edge<V>)
    requires e.target in vs
    ensures InIndex(vs, es + {e}) == InIndex(vs, es)[e.target := In(es, e.target) + {e}]
  {
    forall v | v in vs
      ensures In(es + {e}, v) == InIndex(vs, es)[e.target := In(es, e.target) + {e}][v]
    {
      assert In(es + {e}, v) == In(es, v) + (if e.target == v then {e} else {});
    }
  }

  /** The bundles after removing `e`, detaching its bundle when it empties. */
  function BundlesWithout<V>(bun: Bundles<V>, e: Edge<V>): Bundles<V>
    requires e.source in bun && e.target in bun[e.source]
  {
    var rest := bun[e.source][e.target] - {e};
    if rest == {} then bun[e.source := bun[e.source] - {e.target}]
    else bun[e.source := bun[e.source][e.target := rest]]
  }

  lemma DeleteBundles<V>(vs: set<V>, es: set<Edge<V>>, e: Edge<V>)
    requires e in es && e.source in vs
    ensures e.target in BundleIndex(vs, es)[e.source]
    ensures BundleIndex(vs, es - {e}) == BundlesWithout(BundleIndex(vs, es), e)
  {
    var es' := es - {e};
    var s, t := e.source, e.target;
    assert t in Targets(es, s);
    var rest := Between(es, s, t) - {e};
    assert Between(es', s, t) == rest;
    TargetsBetween(es', s, t);
    forall u | u in vs
      ensures BundleMap(es', u) == BundlesWithout(BundleIndex(vs, es), e)[u]
    {
      if u == s {
        assert Targets(es', s) == if rest == {} then Targets(es, s) - {t} else Targets(es, s) by {
          forall x | x in Targets(es, s) && x != t
            ensures x in Targets(es', s)
          {
            var y :| y in es && y.source == s && y.target == x;
            assert y in es';
          }
        }
        forall x | x in Targets(es', s)
          ensures Between(es', s, x) == if x == t then rest else Between(es, s, x)
        {
        }
      } else {
        assert Targets(es', u) == Targets(es, u) by {
          forall x | x in Targets(es, u)
            ensures x in Targets(es', u)
          {
            var y :| y in es && y.source == u && y.target == x;
            assert y in es';
          }
        }
        forall x | x in Targets(es', u)
          ensures Between(es', u, x) == Between(es, u, x)
        {
        }
      }
    }
  }

  /** Removing a stored edge from every index. */
  lemma DeleteKeepsIndexed<V>(vs: set<V>, out: Index<V>, inc: Index<V>, bun: Bundles<V>, es: set<Edge<V>>, e: Edge<V>)
    requires Indexed(vs, out, inc, bun, es) && e in es
    ensures e.source in vs && e.target in vs
    ensures e.source in bun && e.target in bun[e.source]
    ensures Indexed(vs, out[e.source := out[e.source] - {e}], inc[e.target := inc[e.target] - {e}],
                    BundlesWithout(bun, e), es - {e})
  {
    var es' := es - {e};
    EdgeIndexed(vs, out, inc, bun, es, e);
    assert Ends(es') <= Ends(es);
    forall v | v in vs
      ensures Out(es', v) == out[e.source := out[e.source] - {e}][v]
      ensures In(es', v) == inc[e.target := inc[e.target] - {e}][v]
    {
      assert Out(es', v) == Out(es, v) - {e};
      assert In(es', v) == In(es, v) - {e};
    }
    DeleteBundles(vs, es, e);
  }

  /** A vertex no edge touches can leave every index. */
  lemma DropVertexKeepsIndexed<V>(vs: set<V>, out: Index<V>, inc: Index<V>, bun: Bundles<V>, es: set<Edge<V>>, v: V)
    requires Indexed(vs, out, inc, bun, es) && v in vs && Out(es, v) == {} && In(es, v) == {}
    ensures Indexed(vs - {v}, out - {v}, inc - {v}, bun - {v}, es)
  {
    forall x | x in Ends(es)
      ensures x != v
    {
      var e :| e in es && (e.source == x || e.target == x);
      assert e in Out(es, e.source) && e in In(es, e.target);
    }
  }

  /** With no vertices there are no edges. */
  lemma NoVerticesNoEdges<V>(vs: set<V>, out: Index<V>, inc: Index<V>, bun: Bundles<V>, es: set<Edge<V>>)
    requires Indexed(vs, out, inc, bun, es) && vs == {}
    ensures es == {}
  {
    assert forall e | e in es :: e.source in Ends(es);
  }

  /** The edges of `es` that touch no vertex of `gone`. */
  ghost function Remaining<V>(es: set<Edge<V>>, gone: set<V>): set<Edge<V>> {
    set e | e in es && e.source !in gone && e.target !in gone
  }

  /** The elements of `c` before position `i`. */
  ghost function Prefix<V>(c: seq<V>, i: nat): set<V>
    requires i <= |c|
  {
    set j | 0 <= j < i :: c[j]
  }

  /**
   * removeFromOthers on c[i] fails once the vertices before it have gone with
   * their edges: c[i] is still a vertex and its remaining edges reach two or
   * more distinct targets, so its EdgeMap loses a key while the key set is
   * being iterated.
   */
  ghost predicate Splits<V>(vs: set<V>, es: set<Edge<V>>, c: seq<V>, i: nat)
    requires i < |c|
  {
    c[i] in vs - Prefix(c, i) && |Targets(Remaining(es, Prefix(c, i)), c[i])| >= 2
  }

  lemma PrefixStep<V>(c: seq<V>, i: nat)
    requires i < |c|
    ensures Prefix(c, i + 1) == Prefix(c, i) + {c[i]}
  {
    assert c[i] in Prefix(c, i + 1);
  }

  /** Removing one more vertex with its edges. */
  lemma RemainingStep<V>(es: set<Edge<V>>, gone: set<V>, v: V)
    ensures Avoiding(Remaining(es, gone), v) == Remaining(es, gone + {v})
  {
  }

  /** Removing edges of a bundle until none is left removes exactly the bundle. */
  lemma DrainedBetween<V>(es: set<Edge<V>>, removed: set<Edge<V>>, s: V, t: V)
    requires removed <= Between(es, s, t) && Between(es - removed, s, t) == {}
    ensures es - removed == es - Between(es, s, t)
  {
    forall x | x in Between(es, s, t) ensures x in removed {
      assert x !in Between(es - removed, s, t);
    }
  }

  /** Dropping the edges leaving `v` and then those entering it leaves the edges avoiding `v`. */
  lemma CascadeAvoids<V>(es: set<Edge<V>>, v: V)
    ensures var rest := (es - Out(es, v)) - In(es - Out(es, v), v);
      rest == Avoiding(es, v) && Out(rest, v) == {} && In(rest, v) == {}
  {
  }
}
