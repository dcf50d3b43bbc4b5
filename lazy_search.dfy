/**
 * The search loop shared by the older Johnson copy and the older A* copy.
 * Both keep `info`, a map from each vertex met to a (predecessor vertex,
 * distance) tuple, and a heap of the collections package that may hold
 * several entries for one vertex: the source enters with priority 0, and
 * every strict improvement of a vertex's distance overwrites its tuple and
 * enqueues the vertex once more, with the new distance plus `key` of the
 * vertex as priority (the A* heuristic; 0 for Johnson). The loop takes
 * the least entry until the heap is empty, stops early when that entry is
 * the `stop` vertex (A* only), and otherwise scans the vertex's out-edges,
 * throwing on a negative weight when `check` is on (A* only).
 */
module LazySearches {
  import opened Wrappers
  import opened Doubles
  import opened Graphs
  import opened Walks
  import opened HeapForests
  import opened FibonacciHeaps
  import opened Labels

  /** A tuple of `info`: the vertex the distance came through (null for the source) and the distance. */
  datatype Label<V> = Label(pred: Option<V>, dist: real)

  /** The distances of `info`. */
  ghost function Dists<V>(info: map<V, Label<V>>): map<V, real> {
    map v | v in info :: info[v].dist
  }

  /** `info` against the shared invariant: distances and predecessors come from the recorded walks. */
  ghost predicate Informed<V>(es: set<Edge<V>>, w: Edge<V> -> real, s: V, info: map<V, Label<V>>, snap: map<V, seq<Edge<V>>>) {
    Tentative(es, w, s, Dists(info), snap) && forall v | v in info :: info[v].pred == Pred(snap[v])
  }

  /** The vertices with an entry among the heap nodes `ms`. */
  ghost function Queued<V>(ms: set<Node<V>>): set<V> {
    set m | m in ms :: m.value
  }

  /** Some weight that `check` does not test is negative. */
  ghost predicate Unchecked<V>(es: set<Edge<V>>, w: Edge<V> -> real, check: bool) {
    !check && exists e | e in es :: w(e) < 0.0
  }

  /** A reached vertex has an out-edge of negative weight, and the search tests weights. */
  ghost predicate NegativeOut<V>(es: set<Edge<V>>, w: Edge<V> -> real, s: V, check: bool) {
    check && exists e | e in es && Reachable(es, s, e.source) :: w(e) < 0.0
  }

  /** A vertex the source reaches by an edge has a NaN key. */
  ghost predicate NaNKey<V>(es: set<Edge<V>>, s: V, key: V -> Double) {
    exists e | e in es && Reachable(es, s, e.source) :: key(e.target).NaN?
  }

  lemma QueuedAdd<V>(ms: set<Node<V>>, n: Node<V>)
    ensures Queued(ms + {n}) == Queued(ms) + {n.value}
  {
  }

  lemma QueuedUnion<V>(a: set<Node<V>>, b: set<Node<V>>)
    ensures Queued(a + b) == Queued(a) + Queued(b)
  {
  }

  lemma QueuedTake<V>(ms: set<Node<V>>, c: Node<V>)
    ensures Queued(ms) <= Queued(ms - {c}) + {c.value}
  {
  }

  /**
   * The heap entry `m` still speaks for its vertex: it is the source's first
   * entry, of priority 0, or its priority is at most the vertex's distance
   * plus key. An entry made before the distance last went down does not.
   */
  ghost predicate Current<V>(prio: map<Node<V>, Double>, s: V, key: V -> Double, dist: map<V, real>, m: Node<V>)
    requires m.value in dist
  {
    (m.value == s && P(prio, m) == Fin(0.0)) || Le(P(prio, m), Add(Fin(dist[m.value]), key(m.value)))
  }

  /** The vertices with an entry among `ms` that still speaks for them. */
  ghost function Live<V>(ms: set<Node<V>>, prio: map<Node<V>, Double>, s: V, key: V -> Double, dist: map<V, real>): set<V> {
    set m | m in ms && m.value in dist && Current(prio, s, key, dist, m) :: m.value
  }

  /**
   * Every entry is for a vertex met, and its priority is at least the
   * vertex's distance plus key, apart from the source's first entry.
   */
  ghost predicate Keyed<V>(ms: set<Node<V>>, prio: map<Node<V>, Double>, s: V, key: V -> Double, dist: map<V, real>) {
    forall m | m in ms :: m.value in dist &&
      ((m.value == s && P(prio, m) == Fin(0.0)) || Le(Add(Fin(dist[m.value]), key(m.value)), P(prio, m)))
  }

  /**
   * The vertex `t` left the heap on an entry of priority `least`, no higher
   * than any other entry then in the heap: apart from the source, its
   * distance plus key is at most `least`, every vertex met is done or has an
   * entry in `live` that speaks for it, and no such entry is below `least`.
   */
  ghost predicate Leading<V>(es: set<Edge<V>>, w: Edge<V> -> real, s: V, dist: map<V, real>, live: set<V>, t: V,
                             least: Double, key: V -> Double) {
    && t in dist && live <= dist.Keys
    && Waiting(es, w, dist, live, None)
    && (t != s ==> Le(Add(Fin(dist[t]), key(t)), least))
    && forall v | v in live :: (v == s && Le(least, Fin(0.0))) || Le(least, Add(Fin(dist[v]), key(v)))
  }

  lemma KeyedQueued<V>(ms: set<Node<V>>, prio: map<Node<V>, Double>, s: V, key: V -> Double, dist: map<V, real>)
    requires Keyed(ms, prio, s, key, dist)
    ensures Queued(ms) <= dist.Keys && Live(ms, prio, s, key, dist) <= dist.Keys
  {
  }

  /** With the node `c` taken out, only its vertex can lose its place among the live vertices. */
  lemma LiveTake<V>(ms: set<Node<V>>, prio: map<Node<V>, Double>, s: V, key: V -> Double, dist: map<V, real>, c: Node<V>)
    requires Keyed(ms, prio, s, key, dist)
    ensures Keyed(ms - {c}, prio, s, key, dist)
    ensures Live(ms, prio, s, key, dist) <= Live(ms - {c}, prio, s, key, dist) + {c.value}
  {
    forall v | v in Live(ms, prio, s, key, dist) && v != c.value
      ensures v in Live(ms - {c}, prio, s, key, dist)
    {
      var m :| m in ms && m.value in dist && Current(prio, s, key, dist, m) && m.value == v;
      assert m in ms - {c};
    }
  }

  /** A lower distance plus the same key is no higher a priority. */
  lemma AddLowered(a: real, b: real, k: Double)
    requires a <= b && !k.NaN?
    ensures Le(Add(Fin(a), k), Add(Fin(b), k))
  {
  }

  /**
   * The new entry `n` for `v`, with priority `nd` plus key, as `v`'s
   * distance goes down to `nd`: every entry keeps its place above its
   * vertex's priority, and every live vertex stays live, `v` through `n`.
   */
  lemma LiveOffer<V>(ms: set<Node<V>>, prio: map<Node<V>, Double>, s: V, key: V -> Double, dist: map<V, real>,
                     n: Node<V>, v: V, nd: real)
    requires Keyed(ms, prio, s, key, dist) && n !in ms && n.value == v && !Add(Fin(nd), key(v)).NaN?
    requires v in dist ==> nd <= dist[v]
    ensures Keyed(ms + {n}, prio[n := Add(Fin(nd), key(v))], s, key, dist[v := nd])
    ensures Live(ms, prio, s, key, dist) + {v} <= Live(ms + {n}, prio[n := Add(Fin(nd), key(v))], s, key, dist[v := nd])
  {
    var prio', dist' := prio[n := Add(Fin(nd), key(v))], dist[v := nd];
    forall m | m in ms + {n}
      ensures m.value in dist'
      ensures (m.value == s && P(prio', m) == Fin(0.0)) || Le(Add(Fin(dist'[m.value]), key(m.value)), P(prio', m))
    {
      if m != n && m.value == v && !(m.value == s && P(prio, m) == Fin(0.0)) {
        AddLowered(nd, dist[v], key(v));
        LeTransitive(Add(Fin(nd), key(v)), Add(Fin(dist[v]), key(v)), P(prio, m));
      }
    }
    forall x | x in Live(ms, prio, s, key, dist) + {v}
      ensures x in Live(ms + {n}, prio', s, key, dist')
    {
      if x == v {
        assert n in ms + {n} && Current(prio', s, key, dist', n);
      } else {
        var m :| m in ms && m.value in dist && Current(prio, s, key, dist, m) && m.value == x;
        assert m != n && Current(prio', s, key, dist', m);
      }
    }
  }

  /** After one node is taken, only its vertex may be neither waiting nor done. */
  lemma WaitingTake<V>(es: set<Edge<V>>, w: Edge<V> -> real, dist: map<V, real>, q: set<V>, q': set<V>, cur: V)
    requires Waiting(es, w, dist, q, None) && q <= q' + {cur}
    ensures Waiting(es, w, dist, q', Some(cur))
  {
  }

  /** An improved vertex enters the heap; every other vertex keeps its label, so stays waiting or done. */
  lemma WaitingStep<V>(es: set<Edge<V>>, w: Edge<V> -> real, dist: map<V, real>, dist': map<V, real>,
                       q: set<V>, q': set<V>, skip: Option<V>, v: V)
    requires Waiting(es, w, dist, q, skip) && Lowered(dist', dist) && dist'.Keys == dist.Keys + {v}
    requires (forall x | x in dist && x != v :: dist'[x] == dist[x]) && q + {v} <= q'
    ensures Waiting(es, w, dist', q', skip)
  {
    forall x | x in dist' && Some(x) != skip && x !in q'
      ensures Done(es, w, dist', x)
    {
      assert x in dist && x != v && Done(es, w, dist, x);
    }
  }

  /** Once every out-edge of the scanned vertex is relaxed, it is done. */
  lemma WaitingClose<V>(es: set<Edge<V>>, w: Edge<V> -> real, dist: map<V, real>, q: set<V>, cur: V)
    requires Waiting(es, w, dist, q, Some(cur)) && cur in dist && Done(es, w, dist, cur)
    ensures Waiting(es, w, dist, q, None)
  {
  }

  /**
   * One out-edge `e` of the vertex `cur` being scanned. With `check` on, a
   * negative weight throws IllegalArgumentException. A target never met, or
   * one whose distance the edge beats strictly, gets (cur, the new
   * distance) and a fresh heap entry, whose NaN priority would throw
   * IllegalArgumentException from enqueue.
   */
  method Relax<V>(g: Graph<V>, w: Edge<V> -> real, source: V, check: bool, key: V -> Double, heap: FibonacciHeap<V>,
                  cur: V, e: Edge<V>, info: map<V, Label<V>>, ghost snap: map<V, seq<Edge<V>>>)
    returns (o: Outcome, info': map<V, Label<V>>, ghost snap': map<V, seq<Edge<V>>>, ghost added: set<Node<V>>)
    requires WellFormed(g) && e in g.edges && e.source == cur && cur in info && (check || w(e) >= 0.0)
    requires heap.Valid() && Informed(g.edges, w, source, info, snap) && Queued(heap.Members()) <= info.Keys
    requires Keyed(heap.Members(), heap.prio, source, key, Dists(info))
    modifies heap
    ensures heap.Valid() && heap.Members() == old(heap.Members()) + added && fresh(added)
    ensures o.Fail? ==> o.error == IllegalArgument && ((check && w(e) < 0.0) || key(e.target).NaN?)
    ensures o.Pass? ==> 0.0 <= w(e) && Informed(g.edges, w, source, info', snap') && Queued(heap.Members()) <= info'.Keys
    ensures o.Pass? ==> Keyed(heap.Members(), heap.prio, source, key, Dists(info'))
    ensures o.Pass? ==> old(Live(heap.Members(), heap.prio, source, key, Dists(info))) + Queued(added)
                        <= Live(heap.Members(), heap.prio, source, key, Dists(info'))
    ensures o.Pass? ==> Lowered(Dists(info'), Dists(info)) && cur in info' && info'[cur] == info[cur]
    ensures o.Pass? ==> e.target in info' && info'[e.target].dist <= info'[cur].dist + w(e)
    ensures o.Pass? ==> (info' == info && added == {}) || Improved(g, w, source, info, info', e.target, Queued(added))
  {
    if check && w(e) < 0.0 {
      return Fail(IllegalArgument), info, snap, {};
    }
    var adj := e.target;
    var newDistance := info[cur].dist + w(e);
    var hasKey := adj in info;
    if !hasKey || info[adj].dist > newDistance {
      Adopt(g, w, source, info, snap, e, newDistance);
      info' := info[adj := Label(Some(cur), newDistance)];
      snap' := snap[adj := snap[cur] + [e]];
      ghost var members, prio := heap.Members(), heap.prio;
      var ok;
      ghost var n;
      ok, added, n := Offer(heap, adj, Add(Fin(newDistance), key(adj)));
      o := if ok then Pass else Fail(IllegalArgument);
      if ok {
        assert Dists(info') == Dists(info)[adj := newDistance];
        LiveOffer(members, prio, source, key, Dists(info), n, adj, newDistance);
      }
    } else {
      o, info', snap', added := Pass, info, snap, {};
    }
  }

  /** enqueue of `v` with priority `p`: a new entry, or IllegalArgumentException for a NaN priority. */
  method Offer<V>(heap: FibonacciHeap<V>, v: V, p: Double) returns (ok: bool, ghost added: set<Node<V>>, ghost n: Node?<V>)
    requires heap.Valid()
    modifies heap
    ensures heap.Valid() && heap.Members() == old(heap.Members()) + added && fresh(added)
    ensures ok <==> !p.NaN?
    ensures Queued(added) == if ok then {v} else {}
    ensures !ok ==> heap.prio == old(heap.prio)
    ensures ok ==> n != null && added == {n} && n !in old(heap.Members()) && n.value == v && heap.prio == old(heap.prio)[n := p]
  {
    var r := heap.Enqueue(v, p);
    ok := r.Ok?;
    if ok {
      added, n := {r.value}, r.value;
    } else {
      added, n := {}, null;
    }
  }

  /** The tuple (cur, new distance) for the target of `e` keeps the invariant and improves it. */
  lemma Adopt<V>(g: Graph<V>, w: Edge<V> -> real, s: V, info: map<V, Label<V>>, snap: map<V, seq<Edge<V>>>,
                 e: Edge<V>, nd: real)
    requires WellFormed(g) && Informed(g.edges, w, s, info, snap) && e in g.edges && e.source in info && 0.0 <= w(e)
    requires nd == info[e.source].dist + w(e) && (e.target !in info || nd < info[e.target].dist)
    ensures e.target != e.source
    ensures Informed(g.edges, w, s, info[e.target := Label(Some(e.source), nd)], snap[e.target := snap[e.source] + [e]])
    ensures Lowered(Dists(info[e.target := Label(Some(e.source), nd)]), Dists(info))
    ensures Improved(g, w, s, info, info[e.target := Label(Some(e.source), nd)], e.target, {e.target})
  {
    var info' := info[e.target := Label(Some(e.source), nd)];
    assert Dists(info') == Dists(info)[e.target := nd];
    Improve(g, w, s, Dists(info), snap, e, nd);
  }

  /** `v` alone took a lower distance, fewer walks can still improve one, and `v` alone entered the heap. */
  ghost predicate Improved<V>(g: Graph<V>, w: Edge<V> -> real, s: V, info: map<V, Label<V>>, info': map<V, Label<V>>,
                              v: V, queued: set<V>) {
    && info'.Keys == info.Keys + {v} && (forall x | x in info && x != v :: info'[x] == info[x])
    && Candidates(g, w, s, Dists(info')) < Candidates(g, w, s, Dists(info))
    && queued == {v}
  }

  /**
   * The invariant of the scan of `cur`, which started from `info0`: the
   * labels keep the shared invariant and only went down, `cur` keeps its
   * tuple, every vertex met other than `cur` is waiting or done, and the
   * edges in `done` lead to labels they cannot beat.
   */
  ghost predicate Scanning<V>(es: set<Edge<V>>, w: Edge<V> -> real, s: V, cur: V, info0: map<V, Label<V>>,
                              info: map<V, Label<V>>, snap: map<V, seq<Edge<V>>>, queued: set<V>, done: set<Edge<V>>) {
    && Informed(es, w, s, info, snap) && queued <= info.Keys
    && cur in info0 && cur in info && info[cur] == info0[cur] && Lowered(Dists(info), Dists(info0))
    && Waiting(es, w, Dists(info), queued, Some(cur))
    && forall e | e in done :: e.target in info && info[e.target].dist <= info[cur].dist + w(e)
  }

  /** The relaxation of one more out-edge `e` of `cur` inside the scan. */
  method Step<V>(g: Graph<V>, w: Edge<V> -> real, source: V, check: bool, key: V -> Double, heap: FibonacciHeap<V>,
                 cur: V, e: Edge<V>, info0: map<V, Label<V>>, info: map<V, Label<V>>, ghost snap: map<V, seq<Edge<V>>>,
                 ghost done: set<Edge<V>>)
    returns (o: Outcome, info': map<V, Label<V>>, ghost snap': map<V, seq<Edge<V>>>, ghost added: set<Node<V>>)
    requires WellFormed(g) && e in g.edges && e.source == cur && (check || w(e) >= 0.0)
    requires heap.Valid() && Keyed(heap.Members(), heap.prio, source, key, Dists(info))
    requires Scanning(g.edges, w, source, cur, info0, info, snap, Live(heap.Members(), heap.prio, source, key, Dists(info)), done)
    modifies heap
    ensures heap.Valid() && heap.Members() == old(heap.Members()) + added && fresh(added)
    ensures o.Fail? ==> o.error == IllegalArgument && ((check && w(e) < 0.0) || key(e.target).NaN?)
    ensures o.Pass? ==> Keyed(heap.Members(), heap.prio, source, key, Dists(info'))
    ensures o.Pass? ==> Scanning(g.edges, w, source, cur, info0, info', snap', Live(heap.Members(), heap.prio, source, key, Dists(info')), done + {e})
    ensures o.Pass? ==> (info' == info && added == {}) || Candidates(g, w, source, Dists(info')) < Candidates(g, w, source, Dists(info))
  {
    ghost var live := Live(heap.Members(), heap.prio, source, key, Dists(info));
    KeyedQueued(heap.Members(), heap.prio, source, key, Dists(info));
    o, info', snap', added := Relax(g, w, source, check, key, heap, cur, e, info, snap);
    if o.Pass? {
      KeyedQueued(heap.Members(), heap.prio, source, key, Dists(info'));
      Stepped(g, w, source, cur, e, info0, info, snap, info', snap', live, Queued(added), done);
      ScanningMore(g.edges, w, source, cur, info0, info', snap', live + Queued(added),
                   Live(heap.Members(), heap.prio, source, key, Dists(info')), done + {e});
    }
  }

  /** More vertices waiting in the heap keep the scan's invariant. */
  lemma ScanningMore<V>(es: set<Edge<V>>, w: Edge<V> -> real, s: V, cur: V, info0: map<V, Label<V>>,
                        info: map<V, Label<V>>, snap: map<V, seq<Edge<V>>>, q: set<V>, q': set<V>, done: set<Edge<V>>)
    requires Scanning(es, w, s, cur, info0, info, snap, q, done) && q <= q' <= info.Keys
    ensures Scanning(es, w, s, cur, info0, info, snap, q', done)
  {
  }

  /** What one relaxation leaves keeps the scan's invariant, one edge further. */
  lemma Stepped<V>(g: Graph<V>, w: Edge<V> -> real, s: V, cur: V, e: Edge<V>, info0: map<V, Label<V>>,
                   info: map<V, Label<V>>, snap: map<V, seq<Edge<V>>>, info': map<V, Label<V>>, snap': map<V, seq<Edge<V>>>,
                   q: set<V>, qa: set<V>, done: set<Edge<V>>)
    requires Scanning(g.edges, w, s, cur, info0, info, snap, q, done)
    requires Informed(g.edges, w, s, info', snap') && q + qa <= info'.Keys
    requires Lowered(Dists(info'), Dists(info)) && cur in info' && info'[cur] == info[cur]
    requires e.target in info' && info'[e.target].dist <= info'[cur].dist + w(e)
    requires (info' == info && qa == {}) || Improved(g, w, s, info, info', e.target, qa)
    ensures Scanning(g.edges, w, s, cur, info0, info', snap', q + qa, done + {e})
  {
    if !(info' == info && qa == {}) {
      WaitingStep(g.edges, w, Dists(info), Dists(info'), q, q + qa, Some(cur), e.target);
    }
  }

  /**
   * The scan of the out-edges `out` of `cur`, in the hash set's order
   * (unspecified here). Every vertex met is afterwards waiting in the heap
   * or done, `cur` included.
   */
  method Scan<V>(g: Graph<V>, w: Edge<V> -> real, source: V, check: bool, key: V -> Double, heap: FibonacciHeap<V>,
                 cur: V, out: set<Edge<V>>, info: map<V, Label<V>>, ghost snap: map<V, seq<Edge<V>>>)
    returns (o: Outcome, info': map<V, Label<V>>, ghost snap': map<V, seq<Edge<V>>>, ghost added: set<Node<V>>)
    requires WellFormed(g) && cur in info && out == Out(g.edges, cur)
    requires check || forall e | e in g.edges :: w(e) >= 0.0
    requires heap.Valid() && Informed(g.edges, w, source, info, snap) && Keyed(heap.Members(), heap.prio, source, key, Dists(info))
    requires Waiting(g.edges, w, Dists(info), Live(heap.Members(), heap.prio, source, key, Dists(info)), Some(cur))
    modifies heap
    ensures heap.Valid() && heap.Members() == old(heap.Members()) + added && fresh(added)
    ensures o.Fail? ==> o.error == IllegalArgument
    ensures o.Fail? ==> exists e | e in out :: (check && w(e) < 0.0) || key(e.target).NaN?
    ensures o.Pass? ==> Informed(g.edges, w, source, info', snap') && Keyed(heap.Members(), heap.prio, source, key, Dists(info'))
    ensures o.Pass? ==> Waiting(g.edges, w, Dists(info'), Live(heap.Members(), heap.prio, source, key, Dists(info')), None)
    ensures o.Pass? ==> Lowered(Dists(info'), Dists(info))
    ensures o.Pass? ==> (info' == info && added == {}) || Candidates(g, w, source, Dists(info')) < Candidates(g, w, source, Dists(info))
  {
    info', snap', added := info, snap, {};
    ghost var start := heap.Members();
    KeyedQueued(heap.Members(), heap.prio, source, key, Dists(info));
    var todo := out;
    while todo != {}
      invariant todo <= out
      invariant heap.Valid() && heap.Members() == start + added && fresh(added)
      invariant Keyed(heap.Members(), heap.prio, source, key, Dists(info'))
      invariant Scanning(g.edges, w, source, cur, info, info', snap', Live(heap.Members(), heap.prio, source, key, Dists(info')), out - todo)
      invariant (info' == info && added == {}) || Candidates(g, w, source, Dists(info')) < Candidates(g, w, source, Dists(info))
      decreases todo
    {
      var e :| e in todo;
      ghost var info1, members1 := info', heap.Members();
      ghost var added1;
      o, info', snap', added1 := Step(g, w, source, check, key, heap, cur, e, info, info', snap', out - todo);
      Regroup(start, added, added1);
      added := added + added1;
      if o.Fail? {
        return;
      }
      Peel(out, todo, e);
      if !(info' == info1 && added1 == {}) {
        Shrunk(Candidates(g, w, source, Dists(info)), Candidates(g, w, source, Dists(info1)), Candidates(g, w, source, Dists(info')));
      }
      todo := todo - {e};
    }
    Scanned(g.edges, w, source, cur, info, info', snap', Live(heap.Members(), heap.prio, source, key, Dists(info')), out);
    o := Pass;
  }

  /** Once every out-edge of `cur` is relaxed, `cur` is done too. */
  lemma Scanned<V>(es: set<Edge<V>>, w: Edge<V> -> real, s: V, cur: V, info0: map<V, Label<V>>,
                   info: map<V, Label<V>>, snap: map<V, seq<Edge<V>>>, q: set<V>, out: set<Edge<V>>)
    requires Scanning(es, w, s, cur, info0, info, snap, q, out) && out == Out(es, cur)
    ensures Informed(es, w, s, info, snap) && q <= info.Keys
    ensures Waiting(es, w, Dists(info), q, None) && Lowered(Dists(info), Dists(info0))
  {
    WaitingClose(es, w, Dists(info), q, cur);
  }

  lemma Regroup<T>(a: set<T>, b: set<T>, c: set<T>)
    ensures (a + b) + c == a + (b + c)
  {
  }

  lemma Peel<T>(out: set<T>, todo: set<T>, e: T)
    requires e in todo && todo <= out
    ensures out - (todo - {e}) == (out - todo) + {e}
  {
  }

  /** Fewer candidates than fewer candidates than `c0`: fewer than `c0`. */
  lemma Shrunk<V>(c0: set<V>, c1: set<V>, c2: set<V>)
    requires c2 < c1 && c1 <= c0
    ensures c2 < c0
  {
  }

  /** dequeueMin on a heap that is not empty: the least entry leaves the heap. */
  method Take<V>(heap: FibonacciHeap<V>) returns (cur: V, ghost c: Node<V>)
    requires heap.Valid() && heap.roots != []
    modifies heap, heap.Members()
    ensures heap.Valid() && c in old(heap.Members()) && cur == c.value
    ensures heap.Members() == old(heap.Members()) - {c}
    ensures Queued(old(heap.Members())) <= Queued(heap.Members()) + {cur}
    ensures heap.prio == old(heap.prio) && forall m | m in old(heap.Members()) :: Le(P(heap.prio, c), P(heap.prio, m))
  {
    ghost var members := heap.Members();
    ghost var m := heap.roots[0].node;
    assert heap.MinNodes() == {m} && m in members;
    var r := heap.DequeueMin();
    cur := r.value.value;
    c := r.value;
    QueuedTake(members, c);
  }

  /**
   * One turn of the search loop on a heap that is not empty: take the least
   * entry; stop if it is the `stop` vertex; otherwise ask the graph for its
   * out-edges, which throws NullPointerException for a vertex the graph
   * lacks (only the source can be one), and scan them. A turn that goes on
   * lowers some label or leaves the heap smaller. On the first turn the
   * heap holds the source alone.
   */
  method Visit<V>(g: Graph<V>, w: Edge<V> -> real, source: V, stop: Option<V>, check: bool, key: V -> Double,
                  heap: FibonacciHeap<V>, info: map<V, Label<V>>, ghost snap: map<V, seq<Edge<V>>>, ghost first: bool)
    returns (o: Outcome, info': map<V, Label<V>>, ghost snap': map<V, seq<Edge<V>>>, stopped: bool,
             ghost live: set<V>, ghost least: Double)
    requires WellFormed(g) && (check || forall e | e in g.edges :: w(e) >= 0.0)
    requires heap.Valid() && heap.roots != [] && Informed(g.edges, w, source, info, snap) && Queued(heap.Members()) <= info.Keys
    requires Keyed(heap.Members(), heap.prio, source, key, Dists(info))
    requires Waiting(g.edges, w, Dists(info), Live(heap.Members(), heap.prio, source, key, Dists(info)), None)
    requires first ==> info.Keys == {source} && Queued(heap.Members()) == {source}
    modifies heap, heap.Members()
    ensures heap.Valid() && forall m | m in heap.Members() :: m in old(heap.Members()) || fresh(m)
    ensures o.Fail? ==> o.error == NullPointer || o.error == IllegalArgument
    ensures o == Fail(NullPointer) ==> source !in g.vertices
    ensures first ==> (o == Fail(NullPointer) <==> source !in g.vertices && stop != Some(source))
    ensures first && o.Pass? && !stopped ==> source in g.vertices
    ensures o == Fail(IllegalArgument) ==> NegativeOut(g.edges, w, source, check) || NaNKey(g.edges, source, key)
    ensures o.Pass? ==> Informed(g.edges, w, source, info', snap') && Queued(heap.Members()) <= info'.Keys
    ensures o.Pass? ==> Keyed(heap.Members(), heap.prio, source, key, Dists(info'))
    ensures o.Pass? && stopped ==> stop.Some? && info' == info && Leading(g.edges, w, source, Dists(info), live, stop.value, least, key)
    ensures o.Pass? && !stopped ==> Waiting(g.edges, w, Dists(info'), Live(heap.Members(), heap.prio, source, key, Dists(info')), None)
    ensures o.Pass? && !stopped ==>
      || |Candidates(g, w, source, Dists(info'))| < |Candidates(g, w, source, Dists(info))|
      || (info' == info && |heap.Members()| < old(|heap.Members()|))
  {
    ghost var members, prio := heap.Members(), heap.prio;
    live := Live(members, prio, source, key, Dists(info));
    var cur;
    ghost var c;
    cur, c := Take(heap);
    least := P(prio, c);
    assert cur in info;
    LiveTake(members, prio, source, key, Dists(info), c);
    if stop == Some(cur) {
      Lead(members, prio, source, key, Dists(info), c);
      return Pass, info, snap, true, live, least;
    }
    var out := EdgesFrom(g, cur);
    if out.None? {
      InGraph(g, w, source, Dists(info), snap, cur);
      return Fail(NullPointer), info, snap, false, live, least;
    }
    WaitingTake(g.edges, w, Dists(info), live, Live(heap.Members(), heap.prio, source, key, Dists(info)), cur);
    o, info', snap' := Expand(g, w, source, check, key, heap, cur, out.value, info, snap, members);
    stopped := false;
    if first {
      InGraph(g, w, source, Dists(info), snap, cur);
    }
  }

  /** The entry `c` of least priority among `ms`, for the vertex `t`, leads the live vertices. */
  lemma Lead<V>(ms: set<Node<V>>, prio: map<Node<V>, Double>, s: V, key: V -> Double, dist: map<V, real>, c: Node<V>)
    requires Keyed(ms, prio, s, key, dist) && c in ms && forall m | m in ms :: Le(P(prio, c), P(prio, m))
    ensures c.value in dist && Live(ms, prio, s, key, dist) <= dist.Keys
    ensures c.value != s ==> Le(Add(Fin(dist[c.value]), key(c.value)), P(prio, c))
    ensures forall v | v in Live(ms, prio, s, key, dist) ::
      (v == s && Le(P(prio, c), Fin(0.0))) || Le(P(prio, c), Add(Fin(dist[v]), key(v)))
  {
    forall v | v in Live(ms, prio, s, key, dist)
      ensures (v == s && Le(P(prio, c), Fin(0.0))) || Le(P(prio, c), Add(Fin(dist[v]), key(v)))
    {
      var m :| m in ms && m.value in dist && Current(prio, s, key, dist, m) && m.value == v;
      if !(v == s && P(prio, m) == Fin(0.0)) {
        LeTransitive(P(prio, c), P(prio, m), Add(Fin(dist[v]), key(v)));
      }
    }
  }

  /**
   * The rest of a turn that did not stop: the scan of the out-edges `out` of
   * the vertex `cur` just taken from the heap, which held `members` before.
   */
  method Expand<V>(g: Graph<V>, w: Edge<V> -> real, source: V, check: bool, key: V -> Double, heap: FibonacciHeap<V>,
                   cur: V, out: set<Edge<V>>, info: map<V, Label<V>>, ghost snap: map<V, seq<Edge<V>>>,
                   ghost members: set<Node<V>>)
    returns (o: Outcome, info': map<V, Label<V>>, ghost snap': map<V, seq<Edge<V>>>)
    requires WellFormed(g) && (check || forall e | e in g.edges :: w(e) >= 0.0) && cur in info && out == Out(g.edges, cur)
    requires heap.Valid() && Informed(g.edges, w, source, info, snap) && Keyed(heap.Members(), heap.prio, source, key, Dists(info))
    requires Waiting(g.edges, w, Dists(info), Live(heap.Members(), heap.prio, source, key, Dists(info)), Some(cur))
    requires heap.Members() < members
    modifies heap
    ensures heap.Valid() && forall m | m in heap.Members() :: m in old(heap.Members()) || fresh(m)
    ensures o.Fail? ==> o.error == IllegalArgument && (NegativeOut(g.edges, w, source, check) || NaNKey(g.edges, source, key))
    ensures o.Pass? ==> Informed(g.edges, w, source, info', snap') && Queued(heap.Members()) <= info'.Keys
    ensures o.Pass? ==> Keyed(heap.Members(), heap.prio, source, key, Dists(info'))
    ensures o.Pass? ==> Waiting(g.edges, w, Dists(info'), Live(heap.Members(), heap.prio, source, key, Dists(info')), None)
    ensures o.Pass? ==>
      || |Candidates(g, w, source, Dists(info'))| < |Candidates(g, w, source, Dists(info))|
      || (info' == info && |heap.Members()| < |members|)
  {
    ghost var taken := heap.Members();
    ghost var added;
    o, info', snap', added := Scan(g, w, source, check, key, heap, cur, out, info, snap);
    if o.Fail? {
      Blame(g, w, source, check, key, info, snap, cur, out);
      return;
    }
    KeyedQueued(heap.Members(), heap.prio, source, key, Dists(info'));
    if info' == info && added == {} {
      Smaller(taken, members);
    } else {
      Smaller(Candidates(g, w, source, Dists(info')), Candidates(g, w, source, Dists(info)));
    }
  }

  /** A throw while scanning a reached vertex is due to a negative out-edge or a NaN key. */
  lemma Blame<V>(g: Graph<V>, w: Edge<V> -> real, source: V, check: bool, key: V -> Double,
                 info: map<V, Label<V>>, snap: map<V, seq<Edge<V>>>, cur: V, out: set<Edge<V>>)
    requires WellFormed(g) && Informed(g.edges, w, source, info, snap) && cur in info && out == Out(g.edges, cur)
    requires exists e | e in out :: (check && w(e) < 0.0) || key(e.target).NaN?
    ensures NegativeOut(g.edges, w, source, check) || NaNKey(g.edges, source, key)
  {
    var e :| e in out && ((check && w(e) < 0.0) || key(e.target).NaN?);
    InGraph(g, w, source, Dists(info), snap, cur);
  }

  /**
   * The search loop, from a heap holding the source alone: it runs until
   * the heap is empty or a turn stops or throws.
   */
  method Run<V>(g: Graph<V>, w: Edge<V> -> real, source: V, stop: Option<V>, check: bool, key: V -> Double,
                heap: FibonacciHeap<V>, info: map<V, Label<V>>, ghost snap: map<V, seq<Edge<V>>>)
    returns (o: Outcome, info': map<V, Label<V>>, ghost snap': map<V, seq<Edge<V>>>, stopped: bool,
             ghost live: set<V>, ghost least: Double)
    requires WellFormed(g) && (check || forall e | e in g.edges :: w(e) >= 0.0)
    requires heap.Valid() && Informed(g.edges, w, source, info, snap) && Keyed(heap.Members(), heap.prio, source, key, Dists(info))
    requires Waiting(g.edges, w, Dists(info), Live(heap.Members(), heap.prio, source, key, Dists(info)), None)
    requires info.Keys == {source} && Queued(heap.Members()) == {source}
    modifies heap, heap.Members()
    ensures o.Fail? ==> o.error == NullPointer || o.error == IllegalArgument
    ensures o == Fail(NullPointer) <==> source !in g.vertices && stop != Some(source)
    ensures o == Fail(IllegalArgument) ==> NegativeOut(g.edges, w, source, check) || NaNKey(g.edges, source, key)
    ensures o.Pass? ==> Informed(g.edges, w, source, info', snap')
    ensures o.Pass? && stopped ==> stop.Some? && Leading(g.edges, w, source, Dists(info'), live, stop.value, least, key)
    ensures o.Pass? && !stopped ==> Waiting(g.edges, w, Dists(info'), {}, None)
  {
    o, info', snap', stopped, live, least := Pass, info, snap, false, {}, NaN;
    ghost var first := true;
    while !heap.IsEmpty()
      invariant o == Pass && !stopped
      invariant heap.Valid() && forall m | m in heap.Members() :: m in old(heap.Members()) || fresh(m)
      invariant Informed(g.edges, w, source, info', snap') && Queued(heap.Members()) <= info'.Keys
      invariant Keyed(heap.Members(), heap.prio, source, key, Dists(info'))
      invariant Waiting(g.edges, w, Dists(info'), Live(heap.Members(), heap.prio, source, key, Dists(info')), None)
      invariant first ==> info'.Keys == {source} && Queued(heap.Members()) == {source}
      invariant !first ==> source in g.vertices
      decreases |Candidates(g, w, source, Dists(info'))|, |heap.Members()|
    {
      o, info', snap', stopped, live, least := Visit(g, w, source, stop, check, key, heap, info', snap', first);
      if o.Fail? || stopped {
        return;
      }
      first := false;
    }
    assert heap.Members() == {} && Live(heap.Members(), heap.prio, source, key, Dists(info')) == {};
  }

  /**
   * The search from a new heap holding the source with priority 0 and
   * `info` holding (null, 0) for it. When it passes, every tuple comes from
   * a walk recorded for it; when it ran to an empty heap, the distances are
   * the least walk weights and `info` holds exactly the vertices the source
   * reaches.
   */
  method Search<V>(g: Graph<V>, w: Edge<V> -> real, source: V, stop: Option<V>, check: bool, key: V -> Double)
    returns (o: Outcome, info: map<V, Label<V>>, ghost snap: map<V, seq<Edge<V>>>, stopped: bool,
             ghost live: set<V>, ghost least: Double)
    requires WellFormed(g) && (check || forall e | e in g.edges :: w(e) >= 0.0)
    ensures o.Fail? ==> o.error == NullPointer || o.error == IllegalArgument
    ensures o == Fail(NullPointer) <==> source !in g.vertices && stop != Some(source)
    ensures o == Fail(IllegalArgument) ==> NegativeOut(g.edges, w, source, check) || NaNKey(g.edges, source, key)
    ensures o.Pass? ==> Informed(g.edges, w, source, info, snap)
    ensures o.Pass? && stopped ==> stop.Some? && Leading(g.edges, w, source, Dists(info), live, stop.value, least, key)
    ensures o.Pass? && !stopped ==> forall t :: Exact(g.edges, w, source, t, if t in info then Fin(info[t].dist) else PosInf)
  {
    var heap := new FibonacciHeap<V>(false);
    info := map[source := Label(None, 0.0)];
    snap := map[source := []];
    Initial(g.edges, w, source);
    var r := heap.Enqueue(source, Fin(0.0));
    QueuedAdd({}, r.value);
    assert r.value in heap.Members() && Current(heap.prio, source, key, Dists(info), r.value);
    assert Live(heap.Members(), heap.prio, source, key, Dists(info)) == {source};
    o, info, snap, stopped, live, least := Run(g, w, source, stop, check, key, heap, info, snap);
    if o.Pass? && !stopped {
      Final(g.edges, w, source, info, snap);
    }
  }

  /** The source alone, with the tuple (null, 0) and the empty walk, keeps the invariant. */
  lemma Initial<V>(es: set<Edge<V>>, w: Edge<V> -> real, s: V)
    ensures Informed(es, w, s, map[s := Label(None, 0.0)], map[s := []])
    ensures Waiting(es, w, Dists(map[s := Label(None, 0.0)]), {s}, None)
  {
    var info: map<V, Label<V>> := map[s := Label(None, 0.0)];
    assert Dists(info) == map[s := 0.0];
    var p: seq<Edge<V>> := [];
    assert p[..0] == p;
    assert Recorded(es, w, s, Dists(info), p, s);
  }

  /** With nothing waiting, every tuple holds the least walk weight, and unreached vertices have none. */
  lemma Final<V>(es: set<Edge<V>>, w: Edge<V> -> real, s: V, info: map<V, Label<V>>, snap: map<V, seq<Edge<V>>>)
    requires Informed(es, w, s, info, snap) && Waiting(es, w, Dists(info), {}, None)
    ensures forall t :: Exact(es, w, s, t, if t in info then Fin(info[t].dist) else PosInf)
  {
    forall t
      ensures Exact(es, w, s, t, if t in info then Fin(info[t].dist) else PosInf)
    {
      Settled(es, w, s, Dists(info), snap, t);
    }
  }
}
