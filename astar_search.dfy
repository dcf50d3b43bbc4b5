/**
 * A* search, the newer Java copy and the Kotlin object. Both keep one heap
 * node per vertex met (`heapNodes`), whose value carries the vertex and its
 * best distance so far, and the edge that last improved each vertex
 * (`previous`, `bestPathEdges`). A dequeued vertex met again with a smaller
 * distance gets a fresh node; one still in the heap has its distance and
 * its key lowered. The priority of a node is its distance plus the
 * heuristic of its vertex, except for the source, which enters with a
 * priority of its own (0 in Java, heuristic(source) in Kotlin).
 *
 * One loop serves both: `stop` is the vertex whose dequeue ends the search
 * (the Kotlin target; none in Java, whose test compares a heap node with a
 * vertex and never holds), `negative` the exception a negative weight
 * throws. The node's distance is refreshed on every improvement, as Kotlin
 * does; the Java copy as written does not refresh it (see AStarStale).
 */
module AStarSearches {
  import opened Wrappers
  import opened Doubles
  import opened Graphs
  import opened Paths
  import opened Walks
  import opened HeapForests
  import opened FibonacciHeaps
  import opened Labels
  import opened LazySearches
  import Dijkstras

  /** The heap nodes handed out so far. */
  ghost function Handles<V>(hn: map<V, Node<V>>): set<Node<V>> {
    set v | v in hn :: hn[v]
  }

  /** The priority of the node of `v`: `start` for the source, otherwise distance plus key. */
  function Priority<V>(source: V, start: Double, key: V -> Double, dist: map<V, real>, v: V): Double
    requires v in dist
  {
    if v == source then start else Add(Fin(dist[v]), key(v))
  }

  /**
   * Every vertex met has its own node, created by this heap, carrying the
   * vertex; every heap member is the node of its vertex, with the vertex's
   * priority, which is a number.
   */
  ghost predicate Ledger<V>(owner: FibonacciHeap<V>, prio: map<Node<V>, Double>, members: set<Node<V>>,
                            hn: map<V, Node<V>>, dist: map<V, real>, source: V, start: Double, key: V -> Double) {
    && hn.Keys == dist.Keys
    && (forall v | v in hn :: hn[v].value == v && hn[v].creator == owner)
    && (forall m | m in members :: m.value in hn && hn[m.value] == m)
    && (forall v | v in hn && hn[v] in members ::
          P(prio, hn[v]) == Priority(source, start, key, dist, v) && !P(prio, hn[v]).NaN?)
  }

  /** A node is marked dequeued exactly when it is not in the heap. */
  ghost predicate Flags<V>(hn: map<V, Node<V>>, members: set<Node<V>>)
    reads Handles(hn)
  {
    forall v | v in hn :: hn[v] in members <==> !hn[v].dequeued
  }

  /** The heap side of the search state. */
  ghost predicate Books<V>(heap: FibonacciHeap<V>, hn: map<V, Node<V>>, dist: map<V, real>, source: V, start: Double,
                           key: V -> Double)
    reads heap, Handles(hn)
  {
    && heap.Valid() && heap.checked
    && Ledger(heap, heap.prio, heap.Members(), hn, dist, source, start, key)
    && Flags(hn, heap.Members())
  }

  /** The graph side: the labels keep the shared invariant and `previous` holds the last edge of each recorded walk. */
  ghost predicate Tracked<V>(es: set<Edge<V>>, w: Edge<V> -> real, s: V, dist: map<V, real>,
                             previous: map<V, Edge<V>>, snap: map<V, seq<Edge<V>>>) {
    && Tentative(es, w, s, dist, snap)
    && forall v | v in dist && v != s :: v in previous && snap[v] != [] && previous[v] == snap[v][|snap[v]| - 1]
  }

  /** `v` alone took a lower distance, fewer walks can still improve one, and `v` joined the vertices in the heap. */
  ghost predicate Improved<V>(g: Graph<V>, w: Edge<V> -> real, s: V, dist: map<V, real>, dist': map<V, real>,
                              v: V, q: set<V>, q': set<V>) {
    && dist'.Keys == dist.Keys + {v} && (forall x | x in dist && x != v :: dist'[x] == dist[x])
    && Candidates(g, w, s, dist') < Candidates(g, w, s, dist)
    && q' == q + {v}
  }

  /** A vertex in the heap as long as the stop vertex has a label and was not dequeued. */
  ghost predicate Watched<V>(stop: Option<V>, dist: map<V, real>, queued: set<V>) {
    stop.Some? && stop.value in dist ==> stop.value in queued
  }

  /** The vertices in the heap have labels. */
  lemma Known<V>(heap: FibonacciHeap<V>, hn: map<V, Node<V>>, dist: map<V, real>, source: V, start: Double, key: V -> Double)
    requires Books(heap, hn, dist, source, start, key)
    ensures Queued(heap.Members()) <= dist.Keys
  {
  }

  /** Adding a number to a smaller finite value never gives a larger sum. */
  lemma AddBelow(a: real, b: real, k: Double)
    requires a < b && !Add(Fin(b), k).NaN?
    ensures !Add(Fin(a), k).NaN? && Le(Add(Fin(a), k), Add(Fin(b), k))
  {
  }

  /** The label (new distance, `e`) for the target of `e` keeps the graph side and improves it. */
  lemma Adopt<V>(g: Graph<V>, w: Edge<V> -> real, s: V, dist: map<V, real>, previous: map<V, Edge<V>>,
                 snap: map<V, seq<Edge<V>>>, e: Edge<V>, nd: real)
    requires WellFormed(g) && Tracked(g.edges, w, s, dist, previous, snap) && e in g.edges && e.source in dist
    requires 0.0 <= w(e) && nd == dist[e.source] + w(e) && (e.target !in dist || nd < dist[e.target])
    ensures e.target != s && e.target != e.source
    ensures Tracked(g.edges, w, s, dist[e.target := nd], previous[e.target := e], snap[e.target := snap[e.source] + [e]])
    ensures Lowered(dist[e.target := nd], dist)
    ensures Candidates(g, w, s, dist[e.target := nd]) < Candidates(g, w, s, dist)
  {
    Improve(g, w, s, dist, snap, e, nd);
    var p := snap[e.source] + [e];
    assert p[|p| - 1] == e;
  }

  /** The books after a fresh node for `adj` joined the heap with its priority. */
  lemma BooksEnter<V>(heap: FibonacciHeap<V>, prio: map<Node<V>, Double>, members: set<Node<V>>,
                      hn: map<V, Node<V>>, dist: map<V, real>, source: V, start: Double, key: V -> Double,
                      adj: V, n: Node<V>, d: real)
    requires heap.Valid() && heap.checked && heap.prio == prio[n := Add(Fin(d), key(adj))]
    requires heap.Members() == members + {n}
    requires Ledger(heap, prio, members, hn, dist, source, start, key) && Flags(hn, members)
    requires adj != source && (adj in hn ==> hn[adj] !in members) && !Add(Fin(d), key(adj)).NaN?
    requires n !in members && n !in Handles(hn) && n.value == adj && n.creator == heap && !n.dequeued
    ensures Books(heap, hn[adj := n], dist[adj := d], source, start, key)
  {
    var hn', dist' := hn[adj := n], dist[adj := d];
    forall v | v in hn
      ensures hn[v] != n
    {
      assert hn[v] in Handles(hn);
    }
    forall m | m in heap.Members()
      ensures m.value in hn' && hn'[m.value] == m
    {
      if m != n {
        assert m.value != adj;
      }
    }
  }

  /** The books after the node of `adj`, still in the heap, took the lower distance `d`. */
  lemma BooksLower<V>(heap: FibonacciHeap<V>, prio: map<Node<V>, Double>, members: set<Node<V>>,
                      hn: map<V, Node<V>>, dist: map<V, real>, source: V, start: Double, key: V -> Double,
                      adj: V, d: real)
    requires heap.Valid() && heap.checked && adj in hn && heap.prio == prio[hn[adj] := Add(Fin(d), key(adj))]
    requires heap.Members() == members && hn[adj] in members
    requires Ledger(heap, prio, members, hn, dist, source, start, key) && Flags(hn, members)
    requires adj != source && !Add(Fin(d), key(adj)).NaN?
    ensures Books(heap, hn, dist[adj := d], source, start, key)
  {
  }

  /** enqueue of a vertex without a node in the heap: a fresh node, or IllegalArgumentException for a NaN priority. */
  method Enter<V>(heap: FibonacciHeap<V>, hn: map<V, Node<V>>, ghost dist: map<V, real>, ghost source: V,
                  ghost start: Double, ghost key: V -> Double, adj: V, p: Double, ghost d: real)
    returns (ok: bool, hn': map<V, Node<V>>)
    requires Books(heap, hn, dist, source, start, key) && adj != source && p == Add(Fin(d), key(adj))
    requires adj in hn ==> hn[adj].dequeued
    modifies heap
    ensures ok <==> !p.NaN?
    ensures ok ==> Books(heap, hn', dist[adj := d], source, start, key)
    ensures forall m | m in heap.Members() :: m in old(heap.Members()) || fresh(m)
    ensures ok ==> Queued(heap.Members()) == Queued(old(heap.Members())) + {adj}
  {
    ghost var prio, members := heap.prio, heap.Members();
    var r := heap.Enqueue(adj, p);
    if r.Err? {
      return false, hn;
    }
    hn' := hn[adj := r.value];
    BooksEnter(heap, prio, members, hn, dist, source, start, key, adj, r.value, d);
    QueuedAdd(members, r.value);
    ok := true;
  }

  /** decreaseKey of the node of a vertex still in the heap, to its lower distance plus its key: it never throws. */
  method Lower<V>(heap: FibonacciHeap<V>, hn: map<V, Node<V>>, ghost dist: map<V, real>, ghost source: V,
                  ghost start: Double, ghost key: V -> Double, adj: V, p: Double, ghost d: real)
    requires Books(heap, hn, dist, source, start, key) && adj in hn && !hn[adj].dequeued && adj != source
    requires p == Add(Fin(d), key(adj)) && d < dist[adj]
    modifies heap
    ensures Books(heap, hn, dist[adj := d], source, start, key) && heap.Members() == old(heap.Members())
    ensures Queued(heap.Members()) == Queued(old(heap.Members())) + {adj}
  {
    ghost var prio, members := heap.prio, heap.Members();
    var n := hn[adj];
    AddBelow(d, dist[adj], key(adj));
    Decrease(heap, hn, n, p);
    BooksLower(heap, prio, members, hn, dist, source, start, key, adj, d);
    assert n in members;
  }

  /** decreaseKey of a node of this heap, still in it, to a priority not above its own: it never throws. */
  method Decrease<V>(heap: FibonacciHeap<V>, hn: map<V, Node<V>>, n: Node<V>, p: Double)
    requires heap.Valid() && heap.checked && Flags(hn, heap.Members()) && n.creator == heap
    requires n in heap.Members() && !p.NaN? && Le(p, P(heap.prio, n))
    modifies heap
    ensures heap.Valid() && heap.checked && Flags(hn, heap.Members())
    ensures heap.prio == old(heap.prio)[n := p] && heap.Members() == old(heap.Members())
  {
    var outcome := heap.DecreaseKey(n, p);
    assert outcome == Pass;
  }

  /**
   * The heap side of an improvement of `adj` to distance `d`: a fresh node
   * when `adj` has none in the heap, a decreased key otherwise.
   */
  method Store<V>(heap: FibonacciHeap<V>, hn: map<V, Node<V>>, ghost dist: map<V, real>, ghost source: V,
                  ghost start: Double, ghost key: V -> Double, adj: V, p: Double, ghost d: real)
    returns (ok: bool, hn': map<V, Node<V>>)
    requires Books(heap, hn, dist, source, start, key) && adj != source && p == Add(Fin(d), key(adj))
    requires adj in dist ==> d < dist[adj]
    modifies heap
    ensures ok <==> !p.NaN?
    ensures ok ==> Books(heap, hn', dist[adj := d], source, start, key)
    ensures forall m | m in heap.Members() :: m in old(heap.Members()) || fresh(m)
    ensures ok ==> Queued(heap.Members()) == Queued(old(heap.Members())) + {adj}
  {
    if adj !in hn || hn[adj].dequeued {
      ok, hn' := Enter(heap, hn, dist, source, start, key, adj, p, d);
    } else {
      AddBelow(d, dist[adj], key(adj));
      Lower(heap, hn, dist, source, start, key, adj, p, d);
      ok, hn' := true, hn;
    }
  }

  /** The throw `o` is due to `e`: a negative weight, or a NaN key for its target. */
  ghost predicate Faulty<V>(w: Edge<V> -> real, key: V -> Double, negative: Failure, o: Outcome, e: Edge<V>) {
    o.Fail? && ((o.error == negative && w(e) < 0.0) || (o.error == IllegalArgument && key(e.target).NaN?))
  }

  /**
   * The improvement of the target of `e` to the distance `nd` it offers:
   * the new label, `e` as its edge, and a fresh node or a lower key; a NaN
   * priority throws IllegalArgumentException.
   */
  method Better<V>(g: Graph<V>, w: Edge<V> -> real, source: V, ghost start: Double, key: V -> Double,
                   heap: FibonacciHeap<V>, e: Edge<V>, nd: real, hn: map<V, Node<V>>, dist: map<V, real>,
                   previous: map<V, Edge<V>>, ghost snap: map<V, seq<Edge<V>>>)
    returns (ok: bool, hn': map<V, Node<V>>, dist': map<V, real>, previous': map<V, Edge<V>>,
             ghost snap': map<V, seq<Edge<V>>>)
    requires WellFormed(g) && e in g.edges && e.source in dist
    requires 0.0 <= w(e) && nd == dist[e.source] + w(e) && (e.target !in dist || nd < dist[e.target])
    requires Books(heap, hn, dist, source, start, key) && Tracked(g.edges, w, source, dist, previous, snap)
    modifies heap
    ensures e.target != e.source
    ensures ok <==> !key(e.target).NaN?
    ensures forall m | m in heap.Members() :: m in old(heap.Members()) || fresh(m)
    ensures ok ==> dist' == dist[e.target := nd] && Lowered(dist', dist)
    ensures ok ==> Books(heap, hn', dist', source, start, key) && Tracked(g.edges, w, source, dist', previous', snap')
    ensures ok ==> Improved(g, w, source, dist, dist', e.target, Queued(old(heap.Members())), Queued(heap.Members()))
  {
    var adj := e.target;
    Adopt(g, w, source, dist, previous, snap, e, nd);
    ok, hn' := Store(heap, hn, dist, source, start, key, adj, Add(Fin(nd), key(adj)), nd);
    dist' := dist[adj := nd];
    previous' := previous[adj := e];
    snap' := snap[adj := snap[e.source] + [e]];
  }

  /**
   * One out-edge `e` of the vertex `cur` being scanned. A negative weight
   * throws `negative`. A target never met, or one whose distance the edge
   * beats strictly, is improved (Better).
   */
  method Relax<V>(g: Graph<V>, w: Edge<V> -> real, source: V, ghost start: Double, key: V -> Double, negative: Failure,
                  heap: FibonacciHeap<V>, cur: V, e: Edge<V>, hn: map<V, Node<V>>, dist: map<V, real>,
                  previous: map<V, Edge<V>>, ghost snap: map<V, seq<Edge<V>>>)
    returns (o: Outcome, hn': map<V, Node<V>>, dist': map<V, real>, previous': map<V, Edge<V>>,
             ghost snap': map<V, seq<Edge<V>>>)
    requires WellFormed(g) && e in g.edges && e.source == cur && cur in dist
    requires Books(heap, hn, dist, source, start, key) && Tracked(g.edges, w, source, dist, previous, snap)
    modifies heap
    ensures o.Fail? ==> Faulty(w, key, negative, o, e)
    ensures o.Pass? ==> 0.0 <= w(e) && Books(heap, hn', dist', source, start, key)
    ensures o.Pass? ==> Tracked(g.edges, w, source, dist', previous', snap')
    ensures forall m | m in heap.Members() :: m in old(heap.Members()) || fresh(m)
    ensures o.Pass? ==> Lowered(dist', dist) && cur in dist' && dist'[cur] == dist[cur]
    ensures o.Pass? ==> e.target in dist' && dist'[e.target] <= dist'[cur] + w(e)
    ensures o.Pass? ==> || (dist' == dist && heap.Members() == old(heap.Members()))
                        || Improved(g, w, source, dist, dist', e.target, Queued(old(heap.Members())), Queued(heap.Members()))
  {
    if w(e) < 0.0 {
      return Fail(negative), hn, dist, previous, snap;
    }
    var adj := e.target;
    var newDistance := dist[cur] + w(e);
    if adj !in hn || newDistance < dist[adj] {
      var ok;
      ok, hn', dist', previous', snap' := Better(g, w, source, start, key, heap, e, newDistance, hn, dist, previous, snap);
      o := if ok then Pass else Fail(IllegalArgument);
    } else {
      o, hn', dist', previous', snap' := Pass, hn, dist, previous, snap;
    }
  }

  /**
   * The invariant of the scan of `cur`, which started from `dist0`: the
   * graph side holds, labels only went down, `cur` keeps its label, every
   * vertex met other than `cur` is waiting in the heap or done, and the
   * edges in `done` lead to labels they cannot beat.
   */
  ghost predicate Scanning<V>(es: set<Edge<V>>, w: Edge<V> -> real, s: V, cur: V, dist0: map<V, real>,
                              dist: map<V, real>, previous: map<V, Edge<V>>, snap: map<V, seq<Edge<V>>>,
                              queued: set<V>, done: set<Edge<V>>) {
    && Tracked(es, w, s, dist, previous, snap) && queued <= dist.Keys
    && cur in dist0 && cur in dist && dist[cur] == dist0[cur] && Lowered(dist, dist0)
    && Waiting(es, w, dist, queued, Some(cur))
    && forall e | e in done :: e.target in dist && dist[e.target] <= dist[cur] + w(e)
  }

  /**
   * Since the scan began from `dist0` with the nodes `members0` in the heap:
   * either nothing changed or fewer walks can still improve a label.
   */
  ghost predicate Moved<V>(g: Graph<V>, w: Edge<V> -> real, s: V, dist0: map<V, real>, members0: set<Node<V>>,
                           dist: map<V, real>, members: set<Node<V>>) {
    (dist == dist0 && members == members0) || Candidates(g, w, s, dist) < Candidates(g, w, s, dist0)
  }

  /** Since the scan began: no vertex left the heap and every new label is in it. */
  ghost predicate Grown<V>(dist0: map<V, real>, q0: set<V>, dist: map<V, real>, q: set<V>) {
    q0 <= q && dist.Keys <= dist0.Keys + q
  }

  /** The relaxation of one more out-edge `e` of `cur` inside the scan, which began from `dist0` and `members0`. */
  method Step<V>(g: Graph<V>, w: Edge<V> -> real, source: V, ghost start: Double, key: V -> Double, negative: Failure,
                 heap: FibonacciHeap<V>, cur: V, e: Edge<V>, hn: map<V, Node<V>>, ghost dist0: map<V, real>,
                 ghost members0: set<Node<V>>, dist: map<V, real>, previous: map<V, Edge<V>>,
                 ghost snap: map<V, seq<Edge<V>>>, ghost done: set<Edge<V>>)
    returns (o: Outcome, hn': map<V, Node<V>>, dist': map<V, real>, previous': map<V, Edge<V>>,
             ghost snap': map<V, seq<Edge<V>>>)
    requires WellFormed(g) && e in g.edges && e.source == cur
    requires Books(heap, hn, dist, source, start, key)
    requires Scanning(g.edges, w, source, cur, dist0, dist, previous, snap, Queued(heap.Members()), done)
    requires Moved(g, w, source, dist0, members0, dist, heap.Members())
    requires Grown(dist0, Queued(members0), dist, Queued(heap.Members()))
    modifies heap
    ensures o.Fail? ==> Faulty(w, key, negative, o, e)
    ensures forall m | m in heap.Members() :: m in old(heap.Members()) || fresh(m)
    ensures o.Pass? ==> Books(heap, hn', dist', source, start, key)
    ensures o.Pass? ==> Scanning(g.edges, w, source, cur, dist0, dist', previous', snap', Queued(heap.Members()), done + {e})
    ensures o.Pass? ==> Moved(g, w, source, dist0, members0, dist', heap.Members())
    ensures o.Pass? ==> Grown(dist0, Queued(members0), dist', Queued(heap.Members()))
  {
    ghost var members := heap.Members();
    o, hn', dist', previous', snap' := Relax(g, w, source, start, key, negative, heap, cur, e, hn, dist, previous, snap);
    if o.Pass? {
      Known(heap, hn', dist', source, start, key);
      Stepped(g, w, source, cur, e, dist0, dist, previous, snap, dist', previous', snap', Queued(members),
              Queued(heap.Members()), done);
      if !(dist' == dist && heap.Members() == members) {
        LazySearches.Shrunk(Candidates(g, w, source, dist0), Candidates(g, w, source, dist), Candidates(g, w, source, dist'));
      }
    }
  }

  /** What one relaxation leaves keeps the scan's invariant, one edge further. */
  lemma Stepped<V>(g: Graph<V>, w: Edge<V> -> real, s: V, cur: V, e: Edge<V>, dist0: map<V, real>,
                   dist: map<V, real>, previous: map<V, Edge<V>>, snap: map<V, seq<Edge<V>>>,
                   dist': map<V, real>, previous': map<V, Edge<V>>, snap': map<V, seq<Edge<V>>>,
                   q: set<V>, q': set<V>, done: set<Edge<V>>)
    requires Scanning(g.edges, w, s, cur, dist0, dist, previous, snap, q, done)
    requires Tracked(g.edges, w, s, dist', previous', snap') && q' <= dist'.Keys
    requires Lowered(dist', dist) && cur in dist' && dist'[cur] == dist[cur]
    requires e.target in dist' && dist'[e.target] <= dist'[cur] + w(e)
    requires (dist' == dist && q' == q) || Improved(g, w, s, dist, dist', e.target, q, q')
    ensures Scanning(g.edges, w, s, cur, dist0, dist', previous', snap', q', done + {e})
  {
    if !(dist' == dist && q' == q) {
      LazySearches.WaitingStep(g.edges, w, dist, dist', q, q', Some(cur), e.target);
    }
  }

  /**
   * The scan of the out-edges `out` of `cur`, in the hash set's order
   * (unspecified here). Every vertex met is afterwards waiting in the heap
   * or done, `cur` included; every vertex that got a label is in the heap.
   */
  method Scan<V>(g: Graph<V>, w: Edge<V> -> real, source: V, ghost start: Double, key: V -> Double, negative: Failure,
                 heap: FibonacciHeap<V>, cur: V, out: set<Edge<V>>, hn: map<V, Node<V>>, dist: map<V, real>,
                 previous: map<V, Edge<V>>, ghost snap: map<V, seq<Edge<V>>>)
    returns (o: Outcome, hn': map<V, Node<V>>, dist': map<V, real>, previous': map<V, Edge<V>>,
             ghost snap': map<V, seq<Edge<V>>>)
    requires WellFormed(g) && cur in dist && out == Out(g.edges, cur)
    requires Books(heap, hn, dist, source, start, key) && Tracked(g.edges, w, source, dist, previous, snap)
    requires Waiting(g.edges, w, dist, Queued(heap.Members()), Some(cur))
    modifies heap
    ensures o.Fail? ==> exists e | e in out :: Faulty(w, key, negative, o, e)
    ensures o.Pass? ==> Books(heap, hn', dist', source, start, key) && Tracked(g.edges, w, source, dist', previous', snap')
    ensures forall m | m in heap.Members() :: m in old(heap.Members()) || fresh(m)
    ensures o.Pass? ==> Waiting(g.edges, w, dist', Queued(heap.Members()), None)
    ensures o.Pass? ==> Grown(dist, Queued(old(heap.Members())), dist', Queued(heap.Members()))
    ensures o.Pass? ==> Moved(g, w, source, dist, old(heap.Members()), dist', heap.Members())
  {
    o, hn', dist', previous', snap' := Pass, hn, dist, previous, snap;
    ghost var members := heap.Members();
    Known(heap, hn, dist, source, start, key);
    var todo := out;
    while todo != {}
      invariant todo <= out && o == Pass
      invariant Books(heap, hn', dist', source, start, key)
      invariant forall m | m in heap.Members() :: m in members || fresh(m)
      invariant Scanning(g.edges, w, source, cur, dist, dist', previous', snap', Queued(heap.Members()), out - todo)
      invariant Moved(g, w, source, dist, members, dist', heap.Members())
      invariant Grown(dist, Queued(members), dist', Queued(heap.Members()))
      decreases todo
    {
      var e :| e in todo;
      o, hn', dist', previous', snap' := Step(g, w, source, start, key, negative, heap, cur, e, hn', dist, members, dist',
                                             previous', snap', out - todo);
      if o.Fail? {
        assert e in out;
        return;
      }
      LazySearches.Peel(out, todo, e);
      todo := todo - {e};
    }
    Closed(g.edges, w, source, cur, dist, dist', previous', snap', Queued(heap.Members()), out);
  }

  /** Once every out-edge of `cur` is relaxed, `cur` is done too. */
  lemma Closed<V>(es: set<Edge<V>>, w: Edge<V> -> real, s: V, cur: V, dist0: map<V, real>, dist: map<V, real>,
                  previous: map<V, Edge<V>>, snap: map<V, seq<Edge<V>>>, q: set<V>, out: set<Edge<V>>)
    requires Scanning(es, w, s, cur, dist0, dist, previous, snap, q, out) && out == Out(es, cur)
    ensures Waiting(es, w, dist, q, None)
  {
    LazySearches.WaitingClose(es, w, dist, q, cur);
  }

  /** dequeueMin on a heap that is not empty: the node of least priority leaves the heap, marked dequeued. */
  method Take<V>(heap: FibonacciHeap<V>, hn: map<V, Node<V>>, ghost dist: map<V, real>, ghost source: V,
                 ghost start: Double, ghost key: V -> Double)
    returns (cur: V)
    requires Books(heap, hn, dist, source, start, key) && heap.roots != []
    modifies heap, heap.Members()
    ensures Books(heap, hn, dist, source, start, key)
    ensures heap.Members() < old(heap.Members())
    ensures Queued(old(heap.Members())) <= dist.Keys && cur in Queued(old(heap.Members()))
    ensures Queued(old(heap.Members())) <= Queued(heap.Members()) + {cur}
    ensures forall v | v in Queued(old(heap.Members())) ::
      Le(Priority(source, start, key, dist, cur), Priority(source, start, key, dist, v))
  {
    ghost var members, least, prio := heap.Members(), heap.MinNodes(), heap.prio;
    var c := Dijkstras.Pop(heap);
    cur := c.value;
    LedgerTake(heap, prio, members, hn, dist, source, start, key, c);
    forall v | v in hn
      ensures hn[v] in heap.Members() <==> !hn[v].dequeued
    {
      if v != cur {
        assert hn[v] !in least;
      }
    }
  }

  /** The ledger once the node `c`, of least priority among `members`, left them. */
  lemma LedgerTake<V>(owner: FibonacciHeap<V>, prio: map<Node<V>, Double>, members: set<Node<V>>,
                      hn: map<V, Node<V>>, dist: map<V, real>, source: V, start: Double, key: V -> Double, c: Node<V>)
    requires Ledger(owner, prio, members, hn, dist, source, start, key) && c in members
    requires forall m | m in members :: Le(P(prio, c), P(prio, m))
    ensures c.value in hn && hn[c.value] == c && c.value in Queued(members)
    ensures forall v | v in hn && v != c.value :: hn[v] != c
    ensures Ledger(owner, prio, members - {c}, hn, dist, source, start, key)
    ensures Queued(members) <= dist.Keys && Queued(members) <= Queued(members - {c}) + {c.value}
    ensures forall v | v in Queued(members) ::
      Le(Priority(source, start, key, dist, c.value), Priority(source, start, key, dist, v))
  {
    forall v | v in Queued(members)
      ensures Le(Priority(source, start, key, dist, c.value), Priority(source, start, key, dist, v))
    {
      var n :| n in members && n.value == v;
      assert Le(P(prio, c), P(prio, n));
    }
  }

  /** A throw while scanning a reached vertex is due to a negative out-edge or a NaN key. */
  lemma Blame<V>(g: Graph<V>, w: Edge<V> -> real, source: V, key: V -> Double, negative: Failure, o: Outcome,
                 dist: map<V, real>, snap: map<V, seq<Edge<V>>>, cur: V, out: set<Edge<V>>)
    requires WellFormed(g) && Tentative(g.edges, w, source, dist, snap) && cur in dist && out == Out(g.edges, cur)
    requires exists e | e in out :: Faulty(w, key, negative, o, e)
    ensures (o.error == negative && LazySearches.NegativeOut(g.edges, w, source, true))
         || (o.error == IllegalArgument && LazySearches.NaNKey(g.edges, source, key))
  {
    var e :| e in out && Faulty(w, key, negative, o, e);
    InGraph(g, w, source, dist, snap, cur);
  }

  /**
   * The vertex `t` left the heap holding `queued` with the least priority,
   * and every vertex with a label was then waiting in the heap or done.
   */
  ghost predicate Frontier<V>(es: set<Edge<V>>, w: Edge<V> -> real, s: V, dist: map<V, real>, queued: set<V>, t: V,
                              start: Double, key: V -> Double) {
    && queued <= dist.Keys && t in queued
    && Waiting(es, w, dist, queued, None)
    && forall v | v in queued :: Le(Priority(s, start, key, dist, t), Priority(s, start, key, dist, v))
  }

  /** The invariant of the search loop: both sides of the state, every label waiting or done, the stop vertex watched. */
  ghost predicate Turning<V>(g: Graph<V>, w: Edge<V> -> real, source: V, stop: Option<V>, start: Double, key: V -> Double,
                             heap: FibonacciHeap<V>, hn: map<V, Node<V>>, dist: map<V, real>, previous: map<V, Edge<V>>,
                             snap: map<V, seq<Edge<V>>>)
    reads heap, Handles(hn)
  {
    && Books(heap, hn, dist, source, start, key) && Tracked(g.edges, w, source, dist, previous, snap)
    && Waiting(g.edges, w, dist, Queued(heap.Members()), None) && Watched(stop, dist, Queued(heap.Members()))
  }

  /**
   * One turn of the search loop on a heap that is not empty: take the node
   * of least priority; stop if it is the `stop` vertex; otherwise ask the
   * graph for its out-edges, which throws NullPointerException for a vertex
   * the graph lacks (only the source can be one), and scan them. A turn
   * that goes on lowers some label or leaves the heap smaller.
   */
  method Visit<V>(g: Graph<V>, w: Edge<V> -> real, source: V, stop: Option<V>, ghost start: Double, key: V -> Double,
                  negative: Failure, heap: FibonacciHeap<V>, hn: map<V, Node<V>>, dist: map<V, real>,
                  previous: map<V, Edge<V>>, ghost snap: map<V, seq<Edge<V>>>, ghost first: bool)
    returns (o: Outcome, hn': map<V, Node<V>>, dist': map<V, real>, previous': map<V, Edge<V>>,
             ghost snap': map<V, seq<Edge<V>>>, stopped: bool)
    requires WellFormed(g) && negative != NullPointer
    requires Turning(g, w, source, stop, start, key, heap, hn, dist, previous, snap) && heap.roots != []
    requires first ==> dist.Keys == {source} && Queued(heap.Members()) == {source}
    modifies heap, heap.Members()
    ensures forall m | m in heap.Members() :: m in old(heap.Members()) || fresh(m)
    ensures o.Fail? ==> o.error == NullPointer || o.error == negative || o.error == IllegalArgument
    ensures o == Fail(NullPointer) ==> source !in g.vertices
    ensures first ==> (o == Fail(NullPointer) <==> source !in g.vertices && stop != Some(source))
    ensures first && stop == Some(source) ==> o == Pass && stopped
    ensures first && o.Pass? && !stopped ==> source in g.vertices
    ensures o.Fail? && o.error != NullPointer ==>
      || (o.error == negative && LazySearches.NegativeOut(g.edges, w, source, true))
      || (o.error == IllegalArgument && LazySearches.NaNKey(g.edges, source, key))
    ensures o.Pass? ==> Books(heap, hn', dist', source, start, key) && Tracked(g.edges, w, source, dist', previous', snap')
    ensures o.Pass? && stopped ==> stop.Some? && dist' == dist
    ensures o.Pass? && stopped ==> Frontier(g.edges, w, source, dist, old(Queued(heap.Members())), stop.value, start, key)
    ensures o.Pass? && !stopped ==> Turning(g, w, source, stop, start, key, heap, hn', dist', previous', snap')
    ensures o.Pass? && !stopped ==>
      || |Candidates(g, w, source, dist')| < |Candidates(g, w, source, dist)|
      || (dist' == dist && |heap.Members()| < old(|heap.Members()|))
  {
    ghost var members := heap.Members();
    var cur := Take(heap, hn, dist, source, start, key);
    if stop == Some(cur) {
      return Pass, hn, dist, previous, snap, true;
    }
    var out := EdgesFrom(g, cur);
    if out.None? {
      InGraph(g, w, source, dist, snap, cur);
      return Fail(NullPointer), hn, dist, previous, snap, false;
    }
    LazySearches.WaitingTake(g.edges, w, dist, Queued(members), Queued(heap.Members()), cur);
    o, hn', dist', previous', snap' := Expand(g, w, source, stop, start, key, negative, heap, cur, out.value, hn, dist,
                                             previous, snap, members);
    stopped := false;
    if first {
      InGraph(g, w, source, dist, snap, cur);
    }
  }

  /**
   * The rest of a turn that did not stop: the scan of the out-edges `out` of
   * the vertex `cur` just taken from the heap, which held `members` before.
   */
  method Expand<V>(g: Graph<V>, w: Edge<V> -> real, source: V, stop: Option<V>, ghost start: Double, key: V -> Double,
                   negative: Failure, heap: FibonacciHeap<V>, cur: V, out: set<Edge<V>>, hn: map<V, Node<V>>,
                   dist: map<V, real>, previous: map<V, Edge<V>>, ghost snap: map<V, seq<Edge<V>>>,
                   ghost members: set<Node<V>>)
    returns (o: Outcome, hn': map<V, Node<V>>, dist': map<V, real>, previous': map<V, Edge<V>>,
             ghost snap': map<V, seq<Edge<V>>>)
    requires WellFormed(g) && cur in dist && out == Out(g.edges, cur)
    requires Books(heap, hn, dist, source, start, key) && Tracked(g.edges, w, source, dist, previous, snap)
    requires Waiting(g.edges, w, dist, Queued(heap.Members()), Some(cur)) && heap.Members() < members
    requires stop != Some(cur) && Watched(stop, dist, Queued(heap.Members()) + {cur})
    modifies heap
    ensures forall m | m in heap.Members() :: m in old(heap.Members()) || fresh(m)
    ensures o.Fail? ==>
      || (o.error == negative && LazySearches.NegativeOut(g.edges, w, source, true))
      || (o.error == IllegalArgument && LazySearches.NaNKey(g.edges, source, key))
    ensures o.Pass? ==> Books(heap, hn', dist', source, start, key) && Tracked(g.edges, w, source, dist', previous', snap')
    ensures o.Pass? ==> Waiting(g.edges, w, dist', Queued(heap.Members()), None)
    ensures o.Pass? ==> Watched(stop, dist', Queued(heap.Members()))
    ensures o.Pass? ==>
      || |Candidates(g, w, source, dist')| < |Candidates(g, w, source, dist)|
      || (dist' == dist && |heap.Members()| < |members|)
  {
    ghost var taken := heap.Members();
    o, hn', dist', previous', snap' := Scan(g, w, source, start, key, negative, heap, cur, out, hn, dist, previous, snap);
    if o.Fail? {
      Blame(g, w, source, key, negative, o, dist, snap, cur, out);
      return;
    }
    if dist' == dist && heap.Members() == taken {
      Smaller(taken, members);
    } else {
      Smaller(Candidates(g, w, source, dist'), Candidates(g, w, source, dist));
    }
  }

  /**
   * The search loop, from a heap holding the source alone: it runs until
   * the heap is empty or a turn stops or throws. When it stops, `queued`
   * holds the vertices that were in the heap just before the stop vertex
   * left it. The first turn, on the source, is the one that finds out
   * whether the graph has the source.
   */
  method Run<V>(g: Graph<V>, w: Edge<V> -> real, source: V, stop: Option<V>, ghost start: Double, key: V -> Double,
                negative: Failure, heap: FibonacciHeap<V>, hn: map<V, Node<V>>, dist: map<V, real>,
                previous: map<V, Edge<V>>, ghost snap: map<V, seq<Edge<V>>>)
    returns (o: Outcome, hn': map<V, Node<V>>, dist': map<V, real>, previous': map<V, Edge<V>>,
             ghost snap': map<V, seq<Edge<V>>>, stopped: bool, ghost queued: set<V>)
    requires WellFormed(g) && negative != NullPointer
    requires Books(heap, hn, dist, source, start, key) && Tracked(g.edges, w, source, dist, previous, snap)
    requires Waiting(g.edges, w, dist, Queued(heap.Members()), None)
    requires dist.Keys == {source} && Queued(heap.Members()) == {source}
    modifies heap, heap.Members()
    ensures o.Fail? ==> o.error == NullPointer || o.error == negative || o.error == IllegalArgument
    ensures o == Fail(NullPointer) <==> source !in g.vertices && stop != Some(source)
    ensures stop == Some(source) ==> o == Pass && stopped
    ensures o.Fail? && o.error != NullPointer ==>
      || (o.error == negative && LazySearches.NegativeOut(g.edges, w, source, true))
      || (o.error == IllegalArgument && LazySearches.NaNKey(g.edges, source, key))
    ensures o.Pass? ==> Tracked(g.edges, w, source, dist', previous', snap') && hn'.Keys == dist'.Keys
    ensures o.Pass? && stopped ==> stop.Some? && Frontier(g.edges, w, source, dist', queued, stop.value, start, key)
    ensures o.Pass? && !stopped ==> Waiting(g.edges, w, dist', {}, None)
    ensures o.Pass? && !stopped ==> stop.None? || stop.value !in dist'
  {
    assert Watched(stop, dist, Queued(heap.Members()));
    assert heap.roots != [] by {
      var m :| m in heap.Members();
    }
    queued := Queued(heap.Members());
    o, hn', dist', previous', snap', stopped := Visit(g, w, source, stop, start, key, negative, heap, hn, dist, previous,
                                                      snap, true);
    if o.Fail? || stopped {
      return;
    }
    o, hn', dist', previous', snap', stopped, queued := Loop(g, w, source, stop, start, key, negative, heap, hn', dist',
                                                             previous', snap');
  }

  /** The turns after the first, on a graph that has the source, until the heap is empty or a turn stops or throws. */
  method Loop<V>(g: Graph<V>, w: Edge<V> -> real, source: V, stop: Option<V>, ghost start: Double, key: V -> Double,
                 negative: Failure, heap: FibonacciHeap<V>, hn: map<V, Node<V>>, dist: map<V, real>,
                 previous: map<V, Edge<V>>, ghost snap: map<V, seq<Edge<V>>>)
    returns (o: Outcome, hn': map<V, Node<V>>, dist': map<V, real>, previous': map<V, Edge<V>>,
             ghost snap': map<V, seq<Edge<V>>>, stopped: bool, ghost queued: set<V>)
    requires WellFormed(g) && negative != NullPointer && source in g.vertices && stop != Some(source)
    requires Turning(g, w, source, stop, start, key, heap, hn, dist, previous, snap)
    modifies heap, heap.Members()
    ensures o.Fail? ==> o.error == negative || o.error == IllegalArgument
    ensures o.Fail? ==>
      || (o.error == negative && LazySearches.NegativeOut(g.edges, w, source, true))
      || (o.error == IllegalArgument && LazySearches.NaNKey(g.edges, source, key))
    ensures o.Pass? ==> Tracked(g.edges, w, source, dist', previous', snap') && hn'.Keys == dist'.Keys
    ensures o.Pass? && stopped ==> stop.Some? && Frontier(g.edges, w, source, dist', queued, stop.value, start, key)
    ensures o.Pass? && !stopped ==> Waiting(g.edges, w, dist', {}, None)
    ensures o.Pass? && !stopped ==> stop.None? || stop.value !in dist'
  {
    o, hn', dist', previous', snap', stopped, queued := Pass, hn, dist, previous, snap, false, {};
    while !heap.IsEmpty()
      invariant o == Pass && !stopped
      invariant forall m | m in heap.Members() :: m in old(heap.Members()) || fresh(m)
      invariant Turning(g, w, source, stop, start, key, heap, hn', dist', previous', snap')
      decreases |Candidates(g, w, source, dist')|, |heap.Members()|
    {
      queued := Queued(heap.Members());
      o, hn', dist', previous', snap', stopped := Visit(g, w, source, stop, start, key, negative, heap, hn', dist', previous',
                                                        snap', false);
      if o.Fail? || stopped {
        return;
      }
    }
    assert heap.Members() == {} && Queued(heap.Members()) == {};
  }

  /** The source alone, with distance 0 and the empty walk, keeps the graph side. */
  lemma Initial<V>(es: set<Edge<V>>, w: Edge<V> -> real, s: V)
    ensures Tracked(es, w, s, map[s := 0.0], map[], map[s := []])
    ensures Waiting(es, w, map[s := 0.0], {s}, None)
  {
    var p: seq<Edge<V>> := [];
    assert p[..0] == p;
    assert Recorded(es, w, s, map[s := 0.0], p, s);
  }

  /**
   * The search from a new heap holding the source's node with priority
   * `start`. When it ran to an empty heap, the distances are the least walk
   * weights and the labelled vertices exactly those the source reaches;
   * when it stopped, the stop vertex left the heap first among the
   * vertices in `queued`.
   */
  method Search<V>(g: Graph<V>, w: Edge<V> -> real, source: V, stop: Option<V>, start: Double, key: V -> Double,
                   negative: Failure)
    returns (o: Outcome, hn: map<V, Node<V>>, dist: map<V, real>, previous: map<V, Edge<V>>,
             ghost snap: map<V, seq<Edge<V>>>, stopped: bool, ghost queued: set<V>)
    requires WellFormed(g) && negative != NullPointer
    ensures o.Fail? ==> o.error == NullPointer || o.error == negative || o.error == IllegalArgument
    ensures o == Fail(NullPointer) <==> !start.NaN? && source !in g.vertices && stop != Some(source)
    ensures !start.NaN? && stop == Some(source) ==> o == Pass && stopped
    ensures o.Fail? && o.error != NullPointer ==>
      || (o.error == negative && LazySearches.NegativeOut(g.edges, w, source, true))
      || (o.error == IllegalArgument && (start.NaN? || LazySearches.NaNKey(g.edges, source, key)))
    ensures start.NaN? ==> o == Fail(IllegalArgument)
    ensures o.Pass? ==> Tracked(g.edges, w, source, dist, previous, snap) && hn.Keys == dist.Keys
    ensures o.Pass? && stopped ==> stop.Some? && Frontier(g.edges, w, source, dist, queued, stop.value, start, key)
    ensures o.Pass? && !stopped ==> stop.None? || stop.value !in dist
    ensures o.Pass? && !stopped ==> forall t :: Exact(g.edges, w, source, t, if t in dist then Fin(dist[t]) else PosInf)
  {
    var heap := new FibonacciHeap<V>(true);
    var r := heap.Enqueue(source, start);
    if r.Err? {
      return Fail(IllegalArgument), map[], map[], map[], map[], false, {};
    }
    hn, dist, previous, snap := map[source := r.value], map[source := 0.0], map[], map[source := []];
    Initial(g.edges, w, source);
    assert Queued(heap.Members()) == {source};
    o, hn, dist, previous, snap, stopped, queued := Run(g, w, source, stop, start, key, negative, heap, hn, dist, previous, snap);
    if o.Pass? && !stopped {
      forall t
        ensures Exact(g.edges, w, source, t, if t in dist then Fin(dist[t]) else PosInf)
      {
        Settled(g.edges, w, source, dist, snap, t);
      }
    }
  }

  /**
   * A vertex other than the source has its recorded edge, which enters it
   * from a labelled vertex ranked lower, whose label plus the edge's weight
   * is at most its own.
   */
  lemma Back<V>(g: Graph<V>, w: Edge<V> -> real, s: V, dist: map<V, real>, previous: map<V, Edge<V>>,
                snap: map<V, seq<Edge<V>>>, v: V)
    requires WellFormed(g) && Tracked(g.edges, w, s, dist, previous, snap) && v in dist && v != s
    ensures v in previous && previous[v] in g.edges && previous[v].target == v
    ensures var u := previous[v].source;
      && u in dist && u != v && dist[u] + w(previous[v]) <= dist[v]
      && Ranks(g, dist, snap)[u] < Ranks(g, dist, snap)[v]
  {
    var p := snap[v];
    assert Recorded(g.edges, w, s, dist, p, v) && Hangs(w, dist, snap, v, p[|p| - 1]);
    PathUnsnoc(g.edges, s, p, v);
    Descend(g, w, s, dist, snap, v);
  }

  /**
   * The Java path reconstruction: from the target, push the recorded edge
   * and move to its source until the source is reached. The edges form a
   * walk from the source to the target no heavier than the target's label.
   */
  method Unwind<V>(g: Graph<V>, w: Edge<V> -> real, source: V, target: V, dist: map<V, real>,
                   previous: map<V, Edge<V>>, ghost snap: map<V, seq<Edge<V>>>)
    returns (edges: seq<Edge<V>>)
    requires WellFormed(g) && Tracked(g.edges, w, source, dist, previous, snap) && target in dist
    ensures IsPath(g.edges, source, edges, target) && Weight(w, edges) <= dist[target]
    ensures target == source ==> edges == []
  {
    ghost var rank := Ranks(g, dist, snap);
    var cur := target;
    edges := [];
    while cur != source
      invariant target == source ==> cur == target && edges == []
      invariant cur in dist && IsPath(g.edges, cur, edges, target) && dist[cur] + Weight(w, edges) <= dist[target]
      decreases rank[cur]
    {
      Back(g, w, source, dist, previous, snap, cur);
      var curEdge := previous[cur];
      PathCons(g.edges, curEdge, edges, target);
      assert ([curEdge] + edges)[1..] == edges;
      edges := [curEdge] + edges;
      cur := curEdge.source;
    }
  }

  /**
   * The Kotlin path reconstruction: the same walk back, but each step goes
   * to the endpoint of the recorded edge other than the current vertex
   * (always its source: a recorded edge is never a loop). The null return
   * for a missing edge never happens: every labelled vertex other than the
   * source has a recorded edge.
   */
  method UnwindKotlin<V>(g: Graph<V>, w: Edge<V> -> real, source: V, target: V, dist: map<V, real>,
                         previous: map<V, Edge<V>>, ghost snap: map<V, seq<Edge<V>>>)
    returns (edges: seq<Edge<V>>)
    requires WellFormed(g) && Tracked(g.edges, w, source, dist, previous, snap) && target in dist
    ensures IsPath(g.edges, source, edges, target) && Weight(w, edges) <= dist[target]
    ensures target == source ==> edges == []
  {
    ghost var rank := Ranks(g, dist, snap);
    var current := target;
    edges := [];
    while current != source
      invariant target == source ==> current == target && edges == []
      invariant current in dist && IsPath(g.edges, current, edges, target) && dist[current] + Weight(w, edges) <= dist[target]
      decreases rank[current]
    {
      Back(g, w, source, dist, previous, snap, current);
      var curEdge := previous[current];
      PathCons(g.edges, curEdge, edges, target);
      assert ([curEdge] + edges)[1..] == edges;
      edges := [curEdge] + edges;
      current := if curEdge.source == current then curEdge.target else curEdge.source;
    }
  }

  /**
   * findShortestPath of the newer Java copy, with the node's distance
   * refreshed on every improvement. It throws NullPointerException exactly
   * when the source is not a vertex, IllegalArgumentException only for a
   * negative out-edge of a reached vertex or a NaN priority, returns null
   * exactly when the target cannot be reached, and otherwise a path record
   * from the source to the target whose edges are a walk of least weight.
   */
  method FindShortestPath<V>(g: Graph<V>, w: Edge<V> -> real, source: V, target: V, heuristic: (V, V) -> Double)
    returns (r: Result<Option<SimplePath<V>>>)
    requires WellFormed(g)
    ensures r.Err? ==> r.error == NullPointer || r.error == IllegalArgument
    ensures r == Err(NullPointer) <==> source !in g.vertices
    ensures r == Err(IllegalArgument) ==>
      || LazySearches.NegativeOut(g.edges, w, source, true)
      || LazySearches.NaNKey(g.edges, source, v => heuristic(v, target))
    ensures r == Ok(None) <==> r.Ok? && !Reachable(g.edges, source, target)
    ensures r.Ok? && r.value.Some? ==> Answers(g.edges, w, source, target, r.value.value)
  {
    var o, hn, dist, previous, snap, stopped, queued :=
      Search(g, w, source, None, Fin(0.0), v => heuristic(v, target), IllegalArgument);
    if o.Fail? {
      return Err(o.error);
    }
    if target !in hn {
      assert Exact(g.edges, w, source, target, PosInf);
      return Ok(None);
    }
    var edges := Unwind(g, w, source, target, dist, previous, snap);
    assert Exact(g.edges, w, source, target, Fin(dist[target]));
    r := Ok(Some(SimplePath(source, target, Some(edges))));
  }

  /**
   * The heuristic never overestimates on the vertices `vs`: each value is a
   * number at least 0 and at most the weight of every walk from its vertex
   * to `t`.
   */
  ghost predicate Admissible<V>(es: set<Edge<V>>, w: Edge<V> -> real, h: V -> Double, t: V, vs: set<V>) {
    forall v | v in vs :: h(v).Fin? && 0.0 <= h(v).r && forall q | IsPath(es, v, q, t) :: h(v).r <= Weight(w, q)
  }

  /** Some vertex in `queued` has a walk to `t` that, added to its label, weighs at most `bound`. */
  ghost predicate Ahead<V>(es: set<Edge<V>>, w: Edge<V> -> real, dist: map<V, real>, queued: set<V>, t: V, bound: real) {
    exists y, r | y in queued && IsPath(es, y, r, t) :: y in dist && dist[y] + Weight(w, r) <= bound
  }

  /**
   * Following a walk from a vertex labelled at most `acc`: either its end
   * has a label at most `acc` plus the walk's weight, or some vertex on it
   * waits in the heap with a label that, plus the weight of the rest of the
   * walk, is at most that much.
   */
  lemma {:induction false} Sweep<V>(es: set<Edge<V>>, w: Edge<V> -> real, dist: map<V, real>, queued: set<V>,
                                    x: V, q: seq<Edge<V>>, t: V, acc: real)
    requires Waiting(es, w, dist, queued, None) && queued <= dist.Keys
    requires x in dist && dist[x] <= acc && IsPath(es, x, q, t)
    ensures (t in dist && dist[t] <= acc + Weight(w, q)) || Ahead(es, w, dist, queued, t, acc + Weight(w, q))
    decreases |q|
  {
    if x in queued {
      assert x in queued && IsPath(es, x, q, t) && x in dist && dist[x] + Weight(w, q) <= acc + Weight(w, q);
    } else if q != [] {
      var e := q[0];
      assert Done(es, w, dist, x);
      Sweep(es, w, dist, queued, e.target, q[1..], t, acc + w(e));
    }
  }

  /**
   * When the target leaves the heap first under an admissible heuristic,
   * its label is at most the weight of every walk to it.
   */
  lemma Optimal<V>(g: Graph<V>, w: Edge<V> -> real, s: V, dist: map<V, real>, snap: map<V, seq<Edge<V>>>,
                   queued: set<V>, t: V, key: V -> Double, p: seq<Edge<V>>)
    requires WellFormed(g) && Tentative(g.edges, w, s, dist, snap) && Frontier(g.edges, w, s, dist, queued, t, key(s), key)
    requires Admissible(g.edges, w, key, t, g.vertices + {s}) && IsPath(g.edges, s, p, t)
    ensures dist[t] <= Weight(w, p)
  {
    var es := g.edges;
    Sweep(es, w, dist, queued, s, p, t, 0.0);
    if Ahead(es, w, dist, queued, t, 0.0 + Weight(w, p)) {
      var y, r :| y in queued && IsPath(es, y, r, t) && y in dist && dist[y] + Weight(w, r) <= 0.0 + Weight(w, p);
      InGraph(g, w, s, dist, snap, y);
      InGraph(g, w, s, dist, snap, t);
      assert Le(Priority(s, key(s), key, dist, t), Priority(s, key(s), key, dist, y));
      assert key(y).r <= Weight(w, r);
      assert 0.0 <= key(t).r;
    }
  }

  /**
   * perform of the Kotlin object, for a source the graph has (or equal to
   * the target, when the graph is never asked). A negative weight fails
   * the check with IllegalStateException; a NaN priority makes enqueue
   * throw IllegalArgumentException. It returns null exactly when the target
   * cannot be reached; otherwise a path record of a walk from the source to
   * the target, of least weight when the heuristic is admissible, whose
   * distance is +infinity when source and target coincide.
   */
  method Perform<V>(g: Graph<V>, w: Edge<V> -> real, source: V, target: V, heuristic: V -> Double)
    returns (r: Result<Option<SimplePath<V>>>)
    requires WellFormed(g) && (source in g.vertices || source == target)
    ensures r.Err? ==> r.error == IllegalState || r.error == IllegalArgument
    ensures r == Err(IllegalState) ==> LazySearches.NegativeOut(g.edges, w, source, true)
    ensures r == Err(IllegalArgument) ==> heuristic(source).NaN? || LazySearches.NaNKey(g.edges, source, heuristic)
    ensures heuristic(source).NaN? ==> r == Err(IllegalArgument)
    ensures r == Ok(None) <==> r.Ok? && !Reachable(g.edges, source, target)
    ensures source == target && !heuristic(source).NaN? ==> r == Ok(Some(SimplePath(source, target, Some([]))))
    ensures r.Ok? && r.value.Some? ==> var p := r.value.value;
      && p.source == source && p.target == target && p.edges.Some? && IsPath(g.edges, source, p.edges.value, target)
      && KotlinDistance(w, p.edges.value) == (if source == target then PosInf else Fin(Weight(w, p.edges.value)))
      && (Admissible(g.edges, w, heuristic, target, g.vertices + {source}) ==>
            forall q | IsPath(g.edges, source, q, target) :: Weight(w, p.edges.value) <= Weight(w, q))
  {
    var o, hn, dist, previous, snap, stopped, queued :=
      Search(g, w, source, Some(target), heuristic(source), heuristic, IllegalState);
    if o.Fail? {
      return Err(o.error);
    }
    if !stopped {
      assert Exact(g.edges, w, source, target, PosInf);
      return Ok(None);
    }
    var edges := UnwindKotlin(g, w, source, target, dist, previous, snap);
    InGraph(g, w, source, dist, snap, target);
    if Admissible(g.edges, w, heuristic, target, g.vertices + {source}) {
      forall q | IsPath(g.edges, source, q, target)
        ensures Weight(w, edges) <= Weight(w, q)
      {
        Optimal(g, w, source, dist, snap, queued, target, heuristic, q);
      }
    }
    r := Ok(Some(SimplePath(source, target, Some(edges))));
  }
}
