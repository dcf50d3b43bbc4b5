/**
 * Dijkstra's algorithm, in both copies of the library. One settle loop
 * serves both: the source enters a Fibonacci heap with priority 0; the loop
 * dequeues the node of least priority and relaxes every out-edge of its
 * vertex, enqueueing a vertex met for the first time and decreasing the key
 * of one met again with a strictly smaller distance, and records the edge
 * that improved it. The early exit `cur.equals(target)` compares a heap node
 * with a vertex and never holds, so the loop always runs until the heap is
 * empty; the model leaves that test out.
 */
module Dijkstras {
  import opened Wrappers
  import opened Doubles
  import opened Graphs
  import opened Paths
  import opened HeapForests
  import opened FibonacciHeaps
  import opened Searches

  /** The heap nodes handed out so far. */
  ghost function Handles<V>(hn: map<V, Node<V>>): set<Node<V>> {
    set v | v in hn :: hn[v]
  }

  /**
   * The heap side of the loop state: every vertex met has its own node,
   * created by this heap, whose priority is the vertex's distance; the node
   * is in the heap, and not marked dequeued, exactly while the vertex is not
   * settled.
   */
  ghost predicate Books<V>(heap: FibonacciHeap<V>, hn: map<V, Node<V>>, dist: map<V, real>, settled: set<V>)
    reads heap, Handles(hn)
  {
    && heap.Valid()
    && Ledger(if heap.checked then heap else null, heap.prio, heap.Members(), hn, dist, settled)
    && Flags(hn, settled)
  }

  /** The node of each vertex met carries the vertex and its distance, and is a member while unsettled. */
  ghost predicate Ledger<V>(owner: FibonacciHeap?<V>, prio: map<Node<V>, Double>, members: set<Node<V>>,
                            hn: map<V, Node<V>>, dist: map<V, real>, settled: set<V>) {
    && hn.Keys == dist.Keys && settled <= hn.Keys
    && (forall v | v in hn :: hn[v].value == v && hn[v].creator == owner)
    && (forall v | v in hn :: P(prio, hn[v]) == Fin(dist[v]))
    && (forall v | v in hn :: hn[v] in members <==> v !in settled)
    && (forall m | m in members :: m.value in hn && hn[m.value] == m)
  }

  /** A node is marked dequeued exactly when its vertex is settled. */
  ghost predicate Flags<V>(hn: map<V, Node<V>>, settled: set<V>)
    reads Handles(hn)
  {
    forall v | v in hn :: hn[v].dequeued <==> v in settled
  }

  /** A vertex met for the first time gets a fresh node in the heap. */
  lemma LedgerEnqueue<V>(owner: FibonacciHeap?<V>, prio: map<Node<V>, Double>, members: set<Node<V>>,
                         hn: map<V, Node<V>>, dist: map<V, real>, settled: set<V>, adj: V, n: Node<V>, d: real)
    requires Ledger(owner, prio, members, hn, dist, settled)
    requires adj !in hn && n !in members && n !in Handles(hn) && n.value == adj && n.creator == owner
    ensures Ledger(owner, prio[n := Fin(d)], members + {n}, hn[adj := n], dist[adj := d], settled)
  {
    var hn' := hn[adj := n];
    forall v | v in hn
      ensures hn[v] != n
    {
      assert hn[v] in Handles(hn);
    }
  }

  /** A vertex met again with a smaller distance keeps its node, whose priority drops. */
  lemma LedgerDecrease<V>(owner: FibonacciHeap?<V>, prio: map<Node<V>, Double>, members: set<Node<V>>,
                          hn: map<V, Node<V>>, dist: map<V, real>, settled: set<V>, adj: V, d: real)
    requires Ledger(owner, prio, members, hn, dist, settled)
    requires adj in hn
    ensures Ledger(owner, prio[hn[adj] := Fin(d)], members, hn, dist[adj := d], settled)
  {
  }

  lemma FlagsEnqueue<V>(hn: map<V, Node<V>>, settled: set<V>, adj: V, n: Node<V>)
    requires Flags(hn, settled) && adj !in settled && !n.dequeued
    ensures Flags(hn[adj := n], settled)
  {
  }

  /** At most the entries of `v` differ between the two states of the loop. */
  ghost predicate Moved<V>(hn: map<V, Node<V>>, dist: map<V, real>, hn': map<V, Node<V>>, dist': map<V, real>, v: V) {
    && v in hn' && v in dist'
    && hn' == hn[v := hn'[v]] && dist' == dist[v := dist'[v]]
  }

  /**
   * The graph side of the loop state: the recorded edges form a tree from
   * the source along which the distances add up, every distance is at least
   * zero, settled vertices lie at most at `floor` and the others at least
   * there, and every out-edge of a settled vertex not still in `todo` has
   * been relaxed and found non-negative.
   */
  ghost predicate Settling<V>(g: Graph<V>, w: Edge<V> -> real, source: V, previous: map<V, Option<Edge<V>>>,
                              dist: map<V, real>, settled: set<V>, rank: map<V, nat>, floor: real, todo: set<Edge<V>>) {
    && source in dist && dist[source] == 0.0 && source !in previous
    && rank.Keys == dist.Keys && dist.Keys <= g.vertices + {source} && settled <= dist.Keys
    && Labelled(g.edges, previous, source, rank, w, dist)
    && (forall v | v in previous :: v in dist && previous[v].Some? && previous[v].value.source in settled)
    && (forall v | v in dist :: 0.0 <= dist[v])
    && (forall v | v in settled :: dist[v] <= floor)
    && (forall v | v in dist && v !in settled :: floor <= dist[v])
    && Relaxed(g, w, dist, settled, todo)
  }

  /** Every out-edge of a settled vertex, apart from those in `todo`, is non-negative and relaxed. */
  ghost predicate Relaxed<V>(g: Graph<V>, w: Edge<V> -> real, dist: map<V, real>, settled: set<V>, todo: set<Edge<V>>) {
    && settled <= dist.Keys
    && forall e | e in g.edges && e.source in settled && e !in todo ::
      0.0 <= w(e) && e.target in dist && dist[e.target] <= dist[e.source] + w(e)
  }

  /** Some edge of negative weight leaves a vertex the source reaches. */
  ghost predicate NegativeReachable<V>(g: Graph<V>, w: Edge<V> -> real, source: V) {
    exists e | e in g.edges && Reachable(g.edges, source, e.source) :: w(e) < 0.0
  }

  /** A recorded vertex is reached from the source. */
  lemma RecordedReachable<V>(es: set<Edge<V>>, previous: map<V, Option<Edge<V>>>, source: V, rank: map<V, nat>, v: V)
    requires Chain(es, previous, source, rank) && v in rank
    ensures Reachable(es, source, v)
  {
    BackPath(es, previous, source, rank, v);
  }

  /** Recording an improvement through an out-edge of a settled vertex keeps the graph side. */
  lemma Improve<V>(g: Graph<V>, w: Edge<V> -> real, source: V, previous: map<V, Option<Edge<V>>>, dist: map<V, real>,
                   settled: set<V>, rank: map<V, nat>, floor: real, todo: set<Edge<V>>, e: Edge<V>, d: real)
    requires WellFormed(g) && e in todo && e in g.edges && Settling(g, w, source, previous, dist, settled, rank, floor, todo)
    requires e.source in settled && dist[e.source] == floor && 0.0 <= w(e) && d == floor + w(e)
    requires e.target != source && e.target !in settled
    requires e.target in dist ==> d < dist[e.target]
    ensures Settling(g, w, source, previous[e.target := Some(e)], dist[e.target := d], settled,
                     rank[e.target := rank[e.source] + 1], floor, todo - {e})
  {
    Graft(g.edges, previous, source, rank, w, dist, settled, e, d);
    Lowered(g, w, dist, settled, todo, e, d);
  }

  /** Lowering the target of `e` to the distance through `e` leaves the other relaxed edges relaxed and relaxes `e`. */
  lemma Lowered<V>(g: Graph<V>, w: Edge<V> -> real, dist: map<V, real>, settled: set<V>, todo: set<Edge<V>>, e: Edge<V>, d: real)
    requires Relaxed(g, w, dist, settled, todo) && e.source in settled && e.target !in settled
    requires 0.0 <= w(e) && d == dist[e.source] + w(e)
    requires e.target in dist ==> d < dist[e.target]
    ensures Relaxed(g, w, dist[e.target := d], settled, todo - {e})
  {
    var dist' := dist[e.target := d];
    forall f | f in g.edges && f.source in settled && f !in todo - {e}
      ensures 0.0 <= w(f) && f.target in dist' && dist'[f.target] <= dist'[f.source] + w(f)
    {
      if f != e && f.target == e.target {
        assert dist[f.target] <= dist[f.source] + w(f);
      }
    }
  }

  /** Hanging the target of `e` below the settled source of `e` keeps the labelled tree. */
  lemma Graft<V>(es: set<Edge<V>>, previous: map<V, Option<Edge<V>>>, source: V, rank: map<V, nat>,
                 w: Edge<V> -> real, dist: map<V, real>, settled: set<V>, e: Edge<V>, d: real)
    requires Labelled(es, previous, source, rank, w, dist)
    requires forall v | v in previous :: previous[v].Some? && previous[v].value.source in settled
    requires e in es && e.source in settled && e.source in rank && e.target != source && e.target !in settled
    requires d == dist[e.source] + w(e)
    ensures Labelled(es, previous[e.target := Some(e)], source, rank[e.target := rank[e.source] + 1], w, dist[e.target := d])
  {
    var t := e.target;
    var previous', dist', rank' := previous[t := Some(e)], dist[t := d], rank[t := rank[e.source] + 1];
    forall v | v in rank' && v != source
      ensures previous'[v].Some? && previous'[v].value in es && previous'[v].value.target == v
      ensures previous'[v].value.source in rank' && rank'[previous'[v].value.source] < rank'[v]
      ensures dist'[v] == dist'[previous'[v].value.source] + w(previous'[v].value)
    {
      if v != t {
        assert previous[v].value.source != t;
      }
    }
  }

  /** An out-edge that brings no improvement is relaxed already. */
  lemma Keep<V>(g: Graph<V>, w: Edge<V> -> real, source: V, heap: FibonacciHeap<V>, hn: map<V, Node<V>>,
                previous: map<V, Option<Edge<V>>>, dist: map<V, real>,
                settled: set<V>, rank: map<V, nat>, floor: real, todo: set<Edge<V>>, e: Edge<V>, p: Double)
    requires e in todo && Settling(g, w, source, previous, dist, settled, rank, floor, todo)
    requires Books(heap, hn, dist, settled) && e.source in settled && 0.0 <= w(e)
    requires dist[e.source] == floor && p == Fin(floor + w(e))
    requires !(e.target !in hn || Lt(p, P(heap.prio, hn[e.target])))
    ensures Settling(g, w, source, previous, dist, settled, rank, floor, todo - {e})
  {
    Priced(heap, hn, dist, settled, e.target, dist[e.source] + w(e));
  }

  /** A vertex met for the first time enters the heap with its distance. */
  method Meet<V>(heap: FibonacciHeap<V>, hn: map<V, Node<V>>, ghost dist: map<V, real>, ghost settled: set<V>,
                 adj: V, p: Double, ghost d: real)
    returns (hn': map<V, Node<V>>)
    requires Books(heap, hn, dist, settled) && adj !in settled && p == Fin(d)
    requires adj in hn ==> hn[adj].dequeued
    modifies heap
    ensures Books(heap, hn', dist[adj := d], settled)
    ensures adj in hn' && hn' == hn[adj := hn'[adj]] && fresh(hn'[adj])
  {
    ghost var prio, members := heap.prio, heap.Members();
    var n := Push(heap, hn, settled, adj, p);
    hn' := hn[adj := n];
    BooksEnqueue(heap, prio, members, hn, dist, settled, adj, n, d);
  }

  /** enqueue of a vertex whose priority is a number; the nodes already met keep their flags. */
  method Push<V>(heap: FibonacciHeap<V>, hn: map<V, Node<V>>, ghost settled: set<V>, adj: V, p: Double)
    returns (n: Node<V>)
    requires heap.Valid() && Flags(hn, settled) && !p.NaN?
    modifies heap
    ensures heap.Valid() && Flags(hn, settled)
    ensures fresh(n) && n.value == adj && !n.dequeued && n.creator == (if heap.checked then heap else null)
    ensures heap.prio == old(heap.prio)[n := p] && heap.Members() == old(heap.Members()) + {n}
  {
    var r := heap.Enqueue(adj, p);
    n := r.value;
  }

  /** The books after a fresh node for `adj` joined the heap with priority `d`. */
  lemma BooksEnqueue<V>(heap: FibonacciHeap<V>, prio: map<Node<V>, Double>, members: set<Node<V>>,
                        hn: map<V, Node<V>>, dist: map<V, real>, settled: set<V>, adj: V, n: Node<V>, d: real)
    requires heap.Valid() && heap.prio == prio[n := Fin(d)] && heap.Members() == members + {n}
    requires Ledger(if heap.checked then heap else null, prio, members, hn, dist, settled) && Flags(hn, settled)
    requires adj !in settled && (adj in hn ==> hn[adj].dequeued)
    requires n !in members && n !in Handles(hn) && n.value == adj && n.creator == (if heap.checked then heap else null) && !n.dequeued
    ensures Books(heap, hn[adj := n], dist[adj := d], settled)
  {
    LedgerEnqueue(if heap.checked then heap else null, prio, members, hn, dist, settled, adj, n, d);
    FlagsEnqueue(hn, settled, adj, n);
  }

  /** A vertex met again with a smaller distance has its key decreased. */
  method Lower<V>(heap: FibonacciHeap<V>, hn: map<V, Node<V>>, ghost dist: map<V, real>, ghost settled: set<V>,
                  adj: V, p: Double, ghost d: real)
    requires Books(heap, hn, dist, settled) && adj in hn && adj !in settled && p == Fin(d) && d < dist[adj]
    modifies heap
    ensures Books(heap, hn, dist[adj := d], settled)
  {
    ghost var owner, prio, members := if heap.checked then heap else null, heap.prio, heap.Members();
    Decrease(heap, hn, settled, hn[adj], p);
    LedgerDecrease(owner, prio, members, hn, dist, settled, adj, d);
  }

  /** decreaseKey of a member node to a smaller number; the nodes already met keep their flags. */
  method Decrease<V>(heap: FibonacciHeap<V>, hn: map<V, Node<V>>, ghost settled: set<V>, n: Node<V>, p: Double)
    requires heap.Valid() && Flags(hn, settled) && n in heap.Members() && !p.NaN? && Le(p, P(heap.prio, n))
    requires n.creator == (if heap.checked then heap else null)
    modifies heap
    ensures heap.Valid() && Flags(hn, settled)
    ensures heap.prio == old(heap.prio)[n := p] && heap.Members() == old(heap.Members())
  {
    var outcome := heap.DecreaseKey(n, p);
    assert outcome == Pass;
  }

  /**
   * The heap side of an improvement: a fresh heap entry when the vertex has
   * none in the heap, a decreased key otherwise.
   */
  method Store<V>(heap: FibonacciHeap<V>, hn: map<V, Node<V>>, ghost dist: map<V, real>, ghost settled: set<V>,
                  adj: V, p: Double, ghost d: real)
    returns (hn': map<V, Node<V>>)
    requires Books(heap, hn, dist, settled) && adj !in settled && p == Fin(d)
    requires adj in dist ==> d < dist[adj]
    modifies heap
    ensures Books(heap, hn', dist[adj := d], settled)
    ensures adj in hn' && hn' == hn[adj := hn'[adj]] && (hn' == hn || fresh(hn'[adj]))
  {
    hn' := hn;
    if adj !in hn || hn[adj].dequeued {
      hn' := Meet(heap, hn, dist, settled, adj, p, d);
    } else {
      Lower(heap, hn, dist, settled, adj, p, d);
      assert hn == hn[adj := hn[adj]];
    }
  }

  /**
   * The target of `e` takes the strictly smaller distance `d` through `e`,
   * in the heap and in the tree, with `e` as its predecessor.
   */
  method Better<V>(g: Graph<V>, w: Edge<V> -> real, source: V, heap: FibonacciHeap<V>, e: Edge<V>,
                   hn: map<V, Node<V>>, previous: map<V, Option<Edge<V>>>, ghost dist: map<V, real>,
                   ghost settled: set<V>, ghost rank: map<V, nat>, ghost floor: real, ghost todo: set<Edge<V>>,
                   p: Double, ghost d: real)
    returns (hn': map<V, Node<V>>, previous': map<V, Option<Edge<V>>>, ghost dist': map<V, real>, ghost rank': map<V, nat>)
    requires WellFormed(g) && e in todo && e in g.edges
    requires Books(heap, hn, dist, settled) && Settling(g, w, source, previous, dist, settled, rank, floor, todo)
    requires e.source in settled && dist[e.source] == floor && 0.0 <= w(e) && d == floor + w(e) && p == Fin(d)
    requires e.target !in hn || Lt(p, P(heap.prio, hn[e.target]))
    modifies heap
    ensures previous' == previous[e.target := Some(e)] && dist' == dist[e.target := d]
    ensures e.target !in settled && Moved(hn, dist, hn', dist', e.target) && (hn' == hn || fresh(hn'[e.target]))
    ensures Books(heap, hn', dist', settled)
    ensures Settling(g, w, source, previous', dist', settled, rank', floor, todo - {e})
  {
    Priced(heap, hn, dist, settled, e.target, d);
    Weigh(g, w, source, previous, dist, settled, rank, floor, todo, e);
    previous' := previous[e.target := Some(e)];
    dist' := dist[e.target := d];
    rank' := rank[e.target := rank[e.source] + 1];
    Improve(g, w, source, previous, dist, settled, rank, floor, todo, e, d);
    hn' := Store(heap, hn, dist, settled, e.target, p, d);
  }

  /**
   * One out-edge `e` of the vertex just settled: a negative weight throws
   * IllegalArgumentException, any other is offered to its target.
   */
  method Relax<V>(g: Graph<V>, w: Edge<V> -> real, source: V, heap: FibonacciHeap<V>, cur: Node<V>, e: Edge<V>,
                  hn: map<V, Node<V>>, previous: map<V, Option<Edge<V>>>, ghost dist: map<V, real>,
                  ghost settled: set<V>, ghost rank: map<V, nat>, ghost floor: real, ghost todo: set<Edge<V>>)
    returns (o: Outcome, hn': map<V, Node<V>>, previous': map<V, Option<Edge<V>>>, ghost dist': map<V, real>,
             ghost rank': map<V, nat>)
    requires WellFormed(g) && e in todo && todo <= Out(g.edges, cur.value)
    requires Books(heap, hn, dist, settled) && Settling(g, w, source, previous, dist, settled, rank, floor, todo)
    requires cur.value in settled && hn[cur.value] == cur && dist[cur.value] == floor
    modifies heap
    ensures o.Fail? <==> w(e) < 0.0
    ensures o.Fail? ==> o.error == IllegalArgument
    ensures o.Pass? ==> Books(heap, hn', dist', settled)
    ensures o.Pass? ==> Settling(g, w, source, previous', dist', settled, rank', floor, todo - {e})
    ensures (hn' == hn && dist' == dist) || (e.target !in settled && Moved(hn, dist, hn', dist', e.target))
    ensures hn' == hn || fresh(hn'[e.target])
  {
    if w(e) < 0.0 {
      return Fail(IllegalArgument), hn, previous, dist, rank;
    }
    assert e.source == cur.value && e in g.edges;
    var newDistance := Add(P(heap.prio, cur), Fin(w(e)));
    hn', previous', dist', rank' := Offer(g, w, source, heap, e, hn, previous, dist, settled, rank, floor, todo, newDistance);
    o := Pass;
  }

  /**
   * A non-negative out-edge `e` of the vertex just settled: the new distance
   * through `e` replaces the target's when the target was never met or
   * strictly improves, by a fresh heap entry when the target has none in the
   * heap and by decreaseKey otherwise, and `e` is recorded as the target's
   * predecessor.
   */
  method Offer<V>(g: Graph<V>, w: Edge<V> -> real, source: V, heap: FibonacciHeap<V>, e: Edge<V>,
                  hn: map<V, Node<V>>, previous: map<V, Option<Edge<V>>>, ghost dist: map<V, real>,
                  ghost settled: set<V>, ghost rank: map<V, nat>, ghost floor: real, ghost todo: set<Edge<V>>,
                  newDistance: Double)
    returns (hn': map<V, Node<V>>, previous': map<V, Option<Edge<V>>>, ghost dist': map<V, real>,
             ghost rank': map<V, nat>)
    requires WellFormed(g) && e in todo && e in g.edges && 0.0 <= w(e)
    requires Books(heap, hn, dist, settled) && Settling(g, w, source, previous, dist, settled, rank, floor, todo)
    requires e.source in settled && dist[e.source] == floor && newDistance == Fin(floor + w(e))
    modifies heap
    ensures Books(heap, hn', dist', settled)
    ensures Settling(g, w, source, previous', dist', settled, rank', floor, todo - {e})
    ensures (hn' == hn && dist' == dist) || (e.target !in settled && Moved(hn, dist, hn', dist', e.target))
    ensures hn' == hn || fresh(hn'[e.target])
  {
    hn', previous', dist', rank' := hn, previous, dist, rank;
    var adj := e.target;
    if adj !in hn || Lt(newDistance, P(heap.prio, hn[adj])) {
      ghost var d := floor + w(e);
      hn', previous', dist', rank' := Better(g, w, source, heap, e, hn, previous, dist, settled, rank, floor, todo, newDistance, d);
    } else {
      Keep(g, w, source, heap, hn, previous, dist, settled, rank, floor, todo, e, newDistance);
    }
  }

  /** The heap side of the comparison: `x` beats the priority of `v`'s node exactly when it beats `v`'s distance. */
  lemma Priced<V>(heap: FibonacciHeap<V>, hn: map<V, Node<V>>, dist: map<V, real>, settled: set<V>, v: V, x: real)
    requires Books(heap, hn, dist, settled)
    ensures (v !in hn || Lt(Fin(x), P(heap.prio, hn[v]))) <==> (v !in dist || x < dist[v])
  {
    assert v in hn <==> v in dist;
    assert v in hn ==> P(heap.prio, hn[v]) == Fin(dist[v]);
  }

  /**
   * The tree side of the comparison: a target never met or beaten is
   * neither the source nor settled, and any other has a distance no larger
   * than the new one.
   */
  lemma Weigh<V>(g: Graph<V>, w: Edge<V> -> real, source: V, previous: map<V, Option<Edge<V>>>, dist: map<V, real>,
                 settled: set<V>, rank: map<V, nat>, floor: real, todo: set<Edge<V>>, e: Edge<V>)
    requires Settling(g, w, source, previous, dist, settled, rank, floor, todo)
    requires e.source in settled && dist[e.source] == floor && 0.0 <= w(e)
    ensures e.target !in dist || floor + w(e) < dist[e.target] ==> e.target != source && e.target !in settled
  {
  }

  /** The vertex being scanned is settled, so relaxing one of its edges leaves its entries alone. */
  lemma Carry<V>(hn: map<V, Node<V>>, dist: map<V, real>, hn': map<V, Node<V>>, dist': map<V, real>, t: V,
                 settled: set<V>, cur: Node<V>, floor: real)
    requires cur.value in settled && cur.value in hn && hn[cur.value] == cur && cur.value in dist && dist[cur.value] == floor
    requires (hn' == hn && dist' == dist) || (t !in settled && Moved(hn, dist, hn', dist', t))
    ensures cur.value in hn' && hn'[cur.value] == cur && cur.value in dist' && dist'[cur.value] == floor
  {
  }

  /**
   * The loop over the out-edges `out` of the vertex just settled, in an
   * unspecified order: it throws at the first negative edge it meets, so it
   * throws exactly when some out-edge is negative; otherwise every out-edge
   * ends relaxed.
   */
  method Scan<V>(g: Graph<V>, w: Edge<V> -> real, source: V, heap: FibonacciHeap<V>, cur: Node<V>, out: set<Edge<V>>,
                 hn: map<V, Node<V>>, previous: map<V, Option<Edge<V>>>, ghost dist: map<V, real>,
                 ghost settled: set<V>, ghost rank: map<V, nat>, ghost floor: real)
    returns (o: Outcome, hn': map<V, Node<V>>, previous': map<V, Option<Edge<V>>>, ghost dist': map<V, real>,
             ghost rank': map<V, nat>)
    requires WellFormed(g) && out == Out(g.edges, cur.value)
    requires Books(heap, hn, dist, settled) && Settling(g, w, source, previous, dist, settled, rank, floor, out)
    requires cur.value in settled && hn[cur.value] == cur && dist[cur.value] == floor
    modifies heap
    ensures o.Fail? <==> exists e | e in out :: w(e) < 0.0
    ensures o.Fail? ==> o.error == IllegalArgument
    ensures o.Pass? ==> Books(heap, hn', dist', settled)
    ensures o.Pass? ==> Settling(g, w, source, previous', dist', settled, rank', floor, {})
    ensures forall v | v in hn' :: (v in hn && hn'[v] == hn[v]) || fresh(hn'[v])
  {
    hn', previous', dist', rank' := hn, previous, dist, rank;
    var todo := out;
    while todo != {}
      invariant todo <= out
      invariant Books(heap, hn', dist', settled) && Settling(g, w, source, previous', dist', settled, rank', floor, todo)
      invariant cur.value in hn' && hn'[cur.value] == cur && cur.value in dist' && dist'[cur.value] == floor
      invariant forall v | v in hn' :: (v in hn && hn'[v] == hn[v]) || fresh(hn'[v])
      decreases todo
    {
      var e :| e in todo;
      ghost var hn0, dist0 := hn', dist';
      o, hn', previous', dist', rank' := Relax(g, w, source, heap, cur, e, hn', previous', dist', settled, rank', floor, todo);
      Carry(hn0, dist0, hn', dist', e.target, settled, cur, floor);
      if hn' != hn0 {
        forall v | v in hn'
          ensures (v in hn && hn'[v] == hn[v]) || fresh(hn'[v])
        {
          if v != e.target {
            assert v in hn0 && hn'[v] == hn0[v];
          }
        }
      }
      if o.Fail? {
        return;
      }
      todo := todo - {e};
    }
    o := Pass;
  }

  /** Dequeueing the least node settles its vertex, whose distance is least among the unsettled. */
  lemma LedgerDequeue<V>(owner: FibonacciHeap?<V>, prio: map<Node<V>, Double>, members: set<Node<V>>,
                         hn: map<V, Node<V>>, dist: map<V, real>, settled: set<V>, c: Node<V>)
    requires Ledger(owner, prio, members, hn, dist, settled) && c in members
    requires forall m | m in members :: Le(P(prio, c), P(prio, m))
    ensures c.value in hn && hn[c.value] == c && c.value !in settled
    ensures Ledger(owner, prio, members - {c}, hn, dist, settled + {c.value})
    ensures forall v | v in dist && v !in settled :: dist[c.value] <= dist[v]
  {
    forall v | v in dist && v !in settled
      ensures dist[c.value] <= dist[v]
    {
      assert hn[v] in members;
      assert Le(Fin(dist[c.value]), Fin(dist[v]));
    }
  }

  /** The heap is empty exactly when every vertex met is settled. */
  lemma Drained<V>(owner: FibonacciHeap?<V>, prio: map<Node<V>, Double>, hn: map<V, Node<V>>, dist: map<V, real>,
                   settled: set<V>)
    requires Ledger(owner, prio, {}, hn, dist, settled)
    ensures settled == dist.Keys
  {
    forall v | v in dist
      ensures v in settled
    {
      assert hn[v] !in {};
    }
  }

  /** dequeueMin on a heap that is not empty, with only what the settle loop uses of its contract. */
  method Pop<V>(heap: FibonacciHeap<V>) returns (c: Node<V>)
    requires heap.Valid() && heap.roots != []
    modifies heap, heap.MinNodes()
    ensures heap.Valid() && heap.prio == old(heap.prio) && c.dequeued
    ensures old(heap.MinNodes()) == {c} && c in old(heap.Members()) && heap.Members() == old(heap.Members()) - {c}
    ensures forall m | m in old(heap.Members()) :: Le(P(heap.prio, c), P(heap.prio, m))
  {
    var r := heap.DequeueMin();
    c := r.value;
  }

  /** The dequeue at the head of the settle loop. */
  method Take<V>(heap: FibonacciHeap<V>, hn: map<V, Node<V>>, ghost dist: map<V, real>, ghost settled: set<V>)
    returns (c: Node<V>)
    requires Books(heap, hn, dist, settled) && heap.roots != []
    modifies heap, heap.MinNodes()
    ensures c.value in hn && hn[c.value] == c && c.value !in settled
    ensures Books(heap, hn, dist, settled + {c.value})
    ensures forall v | v in dist && v !in settled :: dist[c.value] <= dist[v]
  {
    ghost var owner, prio, members := if heap.checked then heap else null, heap.prio, heap.Members();
    ghost var least := heap.MinNodes();
    c := Pop(heap);
    LedgerDequeue(owner, prio, members, hn, dist, settled, c);
    forall v | v in hn
      ensures hn[v].dequeued <==> v in settled + {c.value}
    {
      if v != c.value {
        assert hn[v] !in least && (old(hn[v].dequeued) <==> v in settled);
        assert hn[v].dequeued == old(hn[v].dequeued);
      }
    }
  }

  /** With nothing settled, only the source has a distance. */
  lemma Lone<V>(g: Graph<V>, w: Edge<V> -> real, source: V, previous: map<V, Option<Edge<V>>>, dist: map<V, real>,
                rank: map<V, nat>, floor: real)
    requires Settling(g, w, source, previous, dist, {}, rank, floor, {})
    ensures dist.Keys == {source}
  {
    forall v | v in dist
      ensures v == source
    {
      if v != source {
        assert false;
      }
    }
  }

  /** The vertex just dequeued joins the settled ones, and its out-edges become the ones to relax. */
  lemma Promote<V>(g: Graph<V>, w: Edge<V> -> real, source: V, previous: map<V, Option<Edge<V>>>, dist: map<V, real>,
                   settled: set<V>, rank: map<V, nat>, floor: real, c: V)
    requires Settling(g, w, source, previous, dist, settled, rank, floor, {}) && c in dist && c !in settled
    requires forall v | v in dist && v !in settled :: dist[c] <= dist[v]
    ensures Settling(g, w, source, previous, dist, settled + {c}, rank, dist[c], Out(g.edges, c))
  {
  }

  /**
   * The distances found: a tree of recorded edges from the source along
   * which they add up, and a distance only for vertices the source reaches.
   */
  ghost predicate Shortest<V>(g: Graph<V>, w: Edge<V> -> real, source: V, previous: map<V, Option<Edge<V>>>,
                              dist: map<V, real>, rank: map<V, nat>) {
    && source in dist && dist[source] == 0.0 && source !in previous && rank.Keys == dist.Keys
    && Labelled(g.edges, previous, source, rank, w, dist)
    && (forall v | v in dist :: Reachable(g.edges, source, v))
  }

  /** Once every vertex met is settled, the distances are shortest and no reachable edge is negative. */
  lemma Finish<V>(g: Graph<V>, w: Edge<V> -> real, source: V, previous: map<V, Option<Edge<V>>>, dist: map<V, real>,
                  settled: set<V>, rank: map<V, nat>, floor: real)
    requires Settling(g, w, source, previous, dist, settled, rank, floor, {}) && settled == dist.Keys
    ensures Shortest(g, w, source, previous, dist, rank)
    ensures forall v, p | IsPath(g.edges, source, p, v) :: v in dist && dist[v] <= Weight(w, p)
    ensures !NegativeReachable(g, w, source)
  {
    assert Feasible(g.edges, w, dist);
    forall v, p | IsPath(g.edges, source, p, v)
      ensures v in dist && dist[v] <= Weight(w, p)
    {
      FeasibleBound(g.edges, w, dist, source, p, v);
    }
    forall v | v in dist
      ensures Reachable(g.edges, source, v)
    {
      RecordedReachable(g.edges, previous, source, rank, v);
    }
    forall e | e in g.edges && Reachable(g.edges, source, e.source)
      ensures 0.0 <= w(e)
    {
      var p :| IsPath(g.edges, source, p, e.source);
      FeasibleBound(g.edges, w, dist, source, p, e.source);
    }
  }

  /**
   * One round of the settle loop: dequeue the least node, settle its vertex
   * and relax the vertex's out-edges.
   */
  method Round<V>(g: Graph<V>, w: Edge<V> -> real, source: V, heap: FibonacciHeap<V>, hn: map<V, Node<V>>,
                  previous: map<V, Option<Edge<V>>>, ghost dist: map<V, real>, ghost settled: set<V>,
                  ghost rank: map<V, nat>, ghost floor: real)
    returns (o: Outcome, hn': map<V, Node<V>>, previous': map<V, Option<Edge<V>>>, ghost dist': map<V, real>,
             ghost settled': set<V>, ghost rank': map<V, nat>, ghost floor': real)
    requires WellFormed(g) && heap.roots != []
    requires Books(heap, hn, dist, settled) && Settling(g, w, source, previous, dist, settled, rank, floor, {})
    requires source !in g.vertices ==> settled == {}
    modifies heap, heap.MinNodes()
    ensures o.Fail? ==> o.error == NullPointer || o.error == IllegalArgument
    ensures o == Fail(NullPointer) <==> source !in g.vertices
    ensures o == Fail(IllegalArgument) ==> NegativeReachable(g, w, source)
    ensures o.Pass? ==> Books(heap, hn', dist', settled') && Settling(g, w, source, previous', dist', settled', rank', floor', {})
    ensures o.Pass? ==> settled < settled'
    ensures forall v | v in hn' :: (v in hn && hn'[v] == hn[v]) || fresh(hn'[v])
  {
    var cur := Take(heap, hn, dist, settled);
    Promote(g, w, source, previous, dist, settled, rank, floor, cur.value);
    RecordedReachable(g.edges, previous, source, rank, cur.value);
    if source !in g.vertices {
      Lone(g, w, source, previous, dist, rank, floor);
    }
    settled', floor' := settled + {cur.value}, dist[cur.value];
    var edges := EdgesFrom(g, cur.value);
    if edges.None? {
      return Fail(NullPointer), hn, previous, dist, settled', rank, floor';
    }
    o, hn', previous', dist', rank' := Scan(g, w, source, heap, cur, edges.value, hn, previous, dist, settled', rank, floor');
  }

  /** A new heap holding the source alone, with priority 0. */
  method Start<V>(g: Graph<V>, w: Edge<V> -> real, source: V, checked: bool)
    returns (heap: FibonacciHeap<V>, hn: map<V, Node<V>>, previous: map<V, Option<Edge<V>>>,
             ghost dist: map<V, real>, ghost rank: map<V, nat>)
    ensures fresh(heap) && heap.checked == checked && forall v | v in hn :: fresh(hn[v])
    ensures Books(heap, hn, dist, {}) && Settling(g, w, source, previous, dist, {}, rank, 0.0, {})
  {
    heap := new FibonacciHeap(checked);
    var first := heap.Enqueue(source, Fin(0.0));
    hn, previous, dist, rank := map[source := first.value], map[], map[source := 0.0], map[source := 0];
  }

  /**
   * The settle loop itself, from the state after some rounds: while the heap
   * is not empty, one more round, then the rest of the loop; on leaving it
   * every vertex met is settled. Each call is one iteration of the loop, and
   * the shrinking set of unsettled vertices is its variant.
   */
  method Drain<V>(g: Graph<V>, w: Edge<V> -> real, source: V, heap: FibonacciHeap<V>, hn: map<V, Node<V>>,
                  previous: map<V, Option<Edge<V>>>, ghost dist: map<V, real>, ghost settled: set<V>,
                  ghost rank: map<V, nat>, ghost floor: real)
    returns (o: Outcome, hn': map<V, Node<V>>, previous': map<V, Option<Edge<V>>>, ghost dist': map<V, real>,
             ghost settled': set<V>, ghost rank': map<V, nat>, ghost floor': real)
    requires WellFormed(g)
    requires Books(heap, hn, dist, settled) && Settling(g, w, source, previous, dist, settled, rank, floor, {})
    requires source !in g.vertices ==> settled == {}
    modifies heap, Handles(hn)
    decreases |(g.vertices + {source}) - settled|
    ensures o.Fail? ==> o.error == NullPointer || o.error == IllegalArgument
    ensures o == Fail(NullPointer) <==> source !in g.vertices
    ensures o == Fail(IllegalArgument) ==> NegativeReachable(g, w, source)
    ensures o.Pass? ==> Books(heap, hn', dist', settled') && Settling(g, w, source, previous', dist', settled', rank', floor', {})
    ensures o.Pass? ==> settled' == dist'.Keys
  {
    if heap.IsEmpty() {
      Drained(if heap.checked then heap else null, heap.prio, hn, dist, settled);
      return Pass, hn, previous, dist, settled, rank, floor;
    }
    ghost var m := heap.roots[0].node;
    assert heap.MinNodes() == {m} && m in heap.Members();
    var hn1, previous1;
    ghost var dist1, settled1, rank1, floor1;
    o, hn1, previous1, dist1, settled1, rank1, floor1 := Round(g, w, source, heap, hn, previous, dist, settled, rank, floor);
    if o.Fail? {
      return o, hn1, previous1, dist1, settled1, rank1, floor1;
    }
    Shrinks(g.vertices + {source}, settled, settled1);
    o, hn', previous', dist', settled', rank', floor' := Drain(g, w, source, heap, hn1, previous1, dist1, settled1, rank1, floor1);
  }

  /**
   * Dijkstra's algorithm up to the path reconstruction, shared by both
   * copies: the source enters a new heap with priority 0 and the settle loop
   * runs until the heap is empty. Asking a graph for the out-edges of a
   * vertex it lacks throws NullPointerException, which only the source can
   * hit; a negative edge out of a settled vertex throws
   * IllegalArgumentException, and every vertex the source reaches is settled.
   */
  method Settle<V>(g: Graph<V>, w: Edge<V> -> real, source: V, checked: bool)
    returns (o: Outcome, heap: FibonacciHeap<V>, hn: map<V, Node<V>>, previous: map<V, Option<Edge<V>>>,
             ghost dist: map<V, real>, ghost rank: map<V, nat>)
    requires WellFormed(g)
    ensures fresh(heap) && heap.checked == checked
    ensures o.Fail? ==> o.error == NullPointer || o.error == IllegalArgument
    ensures o == Fail(NullPointer) <==> source !in g.vertices
    ensures o == Fail(IllegalArgument) <==> source in g.vertices && NegativeReachable(g, w, source)
    ensures o.Pass? ==> Shortest(g, w, source, previous, dist, rank)
    ensures o.Pass? ==> forall v, p | IsPath(g.edges, source, p, v) :: v in dist && dist[v] <= Weight(w, p)
    ensures o.Pass? ==> hn.Keys == dist.Keys && forall v | v in hn :: P(heap.prio, hn[v]) == Fin(dist[v])
    ensures o.Pass? ==> previous.Keys <= dist.Keys
  {
    heap, hn, previous, dist, rank := Start(g, w, source, checked);
    ghost var settled, floor;
    o, hn, previous, dist, settled, rank, floor := Drain(g, w, source, heap, hn, previous, dist, {}, rank, 0.0);
    if o.Pass? {
      Finish(g, w, source, previous, dist, settled, rank, floor);
    }
  }

  /**
   * findShortestPath of the newer copy: null when the target never got a
   * heap node, otherwise the recorded edges walked back from the target,
   * which form a path of least weight.
   */
  method ShortestPath<V>(g: Graph<V>, w: Edge<V> -> real, source: V, target: V)
    returns (r: Result<Option<SimplePath<V>>>)
    requires WellFormed(g)
    ensures r.Err? ==> r.error == NullPointer || r.error == IllegalArgument
    ensures r == Err(NullPointer) <==> source !in g.vertices
    ensures r == Err(IllegalArgument) <==> source in g.vertices && NegativeReachable(g, w, source)
    ensures r.Ok? ==> (r.value.Some? <==> Reachable(g.edges, source, target))
    ensures r.Ok? && r.value.Some? ==>
      && r.value.value.source == source && r.value.value.target == target && r.value.value.edges.Some?
      && IsPath(g.edges, source, r.value.value.edges.value, target)
    ensures r.Ok? && r.value.Some? ==>
      forall q | IsPath(g.edges, source, q, target) :: Weight(w, r.value.value.edges.value) <= Weight(w, q)
  {
    var o, heap, hn, previous, dist, rank := Settle(g, w, source, true);
    if o.Fail? {
      return Err(o.error);
    }
    if target !in hn {
      return Ok(None);
    }
    var edges := Walk(previous, source, target, g.edges, rank);
    BackWeight(g.edges, previous, source, rank, w, dist, target);
    r := Ok(Some(SimplePath(source, target, Some(edges))));
  }

  /** `previous.get(v)` of the older copy: null for a vertex without an entry. */
  function Get<V>(pred: map<V, Option<V>>, v: V): (r: Option<V>)
    ensures r.Some? <==> v in pred && pred[v].Some?
    ensures r.Some? ==> r.value == pred[v].value
  {
    if v in pred then pred[v] else None
  }

  /** The vertices of the recorded walk from the source to `v`, source-first. */
  ghost function Trail<V>(es: set<Edge<V>>, previous: map<V, Option<Edge<V>>>, source: V, rank: map<V, nat>, v: V): seq<V>
    requires Chain(es, previous, source, rank) && v in rank
  {
    Vertices(SimplePath(source, v, Some(Back(es, previous, source, rank, v)))).value
  }

  /** One step back along the trail: to the predecessor's trail, then the vertex itself. */
  lemma TrailBack<V>(es: set<Edge<V>>, previous: map<V, Option<Edge<V>>>, source: V, rank: map<V, nat>, v: V)
    requires Chain(es, previous, source, rank) && v in rank
    ensures v == source ==> Trail(es, previous, source, rank, v) == [source]
    ensures v != source ==> var u := previous[v].value.source;
      u in rank && Trail(es, previous, source, rank, v) == Trail(es, previous, source, rank, u) + [v]
  {
    if v != source {
      SourcesBack(es, previous, source, rank, v);
    }
  }

  /** The vertices of `vs`, each tagged with its distance. */
  ghost function Tags<V>(vs: seq<V>, dist: map<V, real>): seq<(V, Double)>
    requires forall v | v in vs :: v in dist
    decreases |vs|
  {
    if vs == [] then [] else [(vs[0], Fin(dist[vs[0]]))] + Tags(vs[1..], dist)
  }

  /** Tagging keeps the length and tags each vertex in place. */
  lemma {:induction false} TagsAt<V>(vs: seq<V>, dist: map<V, real>)
    requires forall v | v in vs :: v in dist
    ensures |Tags(vs, dist)| == |vs|
    ensures forall i | 0 <= i < |vs| :: Tags(vs, dist)[i] == (vs[i], Fin(dist[vs[i]]))
    decreases |vs|
  {
    if vs != [] {
      TagsAt(vs[1..], dist);
    }
  }

  /**
   * The loop invariant of `TupleWalk`: the trail to `cur` followed by the
   * vertices gathered after it is the trail to the target, and `list` holds
   * those gathered vertices tagged with their distances.
   */
  ghost predicate Climbing<V>(es: set<Edge<V>>, previous: map<V, Option<Edge<V>>>, source: V, rank: map<V, nat>,
                              dist: map<V, real>, target: V, cur: V, vs: seq<V>, list: seq<(V, Double)>)
    requires Chain(es, previous, source, rank) && target in rank && cur in rank
  {
    && vs != [] && vs[0] == cur && (forall v | v in vs :: v in dist)
    && Trail(es, previous, source, rank, cur) + vs[1..] == Trail(es, previous, source, rank, target)
    && list == Tags(vs, dist)
  }

  /** One step of `TupleWalk`'s loop: move to the predecessor and prepend it with its priority. */
  method Climb<V>(heap: FibonacciHeap<V>, hn: map<V, Node<V>>, pred: map<V, Option<V>>, source: V,
                  ghost target: V, ghost es: set<Edge<V>>, ghost previous: map<V, Option<Edge<V>>>,
                  ghost rank: map<V, nat>, ghost dist: map<V, real>, cur: V, list: seq<(V, Double)>, ghost vs: seq<V>)
    returns (cur': V, list': seq<(V, Double)>, ghost vs': seq<V>)
    requires Chain(es, previous, source, rank) && target in rank && cur in rank && cur != source
    requires pred == Predecessors(previous) && rank.Keys == hn.Keys == dist.Keys
    requires forall v | v in hn :: P(heap.prio, hn[v]) == Fin(dist[v])
    requires Climbing(es, previous, source, rank, dist, target, cur, vs, list)
    ensures cur' in rank && rank[cur'] < rank[cur] && Get(pred, cur) == Some(cur')
    ensures Climbing(es, previous, source, rank, dist, target, cur', vs', list')
  {
    TrailBack(es, previous, source, rank, cur);
    cur' := Get(pred, cur).value;
    vs' := [cur'] + vs;
    assert vs'[1..] == vs == [vs[0]] + vs[1..];
    list' := [(cur', P(heap.prio, hn[cur']))] + list;
  }

  /**
   * The tuple-building loop of the older copy: push the target with its
   * priority, then each predecessor with its priority until the predecessor
   * is the source, and finally the source with 0. When the target is the
   * source its predecessor is null, and reading the priority of null's heap
   * node throws NullPointerException.
   */
  method TupleWalk<V>(heap: FibonacciHeap<V>, hn: map<V, Node<V>>, pred: map<V, Option<V>>, source: V, target: V,
                      ghost es: set<Edge<V>>, ghost previous: map<V, Option<Edge<V>>>, ghost rank: map<V, nat>,
                      ghost dist: map<V, real>)
    returns (r: Result<seq<(V, Double)>>)
    requires Chain(es, previous, source, rank) && target in rank && source !in previous
    requires pred == Predecessors(previous) && rank.Keys == hn.Keys == dist.Keys && dist[source] == 0.0
    requires forall v | v in hn :: P(heap.prio, hn[v]) == Fin(dist[v])
    ensures source == target ==> r == Err(NullPointer)
    ensures source != target ==> r.Ok?
    ensures r.Ok? ==> var vs := Trail(es, previous, source, rank, target);
      && (forall v | v in vs :: v in dist) && r.value == Tags(vs, dist)
  {
    var cur := target;
    var list := [(cur, P(heap.prio, hn[cur]))];
    var next := Get(pred, cur);
    ghost var vs := [target];
    assert vs[1..] == [];
    while next != Some(source)
      invariant cur in rank && next == Get(pred, cur) && (cur == source ==> cur == target)
      invariant Climbing(es, previous, source, rank, dist, target, cur, vs, list)
      decreases rank[cur]
    {
      if next.None? {
        return Err(NullPointer);
      }
      cur, list, vs := Climb(heap, hn, pred, source, target, es, previous, rank, dist, cur, list, vs);
      next := Get(pred, cur);
    }
    TrailBack(es, previous, source, rank, cur);
    TrailBack(es, previous, source, rank, source);
    ghost var rest := vs;
    vs := [source] + vs;
    assert vs[1..] == rest == [rest[0]] + rest[1..];
    r := Ok([(source, Fin(0.0))] + list);
  }

  /** Some edge leads from `a` to `b` and adds its weight to `a`'s distance to give `b`'s. */
  ghost predicate Step<V>(es: set<Edge<V>>, w: Edge<V> -> real, dist: map<V, real>, a: V, b: V) {
    a in dist && b in dist && exists e | e in es && e.source == a && e.target == b :: dist[b] == dist[a] + w(e)
  }

  /** Two tuples of a result list: some edge joins their vertices and adds its weight to the first distance. */
  ghost predicate Joins<V>(es: set<Edge<V>>, w: Edge<V> -> real, a: (V, Double), b: (V, Double)) {
    a.1.Fin? && b.1.Fin? && exists e | e in es && e.source == a.0 && e.target == b.0 :: b.1.r == a.1.r + w(e)
  }

  /**
   * The recorded walk to `v` steps along edges of the graph, each adding its
   * weight to the distance, from the source to `v`.
   */
  lemma TrailShape<V>(es: set<Edge<V>>, w: Edge<V> -> real, source: V, previous: map<V, Option<Edge<V>>>,
                      dist: map<V, real>, rank: map<V, nat>, v: V)
    requires Labelled(es, previous, source, rank, w, dist) && v in rank
    ensures var vs := Trail(es, previous, source, rank, v);
      && vs[0] == source && vs[|vs| - 1] == v && (source == v <==> |vs| == 1)
      && (forall i | 0 <= i < |vs| :: vs[i] in dist)
      && forall i | 0 <= i < |vs| - 1 :: Step(es, w, dist, vs[i], vs[i + 1])
  {
    var ps := Back(es, previous, source, rank, v);
    var p := SimplePath(source, v, Some(ps));
    BackPath(es, previous, source, rank, v);
    BackRecorded(es, previous, source, rank, v);
    VerticesFollowPath(es, p);
    var vs := Vertices(p).value;
    if v != source {
      assert |ps| > 0;
    }
    forall i | 0 <= i < |vs|
      ensures vs[i] in dist
    {
      if i > 0 {
        assert previous[ps[i - 1].target] == Some(ps[i - 1]);
      }
    }
    forall i | 0 <= i < |vs| - 1
      ensures Step(es, w, dist, vs[i], vs[i + 1])
    {
      var e := ps[i];
      assert e in es && e.source == vs[i] && e.target == vs[i + 1] && previous[e.target] == Some(e);
    }
  }

  /**
   * The tuples of the recorded walk, tagged with the distances, run from
   * (source, 0) to the target, each joined to the next by an edge.
   */
  lemma Tagged<V>(es: set<Edge<V>>, w: Edge<V> -> real, source: V, previous: map<V, Option<Edge<V>>>,
                  dist: map<V, real>, rank: map<V, nat>, target: V, l: seq<(V, Double)>)
    requires Labelled(es, previous, source, rank, w, dist) && target in rank && source != target
    requires source in dist && dist[source] == 0.0
    requires var vs := Trail(es, previous, source, rank, target);
      (forall v | v in vs :: v in dist) && l == Tags(vs, dist)
    ensures |l| >= 2 && l[0] == (source, Fin(0.0)) && l[|l| - 1].0 == target
    ensures forall i | 0 <= i < |l| - 1 :: Joins(es, w, l[i], l[i + 1])
    ensures forall i | 0 <= i < |l| :: l[i].0 in dist && l[i].1 == Fin(dist[l[i].0])
  {
    TrailShape(es, w, source, previous, dist, rank, target);
    var vs := Trail(es, previous, source, rank, target);
    TagsAt(vs, dist);
    forall i | 0 <= i < |l| - 1
      ensures Joins(es, w, l[i], l[i + 1])
    {
      assert Step(es, w, dist, vs[i], vs[i + 1]);
    }
  }

  /** Every tuple of `l` carries a distance no path from the source to its vertex undercuts. */
  ghost predicate Least<V>(es: set<Edge<V>>, w: Edge<V> -> real, source: V, l: seq<(V, Double)>) {
    forall i, q | 0 <= i < |l| && IsPath(es, source, q, l[i].0) :: l[i].1.Fin? && l[i].1.r <= Weight(w, q)
  }

  /**
   * findShortestPath of the older copy: null when the target never got a
   * heap node; otherwise (vertex, distance) tuples from (source, 0) to
   * (target, its distance), each vertex the recorded predecessor of the next.
   * When the source is the target the walk throws NullPointerException.
   */
  method ShortestTuples<V>(g: Graph<V>, w: Edge<V> -> real, source: V, target: V)
    returns (r: Result<Option<seq<(V, Double)>>>)
    requires WellFormed(g)
    ensures r.Err? ==> r.error == NullPointer || r.error == IllegalArgument
    ensures r == Err(NullPointer) <==> source !in g.vertices || (source == target && !NegativeReachable(g, w, source))
    ensures r == Err(IllegalArgument) <==> source in g.vertices && NegativeReachable(g, w, source)
    ensures r.Ok? ==> (r.value.Some? <==> Reachable(g.edges, source, target))
    ensures r.Ok? && r.value.Some? ==> var l := r.value.value;
      && |l| >= 2 && l[0] == (source, Fin(0.0)) && l[|l| - 1].0 == target
      && forall i | 0 <= i < |l| - 1 :: Joins(g.edges, w, l[i], l[i + 1])
    ensures r.Ok? && r.value.Some? ==> Least(g.edges, w, source, r.value.value)
  {
    var o, heap, hn, previous, dist, rank := Settle(g, w, source, false);
    if o.Fail? {
      return Err(o.error);
    }
    r := Collect(g, w, source, target, heap, hn, previous, dist, rank);
  }

  /**
   * The older copy's findShortestPath after a settle loop that passed: the
   * walk from the target, or null when the target never got a heap node.
   */
  method Collect<V>(g: Graph<V>, w: Edge<V> -> real, source: V, target: V, heap: FibonacciHeap<V>,
                    hn: map<V, Node<V>>, previous: map<V, Option<Edge<V>>>, ghost dist: map<V, real>,
                    ghost rank: map<V, nat>)
    returns (r: Result<Option<seq<(V, Double)>>>)
    requires WellFormed(g) && Shortest(g, w, source, previous, dist, rank)
    requires forall v, p | IsPath(g.edges, source, p, v) :: v in dist && dist[v] <= Weight(w, p)
    requires hn.Keys == dist.Keys && forall v | v in hn :: P(heap.prio, hn[v]) == Fin(dist[v])
    ensures r.Err? ==> r.error == NullPointer
    ensures r.Err? <==> source == target
    ensures r.Ok? ==> (r.value.Some? <==> Reachable(g.edges, source, target))
    ensures r.Ok? && r.value.Some? ==> var l := r.value.value;
      && |l| >= 2 && l[0] == (source, Fin(0.0)) && l[|l| - 1].0 == target
      && forall i | 0 <= i < |l| - 1 :: Joins(g.edges, w, l[i], l[i + 1])
    ensures r.Ok? && r.value.Some? ==> Least(g.edges, w, source, r.value.value)
  {
    if target !in hn {
      Unreached(g.edges, w, source, dist, target);
      return Ok(None);
    }
    var list := Listed(g, w, source, target, heap, hn, previous, dist, rank);
    if list.Err? {
      return Err(list.error);
    }
    r := Ok(Some(list.value));
  }

  /** The tuple list of a target that got a heap node. */
  method Listed<V>(g: Graph<V>, w: Edge<V> -> real, source: V, target: V, heap: FibonacciHeap<V>,
                   hn: map<V, Node<V>>, previous: map<V, Option<Edge<V>>>, ghost dist: map<V, real>,
                   ghost rank: map<V, nat>)
    returns (r: Result<seq<(V, Double)>>)
    requires WellFormed(g) && Shortest(g, w, source, previous, dist, rank) && target in hn
    requires forall v, p | IsPath(g.edges, source, p, v) :: v in dist && dist[v] <= Weight(w, p)
    requires hn.Keys == dist.Keys && forall v | v in hn :: P(heap.prio, hn[v]) == Fin(dist[v])
    ensures r.Err? ==> r.error == NullPointer
    ensures r.Err? <==> source == target
    ensures r.Ok? ==> var l := r.value;
      && |l| >= 2 && l[0] == (source, Fin(0.0)) && l[|l| - 1].0 == target
      && forall i | 0 <= i < |l| - 1 :: Joins(g.edges, w, l[i], l[i + 1])
    ensures r.Ok? ==> Least(g.edges, w, source, r.value)
  {
    r := TupleWalk(heap, hn, Predecessors(previous), source, target, g.edges, previous, rank, dist);
    if r.Ok? {
      Tagged(g.edges, w, source, previous, dist, rank, target, r.value);
      TagsLeast(g.edges, w, source, dist, r.value);
    }
  }

  /** A vertex without a distance, when every walk's end has one, is not reached. */
  lemma Unreached<V>(es: set<Edge<V>>, w: Edge<V> -> real, source: V, dist: map<V, real>, t: V)
    requires forall v, p | IsPath(es, source, p, v) :: v in dist && dist[v] <= Weight(w, p)
    requires t !in dist
    ensures !Reachable(es, source, t)
  {
  }

  /** Tuples carrying the distances, when those bound every walk, carry least distances. */
  lemma TagsLeast<V>(es: set<Edge<V>>, w: Edge<V> -> real, source: V, dist: map<V, real>, l: seq<(V, Double)>)
    requires forall v, p | IsPath(es, source, p, v) :: v in dist && dist[v] <= Weight(w, p)
    requires forall i | 0 <= i < |l| :: l[i].0 in dist && l[i].1 == Fin(dist[l[i].0])
    ensures Least(es, w, source, l)
  {
  }
}
