/**
 * The Fibonacci heap as an object. The heap's `min` pointer and its rings of
 * `left`/`right`/`child`/`parent` pointers are the forest `roots` (the root
 * ring read from `min`); the priority every node carries is the map `prio`.
 * One class stands for both copies of the heap: `checked` is true for the
 * copy that records each node's creator and rejects null and foreign nodes,
 * false for the older copy that does neither.
 */
module FibonacciHeaps {
  import opened Wrappers
  import opened Doubles
  import opened HeapForests

  /** A heap entry: its value, the heap that created it, and whether it has left its heap. */
  class Node<T> {
    const value: T
    const creator: FibonacciHeap?<T>
    var dequeued: bool

    constructor (value: T, creator: FibonacciHeap?<T>)
      ensures this.value == value && this.creator == creator && !dequeued
    {
      this.value := value;
      this.creator := creator;
      dequeued := false;
    }
  }

  class FibonacciHeap<T> {
    const checked: bool
    var roots: seq<Tree<Node<T>>>
    var prio: map<Node<T>, Double>
    var size: int

    ghost predicate Valid()
      reads this
    {
      Heap(roots, prio)
    }

    /** The nodes in the heap. */
    ghost function Members(): set<Node<T>>
      reads this
    {
      set m | m in Nodes(roots)
    }

    /** The node dequeueMin takes out, if any. */
    ghost function MinNodes(): set<Node<T>>
      reads this
    {
      if roots == [] then {} else {roots[0].node}
    }

    constructor (checked: bool)
      ensures Valid() && this.checked == checked
      ensures roots == [] && prio == map[] && size == 0
    {
      this.checked := checked;
      roots := [];
      prio := map[];
      size := 0;
    }

    /** getMin: null for an empty heap, else a node whose priority is least in the heap. */
    function GetMin(): (r: Option<Node<T>>)
      reads this
      requires Valid()
      ensures r.None? <==> Nodes(roots) == multiset{}
      ensures r.Some? ==> r.value in Nodes(roots)
      ensures r.Some? ==> forall m | m in Nodes(roots) :: Le(P(prio, r.value), P(prio, m))
    {
      if roots == [] then None
      else
        MinIsLeast(roots, prio);
        Some(roots[0].node)
    }

    /** isEmpty: `min == null`. */
    function IsEmpty(): (b: bool)
      reads this
      requires Valid()
      ensures b <==> GetMin().None?
    {
      roots == []
    }

    /** size: the counter enqueue, merge and dequeueMin keep. */
    function Size(): int
      reads this
    {
      size
    }

    /**
     * insert (and enqueue's first node): the node joins the root ring right
     * after `min` and becomes `min` when its priority is not above the old
     * minimum's.
     */
    method Insert(n: Node<T>, p: Double)
      requires Valid() && n !in Nodes(roots) && !p.NaN?
      modifies this
      ensures Valid() && size == old(size)
      ensures prio == old(prio)[n := p] && Nodes(roots) == old(Nodes(roots)) + multiset{n}
      ensures roots[0].node == n <==> old(roots) == [] || Le(p, old(P(prio, roots[0].node)))
    {
      AddRootKeeps(roots, n, prio, p);
      prio := prio[n := p];
      roots := AddRoot(roots, Tree(n, false, []), prio);
    }

    /**
     * enqueue: NaN is rejected; otherwise a fresh node carrying the value
     * joins the heap.
     */
    method Enqueue(value: T, priority: Double) returns (r: Result<Node<T>>)
      requires Valid()
      modifies this
      ensures Valid()
      ensures priority.NaN? ==> r == Err(IllegalArgument) && roots == old(roots) && prio == old(prio) && size == old(size)
      ensures !priority.NaN? ==>
        && r.Ok? && fresh(r.value) && r.value.value == value && !r.value.dequeued
        && r.value.creator == (if checked then this else null)
        && prio == old(prio)[r.value := priority]
        && Nodes(roots) == old(Nodes(roots)) + multiset{r.value}
        && Members() == old(Members()) + {r.value}
        && size == old(size) + 1
    {
      if priority.NaN? {
        return Err(IllegalArgument);
      }
      size := size + 1;
      var n := new Node(value, if checked then this else null);
      assert n !in Nodes(roots) by {
        assert n !in prio;
        OrderedKeys(roots, prio);
      }
      ghost var before := Nodes(roots);
      Insert(n, priority);
      Added(before, n);
      return Ok(n);
    }

    /**
     * merge(node), corrected: `h`'s root ring is spliced in after `min`, its
     * nodes keep their priorities, and its `min` takes over when strictly
     * smaller.
     */
    method MergeRing(h: FibonacciHeap<T>)
      requires Valid() && h.Valid() && h != this && roots != [] && h.roots != []
      requires Nodes(roots) !! Nodes(h.roots)
      modifies this
      ensures Valid() && size == old(size)
      ensures prio == old(prio) + Live(h.prio, h.roots)
      ensures roots == MergeRings(old(roots), h.roots, prio)
      ensures Nodes(roots) == old(Nodes(roots)) + Nodes(h.roots)
    {
      var q := prio + Live(h.prio, h.roots);
      MergeKeeps(roots, h.roots, prio, h.prio);
      roots := MergeRings(roots, h.roots, q);
      prio := q;
    }

    /**
     * merge(heap) with a different, non-empty `h`: `h`'s ring is spliced in
     * after `min` when this heap has one, the sizes add up and `h` is
     * emptied. Into an empty heap only the size arrives.
     */
    method Splice(h: FibonacciHeap<T>)
      requires Valid() && h.Valid() && h != this && h.roots != []
      requires Nodes(roots) !! Nodes(h.roots)
      modifies this, h
      ensures Valid() && h.Valid() && h.roots == [] && h.size == 0
      ensures size == old(size) + old(h.size)
      ensures old(roots) != [] ==>
        && Nodes(roots) == old(Nodes(roots)) + old(Nodes(h.roots))
        && prio == old(prio) + Live(old(h.prio), old(h.roots))
      ensures old(roots) == [] ==> roots == [] && prio == old(prio)
    {
      if roots != [] {
        MergeRing(h);
      }
      size := size + h.size;
      h.roots := [];
      h.size := 0;
      assert Heap(h.roots, h.prio) by {
        assert Nodes(h.roots) == multiset{};
      }
    }

    /**
     * merge(heap): a null or empty `h` changes nothing; a heap merged with
     * itself ends empty, since the splice of a ring with itself is undone by
     * emptying `h`.
     */
    method Merge(h: FibonacciHeap?<T>)
      requires Valid() && (h != null ==> h.Valid())
      requires h != null && h != this ==> Nodes(roots) !! Nodes(h.roots)
      modifies this, h
      ensures Valid() && (h != null ==> h.Valid())
      ensures h == null || old(h.roots) == [] ==> unchanged(this) && (h != null ==> unchanged(h))
      ensures h != null && old(h.roots) != [] ==> h.roots == [] && h.size == 0
      ensures h != null && h != this && old(h.roots) != [] ==> size == old(size) + old(h.size)
      ensures h != null && h != this && old(h.roots) != [] && old(roots) != [] ==>
        && Nodes(roots) == old(Nodes(roots)) + old(Nodes(h.roots))
        && prio == old(prio) + Live(old(h.prio), old(h.roots))
      ensures h != null && h != this && old(roots) == [] ==> roots == [] && prio == old(prio)
    {
      if h == null || h.roots == [] {
        return;
      }
      if h == this {
        size := size + size;
        roots := [];
        size := 0;
        assert Heap(roots, prio) by {
          assert Nodes(roots) == multiset{};
        }
        return;
      }
      Splice(h);
    }

    /**
     * decreaseKeyUnchecked: the node takes its new priority; a root becomes
     * `min` when not above it, and a child not above its parent is cut.
     */
    method DecreaseKeyUnchecked(n: Node<T>, p: Double)
      requires Valid() && n in Nodes(roots) && !p.NaN? && Le(p, P(prio, n))
      modifies this
      ensures Valid() && size == old(size)
      ensures prio == old(prio)[n := p]
      ensures roots == DecreaseRoots(old(roots), n, prio) && Nodes(roots) == old(Nodes(roots))
      ensures Members() == old(Members())
    {
      DecreaseKeeps(roots, n, prio, p);
      prio := prio[n := p];
      roots := DecreaseRoots(roots, n, prio);
    }

    /**
     * decreaseKey: the checked copy rejects a null node, a foreign node, a
     * NaN priority and a priority above the current one, in that order; the
     * other copy checks NaN first and fails on a null node when it reads its
     * priority. A rejected call changes nothing.
     */
    method DecreaseKey(n: Node?<T>, p: Double) returns (o: Outcome)
      requires Valid()
      requires n != null && (!checked || n.creator == this) ==> n in Nodes(roots)
      modifies this
      ensures Valid() && size == old(size)
      ensures checked && n == null ==> o == Fail(NullPointer)
      ensures checked && n != null && n.creator != this ==> o == Fail(IllegalArgument)
      ensures (checked ==> n != null && n.creator == this) && p.NaN? ==> o == Fail(IllegalArgument)
      ensures !checked && n == null && !p.NaN? ==> o == Fail(NullPointer)
      ensures n != null && (!checked || n.creator == this) && !p.NaN? ==>
        o == (if Le(p, old(P(prio, n))) then Pass else Fail(IllegalArgument))
      ensures o.Fail? ==> roots == old(roots) && prio == old(prio)
      ensures o.Pass? ==> n != null && prio == old(prio)[n := p] && roots == DecreaseRoots(old(roots), n, prio)
      ensures Nodes(roots) == old(Nodes(roots)) && Members() == old(Members())
    {
      if checked {
        if n == null {
          return Fail(NullPointer);
        }
        if n.creator != this {
          return Fail(IllegalArgument);
        }
      }
      if p.NaN? {
        return Fail(IllegalArgument);
      }
      if n == null {
        return Fail(NullPointer);
      }
      MinIsLeast(roots, prio);
      LtTotal(p, P(prio, n));
      if Lt(P(prio, n), p) {
        return Fail(IllegalArgument);
      }
      DecreaseKeyUnchecked(n, p);
      return Pass;
    }

    /**
     * dequeueMin: null for an empty heap; otherwise `min` leaves the heap
     * marked as dequeued, its children join the root ring and the ring is
     * consolidated.
     */
    method DequeueMin() returns (r: Option<Node<T>>)
      requires Valid()
      modifies this, MinNodes()
      ensures Valid() && prio == old(prio)
      ensures old(roots) == [] ==> r.None? && roots == old(roots) && size == old(size)
      ensures old(roots) != [] ==>
        && r == Some(old(roots[0].node)) && r.value.dequeued
        && (forall m | m in old(Nodes(roots)) :: Le(P(prio, r.value), P(prio, m)))
        && roots == DequeueRoots(old(roots), prio)
        && Nodes(roots) + multiset{r.value} == old(Nodes(roots))
        && Members() == old(Members()) - {r.value}
        && DistinctRanks(roots)
        && size == old(size) - 1
    {
      if roots == [] {
        return None;
      }
      var res := roots[0].node;
      ghost var before := Nodes(roots);
      DequeueKeeps(roots, prio);
      roots := DequeueRoots(roots, prio);
      size := size - 1;
      res.dequeued := true;
      Removed(Nodes(roots), before, res);
      return Some(res);
    }

    /**
     * delete of a node in the heap: it is decreased to negative infinity and
     * the minimum is dequeued. That minimum is the node itself unless
     * another node also has priority negative infinity.
     */
    method DeleteMember(n: Node<T>)
      requires Valid() && n in Nodes(roots)
      modifies this, Members()
      ensures Valid() && prio == old(prio)[n := NegInf] && size == old(size) - 1
      ensures var mid := DecreaseRoots(old(roots), n, prio);
        && mid != [] && mid[0].node.dequeued && P(prio, mid[0].node) == NegInf
        && roots == DequeueRoots(mid, prio)
        && Nodes(roots) + multiset{mid[0].node} == old(Nodes(roots))
        && ((forall m | m in old(Nodes(roots)) && m != n :: P(old(prio), m) != NegInf) ==> mid[0].node == n)
    {
      DeleteFront(roots, n, prio);
      DecreaseKeyUnchecked(n, NegInf);
      var _ := DequeueMin();
    }

    /**
     * delete: the checked copy rejects a null or foreign node, the other
     * copy fails on a null node when it reads its priority; a rejected call
     * changes nothing.
     */
    method Delete(n: Node?<T>) returns (o: Outcome)
      requires Valid()
      requires n != null && (!checked || n.creator == this) ==> n in Nodes(roots)
      modifies this, Members()
      ensures Valid()
      ensures n == null ==> o == Fail(NullPointer)
      ensures checked && n != null && n.creator != this ==> o == Fail(IllegalArgument)
      ensures o.Fail? ==> roots == old(roots) && prio == old(prio) && size == old(size)
      ensures n != null && (!checked || n.creator == this) ==>
        && o == Pass && prio == old(prio)[n := NegInf] && size == old(size) - 1
        && var mid := DecreaseRoots(old(roots), n, prio);
        && mid != [] && mid[0].node.dequeued && P(prio, mid[0].node) == NegInf
        && roots == DequeueRoots(mid, prio)
        && Nodes(roots) + multiset{mid[0].node} == old(Nodes(roots))
        && ((forall m | m in old(Nodes(roots)) && m != n :: P(old(prio), m) != NegInf) ==> mid[0].node == n)
    {
      if n == null {
        return Fail(NullPointer);
      }
      if checked && n.creator != this {
        return Fail(IllegalArgument);
      }
      DeleteMember(n);
      return Pass;
    }
  }

  /** The nodes of a forest with one more node. */
  lemma Added<N>(before: multiset<N>, x: N)
    ensures (set m | m in before + multiset{x}) == (set m | m in before) + {x}
  {
  }

  /** The nodes of a forest with one node, which occurred once, taken out. */
  lemma Removed<N>(now: multiset<N>, before: multiset<N>, x: N)
    requires now + multiset{x} == before && before[x] == 1
    ensures (set m | m in now) == (set m | m in before) - {x}
  {
    assert now[x] == 0;
  }
}
