/**
 * The Fibonacci heap's forest as a value. A root list or child list is the
 * sequence of its circular list read rightwards from the node the heap keeps
 * (`min` for the roots, `child` for a node's children); a node's rank is its
 * number of children. Priorities live in a map from node to Java double.
 */
module HeapForests {
  import opened Doubles
  import opened Wrappers

  datatype Tree<N> = Tree(node: N, marked: bool, kids: seq<Tree<N>>)

  function Rank<N>(t: Tree<N>): nat {
    |t.kids|
  }

  /** A priority lookup that reads a missing key as NaN, which no comparison accepts. */
  function P<N>(prio: map<N, Double>, n: N): Double {
    if n in prio then prio[n] else NaN
  }

  /** Every node of a forest, with multiplicity. */
  function Nodes<N>(ts: seq<Tree<N>>): multiset<N>
    decreases ts
  {
    if ts == [] then multiset{} else multiset{ts[0].node} + Nodes(ts[0].kids) + Nodes(ts[1..])
  }

  /** No node occurs twice. */
  ghost predicate Distinct<N>(ts: seq<Tree<N>>) {
    forall n | n in Nodes(ts) :: Nodes(ts)[n] == 1
  }

  /** Heap order: every child's priority is at least its parent's, and none is NaN. */
  ghost predicate Ordered<N>(ts: seq<Tree<N>>, prio: map<N, Double>)
    decreases ts
  {
    ts == [] ||
      (&& !P(prio, ts[0].node).NaN?
       && (forall k | k in ts[0].kids :: Le(P(prio, ts[0].node), P(prio, k.node)))
       && Ordered(ts[0].kids, prio)
       && Ordered(ts[1..], prio))
  }

  /** The first root has the least priority among the roots. */
  ghost predicate MinFirst<N>(ts: seq<Tree<N>>, prio: map<N, Double>) {
    ts != [] ==> forall t | t in ts :: Le(P(prio, ts[0].node), P(prio, t.node))
  }

  lemma {:induction false} NodesAppend<N>(a: seq<Tree<N>>, b: seq<Tree<N>>)
    ensures Nodes(a + b) == Nodes(a) + Nodes(b)
    decreases a
  {
    if a == [] {
      assert a + b == b;
    } else {
      var c := a + b;
      assert c[0] == a[0] && c[1..] == a[1..] + b;
      var head := multiset{a[0].node} + Nodes(a[0].kids);
      calc {
        Nodes(c);
        head + Nodes(c[1..]);
        { NodesAppend(a[1..], b); }
        head + (Nodes(a[1..]) + Nodes(b));
        (head + Nodes(a[1..])) + Nodes(b);
        Nodes(a) + Nodes(b);
      }
    }
  }

  lemma {:induction false} OrderedAppend<N>(a: seq<Tree<N>>, b: seq<Tree<N>>, prio: map<N, Double>)
    ensures Ordered(a + b, prio) <==> Ordered(a, prio) && Ordered(b, prio)
    decreases a
  {
    if a != [] {
      OrderedAppend(a[1..], b, prio);
      assert (a + b)[1..] == a[1..] + b;
    } else {
      assert a + b == b;
    }
  }

  lemma NodesOne<N>(t: Tree<N>)
    ensures Nodes([t]) == multiset{t.node} + Nodes(t.kids)
  {
    assert [t][1..] == [];
  }

  lemma OrderedOne<N>(t: Tree<N>, prio: map<N, Double>)
    ensures Ordered([t], prio) <==>
      && !P(prio, t.node).NaN?
      && (forall k | k in t.kids :: Le(P(prio, t.node), P(prio, k.node)))
      && Ordered(t.kids, prio)
  {
    assert [t][1..] == [];
  }

  /** Splitting a forest at one tree. */
  lemma Split<N>(ts: seq<Tree<N>>, i: nat, prio: map<N, Double>)
    requires i < |ts|
    ensures ts == ts[..i] + [ts[i]] + ts[i + 1..]
    ensures Nodes(ts) == Nodes(ts[..i]) + Nodes([ts[i]]) + Nodes(ts[i + 1..])
    ensures Ordered(ts, prio) <==> Ordered(ts[..i], prio) && Ordered([ts[i]], prio) && Ordered(ts[i + 1..], prio)
  {
    assert ts == ts[..i] + [ts[i]] + ts[i + 1..];
    NodesAppend(ts[..i] + [ts[i]], ts[i + 1..]);
    NodesAppend(ts[..i], [ts[i]]);
    OrderedAppend(ts[..i] + [ts[i]], ts[i + 1..], prio);
    OrderedAppend(ts[..i], [ts[i]], prio);
  }

  /**
   * Every node of a heap-ordered forest is at least any bound that all of
   * its roots are at least.
   */
  lemma {:induction false} Bounded<N>(ts: seq<Tree<N>>, prio: map<N, Double>, b: Double)
    requires Ordered(ts, prio) && forall t | t in ts :: Le(b, P(prio, t.node))
    ensures forall n | n in Nodes(ts) :: Le(b, P(prio, n))
    decreases ts
  {
    if ts != [] {
      var r := ts[0];
      forall k | k in r.kids
        ensures Le(b, P(prio, k.node))
      {
        LeTransitive(b, P(prio, r.node), P(prio, k.node));
      }
      Bounded(r.kids, prio, b);
      Bounded(ts[1..], prio, b);
    }
  }

  /** In a heap-ordered forest whose first root is least, that root is least overall. */
  lemma MinIsLeast<N>(ts: seq<Tree<N>>, prio: map<N, Double>)
    requires ts != [] && Ordered(ts, prio) && MinFirst(ts, prio)
    ensures ts[0].node in Nodes(ts)
    ensures forall n | n in Nodes(ts) :: Le(P(prio, ts[0].node), P(prio, n))
  {
    Bounded(ts, prio, P(prio, ts[0].node));
  }

  /** Heap order only reads the priorities of the forest's own nodes. */
  lemma {:induction false} OrderedFrame<N>(ts: seq<Tree<N>>, prio: map<N, Double>, n: N, p: Double)
    requires n !in Nodes(ts)
    ensures Ordered(ts, prio) <==> Ordered(ts, prio[n := p])
    decreases ts
  {
    if ts != [] {
      var r := ts[0];
      OrderedFrame(r.kids, prio, n, p);
      OrderedFrame(ts[1..], prio, n, p);
      assert P(prio, r.node) == P(prio[n := p], r.node);
      forall k | k in r.kids
        ensures P(prio, k.node) == P(prio[n := p], k.node)
      {
        KidNode(r.kids, k);
      }
    }
  }

  lemma KidNode<N>(ts: seq<Tree<N>>, k: Tree<N>)
    requires k in ts
    ensures k.node in Nodes(ts)
  {
    var i :| 0 <= i < |ts| && ts[i] == k;
    Split(ts, i, map[]);
    NodesOne(k);
  }

  /** A forest is its first tree followed by the rest. */
  lemma Head<N>(ts: seq<Tree<N>>, prio: map<N, Double>)
    requires ts != []
    ensures Nodes(ts) == Nodes([ts[0]]) + Nodes(ts[1..])
    ensures Ordered(ts, prio) <==> Ordered([ts[0]], prio) && Ordered(ts[1..], prio)
  {
    assert ts == [ts[0]] + ts[1..];
    NodesAppend([ts[0]], ts[1..]);
    OrderedAppend([ts[0]], ts[1..], prio);
  }

  /** A forest is its front followed by its last tree. */
  lemma Last<N>(ts: seq<Tree<N>>, prio: map<N, Double>)
    requires ts != []
    ensures Nodes(ts) == Nodes(ts[..|ts| - 1]) + Nodes([ts[|ts| - 1]])
    ensures Ordered(ts, prio) <==> Ordered(ts[..|ts| - 1], prio) && Ordered([ts[|ts| - 1]], prio)
  {
    assert ts == ts[..|ts| - 1] + [ts[|ts| - 1]];
    NodesAppend(ts[..|ts| - 1], [ts[|ts| - 1]]);
    OrderedAppend(ts[..|ts| - 1], [ts[|ts| - 1]], prio);
  }

  /** Three forests side by side. */
  lemma Three<N>(a: seq<Tree<N>>, b: seq<Tree<N>>, c: seq<Tree<N>>, prio: map<N, Double>)
    ensures Nodes(a + b + c) == Nodes(a) + Nodes(b) + Nodes(c)
    ensures Ordered(a + b + c, prio) <==> Ordered(a, prio) && Ordered(b, prio) && Ordered(c, prio)
  {
    NodesAppend(a + b, c);
    NodesAppend(a, b);
    OrderedAppend(a + b, c, prio);
    OrderedAppend(a, b, prio);
  }

  /**
   * insert: the tree goes right after the minimum, and becomes the minimum
   * (the ring is then read from it) when its priority is not above the
   * minimum's.
   */
  function InsertRoot<N>(ts: seq<Tree<N>>, t: Tree<N>, prio: map<N, Double>): seq<Tree<N>>
    requires ts != []
  {
    if Le(P(prio, t.node), P(prio, ts[0].node)) then [t] + ts[1..] + [ts[0]]
    else [ts[0]] + [t] + ts[1..]
  }

  lemma InsertRootKeeps<N>(ts: seq<Tree<N>>, t: Tree<N>, prio: map<N, Double>)
    requires ts != [] && Ordered(ts, prio) && MinFirst(ts, prio) && Ordered([t], prio)
    ensures var r := InsertRoot(ts, t, prio);
      && Nodes(r) == Nodes(ts) + Nodes([t])
      && Ordered(r, prio) && MinFirst(r, prio)
      && r[0].node in {ts[0].node, t.node}
  {
    var r := InsertRoot(ts, t, prio);
    if Le(P(prio, t.node), P(prio, ts[0].node)) {
      assert r == [t] + ts[1..] + [ts[0]];
      InsertedMin(ts, t, prio);
      assert Ordered(r, prio) by {
        Head(ts, prio);
        Three([t], ts[1..], [ts[0]], prio);
      }
      assert Nodes(r) == Nodes(ts) + Nodes([t]) by {
        Head(ts, prio);
        Three([t], ts[1..], [ts[0]], prio);
        Regroup(Nodes(r), Nodes([t]), Nodes(ts[1..]), Nodes([ts[0]]), Nodes(ts));
      }
    } else {
      assert r == [ts[0]] + [t] + ts[1..];
      KeptMin(ts, t, prio);
      assert Ordered(r, prio) by {
        Head(ts, prio);
        Three([ts[0]], [t], ts[1..], prio);
      }
      assert Nodes(r) == Nodes(ts) + Nodes([t]) by {
        Head(ts, prio);
        Three([ts[0]], [t], ts[1..], prio);
        Regroup(Nodes(r), Nodes([t]), Nodes(ts[1..]), Nodes([ts[0]]), Nodes(ts));
      }
    }
  }

  lemma InsertedMin<N>(ts: seq<Tree<N>>, t: Tree<N>, prio: map<N, Double>)
    requires ts != [] && MinFirst(ts, prio) && Le(P(prio, t.node), P(prio, ts[0].node))
    ensures MinFirst([t] + ts[1..] + [ts[0]], prio)
  {
    forall u | u in [t] + ts[1..] + [ts[0]]
      ensures Le(P(prio, t.node), P(prio, u.node))
    {
      if u != t {
        assert u in ts;
        LeTransitive(P(prio, t.node), P(prio, ts[0].node), P(prio, u.node));
      }
    }
  }

  lemma KeptMin<N>(ts: seq<Tree<N>>, t: Tree<N>, prio: map<N, Double>)
    requires ts != [] && MinFirst(ts, prio) && Ordered([t], prio) && Ordered([ts[0]], prio)
    requires !Le(P(prio, t.node), P(prio, ts[0].node))
    ensures MinFirst([ts[0]] + [t] + ts[1..], prio)
  {
    OrderedOne(t, prio);
    OrderedOne(ts[0], prio);
    LtTotal(P(prio, t.node), P(prio, ts[0].node));
    forall u | u in [ts[0]] + [t] + ts[1..]
      ensures Le(P(prio, ts[0].node), P(prio, u.node))
    {
      if u != t {
        assert u in ts;
      }
    }
  }

  /**
   * dequeueMin's removal of the minimum from the root ring: a lone minimum
   * leaves its children; otherwise the ring is read from the minimum's left
   * neighbour, with the children, if any, spliced in where the minimum was.
   */
  function Splice<N>(ts: seq<Tree<N>>): seq<Tree<N>>
    requires ts != []
  {
    var k := |ts|;
    if k == 1 then ts[0].kids
    else if ts[0].kids == [] then [ts[k - 1]] + ts[1..k - 1]
    else [ts[k - 1]] + ts[0].kids + ts[1..k - 1]
  }

  lemma SpliceShape<N>(ts: seq<Tree<N>>)
    requires |ts| > 1
    ensures Splice(ts) == [ts[|ts| - 1]] + ts[0].kids + ts[1..|ts| - 1]
  {
    assert [ts[|ts| - 1]] + [] == [ts[|ts| - 1]];
  }

  lemma SpliceKeeps<N>(ts: seq<Tree<N>>, prio: map<N, Double>)
    requires ts != [] && Ordered(ts, prio)
    ensures Nodes(Splice(ts)) + multiset{ts[0].node} == Nodes(ts)
    ensures Ordered(Splice(ts), prio)
  {
    Head(ts, prio);
    NodesOne(ts[0]);
    OrderedOne(ts[0], prio);
    if |ts| == 1 {
      assert ts[1..] == [];
    } else {
      SpliceParts(ts, prio);
    }
  }

  lemma SpliceParts<N>(ts: seq<Tree<N>>, prio: map<N, Double>)
    requires |ts| > 1
    ensures Nodes(Splice(ts)) == Nodes(ts[0].kids) + Nodes(ts[1..])
    ensures Ordered(Splice(ts), prio) <==> Ordered(ts[0].kids, prio) && Ordered(ts[1..], prio)
  {
    var k := |ts|;
    var s := Splice(ts);
    assert s == [ts[k - 1]] + ts[0].kids + ts[1..k - 1] by {
      SpliceShape(ts);
    }
    assert ts[1..][..k - 2] == ts[1..k - 1];
    assert Nodes(s) == Nodes(ts[0].kids) + Nodes(ts[1..]) by {
      Three([ts[k - 1]], ts[0].kids, ts[1..k - 1], prio);
      Last(ts[1..], prio);
      Regroup(Nodes(s), Nodes(ts[0].kids), Nodes(ts[1..k - 1]), Nodes([ts[k - 1]]), Nodes(ts[1..]));
    }
    assert Ordered(s, prio) <==> Ordered(ts[0].kids, prio) && Ordered(ts[1..], prio) by {
      Three([ts[k - 1]], ts[0].kids, ts[1..k - 1], prio);
      Last(ts[1..], prio);
    }
  }

  /** Linking: `l` joins the children of `w` right after the child pointer, which moves to `l` if `l` is smaller. */
  function Adopt<N>(w: Tree<N>, l: Tree<N>, prio: map<N, Double>): Tree<N> {
    if w.kids == [] then Tree(w.node, w.marked, [l])
    else if Lt(P(prio, l.node), P(prio, w.kids[0].node)) then Tree(w.node, w.marked, [l] + w.kids[1..] + [w.kids[0]])
    else Tree(w.node, w.marked, [w.kids[0]] + [l] + w.kids[1..])
  }

  /** The consolidation step: the visited tree `temp` wins only if strictly smaller than `cur`. */
  function Link<N>(cur: Tree<N>, temp: Tree<N>, prio: map<N, Double>): Tree<N> {
    var (w, l) := if Lt(P(prio, temp.node), P(prio, cur.node)) then (temp, cur) else (cur, temp);
    Adopt(w, l, prio)
  }

  lemma AdoptKids<N>(w: Tree<N>, l: Tree<N>, prio: map<N, Double>)
    ensures var t := Adopt(w, l, prio);
      && t.node == w.node && t.marked == w.marked && Rank(t) == Rank(w) + 1
      && (forall k | k in t.kids :: k in w.kids || k == l)
      && Nodes(t.kids) == Nodes(w.kids) + Nodes([l])
      && (Ordered(t.kids, prio) <==> Ordered(w.kids, prio) && Ordered([l], prio))
  {
    var ks := w.kids;
    if ks == [] {
      assert Adopt(w, l, prio).kids == [l];
    } else {
      var t := Adopt(w, l, prio);
      if Lt(P(prio, l.node), P(prio, ks[0].node)) {
        assert t.kids == [l] + ks[1..] + [ks[0]];
        InFront(ks, l, prio);
      } else {
        assert t.kids == [ks[0]] + [l] + ks[1..];
        InSecond(ks, l, prio);
      }
      assert Nodes(t.kids) == Nodes(ks) + Nodes([l]) by {
        Head(ks, prio);
        Regroup(Nodes(t.kids), Nodes([l]), Nodes(ks[1..]), Nodes([ks[0]]), Nodes(ks));
      }
      Head(ks, prio);
    }
  }

  lemma InFront<N>(ks: seq<Tree<N>>, l: Tree<N>, prio: map<N, Double>)
    requires ks != []
    ensures Nodes([l] + ks[1..] + [ks[0]]) == Nodes([l]) + Nodes(ks[1..]) + Nodes([ks[0]])
    ensures Ordered([l] + ks[1..] + [ks[0]], prio) <==> Ordered([l], prio) && Ordered(ks[1..], prio) && Ordered([ks[0]], prio)
    ensures forall k | k in [l] + ks[1..] + [ks[0]] :: k in ks || k == l
  {
    Three([l], ks[1..], [ks[0]], prio);
  }

  lemma InSecond<N>(ks: seq<Tree<N>>, l: Tree<N>, prio: map<N, Double>)
    requires ks != []
    ensures Nodes([ks[0]] + [l] + ks[1..]) == Nodes([ks[0]]) + Nodes([l]) + Nodes(ks[1..])
    ensures Ordered([ks[0]] + [l] + ks[1..], prio) <==> Ordered([ks[0]], prio) && Ordered([l], prio) && Ordered(ks[1..], prio)
    ensures forall k | k in [ks[0]] + [l] + ks[1..] :: k in ks || k == l
  {
    Three([ks[0]], [l], ks[1..], prio);
    forall k | k in [ks[0]] + [l] + ks[1..]
      ensures k in ks || k == l
    {
      assert k in [ks[0]] || k == l || k in ks[1..];
    }
  }

  /** Multiset sums regroup freely: the three orders used for sibling lists. */
  lemma Regroup<T>(x: multiset<T>, a: multiset<T>, b: multiset<T>, c: multiset<T>, y: multiset<T>)
    requires y == c + b
    requires x == a + b + c || x == c + a + b || x == c + b + a
    ensures x == y + a && x == a + y
  {
  }

  lemma AdoptKeeps<N>(w: Tree<N>, l: Tree<N>, prio: map<N, Double>)
    requires Ordered([w], prio) && Ordered([l], prio) && Le(P(prio, w.node), P(prio, l.node))
    ensures var t := Adopt(w, l, prio);
      && t.node == w.node && Rank(t) == Rank(w) + 1
      && Nodes([t]) == Nodes([w]) + Nodes([l])
      && Ordered([t], prio)
  {
    var t := Adopt(w, l, prio);
    AdoptKids(w, l, prio);
    assert Nodes([t]) == Nodes([w]) + Nodes([l]) by {
      NodesOne(w);
      NodesOne(t);
    }
    assert Ordered([t], prio) by {
      OrderedOne(w, prio);
      OrderedOne(l, prio);
      OrderedOne(t, prio);
    }
  }

  lemma AdoptNodes<N>(w: Tree<N>, l: Tree<N>, prio: map<N, Double>)
    ensures Nodes([Adopt(w, l, prio)]) == Nodes([w]) + Nodes([l])
  {
    AdoptKids(w, l, prio);
    NodesOne(w);
    NodesOne(Adopt(w, l, prio));
  }

  lemma LinkNodes<N>(cur: Tree<N>, temp: Tree<N>, prio: map<N, Double>)
    ensures Nodes([Link(cur, temp, prio)]) == Nodes([cur]) + Nodes([temp])
  {
    AdoptNodes(temp, cur, prio);
    AdoptNodes(cur, temp, prio);
  }

  /** The linked tree's root is the smaller of the two roots. */
  lemma LinkBound<N>(cur: Tree<N>, temp: Tree<N>, prio: map<N, Double>)
    requires !P(prio, cur.node).NaN? && !P(prio, temp.node).NaN?
    ensures Le(P(prio, Link(cur, temp, prio).node), P(prio, cur.node))
    ensures Le(P(prio, Link(cur, temp, prio).node), P(prio, temp.node))
  {
    LtTotal(P(prio, temp.node), P(prio, cur.node));
  }

  lemma LinkKeeps<N>(cur: Tree<N>, temp: Tree<N>, prio: map<N, Double>)
    requires Ordered([cur], prio) && Ordered([temp], prio) && Rank(cur) == Rank(temp)
    ensures var t := Link(cur, temp, prio);
      && t.node in {cur.node, temp.node} && Rank(t) == Rank(cur) + 1
      && Le(P(prio, t.node), P(prio, cur.node)) && Le(P(prio, t.node), P(prio, temp.node))
      && Nodes([t]) == Nodes([cur]) + Nodes([temp])
      && Ordered([t], prio)
  {
    var a, b := P(prio, cur.node), P(prio, temp.node);
    assert !a.NaN? && !b.NaN? by {
      OrderedOne(cur, prio);
      OrderedOne(temp, prio);
    }
    LtTotal(b, a);
    var (w, l) := if Lt(b, a) then (temp, cur) else (cur, temp);
    assert Le(P(prio, w.node), P(prio, l.node)) && Le(P(prio, w.node), P(prio, w.node));
    AdoptKeeps(w, l, prio);
    assert Nodes([w]) + Nodes([l]) == Nodes([cur]) + Nodes([temp]);
  }

  /** Taking the tree at position `i` out of a forest. */
  lemma Removal<N>(ts: seq<Tree<N>>, i: nat, prio: map<N, Double>)
    requires i < |ts|
    ensures Nodes(ts) == Nodes(ts[..i] + ts[i + 1..]) + Nodes([ts[i]])
    ensures Ordered(ts, prio) <==> Ordered(ts[..i] + ts[i + 1..], prio) && Ordered([ts[i]], prio)
  {
    Split(ts, i, prio);
    NodesAppend(ts[..i], ts[i + 1..]);
    OrderedAppend(ts[..i], ts[i + 1..], prio);
  }

  /** No two trees of the forest have the same rank. */
  ghost predicate DistinctRanks<N>(ts: seq<Tree<N>>) {
    forall i, j | 0 <= i < j < |ts| :: Rank(ts[i]) != Rank(ts[j])
  }

  /** `n` is the node at the root of one of the trees. */
  predicate IsRoot<N(==)>(ts: seq<Tree<N>>, n: N) {
    exists t | t in ts :: t.node == n
  }

  /** The `visited` slot for rank `r`: the position of the processed root of that rank, if any. */
  function RankSlot<N>(done: seq<Tree<N>>, r: nat): (o: Option<nat>)
    ensures o.Some? ==> o.value < |done| && Rank(done[o.value]) == r
    ensures o.None? ==> forall t | t in done :: Rank(t) != r
  {
    if done == [] then None
    else if Rank(done[0]) == r then Some(0)
    else match RankSlot(done[1..], r)
      case None => None
      case Some(i) => Some(i + 1)
  }

  /**
   * The inner loop of the consolidation: while a processed root has the rank
   * of `cur`, it leaves the processed roots and is linked with `cur`.
   */
  function Absorb<N>(done: seq<Tree<N>>, cur: Tree<N>, prio: map<N, Double>): (seq<Tree<N>>, Tree<N>)
    decreases |done|
  {
    match RankSlot(done, Rank(cur))
    case None => (done, cur)
    case Some(i) => Absorb(done[..i] + done[i + 1..], Link(cur, done[i], prio), prio)
  }

  /**
   * The outer loop: each remaining root is absorbed and joins the processed
   * ones, and `min` moves to it when it is below `min` (strictly below when
   * `strict`, as the loop is written; not above when not).
   */
  function Scan<N>(done: seq<Tree<N>>, todo: seq<Tree<N>>, min: N, prio: map<N, Double>, strict: bool): (seq<Tree<N>>, N)
    decreases |todo|
  {
    if todo == [] then (done, min)
    else
      var (d, c) := Absorb(done, todo[0], prio);
      Scan(d + [c], todo[1..], NextMin(c, min, prio, strict), prio, strict)
  }

  /** `min` after the root `c` joined the processed roots. */
  function NextMin<N>(c: Tree<N>, min: N, prio: map<N, Double>, strict: bool): N {
    var below := if strict then Lt(P(prio, c.node), P(prio, min)) else Le(P(prio, c.node), P(prio, min));
    if below then c.node else min
  }

  /** Consolidation of a root ring read from `min`: the roots and the new `min`. */
  function Consolidate<N>(ring: seq<Tree<N>>, prio: map<N, Double>, strict: bool): (seq<Tree<N>>, N)
    requires ring != []
  {
    Scan([ring[0]], ring[1..], ring[0].node, prio, strict)
  }

  /** The position of the tree whose root is `n`. */
  function RootIndex<N(==)>(ts: seq<Tree<N>>, n: N): (i: nat)
    requires IsRoot(ts, n)
    ensures i < |ts| && ts[i].node == n
  {
    if ts[0].node == n then 0
    else
      assert IsRoot(ts[1..], n) by {
        var t :| t in ts && t.node == n;
        assert t in ts[1..];
      }
      RootIndex(ts[1..], n) + 1
  }

  /** The root ring read from the root `n`. */
  function RotateTo<N(==)>(ts: seq<Tree<N>>, n: N): seq<Tree<N>>
    requires IsRoot(ts, n)
  {
    var i := RootIndex(ts, n);
    ts[i..] + ts[..i]
  }

  /** dequeueMin's new root ring, with the minimum update corrected to `<=`. */
  function DequeueRoots<N(==)>(ts: seq<Tree<N>>, prio: map<N, Double>): seq<Tree<N>>
    requires ts != []
  {
    var spliced := Splice(ts);
    if spliced == [] then []
    else
      var (d, m) := Consolidate(spliced, prio, false);
      if IsRoot(d, m) then RotateTo(d, m) else d
  }

  lemma DistinctSnoc<N>(ts: seq<Tree<N>>, t: Tree<N>)
    requires DistinctRanks(ts) && forall u | u in ts :: Rank(u) != Rank(t)
    ensures DistinctRanks(ts + [t])
  {
    var r := ts + [t];
    forall i, j | 0 <= i < j < |r|
      ensures Rank(r[i]) != Rank(r[j])
    {
      if j == |ts| {
        assert r[i] in ts;
      }
    }
  }

  lemma DistinctRemove<N>(ts: seq<Tree<N>>, i: nat)
    requires i < |ts| && DistinctRanks(ts)
    ensures DistinctRanks(ts[..i] + ts[i + 1..])
  {
    var r := ts[..i] + ts[i + 1..];
    forall a, b | 0 <= a < b < |r|
      ensures Rank(r[a]) != Rank(r[b])
    {
      var a', b' := if a < i then a else a + 1, if b < i then b else b + 1;
      assert r[a] == ts[a'] && r[b] == ts[b'];
    }
  }

  /** The trees left after taking out position `i` are the others. */
  lemma Rest<N>(ts: seq<Tree<N>>, i: nat)
    requires i < |ts|
    ensures forall t | t in ts[..i] + ts[i + 1..] :: t in ts
    ensures forall t | t in ts && t != ts[i] :: t in ts[..i] + ts[i + 1..]
  {
    forall t | t in ts && t != ts[i]
      ensures t in ts[..i] + ts[i + 1..]
    {
      var k :| 0 <= k < |ts| && ts[k] == t;
      if k < i {
        assert t == ts[..i][k];
      } else {
        assert t == ts[i + 1..][k - i - 1];
      }
    }
  }

  /** Absorbing keeps every node. */
  lemma {:induction false} AbsorbNodes<N>(done: seq<Tree<N>>, cur: Tree<N>, prio: map<N, Double>)
    ensures Nodes(Absorb(done, cur, prio).0) + Nodes([Absorb(done, cur, prio).1]) == Nodes(done) + Nodes([cur])
    decreases |done|
  {
    match RankSlot(done, Rank(cur))
    case None =>
    case Some(i) =>
      Removal(done, i, map[]);
      LinkNodes(cur, done[i], prio);
      AbsorbNodes(done[..i] + done[i + 1..], Link(cur, done[i], prio), prio);
  }

  /** Absorbing keeps the heap order. */
  lemma {:induction false} AbsorbOrdered<N>(done: seq<Tree<N>>, cur: Tree<N>, prio: map<N, Double>)
    requires Ordered(done, prio) && Ordered([cur], prio)
    ensures Ordered(Absorb(done, cur, prio).0, prio) && Ordered([Absorb(done, cur, prio).1], prio)
    decreases |done|
  {
    match RankSlot(done, Rank(cur))
    case None =>
    case Some(i) =>
      Removal(done, i, prio);
      LinkKeeps(cur, done[i], prio);
      AbsorbOrdered(done[..i] + done[i + 1..], Link(cur, done[i], prio), prio);
  }

  /** After absorbing, no two processed roots share a rank. */
  lemma {:induction false} AbsorbRanks<N>(done: seq<Tree<N>>, cur: Tree<N>, prio: map<N, Double>)
    requires DistinctRanks(done)
    ensures DistinctRanks(Absorb(done, cur, prio).0 + [Absorb(done, cur, prio).1])
    decreases |done|
  {
    match RankSlot(done, Rank(cur))
    case None =>
      DistinctSnoc(done, cur);
    case Some(i) =>
      DistinctRemove(done, i);
      AbsorbRanks(done[..i] + done[i + 1..], Link(cur, done[i], prio), prio);
  }

  /** The processed roots left after absorbing are processed roots from before. */
  lemma {:induction false} AbsorbMembers<N>(done: seq<Tree<N>>, cur: Tree<N>, prio: map<N, Double>)
    ensures forall t | t in Absorb(done, cur, prio).0 :: t in done
    decreases |done|
  {
    match RankSlot(done, Rank(cur))
    case None =>
    case Some(i) =>
      Rest(done, i);
      AbsorbMembers(done[..i] + done[i + 1..], Link(cur, done[i], prio), prio);
  }

  /** The absorbing tree's root is at most `cur` and every processed root it took in. */
  lemma {:induction false} AbsorbBound<N>(done: seq<Tree<N>>, cur: Tree<N>, prio: map<N, Double>)
    requires Ordered(done, prio) && Ordered([cur], prio)
    ensures Le(P(prio, Absorb(done, cur, prio).1.node), P(prio, cur.node))
    ensures forall t | t in done :: t in Absorb(done, cur, prio).0 || Le(P(prio, Absorb(done, cur, prio).1.node), P(prio, t.node))
    decreases |done|
  {
    match RankSlot(done, Rank(cur))
    case None =>
      OrderedOne(cur, prio);
    case Some(i) =>
      AbsorbStep(done, cur, i, prio);
  }

  lemma {:induction false} AbsorbStep<N>(done: seq<Tree<N>>, cur: Tree<N>, i: nat, prio: map<N, Double>)
    requires Ordered(done, prio) && Ordered([cur], prio)
    requires RankSlot(done, Rank(cur)) == Some(i)
    ensures Le(P(prio, Absorb(done, cur, prio).1.node), P(prio, cur.node))
    ensures forall t | t in done :: t in Absorb(done, cur, prio).0 || Le(P(prio, Absorb(done, cur, prio).1.node), P(prio, t.node))
    decreases |done|, 0
  {
    var rest := done[..i] + done[i + 1..];
    var l := Link(cur, done[i], prio);
    assert Ordered(rest, prio) && Ordered([done[i]], prio) && Ordered([l], prio) by {
      Removal(done, i, prio);
      LinkKeeps(cur, done[i], prio);
    }
    assert Le(P(prio, l.node), P(prio, cur.node)) && Le(P(prio, l.node), P(prio, done[i].node)) by {
      OrderedOne(cur, prio);
      OrderedOne(done[i], prio);
      LinkBound(cur, done[i], prio);
    }
    Rest(done, i);
    AbsorbBound(rest, l, prio);
    var c := Absorb(rest, l, prio).1;
    LeTransitive(P(prio, c.node), P(prio, l.node), P(prio, cur.node));
    LeTransitive(P(prio, c.node), P(prio, l.node), P(prio, done[i].node));
  }

  lemma {:induction false} ScanNodes<N>(done: seq<Tree<N>>, todo: seq<Tree<N>>, m: N, prio: map<N, Double>, strict: bool)
    ensures Nodes(Scan(done, todo, m, prio, strict).0) == Nodes(done) + Nodes(todo)
    decreases |todo|
  {
    if todo != [] {
      var (d, c) := Absorb(done, todo[0], prio);
      AbsorbNodes(done, todo[0], prio);
      Head(todo, map[]);
      NodesAppend(d, [c]);
      ScanNodes(d + [c], todo[1..], NextMin(c, m, prio, strict), prio, strict);
    }
  }

  lemma {:induction false} ScanOrdered<N>(done: seq<Tree<N>>, todo: seq<Tree<N>>, m: N, prio: map<N, Double>, strict: bool)
    requires Ordered(done, prio) && Ordered(todo, prio)
    ensures Ordered(Scan(done, todo, m, prio, strict).0, prio)
    decreases |todo|
  {
    if todo != [] {
      var (d, c) := Absorb(done, todo[0], prio);
      Head(todo, prio);
      AbsorbOrdered(done, todo[0], prio);
      OrderedAppend(d, [c], prio);
      ScanOrdered(d + [c], todo[1..], NextMin(c, m, prio, strict), prio, strict);
    }
  }

  lemma {:induction false} ScanRanks<N>(done: seq<Tree<N>>, todo: seq<Tree<N>>, m: N, prio: map<N, Double>, strict: bool)
    requires DistinctRanks(done)
    ensures DistinctRanks(Scan(done, todo, m, prio, strict).0)
    decreases |todo|
  {
    if todo != [] {
      var (d, c) := Absorb(done, todo[0], prio);
      AbsorbRanks(done, todo[0], prio);
      ScanRanks(d + [c], todo[1..], NextMin(c, m, prio, strict), prio, strict);
    }
  }

  /** With `<=`, `min` stays a root that is least among the processed roots. */
  lemma {:induction false} ScanMin<N>(done: seq<Tree<N>>, todo: seq<Tree<N>>, m: N, prio: map<N, Double>)
    requires Ordered(done, prio) && Ordered(todo, prio)
    requires IsRoot(done, m) && forall t | t in done :: Le(P(prio, m), P(prio, t.node))
    ensures IsRoot(Scan(done, todo, m, prio, false).0, Scan(done, todo, m, prio, false).1)
    ensures forall t | t in Scan(done, todo, m, prio, false).0 ::
      Le(P(prio, Scan(done, todo, m, prio, false).1), P(prio, t.node))
    decreases |todo|
  {
    if todo != [] {
      var (d, c) := Absorb(done, todo[0], prio);
      Head(todo, prio);
      AbsorbOrdered(done, todo[0], prio);
      OrderedAppend(d, [c], prio);
      MinStep(done, todo[0], m, prio);
      ScanMin(d + [c], todo[1..], NextMin(c, m, prio, false), prio);
    }
  }

  lemma MinStep<N>(done: seq<Tree<N>>, cur: Tree<N>, m: N, prio: map<N, Double>)
    requires Ordered(done, prio) && Ordered([cur], prio)
    requires IsRoot(done, m) && forall t | t in done :: Le(P(prio, m), P(prio, t.node))
    ensures var (d, c) := Absorb(done, cur, prio);
      && IsRoot(d + [c], NextMin(c, m, prio, false))
      && forall t | t in d + [c] :: Le(P(prio, NextMin(c, m, prio, false)), P(prio, t.node))
  {
    var (d, c) := Absorb(done, cur, prio);
    AbsorbBound(done, cur, prio);
    AbsorbMembers(done, cur, prio);
    AbsorbOrdered(done, cur, prio);
    OrderedOne(c, prio);
    var t0 :| t0 in done && t0.node == m;
    LtTotal(P(prio, c.node), P(prio, m));
    if Le(P(prio, c.node), P(prio, m)) {
      assert c in d + [c];
      forall t | t in d + [c]
        ensures Le(P(prio, c.node), P(prio, t.node))
      {
        if t in d {
          LeTransitive(P(prio, c.node), P(prio, m), P(prio, t.node));
        }
      }
    } else {
      assert t0 in d + [c];
    }
  }

  lemma DistinctOne<N>(t: Tree<N>)
    ensures DistinctRanks([t])
  {
  }

  /**
   * Consolidation with `<=` keeps every node and the heap order, leaves
   * roots of pairwise distinct ranks, and ends with `min` at a least root.
   */
  lemma ConsolidateKeeps<N>(ring: seq<Tree<N>>, prio: map<N, Double>)
    requires ring != [] && Ordered(ring, prio)
    ensures var (d, m) := Consolidate(ring, prio, false);
      && Nodes(d) == Nodes(ring)
      && Ordered(d, prio)
      && DistinctRanks(d)
      && IsRoot(d, m)
      && forall t | t in d :: Le(P(prio, m), P(prio, t.node))
  {
    var r0 := ring[0];
    Head(ring, prio);
    OrderedOne(r0, prio);
    assert IsRoot([r0], r0.node) by {
      assert r0 in [r0];
    }
    DistinctOne(r0);
    ScanNodes([r0], ring[1..], r0.node, prio, false);
    ScanOrdered([r0], ring[1..], r0.node, prio, false);
    ScanRanks([r0], ring[1..], r0.node, prio, false);
    ScanMin([r0], ring[1..], r0.node, prio);
  }

  /** Reading the ring from another root changes nothing but the order. */
  lemma RotateKeeps<N>(ts: seq<Tree<N>>, n: N, prio: map<N, Double>)
    requires IsRoot(ts, n)
    ensures var r := RotateTo(ts, n);
      && r != [] && r[0].node == n
      && Nodes(r) == Nodes(ts)
      && (Ordered(r, prio) <==> Ordered(ts, prio))
      && (DistinctRanks(r) <==> DistinctRanks(ts))
      && (forall t :: t in r <==> t in ts)
  {
    var i := RootIndex(ts, n);
    var r := ts[i..] + ts[..i];
    assert ts == ts[..i] + ts[i..];
    NodesAppend(ts[..i], ts[i..]);
    NodesAppend(ts[i..], ts[..i]);
    OrderedAppend(ts[..i], ts[i..], prio);
    OrderedAppend(ts[i..], ts[..i], prio);
    RotateRanks(ts, i);
  }

  lemma RotateRanks<N>(ts: seq<Tree<N>>, i: nat)
    requires i <= |ts|
    ensures DistinctRanks(ts[i..] + ts[..i]) <==> DistinctRanks(ts)
  {
    var r := ts[i..] + ts[..i];
    var k := |ts| - i;
    assert forall a | 0 <= a < |r| :: r[a] == ts[if a < k then a + i else a - k];
    if DistinctRanks(ts) {
      forall a, b | 0 <= a < b < |r|
        ensures Rank(r[a]) != Rank(r[b])
      {
        var x, y := if a < k then a + i else a - k, if b < k then b + i else b - k;
        if x < y {
          assert Rank(ts[x]) != Rank(ts[y]);
        } else {
          assert Rank(ts[y]) != Rank(ts[x]);
        }
      }
    }
    if DistinctRanks(r) {
      forall a, b | 0 <= a < b < |ts|
        ensures Rank(ts[a]) != Rank(ts[b])
      {
        var x, y := if a < i then a + k else a - i, if b < i then b + k else b - i;
        assert ts[a] == r[x] && ts[b] == r[y];
        if x < y {
          assert Rank(r[x]) != Rank(r[y]);
        } else {
          assert Rank(r[y]) != Rank(r[x]);
        }
      }
    }
  }

  /**
   * dequeueMin's root ring, with the corrected minimum update: the old
   * minimum's node is gone and nothing else, the heap order holds, the
   * first root is least and root ranks are pairwise distinct.
   */
  lemma DequeueRootsKeeps<N>(ts: seq<Tree<N>>, prio: map<N, Double>)
    requires ts != [] && Ordered(ts, prio)
    ensures var r := DequeueRoots(ts, prio);
      && Nodes(r) + multiset{ts[0].node} == Nodes(ts)
      && Ordered(r, prio) && MinFirst(r, prio) && DistinctRanks(r)
  {
    var spliced := Splice(ts);
    SpliceKeeps(ts, prio);
    if spliced != [] {
      var (d, m) := Consolidate(spliced, prio, false);
      ConsolidateKeeps(spliced, prio);
      RotateKeeps(d, m, prio);
    }
  }

  /**
   * The minimum update as written (`<`): two single-node roots of equal
   * priority are linked with the old minimum below the other root, and
   * `min` stays on it although it is no longer a root. With `<=`, `min`
   * moves to the new root.
   */
  lemma StrictTieLosesMin()
    ensures var prio := map[1 := Fin(1.0), 2 := Fin(1.0)];
      var ring := [Tree(1, false, []), Tree(2, false, [])];
      && Consolidate(ring, prio, true) == ([Tree(2, false, [Tree(1, false, [])])], 1)
      && !IsRoot(Consolidate(ring, prio, true).0, Consolidate(ring, prio, true).1)
      && Consolidate(ring, prio, false) == ([Tree(2, false, [Tree(1, false, [])])], 2)
  {
    var prio := map[1 := Fin(1.0), 2 := Fin(1.0)];
    var a, b := Tree(1, false, []), Tree(2, false, []);
    assert RankSlot([a], 0) == Some(0);
    assert Link(b, a, prio) == Tree(2, false, [a]);
    assert Absorb([a], b, prio) == ([], Tree(2, false, [a])) by {
      assert [a][..0] + [a][1..] == [];
    }
    assert [] + [Tree(2, false, [a])] == [Tree(2, false, [a])];
  }

  /** The position of the tree of `ts` that holds `n`; `|ts|` when none does. */
  function Locate<N(==)>(ts: seq<Tree<N>>, n: N): (i: nat)
    ensures i <= |ts|
    ensures i < |ts| ==> n in Nodes([ts[i]])
  {
    if ts == [] || n in Nodes([ts[0]]) then 0 else Locate(ts[1..], n) + 1
  }

  lemma {:induction false} LocateFinds<N>(ts: seq<Tree<N>>, n: N)
    requires n in Nodes(ts)
    ensures Locate(ts, n) < |ts|
  {
    Head(ts, map[]);
    if n !in Nodes([ts[0]]) {
      LocateFinds(ts[1..], n);
    }
  }

  /** The node whose child is `n` (`t`'s own node when `n` is not below `t`). */
  function ParentNode<N(==)>(t: Tree<N>, n: N): N
    decreases t
  {
    var i := Locate(t.kids, n);
    if i == |t.kids| || t.kids[i].node == n then t.node else ParentNode(t.kids[i], n)
  }

  function Unmark<N>(t: Tree<N>): Tree<N> {
    Tree(t.node, false, t.kids)
  }

  /**
   * The outcome of cutting below a tree: what is left of it, the subtrees cut
   * loose in the order they reach the root ring, and whether the tree has
   * lost a child while marked and must be cut from its own parent.
   */
  datatype Cutting<N> = Cutting(rest: Tree<N>, cuts: seq<Tree<N>>, lost: bool)

  /**
   * `t` has lost a child and keeps `kids`: a root is left alone, an unmarked
   * tree becomes marked, and a marked one is cut in turn.
   */
  function LoseChild<N>(t: Tree<N>, kids: seq<Tree<N>>, cuts: seq<Tree<N>>, root: bool): Cutting<N> {
    if root then Cutting(Tree(t.node, t.marked, kids), cuts, false)
    else if t.marked then Cutting(Tree(t.node, t.marked, kids), cuts, true)
    else Cutting(Tree(t.node, true, kids), cuts, false)
  }

  /**
   * cut: `n`'s subtree leaves the children of its parent unmarked, and the
   * cascade climbs through marked ancestors; `root` says whether `t` is a
   * root (its `parent.parent` is null).
   */
  function CutBelow<N(==)>(t: Tree<N>, n: N, root: bool): Cutting<N>
    decreases t
  {
    var i := Locate(t.kids, n);
    if i == |t.kids| then Cutting(t, [], false)
    else
      var k := t.kids[i];
      var others := t.kids[..i] + t.kids[i + 1..];
      if k.node == n then LoseChild(t, others, [Unmark(k)], root)
      else
        var c := CutBelow(k, n, false);
        if c.lost then LoseChild(t, others, c.cuts + [Unmark(c.rest)], root)
        else Cutting(Tree(t.node, t.marked, t.kids[..i] + [c.rest] + t.kids[i + 1..]), c.cuts, false)
  }

  /** insert, once per cut subtree, in order. */
  function InsertAll<N>(ts: seq<Tree<N>>, cuts: seq<Tree<N>>, prio: map<N, Double>): seq<Tree<N>>
    requires ts != []
    decreases |cuts|
  {
    if cuts == [] then ts else InsertAll(InsertRoot(ts, cuts[0], prio), cuts[1..], prio)
  }

  /**
   * decreaseKeyUnchecked on the root ring, `prio` already holding the new
   * priority of `n`: a root becomes `min` when not above it; a child not
   * above its parent is cut.
   */
  function DecreaseRoots<N(==)>(roots: seq<Tree<N>>, n: N, prio: map<N, Double>): seq<Tree<N>> {
    var j := Locate(roots, n);
    if j == |roots| then roots
    else
      var t := roots[j];
      if t.node == n then
        if Le(P(prio, n), P(prio, roots[0].node)) then roots[j..] + roots[..j] else roots
      else if Lt(P(prio, ParentNode(t, n)), P(prio, n)) then roots
      else
        var c := CutBelow(t, n, true);
        InsertAll(roots[..j] + [c.rest] + roots[j + 1..], c.cuts, prio)
  }

  lemma LoseChildNodes<N>(t: Tree<N>, kids: seq<Tree<N>>, cuts: seq<Tree<N>>, root: bool)
    ensures var c := LoseChild(t, kids, cuts, root);
      && c.rest.node == t.node && c.rest.kids == kids && c.cuts == cuts
      && Nodes([c.rest]) == multiset{t.node} + Nodes(kids)
      && (root ==> !c.lost)
  {
    NodesOne(LoseChild(t, kids, cuts, root).rest);
  }

  lemma UnmarkSame<N>(t: Tree<N>, prio: map<N, Double>)
    ensures Nodes([Unmark(t)]) == Nodes([t])
    ensures Ordered([Unmark(t)], prio) <==> Ordered([t], prio)
  {
    NodesOne(t);
    NodesOne(Unmark(t));
    OrderedOne(t, prio);
    OrderedOne(Unmark(t), prio);
  }

  /** Cutting moves nodes out of `t` into the cut subtrees, and loses none. */
  lemma {:induction false} CutNodes<N>(t: Tree<N>, n: N, root: bool)
    requires n in Nodes(t.kids)
    ensures var c := CutBelow(t, n, root);
      && c.rest.node == t.node
      && Nodes([c.rest]) + Nodes(c.cuts) == Nodes([t])
      && (root ==> !c.lost)
    decreases t, 1
  {
    LocateFinds(t.kids, n);
    var i := Locate(t.kids, n);
    if t.kids[i].node == n {
      CutHere(t, n, root);
    } else {
      CutNodesDeeper(t, i, n, root);
    }
  }

  lemma {:induction false} CutNodesDeeper<N>(t: Tree<N>, i: nat, n: N, root: bool)
    requires i == Locate(t.kids, n) < |t.kids| && t.kids[i].node != n
    ensures var c := CutBelow(t, n, root);
      && c.rest.node == t.node
      && Nodes([c.rest]) + Nodes(c.cuts) == Nodes([t])
      && (root ==> !c.lost)
    decreases t, 0
  {
    var k := t.kids[i];
    NodesOne(k);
    CutNodes(k, n, false);
    var c := CutBelow(k, n, false);
    if c.lost {
      CutUnfoldLost(t, n, root);
      LostNodes(t, i, c.rest, c.cuts, root);
    } else {
      CutKept(t, n, root);
    }
  }

  lemma CutHere<N>(t: Tree<N>, n: N, root: bool)
    requires Locate(t.kids, n) < |t.kids| && t.kids[Locate(t.kids, n)].node == n
    ensures var c := CutBelow(t, n, root);
      && c.rest.node == t.node && (root ==> !c.lost)
      && Nodes([c.rest]) + Nodes(c.cuts) == Nodes([t])
  {
    var i := Locate(t.kids, n);
    var kids, cuts := t.kids[..i] + t.kids[i + 1..], [Unmark(t.kids[i])];
    var c := CutBelow(t, n, root);
    CutUnfoldHere(t, n, root);
    assert c == LoseChild(t, kids, cuts, root);
    LoseChildNodes(t, kids, cuts, root);
    Removal(t.kids, i, map[]);
    UnmarkSame(t.kids[i], map[]);
    NodesOne(t);
    assert Nodes([c.rest]) == multiset{t.node} + Nodes(kids);
    assert Nodes(c.cuts) == Nodes([t.kids[i]]);
  }

  /** Moving the cut child of `t` and `t`'s own unmarked child out with the cuts keeps the nodes. */
  lemma LostNodes<N>(t: Tree<N>, i: nat, r: Tree<N>, cuts: seq<Tree<N>>, root: bool)
    requires i < |t.kids| && Nodes([r]) + Nodes(cuts) == Nodes([t.kids[i]])
    ensures var d := LoseChild(t, t.kids[..i] + t.kids[i + 1..], cuts + [Unmark(r)], root);
      && d.rest.node == t.node && (root ==> !d.lost)
      && Nodes([d.rest]) + Nodes(d.cuts) == Nodes([t])
  {
    var others := t.kids[..i] + t.kids[i + 1..];
    var d := LoseChild(t, others, cuts + [Unmark(r)], root);
    LoseChildNodes(t, others, cuts + [Unmark(r)], root);
    calc {
      Nodes([d.rest]) + Nodes(d.cuts);
      (multiset{t.node} + Nodes(others)) + Nodes(cuts + [Unmark(r)]);
      { NodesAppend(cuts, [Unmark(r)]); UnmarkSame(r, map[]); }
      (multiset{t.node} + Nodes(others)) + (Nodes(cuts) + Nodes([r]));
      multiset{t.node} + (Nodes(others) + Nodes([t.kids[i]]));
      { Removal(t.kids, i, map[]); }
      multiset{t.node} + Nodes(t.kids);
      { NodesOne(t); }
      Nodes([t]);
    }
  }

  lemma CutKept<N>(t: Tree<N>, n: N, root: bool)
    requires Locate(t.kids, n) < |t.kids|
    requires t.kids[Locate(t.kids, n)].node != n && !CutBelow(t.kids[Locate(t.kids, n)], n, false).lost
    requires var k := t.kids[Locate(t.kids, n)];
      Nodes([CutBelow(k, n, false).rest]) + Nodes(CutBelow(k, n, false).cuts) == Nodes([k])
    ensures var c := CutBelow(t, n, root);
      && c.rest.node == t.node && (root ==> !c.lost)
      && Nodes([c.rest]) + Nodes(c.cuts) == Nodes([t])
  {
    var i := Locate(t.kids, n);
    var c := CutBelow(t.kids[i], n, false);
    assert CutBelow(t, n, root) == Cutting(Tree(t.node, t.marked, t.kids[..i] + [c.rest] + t.kids[i + 1..]), c.cuts, false) by {
      CutUnfoldKept(t, n, root);
    }
    KeptNodes(t, i, c.rest, c.cuts);
  }

  /** Replacing the `i`-th child of `t` by what is left of it keeps the nodes, counting the cuts. */
  lemma KeptNodes<N>(t: Tree<N>, i: nat, r: Tree<N>, cuts: seq<Tree<N>>)
    requires i < |t.kids| && Nodes([r]) + Nodes(cuts) == Nodes([t.kids[i]])
    ensures Nodes([Tree(t.node, t.marked, t.kids[..i] + [r] + t.kids[i + 1..])]) + Nodes(cuts) == Nodes([t])
  {
    var kids := t.kids[..i] + [r] + t.kids[i + 1..];
    calc {
      Nodes([Tree(t.node, t.marked, kids)]) + Nodes(cuts);
      { NodesOne(Tree(t.node, t.marked, kids)); }
      multiset{t.node} + Nodes(kids) + Nodes(cuts);
      { Three(t.kids[..i], [r], t.kids[i + 1..], map[]); }
      multiset{t.node} + (Nodes(t.kids[..i]) + Nodes([r]) + Nodes(t.kids[i + 1..])) + Nodes(cuts);
      multiset{t.node} + (Nodes(t.kids[..i]) + Nodes([t.kids[i]]) + Nodes(t.kids[i + 1..]));
      { Split(t.kids, i, map[]); }
      multiset{t.node} + Nodes(t.kids);
      { NodesOne(t); }
      Nodes([t]);
    }
  }

  /** A node held once by `t` and found in its `i`-th child is nowhere else in `t`. */
  lemma OnceInKid<N>(t: Tree<N>, i: nat, n: N)
    requires i < |t.kids| && n in Nodes([t.kids[i]]) && Nodes([t])[n] == 1
    ensures t.node != n && Nodes([t.kids[i]])[n] == 1
    ensures n !in Nodes(t.kids[..i] + t.kids[i + 1..])
    ensures n !in Nodes(t.kids[..i]) && n !in Nodes(t.kids[i + 1..])
  {
    NodesOne(t);
    Split(t.kids, i, map[]);
    NodesAppend(t.kids[..i], t.kids[i + 1..]);
  }

  /** Lowering the root's priority, to no more than it was, keeps a tree heap-ordered. */
  lemma RootDecrease<N>(k: Tree<N>, prio: map<N, Double>, p: Double)
    requires Ordered([k], prio) && k.node !in Nodes(k.kids) && !p.NaN? && Le(p, P(prio, k.node))
    ensures Ordered([k], prio[k.node := p])
  {
    var q := prio[k.node := p];
    OrderedOne(k, prio);
    OrderedOne(k, q);
    OrderedFrame(k.kids, prio, k.node, p);
    forall c | c in k.kids
      ensures Le(P(q, k.node), P(q, c.node))
    {
      KidNode(k.kids, c);
      LeTransitive(p, P(prio, k.node), P(prio, c.node));
    }
  }

  /** `t` without its `i`-th child, which holds `n`, is heap-ordered after `n`'s decrease. */
  lemma OthersOrdered<N>(t: Tree<N>, i: nat, n: N, m: bool, prio: map<N, Double>, p: Double)
    requires i < |t.kids| && n in Nodes([t.kids[i]]) && Nodes([t])[n] == 1 && Ordered([t], prio)
    ensures Ordered([Tree(t.node, m, t.kids[..i] + t.kids[i + 1..])], prio[n := p])
  {
    var others := t.kids[..i] + t.kids[i + 1..];
    var q := prio[n := p];
    OnceInKid(t, i, n);
    OrderedOne(t, prio);
    assert Ordered(others, q) by {
      Removal(t.kids, i, prio);
      OrderedFrame(others, prio, n, p);
    }
    OthersBelow(t, i, n, prio, p);
    OrderedOne(Tree(t.node, m, others), q);
  }

  /** `t`'s other children stay at or above `t` after `n`'s decrease. */
  lemma OthersBelow<N>(t: Tree<N>, i: nat, n: N, prio: map<N, Double>, p: Double)
    requires i < |t.kids| && t.node != n && n !in Nodes(t.kids[..i] + t.kids[i + 1..])
    requires forall k | k in t.kids :: Le(P(prio, t.node), P(prio, k.node))
    ensures forall c | c in t.kids[..i] + t.kids[i + 1..] ::
      Le(P(prio[n := p], t.node), P(prio[n := p], c.node))
  {
    var others := t.kids[..i] + t.kids[i + 1..];
    forall c | c in others
      ensures Le(P(prio[n := p], t.node), P(prio[n := p], c.node))
    {
      Rest(t.kids, i);
      KidNode(others, c);
      assert Le(P(prio, t.node), P(prio, c.node));
    }
  }

  /** `n`'s own subtree, cut loose and lowered, is heap-ordered. */
  lemma CutRootOrdered<N>(k: Tree<N>, prio: map<N, Double>, p: Double)
    requires Ordered([k], prio) && Nodes([k])[k.node] == 1 && !p.NaN? && Le(p, P(prio, k.node))
    ensures Ordered([Unmark(k)], prio[k.node := p])
  {
    NodesOne(k);
    RootDecrease(k, prio, p);
    UnmarkSame(k, prio[k.node := p]);
  }

  /**
   * After `n`'s priority drops to `p` (not above its old priority), what is
   * left of `t` and every cut subtree are heap-ordered.
   */
  lemma {:induction false} CutOrdered<N>(t: Tree<N>, n: N, root: bool, prio: map<N, Double>, p: Double)
    requires n in Nodes(t.kids) && Nodes([t])[n] == 1 && Ordered([t], prio)
    requires !p.NaN? && Le(p, P(prio, n))
    ensures Ordered([CutBelow(t, n, root).rest], prio[n := p])
    ensures Ordered(CutBelow(t, n, root).cuts, prio[n := p])
    decreases t, 1
  {
    LocateFinds(t.kids, n);
    var i := Locate(t.kids, n);
    var k := t.kids[i];
    if k.node == n {
      CutUnfoldHere(t, n, root);
      CutHereOrdered(t, i, n, root, prio, p);
    } else {
      CutDeeperOrdered(t, i, n, root, prio, p);
    }
  }

  lemma {:induction false} CutDeeperOrdered<N>(t: Tree<N>, i: nat, n: N, root: bool, prio: map<N, Double>, p: Double)
    requires n in Nodes(t.kids) && Nodes([t])[n] == 1 && Ordered([t], prio)
    requires !p.NaN? && Le(p, P(prio, n))
    requires i == Locate(t.kids, n) < |t.kids| && t.kids[i].node != n
    ensures Ordered([CutBelow(t, n, root).rest], prio[n := p])
    ensures Ordered(CutBelow(t, n, root).cuts, prio[n := p])
    decreases t, 0
  {
    var k := t.kids[i];
    KidOrdered(t, i, n, prio);
    NodesOne(k);
    CutOrdered(k, n, false, prio, p);
    CutNodes(k, n, false);
    if CutBelow(k, n, false).lost {
      CutFinishLost(t, i, n, root, prio, p);
    } else {
      CutFinishKept(t, i, n, root, prio, p);
    }
  }

  /** How `CutBelow` ends when `n` is a child of `t`. */
  lemma CutUnfoldHere<N>(t: Tree<N>, n: N, root: bool)
    requires Locate(t.kids, n) < |t.kids| && t.kids[Locate(t.kids, n)].node == n
    ensures var i := Locate(t.kids, n);
      CutBelow(t, n, root) == LoseChild(t, t.kids[..i] + t.kids[i + 1..], [Unmark(t.kids[i])], root)
  {
  }

  /** How `CutBelow` ends when the cascade reaches `t`. */
  lemma CutUnfoldLost<N>(t: Tree<N>, n: N, root: bool)
    requires Locate(t.kids, n) < |t.kids|
    requires t.kids[Locate(t.kids, n)].node != n && CutBelow(t.kids[Locate(t.kids, n)], n, false).lost
    ensures var i := Locate(t.kids, n);
      var c := CutBelow(t.kids[i], n, false);
      CutBelow(t, n, root) == LoseChild(t, t.kids[..i] + t.kids[i + 1..], c.cuts + [Unmark(c.rest)], root)
  {
  }

  /** How `CutBelow` ends when the cascade stops below `t`. */
  lemma CutUnfoldKept<N>(t: Tree<N>, n: N, root: bool)
    requires Locate(t.kids, n) < |t.kids|
    requires t.kids[Locate(t.kids, n)].node != n && !CutBelow(t.kids[Locate(t.kids, n)], n, false).lost
    ensures var i := Locate(t.kids, n);
      var c := CutBelow(t.kids[i], n, false);
      CutBelow(t, n, root) == Cutting(Tree(t.node, t.marked, t.kids[..i] + [c.rest] + t.kids[i + 1..]), c.cuts, false)
  {
  }

  lemma CutFinishLost<N>(t: Tree<N>, i: nat, n: N, root: bool, prio: map<N, Double>, p: Double)
    requires n in Nodes(t.kids) && Nodes([t])[n] == 1 && Ordered([t], prio)
    requires i == Locate(t.kids, n) < |t.kids| && t.kids[i].node != n && n in Nodes(t.kids[i].kids)
    requires CutBelow(t.kids[i], n, false).lost
    requires Ordered([CutBelow(t.kids[i], n, false).rest], prio[n := p])
    requires Ordered(CutBelow(t.kids[i], n, false).cuts, prio[n := p])
    ensures Ordered([CutBelow(t, n, root).rest], prio[n := p])
    ensures Ordered(CutBelow(t, n, root).cuts, prio[n := p])
  {
    CutUnfoldLost(t, n, root);
    CutLostOrdered(t, i, n, CutBelow(t.kids[i], n, false), root, prio, p);
  }

  lemma CutFinishKept<N>(t: Tree<N>, i: nat, n: N, root: bool, prio: map<N, Double>, p: Double)
    requires n in Nodes(t.kids) && Nodes([t])[n] == 1 && Ordered([t], prio)
    requires i == Locate(t.kids, n) < |t.kids| && t.kids[i].node != n && n in Nodes(t.kids[i].kids)
    requires !CutBelow(t.kids[i], n, false).lost
    requires Ordered([CutBelow(t.kids[i], n, false).rest], prio[n := p])
    requires Ordered(CutBelow(t.kids[i], n, false).cuts, prio[n := p])
    requires CutBelow(t.kids[i], n, false).rest.node == t.kids[i].node
    ensures Ordered([CutBelow(t, n, root).rest], prio[n := p])
    ensures Ordered(CutBelow(t, n, root).cuts, prio[n := p])
  {
    CutUnfoldKept(t, n, root);
    KeptOrdered(t, i, n, CutBelow(t.kids[i], n, false).rest, prio, p);
  }

  lemma KidOrdered<N>(t: Tree<N>, i: nat, n: N, prio: map<N, Double>)
    requires i < |t.kids| && n in Nodes([t.kids[i]]) && Nodes([t])[n] == 1 && Ordered([t], prio)
    ensures Ordered([t.kids[i]], prio) && Nodes([t.kids[i]])[n] == 1
  {
    OnceInKid(t, i, n);
    OrderedOne(t, prio);
    Split(t.kids, i, prio);
  }

  lemma CutHereOrdered<N>(t: Tree<N>, i: nat, n: N, root: bool, prio: map<N, Double>, p: Double)
    requires i < |t.kids| && t.kids[i].node == n && Nodes([t])[n] == 1 && Ordered([t], prio)
    requires !p.NaN? && Le(p, P(prio, n))
    ensures var c := LoseChild(t, t.kids[..i] + t.kids[i + 1..], [Unmark(t.kids[i])], root);
      Ordered([c.rest], prio[n := p]) && Ordered(c.cuts, prio[n := p])
  {
    var c := LoseChild(t, t.kids[..i] + t.kids[i + 1..], [Unmark(t.kids[i])], root);
    NodesOne(t.kids[i]);
    KidOrdered(t, i, n, prio);
    OthersOrdered(t, i, n, c.rest.marked, prio, p);
    CutRootOrdered(t.kids[i], prio, p);
  }

  lemma CutLostOrdered<N>(t: Tree<N>, i: nat, n: N, c: Cutting<N>, root: bool, prio: map<N, Double>, p: Double)
    requires i < |t.kids| && n in Nodes([t.kids[i]]) && Nodes([t])[n] == 1 && Ordered([t], prio)
    requires Ordered([c.rest], prio[n := p]) && Ordered(c.cuts, prio[n := p])
    ensures var d := LoseChild(t, t.kids[..i] + t.kids[i + 1..], c.cuts + [Unmark(c.rest)], root);
      Ordered([d.rest], prio[n := p]) && Ordered(d.cuts, prio[n := p])
  {
    var d := LoseChild(t, t.kids[..i] + t.kids[i + 1..], c.cuts + [Unmark(c.rest)], root);
    OthersOrdered(t, i, n, d.rest.marked, prio, p);
    OrderedAppend(c.cuts, [Unmark(c.rest)], prio[n := p]);
    UnmarkSame(c.rest, prio[n := p]);
  }

  /** `t` with its `i`-th child, which holds `n`, replaced by a heap-ordered tree with the same root. */
  lemma KeptOrdered<N>(t: Tree<N>, i: nat, n: N, r: Tree<N>, prio: map<N, Double>, p: Double)
    requires i < |t.kids| && n in Nodes([t.kids[i]]) && Nodes([t])[n] == 1 && Ordered([t], prio)
    requires t.kids[i].node != n && r.node == t.kids[i].node && Ordered([r], prio[n := p])
    ensures Ordered([Tree(t.node, t.marked, t.kids[..i] + [r] + t.kids[i + 1..])], prio[n := p])
  {
    var q := prio[n := p];
    var kids := t.kids[..i] + [r] + t.kids[i + 1..];
    OrderedOne(Tree(t.node, t.marked, kids), q);
    assert Ordered(kids, q) by {
      OnceInKid(t, i, n);
      OrderedOne(t, prio);
      Split(t.kids, i, prio);
      Three(t.kids[..i], [r], t.kids[i + 1..], q);
      OrderedFrame(t.kids[..i], prio, n, p);
      OrderedFrame(t.kids[i + 1..], prio, n, p);
    }
    KeptBound(t, i, n, r, prio, p);
  }

  lemma KeptBound<N>(t: Tree<N>, i: nat, n: N, r: Tree<N>, prio: map<N, Double>, p: Double)
    requires i < |t.kids| && n in Nodes([t.kids[i]]) && Nodes([t])[n] == 1 && Ordered([t], prio)
    requires t.kids[i].node != n && r.node == t.kids[i].node
    ensures forall c | c in t.kids[..i] + [r] + t.kids[i + 1..] :: Le(P(prio[n := p], t.node), P(prio[n := p], c.node))
  {
    var q := prio[n := p];
    var b := P(prio, t.node);
    OnceInKid(t, i, n);
    OrderedOne(t, prio);
    assert Le(b, P(q, r.node)) by {
      assert t.kids[i] in t.kids;
    }
    AboveParts(t.kids, i, b, prio);
    AboveFrame(t.kids[..i], b, prio, n, p);
    AboveFrame(t.kids[i + 1..], b, prio, n, p);
    AboveThree(t.kids[..i], r, t.kids[i + 1..], b, q);
  }

  /** What holds of every root of a forest holds of every root on either side of its `i`-th. */
  lemma AboveParts<N>(ks: seq<Tree<N>>, i: nat, b: Double, prio: map<N, Double>)
    requires i < |ks| && forall c | c in ks :: Le(b, P(prio, c.node))
    ensures forall c | c in ks[..i] :: Le(b, P(prio, c.node))
    ensures forall c | c in ks[i + 1..] :: Le(b, P(prio, c.node))
  {
    forall c | c in ks[..i] ensures c in ks {
      var j :| 0 <= j < i && ks[..i][j] == c;
      assert ks[j] == c;
    }
    forall c | c in ks[i + 1..] ensures c in ks {
      var j :| 0 <= j < |ks| - i - 1 && ks[i + 1..][j] == c;
      assert ks[i + 1 + j] == c;
    }
  }

  /** Roots above `b` on both sides of `r`, and `r` above `b`, make a forest above `b`. */
  lemma AboveThree<N>(xs: seq<Tree<N>>, r: Tree<N>, ys: seq<Tree<N>>, b: Double, prio: map<N, Double>)
    requires forall c | c in xs :: Le(b, P(prio, c.node))
    requires forall c | c in ys :: Le(b, P(prio, c.node))
    requires Le(b, P(prio, r.node))
    ensures forall c | c in xs + [r] + ys :: Le(b, P(prio, c.node))
  {
  }

  /** Changing the priority of a node a forest does not hold leaves its roots above `b`. */
  lemma AboveFrame<N>(ks: seq<Tree<N>>, b: Double, prio: map<N, Double>, n: N, p: Double)
    requires n !in Nodes(ks) && forall c | c in ks :: Le(b, P(prio, c.node))
    ensures forall c | c in ks :: Le(b, P(prio[n := p], c.node))
  {
    forall c | c in ks
      ensures Le(b, P(prio[n := p], c.node))
    {
      KidNode(ks, c);
    }
  }

  // Decreasing a key: what `DecreaseRoots` keeps.

  /** A node held once by a forest and found in its `j`-th tree is in no other tree. */
  lemma OnceInRoots<N>(ts: seq<Tree<N>>, j: nat, n: N)
    requires j < |ts| && n in Nodes([ts[j]]) && Nodes(ts)[n] == 1
    ensures Nodes([ts[j]])[n] == 1 && n !in Nodes(ts[..j]) && n !in Nodes(ts[j + 1..])
  {
    Split(ts, j, map[]);
  }

  /** Such a node is the root of no tree other than, possibly, the `j`-th. */
  lemma NotOtherRoot<N>(ts: seq<Tree<N>>, j: nat, n: N)
    requires j < |ts| && n in Nodes([ts[j]]) && Nodes(ts)[n] == 1
    ensures forall u | u in ts[..j] + ts[j + 1..] :: u.node != n
  {
    OnceInRoots(ts, j, n);
    forall u | u in ts[..j] + ts[j + 1..]
      ensures u.node != n
    {
      if u in ts[..j] {
        KidNode(ts[..j], u);
      } else {
        KidNode(ts[j + 1..], u);
      }
    }
  }

  /** Replacing the `j`-th tree by `r` and taking `cuts` out keeps the nodes when `r` and `cuts` hold the old tree's. */
  lemma ReplaceNodes<N>(ts: seq<Tree<N>>, j: nat, r: Tree<N>, cuts: seq<Tree<N>>)
    requires j < |ts| && Nodes([r]) + Nodes(cuts) == Nodes([ts[j]])
    ensures Nodes(ts[..j] + [r] + ts[j + 1..]) + Nodes(cuts) == Nodes(ts)
  {
    calc {
      Nodes(ts[..j] + [r] + ts[j + 1..]) + Nodes(cuts);
      { Three(ts[..j], [r], ts[j + 1..], map[]); }
      Nodes(ts[..j]) + Nodes([r]) + Nodes(ts[j + 1..]) + Nodes(cuts);
      Nodes(ts[..j]) + Nodes([ts[j]]) + Nodes(ts[j + 1..]);
      { Split(ts, j, map[]); }
      Nodes(ts);
    }
  }

  /**
   * Replacing the `j`-th root, which holds `n` below its root, by a tree
   * with the same root that is heap-ordered after `n`'s decrease keeps the
   * heap order and the least root first.
   */
  lemma ReplaceOrdered<N>(ts: seq<Tree<N>>, j: nat, r: Tree<N>, n: N, prio: map<N, Double>, p: Double)
    requires j < |ts| && n in Nodes([ts[j]]) && Nodes(ts)[n] == 1 && Ordered(ts, prio)
    requires r.node == ts[j].node != n && Ordered([r], prio[n := p])
    ensures Ordered(ts[..j] + [r] + ts[j + 1..], prio[n := p])
  {
    OnceInRoots(ts, j, n);
    Split(ts, j, prio);
    Three(ts[..j], [r], ts[j + 1..], prio[n := p]);
    OrderedFrame(ts[..j], prio, n, p);
    OrderedFrame(ts[j + 1..], prio, n, p);
  }

  lemma ReplaceMin<N>(ts: seq<Tree<N>>, j: nat, r: Tree<N>, n: N, prio: map<N, Double>, p: Double)
    requires j < |ts| && n in Nodes([ts[j]]) && Nodes(ts)[n] == 1 && MinFirst(ts, prio)
    requires r.node == ts[j].node != n
    ensures MinFirst(ts[..j] + [r] + ts[j + 1..], prio[n := p])
  {
    var q := prio[n := p];
    var b := P(prio, ts[0].node);
    OnceInRoots(ts, j, n);
    assert ts[0].node != n by {
      if j != 0 {
        NotOtherRoot(ts, j, n);
        assert ts[0] in ts[..j];
      }
    }
    assert Le(b, P(q, r.node)) by {
      assert ts[j] in ts;
    }
    AboveParts(ts, j, b, prio);
    AboveFrame(ts[..j], b, prio, n, p);
    AboveFrame(ts[j + 1..], b, prio, n, p);
    AboveThree(ts[..j], r, ts[j + 1..], b, q);
    assert (ts[..j] + [r] + ts[j + 1..])[0].node == ts[0].node;
  }

  /** insert, once per cut subtree, keeps every node, the heap order and the least root first. */
  lemma {:induction false} InsertAllKeeps<N>(ts: seq<Tree<N>>, cuts: seq<Tree<N>>, prio: map<N, Double>)
    requires ts != [] && Ordered(ts, prio) && MinFirst(ts, prio) && Ordered(cuts, prio)
    ensures var r := InsertAll(ts, cuts, prio);
      && r != [] && Nodes(r) == Nodes(ts) + Nodes(cuts)
      && Ordered(r, prio) && MinFirst(r, prio)
    decreases |cuts|
  {
    if cuts != [] {
      Head(cuts, prio);
      var next := InsertRoot(ts, cuts[0], prio);
      InsertRootKeeps(ts, cuts[0], prio);
      InsertAllKeeps(next, cuts[1..], prio);
    }
  }

  /** `n`, a child of `t`, drops to `p` but stays above its parent: `t` is still heap-ordered. */
  lemma InPlaceHere<N>(t: Tree<N>, i: nat, n: N, prio: map<N, Double>, p: Double)
    requires i < |t.kids| && t.kids[i].node == n && Nodes([t])[n] == 1 && Ordered([t], prio)
    requires !p.NaN? && Le(p, P(prio, n)) && Lt(P(prio, t.node), p)
    ensures Ordered([t], prio[n := p])
  {
    var q := prio[n := p];
    var k := t.kids[i];
    var b := P(prio, t.node);
    OnceInKid(t, i, n);
    OrderedOne(t, prio);
    assert Ordered(t.kids, q) by {
      KidOrdered(t, i, n, prio);
      NodesOne(k);
      RootDecrease(k, prio, p);
      Split(t.kids, i, prio);
      Split(t.kids, i, q);
      OrderedFrame(t.kids[..i], prio, n, p);
      OrderedFrame(t.kids[i + 1..], prio, n, p);
    }
    assert forall c | c in t.kids :: Le(P(q, t.node), P(q, c.node)) by {
      AboveParts(t.kids, i, b, prio);
      AboveFrame(t.kids[..i], b, prio, n, p);
      AboveFrame(t.kids[i + 1..], b, prio, n, p);
      AboveThree(t.kids[..i], k, t.kids[i + 1..], b, q);
      Split(t.kids, i, prio);
    }
    OrderedOne(t, q);
  }

  /**
   * decreaseKeyUnchecked without a cut: `n`, below the root of `t`, drops to
   * `p` but not below its parent, and `t` stays heap-ordered.
   */
  lemma {:induction false} InPlaceOrdered<N>(t: Tree<N>, n: N, prio: map<N, Double>, p: Double)
    requires n in Nodes(t.kids) && Nodes([t])[n] == 1 && Ordered([t], prio)
    requires !p.NaN? && Le(p, P(prio, n)) && Lt(P(prio[n := p], ParentNode(t, n)), p)
    ensures Ordered([t], prio[n := p])
    decreases t, 1
  {
    LocateFinds(t.kids, n);
    var i := Locate(t.kids, n);
    if t.kids[i].node == n {
      OnceInKid(t, i, n);
      assert ParentNode(t, n) == t.node;
      InPlaceHere(t, i, n, prio, p);
    } else {
      InPlaceDeeper(t, i, n, prio, p);
    }
  }

  lemma {:induction false} InPlaceDeeper<N>(t: Tree<N>, i: nat, n: N, prio: map<N, Double>, p: Double)
    requires n in Nodes(t.kids) && Nodes([t])[n] == 1 && Ordered([t], prio)
    requires i == Locate(t.kids, n) < |t.kids| && t.kids[i].node != n
    requires !p.NaN? && Le(p, P(prio, n)) && Lt(P(prio[n := p], ParentNode(t, n)), p)
    ensures Ordered([t], prio[n := p])
    decreases t, 0
  {
    var k := t.kids[i];
    assert ParentNode(t, n) == ParentNode(k, n);
    KidOrdered(t, i, n, prio);
    NodesOne(k);
    InPlaceOrdered(k, n, prio, p);
    KeptSame(t, i, n, prio, p);
  }

  /** `t` whose `i`-th child, which holds `n` below its root, is heap-ordered after `n`'s decrease. */
  lemma KeptSame<N>(t: Tree<N>, i: nat, n: N, prio: map<N, Double>, p: Double)
    requires i < |t.kids| && n in Nodes([t.kids[i]]) && Nodes([t])[n] == 1 && Ordered([t], prio)
    requires t.kids[i].node != n && Ordered([t.kids[i]], prio[n := p])
    ensures Ordered([t], prio[n := p])
  {
    KeptOrdered(t, i, n, t.kids[i], prio, p);
    Split(t.kids, i, prio);
  }

  /** Reading a ring from its `j`-th tree keeps its nodes, its order and its trees. */
  lemma RotateParts<N>(ts: seq<Tree<N>>, j: nat, prio: map<N, Double>)
    requires j <= |ts|
    ensures Nodes(ts[j..] + ts[..j]) == Nodes(ts)
    ensures Ordered(ts[j..] + ts[..j], prio) <==> Ordered(ts, prio)
    ensures forall u | u in ts[j..] + ts[..j] :: u in ts
  {
    assert ts == ts[..j] + ts[j..];
    NodesAppend(ts[..j], ts[j..]);
    NodesAppend(ts[j..], ts[..j]);
    OrderedAppend(ts[..j], ts[j..], prio);
    OrderedAppend(ts[j..], ts[..j], prio);
  }

  /** A root drops to `p`: the forest stays heap-ordered. */
  lemma RootDropOrdered<N>(ts: seq<Tree<N>>, j: nat, n: N, prio: map<N, Double>, p: Double)
    requires j < |ts| && ts[j].node == n && Nodes(ts)[n] == 1 && Ordered(ts, prio)
    requires !p.NaN? && Le(p, P(prio, n))
    ensures Ordered(ts, prio[n := p])
  {
    OnceInRoots(ts, j, n);
    NodesOne(ts[j]);
    Split(ts, j, prio);
    Split(ts, j, prio[n := p]);
    RootDecrease(ts[j], prio, p);
    OrderedFrame(ts[..j], prio, n, p);
    OrderedFrame(ts[j + 1..], prio, n, p);
  }

  /** A root that drops to `p`, not above the least root, is least: `min` moves to it. */
  lemma RootDropMin<N>(ts: seq<Tree<N>>, j: nat, n: N, prio: map<N, Double>, p: Double)
    requires j < |ts| && ts[j].node == n && Nodes(ts)[n] == 1 && MinFirst(ts, prio)
    requires !p.NaN? && Le(p, P(prio, n)) && Le(p, P(prio[n := p], ts[0].node))
    ensures MinFirst(ts[j..] + ts[..j], prio[n := p])
  {
    var q := prio[n := p];
    var m := P(prio, ts[0].node);
    assert Le(p, m) by {
      assert ts[j] in ts;
    }
    RotateParts(ts, j, prio);
    forall u | u in ts[j..] + ts[..j]
      ensures Le(p, P(q, u.node))
    {
      if u.node != n {
        LeTransitive(p, m, P(prio, u.node));
      }
    }
    assert (ts[j..] + ts[..j])[0] == ts[j];
  }

  /** A root that drops to `p`, still above the least root, leaves the least root first. */
  lemma RootStayMin<N>(ts: seq<Tree<N>>, j: nat, n: N, prio: map<N, Double>, p: Double)
    requires j < |ts| && ts[j].node == n && MinFirst(ts, prio) && Ordered(ts, prio)
    requires !p.NaN? && !Le(p, P(prio[n := p], ts[0].node))
    ensures MinFirst(ts, prio[n := p])
  {
    var q := prio[n := p];
    var m := P(prio, ts[0].node);
    assert ts[0].node != n;
    Head(ts, prio);
    OrderedOne(ts[0], prio);
    LtTotal(p, m);
    forall u | u in ts
      ensures Le(m, P(q, u.node))
    {
      if u.node == n {
        assert P(q, u.node) == p;
      } else {
        assert P(q, u.node) == P(prio, u.node);
      }
    }
    assert P(q, ts[0].node) == m;
  }

  lemma DecreaseAtRoot<N>(roots: seq<Tree<N>>, n: N, prio: map<N, Double>, p: Double)
    requires Ordered(roots, prio) && MinFirst(roots, prio) && n in Nodes(roots) && Nodes(roots)[n] == 1
    requires !p.NaN? && Le(p, P(prio, n))
    requires Locate(roots, n) < |roots| && roots[Locate(roots, n)].node == n
    ensures var r := DecreaseRoots(roots, n, prio[n := p]);
      && r != [] && Nodes(r) == Nodes(roots)
      && Ordered(r, prio[n := p]) && MinFirst(r, prio[n := p])
  {
    var j := Locate(roots, n);
    var q := prio[n := p];
    RootDropOrdered(roots, j, n, prio, p);
    RotateParts(roots, j, q);
    if Le(p, P(q, roots[0].node)) {
      assert DecreaseRoots(roots, n, q) == roots[j..] + roots[..j];
      RootDropMin(roots, j, n, prio, p);
    } else {
      assert DecreaseRoots(roots, n, q) == roots;
      RootStayMin(roots, j, n, prio, p);
    }
  }

  lemma DecreaseInPlace<N>(roots: seq<Tree<N>>, n: N, prio: map<N, Double>, p: Double)
    requires Ordered(roots, prio) && MinFirst(roots, prio) && n in Nodes(roots) && Nodes(roots)[n] == 1
    requires !p.NaN? && Le(p, P(prio, n))
    requires Locate(roots, n) < |roots| && roots[Locate(roots, n)].node != n
    requires Lt(P(prio[n := p], ParentNode(roots[Locate(roots, n)], n)), p)
    ensures var r := DecreaseRoots(roots, n, prio[n := p]);
      && r != [] && Nodes(r) == Nodes(roots)
      && Ordered(r, prio[n := p]) && MinFirst(r, prio[n := p])
  {
    var j := Locate(roots, n);
    var t := roots[j];
    assert DecreaseRoots(roots, n, prio[n := p]) == roots;
    InPlaceRoots(roots, j, n, prio, p);
  }

  lemma InPlaceRoots<N>(roots: seq<Tree<N>>, j: nat, n: N, prio: map<N, Double>, p: Double)
    requires Ordered(roots, prio) && MinFirst(roots, prio) && Nodes(roots)[n] == 1
    requires !p.NaN? && Le(p, P(prio, n))
    requires j < |roots| && n in Nodes([roots[j]]) && roots[j].node != n
    requires Lt(P(prio[n := p], ParentNode(roots[j], n)), p)
    ensures Ordered(roots, prio[n := p]) && MinFirst(roots, prio[n := p])
  {
    var t := roots[j];
    OnceInRoots(roots, j, n);
    NodesOne(t);
    assert Ordered(roots, prio[n := p]) by {
      Split(roots, j, prio);
      Split(roots, j, prio[n := p]);
      InPlaceOrdered(t, n, prio, p);
      OrderedFrame(roots[..j], prio, n, p);
      OrderedFrame(roots[j + 1..], prio, n, p);
    }
    NoRoot(roots, j, n);
    MinFrame(roots, n, prio, p);
  }

  /** A node held once by the `j`-th tree, below its root, is the root of no tree. */
  lemma NoRoot<N>(ts: seq<Tree<N>>, j: nat, n: N)
    requires j < |ts| && n in Nodes([ts[j]]) && Nodes(ts)[n] == 1 && ts[j].node != n
    ensures forall u | u in ts :: u.node != n
  {
    NotOtherRoot(ts, j, n);
    Rest(ts, j);
  }

  /** The least root stays first when a node that is no root changes priority. */
  lemma MinFrame<N>(ts: seq<Tree<N>>, n: N, prio: map<N, Double>, p: Double)
    requires MinFirst(ts, prio) && forall u | u in ts :: u.node != n
    ensures MinFirst(ts, prio[n := p])
  {
    if ts != [] {
      assert ts[0] in ts;
    }
  }

  lemma DecreaseByCut<N>(roots: seq<Tree<N>>, n: N, prio: map<N, Double>, p: Double)
    requires Ordered(roots, prio) && MinFirst(roots, prio) && n in Nodes(roots) && Nodes(roots)[n] == 1
    requires !p.NaN? && Le(p, P(prio, n))
    requires Locate(roots, n) < |roots| && roots[Locate(roots, n)].node != n
    requires !Lt(P(prio[n := p], ParentNode(roots[Locate(roots, n)], n)), p)
    ensures var r := DecreaseRoots(roots, n, prio[n := p]);
      && r != [] && Nodes(r) == Nodes(roots)
      && Ordered(r, prio[n := p]) && MinFirst(r, prio[n := p])
  {
    var j := Locate(roots, n);
    var t := roots[j];
    var q := prio[n := p];
    var c := CutBelow(t, n, true);
    var mid := roots[..j] + [c.rest] + roots[j + 1..];
    assert DecreaseRoots(roots, n, q) == InsertAll(mid, c.cuts, q);
    OnceInRoots(roots, j, n);
    NodesOne(t);
    assert Ordered([t], prio) by {
      Split(roots, j, prio);
    }
    CutNodes(t, n, true);
    CutOrdered(t, n, true, prio, p);
    ReplaceNodes(roots, j, c.rest, c.cuts);
    ReplaceOrdered(roots, j, c.rest, n, prio, p);
    ReplaceMin(roots, j, c.rest, n, prio, p);
    InsertAllKeeps(mid, c.cuts, q);
  }

  /**
   * decreaseKeyUnchecked, for a node held once by a heap-ordered ring whose
   * first root is least, to a priority not above its old one: every node
   * stays, the heap order holds under the new priority, and the first root
   * is still least.
   */
  lemma DecreaseRootsKeeps<N>(roots: seq<Tree<N>>, n: N, prio: map<N, Double>, p: Double)
    requires Ordered(roots, prio) && MinFirst(roots, prio) && n in Nodes(roots) && Nodes(roots)[n] == 1
    requires !p.NaN? && Le(p, P(prio, n))
    ensures var r := DecreaseRoots(roots, n, prio[n := p]);
      && r != [] && Nodes(r) == Nodes(roots)
      && Ordered(r, prio[n := p]) && MinFirst(r, prio[n := p])
  {
    LocateFinds(roots, n);
    var j := Locate(roots, n);
    if roots[j].node == n {
      DecreaseAtRoot(roots, n, prio, p);
    } else if Lt(P(prio[n := p], ParentNode(roots[j], n)), p) {
      DecreaseInPlace(roots, n, prio, p);
    } else {
      DecreaseByCut(roots, n, prio, p);
    }
  }

  // Merging two heaps.

  /**
   * merge(node), with the other ring spliced in right after `min` and its
   * own `min` taking over only when strictly smaller.
   */
  function MergeRings<N>(ts: seq<Tree<N>>, us: seq<Tree<N>>, prio: map<N, Double>): seq<Tree<N>>
    requires ts != [] && us != []
  {
    if Lt(P(prio, us[0].node), P(prio, ts[0].node)) then us + ts[1..] + [ts[0]] else [ts[0]] + us + ts[1..]
  }

  /** Merged rings hold both rings' nodes, stay heap-ordered and keep the least root first. */
  lemma MergeRingsKeeps<N>(ts: seq<Tree<N>>, us: seq<Tree<N>>, prio: map<N, Double>)
    requires ts != [] && us != []
    requires Ordered(ts, prio) && MinFirst(ts, prio) && Ordered(us, prio) && MinFirst(us, prio)
    ensures var r := MergeRings(ts, us, prio);
      && r != [] && Nodes(r) == Nodes(ts) + Nodes(us)
      && Ordered(r, prio) && MinFirst(r, prio)
  {
    var a, b := P(prio, ts[0].node), P(prio, us[0].node);
    assert !a.NaN? && !b.NaN? by {
      Head(ts, prio);
      Head(us, prio);
      OrderedOne(ts[0], prio);
      OrderedOne(us[0], prio);
    }
    LtTotal(a, b);
    if Lt(b, a) {
      OtherMinFirst(ts, us, prio);
    } else {
      OwnMinFirst(ts, us, prio);
    }
  }

  /** The other ring's minimum is strictly smaller: its ring comes first, the old minimum last. */
  lemma OtherMinFirst<N>(ts: seq<Tree<N>>, us: seq<Tree<N>>, prio: map<N, Double>)
    requires ts != [] && us != [] && Lt(P(prio, us[0].node), P(prio, ts[0].node))
    requires Ordered(ts, prio) && MinFirst(ts, prio) && Ordered(us, prio) && MinFirst(us, prio)
    ensures var r := us + ts[1..] + [ts[0]];
      && Nodes(r) == Nodes(ts) + Nodes(us) && Ordered(r, prio) && MinFirst(r, prio)
  {
    var r := us + ts[1..] + [ts[0]];
    var a, b := P(prio, ts[0].node), P(prio, us[0].node);
    assert Nodes(r) == Nodes(ts) + Nodes(us) && Ordered(r, prio) by {
      Head(ts, prio);
      Three(us, ts[1..], [ts[0]], prio);
      Regroup(Nodes(r), Nodes(us), Nodes(ts[1..]), Nodes([ts[0]]), Nodes(ts));
    }
    assert r[0] == us[0];
    forall u | u in r
      ensures Le(b, P(prio, u.node))
    {
      if u in us {
      } else {
        assert u in ts;
        LeTransitive(b, a, P(prio, u.node));
      }
    }
  }

  /** This ring's minimum stays first, followed by the other ring and its own other roots. */
  lemma OwnMinFirst<N>(ts: seq<Tree<N>>, us: seq<Tree<N>>, prio: map<N, Double>)
    requires ts != [] && us != [] && Le(P(prio, ts[0].node), P(prio, us[0].node))
    requires Ordered(ts, prio) && MinFirst(ts, prio) && Ordered(us, prio) && MinFirst(us, prio)
    ensures var r := [ts[0]] + us + ts[1..];
      && Nodes(r) == Nodes(ts) + Nodes(us) && Ordered(r, prio) && MinFirst(r, prio)
  {
    var r := [ts[0]] + us + ts[1..];
    var a, b := P(prio, ts[0].node), P(prio, us[0].node);
    assert Nodes(r) == Nodes(ts) + Nodes(us) && Ordered(r, prio) by {
      Head(ts, prio);
      Three([ts[0]], us, ts[1..], prio);
      Regroup(Nodes(r), Nodes(us), Nodes(ts[1..]), Nodes([ts[0]]), Nodes(ts));
    }
    assert r[0] == ts[0];
    forall u | u in r
      ensures Le(a, P(prio, u.node))
    {
      if u in us {
        LeTransitive(a, b, P(prio, u.node));
      } else if u != ts[0] {
        assert u in ts[1..];
      }
    }
  }

  /** Heap order reads only the priorities of the forest's own nodes. */
  lemma {:induction false} OrderedAgree<N>(ts: seq<Tree<N>>, p1: map<N, Double>, p2: map<N, Double>)
    requires forall n | n in Nodes(ts) :: P(p1, n) == P(p2, n)
    ensures Ordered(ts, p1) <==> Ordered(ts, p2)
    decreases ts
  {
    if ts != [] {
      var r := ts[0];
      assert Nodes(ts) == multiset{r.node} + Nodes(r.kids) + Nodes(ts[1..]);
      OrderedAgree(r.kids, p1, p2);
      OrderedAgree(ts[1..], p1, p2);
      forall k | k in r.kids
        ensures P(p1, k.node) == P(p2, k.node)
      {
        KidNode(r.kids, k);
      }
    }
  }

  /** The least root stays first when the roots keep their priorities. */
  lemma MinAgree<N>(ts: seq<Tree<N>>, p1: map<N, Double>, p2: map<N, Double>)
    requires forall n | n in Nodes(ts) :: P(p1, n) == P(p2, n)
    ensures MinFirst(ts, p1) <==> MinFirst(ts, p2)
  {
    forall t | t in ts
      ensures P(p1, t.node) == P(p2, t.node)
    {
      KidNode(ts, t);
    }
    if ts != [] {
      assert ts[0] in ts;
    }
  }

  /** Every node of a heap-ordered forest has a priority. */
  lemma {:induction false} OrderedKeys<N>(ts: seq<Tree<N>>, prio: map<N, Double>)
    requires Ordered(ts, prio)
    ensures forall n | n in Nodes(ts) :: n in prio
    decreases ts
  {
    if ts != [] {
      OrderedKeys(ts[0].kids, prio);
      OrderedKeys(ts[1..], prio);
    }
  }

  // The whole heap.

  /** A heap's root ring: heap-ordered, least root first, no node twice. */
  ghost predicate Heap<N>(ts: seq<Tree<N>>, prio: map<N, Double>) {
    Ordered(ts, prio) && MinFirst(ts, prio) && Distinct(ts)
  }

  /** The priorities of the nodes still in the forest `ts`. */
  function Live<N>(prio: map<N, Double>, ts: seq<Tree<N>>): (m: map<N, Double>)
    ensures forall n | n in Nodes(ts) :: P(m, n) == P(prio, n)
    ensures forall n | n in m :: n in Nodes(ts)
  {
    map n | n in prio && n in Nodes(ts) :: prio[n]
  }

  /** enqueue on the root ring: a lone root, or insert. */
  function AddRoot<N>(ts: seq<Tree<N>>, t: Tree<N>, prio: map<N, Double>): seq<Tree<N>> {
    if ts == [] then [t] else InsertRoot(ts, t, prio)
  }

  lemma AddRootKeeps<N>(ts: seq<Tree<N>>, n: N, prio: map<N, Double>, p: Double)
    requires Heap(ts, prio) && n !in Nodes(ts) && !p.NaN?
    ensures var r := AddRoot(ts, Tree(n, false, []), prio[n := p]);
      && Heap(r, prio[n := p]) && Nodes(r) == Nodes(ts) + multiset{n}
      && (r[0].node == n <==> ts == [] || Le(p, P(prio, ts[0].node)))
  {
    var t := Tree(n, false, []);
    var q := prio[n := p];
    assert Nodes([t]) == multiset{n};
    assert Ordered(ts, q) && MinFirst(ts, q) by {
      OrderedFrame(ts, prio, n, p);
      MinAgree(ts, prio, q);
    }
    assert Ordered([t], q);
    if ts != [] {
      InsertRootKeeps(ts, t, q);
      AddRootFront(ts, n, prio, p);
    }
    DistinctAdd(ts, AddRoot(ts, t, q), n);
  }

  lemma AddRootFront<N>(ts: seq<Tree<N>>, n: N, prio: map<N, Double>, p: Double)
    requires ts != [] && Heap(ts, prio) && n !in Nodes(ts)
    ensures InsertRoot(ts, Tree(n, false, []), prio[n := p])[0].node == n <==> Le(p, P(prio, ts[0].node))
  {
    MinIsLeast(ts, prio);
    assert P(prio[n := p], ts[0].node) == P(prio, ts[0].node);
  }

  lemma DistinctAdd<N>(ts: seq<Tree<N>>, r: seq<Tree<N>>, n: N)
    requires Distinct(ts) && n !in Nodes(ts) && Nodes(r) == Nodes(ts) + multiset{n}
    ensures Distinct(r)
  {
    forall m | m in Nodes(r)
      ensures Nodes(r)[m] == 1
    {
      assert Nodes(r)[m] == Nodes(ts)[m] + multiset{n}[m];
    }
  }

  lemma DistinctDrop<N>(ts: seq<Tree<N>>, r: seq<Tree<N>>, n: N)
    requires Distinct(ts) && Nodes(r) + multiset{n} == Nodes(ts)
    ensures Distinct(r)
  {
    forall m | m in Nodes(r)
      ensures Nodes(r)[m] == 1
    {
      assert Nodes(ts)[m] == Nodes(r)[m] + multiset{n}[m];
    }
  }

  lemma DistinctJoin<N>(ts: seq<Tree<N>>, us: seq<Tree<N>>, r: seq<Tree<N>>)
    requires Distinct(ts) && Distinct(us) && Nodes(ts) !! Nodes(us) && Nodes(r) == Nodes(ts) + Nodes(us)
    ensures Distinct(r)
  {
    forall m | m in Nodes(r)
      ensures Nodes(r)[m] == 1
    {
      assert Nodes(r)[m] == Nodes(ts)[m] + Nodes(us)[m];
    }
  }

  /** In `p1 + Live(p2, us)` the nodes of `ts` keep `p1` and those of `us` keep `p2`. */
  lemma LiveWins<N>(p1: map<N, Double>, p2: map<N, Double>, ts: seq<Tree<N>>, us: seq<Tree<N>>)
    requires Ordered(us, p2) && Nodes(ts) !! Nodes(us)
    ensures forall n | n in Nodes(ts) :: P(p1 + Live(p2, us), n) == P(p1, n)
    ensures forall n | n in Nodes(us) :: P(p1 + Live(p2, us), n) == P(p2, n)
  {
    var q := p1 + Live(p2, us);
    OrderedKeys(us, p2);
    forall n | n in Nodes(us)
      ensures P(q, n) == P(p2, n)
    {
      assert n in Live(p2, us);
    }
    forall n | n in Nodes(ts)
      ensures P(q, n) == P(p1, n)
    {
      assert n !in Nodes(us);
    }
  }

  /** merge(heap) into a non-empty heap, each node keeping the priority its own heap gave it. */
  lemma MergeKeeps<N>(ts: seq<Tree<N>>, us: seq<Tree<N>>, p1: map<N, Double>, p2: map<N, Double>)
    requires ts != [] && us != [] && Heap(ts, p1) && Heap(us, p2) && Nodes(ts) !! Nodes(us)
    ensures var q := p1 + Live(p2, us);
      var r := MergeRings(ts, us, q);
      Heap(r, q) && Nodes(r) == Nodes(ts) + Nodes(us)
  {
    var q := p1 + Live(p2, us);
    LiveWins(p1, p2, ts, us);
    OrderedAgree(ts, p1, q);
    MinAgree(ts, p1, q);
    OrderedAgree(us, p2, q);
    MinAgree(us, p2, q);
    MergeRingsKeeps(ts, us, q);
    DistinctJoin(ts, us, MergeRings(ts, us, q));
  }

  /** decreaseKey to a priority not above the current one. */
  lemma DecreaseKeeps<N>(ts: seq<Tree<N>>, n: N, prio: map<N, Double>, p: Double)
    requires Heap(ts, prio) && n in Nodes(ts) && !p.NaN? && Le(p, P(prio, n))
    ensures var r := DecreaseRoots(ts, n, prio[n := p]);
      Heap(r, prio[n := p]) && Nodes(r) == Nodes(ts)
  {
    DecreaseRootsKeeps(ts, n, prio, p);
  }

  /** dequeueMin takes out a least node and leaves a heap with distinct root ranks. */
  lemma DequeueKeeps<N>(ts: seq<Tree<N>>, prio: map<N, Double>)
    requires ts != [] && Heap(ts, prio)
    ensures var r := DequeueRoots(ts, prio);
      && Heap(r, prio) && Nodes(r) + multiset{ts[0].node} == Nodes(ts) && DistinctRanks(r)
      && ts[0].node in Nodes(ts)
      && forall m | m in Nodes(ts) :: Le(P(prio, ts[0].node), P(prio, m))
  {
    MinIsLeast(ts, prio);
    DequeueRootsKeeps(ts, prio);
    DistinctDrop(ts, DequeueRoots(ts, prio), ts[0].node);
  }

  /**
   * delete's first step: after decreasing `n` to negative infinity the
   * first root has priority negative infinity, and it is `n` when no other
   * node had that priority.
   */
  lemma DeleteFront<N>(ts: seq<Tree<N>>, n: N, prio: map<N, Double>)
    requires Heap(ts, prio) && n in Nodes(ts)
    ensures var q := prio[n := NegInf];
      var r := DecreaseRoots(ts, n, q);
      && Heap(r, q) && Nodes(r) == Nodes(ts) && r != []
      && P(q, r[0].node) == NegInf && !P(prio, n).NaN? && Le(NegInf, P(prio, n))
      && ((forall m | m in Nodes(ts) && m != n :: P(prio, m) != NegInf) ==> r[0].node == n)
  {
    var q := prio[n := NegInf];
    MinIsLeast(ts, prio);
    DecreaseRootsKeeps(ts, n, prio, NegInf);
    var r := DecreaseRoots(ts, n, q);
    MinIsLeast(r, q);
    assert Le(P(q, r[0].node), P(q, n));
  }
}
