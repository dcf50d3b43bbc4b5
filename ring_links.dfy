/**
 * The root list of a Fibonacci heap at the level of its `left`/`right`
 * pointers, for the one operation whose pointer surgery the forest model
 * abstracts away: splicing another heap's root ring in after `min`.
 */
module RingLinks {

  /** The `left` and `right` pointers of every node on some rings. */
  datatype Links<N> = Links(left: map<N, N>, right: map<N, N>)

  /** Every pointer stays on the rings and `left` undoes `right` and back. */
  ghost predicate Consistent<N>(r: Links<N>) {
    r.left.Keys == r.right.Keys && LeftUndoesRight(r) && RightUndoesLeft(r)
  }

  ghost predicate LeftUndoesRight<N>(r: Links<N>) {
    forall x | x in r.right :: r.right[x] in r.left && r.left[r.right[x]] == x
  }

  ghost predicate RightUndoesLeft<N>(r: Links<N>) {
    forall x | x in r.left :: r.left[x] in r.right && r.right[r.left[x]] == x
  }

  /**
   * merge(node) as written: `node` is the other ring's min, `min` this one's.
   * `min.right.left` is set from `node.left` after `node.left` was
   * overwritten with `min`.
   */
  function MergeAsWritten<N>(r: Links<N>, min: N, node: N): Links<N>
    requires min in r.right && node in r.right && node in r.left && r.left[node] in r.right
  {
    var right1 := r.right[r.left[node] := r.right[min]];
    var left1 := r.left[node := min];
    var left2 := left1[right1[min] := left1[node]];
    Links(left2, right1[min := node])
  }

  /** merge(node) with the other ring's last node saved before `node.left` changes. */
  function MergeCorrected<N>(r: Links<N>, min: N, node: N): Links<N>
    requires min in r.right && node in r.left
  {
    var last := r.left[node];
    var first := r.right[min];
    Links(r.left[node := min][first := last], r.right[last := first][min := node])
  }

  /** Both versions set the same `right` pointers; only `left` differs. */
  lemma SameRight<N>(r: Links<N>, min: N, node: N)
    requires Consistent(r) && min in r.right && node in r.right
    ensures MergeAsWritten(r, min, node).right == MergeCorrected(r, min, node).right
  {
  }

  /**
   * The corrected splice keeps the pointers consistent whenever `min` and
   * `node` lie on two different rings.
   */
  lemma CorrectedConsistent<N>(r: Links<N>, min: N, node: N)
    requires Consistent(r) && min in r.right && node in r.right
    requires min != node && r.right[min] != node && r.left[node] != min
    ensures var m := MergeCorrected(r, min, node);
      && Consistent(m) && m.right.Keys == r.right.Keys
      && m.right[min] == node && m.left[node] == min
      && m.right[r.left[node]] == r.right[min] && m.left[r.right[min]] == r.left[node]
  {
    SameKeys(r, min, node);
    AllRightThenLeft(r, min, node);
    AllLeftThenRight(r, min, node);
  }

  lemma SameKeys<N>(r: Links<N>, min: N, node: N)
    requires min in r.right && node in r.left && r.right[min] in r.left && r.left[node] in r.right
    ensures var m := MergeCorrected(r, min, node);
      m.left.Keys == r.left.Keys && m.right.Keys == r.right.Keys
  {
  }

  lemma AllRightThenLeft<N>(r: Links<N>, min: N, node: N)
    requires Consistent(r) && min in r.right && node in r.right
    requires min != node && r.right[min] != node && r.left[node] != min
    ensures LeftUndoesRight(MergeCorrected(r, min, node))
  {
    var m := MergeCorrected(r, min, node);
    forall x | x in m.right
      ensures m.right[x] in m.left && m.left[m.right[x]] == x
    {
      RightThenLeft(r, min, node, x);
    }
  }

  lemma AllLeftThenRight<N>(r: Links<N>, min: N, node: N)
    requires Consistent(r) && min in r.right && node in r.right
    requires min != node && r.right[min] != node && r.left[node] != min
    ensures RightUndoesLeft(MergeCorrected(r, min, node))
  {
    var m := MergeCorrected(r, min, node);
    forall x | x in m.left
      ensures m.left[x] in m.right && m.right[m.left[x]] == x
    {
      LeftThenRight(r, min, node, x);
    }
  }

  lemma RightThenLeft<N>(r: Links<N>, min: N, node: N, x: N)
    requires Consistent(r) && min in r.right && node in r.right && x in r.right
    requires min != node && r.right[min] != node && r.left[node] != min
    ensures var m := MergeCorrected(r, min, node);
      m.right[x] in m.left && m.left[m.right[x]] == x
  {
    var last, first := r.left[node], r.right[min];
    if x != min && x != last {
      assert r.right[x] != node by {
        assert r.left[r.right[x]] == x;
      }
      assert r.right[x] != first by {
        assert r.left[r.right[x]] == x;
        assert r.left[r.right[min]] == min;
      }
    }
  }

  lemma LeftThenRight<N>(r: Links<N>, min: N, node: N, x: N)
    requires Consistent(r) && min in r.right && node in r.right && x in r.left
    requires min != node && r.right[min] != node && r.left[node] != min
    ensures var m := MergeCorrected(r, min, node);
      m.left[x] in m.right && m.right[m.left[x]] == x
  {
    var last, first := r.left[node], r.right[min];
    if x != first && x != node {
      assert r.left[x] != last by {
        assert r.right[r.left[x]] == x;
        assert r.right[r.left[node]] == node;
      }
      assert r.left[x] != min by {
        assert r.right[r.left[x]] == x;
      }
    }
  }

  /** Two heaps of one node each: each node is its own left and right neighbour. */
  function TwoSingletons(a: int, b: int): Links<int> {
    Links(map[a := a, b := b], map[a := a, b := b])
  }

  /**
   * Merging two one-node rings as written leaves `a.left == a` while
   * `a.right == b`: the pointers are no longer consistent, and a later
   * dequeueMin of `a`, which tests `min.left == min`, takes the heap for a
   * single node and drops `b`.
   */
  lemma AsWrittenBreaksRing()
    ensures var r := TwoSingletons(0, 1);
      && Consistent(r)
      && var m := MergeAsWritten(r, 0, 1);
      && m.right[0] == 1 && m.left[0] == 0 && !Consistent(m)
  {
    var r := TwoSingletons(0, 1);
    var m := MergeAsWritten(r, 0, 1);
    assert m.left[m.right[1]] != 1;
  }

  /** The corrected splice of the same two rings gives the ring a, b. */
  lemma CorrectedJoinsRing()
    ensures var m := MergeCorrected(TwoSingletons(0, 1), 0, 1);
      && m == Links(map[0 := 1, 1 := 0], map[0 := 1, 1 := 0]) && Consistent(m)
  {
    var m := MergeCorrected(TwoSingletons(0, 1), 0, 1);
    assert m.left == map[0 := 1, 1 := 0];
    assert m.right == map[0 := 1, 1 := 0];
  }
}
