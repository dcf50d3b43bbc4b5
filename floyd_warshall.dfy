/**
 * Floyd-Warshall all-pairs shortest paths, both copies. The vertices are
 * numbered in the vertex set's iteration order; the distance, predecessor
 * vertex and (newer copy) predecessor edge matrices are seeded from the edge
 * bundles, relaxed through every intermediate vertex k, and a negative
 * diagonal entry reports a negative cycle. The older copy returns a table of
 * (predecessor vertex, distance) pairs, the newer copy a path per pair built
 * by memoised recursion.
 */
module FloydWarshalls {
  import opened Wrappers
  import opened Doubles
  import opened Graphs
  import opened Paths
  import opened Walks

  /** A matrix entry's starting value: 0 on the diagonal, +infinity elsewhere. */
  function Initial(i: nat, j: nat): Double {
    if i == j then Fin(0.0) else PosInf
  }

  /**
   * What cell (i, j) of the three matrices may hold: with no recorded edge,
   * its starting value; with a recorded edge, an edge of the graph into
   * order[j] from order[p], p the recorded vertex number, and a finite
   * distance that some walk from order[i] to order[p] followed by that edge
   * weighs.
   */
  ghost predicate Justified<V>(es: set<Edge<V>>, w: Edge<V> -> real, order: seq<V>, i: nat, j: nat,
                               d: Double, pv: Option<nat>, pe: Option<Edge<V>>)
    requires i < |order| && j < |order|
  {
    if pe.None? then pv.None? && d == Initial(i, j)
    else
      && pv.Some? && pv.value < |order| && d.Fin?
      && pe.value in es && pe.value.source == order[pv.value] && pe.value.target == order[j]
      && exists q :: IsPath(es, order[i], q, order[pv.value]) && Weight(w, q) + w(pe.value) == d.r
  }

  /** A finite entry of a justified cell is the weight of a walk between the cell's two vertices. */
  lemma Walked<V>(es: set<Edge<V>>, w: Edge<V> -> real, order: seq<V>, i: nat, j: nat,
                  d: Double, pv: Option<nat>, pe: Option<Edge<V>>)
    returns (q: seq<Edge<V>>)
    requires i < |order| && j < |order| && Justified(es, w, order, i, j, d, pv, pe) && d.Fin?
    ensures IsPath(es, order[i], q, order[j]) && Weight(w, q) == d.r
  {
    if pe.None? {
      q := [];
    } else {
      var r :| IsPath(es, order[i], r, order[pv.value]) && Weight(w, r) + w(pe.value) == d.r;
      PathSnoc(es, w, order[i], r, pe.value);
      q := r + [pe.value];
    }
  }

  /**
   * The inner step's update keeps its cell justified: when the way through
   * k is shorter, cell (k, j) has a recorded edge, and the walk to order[k]
   * followed by k's walk to that edge's source justifies the new entry.
   */
  lemma Through<V>(es: set<Edge<V>>, w: Edge<V> -> real, order: seq<V>, i: nat, k: nat, j: nat,
                   dik: Double, pvik: Option<nat>, peik: Option<Edge<V>>,
                   dkj: Double, pvkj: Option<nat>, pekj: Option<Edge<V>>, dij: Double)
    requires i < |order| && k < |order| && j < |order|
    requires Justified(es, w, order, i, k, dik, pvik, peik) && Justified(es, w, order, k, j, dkj, pvkj, pekj)
    requires k == j ==> dik == dij
    requires Lt(Add(dik, dkj), dij)
    ensures pekj.Some? && Justified(es, w, order, i, j, Add(dik, dkj), pvkj, pekj)
  {
    var r := Walked(es, w, order, i, k, dik, pvik, peik);
    var q :| IsPath(es, order[k], q, order[pvkj.value]) && Weight(w, q) + w(pekj.value) == dkj.r;
    PathAppend(es, w, order[i], r, order[k], q, order[pvkj.value]);
  }

  /** An entry the matrices can hold: finite or +infinity. */
  predicate Reading(d: Double) {
    d.Fin? || d.PosInf?
  }

  /** Addition is monotone on entries. */
  lemma AddMono(a: Double, b: Double, a': Double, b': Double)
    requires Reading(a) && Reading(b) && Reading(a') && Reading(b')
    requires Le(a, a') && Le(b, b')
    ensures Le(Add(a, b), Add(a', b'))
  {
  }

  /** Bounds by walk weights add up. */
  lemma AddBound(a: Double, b: Double, x: real, y: real)
    requires Le(a, Fin(x)) && Le(b, Fin(y))
    ensures Le(Add(a, b), Fin(x + y))
  {
  }

  /**
   * The seeding of one cell: its starting value, lowered by every edge of
   * its bundle that weighs strictly less, which is then recorded with the
   * row's own vertex as predecessor. The entry ends up the least of the
   * starting value and the bundle's weights.
   */
  method Bundle<V(==)>(es: set<Edge<V>>, w: Edge<V> -> real, order: seq<V>, i: nat, j: nat)
    returns (d: Double, pv: Option<nat>, pe: Option<Edge<V>>)
    requires i < |order| && j < |order|
    ensures Justified(es, w, order, i, j, d, pv, pe) && Seeded(es, w, order, i, j, d)
    ensures d == Initial(i, j) || (pe.Some? && pe.value in Between(es, order[i], order[j]) && d == Fin(w(pe.value)))
    ensures Planted(w, i, d, pv, pe)
  {
    d := Initial(i, j);
    pv, pe := None, None;
    var todo := Between(es, order[i], order[j]);
    while todo != {}
      invariant todo <= Between(es, order[i], order[j])
      invariant Justified(es, w, order, i, j, d, pv, pe) && Le(d, Initial(i, j))
      invariant forall e | e in Between(es, order[i], order[j]) - todo :: Le(d, Fin(w(e)))
      invariant d == Initial(i, j) || (pe.Some? && pe.value in Between(es, order[i], order[j]) && d == Fin(w(pe.value)))
      invariant Planted(w, i, d, pv, pe)
      decreases |todo|
    {
      var e :| e in todo;
      if Lt(Fin(w(e)), d) {
        assert IsPath(es, order[i], [], order[i]);
        d := Fin(w(e));
        pv := Some(i);
        pe := Some(e);
      }
      todo := todo - {e};
    }
  }

  /** A seeded entry: no larger than its starting value or the weight of any edge of its bundle. */
  ghost predicate Seeded<V>(es: set<Edge<V>>, w: Edge<V> -> real, order: seq<V>, i: nat, j: nat, d: Double)
    requires i < |order| && j < |order|
  {
    Le(d, Initial(i, j)) && forall e | e in Between(es, order[i], order[j]) :: Le(d, Fin(w(e)))
  }

  /** `M` is an n-by-n matrix. */
  ghost predicate Square<T>(M: seq<seq<T>>, n: nat) {
    |M| == n && forall i | 0 <= i < n :: |M[i]| == n
  }

  /** The contents of a two-dimensional array, row by row. */
  ghost function Snap<T>(A: array2<T>): (M: seq<seq<T>>)
    reads A
    ensures |M| == A.Length0 && forall i | 0 <= i < A.Length0 :: |M[i]| == A.Length1 && forall j | 0 <= j < A.Length1 :: M[i][j] == A[i, j]
  {
    seq(A.Length0, i requires 0 <= i < A.Length0 reads A =>
      seq(A.Length1, j requires 0 <= j < A.Length1 reads A => A[i, j]))
  }

  /**
   * After the rounds for the first k vertices: every entry is at most the
   * weight of any simple walk between its two vertices that passes only
   * through those first k vertices.
   */
  ghost predicate Covered<V>(es: set<Edge<V>>, w: Edge<V> -> real, order: seq<V>, M: seq<seq<Double>>, k: nat)
    requires Square(M, |order|) && k <= |order|
  {
    forall i, j, p: seq<Edge<V>> | 0 <= i < |order| && 0 <= j < |order| && IsPath(es, order[i], p, order[j])
                     && Simple(order[i], p) && Inside(order[i], p, order[..k]) ::
      Le(M[i][j], Fin(Weight(w, p)))
  }

  lemma CoveredAt<V>(es: set<Edge<V>>, w: Edge<V> -> real, order: seq<V>, M: seq<seq<Double>>, k: nat,
                     i: nat, j: nat, p: seq<Edge<V>>)
    requires Square(M, |order|) && k <= |order| && Covered(es, w, order, M, k)
    requires i < |order| && j < |order| && IsPath(es, order[i], p, order[j])
    requires Simple(order[i], p) && Inside(order[i], p, order[..k])
    ensures Le(M[i][j], Fin(Weight(w, p)))
  {
  }

  /** Seeded entries cover the walks with no inner vertex: the empty walk and single edges. */
  lemma SeedCovers<V>(g: Graph<V>, w: Edge<V> -> real, order: seq<V>, M: seq<seq<Double>>)
    requires Enumerates(order, g.vertices) && Square(M, |order|)
    requires forall i, j | 0 <= i < |order| && 0 <= j < |order| :: Seeded(g.edges, w, order, i, j, M[i][j])
    ensures Covered(g.edges, w, order, M, 0)
  {
    forall i, j, p: seq<Edge<V>> | 0 <= i < |order| && 0 <= j < |order| && IsPath(g.edges, order[i], p, order[j])
                     && Simple(order[i], p) && Inside(order[i], p, order[..0])
      ensures Le(M[i][j], Fin(Weight(w, p)))
    {
      if |p| >= 2 {
        Inner(order[i], p);
        assert false;
      } else if p == [] {
        assert Seeded(g.edges, w, order, i, j, M[i][j]);
      } else {
        assert p[1..] == [] && IsPath(g.edges, p[0].target, p[1..], order[j]);
        assert p[0] in Between(g.edges, order[i], order[j]);
        assert Seeded(g.edges, w, order, i, j, M[i][j]);
      }
    }
  }

  /** Every entry of `M1` is at most the same entry of `M0` and at most the way through k in `M0`. */
  ghost predicate Lowered(M0: seq<seq<Double>>, M1: seq<seq<Double>>, n: nat, k: nat) {
    && Square(M0, n) && Square(M1, n) && k < n
    && forall i, j {:trigger M1[i][j]} | 0 <= i < n && 0 <= j < n ::
         Le(M1[i][j], M0[i][j]) && Le(M1[i][j], Add(M0[i][k], M0[k][j]))
  }

  lemma LoweredAt(M0: seq<seq<Double>>, M1: seq<seq<Double>>, n: nat, k: nat, i: nat, j: nat)
    requires Lowered(M0, M1, n, k) && i < n && j < n
    ensures Le(M1[i][j], M0[i][j]) && Le(M1[i][j], Add(M0[i][k], M0[k][j]))
  {
  }

  /**
   * One round through vertex k: if every new entry is at most the old one
   * and at most the old way through k, simple walks that may also pass
   * through order[k] are covered.
   */
  lemma RoundCovers<V>(g: Graph<V>, w: Edge<V> -> real, order: seq<V>, M0: seq<seq<Double>>, M1: seq<seq<Double>>, k: nat)
    requires Enumerates(order, g.vertices) && k < |order| && Square(M0, |order|) && Square(M1, |order|)
    requires Covered(g.edges, w, order, M0, k)
    requires Lowered(M0, M1, |order|, k)
    ensures Covered(g.edges, w, order, M1, k + 1)
  {
    forall i, j, p: seq<Edge<V>> | 0 <= i < |order| && 0 <= j < |order| && IsPath(g.edges, order[i], p, order[j])
                     && Simple(order[i], p) && Inside(order[i], p, order[..k + 1])
      ensures Le(M1[i][j], Fin(Weight(w, p)))
    {
      LoweredAt(M0, M1, |order|, k, i, j);
      if exists t | 0 < t < |p| :: At(order[i], p, t) == order[k] {
        var t :| 0 < t < |p| && At(order[i], p, t) == order[k];
        SplitCovered(g, w, order, M0, k, i, j, p, t);
        LeTransitive(M1[i][j], Add(M0[i][k], M0[k][j]), Fin(Weight(w, p)));
      } else {
        Avoids(order[i], p, order, k);
        assert Le(M0[i][j], Fin(Weight(w, p)));
        LeTransitive(M1[i][j], M0[i][j], Fin(Weight(w, p)));
      }
    }
  }

  /** A walk that does not pass through order[k] passes only through the vertices before it. */
  lemma Avoids<V>(s: V, p: seq<Edge<V>>, order: seq<V>, k: nat)
    requires k < |order| && Inside(s, p, order[..k + 1])
    requires forall t | 0 < t < |p| :: At(s, p, t) != order[k]
    ensures Inside(s, p, order[..k])
  {
    assert order[..k + 1] == order[..k] + [order[k]];
  }

  /** A simple walk through order[k] splits there into two covered walks. */
  lemma SplitCovered<V>(g: Graph<V>, w: Edge<V> -> real, order: seq<V>, M0: seq<seq<Double>>, k: nat,
                        i: nat, j: nat, p: seq<Edge<V>>, t: nat)
    requires Enumerates(order, g.vertices) && k < |order| && Square(M0, |order|)
    requires Covered(g.edges, w, order, M0, k)
    requires i < |order| && j < |order| && IsPath(g.edges, order[i], p, order[j])
    requires Simple(order[i], p) && Inside(order[i], p, order[..k + 1])
    requires 0 < t < |p| && At(order[i], p, t) == order[k]
    ensures Le(Add(M0[i][k], M0[k][j]), Fin(Weight(w, p)))
  {
    var s := order[i];
    assert order[..k + 1] == order[..k] + [order[k]];
    PathSplit(g.edges, s, p, order[j], t);
    var front, back := p[..t], p[t..];
    FrontAvoids(s, p, t, order[..k], order[k]);
    BackAvoids(s, p, t, order[..k], order[k]);
    CoveredAt(g.edges, w, order, M0, k, i, k, front);
    CoveredAt(g.edges, w, order, M0, k, k, j, back);
    WeightAppend(w, front, back);
    assert front + back == p;
    AddBound(M0[i][k], M0[k][j], Weight(w, front), Weight(w, back));
  }

  /** After the last round every simple walk is covered. */
  lemma AllCovered<V>(g: Graph<V>, w: Edge<V> -> real, order: seq<V>, M: seq<seq<Double>>)
    requires WellFormed(g) && Enumerates(order, g.vertices) && Square(M, |order|)
    requires Covered(g.edges, w, order, M, |order|)
    ensures forall i, j, p | 0 <= i < |order| && 0 <= j < |order| && IsPath(g.edges, order[i], p, order[j]) && Simple(order[i], p) ::
      Le(M[i][j], Fin(Weight(w, p)))
  {
    assert order[..|order|] == order;
    forall i, j, p: seq<Edge<V>> | 0 <= i < |order| && 0 <= j < |order| && IsPath(g.edges, order[i], p, order[j]) && Simple(order[i], p)
      ensures Inside(order[i], p, order)
    {
      forall a | 0 < a < |p|
        ensures At(order[i], p, a) in order
      {
        VisitsVertices(g, order[i], p, order[j], a);
      }
    }
  }

  /** The three n-by-n matrices, every cell justified. */
  ghost predicate Matrices<V>(es: set<Edge<V>>, w: Edge<V> -> real, order: seq<V>,
                              D: array2<Double>, PV: array2<Option<nat>>, PE: array2<Option<Edge<V>>>)
    reads D, PV, PE
  {
    && D.Length0 == |order| && D.Length1 == |order|
    && PV.Length0 == |order| && PV.Length1 == |order|
    && PE.Length0 == |order| && PE.Length1 == |order|
    && forall i, j | 0 <= i < |order| && 0 <= j < |order| :: Justified(es, w, order, i, j, D[i, j], PV[i, j], PE[i, j])
  }

  /** Every entry of `D` is at most the matching entry of `M`. */
  ghost predicate Below(D: array2<Double>, M: seq<seq<Double>>)
    reads D
  {
    && D.Length0 == D.Length1 && Square(M, D.Length0)
    && forall a, b | 0 <= a < D.Length0 && 0 <= b < D.Length1 :: Le(D[a, b], M[a][b])
  }

  /** The cells before (i, j) in row-major order are at most the way through k in `M`. */
  ghost predicate Past(D: array2<Double>, M: seq<seq<Double>>, k: nat, i: nat, j: nat)
    reads D
  {
    && D.Length0 == D.Length1 && Square(M, D.Length0) && k < D.Length0
    && forall a, b | 0 <= a < D.Length0 && 0 <= b < D.Length1 && (a < i || (a == i && b < j)) ::
         Le(D[a, b], Add(M[a][k], M[k][b]))
  }

  /**
   * The innermost step: when the way from i through k to j is strictly
   * shorter, it replaces the entry and cell (k, j)'s predecessor vertex and
   * edge are copied into cell (i, j). When the round leaves row k and
   * column k alone, the step reads the matrices as they were before the
   * round, so cell (i, j) ends up swept.
   */
  method Step<V(==)>(es: set<Edge<V>>, w: Edge<V> -> real, order: seq<V>,
                 D: array2<Double>, PV: array2<Option<nat>>, PE: array2<Option<Edge<V>>>,
                 i: nat, j: nat, k: nat, ghost M0: seq<seq<Double>>,
                 ghost P0: seq<seq<Option<nat>>>, ghost E0: seq<seq<Option<Edge<V>>>>)
    requires Matrices(es, w, order, D, PV, PE) && i < |order| && j < |order| && k < |order|
    requires Below(D, M0)
    requires Settled(M0, k) ==> Progress(D, PV, PE, M0, P0, E0, k, i, j)
    modifies D, PV, PE
    ensures Matrices(es, w, order, D, PV, PE) && Below(D, M0)
    ensures Le(D[i, j], Add(M0[i][k], M0[k][j]))
    ensures forall a, b | 0 <= a < |order| && 0 <= b < |order| && (a != i || b != j) :: D[a, b] == old(D[a, b])
    ensures Settled(M0, k) ==> Progress(D, PV, PE, M0, P0, E0, k, i, j + 1)
  {
    if Settled(M0, k) {
      Unswept(D, PV, PE, M0, P0, E0, k, i, j);
    }
    var through := Add(D[i, k], D[k, j]);
    AddMono(D[i, k], D[k, j], M0[i][k], M0[k][j]);
    if Lt(through, D[i, j]) {
      Through(es, w, order, i, k, j, D[i, k], PV[i, k], PE[i, k], D[k, j], PV[k, j], PE[k, j], D[i, j]);
      LeTransitive(through, D[i, j], M0[i][j]);
      D[i, j] := through;
      PV[i, j] := PV[k, j];
      PE[i, j] := PE[k, j];
    } else {
      LtTotal(through, D[i, j]);
      LeTransitive(D[i, j], through, Add(M0[i][k], M0[k][j]));
    }
  }

  /**
   * Before the round reaches cell (i, j), and when it leaves row k and
   * column k alone, the cells the step reads still hold what they held
   * before the round.
   */
  lemma Unswept<V>(D: array2<Double>, PV: array2<Option<nat>>, PE: array2<Option<Edge<V>>>,
                   M0: seq<seq<Double>>, P0: seq<seq<Option<nat>>>, E0: seq<seq<Option<Edge<V>>>>,
                   k: nat, i: nat, j: nat)
    requires Settled(M0, k) && Progress(D, PV, PE, M0, P0, E0, k, i, j) && i < |M0| && j < |M0|
    ensures D[i, k] == M0[i][k] && D[k, j] == M0[k][j] && D[i, j] == M0[i][j]
    ensures PV[k, j] == P0[k][j] && PE[k, j] == E0[k][j]
  {
    Unmoved(M0, k, i);
    Unmoved(M0, k, j);
  }

  /** Row i of a round: the inner loop over j. */
  method Row<V(==)>(es: set<Edge<V>>, w: Edge<V> -> real, order: seq<V>,
                D: array2<Double>, PV: array2<Option<nat>>, PE: array2<Option<Edge<V>>>,
                i: nat, k: nat, ghost M0: seq<seq<Double>>,
                ghost P0: seq<seq<Option<nat>>>, ghost E0: seq<seq<Option<Edge<V>>>>)
    requires Matrices(es, w, order, D, PV, PE) && i < |order| && k < |order|
    requires Below(D, M0) && Past(D, M0, k, i, 0)
    requires Settled(M0, k) ==> Progress(D, PV, PE, M0, P0, E0, k, i, 0)
    modifies D, PV, PE
    ensures Matrices(es, w, order, D, PV, PE) && Below(D, M0) && Past(D, M0, k, i + 1, 0)
    ensures Settled(M0, k) ==> Progress(D, PV, PE, M0, P0, E0, k, i + 1, 0)
  {
    var j := 0;
    while j < |order|
      invariant 0 <= j <= |order|
      invariant Matrices(es, w, order, D, PV, PE) && Below(D, M0) && Past(D, M0, k, i, j)
      invariant Settled(M0, k) ==> Progress(D, PV, PE, M0, P0, E0, k, i, j)
    {
      Step(es, w, order, D, PV, PE, i, j, k, M0, P0, E0);
      j := j + 1;
    }
  }

  /**
   * The round for intermediate vertex k: the loop over i. When the round
   * leaves row k and column k alone (no negative entry at (k, k)), it
   * sweeps every cell as if all read the matrices before the round.
   */
  method Round<V(==)>(es: set<Edge<V>>, w: Edge<V> -> real, order: seq<V>,
                  D: array2<Double>, PV: array2<Option<nat>>, PE: array2<Option<Edge<V>>>,
                  k: nat, ghost M0: seq<seq<Double>>, ghost P0: seq<seq<Option<nat>>>, ghost E0: seq<seq<Option<Edge<V>>>>)
    requires Matrices(es, w, order, D, PV, PE) && k < |order|
    requires Square(M0, |order|) && Square(P0, |order|) && Square(E0, |order|)
    requires forall a, b | 0 <= a < |order| && 0 <= b < |order| :: M0[a][b] == D[a, b] && P0[a][b] == PV[a, b] && E0[a][b] == PE[a, b]
    modifies D, PV, PE
    ensures Matrices(es, w, order, D, PV, PE) && Below(D, M0) && Past(D, M0, k, |order|, 0)
    ensures Settled(M0, k) ==> Relaxed(M0, P0, E0, Snap(D), Snap(PV), Snap(PE), k)
  {
    var i := 0;
    while i < |order|
      invariant 0 <= i <= |order|
      invariant Matrices(es, w, order, D, PV, PE) && Below(D, M0) && Past(D, M0, k, i, 0)
      invariant Settled(M0, k) ==> Progress(D, PV, PE, M0, P0, E0, k, i, 0)
    {
      Row(es, w, order, D, PV, PE, i, k, M0, P0, E0);
      i := i + 1;
    }
  }

  /**
   * Round k in progress at cell (i, j), over the matrices `M0`, `P0`, `E0`
   * it started from: the cells before (i, j) in row-major order are swept,
   * the others still hold their old contents.
   */
  ghost predicate Progress<V>(D: array2<Double>, PV: array2<Option<nat>>, PE: array2<Option<Edge<V>>>,
                              M0: seq<seq<Double>>, P0: seq<seq<Option<nat>>>, E0: seq<seq<Option<Edge<V>>>>,
                              k: nat, i: nat, j: nat)
    reads D, PV, PE
  {
    && D.Length0 == |M0| && D.Length1 == |M0| && PV.Length0 == |M0| && PV.Length1 == |M0|
    && PE.Length0 == |M0| && PE.Length1 == |M0|
    && Square(M0, |M0|) && Square(P0, |M0|) && Square(E0, |M0|) && k < |M0|
    && forall a, b | 0 <= a < |M0| && 0 <= b < |M0| ::
         if a < i || (a == i && b < j) then Swept(M0, P0, E0, k, a, b, D[a, b], PV[a, b], PE[a, b])
         else D[a, b] == M0[a][b] && PV[a, b] == P0[a][b] && PE[a, b] == E0[a][b]
  }

  /** Cell (i, j) gets shorter through k: the old way from i to k and on from k to j beats its old entry. */
  ghost predicate Improved(M: seq<seq<Double>>, i: nat, j: nat, k: nat)
    requires Square(M, |M|) && i < |M| && j < |M| && k < |M|
  {
    Lt(Add(M[i][k], M[k][j]), M[i][j])
  }

  /**
   * Cell (i, j) after round k, all of whose reads are of the matrices
   * before the round: improved, it takes the way through k with cell
   * (k, j)'s predecessor vertex and edge; otherwise it keeps what it had.
   */
  ghost predicate Swept<V>(M0: seq<seq<Double>>, P0: seq<seq<Option<nat>>>, E0: seq<seq<Option<Edge<V>>>>,
                           k: nat, i: nat, j: nat, d: Double, pv: Option<nat>, pe: Option<Edge<V>>)
    requires Square(M0, |M0|) && Square(P0, |M0|) && Square(E0, |M0|) && i < |M0| && j < |M0| && k < |M0|
  {
    if Improved(M0, i, j, k) then d == Add(M0[i][k], M0[k][j]) && pv == P0[k][j] && pe == E0[k][j]
    else d == M0[i][j] && pv == P0[i][j] && pe == E0[i][j]
  }

  /** (M1, P1, E1) is (M0, P0, E0) with every cell swept by round k. */
  ghost predicate Relaxed<V>(M0: seq<seq<Double>>, P0: seq<seq<Option<nat>>>, E0: seq<seq<Option<Edge<V>>>>,
                             M1: seq<seq<Double>>, P1: seq<seq<Option<nat>>>, E1: seq<seq<Option<Edge<V>>>>, k: nat)
  {
    && Square(M0, |M0|) && Square(P0, |M0|) && Square(E0, |M0|) && k < |M0|
    && Square(M1, |M0|) && Square(P1, |M0|) && Square(E1, |M0|)
    && forall i, j | 0 <= i < |M0| && 0 <= j < |M0| :: Swept(M0, P0, E0, k, i, j, M1[i][j], P1[i][j], E1[i][j])
  }

  /**
   * Round k leaves row k and column k alone: every entry is finite or
   * +infinity, and entry (k, k) is not negative.
   */
  ghost predicate Settled(M0: seq<seq<Double>>, k: nat) {
    && Square(M0, |M0|) && k < |M0|
    && (forall a, b | 0 <= a < |M0| && 0 <= b < |M0| :: Reading(M0[a][b]))
    && !Lt(M0[k][k], Fin(0.0))
  }

  /** In a settled round no cell of row k or column k is improved. */
  lemma Unmoved(M0: seq<seq<Double>>, k: nat, a: nat)
    requires Settled(M0, k) && a < |M0|
    ensures !Improved(M0, a, k, k) && !Improved(M0, k, a, k)
  {
    assert Reading(M0[a][k]) && Reading(M0[k][a]) && Reading(M0[k][k]);
  }

  /** The seeding loops: every cell gets its bundle's least weight, or its starting value. */
  method Seed<V(==)>(es: set<Edge<V>>, w: Edge<V> -> real, order: seq<V>,
                     D: array2<Double>, PV: array2<Option<nat>>, PE: array2<Option<Edge<V>>>)
    requires D.Length0 == |order| && D.Length1 == |order| && PV.Length0 == |order| && PV.Length1 == |order|
    requires PE.Length0 == |order| && PE.Length1 == |order|
    modifies D, PV, PE
    ensures Matrices(es, w, order, D, PV, PE)
    ensures forall i, j | 0 <= i < |order| && 0 <= j < |order| :: Seeded(es, w, order, i, j, D[i, j])
    ensures forall i, j | 0 <= i < |order| && 0 <= j < |order| :: Planted(w, i, D[i, j], PV[i, j], PE[i, j])
  {
    var n := |order|;
    for i := 0 to n
      invariant forall a, b | 0 <= a < i && 0 <= b < n ::
        Justified(es, w, order, a, b, D[a, b], PV[a, b], PE[a, b]) && Seeded(es, w, order, a, b, D[a, b])
        && Planted(w, a, D[a, b], PV[a, b], PE[a, b])
    {
      for j := 0 to n
        invariant forall a, b | 0 <= a < n && 0 <= b < n && (a < i || (a == i && b < j)) ::
          Justified(es, w, order, a, b, D[a, b], PV[a, b], PE[a, b]) && Seeded(es, w, order, a, b, D[a, b])
          && Planted(w, a, D[a, b], PV[a, b], PE[a, b])
      {
        var d, pv, pe := Bundle(es, w, order, i, j);
        D[i, j], PV[i, j], PE[i, j] := d, pv, pe;
      }
    }
  }

  /**
   * The matrix computation shared by both copies: N = |V| vertices numbered
   * in `order`, the seeding loops, then the rounds k = 0 .. N - 1. Every
   * cell ends up justified and at most the weight of every simple walk
   * between its vertices.
   */
  method Distances<V(==)>(g: Graph<V>, w: Edge<V> -> real, order: seq<V>)
    returns (D: array2<Double>, PV: array2<Option<nat>>, PE: array2<Option<Edge<V>>>)
    requires WellFormed(g) && Enumerates(order, g.vertices)
    ensures fresh(D) && fresh(PV) && fresh(PE)
    ensures Matrices(g.edges, w, order, D, PV, PE)
    ensures Square(Snap(D), |order|) && Covered(g.edges, w, order, Snap(D), |order|)
    ensures Table(g.edges, w, order, Snap(D), Snap(PV), Snap(PE))
    ensures NoNegativeCycle(g.edges, w) ==> Trees(g.edges, w, order, Snap(D), Snap(PV), Snap(PE))
  {
    var n := |g.vertices|;
    EnumeratesSize(order, g.vertices);
    D := new Double[n, n]((a, b) => Fin(0.0));
    PV := new Option<nat>[n, n]((a, b) => None);
    PE := new Option<Edge<V>>[n, n]((a, b) => None);
    Seed(g.edges, w, order, D, PV, PE);
    SeedCovers(g, w, order, Snap(D));
    SeedTrees(g.edges, w, order, Snap(D), Snap(PV), Snap(PE));
    var k := 0;
    while k < n
      invariant 0 <= k <= n
      invariant Matrices(g.edges, w, order, D, PV, PE)
      invariant Square(Snap(D), n) && Covered(g.edges, w, order, Snap(D), k)
      invariant NoNegativeCycle(g.edges, w) ==> Trees(g.edges, w, order, Snap(D), Snap(PV), Snap(PE))
    {
      ghost var M0, P0, E0 := Snap(D), Snap(PV), Snap(PE);
      if NoNegativeCycle(g.edges, w) {
        Tabled(g.edges, w, order, D, PV, PE);
        SettledRound(g.edges, w, order, M0, P0, E0, k);
      }
      Round(g.edges, w, order, D, PV, PE, k, M0, P0, E0);
      ghost var M1, P1, E1 := Snap(D), Snap(PV), Snap(PE);
      RoundCovers(g, w, order, M0, M1, k);
      if NoNegativeCycle(g.edges, w) {
        Tabled(g.edges, w, order, D, PV, PE);
        RoundTrees(g.edges, w, order, M0, P0, E0, M1, P1, E1, k);
      }
      k := k + 1;
    }
    Tabled(g.edges, w, order, D, PV, PE);
  }

  /** The contents of justified matrices make a table. */
  lemma Tabled<V>(es: set<Edge<V>>, w: Edge<V> -> real, order: seq<V>,
                  D: array2<Double>, PV: array2<Option<nat>>, PE: array2<Option<Edge<V>>>)
    requires Matrices(es, w, order, D, PV, PE)
    ensures Table(es, w, order, Snap(D), Snap(PV), Snap(PE))
  {
  }

  /** The contents of the three matrices, every cell justified. */
  ghost predicate Table<V>(es: set<Edge<V>>, w: Edge<V> -> real, order: seq<V>,
                           M: seq<seq<Double>>, P: seq<seq<Option<nat>>>, E: seq<seq<Option<Edge<V>>>>) {
    && Square(M, |order|) && Square(P, |order|) && Square(E, |order|)
    && forall i, j | 0 <= i < |order| && 0 <= j < |order| :: Justified(es, w, order, i, j, M[i][j], P[i][j], E[i][j])
  }

  /** What the matrices hold once computed: justified cells covering every simple walk. */
  ghost predicate Computed<V>(g: Graph<V>, w: Edge<V> -> real, order: seq<V>,
                              M: seq<seq<Double>>, P: seq<seq<Option<nat>>>, E: seq<seq<Option<Edge<V>>>>) {
    && WellFormed(g) && Enumerates(order, g.vertices) && Table(g.edges, w, order, M, P, E)
    && Covered(g.edges, w, order, M, |order|)
  }

  /**
   * `p` is what buildPath assembles for source number i and target number
   * j: nothing for the source itself, otherwise the path of the recorded
   * predecessor vertex extended by the recorded predecessor edge.
   */
  ghost predicate Traced<V>(order: seq<V>, P: seq<seq<Option<nat>>>, E: seq<seq<Option<Edge<V>>>>,
                            i: nat, j: nat, older p: seq<Edge<V>>)
    requires Square(P, |order|) && Square(E, |order|) && i < |order| && j < |order|
    decreases |p|
  {
    if j == i then p == []
    else
      && E[i][j].Some? && P[i][j].Some? && P[i][j].value < |order| && p != []
      && p[|p| - 1] == E[i][j].value
      && Traced(order, P, E, i, P[i][j].value, p[..|p| - 1])
  }

  /** Following the predecessors back from target number j reaches source number i. */
  ghost predicate Traces<V>(order: seq<V>, P: seq<seq<Option<nat>>>, E: seq<seq<Option<Edge<V>>>>, i: nat, j: nat)
    requires Square(P, |order|) && Square(E, |order|) && i < |order| && j < |order|
  {
    exists p :: Traced(order, P, E, i, j, p)
  }

  /**
   * Links from number d back to number j in row i: following the recorded
   * predecessors from j, through vertices other than the source, reaches d
   * along the recorded edges `p`.
   */
  ghost predicate Links<V>(order: seq<V>, P: seq<seq<Option<nat>>>, E: seq<seq<Option<Edge<V>>>>,
                           i: nat, d: nat, j: nat, older p: seq<Edge<V>>)
    requires Square(P, |order|) && Square(E, |order|) && i < |order| && j < |order|
    decreases |p|
  {
    if p == [] then j == d
    else
      && j != i && E[i][j].Some? && P[i][j].Some? && P[i][j].value < |order|
      && p[|p| - 1] == E[i][j].value
      && Links(order, P, E, i, d, P[i][j].value, p[..|p| - 1])
  }

  /** A trace back to d, then links from d on to j, make a trace back to j. */
  lemma {:induction false} LinksTraced<V>(order: seq<V>, P: seq<seq<Option<nat>>>, E: seq<seq<Option<Edge<V>>>>,
                                          i: nat, d: nat, j: nat, p: seq<Edge<V>>, r: seq<Edge<V>>)
    requires Square(P, |order|) && Square(E, |order|) && i < |order| && d < |order| && j < |order|
    requires Traced(order, P, E, i, d, p) && Links(order, P, E, i, d, j, r)
    ensures Traced(order, P, E, i, j, p + r)
    decreases |r|
  {
    if r == [] {
      assert p + r == p;
    } else {
      var n := |r| - 1;
      LinksTraced(order, P, E, i, d, P[i][j].value, p, r[..n]);
      assert (p + r)[..|p + r| - 1] == p + r[..n];
    }
  }

  /**
   * Cell (i, j)'s recorded edge comes after its recorded vertex: the entry
   * is at least the recorded vertex's finite entry plus the edge's weight.
   */
  ghost predicate Descends<V>(w: Edge<V> -> real, M: seq<seq<Double>>, P: seq<seq<Option<nat>>>, E: seq<seq<Option<Edge<V>>>>,
                              i: nat, j: nat)
    requires Square(M, |M|) && Square(P, |M|) && Square(E, |M|) && i < |M| && j < |M|
  {
    E[i][j].Some? ==>
      && P[i][j].Some? && P[i][j].value < |M| && M[i][j].Fin? && M[i][P[i][j].value].Fin?
      && M[i][j].r >= M[i][P[i][j].value].r + w(E[i][j].value)
  }

  /**
   * The predecessor matrices form a tree per source: every cell descends
   * from its recorded vertex, and following the recorded vertices back
   * from any target with a recorded edge reaches the source.
   */
  ghost predicate Trees<V>(es: set<Edge<V>>, w: Edge<V> -> real, order: seq<V>,
                           M: seq<seq<Double>>, P: seq<seq<Option<nat>>>, E: seq<seq<Option<Edge<V>>>>) {
    && Table(es, w, order, M, P, E)
    && forall i, j | 0 <= i < |order| && 0 <= j < |order| ::
         Descends(w, M, P, E, i, j) && (E[i][j].Some? ==> Traces(order, P, E, i, j))
  }

  /** A seeded cell's edge, if any, leaves the row's own vertex, and the entry is its weight. */
  ghost predicate Planted<V>(w: Edge<V> -> real, i: nat, d: Double, pv: Option<nat>, pe: Option<Edge<V>>) {
    pe.Some? ==> pv == Some(i) && d == Fin(w(pe.value))
  }

  /** The seeded matrices are trees: every recorded edge leaves the source itself. */
  lemma SeedTrees<V>(es: set<Edge<V>>, w: Edge<V> -> real, order: seq<V>,
                     M: seq<seq<Double>>, P: seq<seq<Option<nat>>>, E: seq<seq<Option<Edge<V>>>>)
    requires Table(es, w, order, M, P, E)
    requires forall i, j | 0 <= i < |order| && 0 <= j < |order| :: Seeded(es, w, order, i, j, M[i][j])
    requires forall i, j | 0 <= i < |order| && 0 <= j < |order| :: Planted(w, i, M[i][j], P[i][j], E[i][j])
    ensures Trees(es, w, order, M, P, E)
  {
    forall i, j | 0 <= i < |order| && 0 <= j < |order|
      ensures Descends(w, M, P, E, i, j) && (E[i][j].Some? ==> Traces(order, P, E, i, j))
    {
      if E[i][j].Some? {
        assert Seeded(es, w, order, i, i, M[i][i]) && Planted(w, i, M[i][j], P[i][j], E[i][j]);
        assert Justified(es, w, order, i, i, M[i][i], P[i][i], E[i][i]);
        if j == i {
          assert Traced(order, P, E, i, j, []);
        } else {
          assert Traced(order, P, E, i, i, []);
          assert [E[i][j].value][..0] == [];
          assert Traced(order, P, E, i, j, [E[i][j].value]);
        }
      }
    }
  }

  /** With no negative cycle every round is settled: the diagonal is never negative. */
  lemma SettledRound<V>(es: set<Edge<V>>, w: Edge<V> -> real, order: seq<V>,
                        M: seq<seq<Double>>, P: seq<seq<Option<nat>>>, E: seq<seq<Option<Edge<V>>>>, k: nat)
    requires Table(es, w, order, M, P, E) && NoNegativeCycle(es, w) && k < |order|
    ensures Settled(M, k)
  {
    assert Justified(es, w, order, k, k, M[k][k], P[k][k], E[k][k]);
    var c := Walked(es, w, order, k, k, M[k][k], P[k][k], E[k][k]);
    CycleWeight(es, w, order[k], c);
    forall a, b | 0 <= a < |M| && 0 <= b < |M|
      ensures Reading(M[a][b])
    {
      assert Justified(es, w, order, a, b, M[a][b], P[a][b], E[a][b]);
    }
  }

  /**
   * A settled round of trees gives trees: each cell still descends from
   * its recorded vertex, and the recorded vertices still lead back to the
   * source (a loop among them would close a negative cycle).
   */
  lemma RoundTrees<V>(es: set<Edge<V>>, w: Edge<V> -> real, order: seq<V>,
                      M0: seq<seq<Double>>, P0: seq<seq<Option<nat>>>, E0: seq<seq<Option<Edge<V>>>>,
                      M1: seq<seq<Double>>, P1: seq<seq<Option<nat>>>, E1: seq<seq<Option<Edge<V>>>>, k: nat)
    requires NoNegativeCycle(es, w) && Trees(es, w, order, M0, P0, E0) && Table(es, w, order, M1, P1, E1)
    requires k < |order| && Relaxed(M0, P0, E0, M1, P1, E1, k)
    ensures Trees(es, w, order, M1, P1, E1)
  {
    SettledRound(es, w, order, M0, P0, E0, k);
    forall i, j | 0 <= i < |order| && 0 <= j < |order|
      ensures Descends(w, M1, P1, E1, i, j) && (E1[i][j].Some? ==> Traces(order, P1, E1, i, j))
    {
      StillDescends(es, w, order, M0, P0, E0, M1, P1, E1, k, i, j);
      if E1[i][j].Some? {
        var p := StillTraces(es, w, order, M0, P0, E0, M1, P1, E1, k, i, j);
      }
    }
  }

  /** The facts every step of the argument about one settled round of trees shares. */
  ghost predicate Stage<V>(es: set<Edge<V>>, w: Edge<V> -> real, order: seq<V>,
                           M0: seq<seq<Double>>, P0: seq<seq<Option<nat>>>, E0: seq<seq<Option<Edge<V>>>>,
                           M1: seq<seq<Double>>, P1: seq<seq<Option<nat>>>, E1: seq<seq<Option<Edge<V>>>>, k: nat) {
    && NoNegativeCycle(es, w) && Trees(es, w, order, M0, P0, E0) && Table(es, w, order, M1, P1, E1)
    && k < |order| && Relaxed(M0, P0, E0, M1, P1, E1, k) && Settled(M0, k)
  }

  /** A cell of the new matrices is at most the old way through k. */
  lemma SweptBound<V>(M0: seq<seq<Double>>, P0: seq<seq<Option<nat>>>, E0: seq<seq<Option<Edge<V>>>>,
                      M1: seq<seq<Double>>, P1: seq<seq<Option<nat>>>, E1: seq<seq<Option<Edge<V>>>>, k: nat, i: nat, j: nat)
    requires Relaxed(M0, P0, E0, M1, P1, E1, k) && Settled(M0, k) && i < |M0| && j < |M0|
    ensures Le(M1[i][j], Add(M0[i][k], M0[k][j])) && Le(M1[i][j], M0[i][j])
  {
    assert Swept(M0, P0, E0, k, i, j, M1[i][j], P1[i][j], E1[i][j]);
    assert Reading(M0[i][k]) && Reading(M0[k][j]) && Reading(M0[i][j]);
    LtTotal(Add(M0[i][k], M0[k][j]), M0[i][j]);
  }

  /** After a settled round every cell still descends from its recorded vertex. */
  lemma StillDescends<V>(es: set<Edge<V>>, w: Edge<V> -> real, order: seq<V>,
                         M0: seq<seq<Double>>, P0: seq<seq<Option<nat>>>, E0: seq<seq<Option<Edge<V>>>>,
                         M1: seq<seq<Double>>, P1: seq<seq<Option<nat>>>, E1: seq<seq<Option<Edge<V>>>>, k: nat, i: nat, j: nat)
    requires Stage(es, w, order, M0, P0, E0, M1, P1, E1, k) && i < |order| && j < |order|
    ensures Descends(w, M1, P1, E1, i, j)
  {
    assert Swept(M0, P0, E0, k, i, j, M1[i][j], P1[i][j], E1[i][j]);
    assert Justified(es, w, order, i, j, M1[i][j], P1[i][j], E1[i][j]);
    if E1[i][j].Some? {
      var y := P1[i][j].value;
      SweptBound(M0, P0, E0, M1, P1, E1, k, i, y);
      if Improved(M0, i, j, k) {
        assert Descends(w, M0, P0, E0, k, j);
        assert Reading(M0[i][k]);
      } else {
        assert Descends(w, M0, P0, E0, i, j);
      }
    }
  }

  /** An improved cell: both halves of the way through k are finite, and the way is shorter. */
  lemma ImprovedFinite(M0: seq<seq<Double>>, k: nat, i: nat, j: nat)
    requires Settled(M0, k) && i < |M0| && j < |M0| && Improved(M0, i, j, k)
    ensures M0[i][k].Fin? && M0[k][j].Fin? && (M0[i][j].Fin? ==> M0[i][k].r + M0[k][j].r < M0[i][j].r)
  {
    assert Reading(M0[i][k]) && Reading(M0[k][j]) && Reading(M0[i][j]);
  }

  /** A cell that is not improved, next to a finite way through k, is finite and no longer than that way. */
  lemma KeptFinite(M0: seq<seq<Double>>, k: nat, i: nat, j: nat)
    requires Settled(M0, k) && i < |M0| && j < |M0| && !Improved(M0, i, j, k)
    requires M0[i][k].Fin? && M0[k][j].Fin?
    ensures M0[i][j].Fin? && M0[i][j].r <= M0[i][k].r + M0[k][j].r
  {
    assert Reading(M0[i][j]);
  }

  /**
   * From an improved cell j of row i, the new recorded vertices follow row
   * k's old trace of j back to its first vertex d that is the source or is
   * not improved; row k's old entries grow along the way at least by the
   * weights of the edges followed.
   */
  lemma {:induction false} ImprovedLinks<V>(es: set<Edge<V>>, w: Edge<V> -> real, order: seq<V>,
                                            M0: seq<seq<Double>>, P0: seq<seq<Option<nat>>>, E0: seq<seq<Option<Edge<V>>>>,
                                            M1: seq<seq<Double>>, P1: seq<seq<Option<nat>>>, E1: seq<seq<Option<Edge<V>>>>,
                                            k: nat, i: nat, j: nat, q: seq<Edge<V>>)
    returns (d: nat, r: seq<Edge<V>>)
    requires Stage(es, w, order, M0, P0, E0, M1, P1, E1, k) && i < |order| && j < |order|
    requires j != i && Improved(M0, i, j, k) && Traced(order, P0, E0, k, j, q)
    ensures d < |order| && (d == i || !Improved(M0, i, d, k))
    ensures Links(order, P1, E1, i, d, j, r) && IsPath(es, order[d], r, order[j])
    ensures M0[k][d].Fin? && M0[k][j].Fin? && M0[k][j].r >= M0[k][d].r + Weight(w, r)
    decreases |q|
  {
    Unmoved(M0, k, i);
    assert Swept(M0, P0, E0, k, i, j, M1[i][j], P1[i][j], E1[i][j]);
    assert Descends(w, M0, P0, E0, k, j);
    assert Justified(es, w, order, k, j, M0[k][j], P0[k][j], E0[k][j]);
    var y, e := P0[k][j].value, E0[k][j].value;
    PathSnoc(es, w, order[y], [], e);
    assert [] + [e] == [e];
    if y == i || !Improved(M0, i, y, k) {
      d, r := y, [e];
      assert r[..0] == [];
    } else {
      var r';
      d, r' := ImprovedLinks(es, w, order, M0, P0, E0, M1, P1, E1, k, i, y, q[..|q| - 1]);
      PathSnoc(es, w, order[d], r', e);
      r := r' + [e];
      assert r[..|r| - 1] == r';
    }
  }

  /**
   * From a cell j of row i that is not improved, the new recorded vertices
   * follow row i's old trace of j back to its first vertex c that is the
   * source or is improved; row i's old entries grow along the way at least
   * by the weights of the edges followed.
   */
  lemma {:induction false} KeptLinks<V>(es: set<Edge<V>>, w: Edge<V> -> real, order: seq<V>,
                                        M0: seq<seq<Double>>, P0: seq<seq<Option<nat>>>, E0: seq<seq<Option<Edge<V>>>>,
                                        M1: seq<seq<Double>>, P1: seq<seq<Option<nat>>>, E1: seq<seq<Option<Edge<V>>>>,
                                        k: nat, i: nat, j: nat, q: seq<Edge<V>>)
    returns (c: nat, r: seq<Edge<V>>)
    requires Stage(es, w, order, M0, P0, E0, M1, P1, E1, k) && i < |order| && j < |order|
    requires j != i && !Improved(M0, i, j, k) && Traced(order, P0, E0, i, j, q)
    ensures c < |order| && (c == i || Improved(M0, i, c, k))
    ensures Links(order, P1, E1, i, c, j, r) && IsPath(es, order[c], r, order[j])
    ensures M0[i][c].Fin? && M0[i][j].Fin? && M0[i][j].r >= M0[i][c].r + Weight(w, r)
    decreases |q|
  {
    assert Swept(M0, P0, E0, k, i, j, M1[i][j], P1[i][j], E1[i][j]);
    assert Descends(w, M0, P0, E0, i, j);
    assert Justified(es, w, order, i, j, M0[i][j], P0[i][j], E0[i][j]);
    var y, e := P0[i][j].value, E0[i][j].value;
    PathSnoc(es, w, order[y], [], e);
    assert [] + [e] == [e];
    if y == i || Improved(M0, i, y, k) {
      c, r := y, [e];
      assert r[..0] == [];
    } else {
      var r';
      c, r' := KeptLinks(es, w, order, M0, P0, E0, M1, P1, E1, k, i, y, q[..|q| - 1]);
      PathSnoc(es, w, order[c], r', e);
      r := r' + [e];
      assert r[..|r| - 1] == r';
    }
  }

  /** Some walk from order[x] to order[v] weighs less than row i's old entries at v and x differ by. */
  ghost predicate Lighter<V>(es: set<Edge<V>>, w: Edge<V> -> real, order: seq<V>, M0: seq<seq<Double>>, i: nat, x: nat, v: nat)
    requires Square(M0, |order|) && i < |order| && x < |order| && v < |order|
  {
    && M0[i][x].Fin? && M0[i][v].Fin?
    && exists r :: IsPath(es, order[x], r, order[v]) && M0[i][x].r + Weight(w, r) < M0[i][v].r
  }

  /**
   * The new trace of a cell x of row i that is the source or is not
   * improved. Its new links run back to the source, or to an improved
   * vertex, and from there along row k's links to a vertex d that is not
   * improved, whose old entry is then strictly below x's by more than the
   * walk from d to x weighs. So the vertices met this way never repeat:
   * one that did would close a negative cycle.
   */
  lemma Retrace<V>(es: set<Edge<V>>, w: Edge<V> -> real, order: seq<V>,
                   M0: seq<seq<Double>>, P0: seq<seq<Option<nat>>>, E0: seq<seq<Option<Edge<V>>>>,
                   M1: seq<seq<Double>>, P1: seq<seq<Option<nat>>>, E1: seq<seq<Option<Edge<V>>>>,
                   k: nat, i: nat, x: nat, seen: set<nat>)
    returns (p: seq<Edge<V>>)
    requires Stage(es, w, order, M0, P0, E0, M1, P1, E1, k) && i < |order| && x < |order|
    requires x == i || (!Improved(M0, i, x, k) && E0[i][x].Some?)
    requires x != i ==> forall v | v in seen :: v < |order| && Lighter(es, w, order, M0, i, x, v)
    ensures Traced(order, P1, E1, i, x, p)
    decreases |order| - |seen|
  {
    if x == i {
      p := [];
      return;
    }
    assert Descends(w, M0, P0, E0, i, x);
    var q :| Traced(order, P0, E0, i, x, q);
    var c, r2 := KeptLinks(es, w, order, M0, P0, E0, M1, P1, E1, k, i, x, q);
    var pc;
    if c == i {
      pc := [];
      assert Traced(order, P1, E1, i, i, pc);
    } else {
      var d, r1 := Detour(es, w, order, M0, P0, E0, M1, P1, E1, k, i, c);
      var pd;
      if d == i {
        pd := [];
        assert Traced(order, P1, E1, i, i, pd);
      } else {
        Descent(es, w, order, M0, k, i, x, c, d, r1, r2, seen);
        Bounded(seen + {x}, |order|);
        assert |seen + {x}| == |seen| + 1;
        pd := Retrace(es, w, order, M0, P0, E0, M1, P1, E1, k, i, d, seen + {x});
      }
      LinksTraced(order, P1, E1, i, d, c, pd, r1);
      pc := pd + r1;
    }
    LinksTraced(order, P1, E1, i, c, x, pc, r2);
    p := pc + r2;
  }

  /**
   * Where the new links from an improved vertex c of row i lead: back along
   * row k's old trace of c to a vertex d that is the source or is not
   * improved, and whose old entry in row i is then at most the way through k.
   */
  lemma Detour<V>(es: set<Edge<V>>, w: Edge<V> -> real, order: seq<V>,
                  M0: seq<seq<Double>>, P0: seq<seq<Option<nat>>>, E0: seq<seq<Option<Edge<V>>>>,
                  M1: seq<seq<Double>>, P1: seq<seq<Option<nat>>>, E1: seq<seq<Option<Edge<V>>>>,
                  k: nat, i: nat, c: nat)
    returns (d: nat, r: seq<Edge<V>>)
    requires Stage(es, w, order, M0, P0, E0, M1, P1, E1, k) && i < |order| && c < |order|
    requires c != i && Improved(M0, i, c, k)
    ensures d < |order| && Links(order, P1, E1, i, d, c, r) && IsPath(es, order[d], r, order[c])
    ensures M0[i][k].Fin? && M0[k][c].Fin? && M0[k][d].Fin? && M0[k][c].r >= M0[k][d].r + Weight(w, r)
    ensures M0[i][c].Fin? ==> M0[i][k].r + M0[k][c].r < M0[i][c].r
    ensures d != i ==> !Improved(M0, i, d, k) && E0[i][d].Some? && M0[i][d].Fin? && M0[i][d].r <= M0[i][k].r + M0[k][d].r
  {
    Unmoved(M0, k, i);
    ImprovedFinite(M0, k, i, c);
    assert Justified(es, w, order, k, c, M0[k][c], P0[k][c], E0[k][c]);
    var qk :| Traced(order, P0, E0, k, c, qk);
    d, r := ImprovedLinks(es, w, order, M0, P0, E0, M1, P1, E1, k, i, c, qk);
    if d != i {
      KeptFinite(M0, k, i, d);
      assert Justified(es, w, order, i, d, M0[i][d], P0[i][d], E0[i][d]);
    }
  }

  /**
   * One turn of Retrace: x's links back to the improved vertex c and row
   * k's links back from c to d make a walk from d to x lighter than the
   * gap between their old entries, so x was not met before and d is below
   * every vertex met so far.
   */
  lemma Descent<V>(es: set<Edge<V>>, w: Edge<V> -> real, order: seq<V>, M0: seq<seq<Double>>,
                   k: nat, i: nat, x: nat, c: nat, d: nat, r1: seq<Edge<V>>, r2: seq<Edge<V>>, seen: set<nat>)
    requires NoNegativeCycle(es, w) && Square(M0, |order|)
    requires k < |order| && i < |order| && x < |order| && c < |order| && d < |order|
    requires IsPath(es, order[d], r1, order[c]) && IsPath(es, order[c], r2, order[x])
    requires M0[i][x].Fin? && M0[i][c].Fin? && M0[i][x].r >= M0[i][c].r + Weight(w, r2)
    requires M0[i][k].Fin? && M0[k][c].Fin? && M0[i][k].r + M0[k][c].r < M0[i][c].r
    requires M0[k][d].Fin? && M0[k][c].r >= M0[k][d].r + Weight(w, r1)
    requires M0[i][d].Fin? && M0[i][d].r <= M0[i][k].r + M0[k][d].r
    requires forall v | v in seen :: v < |order| && Lighter(es, w, order, M0, i, x, v)
    ensures x !in seen
    ensures forall v | v in seen + {x} :: v < |order| && Lighter(es, w, order, M0, i, d, v)
  {
    PathAppend(es, w, order[d], r1, order[c], r2, order[x]);
    assert M0[i][d].r + Weight(w, r1 + r2) < M0[i][x].r;
    if x in seen {
      var r :| IsPath(es, order[x], r, order[x]) && M0[i][x].r + Weight(w, r) < M0[i][x].r;
      CycleWeight(es, w, order[x], r);
    }
    forall v | v in seen + {x}
      ensures v < |order| && Lighter(es, w, order, M0, i, d, v)
    {
      if v != x {
        var rv :| IsPath(es, order[x], rv, order[v]) && M0[i][x].r + Weight(w, rv) < M0[i][v].r;
        PathAppend(es, w, order[d], r1 + r2, order[x], rv, order[v]);
      }
    }
  }

  /** A set of numbers below n has at most n elements. */
  lemma {:induction false} Bounded(s: set<nat>, n: nat)
    requires forall v | v in s :: v < n
    ensures |s| <= n
  {
    if n == 0 {
      assert s == {};
    } else {
      Bounded(s - {n - 1}, n - 1);
    }
  }

  /** After a settled round of trees, following the new recorded vertices back from a recorded edge reaches the source. */
  lemma StillTraces<V>(es: set<Edge<V>>, w: Edge<V> -> real, order: seq<V>,
                       M0: seq<seq<Double>>, P0: seq<seq<Option<nat>>>, E0: seq<seq<Option<Edge<V>>>>,
                       M1: seq<seq<Double>>, P1: seq<seq<Option<nat>>>, E1: seq<seq<Option<Edge<V>>>>, k: nat, i: nat, j: nat)
    returns (p: seq<Edge<V>>)
    requires Stage(es, w, order, M0, P0, E0, M1, P1, E1, k) && i < |order| && j < |order| && E1[i][j].Some?
    ensures Traced(order, P1, E1, i, j, p)
  {
    assert Swept(M0, P0, E0, k, i, j, M1[i][j], P1[i][j], E1[i][j]);
    if j == i {
      p := [];
    } else if Improved(M0, i, j, k) {
      var d, r := Detour(es, w, order, M0, P0, E0, M1, P1, E1, k, i, j);
      var p';
      if d == i {
        p' := [];
        assert Traced(order, P1, E1, i, i, p');
      } else {
        p' := Retrace(es, w, order, M0, P0, E0, M1, P1, E1, k, i, d, {});
      }
      LinksTraced(order, P1, E1, i, d, j, p', r);
      p := p' + r;
    } else {
      p := Retrace(es, w, order, M0, P0, E0, M1, P1, E1, k, i, j, {});
    }
  }

  /** With no negative cycle, an entry is at most the weight of every walk between its vertices. */
  lemma Bounds<V>(g: Graph<V>, w: Edge<V> -> real, order: seq<V>,
                  M: seq<seq<Double>>, P: seq<seq<Option<nat>>>, E: seq<seq<Option<Edge<V>>>>, i: nat, j: nat)
    requires Computed(g, w, order, M, P, E) && NoNegativeCycle(g.edges, w) && i < |order| && j < |order|
    ensures forall p | IsPath(g.edges, order[i], p, order[j]) :: Le(M[i][j], Fin(Weight(w, p)))
  {
    AllCovered(g, w, order, M);
    forall p | IsPath(g.edges, order[i], p, order[j])
      ensures Le(M[i][j], Fin(Weight(w, p)))
    {
      var s := Simplify(g.edges, w, order[i], p, order[j]);
      LeTransitive(M[i][j], Fin(Weight(w, s)), Fin(Weight(w, p)));
    }
  }

  /**
   * With no negative cycle every entry is exact: the least weight of a walk
   * between its two vertices, +infinity when there is none.
   */
  lemma Solved<V>(g: Graph<V>, w: Edge<V> -> real, order: seq<V>,
                  M: seq<seq<Double>>, P: seq<seq<Option<nat>>>, E: seq<seq<Option<Edge<V>>>>, i: nat, j: nat)
    requires Computed(g, w, order, M, P, E) && NoNegativeCycle(g.edges, w) && i < |order| && j < |order|
    ensures Exact(g.edges, w, order[i], order[j], M[i][j])
  {
    Bounds(g, w, order, M, P, E, i, j);
    assert Justified(g.edges, w, order, i, j, M[i][j], P[i][j], E[i][j]);
    if M[i][j].Fin? {
      var q := Walked(g.edges, w, order, i, j, M[i][j], P[i][j], E[i][j]);
    }
  }

  /** Some diagonal entry is negative exactly when the graph has a negative cycle. */
  lemma NegativeDiagonal<V>(g: Graph<V>, w: Edge<V> -> real, order: seq<V>,
                            M: seq<seq<Double>>, P: seq<seq<Option<nat>>>, E: seq<seq<Option<Edge<V>>>>)
    requires Computed(g, w, order, M, P, E)
    ensures (exists i | 0 <= i < |order| :: Lt(M[i][i], Fin(0.0))) <==> !NoNegativeCycle(g.edges, w)
  {
    if exists i | 0 <= i < |order| :: Lt(M[i][i], Fin(0.0)) {
      var i :| 0 <= i < |order| && Lt(M[i][i], Fin(0.0));
      DiagonalCycle(g, w, order, M, P, E, i);
    }
    if !NoNegativeCycle(g.edges, w) {
      CycleDiagonal(g, w, order, M, P, E);
    }
  }

  /** A negative diagonal entry is the weight of a negative closed walk. */
  lemma DiagonalCycle<V>(g: Graph<V>, w: Edge<V> -> real, order: seq<V>,
                         M: seq<seq<Double>>, P: seq<seq<Option<nat>>>, E: seq<seq<Option<Edge<V>>>>, i: nat)
    requires Table(g.edges, w, order, M, P, E) && i < |order| && Lt(M[i][i], Fin(0.0))
    ensures !NoNegativeCycle(g.edges, w)
  {
    assert Justified(g.edges, w, order, i, i, M[i][i], P[i][i], E[i][i]);
    var c := Walked(g.edges, w, order, i, i, M[i][i], P[i][i], E[i][i]);
    ClosedNegative(g.edges, w, order[i], c);
  }

  /** A negative cycle leaves a negative entry on the diagonal of the computed matrix. */
  lemma CycleDiagonal<V>(g: Graph<V>, w: Edge<V> -> real, order: seq<V>,
                         M: seq<seq<Double>>, P: seq<seq<Option<nat>>>, E: seq<seq<Option<Edge<V>>>>)
    requires Computed(g, w, order, M, P, E) && !NoNegativeCycle(g.edges, w)
    ensures exists i | 0 <= i < |order| :: Lt(M[i][i], Fin(0.0))
  {
    NegativeCycleSimple(g.edges, w);
    var x, q :| IsPath(g.edges, x, q, x) && Simple(x, q) && Weight(w, q) < 0.0;
    assert q[0] in g.edges;
    var i :| 0 <= i < |order| && order[i] == x;
    AllCovered(g, w, order, M);
    assert Le(M[i][i], Fin(Weight(w, q)));
  }

  /** The older copy's predecessor entry: the vertex numbered by the recorded index, or null. */
  function PrevOf<V>(order: seq<V>, pv: Option<nat>): Option<V> {
    if pv.Some? && pv.value < |order| then Some(order[pv.value]) else None
  }

  /** A cell's predecessor vertex and distance satisfy LastHop. */
  lemma HopAt<V>(g: Graph<V>, w: Edge<V> -> real, order: seq<V>,
                 M: seq<seq<Double>>, P: seq<seq<Option<nat>>>, E: seq<seq<Option<Edge<V>>>>, i: nat, j: nat)
    requires Computed(g, w, order, M, P, E) && i < |order| && j < |order|
    ensures LastHop(g.edges, w, order[i], order[j], PrevOf(order, P[i][j]), M[i][j])
  {
    assert Justified(g.edges, w, order, i, j, M[i][j], P[i][j], E[i][j]);
    if E[i][j].Some? {
      var q :| IsPath(g.edges, order[i], q, order[P[i][j].value]) && Weight(w, q) + w(E[i][j].value) == M[i][j].r;
      assert E[i][j].value in g.edges && E[i][j].value.source == PrevOf(order, P[i][j]).value;
    }
  }

  /** The older copy's row for source number i: every vertex with (predecessor vertex, distance). */
  ghost predicate Filled<V>(order: seq<V>, M: seq<seq<Double>>, P: seq<seq<Option<nat>>>, i: nat, row: map<V, (Option<V>, Double)>)
    requires Square(M, |order|) && Square(P, |order|) && i < |order|
  {
    && row.Keys == (set t | t in order)
    && forall j {:trigger row[order[j]]} | 0 <= j < |order| :: row[order[j]] == (PrevOf(order, P[i][j]), M[i][j])
  }

  /** The contents of `A` are `M`, an n-by-n matrix. */
  ghost predicate Holds<T>(A: array2<T>, M: seq<seq<T>>, n: nat)
    reads A
  {
    && A.Length0 == n && A.Length1 == n && Square(M, n)
    && forall a, b | 0 <= a < n && 0 <= b < n :: A[a, b] == M[a][b]
  }

  /** No vertex is listed twice. */
  ghost predicate Distinct<V>(order: seq<V>) {
    forall a, b | 0 <= a < b < |order| :: order[a] != order[b]
  }

  /** The older copy's inner loop over j, for source number i. */
  method TableRow<V>(order: seq<V>, D: array2<Double>, PV: array2<Option<nat>>, i: nat,
                     ghost M: seq<seq<Double>>, ghost P: seq<seq<Option<nat>>>)
    returns (row: map<V, (Option<V>, Double)>)
    requires Holds(D, M, |order|) && Holds(PV, P, |order|) && i < |order| && Distinct(order)
    ensures Filled(order, M, P, i, row)
  {
    row := map[];
    for j := 0 to |order|
      invariant row.Keys == (set t | t in order[..j])
      invariant forall b {:trigger row[order[b]]} | 0 <= b < j :: row[order[b]] == (PrevOf(order, P[i][b]), M[i][b])
    {
      assert order[..j + 1] == order[..j] + [order[j]];
      var prev := if PV[i, j] != None then PrevOf(order, PV[i, j]) else None;
      row := row[order[j] := (prev, D[i, j])];
    }
    assert order[..|order|] == order;
  }

  /** The older copy's outer loop: the row of every source. */
  method TableRows<V>(order: seq<V>, D: array2<Double>, PV: array2<Option<nat>>,
                      ghost M: seq<seq<Double>>, ghost P: seq<seq<Option<nat>>>)
    returns (result: map<V, map<V, (Option<V>, Double)>>)
    requires Holds(D, M, |order|) && Holds(PV, P, |order|) && Distinct(order)
    ensures Rows(order, M, P, result, |order|)
  {
    result := map[];
    for i := 0 to |order|
      invariant Rows(order, M, P, result, i)
    {
      var row := TableRow(order, D, PV, i, M, P);
      AddRow(order, M, P, result, i, row);
      result := result[order[i] := row];
    }
    assert order[..|order|] == order;
  }

  /** The older copy's table after the rows of the first i sources. */
  ghost predicate Rows<V>(order: seq<V>, M: seq<seq<Double>>, P: seq<seq<Option<nat>>>,
                          result: map<V, map<V, (Option<V>, Double)>>, i: nat)
    requires Square(M, |order|) && Square(P, |order|) && i <= |order|
  {
    && result.Keys == (set s | s in order[..i])
    && forall a {:trigger result[order[a]]} | 0 <= a < i :: Filled(order, M, P, a, result[order[a]])
  }

  lemma AddRow<V>(order: seq<V>, M: seq<seq<Double>>, P: seq<seq<Option<nat>>>,
                  result: map<V, map<V, (Option<V>, Double)>>, i: nat, row: map<V, (Option<V>, Double)>)
    requires Square(M, |order|) && Square(P, |order|) && i < |order| && Distinct(order)
    requires Rows(order, M, P, result, i) && Filled(order, M, P, i, row)
    ensures Rows(order, M, P, result[order[i] := row], i + 1)
  {
    AddKey(order, result, i, row, order[..i + 1]);
    var result' := result[order[i] := row];
    forall a | 0 <= a < i + 1
      ensures Filled(order, M, P, a, result'[order[a]])
    {
      if a < i {
        assert order[a] in order[..i];
        KeptRow(order, result, i, row, a);
      }
    }
  }

  lemma AddKey<V, R>(order: seq<V>, result: map<V, R>, i: nat, row: R, next: seq<V>)
    requires i < |order| && result.Keys == (set s | s in order[..i]) && next == order[..i + 1]
    ensures result[order[i] := row].Keys == (set s | s in next)
  {
    assert next == order[..i] + [order[i]];
  }

  lemma KeptRow<V, R>(order: seq<V>, result: map<V, R>, i: nat, row: R, a: nat)
    requires a < i < |order| && Distinct(order) && order[a] in result
    ensures result[order[i] := row][order[a]] == result[order[a]]
  {
    assert order[a] != order[i];
  }

  /** The diagonal check: is some diagonal entry below zero? */
  method NegativeEntry(D: array2<Double>, n: nat, ghost M: seq<seq<Double>>) returns (negative: bool)
    requires Holds(D, M, n)
    ensures negative <==> exists i | 0 <= i < n :: Lt(M[i][i], Fin(0.0))
  {
    for i := 0 to n
      invariant forall a | 0 <= a < i :: !Lt(M[a][a], Fin(0.0))
    {
      if Lt(D[i, i], Fin(0.0)) {
        return true;
      }
    }
    return false;
  }

  /**
   * findAllShortestPaths of the older copy: the matrices, then a negative
   * diagonal entry throws; otherwise every vertex maps every vertex to its
   * predecessor vertex (null when none) and the distance. The table then
   * holds the exact distances and, wherever there is a predecessor, an
   * edge from it that ends a shortest walk.
   */
  method PredecessorTable<V(==)>(g: Graph<V>, w: Edge<V> -> real, order: seq<V>)
    returns (r: Result<map<V, map<V, (Option<V>, Double)>>>)
    requires WellFormed(g) && Enumerates(order, g.vertices)
    ensures r.Err? <==> !NoNegativeCycle(g.edges, w)
    ensures r.Err? ==> r.error == IllegalArgument
    ensures r.Ok? ==> r.value.Keys == g.vertices && forall s | s in r.value :: r.value[s].Keys == g.vertices
    ensures r.Ok? ==> forall s, t | s in r.value && t in r.value[s] ::
      Exact(g.edges, w, s, t, r.value[s][t].1) && LastHop(g.edges, w, s, t, r.value[s][t].0, r.value[s][t].1)
  {
    var D, PV, PE := Distances(g, w, order);
    ghost var M, P, E := Snap(D), Snap(PV), Snap(PE);
    assert Computed(g, w, order, M, P, E);
    NegativeDiagonal(g, w, order, M, P, E);
    EnumeratesSize(order, g.vertices);
    assert Holds(D, M, |order|) && Holds(PV, P, |order|) && Distinct(order);
    var negative := NegativeEntry(D, |g.vertices|, M);
    if negative {
      return Err(IllegalArgument);
    }
    var result := TableRows(order, D, PV, M, P);
    AnsweredKeys(g, order, M, P, result);
    forall s, t | s in result && t in result[s]
      ensures Exact(g.edges, w, s, t, result[s][t].1) && LastHop(g.edges, w, s, t, result[s][t].0, result[s][t].1)
    {
      AnsweredAt(g, w, order, M, P, E, result, s, t);
    }
    r := Ok(result);
  }

  /** The older copy's table has every vertex as a key, with every vertex as a key of its row. */
  lemma AnsweredKeys<V>(g: Graph<V>, order: seq<V>, M: seq<seq<Double>>, P: seq<seq<Option<nat>>>,
                        result: map<V, map<V, (Option<V>, Double)>>)
    requires Enumerates(order, g.vertices) && Square(M, |order|) && Square(P, |order|)
    requires Rows(order, M, P, result, |order|)
    ensures result.Keys == g.vertices && forall s | s in result :: result[s].Keys == g.vertices
  {
    assert order[..|order|] == order;
    forall s | s in result
      ensures result[s].Keys == g.vertices
    {
      var a :| 0 <= a < |order| && order[a] == s;
      RowKeys(g, order, M, P, a, result[order[a]]);
    }
  }

  lemma RowKeys<V>(g: Graph<V>, order: seq<V>, M: seq<seq<Double>>, P: seq<seq<Option<nat>>>, a: nat, row: map<V, (Option<V>, Double)>)
    requires Enumerates(order, g.vertices) && Square(M, |order|) && Square(P, |order|) && a < |order|
    requires Filled(order, M, P, a, row)
    ensures row.Keys == g.vertices
  {
  }

  /** One pair of the older copy's table: the exact distance and a last hop of a shortest walk. */
  lemma AnsweredAt<V>(g: Graph<V>, w: Edge<V> -> real, order: seq<V>, M: seq<seq<Double>>, P: seq<seq<Option<nat>>>,
                      E: seq<seq<Option<Edge<V>>>>, result: map<V, map<V, (Option<V>, Double)>>, s: V, t: V)
    requires Computed(g, w, order, M, P, E) && NoNegativeCycle(g.edges, w)
    requires Rows(order, M, P, result, |order|)
    requires s in result && t in result[s] && s in order && t in order
    ensures Exact(g.edges, w, s, t, result[s][t].1) && LastHop(g.edges, w, s, t, result[s][t].0, result[s][t].1)
  {
    var a :| 0 <= a < |order| && order[a] == s;
    var b :| 0 <= b < |order| && order[b] == t;
    assert Filled(order, M, P, a, result[order[a]]);
    assert result[s][order[b]] == (PrevOf(order, P[a][b]), M[a][b]);
    Solved(g, w, order, M, P, E, a, b);
    HopAt(g, w, order, M, P, E, a, b);
  }
}
