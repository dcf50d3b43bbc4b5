/**
 * The newer Java A* search keeps, for a vertex still in the heap, a node
 * whose value is a (vertex, distance) tuple. An improvement compares the
 * new distance with the tuple's distance and lowers the node's priority,
 * but never replaces the tuple: the stored distance goes stale. A later,
 * smaller improvement over the stale distance then asks decreaseKey for a
 * priority above the current one, which the heap rejects with an
 * IllegalArgumentException.
 *
 * This module follows one such vertex through the improvements offered to
 * it while it waits in the heap, as written and with the distance refreshed
 * (which is what AStarSearches, and the Kotlin copy, do).
 */
module AStarStale {
  import opened Wrappers

  /** A vertex waiting in the heap: the distance in its node's tuple and the node's priority. */
  datatype Slot = Slot(distance: real, priority: real)

  /** The heap's decreaseKey guard: a priority above the current one is rejected. */
  function DecreaseKeyCheck(current: real, p: real): (o: Outcome)
    ensures o.Pass? <==> p <= current
    ensures o.Fail? ==> o.error == IllegalArgument
  {
    if p > current then Fail(IllegalArgument) else Pass
  }

  /**
   * One improvement `nd` of a waiting vertex whose heuristic is `h`: when
   * the stored distance exceeds `nd`, decreaseKey to `nd + h`; `refresh`
   * says whether the stored distance becomes `nd` (false as written).
   */
  function Offer(s: Slot, nd: real, h: real, refresh: bool): (r: Result<Slot>)
    ensures s.distance <= nd ==> r == Ok(s)
    ensures r.Err? <==> nd < s.distance && s.priority < nd + h
    ensures r.Ok? && nd < s.distance ==>
      r.value == Slot(if refresh then nd else s.distance, nd + h)
  {
    if s.distance > nd then
      match DecreaseKeyCheck(s.priority, nd + h)
      case Pass => Ok(Slot(if refresh then nd else s.distance, nd + h))
      case Fail(f) => Err(f)
    else Ok(s)
  }

  /** The improvements `offers`, in order; the first rejection ends the search. */
  function Replay(s: Slot, offers: seq<real>, h: real, refresh: bool): Result<Slot>
    decreases |offers|
  {
    if offers == [] then Ok(s)
    else match Offer(s, offers[0], h, refresh)
      case Ok(t) => Replay(t, offers[1..], h, refresh)
      case Err(f) => Err(f)
  }

  /** The smallest of `d` and the offers. */
  function Least(d: real, offers: seq<real>): (m: real)
    ensures m <= d && forall i | 0 <= i < |offers| :: m <= offers[i]
    ensures m == d || exists i | 0 <= i < |offers| :: m == offers[i]
    decreases |offers|
  {
    if offers == [] then d
    else
      var rest := Least(d, offers[1..]);
      assert forall i | 1 <= i < |offers| :: offers[i] == offers[1..][i - 1];
      if offers[0] < rest then offers[0] else rest
  }

  /** The heap's priority of a waiting vertex is its stored distance plus its heuristic. */
  predicate Consistent(s: Slot, h: real) {
    s.priority == s.distance + h
  }

  /**
   * With the distance refreshed, no sequence of improvements is rejected,
   * the priority stays distance plus heuristic, and the stored distance is
   * the least distance offered.
   */
  lemma {:induction false} RefreshedNeverThrows(s: Slot, offers: seq<real>, h: real)
    requires Consistent(s, h)
    ensures Replay(s, offers, h, true).Ok?
    ensures Consistent(Replay(s, offers, h, true).value, h)
    ensures Replay(s, offers, h, true).value.distance == Least(s.distance, offers)
    decreases |offers|
  {
    if offers != [] {
      var t := Offer(s, offers[0], h, true).value;
      RefreshedNeverThrows(t, offers[1..], h);
      LeastFront(s.distance, offers);
    }
  }

  /** Least over a non-empty list starts from the smaller of `d` and the first offer. */
  lemma {:induction false} LeastFront(d: real, offers: seq<real>)
    requires offers != []
    ensures Least(d, offers) == Least(if offers[0] < d then offers[0] else d, offers[1..])
    decreases |offers|
  {
    var rest := offers[1..];
    if rest != [] {
      LeastFront(d, rest);
      LeastFront(if offers[0] < d then offers[0] else d, rest);
      assert rest[1..] == offers[1..][1..];
    }
  }

  /**
   * As written, on s->x(10), s->y(1), s->z(2), y->x(5), z->x(6) with a zero
   * heuristic: x enters with distance and priority 10; y, dequeued next,
   * offers 6 and lowers the priority to 6 while the tuple keeps 10; z,
   * dequeued before x, offers 8, which beats the stale 10, and decreaseKey
   * is asked for 8 above the current 6. With the refresh, the offer of 8 is
   * ignored and x keeps distance 6.
   */
  lemma StaleThrows()
    ensures Consistent(Slot(10.0, 10.0), 0.0)
    ensures Replay(Slot(10.0, 10.0), [6.0, 8.0], 0.0, false) == Err(IllegalArgument)
    ensures Replay(Slot(10.0, 10.0), [6.0, 8.0], 0.0, true) == Ok(Slot(6.0, 6.0))
  {
    assert [6.0, 8.0][1..] == [8.0];
    assert [8.0][1..] == [];
  }
}
