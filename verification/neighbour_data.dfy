/**
 * `Neighbours` of `graph_walker`: a record of four values, one per
 * direction, used both for the indices of a node's neighbours and for
 * the number of agents a node sends to each of them.
 *
 * The weighted choice of a neighbour slot takes the push strengths as
 * `real`s and the generator's draw `u` in [0, 1) as an input; the
 * source accumulates `f32`s, whose rounding is not modelled.
 */
module NeighbourData {
  import opened Optional

  datatype Neighbours = Neighbours(top: nat, bottom: nat, left: nat, right: nat, size: nat)

  /** `Neighbours::new`: note the argument order differs from the field order. */
  function New(top: nat, right: nat, bottom: nat, left: nat): (n: Neighbours)
    ensures n.top == top && n.right == right && n.bottom == bottom && n.left == left
    ensures n.size == 4
  {
    Neighbours(top, bottom, left, right, 4)
  }

  /** Value held for slot `i`: 0 top, 1 right, 2 bottom, 3 left (the iteration order). */
  function Slot(n: Neighbours, i: nat): nat
    requires i < 4
  {
    match i
    case 0 => n.top
    case 1 => n.right
    case 2 => n.bottom
    case _ => n.left
  }

  /** Sum of the four counters. */
  function Total(n: Neighbours): nat
  {
    n.top + n.right + n.bottom + n.left
  }

  // ---------------------------------------------------------------------
  // Iteration
  // ---------------------------------------------------------------------

  datatype NeighboursIter = NeighboursIter(neighbours: Neighbours, index: nat)

  /** `into_iter`: a cursor at slot 0. */
  function IntoIter(n: Neighbours): (it: NeighboursIter)
    ensures it.neighbours == n && it.index == 0
  {
    NeighboursIter(n, 0)
  }

  /**
   * `next`: the value of the current slot and the cursor one further;
   * past the fourth slot, `None` and the cursor stays where it is.
   */
  function Next(it: NeighboursIter): (r: (Option<nat>, NeighboursIter))
    ensures it.index < 4 ==> r.0 == Some(Slot(it.neighbours, it.index)) &&
                             r.1 == it.(index := it.index + 1)
    ensures it.index >= 4 ==> r == (None, it)
  {
    match it.index
    case 0 => (Some(it.neighbours.top), it.(index := 1))
    case 1 => (Some(it.neighbours.right), it.(index := 2))
    case 2 => (Some(it.neighbours.bottom), it.(index := 3))
    case 3 => (Some(it.neighbours.left), it.(index := 4))
    case _ => (None, it)
  }

  /** The results of `k` successive calls of `next`. */
  function Take(it: NeighboursIter, k: nat): seq<Option<nat>>
    decreases k
  {
    if k == 0 then [] else [Next(it).0] + Take(Next(it).1, k - 1)
  }

  /** An exhausted iterator yields `None` on every later call. */
  lemma {:induction false} ExhaustedYieldsNone(it: NeighboursIter, k: nat)
    requires it.index >= 4
    ensures Take(it, k) == seq(k, _ => None)
  {
    if k > 0 {
      ExhaustedYieldsNone(it, k - 1);
    }
  }

  /**
   * Iteration yields top, right, bottom and left, in that order, and then
   * `None` on every further call.
   */
  lemma IterationOrder(n: Neighbours, k: nat)
    requires k >= 4
    ensures Take(IntoIter(n), k) == [Some(n.top), Some(n.right), Some(n.bottom), Some(n.left)] + seq(k - 4, _ => None)
  {
    var it4 := NeighboursIter(n, 4);
    ExhaustedYieldsNone(it4, k - 4);
    calc {
      Take(IntoIter(n), k);
      [Some(n.top)] + Take(NeighboursIter(n, 1), k - 1);
      [Some(n.top)] + ([Some(n.right)] + Take(NeighboursIter(n, 2), k - 2));
      [Some(n.top)] + ([Some(n.right)] + ([Some(n.bottom)] + Take(NeighboursIter(n, 3), k - 3)));
      [Some(n.top)] + ([Some(n.right)] + ([Some(n.bottom)] + ([Some(n.left)] + Take(it4, k - 4))));
      [Some(n.top), Some(n.right), Some(n.bottom), Some(n.left)] + seq(k - 4, _ => None);
    }
  }

  // ---------------------------------------------------------------------
  // Weighted choice of a slot
  // ---------------------------------------------------------------------

  /** Sum of the first `k` weights. */
  function PrefixSum(w: seq<real>, k: nat): real
    requires k <= |w|
  {
    if k == 0 then 0.0 else PrefixSum(w, k - 1) + w[k - 1]
  }

  /** Running sum up to and including slot `j`: what the scan compares at slot `j`. */
  function Running(w: seq<real>, j: nat): real
    requires j < |w|
  {
    PrefixSum(w, j + 1)
  }

  lemma {:induction false} PrefixSumOfPrefix(w: seq<real>, m: nat, k: nat)
    requires k <= m <= |w|
    ensures PrefixSum(w[..m], k) == PrefixSum(w, k)
  {
    if k > 0 {
      PrefixSumOfPrefix(w, m, k - 1);
    }
  }

  /** `i` is the first slot whose running sum of weights reaches `r`. */
  ghost predicate FirstReaching(w: seq<real>, r: real, i: nat)
  {
    i < |w| && Running(w, i) >= r &&
    forall j :: 0 <= j < i ==> Running(w, j) < r
  }

  /**
   * The slot the scan stops at: the smallest index whose running sum is
   * at least `r` (ties go to the lower index), or `None` if the running
   * sum never reaches `r`.
   */
  function SelectSlot(w: seq<real>, r: real): (o: Option<nat>)
    ensures o.Some? ==> FirstReaching(w, r, o.value)
    ensures o.None? ==> forall j :: 0 <= j < |w| ==> Running(w, j) < r
  {
    if |w| == 0 then None
    else
      var init := w[..|w| - 1];
      match SelectSlot(init, r)
      case Some(i) =>
        PrefixSumOfPrefix(w, |w| - 1, i + 1);
        assert forall j :: 0 <= j < i ==> Running(init, j) == Running(w, j) by {
          forall j | 0 <= j < i
            ensures Running(init, j) == Running(w, j)
          {
            PrefixSumOfPrefix(w, |w| - 1, j + 1);
          }
        }
        Some(i)
      case None =>
        assert forall j :: 0 <= j < |w| - 1 ==> Running(init, j) == Running(w, j) by {
          forall j | 0 <= j < |w| - 1
            ensures Running(init, j) == Running(w, j)
          {
            PrefixSumOfPrefix(w, |w| - 1, j + 1);
          }
        }
        if PrefixSum(w, |w|) >= r then Some(|w| - 1) else None
  }

  /** The first-reaching slot is unique, so the scan's answer is the only possible one. */
  lemma FirstReachingUnique(w: seq<real>, r: real, i: nat, j: nat)
    requires FirstReaching(w, r, i) && FirstReaching(w, r, j)
    ensures i == j
  {
  }

  /** Increment the counter of slot `i` by one. */
  function Bump(n: Neighbours, i: nat): (m: Neighbours)
    requires i < 4
    ensures Slot(m, i) == Slot(n, i) + 1
    ensures forall j :: 0 <= j < 4 && j != i ==> Slot(m, j) == Slot(n, j)
    ensures m.size == n.size && Total(m) == Total(n) + 1
  {
    match i
    case 0 => n.(top := n.top + 1)
    case 1 => n.(right := n.right + 1)
    case 2 => n.(bottom := n.bottom + 1)
    case _ => n.(left := n.left + 1)
  }

  /** The source's `random_number`: the draw scaled by the total weight. */
  function Threshold(u: real, total: real): real
  {
    u * total
  }

  /** Outcome of one placement: the updated counters, or the `panic!` arm. */
  datatype Placement = Placed(counters: Neighbours) | InvalidIndex

  /**
   * `add_agent_to_random_cell` with draw `u`: the threshold is
   * `u * total`; the first slot whose running sum reaches it is bumped.
   * A slot beyond the fourth hits the panic arm; if no slot reaches the
   * threshold the counters are left alone.
   */
  function Place(n: Neighbours, w: seq<real>, total: real, u: real): (p: Placement)
    ensures p == InvalidIndex <==> exists i: nat :: 4 <= i && FirstReaching(w, Threshold(u, total), i)
    ensures p.Placed? ==> p.counters.size == n.size
    ensures forall i: nat :: i < 4 && FirstReaching(w, Threshold(u, total), i) ==> p == Placed(Bump(n, i))
    ensures (forall i: nat :: !FirstReaching(w, Threshold(u, total), i)) ==> p == Placed(n)
  {
    match SelectSlot(w, Threshold(u, total))
    case None => Placed(n)
    case Some(i) => if i < 4 then Placed(Bump(n, i)) else InvalidIndex
  }

  /**
   * The scan exactly as the source writes it: a running sum, stopping at
   * the first slot where the sum reaches the threshold.
   */
  method AddAgentToRandomCell(n: Neighbours, w: seq<real>, total: real, u: real) returns (p: Placement)
    ensures p == Place(n, w, total, u)
  {
    var r := u * total;
    var sum := 0.0;
    var i := 0;
    while i < |w|
      invariant 0 <= i <= |w|
      invariant sum == PrefixSum(w, i)
      invariant forall j :: 0 <= j < i ==> Running(w, j) < r
    {
      sum := sum + w[i];
      if sum >= r {
        assert FirstReaching(w, r, i);
        if i < 4 {
          return Placed(Bump(n, i));
        } else {
          return InvalidIndex;
        }
      }
      i := i + 1;
    }
    return Placed(n);
  }

  /** Four non-negative weights whose sum is `total`, and a draw in [0, 1). */
  ghost predicate FairDraw(w: seq<real>, total: real, u: real)
  {
    |w| == 4 && (forall j :: 0 <= j < 4 ==> w[j] >= 0.0) &&
    total == PrefixSum(w, 4) && 0.0 <= u < 1.0
  }

  lemma {:induction false} PrefixSumNonNegative(w: seq<real>, k: nat)
    requires k <= |w|
    requires forall j :: 0 <= j < |w| ==> w[j] >= 0.0
    ensures PrefixSum(w, k) >= 0.0
  {
    if k > 0 {
      PrefixSumNonNegative(w, k - 1);
    }
  }

  lemma ScaleBelow(u: real, t: real)
    requires 0.0 <= u < 1.0 && t >= 0.0
    ensures u * t <= t
  {
    assert t - u * t == (1.0 - u) * t;
  }

  /**
   * With a fair draw some slot is always chosen, so exactly one counter
   * goes up by exactly one and nothing else changes.
   */
  lemma FairDrawPlaces(n: Neighbours, w: seq<real>, total: real, u: real)
    requires FairDraw(w, total, u)
    ensures exists i :: 0 <= i < 4 && Place(n, w, total, u) == Placed(Bump(n, i))
    ensures Place(n, w, total, u).Placed? && Total(Place(n, w, total, u).counters) == Total(n) + 1
  {
    PrefixSumNonNegative(w, 4);
    var r := Threshold(u, total);
    assert r <= total by {
      assert r == u * total;
      ScaleBelow(u, total);
    }
    assert Running(w, 3) == total;
    var o := SelectSlot(w, r);
    assert o.Some?;
    var i := o.value;
    assert FirstReaching(w, r, i);
    assert Place(n, w, total, u) == Placed(Bump(n, i));
  }

  /** A zero-weight slot after the first is never chosen. */
  lemma ZeroWeightNeverChosen(w: seq<real>, r: real, i: nat)
    requires 0 < i < |w| && w[i] == 0.0
    ensures SelectSlot(w, r) != Some(i)
  {
    assert Running(w, i) == Running(w, i - 1);
    assert !FirstReaching(w, r, i);
  }

  /** With weights [1, 0, 0, 0] only `top` is ever incremented. */
  lemma OnlyTopWeighted(n: Neighbours, u: real)
    requires 0.0 <= u < 1.0
    ensures Place(n, [1.0, 0.0, 0.0, 0.0], 1.0, u) == Placed(n.(top := n.top + 1))
  {
    var w := [1.0, 0.0, 0.0, 0.0];
    assert PrefixSum(w, 1) == 1.0;
    assert FirstReaching(w, Threshold(u, 1.0), 0);
  }

  /**
   * All weights zero: the threshold is 0, the first running sum already
   * reaches it, and `top` is chosen whatever the draw (no uniform fallback).
   */
  lemma AllZeroPicksTop(n: Neighbours, u: real)
    ensures Place(n, [0.0, 0.0, 0.0, 0.0], 0.0, u) == Placed(n.(top := n.top + 1))
  {
    var w := [0.0, 0.0, 0.0, 0.0];
    assert PrefixSum(w, 1) == 0.0;
    assert Threshold(u, 0.0) == 0.0;
    assert FirstReaching(w, Threshold(u, 0.0), 0);
  }

  /** A fifth weight that would be selected reaches the panic arm. */
  lemma FifthSlotPanics(n: Neighbours)
    ensures Place(n, [0.0, 0.0, 0.0, 0.0, 1.0], 1.0, 0.5) == InvalidIndex
  {
    var w := [0.0, 0.0, 0.0, 0.0, 1.0];
    assert PrefixSum(w, 4) == 0.0;
    assert FirstReaching(w, Threshold(0.5, 1.0), 4);
  }

  /** Repeated placements, one per draw in `us`, stopping at a panic. */
  function PlaceAll(n: Neighbours, w: seq<real>, total: real, us: seq<real>): Placement
    decreases |us|
  {
    if |us| == 0 then Placed(n)
    else match Place(n, w, total, us[0])
      case InvalidIndex => InvalidIndex
      case Placed(m) => PlaceAll(m, w, total, us[1..])
  }

  /**
   * Every fair draw places exactly one agent: after any number of calls
   * the counters have grown by exactly the number of calls.
   */
  lemma {:induction false} PlaceAllCounts(n: Neighbours, w: seq<real>, total: real, us: seq<real>)
    requires forall k :: 0 <= k < |us| ==> FairDraw(w, total, us[k])
    ensures PlaceAll(n, w, total, us).Placed?
    ensures Total(PlaceAll(n, w, total, us).counters) == Total(n) + |us|
    ensures PlaceAll(n, w, total, us).counters.size == n.size
    decreases |us|
  {
    if |us| > 0 {
      FairDrawPlaces(n, w, total, us[0]);
      var m := Place(n, w, total, us[0]).counters;
      PlaceAllCounts(m, w, total, us[1..]);
    }
  }

  /** The documented run: 120 000 calls with weights [1, 2, 3, 6] leave 120 000 agents placed. */
  lemma DocumentedRunCounts(us: seq<real>)
    requires |us| == 120000
    requires forall k :: 0 <= k < |us| ==> 0.0 <= us[k] < 1.0
    ensures var p := PlaceAll(New(0, 0, 0, 0), [1.0, 2.0, 3.0, 6.0], 12.0, us);
            p.Placed? && Total(p.counters) == 120000
  {
    var w := [1.0, 2.0, 3.0, 6.0];
    assert PrefixSum(w, 4) == 12.0;
    PlaceAllCounts(New(0, 0, 0, 0), w, 12.0, us);
  }
}
