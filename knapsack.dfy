/**
 * A model of the two-row dynamic-programming solver for the 0/1 knapsack
 * problem: a forward pass that fills a capacity-indexed row item by item,
 * and a traceback that walks the items from last to first against the
 * final row and marks the ones it takes.
 *
 * Items are given as two parallel sequences `values` and `weights`; the
 * number of items is `|values|` and `weights` may be longer. A selection of
 * the first `i` items is a sequence of `i` entries, each 0 (left out) or 1
 * (taken), which is also the shape of the list the solver returns.
 */
module Knapsack {

  function Max(a: int, b: int): (m: int)
    ensures m >= a && m >= b && (m == a || m == b)
  {
    if a >= b then a else b
  }

  /** Every weight of the first `n` items is non-negative. */
  ghost predicate WeightsNonNegative(weights: seq<int>, n: nat)
    requires n <= |weights|
  {
    forall k :: 0 <= k < n ==> weights[k] >= 0
  }

  // ---------------------------------------------------------------------
  // Selections of items and their totals

  /** Every entry of `sel` is 0 or 1. */
  ghost predicate IsChoice(sel: seq<int>)
  {
    forall k :: 0 <= k < |sel| ==> sel[k] == 0 || sel[k] == 1
  }

  /** Total weight of the items marked 1 in `sel` (item k is `weights[k]`). */
  function SelWeight(weights: seq<int>, sel: seq<int>): (total: int)
    requires |sel| <= |weights|
  {
    if |sel| == 0 then 0
    else SelWeight(weights, sel[..|sel| - 1]) + (if sel[|sel| - 1] == 1 then weights[|sel| - 1] else 0)
  }

  /** Total value of the items marked 1 in `sel`. */
  function SelValue(values: seq<int>, sel: seq<int>): (total: int)
    requires |sel| <= |values|
  {
    if |sel| == 0 then 0
    else SelValue(values, sel[..|sel| - 1]) + (if sel[|sel| - 1] == 1 then values[|sel| - 1] else 0)
  }

  /** `v` is the best total value of a selection of all the items whose total weight fits in `capacity`. */
  ghost predicate IsOptimum(values: seq<int>, weights: seq<int>, capacity: nat, v: int)
    requires |values| <= |weights|
  {
    (forall sel :: |sel| == |values| && IsChoice(sel) && SelWeight(weights, sel) <= capacity
       ==> SelValue(values, sel) <= v) &&
    (exists sel :: |sel| == |values| && IsChoice(sel) && SelWeight(weights, sel) <= capacity
       && SelValue(values, sel) == v)
  }

  // ---------------------------------------------------------------------
  // The recurrence the forward pass computes

  /**
   * Best(i, w): the entry at capacity `w` of the row after the first `i`
   * items have been processed. Row 0 is all zeros; an item heavier than `w`
   * carries the previous entry forward, otherwise the entry is the larger of
   * leaving the item out and taking it on top of the entry at `w - weight`.
   */
  function Best(values: seq<int>, weights: seq<int>, i: nat, w: nat): (b: int)
    requires i <= |values| <= |weights|
    ensures b >= 0
    decreases i
  {
    if i == 0 then 0
    else if weights[i - 1] > w then Best(values, weights, i - 1, w)
    else Max(Best(values, weights, i - 1, w), Best(values, weights, i - 1, w - weights[i - 1]) + values[i - 1])
  }

  /**
   * The whole row after the first `i` items: entries for capacities
   * 0..capacity. No entry is negative and the row never decreases as the
   * capacity grows.
   */
  function Row(values: seq<int>, weights: seq<int>, i: nat, capacity: nat): (row: seq<int>)
    requires i <= |values| <= |weights|
    ensures |row| == capacity + 1
    ensures forall w :: 0 <= w <= capacity ==> row[w] >= 0
    ensures forall w1, w2 :: 0 <= w1 <= w2 <= capacity ==> row[w1] <= row[w2]
  {
    RowMonotone(values, weights, i, capacity);
    seq(capacity + 1, w requires 0 <= w => Best(values, weights, i, w))
  }

  /** Every capacity pair of row `i` is ordered like the capacities. */
  lemma RowMonotone(values: seq<int>, weights: seq<int>, i: nat, capacity: nat)
    requires i <= |values| <= |weights|
    ensures forall w1, w2 :: 0 <= w1 <= w2 <= capacity ==> Best(values, weights, i, w1) <= Best(values, weights, i, w2)
  {
    forall w1, w2 | 0 <= w1 <= w2 <= capacity
      ensures Best(values, weights, i, w1) <= Best(values, weights, i, w2)
    {
      BestMonotoneInCapacity(values, weights, i, w1, w2);
    }
  }

  /** A later row is pointwise at least an earlier one. */
  lemma RowsGrow(values: seq<int>, weights: seq<int>, i: nat, j: nat, capacity: nat)
    requires i <= j <= |values| <= |weights|
    ensures forall w :: 0 <= w <= capacity ==> Row(values, weights, i, capacity)[w] <= Row(values, weights, j, capacity)[w]
  {
    forall w | 0 <= w <= capacity
      ensures Row(values, weights, i, capacity)[w] <= Row(values, weights, j, capacity)[w]
    {
      BestGrowsWithItems(values, weights, i, j, w);
    }
  }

  /** Each row is non-decreasing in the capacity. */
  lemma {:induction false} BestMonotoneInCapacity(values: seq<int>, weights: seq<int>, i: nat, w1: nat, w2: nat)
    requires i <= |values| <= |weights|
    requires w1 <= w2
    ensures Best(values, weights, i, w1) <= Best(values, weights, i, w2)
    decreases i
  {
    if i > 0 {
      var wt := weights[i - 1];
      BestMonotoneInCapacity(values, weights, i - 1, w1, w2);
      if wt <= w1 {
        BestMonotoneInCapacity(values, weights, i - 1, w1 - wt, w2 - wt);
      }
    }
  }

  /** Processing more items never lowers an entry. */
  lemma {:induction false} BestGrowsWithItems(values: seq<int>, weights: seq<int>, i: nat, j: nat, w: nat)
    requires i <= j <= |values| <= |weights|
    ensures Best(values, weights, i, w) <= Best(values, weights, j, w)
    decreases j - i
  {
    if i < j {
      BestGrowsWithItems(values, weights, i, j - 1, w);
    }
  }

  /** A selection that marks nothing weighs nothing. */
  lemma {:induction false} SelWeightOfNothing(weights: seq<int>, sel: seq<int>)
    requires |sel| <= |weights|
    requires forall k :: 0 <= k < |sel| ==> sel[k] == 0
    ensures SelWeight(weights, sel) == 0
    decreases |sel|
  {
    if |sel| > 0 {
      SelWeightOfNothing(weights, sel[..|sel| - 1]);
    }
  }

  /** Marking one more item adds exactly its weight. */
  lemma {:induction false} SelWeightMark(weights: seq<int>, sel: seq<int>, k: nat)
    requires k < |sel| <= |weights|
    requires sel[k] == 0
    ensures SelWeight(weights, sel[k := 1]) == SelWeight(weights, sel) + weights[k]
    decreases |sel|
  {
    var n := |sel|;
    if k == n - 1 {
      assert sel[k := 1][..n - 1] == sel[..n - 1];
    } else {
      SelWeightMark(weights, sel[..n - 1], k);
      assert sel[k := 1][..n - 1] == sel[..n - 1][k := 1];
    }
  }

  lemma {:induction false} SelWeightNonNegative(weights: seq<int>, sel: seq<int>)
    requires |sel| <= |weights|
    requires WeightsNonNegative(weights, |sel|)
    ensures SelWeight(weights, sel) >= 0
    decreases |sel|
  {
    if |sel| > 0 {
      SelWeightNonNegative(weights, sel[..|sel| - 1]);
    }
  }

  /** No selection of the first |sel| items that fits in `w` is worth more than Best(|sel|, w). */
  lemma {:induction false} BestBoundsEveryChoice(values: seq<int>, weights: seq<int>, sel: seq<int>, w: nat)
    requires |sel| <= |values| <= |weights|
    requires WeightsNonNegative(weights, |sel|)
    requires IsChoice(sel)
    requires SelWeight(weights, sel) <= w
    ensures SelValue(values, sel) <= Best(values, weights, |sel|, w)
    decreases |sel|
  {
    if |sel| > 0 {
      var i := |sel|;
      var pre := sel[..i - 1];
      SelWeightNonNegative(weights, pre);
      if sel[i - 1] == 1 {
        BestBoundsEveryChoice(values, weights, pre, w - weights[i - 1]);
      } else {
        BestBoundsEveryChoice(values, weights, pre, w);
      }
    }
  }

  /**
   * A selection of the first `i` items that fits in `w` and is worth
   * exactly Best(i, w). Item i is taken when Best(i, w) is reached by taking
   * it on top of the row from BEFORE item i; this is the reconstruction the
   * solver's traceback is meant to perform.
   */
  function OptimalChoice(values: seq<int>, weights: seq<int>, i: nat, w: nat): (sel: seq<int>)
    requires i <= |values| <= |weights|
    ensures |sel| == i && IsChoice(sel)
    ensures SelWeight(weights, sel) <= w
    ensures SelValue(values, sel) == Best(values, weights, i, w)
    decreases i
  {
    if i == 0 then []
    else if weights[i - 1] <= w && Best(values, weights, i, w) == Best(values, weights, i - 1, w - weights[i - 1]) + values[i - 1] then
      var pre := OptimalChoice(values, weights, i - 1, w - weights[i - 1]);
      assert (pre + [1])[..i - 1] == pre;
      pre + [1]
    else
      var pre := OptimalChoice(values, weights, i - 1, w);
      assert (pre + [0])[..i - 1] == pre;
      pre + [0]
  }

  /** The last entry of the final row is the optimum over all selections that fit. */
  lemma BestIsOptimum(values: seq<int>, weights: seq<int>, capacity: nat)
    requires |values| <= |weights|
    requires WeightsNonNegative(weights, |values|)
    ensures IsOptimum(values, weights, capacity, Best(values, weights, |values|, capacity))
  {
    var n := |values|;
    forall sel | |sel| == n && IsChoice(sel) && SelWeight(weights, sel) <= capacity
      ensures SelValue(values, sel) <= Best(values, weights, n, capacity)
    {
      BestBoundsEveryChoice(values, weights, sel, capacity);
    }
    var best := OptimalChoice(values, weights, n, capacity);
  }

  /** An item of weight 0 fits at capacity 0, so the optimum there need not be 0. */
  lemma WeightlessItemFitsAtZero()
    ensures Best([7], [0], 1, 0) == 7
  {
  }

  // ---------------------------------------------------------------------
  // The traceback as written: every item is checked against the same row

  /**
   * The marks the traceback sets on the first `i` items when it reaches
   * item i with `r` capacity left, checking each item against `row`:
   * item i is marked exactly when it fits in `r` and
   * row[r] == row[r - weight] + value, and then its weight is used up.
   */
  function Marked(values: seq<int>, weights: seq<int>, row: seq<int>, i: nat, r: nat): (m: seq<int>)
    requires i <= |values| <= |weights|
    requires WeightsNonNegative(weights, i)
    requires r < |row|
    ensures |m| == i
    decreases i
  {
    if i == 0 then []
    else if r >= weights[i - 1] && row[r] == row[r - weights[i - 1]] + values[i - 1] then
      Marked(values, weights, row, i - 1, r - weights[i - 1]) + [1]
    else
      Marked(values, weights, row, i - 1, r) + [0]
  }

  /** The weight the traceback marks never exceeds the capacity it starts with. */
  lemma {:induction false} MarkedWeightFits(values: seq<int>, weights: seq<int>, row: seq<int>, i: nat, r: nat)
    requires i <= |values| <= |weights|
    requires WeightsNonNegative(weights, i)
    requires r < |row|
    ensures 0 <= SelWeight(weights, Marked(values, weights, row, i, r)) <= r
    decreases i
  {
    if i > 0 {
      var wt := weights[i - 1];
      if r >= wt && row[r] == row[r - wt] + values[i - 1] {
        var pre := Marked(values, weights, row, i - 1, r - wt);
        assert Marked(values, weights, row, i, r) == pre + [1];
        assert (pre + [1])[..i - 1] == pre;
        MarkedWeightFits(values, weights, row, i - 1, r - wt);
      } else {
        var pre := Marked(values, weights, row, i - 1, r);
        assert Marked(values, weights, row, i, r) == pre + [0];
        assert (pre + [0])[..i - 1] == pre;
        MarkedWeightFits(values, weights, row, i - 1, r);
      }
    }
  }

  /**
   * The traceback's bookkeeping: the marked values plus the row entry at
   * the capacity left add up to row[r]. Nothing forces that last entry to
   * be 0.
   */
  lemma {:induction false} TracebackTelescopes(values: seq<int>, weights: seq<int>, row: seq<int>, i: nat, r: nat)
    requires i <= |values| <= |weights|
    requires WeightsNonNegative(weights, i)
    requires r < |row|
    ensures 0 <= SelWeight(weights, Marked(values, weights, row, i, r)) <= r
    ensures SelValue(values, Marked(values, weights, row, i, r))
            + row[r - SelWeight(weights, Marked(values, weights, row, i, r))] == row[r]
    decreases i
  {
    MarkedWeightFits(values, weights, row, i, r);
    if i > 0 {
      var wt := weights[i - 1];
      if r >= wt && row[r] == row[r - wt] + values[i - 1] {
        var pre := Marked(values, weights, row, i - 1, r - wt);
        assert Marked(values, weights, row, i, r) == pre + [1];
        assert (pre + [1])[..i - 1] == pre;
        TracebackTelescopes(values, weights, row, i - 1, r - wt);
      } else {
        var pre := Marked(values, weights, row, i - 1, r);
        assert Marked(values, weights, row, i, r) == pre + [0];
        assert (pre + [0])[..i - 1] == pre;
        TracebackTelescopes(values, weights, row, i - 1, r);
      }
    }
  }

  /** The traceback only ever writes 0 or 1. */
  lemma {:induction false} MarkedIsChoice(values: seq<int>, weights: seq<int>, row: seq<int>, i: nat, r: nat)
    requires i <= |values| <= |weights|
    requires WeightsNonNegative(weights, i)
    requires r < |row|
    ensures IsChoice(Marked(values, weights, row, i, r))
    decreases i
  {
    if i > 0 {
      var wt := weights[i - 1];
      var left := if r >= wt && row[r] == row[r - wt] + values[i - 1] then r - wt else r;
      MarkedIsChoice(values, weights, row, i - 1, left);
    }
  }

  /**
   * What holds between two visits of the traceback: items i.. have been
   * visited, items ..i are still 0, the capacity left is the capacity minus
   * the weight marked so far, and finishing the walk from here yields the
   * traceback of the whole list.
   */
  ghost predicate TracebackState(values: seq<int>, weights: seq<int>, row: seq<int>, capacity: nat,
                                 i: nat, r: int, items: seq<int>)
  {
    i <= |values| <= |weights| && WeightsNonNegative(weights, |values|) &&
    capacity < |row| && 0 <= r <= capacity &&
    |items| == |values| &&
    (forall k :: 0 <= k < i ==> items[k] == 0) &&
    r == capacity - SelWeight(weights, items) &&
    Marked(values, weights, row, |values|, capacity) == Marked(values, weights, row, i, r) + items[i..]
  }

  /** Before the first visit: nothing is marked and the whole capacity is left. */
  lemma TracebackStart(values: seq<int>, weights: seq<int>, row: seq<int>, capacity: nat, items: seq<int>)
    requires |values| <= |weights| && WeightsNonNegative(weights, |values|)
    requires capacity < |row|
    requires items == seq(|values|, _ => 0)
    ensures TracebackState(values, weights, row, capacity, |values|, capacity, items)
  {
    SelWeightOfNothing(weights, items);
    assert items[|values|..] == [];
  }

  /** After the last visit the list is the whole traceback, with its bookkeeping. */
  lemma TracebackDone(values: seq<int>, weights: seq<int>, row: seq<int>, capacity: nat, r: int, items: seq<int>)
    requires TracebackState(values, weights, row, capacity, 0, r, items)
    ensures items == Marked(values, weights, row, |values|, capacity)
    ensures |items| == |values| && IsChoice(items)
    ensures 0 <= SelWeight(weights, items) <= capacity
    ensures r == capacity - SelWeight(weights, items)
    ensures SelValue(values, items) + row[r] == row[capacity]
  {
    var m := Marked(values, weights, row, |values|, capacity);
    assert Marked(values, weights, row, 0, r) == [];
    assert items[0..] == items;
    assert items == m;
    TracebackTelescopes(values, weights, row, |values|, capacity);
    MarkedIsChoice(values, weights, row, |values|, capacity);
  }

  /** Visiting item i - 1 keeps TracebackState, whether or not it is marked. */
  lemma TracebackStep(values: seq<int>, weights: seq<int>, row: seq<int>, capacity: nat,
                      i: nat, r: int, items: seq<int>)
    requires 0 < i
    requires TracebackState(values, weights, row, capacity, i, r, items)
    ensures var wt := weights[i - 1];
            if r >= wt && row[r] == row[r - wt] + values[i - 1]
            then TracebackState(values, weights, row, capacity, i - 1, r - wt, items[i - 1 := 1])
            else TracebackState(values, weights, row, capacity, i - 1, r, items)
  {
    var wt := weights[i - 1];
    if r >= wt && row[r] == row[r - wt] + values[i - 1] {
      TracebackTake(values, weights, row, capacity, i, r, items);
    } else {
      TracebackSkip(values, weights, row, capacity, i, r, items);
    }
  }

  lemma TracebackTake(values: seq<int>, weights: seq<int>, row: seq<int>, capacity: nat,
                      i: nat, r: int, items: seq<int>)
    requires 0 < i
    requires TracebackState(values, weights, row, capacity, i, r, items)
    requires r >= weights[i - 1] && row[r] == row[r - weights[i - 1]] + values[i - 1]
    ensures TracebackState(values, weights, row, capacity, i - 1, r - weights[i - 1], items[i - 1 := 1])
  {
    var wt := weights[i - 1];
    var marked := items[i - 1 := 1];
    SelWeightMark(weights, items, i - 1);
    assert Marked(values, weights, row, i, r) == Marked(values, weights, row, i - 1, r - wt) + [1];
    assert marked[i - 1..] == [1] + items[i..];
  }

  lemma TracebackSkip(values: seq<int>, weights: seq<int>, row: seq<int>, capacity: nat,
                      i: nat, r: int, items: seq<int>)
    requires 0 < i
    requires TracebackState(values, weights, row, capacity, i, r, items)
    requires !(r >= weights[i - 1] && row[r] == row[r - weights[i - 1]] + values[i - 1])
    ensures TracebackState(values, weights, row, capacity, i - 1, r, items)
  {
  }

  /**
   * With one item of value 5 and weight 1 and capacity 2 the final row is
   * [0, 5, 5]; 5 != 5 + 5, so the traceback marks nothing although the
   * optimum is 5, while the reconstruction against the earlier row finds it.
   */
  lemma TracebackMissesOptimum()
    ensures Best([5], [1], 1, 2) == 5
    ensures Row([5], [1], 1, 2) == [0, 5, 5]
    ensures Marked([5], [1], Row([5], [1], 1, 2), 1, 2) == [0]
    ensures SelValue([5], [0]) == 0
    ensures OptimalChoice([5], [1], 1, 2) == [1]
  {
  }

  // ---------------------------------------------------------------------
  // The solver

  /**
   * The forward pass: two rows of capacity + 1 entries, zero-initialised;
   * for each item the current row is filled from the previous one at every
   * capacity from the top down, then copied back into the previous row.
   * Every index read is within 0..capacity.
   */
  method ForwardPass(values: seq<int>, weights: seq<int>, capacity: int) returns (prevDp: array<int>)
    requires |values| <= |weights|
    requires capacity >= 0
    requires WeightsNonNegative(weights, |values|)
    ensures fresh(prevDp)
    ensures prevDp[..] == Row(values, weights, |values|, capacity)
  {
    var n := |values|;
    prevDp := new int[capacity + 1](_ => 0);
    var currDp := new int[capacity + 1](_ => 0);
    for i := 1 to n + 1
      invariant forall w :: 0 <= w <= capacity ==> prevDp[w] == Best(values, weights, i - 1, w)
    {
      var w := capacity;
      while w >= 0
        invariant -1 <= w <= capacity
        invariant forall v :: w < v <= capacity ==> currDp[v] == Best(values, weights, i, v)
        modifies currDp
      {
        if weights[i - 1] <= w {
          currDp[w] := Max(prevDp[w], prevDp[w - weights[i - 1]] + values[i - 1]);
        } else {
          currDp[w] := prevDp[w];
        }
        w := w - 1;
      }
      // copy the whole current row back into the previous one
      forall k | 0 <= k <= capacity {
        prevDp[k] := currDp[k];
      }
    }
    assert prevDp[..] == Row(values, weights, n, capacity);
  }

  /**
   * The traceback: starting with the whole capacity left, visit the items
   * from last to first; mark an item (entry 1 in a list of n zeros) when it
   * fits in the capacity left and row[left] == row[left - weight] + value,
   * and then subtract its weight.
   */
  method Traceback(values: seq<int>, weights: seq<int>, row: array<int>, capacity: int) returns (itemsIncluded: seq<int>)
    requires |values| <= |weights|
    requires capacity >= 0 && row.Length == capacity + 1
    requires WeightsNonNegative(weights, |values|)
    ensures itemsIncluded == Marked(values, weights, row[..], |values|, capacity)
    ensures |itemsIncluded| == |values| && IsChoice(itemsIncluded)
    ensures 0 <= SelWeight(weights, itemsIncluded) <= capacity
    ensures SelValue(values, itemsIncluded) + row[capacity - SelWeight(weights, itemsIncluded)] == row[capacity]
  {
    var n := |values|;
    ghost var final := row[..];
    var remainingCapacity := capacity;
    itemsIncluded := seq(n, _ => 0);
    TracebackStart(values, weights, final, capacity, itemsIncluded);
    var i := n;
    while i > 0
      invariant TracebackState(values, weights, final, capacity, i, remainingCapacity, itemsIncluded)
    {
      ghost var before, r := itemsIncluded, remainingCapacity;
      if remainingCapacity >= weights[i - 1] && row[remainingCapacity] == row[remainingCapacity - weights[i - 1]] + values[i - 1] {
        itemsIncluded := itemsIncluded[i - 1 := 1];
        remainingCapacity := remainingCapacity - weights[i - 1];
      }
      TracebackStep(values, weights, final, capacity, i, r, before);
      i := i - 1;
    }
    TracebackDone(values, weights, final, capacity, remainingCapacity, itemsIncluded);
  }

  /**
   * The solver: the forward pass, the maximum value read from the last
   * entry of the final row, and the traceback against that same row.
   */
  method Knapsack(values: seq<int>, weights: seq<int>, capacity: int) returns (maxValue: int, itemsIncluded: seq<int>)
    requires |values| <= |weights|
    requires capacity >= 0
    requires WeightsNonNegative(weights, |values|)
    ensures maxValue == Best(values, weights, |values|, capacity)
    ensures IsOptimum(values, weights, capacity, maxValue)
    ensures itemsIncluded == Marked(values, weights, Row(values, weights, |values|, capacity), |values|, capacity)
    ensures |itemsIncluded| == |values| && IsChoice(itemsIncluded)
    ensures 0 <= SelWeight(weights, itemsIncluded) <= capacity
    ensures SelValue(values, itemsIncluded)
            + Best(values, weights, |values|, capacity - SelWeight(weights, itemsIncluded)) == maxValue
    ensures |values| == 0 ==> maxValue == 0 && itemsIncluded == []
  {
    var prevDp := ForwardPass(values, weights, capacity);
    ghost var row := Row(values, weights, |values|, capacity);
    maxValue := prevDp[capacity];
    assert maxValue == row[capacity] == Best(values, weights, |values|, capacity);
    itemsIncluded := Traceback(values, weights, prevDp, capacity);
    ghost var left := capacity - SelWeight(weights, itemsIncluded);
    assert prevDp[left] == row[left] == Best(values, weights, |values|, left);
    BestIsOptimum(values, weights, capacity);
  }
}
