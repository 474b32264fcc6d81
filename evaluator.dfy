/**
 * The subset evaluator `evaluate_vector`: the weight and value of the items a
 * mask selects, or the sentinel `(0, 0)` once the running weight exceeds the
 * capacity.
 */
module Evaluator {
  import opened Bits

  /** One item of the instance, as the pair `(weight, value)`. */
  datatype Item = Item(weight: int, value: int)

  /** Item `i` belongs to the subset `mask`. */
  predicate Selected(mask: nat, i: nat)
  {
    BitOf(mask, i) == 1
  }

  /** Sum of the weights of the selected items among the first `k`. */
  function WeightPrefix(items: seq<Item>, mask: nat, k: nat): int
    requires k <= |items|
  {
    if k == 0 then 0
    else WeightPrefix(items, mask, k - 1) + (if Selected(mask, k - 1) then items[k - 1].weight else 0)
  }

  /** Sum of the values of the selected items among the first `k`. */
  function ValuePrefix(items: seq<Item>, mask: nat, k: nat): int
    requires k <= |items|
  {
    if k == 0 then 0
    else ValuePrefix(items, mask, k - 1) + (if Selected(mask, k - 1) then items[k - 1].value else 0)
  }

  function SelectedWeight(items: seq<Item>, mask: nat): int
  {
    WeightPrefix(items, mask, |items|)
  }

  function SelectedValue(items: seq<Item>, mask: nat): int
  {
    ValuePrefix(items, mask, |items|)
  }

  /**
   * Among the first `k` items, some selected item `j` brings the running
   * weight, the sum of the selected weights up to and including `j`, above
   * `capacity`.
   */
  predicate ExceedsWithin(items: seq<Item>, mask: nat, capacity: int, k: nat)
    requires k <= |items|
  {
    exists j :: 0 <= j < k && Selected(mask, j) && WeightPrefix(items, mask, j + 1) > capacity
  }

  /** Some prefix, in index order, of the selected weights sums above `capacity`. */
  predicate Infeasible(items: seq<Item>, mask: nat, capacity: int)
  {
    ExceedsWithin(items, mask, capacity, |items|)
  }

  /** Some item is selected. */
  predicate AnySelected(items: seq<Item>, mask: nat)
  {
    exists i :: 0 <= i < |items| && Selected(mask, i)
  }

  /** The pair `evaluate_vector` returns: the sentinel for an infeasible subset, its totals otherwise. */
  function Evaluation(items: seq<Item>, mask: nat, capacity: int): (int, int)
  {
    if Infeasible(items, mask, capacity) then (0, 0)
    else (SelectedWeight(items, mask), SelectedValue(items, mask))
  }

  /**
   * `evaluate_vector`: walks the items in index order, adding the weight of
   * each selected item and returning `(0, 0)` the first time the running
   * weight exceeds the capacity; values are added only after that check.
   */
  method EvaluateVector(bitset: nat, items: seq<Item>, capacity: int) returns (totalWeight: int, totalValue: int)
    requires bitset < Pow2(MaskWidth)
    requires |items| <= MaskWidth
    ensures Infeasible(items, bitset, capacity) ==> totalWeight == 0 && totalValue == 0
    ensures !Infeasible(items, bitset, capacity) ==>
              totalWeight == SelectedWeight(items, bitset) && totalValue == SelectedValue(items, bitset)
  {
    totalWeight, totalValue := 0, 0;
    for i := 0 to |items|
      invariant totalWeight == WeightPrefix(items, bitset, i)
      invariant totalValue == ValuePrefix(items, bitset, i)
      invariant !ExceedsWithin(items, bitset, capacity, i)
    {
      var Item(weight, value) := items[i];
      if BitOf(bitset, i) != 0 {
        totalWeight := totalWeight + weight;
        if totalWeight > capacity {
          assert Selected(bitset, i) && WeightPrefix(items, bitset, i + 1) > capacity;
          return 0, 0;
        }
        totalValue := totalValue + value;
      }
    }
  }

  /** With nothing selected among the first `k` items, their sums are 0 and no prefix exceeds. */
  lemma {:induction false} NothingSelectedPrefix(items: seq<Item>, mask: nat, capacity: int, k: nat)
    requires k <= |items|
    requires forall i :: 0 <= i < k ==> !Selected(mask, i)
    ensures WeightPrefix(items, mask, k) == 0 && ValuePrefix(items, mask, k) == 0
    ensures !ExceedsWithin(items, mask, capacity, k)
  {
    if k > 0 {
      NothingSelectedPrefix(items, mask, capacity, k - 1);
    }
  }

  /** The empty subset, mask 0, is never infeasible and always evaluates to `(0, 0)`. */
  lemma EmptyMaskEvaluatesToZero(items: seq<Item>, capacity: int)
    ensures !Infeasible(items, 0, capacity) && SelectedWeight(items, 0) == 0 && SelectedValue(items, 0) == 0
    ensures Evaluation(items, 0, capacity) == (0, 0)
  {
    forall i | 0 <= i < |items|
      ensures !Selected(0, i)
    {
      BitOfZero(i);
    }
    NothingSelectedPrefix(items, 0, capacity, |items|);
  }

  /**
   * If no prefix of the first `k` items exceeds, their selected weight is
   * within capacity, or nothing among them is selected and both sums are 0.
   */
  lemma {:induction false} FeasiblePrefixBound(items: seq<Item>, mask: nat, capacity: int, k: nat)
    requires k <= |items|
    requires !ExceedsWithin(items, mask, capacity, k)
    ensures WeightPrefix(items, mask, k) <= capacity
            || (WeightPrefix(items, mask, k) == 0 && ValuePrefix(items, mask, k) == 0)
  {
    if k > 0 {
      FeasiblePrefixBound(items, mask, capacity, k - 1);
      if Selected(mask, k - 1) {
        assert WeightPrefix(items, mask, k) <= capacity;
      }
    }
  }

  /** A result other than `(0, 0)` has weight within capacity. */
  lemma NonSentinelWithinCapacity(items: seq<Item>, mask: nat, capacity: int)
    requires Evaluation(items, mask, capacity) != (0, 0)
    ensures Evaluation(items, mask, capacity).0 <= capacity
  {
    FeasiblePrefixBound(items, mask, capacity, |items|);
  }

  /** With a non-negative capacity every result, sentinel or not, has weight within capacity. */
  lemma WeightWithinNonNegativeCapacity(items: seq<Item>, mask: nat, capacity: int)
    requires capacity >= 0
    ensures Evaluation(items, mask, capacity).0 <= capacity
  {
    if !Infeasible(items, mask, capacity) {
      FeasiblePrefixBound(items, mask, capacity, |items|);
    }
  }

  /** An infeasible subset has value 0, so a positive value means a feasible subset. */
  lemma PositiveValueIsFeasible(items: seq<Item>, mask: nat, capacity: int)
    requires Evaluation(items, mask, capacity).1 > 0
    ensures !Infeasible(items, mask, capacity)
    ensures Evaluation(items, mask, capacity) == (SelectedWeight(items, mask), SelectedValue(items, mask))
  {
  }

  predicate NonNegativeWeights(items: seq<Item>)
  {
    forall i :: 0 <= i < |items| ==> items[i].weight >= 0
  }

  /** With non-negative weights, a prefix exceeds exactly when the selection's running total does. */
  lemma {:induction false} NonNegativePrefixExceeds(items: seq<Item>, mask: nat, capacity: int, k: nat)
    requires k <= |items|
    requires NonNegativeWeights(items)
    ensures ExceedsWithin(items, mask, capacity, k) <==>
              (exists i :: 0 <= i < k && Selected(mask, i)) && WeightPrefix(items, mask, k) > capacity
  {
    if k > 0 {
      NonNegativePrefixExceeds(items, mask, capacity, k - 1);
      if !Selected(mask, k - 1) {
        assert ExceedsWithin(items, mask, capacity, k) <==> ExceedsWithin(items, mask, capacity, k - 1);
      } else {
        assert Selected(mask, k - 1);
        if ExceedsWithin(items, mask, capacity, k - 1) {
          assert ExceedsWithin(items, mask, capacity, k);
        }
      }
    }
  }

  /**
   * With non-negative weights the early exit tests the total: a subset is
   * infeasible exactly when it selects something and its total weight exceeds
   * the capacity; for a non-negative capacity, exactly when the total does.
   */
  lemma InfeasibleIffOverweight(items: seq<Item>, mask: nat, capacity: int)
    requires NonNegativeWeights(items)
    ensures Infeasible(items, mask, capacity) <==>
              AnySelected(items, mask) && SelectedWeight(items, mask) > capacity
    ensures capacity >= 0 ==> (Infeasible(items, mask, capacity) <==> SelectedWeight(items, mask) > capacity)
  {
    NonNegativePrefixExceeds(items, mask, capacity, |items|);
    if !AnySelected(items, mask) {
      NothingSelectedPrefix(items, mask, capacity, |items|);
    }
  }

  /** Two instances and masks that select the same positions with the same items agree on the first `k` sums. */
  lemma {:induction false} AgreeingSelectionsPrefix(items1: seq<Item>, mask1: nat, items2: seq<Item>, mask2: nat, k: nat)
    requires k <= |items1| == |items2|
    requires forall i :: 0 <= i < |items1| ==> Selected(mask1, i) == Selected(mask2, i)
    requires forall i :: 0 <= i < |items1| && Selected(mask1, i) ==> items1[i] == items2[i]
    ensures WeightPrefix(items1, mask1, k) == WeightPrefix(items2, mask2, k)
    ensures ValuePrefix(items1, mask1, k) == ValuePrefix(items2, mask2, k)
  {
    if k > 0 {
      AgreeingSelectionsPrefix(items1, mask1, items2, mask2, k - 1);
    }
  }

  /** Only the selected items and the selected positions matter to the result. */
  lemma OnlySelectedItemsContribute(items1: seq<Item>, mask1: nat, items2: seq<Item>, mask2: nat, capacity: int)
    requires |items1| == |items2|
    requires forall i :: 0 <= i < |items1| ==> Selected(mask1, i) == Selected(mask2, i)
    requires forall i :: 0 <= i < |items1| && Selected(mask1, i) ==> items1[i] == items2[i]
    ensures Evaluation(items1, mask1, capacity) == Evaluation(items2, mask2, capacity)
  {
    forall k | 0 <= k <= |items1|
      ensures WeightPrefix(items1, mask1, k) == WeightPrefix(items2, mask2, k)
      ensures ValuePrefix(items1, mask1, k) == ValuePrefix(items2, mask2, k)
    {
      AgreeingSelectionsPrefix(items1, mask1, items2, mask2, k);
    }
  }

  /** Mask bits at positions `|items|` and above never influence the result. */
  lemma HighBitsIgnored(items: seq<Item>, mask: nat, k: nat, capacity: int)
    ensures Evaluation(items, mask + k * Pow2(|items|), capacity) == Evaluation(items, mask, capacity)
  {
    var n := |items|;
    DecodeIgnoresHighBits(mask, k, n);
    forall i | 0 <= i < n
      ensures Selected(mask + k * Pow2(n), i) == Selected(mask, i)
    {
      assert Decode(mask + k * Pow2(n), n)[i] == Decode(mask, n)[i];
    }
    OnlySelectedItemsContribute(items, mask + k * Pow2(n), items, mask, capacity);
  }

  function AbsWeightSum(items: seq<Item>): nat
  {
    if items == [] then 0
    else AbsWeightSum(items[..|items| - 1])
         + (if items[|items| - 1].weight < 0 then -items[|items| - 1].weight else items[|items| - 1].weight)
  }

  function AbsValueSum(items: seq<Item>): nat
  {
    if items == [] then 0
    else AbsValueSum(items[..|items| - 1])
         + (if items[|items| - 1].value < 0 then -items[|items| - 1].value else items[|items| - 1].value)
  }

  /**
   * The bound under which the source's `i32` running totals cannot overflow:
   * the weights, and the values, have absolute values summing to at most
   * `i32::MAX`.
   */
  predicate TotalsFitI32(items: seq<Item>)
  {
    AbsWeightSum(items) <= I32Max && AbsValueSum(items) <= I32Max
  }

  lemma {:induction false} PrefixWithinAbsSums(items: seq<Item>, mask: nat, k: nat)
    requires k <= |items|
    ensures -(AbsWeightSum(items[..k]) as int) <= WeightPrefix(items, mask, k) <= AbsWeightSum(items[..k])
    ensures -(AbsValueSum(items[..k]) as int) <= ValuePrefix(items, mask, k) <= AbsValueSum(items[..k])
  {
    if k > 0 {
      PrefixWithinAbsSums(items, mask, k - 1);
      assert items[..k][..k - 1] == items[..k - 1];
    }
  }

  lemma {:induction false} AbsSumsMonotone(items: seq<Item>, k: nat)
    requires k <= |items|
    ensures AbsWeightSum(items[..k]) <= AbsWeightSum(items)
    ensures AbsValueSum(items[..k]) <= AbsValueSum(items)
  {
    if k < |items| {
      AbsSumsMonotone(items[..|items| - 1], k);
      assert items[..|items| - 1][..k] == items[..k];
    } else {
      assert items[..k] == items;
    }
  }

  /** Under that bound every running total the evaluator forms stays within `i32`. */
  lemma PrefixSumsFitI32(items: seq<Item>, mask: nat)
    requires TotalsFitI32(items)
    ensures forall k :: 0 <= k <= |items| ==> I32Min <= WeightPrefix(items, mask, k) <= I32Max
    ensures forall k :: 0 <= k <= |items| ==> I32Min <= ValuePrefix(items, mask, k) <= I32Max
  {
    forall k | 0 <= k <= |items|
      ensures I32Min <= WeightPrefix(items, mask, k) <= I32Max
      ensures I32Min <= ValuePrefix(items, mask, k) <= I32Max
    {
      PrefixWithinAbsSums(items, mask, k);
      AbsSumsMonotone(items, k);
    }
  }
}
