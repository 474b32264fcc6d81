/**
 * The exhaustive search of `knapsack_brute_force`: every mask in
 * `0 .. 2^n` is evaluated into a triple `(mask, weight, value)` and the
 * triples are reduced with `max_by_key` on the value.
 */
module Search {
  import opened Bits
  import opened Evaluator

  /** The triple `(bitset, total_weight, total_value)` of one evaluated mask. */
  datatype Candidate = Candidate(mask: nat, weight: int, value: int)

  function Score(items: seq<Item>, capacity: int, mask: nat): Candidate
  {
    var (w, v) := Evaluation(items, mask, capacity);
    Candidate(mask, w, v)
  }

  /**
   * Which of several candidates of equal value `max_by_key` keeps:
   * `LastMaximum` is the rule of `max_by_key` in Rust's standard library and
   * in rayon, `FirstMaximum` keeps the earliest, that is the lowest mask.
   */
  datatype TieBreak = LastMaximum | FirstMaximum

  /** One merge step of the reduction: the candidate of greater value, ties settled by `rule`. */
  function Prefer(rule: TieBreak, acc: Candidate, next: Candidate): (r: Candidate)
    ensures r == acc || r == next
    ensures r.value >= acc.value && r.value >= next.value
    ensures rule == LastMaximum && acc.value == next.value ==> r == next
    ensures rule == FirstMaximum && acc.value == next.value ==> r == acc
  {
    match rule
    case LastMaximum => if acc.value > next.value then acc else next
    case FirstMaximum => if next.value > acc.value then next else acc
  }

  /** The merge is associative, so any grouping of the masks into chunks merges to the same triple. */
  lemma PreferAssociative(rule: TieBreak, a: Candidate, b: Candidate, c: Candidate)
    ensures Prefer(rule, Prefer(rule, a, b), c) == Prefer(rule, a, Prefer(rule, b, c))
  {
  }

  /** The reduction, as a left fold, of the candidates of masks `lo .. hi`. */
  function BestIn(items: seq<Item>, capacity: int, rule: TieBreak, lo: nat, hi: nat): Candidate
    requires lo < hi
    decreases hi
  {
    if hi == lo + 1 then Score(items, capacity, lo)
    else Prefer(rule, BestIn(items, capacity, rule, lo, hi - 1), Score(items, capacity, hi - 1))
  }

  /**
   * The reduced triple is the evaluation of one mask of the range, no mask
   * of the range has a greater value, and among the masks of greatest value
   * it is the last one or, under the other rule, the first one.
   */
  lemma {:induction false} BestInIsMaximum(items: seq<Item>, capacity: int, rule: TieBreak, lo: nat, hi: nat)
    requires lo < hi
    ensures var r := BestIn(items, capacity, rule, lo, hi);
            && lo <= r.mask < hi
            && r == Score(items, capacity, r.mask)
            && (forall m :: lo <= m < hi ==> Score(items, capacity, m).value <= r.value)
            && (rule == LastMaximum ==> forall m :: r.mask < m < hi ==> Score(items, capacity, m).value < r.value)
            && (rule == FirstMaximum ==> forall m :: lo <= m < r.mask ==> Score(items, capacity, m).value < r.value)
  {
    if hi > lo + 1 {
      BestInIsMaximum(items, capacity, rule, lo, hi - 1);
    }
  }

  /**
   * Splitting the range into two parts, reducing each and merging the two
   * results gives the sequential result: the partitioning a parallel
   * reduction chooses does not change the reported triple.
   */
  lemma {:induction false} BestInSplit(items: seq<Item>, capacity: int, rule: TieBreak, lo: nat, mid: nat, hi: nat)
    requires lo < mid < hi
    ensures BestIn(items, capacity, rule, lo, hi)
            == Prefer(rule, BestIn(items, capacity, rule, lo, mid), BestIn(items, capacity, rule, mid, hi))
  {
    if hi > mid + 1 {
      BestInSplit(items, capacity, rule, lo, mid, hi - 1);
      PreferAssociative(rule, BestIn(items, capacity, rule, lo, mid),
                        BestIn(items, capacity, rule, mid, hi - 1), Score(items, capacity, hi - 1));
    }
  }

  /**
   * `(0..total_combinations).map(..).max_by_key(..).unwrap()` with
   * `total_combinations = 1 << n`: the range is never empty, so the unwrap
   * cannot fail, and every mask in it fits the `u64` mask.
   */
  function BruteForce(items: seq<Item>, capacity: int, rule: TieBreak): (r: Candidate)
    requires |items| < MaskWidth
    ensures r.mask < Pow2(|items|) && r.mask < Pow2(MaskWidth)
    ensures r == Score(items, capacity, r.mask)
    ensures forall m :: 0 <= m < Pow2(|items|) ==> Score(items, capacity, m).value <= r.value
    ensures r.value >= 0
    ensures capacity >= 0 ==> r.weight <= capacity
    ensures r.value > 0 ==> !Infeasible(items, r.mask, capacity)
  {
    var r := BestIn(items, capacity, rule, 0, Pow2(|items|));
    BestInIsMaximum(items, capacity, rule, 0, Pow2(|items|));
    Pow2Monotone(|items|, MaskWidth);
    EmptyMaskEvaluatesToZero(items, capacity);
    assert Score(items, capacity, 0).value == 0;
    if capacity >= 0 then
      WeightWithinNonNegativeCapacity(items, r.mask, capacity);
      r
    else
      r
  }

  /** No subset the evaluator finds feasible has a greater value than the reported one. */
  lemma NoFeasibleSubsetIsBetter(items: seq<Item>, capacity: int, rule: TieBreak)
    requires |items| < MaskWidth
    ensures var r := BruteForce(items, capacity, rule);
            forall m :: 0 <= m < Pow2(|items|) && !Infeasible(items, m, capacity) ==>
              SelectedValue(items, m) <= r.value
  {
    var r := BruteForce(items, capacity, rule);
    forall m | 0 <= m < Pow2(|items|) && !Infeasible(items, m, capacity)
      ensures SelectedValue(items, m) <= r.value
    {
      assert Score(items, capacity, m).value == SelectedValue(items, m);
    }
  }

  /**
   * For non-negative weights and capacity the search solves the 0/1 knapsack
   * problem: no subset within capacity has a greater value, and a positive
   * reported value is that of the reported subset, which is within capacity.
   */
  lemma BruteForceIsOptimal(items: seq<Item>, capacity: int, rule: TieBreak)
    requires |items| < MaskWidth
    requires NonNegativeWeights(items) && capacity >= 0
    ensures var r := BruteForce(items, capacity, rule);
            forall m :: 0 <= m < Pow2(|items|) && SelectedWeight(items, m) <= capacity ==>
              SelectedValue(items, m) <= r.value
    ensures var r := BruteForce(items, capacity, rule);
            r.value > 0 ==> SelectedWeight(items, r.mask) <= capacity && SelectedValue(items, r.mask) == r.value
  {
    var r := BruteForce(items, capacity, rule);
    forall m | 0 <= m < Pow2(|items|) && SelectedWeight(items, m) <= capacity
      ensures SelectedValue(items, m) <= r.value
    {
      InfeasibleIffOverweight(items, m, capacity);
      assert Score(items, capacity, m).value == SelectedValue(items, m);
    }
    if r.value > 0 {
      InfeasibleIffOverweight(items, r.mask, capacity);
    }
  }

  /**
   * Under the lowest-mask rule the reported triple is never a sentinel: its
   * mask is a feasible subset and its weight and value are that subset's.
   */
  lemma FirstMaximumReportsFeasibleSubset(items: seq<Item>, capacity: int)
    requires |items| < MaskWidth
    ensures var r := BruteForce(items, capacity, FirstMaximum);
            !Infeasible(items, r.mask, capacity)
            && r.weight == SelectedWeight(items, r.mask) && r.value == SelectedValue(items, r.mask)
  {
    var r := BruteForce(items, capacity, FirstMaximum);
    BestInIsMaximum(items, capacity, FirstMaximum, 0, Pow2(|items|));
    EmptyMaskEvaluatesToZero(items, capacity);
    if r.mask != 0 {
      assert Score(items, capacity, 0).value < r.value;
      PositiveValueIsFeasible(items, r.mask, capacity);
    }
  }

  /**
   * Under the last-maximum rule the reported mask can be a subset that does
   * not fit: with capacity 0 and the single item `(1, 5)`, mask 1 evaluates
   * to the sentinel, ties with the empty subset and, coming last, wins.
   */
  lemma LastMaximumReportsInfeasibleSubset()
    ensures var r := BruteForce([Item(1, 5)], 0, LastMaximum);
            r == Candidate(1, 0, 0) && Infeasible([Item(1, 5)], 1, 0)
  {
    var items := [Item(1, 5)];
    assert Pow2(1) == 2;
    assert Selected(1, 0) && WeightPrefix(items, 1, 1) == 1;
    assert Infeasible(items, 1, 0);
    EmptyMaskEvaluatesToZero(items, 0);
  }
}
