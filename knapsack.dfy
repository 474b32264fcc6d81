/**
 * `knapsack_brute_force` without its printing: load the instance, search
 * all `2^n` subsets and decode the winning mask into the characteristic
 * vector that is reported with the winning weight and value.
 */
module Knapsack {
  import opened Wrappers
  import opened Bits
  import opened Evaluator
  import opened Search
  import opened Loader
  import opened Text

  /** What the program prints: the characteristic vector, the total weight and the total value. */
  datatype Report = Report(vector: seq<nat>, weight: int, value: int)

  /**
   * A run that produces no report: the load failed, or there are 64 items or
   * more, where `1 << n` overflows the `u64` shift (a panic).
   */
  datatype Failure = LoadFailed(error: LoadError) | ShiftOverflow

  /**
   * The search and the decoding of line 68 for a loaded instance: the vector
   * has one 0/1 entry per item and reads back as a mask whose evaluation is
   * the reported pair and whose value no mask in range exceeds.
   */
  function Solve(items: seq<Item>, capacity: int, rule: TieBreak): (r: Report)
    requires |items| < MaskWidth
    ensures |r.vector| == |items| && forall i :: 0 <= i < |items| ==> r.vector[i] <= 1
    ensures FromBits(r.vector) < Pow2(|items|)
    ensures (r.weight, r.value) == Evaluation(items, FromBits(r.vector), capacity)
    ensures forall m :: 0 <= m < Pow2(|items|) ==> Evaluation(items, m, capacity).1 <= r.value
    ensures r.value >= 0
    ensures capacity >= 0 ==> r.weight <= capacity
  {
    var best := BruteForce(items, capacity, rule);
    DecodeRoundTrip(best.mask, |items|);
    assert forall m :: 0 <= m < Pow2(|items|) ==> Score(items, capacity, m).value == Evaluation(items, m, capacity).1;
    Report(Decode(best.mask, |items|), best.weight, best.value)
  }

  /**
   * The whole run on the lines of the input file, with `max_by_key`'s
   * last-maximum rule.
   */
  function KnapsackBruteForce(lines: seq<string>): (r: Result<Report, Failure>)
    ensures ReadData(lines).Err? ==> r == Err(LoadFailed(ReadData(lines).error))
    ensures ReadData(lines).Ok? && |ReadData(lines).value.items| >= MaskWidth ==> r == Err(ShiftOverflow)
    ensures r.Ok? ==> ReadData(lines).Ok? && |r.value.vector| == |ReadData(lines).value.items| < MaskWidth
    ensures ReadData(lines).Ok? && |ReadData(lines).value.items| < MaskWidth ==> r.Ok?
    ensures r.Ok? ==> var inst := ReadData(lines).value;
              (r.value.weight, r.value.value) == Evaluation(inst.items, FromBits(r.value.vector), inst.capacity)
              && forall m :: 0 <= m < Pow2(|inst.items|) ==> Evaluation(inst.items, m, inst.capacity).1 <= r.value.value
    ensures r.Ok? ==> var inst := ReadData(lines).value;
              && (forall i :: 0 <= i < |r.value.vector| ==> r.value.vector[i] <= 1)
              && r.value.value >= 0
              && (inst.capacity >= 0 ==> r.value.weight <= inst.capacity)
  {
    match ReadData(lines)
    case Err(e) => Err(LoadFailed(e))
    case Ok(inst) =>
      if |inst.items| >= MaskWidth then Err(ShiftOverflow)
      else Ok(Solve(inst.items, inst.capacity, LastMaximum))
  }

  /** With no items the report is the empty vector, weight 0 and value 0. */
  lemma EmptyInstanceFloor(capacity: int, rule: TieBreak)
    ensures Solve([], capacity, rule) == Report([], 0, 0)
  {
    assert Pow2(0) == 1;
    EmptyMaskEvaluatesToZero([], capacity);
  }

  /**
   * The report of capacity 0 and the single item `(1, 5)`: under the
   * last-maximum rule the vector selects the item, which does not fit.
   */
  lemma LastMaximumReportsOverweightVector()
    ensures Solve([Item(1, 5)], 0, LastMaximum) == Report([1], 0, 0)
    ensures SelectedWeight([Item(1, 5)], FromBits([1])) > 0
  {
    LastMaximumReportsInfeasibleSubset();
    assert Decode(1, 1) == [1];
    assert FromBits([1]) == 1;
    assert Selected(1, 0);
  }

  /**
   * The same run end to end: the input text `0` / `1 5` prints the vector
   * `[1]` with weight 0 and value 0.
   */
  lemma KnapsackReportsOverweightVector()
    ensures KnapsackBruteForce(["0", "1 5"]) == Ok(Report([1], 0, 0))
  {
    var inst := Instance(0, [Item(1, 5)]);
    assert FormatI32(0) == "0" && FormatI32(1) == "1" && FormatI32(5) == "5";
    assert JoinSpaces(["1", "5"]) == "1" + [' '] + JoinSpaces(["5"]) == "1 5";
    assert FormatInstance(inst) == [FormatI32(0)] + [JoinSpaces([FormatI32(1), FormatI32(5)])];
    assert FormatInstance(inst) == ["0", "1 5"];
    ReadFormatRoundTrip(inst);
    LastMaximumReportsOverweightVector();
  }

  /**
   * Under the lowest-mask rule the report is truthful: the vector denotes a
   * feasible subset and the weight and value are that subset's totals.
   */
  lemma FirstMaximumReportIsTruthful(items: seq<Item>, capacity: int)
    requires |items| < MaskWidth
    ensures var r := Solve(items, capacity, FirstMaximum);
            !Infeasible(items, FromBits(r.vector), capacity)
            && r.weight == SelectedWeight(items, FromBits(r.vector))
            && r.value == SelectedValue(items, FromBits(r.vector))
  {
    var best := BruteForce(items, capacity, FirstMaximum);
    FirstMaximumReportsFeasibleSubset(items, capacity);
    DecodeRoundTrip(best.mask, |items|);
  }
}
