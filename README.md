# Brute-force 0/1 knapsack, modelled in Dafny

This is a model of a brute-force 0/1 knapsack solver written in Rust
(`src/main.rs`). The solver reads a capacity and a list of `(weight, value)`
items. It represents each subset of the items as a `u64` bitmask and
evaluates all `2^n` masks. It keeps the triple `(mask, weight, value)` with
the greatest value and decodes the winning mask into a 0/1 characteristic
vector, which it prints with the weight and the value.

The model has one module per component:

- `Bits` (`bits.dfy`): the `u64` mask as a `nat`.
  - Bit `i` is `Shr(m, i) % 2`, where `Shr` halves `i` times. This stands
    for both `bitset & (1 << i) != 0` and `(mask >> i) & 1`.
  - `Decode` is the line-68 decoding into a characteristic vector.
  - `FromBits` and `PositionalSum` read a vector back as a number.
  - The module also holds the `i32` bounds.
- `Evaluator` (`evaluator.dfy`): `evaluate_vector`.
  - `EvaluateVector` is an imperative method: a `for` loop with an early
    `return`, like the source.
  - It is proved against the declarative function `Evaluation`. A subset is
    *infeasible* when some selected item brings the running sum of the
    selected weights above the capacity. An infeasible subset gives the
    sentinel `(0, 0)`. Any other subset gives its sums.
- `Search` (`search.dfy`): the enumeration of masks `0 .. 2^n` and the
  `max_by_key` reduction.
  - This is the function `BestIn`, a left fold whose merge step is `Prefer`.
  - The rule that breaks ties between equal values is a parameter:
    `LastMaximum` or `FirstMaximum`.
- `Text` (`text.dfy`): the string operations `read_data` uses.
  - `trim`, `split_whitespace` over Unicode's White_Space set, and
    `parse::<i32>`.
  - The `i32` `Display` rendering, which is the parse's inverse.
- `Loader` (`loader.dfy`): the line logic of `read_data`. The input is a
  sequence of lines, and the ordered item list is collected fail-fast.
- `Knapsack` (`knapsack.dfy`): `knapsack_brute_force` without printing.
  It loads the lines, searches, and decodes the winner into a `Report`.

`Wrappers` (`wrappers.dfy`) holds `Option` and `Result`.

The source's reduction is rayon's parallel `max_by_key`. It is modelled as a
sequential fold over the masks in increasing order. `Search.BestInSplit`
proves that reducing the two halves of any split of the range and then
merging the results gives the sequential result. So the chunking a parallel
reduction picks cannot change the triple. The tie rule comes from a library
whose code is not part of this model. The model ASSUMES the documented
`max_by_key` rule of Rust's standard library and of rayon: among equal
maxima, the last one wins. `Knapsack.KnapsackBruteForce` uses that rule
(`LastMaximum`). Maximality, membership, the floor of 0 and the capacity
bound are proved for both rules.

Where the program's evidently intended behaviour and its code differ, the
model follows the code:

- Feasibility is tested on the running sum of the selected weights, not on
  the total. `Evaluator.InfeasibleIffOverweight` shows the two agree when
  weights are non-negative.
- A `u64` mask has a bit for each of up to 64 items. The code computes
  `1 << n` on a `u64`, so it needs `n < 64`: `Search.BruteForce` requires
  it, and at the top level 64 or more items give `ShiftOverflow`.
- For capacity 0 and the single item `(1, 5)` the intended answer is the
  empty subset. Under the last-maximum rule the code reports the vector
  `[1]` (see Findings).

## Model

| member | source | states |
|---|---|---|
| `Bits.BitOf` | src/main.rs:43 | the bit tested for item `i`, `bitset & (1 << i)`, is 0 or 1 |
| `Bits.BitOfZero` | src/main.rs:43 | no bit of the empty mask is set |
| `Bits.Decode` | src/main.rs:68 | the characteristic vector has exactly `n` entries, each 0 or 1 |
| `Bits.DecodeRoundTrip` | src/main.rs:68 | for a mask below `2^n`, reading the decoded vector back as binary digits gives the mask |
| `Bits.EncodeRoundTrip` | src/main.rs:68 | reading any 0/1 vector as a mask and decoding it gives the vector back |
| `Bits.FromBitsIsPositionalSum` | src/main.rs:68 | reading the vector back is the sum of `v[i] * 2^i` |
| `Bits.FromBitsBound` | src/main.rs:68 | a vector of `n` binary digits denotes a mask below `2^n` |
| `Bits.DecodeIgnoresHighBits` | src/main.rs:68 | adding any multiple of `2^n` to the mask leaves its first `n` decoded entries unchanged |
| `Evaluator.EvaluateVector` | src/main.rs:38-53 | returns `(0, 0)` when some prefix, in index order, of the selected weights sums above capacity; otherwise returns the sums of the selected weights and of the selected values |
| `Evaluator.EmptyMaskEvaluatesToZero` | src/main.rs:42-52 | mask 0 selects nothing, is never infeasible, and yields `(0, 0)` |
| `Evaluator.NonSentinelWithinCapacity` | src/main.rs:44-48 | a result other than `(0, 0)` has weight at most the capacity |
| `Evaluator.WeightWithinNonNegativeCapacity` | src/main.rs:44-52 | with capacity `>= 0`, every result's weight is at most the capacity, because the sentinel has weight 0 |
| `Evaluator.InfeasibleIffOverweight` | src/main.rs:42-47 | with non-negative weights, a subset is rejected exactly when it selects something and its total weight exceeds capacity; with capacity `>= 0` as well, exactly when the total exceeds it |
| `Evaluator.OnlySelectedItemsContribute` | src/main.rs:42-49 | two instances and masks that select the same positions, with the same items there, evaluate the same: unselected items never matter |
| `Evaluator.HighBitsIgnored` | src/main.rs:43 | mask bits at positions `>= n` never influence the result |
| `Evaluator.PrefixSumsFitI32` | src/main.rs:44-48 | if the absolute weights, and the absolute values, each sum to at most `i32::MAX`, then every running total stays within `i32` |
| `Search.Prefer` | src/main.rs:65 | one merge step of `max_by_key` returns one of its two candidates, one of greatest value; a tie goes to the later candidate under the last-maximum rule and to the earlier one otherwise |
| `Search.Score` | src/main.rs:61-63 | the triple for one mask carries that mask and its evaluation; `BestInIsMaximum` and `BruteForce` state what is proved about the triples |
| `Search.PreferAssociative` | src/main.rs:59-65 | the merge step is associative |
| `Search.BestInIsMaximum` | src/main.rs:59-65 | the reduced triple is `(m, evaluate_vector(m))` for a mask `m` in range; no mask in range has a greater value; equal maxima are settled by the tie rule |
| `Search.BestInSplit` | src/main.rs:59-65 | splitting the mask range, reducing each part and merging the two results gives the sequential result |
| `Search.BestIn` | src/main.rs:59-65 | the left fold of `max_by_key` over the masks of a range; `BestInIsMaximum` proves it is the maximum of the range under the tie rule, and `BestInSplit` proves every split of the range merges to it |
| `Search.BruteForce` | src/main.rs:57-66 | the range `0 .. 1 << n` is non-empty, so the unwrap cannot fail; the winner is a `u64` mask below `2^n` with its own evaluation, maximal over the range, with value `>= 0` and, for capacity `>= 0`, weight within capacity; a positive value means a feasible mask |
| `Search.NoFeasibleSubsetIsBetter` | src/main.rs:59-65 | no mask in range that the evaluator finds feasible has a greater selected value than the winner |
| `Search.BruteForceIsOptimal` | src/main.rs:59-65 | for non-negative weights and capacity, no subset with total weight within capacity has a greater value; a positive winning value is the value of a subset within capacity |
| `Search.FirstMaximumReportsFeasibleSubset` | src/main.rs:65 | under the lowest-mask rule, the winning mask is feasible and its triple carries that subset's sums |
| `Search.LastMaximumReportsInfeasibleSubset` | src/main.rs:45-65 | under the last-maximum rule, with capacity 0 and the single item `(1, 5)`, the winner is mask 1, an infeasible subset, with triple `(1, 0, 0)` |
| `Text.TrimStart` | src/main.rs:14 | the result is a suffix of the input; everything dropped is whitespace; the result does not start with whitespace |
| `Text.TrimEnd` | src/main.rs:14 | the result is a prefix of the input; everything dropped is whitespace; the result does not end with whitespace |
| `Text.Trim` | src/main.rs:14 | `trim` is `TrimEnd` after `TrimStart`; `TrimProperties` proves that it keeps a string without whitespace and leaves none at either end |
| `Text.TrimProperties` | src/main.rs:14 | trimming leaves a string without whitespace unchanged, and leaves no whitespace at either end |
| `Text.WordLength` | src/main.rs:22 | the length of the run of non-whitespace that starts the string, ending at whitespace or at the end |
| `Text.SplitWhitespace` | src/main.rs:22 | every token is non-empty and contains no whitespace |
| `Text.SplitBlank` | src/main.rs:22 | a line of whitespace only has no tokens |
| `Text.SplitSkipsWhitespace` | src/main.rs:22 | any amount of whitespace before a string adds no tokens, so leading blanks and runs of separators are skipped |
| `Text.SplitWordThen` | src/main.rs:22 | a word followed by whitespace, or by nothing, is split off as the first token |
| `Text.SplitJoinRoundTrip` | src/main.rs:22 | splitting words joined by single spaces gives the words back |
| `Text.ParseI32` | src/main.rs:15 | `parse::<i32>` succeeds only on a non-empty token without whitespace, and only with a value in the `i32` range |
| `Text.FormatNat` | src/main.rs:71-72 | the decimal rendering is a non-empty digit string denoting the number |
| `Text.FormatI32` | src/main.rs:71-72 | the rendering of an `i32` is non-empty and has no whitespace |
| `Text.ParseFormatRoundTrip` | src/main.rs:23 | parsing the rendering of any `i32` gives it back |
| `Loader.ParseTokens` | src/main.rs:21-25 | succeeds exactly when every token parses, and then gives their values in order; otherwise the error is an invalid number |
| `Loader.ParseItemLine` | src/main.rs:21-32 | an item line succeeds exactly when it has two tokens that both parse, and then holds their values as weight and value, each within `i32` |
| `Loader.ItemLineErrors` | src/main.rs:21-31 | an unparsable token is reported as an invalid number, even when the count is also wrong; a line whose tokens all parse but number other than two is reported as not two numbers |
| `Loader.BlankLineRejected` | src/main.rs:21-31 | a blank or whitespace-only line is an item line without two numbers |
| `Loader.Collect` | src/main.rs:33 | a collection succeeds exactly when every result does, and then holds their values in order |
| `Loader.CollectFailsAtFirstError` | src/main.rs:33 | a failed collection carries the error of the first failed result |
| `Loader.ParseItems` | src/main.rs:18-33 | the items load exactly when every line does, giving one item per line in input order |
| `Loader.ParseItemsFailsAtFirstBadLine` | src/main.rs:18-33 | a failed item load reports the error of the first bad line, and every earlier line is good |
| `Loader.ReadData` | src/main.rs:11-35 | no first line is `EmptyFile`; an unparsable trimmed first line is an invalid number; otherwise the load succeeds exactly when every later line is a good item line, returning the capacity and one item per later line in order |
| `Loader.ParseFormattedItem` | src/main.rs:21-32 | the line `weight value` of two `i32`s parses to that item |
| `Loader.ReadFormatRoundTrip` | src/main.rs:11-35 | loading the text of any instance of `i32`s gives the instance back |
| `Knapsack.Solve` | src/main.rs:56-68 | the vector has one 0/1 entry per item; read back, it is a mask below `2^n` whose evaluation is the reported pair; no mask in range has a greater value; the value is `>= 0`; with capacity `>= 0` the weight is within capacity |
| `Knapsack.KnapsackBruteForce` | src/main.rs:55-68 | a load failure is passed on; 64 or more items is a shift overflow; a good load of fewer than 64 items always gives a report, whose vector has 0/1 entries and reads back as a mask whose evaluation is the reported pair, with no mask in range of greater value, a value `>= 0` and, for capacity `>= 0`, a weight within capacity |
| `Knapsack.EmptyInstanceFloor` | src/main.rs:57-68 | with no items the report is the empty vector, weight 0 and value 0 |
| `Knapsack.LastMaximumReportsOverweightVector` | src/main.rs:45-68 | with capacity 0 and the single item `(1, 5)`, the report is vector `[1]`, weight 0, value 0, though that subset weighs 1 |
| `Knapsack.KnapsackReportsOverweightVector` | src/main.rs:11-68 | the run on the input lines `0` and `1 5` reports vector `[1]`, weight 0 and value 0 |
| `Knapsack.FirstMaximumReportIsTruthful` | src/main.rs:65-68 | under the lowest-mask rule, the reported vector is a feasible subset and the reported weight and value are its sums |

## Left out

- File opening, `BufReader`, and the splitting of the file into lines (src/main.rs:7-9). These are I/O. The input is a `seq<string>` of lines.
- I/O errors yielded by the lines iterator (the second `?` at src/main.rs:13 and the `line?` at src/main.rs:20). These are I/O.
- rayon's parallel execution (src/main.rs:60). This is concurrency in a library that is not part of this model. It is replaced by a sequential fold. `Search.BestInSplit` covers the independence from partitioning.
- The tie rule of `max_by_key`: it is an assumption (last maximum wins), not something derived from code.
- Printing and the `Instant` timing in `main` and at src/main.rs:70-72 and src/main.rs:78-81. These are output and floating-point `as_secs_f64`. Only the `Display` of `i32` is modelled (`Text.FormatI32`), as the inverse of the parse.
- `i32` overflow of the running totals (src/main.rs:44, 48). A debug build panics and a release build wraps. The model adds with unbounded integers. `Evaluator.PrefixSumsFitI32` states the bound under which the two agree.
- `1 << n` with `n >= 64` (src/main.rs:58). It is modelled as the debug-build panic (`Knapsack.Failure.ShiftOverflow`). The release build masks the shift amount, and that is not modelled.
- The entries of the reported vector are `u8` in the source and `nat` 0 or 1 here.
- `Text.ParseI32`: the kind carried by Rust's `ParseIntError` (empty, invalid digit, overflow) is not kept. Every failed token is the one error `InvalidNumber`, as `map_err` sees it.
- `Text.IsWhitespace`: the Unicode White_Space list is written out. Rust's `trim` and `split_whitespace` use that property. The table itself was not checked against a particular Unicode version.

## Findings

| source | as written | input that shows it | evidently intended | confidence | as-written member | corrected member |
|---|---|---|---|---|---|---|
| src/main.rs:46-65 | infeasible masks score `(0, 0)` and can tie with the empty subset; under `max_by_key`'s last-maximum rule the later, infeasible mask wins, so the printed vector names a subset that does not fit, printed with weight 0 | capacity `0`, items `[(1, 5)]`: printed vector `[1]`, weight 0, value 0 | the empty subset `[0]`, or in general a reported vector whose subset fits and whose printed weight and value are its own | medium: not executed; rests on the assumed last-maximum tie rule | `Knapsack.KnapsackReportsOverweightVector` | `Knapsack.FirstMaximumReportIsTruthful` |

The corrected reduction breaks ties toward the lowest mask. That is the
`FirstMaximum` rule of `Search.Prefer`, and `Solve` accepts either rule.
`Knapsack.KnapsackBruteForce` keeps the source's behaviour, so it uses
`LastMaximum`.
