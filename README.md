# Maximum weight within a calorie budget: a Dafny model of `maxweight.hh`

`maxweight.hh` chooses food items to carry: each item has a description, a calorie count and a
weight in ounces, and the goal is the heaviest selection whose calories stay within a budget
(the 0/1 knapsack problem). It solves this twice, with a dynamic programme
(`dynamic_max_weight`) and with an exhaustive search over all subsets
(`exhaustive_max_weight`), and offers two helpers that feed them: `filter_food_vector`, which
keeps the first few items in a weight range, and `sum_food_vector`, which totals calories and
weight.

The model keeps the code's imperative shape: the dynamic programme fills two fresh
two-dimensional arrays (`dp`, `take`) row by row and then walks them back; the exhaustive search
loops over the masks `0 .. 2^n - 1` with an inner loop that assembles each subset; the filter
and the sum are loops over the catalog. Each method is proved against pure specification
functions, and the properties that matter are lemmas about those functions:

- `Foods`: the `FoodItem` record and its constructor invariant (`Valid`: non-empty
  description, positive calories), catalog totals, selections (increasing position
  sequences, which stand for the shared pointers a result vector holds) and `SumFoodVector`.
- `Filter`: `FilterFoodVector`, the in-range subsequence `InRange` and the `size_t` cast.
- `Knapsack`: the recurrence the table holds (`OptWeight`, `Takes`), the reconstruction
  (`OptChoice`), and the proof that the recurrence is the true optimum over all selections.
- `Dynamic`: `DynamicMaxWeight` with its table-filling loops and the budget truncation.
- `Masks`: the bit test, the subset a mask encodes, and the bijection between masks below
  `2^n` and selections of `n` positions.
- `Exhaustive`: `ExhaustiveMaxWeight` and the properties that pin its result down.
- `Compare`: both solvers on the same input give the same total weight.

Where the header comments of `maxweight.hh` and its code disagree, the model follows the code,
and two behaviours of the code are worth stating plainly:

- The header comment of `dynamic_max_weight` describes a greedy weight-per-calorie choice; the
  code is the table-based dynamic programme.
- The header comment of `exhaustive_max_weight` swaps weight and calories; the code maximises
  weight within the calorie budget.
- `static_cast<int>` truncates the budget towards zero and does not round (`TruncToInt`).
- The walk visits every row from `n` down to 1 and inserts each taken item at the front, so the
  result is in increasing catalog order.

Calories are whole numbers and weights are Dafny `real`s, so sums are exact. Under this
representation the cast at line 232, the comparison at line 239 and the index arithmetic at
lines 242 and 260 are exact too.

## Model

| member | source | states |
|---|---|---|
| `Foods.FoodItem.Valid` | maxweight.hh:35-36 | the constructor's invariant: a non-empty description and positive calories |
| `Foods.ValidCatalog` | maxweight.hh:35-36 | every item of a vector was built by the constructor, so each satisfies `Valid` |
| `Foods.TotalCaloriesAtLeastCount` | maxweight.hh:35-36 | with the constructor invariant (positive calories) every item adds at least one calorie, so a vector's calorie total is at least its item count |
| `Foods.TotalCaloriesConcat` | maxweight.hh:153-157 | the calorie total of two vectors joined is the sum of their totals |
| `Foods.TotalWeightConcat` | maxweight.hh:153-157 | the weight total of two vectors joined is the sum of their totals |
| `Foods.SumFoodVector` | maxweight.hh:147-158 | the loop returns exactly the sum of the calories and the sum of the weights; an empty vector gives (0, 0) |
| `Filter.AsSizeT` | maxweight.hh:219 | `static_cast<size_t>` of an int is the value modulo 2^64: unchanged when non-negative, plus 2^64 when negative |
| `Filter.InWeightRange` | maxweight.hh:213 | the inclusive weight test `min_weight <= weight <= max_weight` |
| `Filter.InRange` | maxweight.hh:210-216 | every kept item has `min_weight <= weight <= max_weight`, no more items than the source, and every in-range source item is kept |
| `Filter.InRangePositions` | maxweight.hh:210-216 | the positions kept are increasing and are exactly the positions whose item is in range |
| `Filter.InRangeIsSubsequence` | maxweight.hh:210-216 | the kept items are the items at exactly the in-range positions, in source order |
| `Filter.FilterFoodVector` | maxweight.hh:200-223 | the result is all in-range items, or their first `static_cast<size_t>(total_size)` when there are more; every item is in range; at most `total_size` items when the cast is positive; a subsequence of the source |
| `Knapsack.Takes` | maxweight.hh:239-245 | row `i` takes item `i - 1` at capacity `c` exactly when the item's calories fit and taking it is strictly heavier than the entry above, so a tie leaves the item out |
| `Knapsack.OptWeight` | maxweight.hh:237-251 | the table entry `dp[i][w]`, built from 0 by keeping the row above unless taking the item is strictly heavier, is never negative |
| `Knapsack.OptChoiceAchieves` | maxweight.hh:253-262 | the positions the reconstruction walk collects form a selection within capacity whose weight equals the table entry |
| `Knapsack.OptWeightIsUpperBound` | maxweight.hh:237-251 | no selection of the first `i` items within capacity `c` is heavier than `dp[i][c]` |
| `Knapsack.OptWeightIsMaximum` | maxweight.hh:237-251 | `dp[n][C]` is the maximum weight over all selections with calories at most `C`: attained by one and exceeded by none |
| `Knapsack.OptChoiceEmptyWithoutCapacity` | maxweight.hh:255-262 | with positive calories and capacity 0 the walk takes nothing |
| `Dynamic.TruncToInt` | maxweight.hh:232 | `static_cast<int>` truncates towards zero: the result is within one of the input, on the side of zero |
| `Dynamic.WithinTruncatedBudget` | maxweight.hh:232 | for a budget above -1, a whole number of calories that fits the real budget fits its truncation; the converse holds for a non-negative budget |
| `Dynamic.OptimalWithinBudget` | maxweight.hh:232-251 | no selection whose calories fit the real budget weighs more than `dp[n][static_cast<int>(budget)]` |
| `Dynamic.FillRow` | maxweight.hh:238-250 | the inner loop sets row `i` of `dp` to the recurrence and row `i` of `take` to whether it takes item `i - 1`, leaving every other row unchanged |
| `Dynamic.FillTable` | maxweight.hh:233-251 | the tables have `n + 1` rows and `C + 1` columns, every `dp` entry is the recurrence and every `take` entry says whether the item is taken (row 0 never) |
| `Dynamic.DynamicMaxWeight` | maxweight.hh:230-265 | the result is a selection in increasing catalog order, equal to the reconstruction walk; it fits the truncated budget (and the budget itself when non-negative); it weighs `dp[n][C]`; no selection within the budget is heavier; a budget that truncates to 0 gives the empty result |
| `Masks.Pow2` | maxweight.hh:279 | `1ULL << n` as an unbounded number, at least 1 |
| `Masks.BitSet` | maxweight.hh:287 | the test `i & (1ULL << j)`, defined by halving |
| `Masks.BitSetIsBinaryDigit` | maxweight.hh:287 | the halving test is bit `j` of the binary expansion, `(mask / 2^j) % 2 == 1`, which is what `i & (1ULL << j)` tests |
| `Masks.MaskSubset` | maxweight.hh:285-293 | the subset of a mask lists, in increasing order, exactly the positions `j < n` whose bit is set |
| `Masks.MaskOf` | maxweight.hh:279-280 | the mask of a selection of `n` positions is below `2^n`, the bound of the outer loop |
| `Masks.EverySelectionEnumerated` | maxweight.hh:279-293 | every selection of `n` positions is the subset of the mask `MaskOf` of it, which the loop visits |
| `Masks.MaskRoundTrip` | maxweight.hh:279-293 | every mask below `2^n` is the mask of its own subset, so distinct masks give distinct subsets |
| `Exhaustive.AssembleSubset` | maxweight.hh:282-293 | the inner loop collects the items of the mask's subset in increasing position order with their exact weight and calorie totals |
| `Exhaustive.Enumerate` | maxweight.hh:275-300 | after all masks, the kept subset is the one of the kept mask, fits the budget unless empty, weighs at least every fitting mask and more than every fitting mask before it |
| `Exhaustive.ExhaustiveMaxWeight` | maxweight.hh:274-302 | the result is a selection in increasing order; if not empty it fits the budget and weighs more than 0; no fitting selection is heavier; it is empty exactly when no fitting selection has positive weight; no earlier mask reaches its weight within the budget |
| `Exhaustive.FirstBestIsUnique` | maxweight.hh:274-302 | those properties determine the result, so two runs on the same input agree |
| `Compare.CompareSolvers` | maxweight.hh:230-302 | with positive whole-number calories and any budget above -1, possibly fractional, the dynamic result and the exhaustive result have equal total weight |
| `Compare.ThreeItemExample` | maxweight.hh:237-262 | on apple (95, 4.0), cookie (50, 1.5) and bar (150, 6.0) with capacity 150 the table gives 6.0 and the walk picks the bar alone |

## Left out

- `load_food_database` (maxweight.hh:69-140) is not part of this model: it reads a file with
  `std::ifstream` and parses numbers through `std::stringstream`, whose behaviour is outside the
  model; items enter the model as values.
- `print_food_vector` (maxweight.hh:162-184) only writes to the console.
- IEEE `double` arithmetic: calories are whole numbers and weights are exact reals, so rounding
  of sums and of the double-to-index conversion at line 242 is not modelled.
- Shared ownership (`shared_ptr`, `unique_ptr`, `std::move`): items are values and a result's
  link to the catalog is its sequence of positions, which each solver returns beside the items.
- The `FoodItem` constructor's `assert` aborts the program on an invalid item; the model
  instead requires `ValidCatalog` of the catalogs given to the dynamic programme, where
  positive calories matter for the table indices and for optimality.
- Dynamic.TruncToInt: does not model overflow of `static_cast<int>` for budgets at or above
  2^31, because integers are unbounded here.
- Dynamic.DynamicMaxWeight: requires a budget above -1, because a budget at or below -1 makes
  the table size `total_calories + 1` zero or negative and the reconstruction index invalid.
- Exhaustive.ExhaustiveMaxWeight: requires fewer than 64 items, as the source's comment asks,
  instead of modelling the overflow of `1ULL << foods.size()`.
- Exhaustive.ExhaustiveMaxWeight: for a negative budget the source returns the empty vector,
  whose 0 calories exceed the budget, so feasibility is promised only for a non-empty result.
- The single functions of the source are split where the proofs need it: the mask loop of
  `exhaustive_max_weight` is the method `Enumerate` and its inner loop `AssembleSubset`, and
  the nested filling loops of `dynamic_max_weight` are `FillTable` (rows) and `FillRow`
  (columns). No statement changes.
- Running time and memory (the `n * C` table, the `2^n` enumeration) are not modelled.
