/** `dynamic_max_weight` of maxweight.hh: the 0/1 knapsack table over integer calorie
    capacities, filled in place, and the walk that rebuilds the chosen items from it. */
module Dynamic {
  import opened Foods
  import opened Knapsack

  /** `static_cast<int>` of a real: truncation towards zero. */
  function TruncToInt(x: real): (r: int)
    ensures 0.0 <= x ==> r as real <= x < r as real + 1.0
    ensures x < 0.0 ==> r as real - 1.0 < x <= r as real
  {
    if x >= 0.0 then x.Floor else -((-x).Floor)
  }

  /** An integer amount of calories fits a real budget exactly when it fits the truncated
      budget, for every budget the table can be built for. */
  lemma WithinTruncatedBudget(calories: int, budget: real)
    requires budget > -1.0
    ensures calories as real <= budget ==> calories <= TruncToInt(budget)
    ensures budget >= 0.0 && calories <= TruncToInt(budget) ==> calories as real <= budget
  {
  }

  /** For a real budget, the table entry at the truncated budget is the best weight of any
      selection whose calories fit the budget. */
  lemma OptimalWithinBudget(foods: seq<FoodItem>, budget: real)
    requires ValidCatalog(foods) && budget > -1.0
    ensures forall p :: IsSelection(p, |foods|) && WithinBudget(foods, p, budget)
                     ==> TotalWeight(Select(foods, p)) <= OptWeight(foods, |foods|, TruncToInt(budget))
  {
    OptWeightIsMaximum(foods, TruncToInt(budget));
    forall p | IsSelection(p, |foods|) && WithinBudget(foods, p, budget)
      ensures WithinCapacity(foods, p, TruncToInt(budget))
    {
      WithinTruncatedBudget(TotalCalories(Select(foods, p)), budget);
    }
  }

  /** One pass of the inner loop of `dynamic_max_weight`: fills row `i` of both tables from
      row `i - 1` and leaves every other row as it was. */
  method FillRow(foods: seq<FoodItem>, capacity: nat, dp: array2<real>, take: array2<bool>, i: nat)
    requires ValidCatalog(foods) && 0 < i <= |foods|
    requires dp.Length0 == take.Length0 == |foods| + 1
    requires dp.Length1 == take.Length1 == capacity + 1
    requires forall r, v :: r == i - 1 && 0 <= v <= capacity ==> dp[r, v] == OptWeight(foods, r, v)
    requires forall v :: 0 <= v <= capacity ==> !take[i, v]
    modifies dp, take
    ensures forall v :: 0 <= v <= capacity ==> dp[i, v] == OptWeight(foods, i, v)
    ensures forall v :: 0 <= v <= capacity ==> take[i, v] == Takes(foods, i, v)
    ensures forall r, v :: 0 <= r <= |foods| && r != i && 0 <= v <= capacity ==> dp[r, v] == old(dp[r, v])
    ensures forall r, v :: 0 <= r <= |foods| && r != i && 0 <= v <= capacity ==> take[r, v] == old(take[r, v])
  {
    var item := foods[i - 1];
    assert item.Valid();
    var w := 0;
    while w <= capacity
      invariant 0 <= w <= capacity + 1
      invariant forall v :: 0 <= v < w ==> dp[i, v] == OptWeight(foods, i, v)
      invariant forall v :: 0 <= v < w ==> take[i, v] == Takes(foods, i, v)
      invariant forall v :: w <= v <= capacity ==> !take[i, v]
      invariant forall r, v :: 0 <= r <= |foods| && r != i && 0 <= v <= capacity ==> dp[r, v] == old(dp[r, v])
      invariant forall r, v :: 0 <= r <= |foods| && r != i && 0 <= v <= capacity ==> take[r, v] == old(take[r, v])
    {
      if item.calories > w {
        dp[i, w] := dp[i - 1, w];
      } else {
        var weightIfTaken := dp[i - 1, w - item.calories] + item.weight;
        if weightIfTaken > dp[i - 1, w] {
          dp[i, w] := weightIfTaken;
          take[i, w] := true;
        } else {
          dp[i, w] := dp[i - 1, w];
        }
      }
      w := w + 1;
    }
  }

  /** The table-filling part of `dynamic_max_weight`: both tables have `n + 1` rows and
      `capacity + 1` columns, start at 0 and false, and row `i` is computed from row `i - 1`.
      Afterwards every entry of `dp` is the recurrence `OptWeight` and every entry of `take`
      says whether the recurrence takes the row's item. */
  method FillTable(foods: seq<FoodItem>, capacity: nat) returns (dp: array2<real>, take: array2<bool>)
    requires ValidCatalog(foods)
    ensures fresh(dp) && fresh(take)
    ensures dp.Length0 == take.Length0 == |foods| + 1
    ensures dp.Length1 == take.Length1 == capacity + 1
    ensures forall r, w :: 0 <= r <= |foods| && 0 <= w <= capacity ==> dp[r, w] == OptWeight(foods, r, w)
    ensures forall r, w :: 0 <= r <= |foods| && 0 <= w <= capacity ==> take[r, w] == (r > 0 && Takes(foods, r, w))
  {
    var n := |foods|;
    dp := new real[n + 1, capacity + 1]((i, w) => 0.0);
    take := new bool[n + 1, capacity + 1]((i, w) => false);
    var i := 1;
    while i <= n
      invariant 1 <= i <= n + 1
      invariant forall r, w :: 0 <= r < i && 0 <= w <= capacity ==> dp[r, w] == OptWeight(foods, r, w)
      invariant forall r, w :: 0 <= r < i && 0 <= w <= capacity ==> take[r, w] == (r > 0 && Takes(foods, r, w))
      invariant forall r, w :: i <= r <= n && 0 <= w <= capacity ==> !take[r, w]
    {
      FillRow(foods, capacity, dp, take, i);
      i := i + 1;
    }
  }

  /** `dynamic_max_weight`. The budget is truncated to the integer capacity `C`; then
      `dp[i][w]` and `take[i][w]` are filled row by row, taking item `i - 1` only when that is
      strictly heavier; then the walk from row `n` down to row 1 puts each taken item at the
      front of the result, so the result lists items in increasing catalog order.
      The result fits `C`, weighs `dp[n][C]`, and no selection that fits the budget weighs
      more. */
  method DynamicMaxWeight(foods: seq<FoodItem>, budget: real) returns (result: seq<FoodItem>, picked: seq<nat>)
    requires ValidCatalog(foods)
    requires budget > -1.0
    ensures IsSelection(picked, |foods|) && result == Select(foods, picked)
    ensures picked == OptChoice(foods, |foods|, TruncToInt(budget))
    ensures TotalCalories(result) <= TruncToInt(budget)
    ensures budget >= 0.0 ==> TotalCalories(result) as real <= budget
    ensures TotalWeight(result) == OptWeight(foods, |foods|, TruncToInt(budget))
    ensures forall p :: IsSelection(p, |foods|) && WithinBudget(foods, p, budget)
                     ==> TotalWeight(Select(foods, p)) <= TotalWeight(result)
    ensures TruncToInt(budget) == 0 ==> result == []
  {
    var n := |foods|;
    var capacity := TruncToInt(budget);
    var dp, take := FillTable(foods, capacity);

    // Rebuild the chosen items.
    result, picked := [], [];
    var remaining := capacity;
    var k := n;
    while k > 0
      invariant 0 <= k <= n && 0 <= remaining <= capacity
      invariant forall r, w :: 0 < r <= n && 0 <= w <= capacity ==> take[r, w] == Takes(foods, r, w)
      invariant forall t :: 0 <= t < |picked| ==> k <= picked[t] < n
      invariant OptChoice(foods, k, remaining) + picked == OptChoice(foods, n, capacity)
      invariant result == Select(foods, picked)
    {
      if take[k, remaining] {
        SelectPrepend(foods, picked, k - 1);
        assert OptChoice(foods, k, remaining) == OptChoice(foods, k - 1, remaining - foods[k - 1].calories) + [k - 1];
        result := [foods[k - 1]] + result;
        picked := [k - 1] + picked;
        remaining := remaining - foods[k - 1].calories;
      }
      k := k - 1;
    }

    assert [] + picked == picked;
    OptChoiceAchieves(foods, n, capacity);
    OptimalWithinBudget(foods, budget);
    WithinTruncatedBudget(TotalCalories(result), budget);
    if capacity == 0 {
      OptChoiceEmptyWithoutCapacity(foods, n, capacity);
    }
  }
}
