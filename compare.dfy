/** The comparison the repository exists for: on the same catalog and budget the dynamic
    programme and the exhaustive search find selections of equal total weight. */
module Compare {
  import opened Foods
  import opened Dynamic
  import opened Exhaustive
  import opened Knapsack

  /** Runs both solvers and totals their results with `sum_food_vector`. The budget may be
      fractional: calories are whole numbers, so a selection fits the budget exactly when it
      fits its truncation. */
  method CompareSolvers(foods: seq<FoodItem>, budget: real) returns (dynamicWeight: real, exhaustiveWeight: real)
    requires ValidCatalog(foods) && |foods| < 64
    requires budget > -1.0
    ensures dynamicWeight == exhaustiveWeight
  {
    var dynamicResult, dynamicPicked := DynamicMaxWeight(foods, budget);
    var exhaustiveResult, exhaustivePicked := ExhaustiveMaxWeight(foods, budget);
    var dynamicCalories, exhaustiveCalories;
    dynamicCalories, dynamicWeight := SumFoodVector(dynamicResult);
    exhaustiveCalories, exhaustiveWeight := SumFoodVector(exhaustiveResult);
    if budget >= 0.0 {
      // each result fits the budget, so each weighs at most the other
      assert WithinBudget(foods, dynamicPicked, budget);
      assert exhaustivePicked == [] ==> exhaustiveResult == [] && exhaustiveWeight == 0.0;
      assert WithinBudget(foods, exhaustivePicked, budget);
    } else {
      // the truncated budget is 0: the dynamic result is empty, and nothing fits a negative budget
      assert dynamicResult == [];
      assert exhaustivePicked == [];
    }
  }

  /** A three-item catalog with a budget of 150 calories: apple and cookie together (145
      calories, 5.5 ounces) lose to the bar on its own (150 calories, 6.0 ounces). */
  lemma ThreeItemExample()
    ensures var foods := [FoodItem("apple", 95, 4.0), FoodItem("cookie", 50, 1.5), FoodItem("bar", 150, 6.0)];
            OptWeight(foods, 3, 150) == 6.0 && OptChoice(foods, 3, 150) == [2]
  {
  }
}
