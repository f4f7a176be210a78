/** Food items, catalogs, selections of a catalog and the aggregate utility
    `sum_food_vector` of maxweight.hh. */
module Foods {

  /** One food item. Calories are whole numbers in this model; the weight is in ounces. */
  datatype FoodItem = FoodItem(description: string, calories: int, weight: real)
  {
    /** What the constructor asserts of every item: a non-empty description and positive calories. */
    predicate Valid() {
      |description| > 0 && calories > 0
    }
  }

  /** Every item of the catalog satisfies the constructor's invariant. */
  predicate ValidCatalog(foods: seq<FoodItem>) {
    forall k :: 0 <= k < |foods| ==> foods[k].Valid()
  }

  /** Sum of the calories of the items. */
  function TotalCalories(foods: seq<FoodItem>): int
    decreases |foods|
  {
    if foods == [] then 0
    else TotalCalories(foods[..|foods| - 1]) + foods[|foods| - 1].calories
  }

  /** With valid items every item adds at least one calorie, so the calorie total is at least
      the number of items. */
  lemma {:induction false} TotalCaloriesAtLeastCount(foods: seq<FoodItem>)
    requires ValidCatalog(foods)
    ensures TotalCalories(foods) >= |foods|
    decreases |foods|
  {
    if foods != [] {
      var init := foods[..|foods| - 1];
      assert ValidCatalog(init) by {
        forall k | 0 <= k < |init| ensures init[k].Valid() {
          assert init[k] == foods[k];
        }
      }
      TotalCaloriesAtLeastCount(init);
      assert foods[|foods| - 1].Valid();
    }
  }

  /** Sum of the weights of the items. */
  function TotalWeight(foods: seq<FoodItem>): real
    decreases |foods|
  {
    if foods == [] then 0.0
    else TotalWeight(foods[..|foods| - 1]) + foods[|foods| - 1].weight
  }

  /** Appending one item adds its calories and its weight to the totals. */
  lemma TotalsAppend(foods: seq<FoodItem>, item: FoodItem)
    ensures TotalCalories(foods + [item]) == TotalCalories(foods) + item.calories
    ensures TotalWeight(foods + [item]) == TotalWeight(foods) + item.weight
  {
    assert (foods + [item])[..|foods|] == foods;
  }

  /** Calories of a concatenation are the sum of the calories of the parts. */
  lemma {:induction false} TotalCaloriesConcat(a: seq<FoodItem>, b: seq<FoodItem>)
    ensures TotalCalories(a + b) == TotalCalories(a) + TotalCalories(b)
    decreases |b|
  {
    if b == [] {
      assert a + b == a;
    } else {
      var b' := b[..|b| - 1];
      assert (a + b)[..|a + b| - 1] == a + b';
      TotalCaloriesConcat(a, b');
    }
  }

  /** Weight of a concatenation is the sum of the weights of the parts. */
  lemma {:induction false} TotalWeightConcat(a: seq<FoodItem>, b: seq<FoodItem>)
    ensures TotalWeight(a + b) == TotalWeight(a) + TotalWeight(b)
    decreases |b|
  {
    if b == [] {
      assert a + b == a;
    } else {
      var b' := b[..|b| - 1];
      assert (a + b)[..|a + b| - 1] == a + b';
      TotalWeightConcat(a, b');
    }
  }

  /** `sum_food_vector`: accumulates the total calories and the total weight of `foods`.
      An empty vector gives (0, 0). */
  method SumFoodVector(foods: seq<FoodItem>) returns (totalCalories: int, totalWeight: real)
    ensures totalCalories == TotalCalories(foods)
    ensures totalWeight == TotalWeight(foods)
    ensures foods == [] ==> totalCalories == 0 && totalWeight == 0.0
  {
    totalCalories, totalWeight := 0, 0.0;
    for i := 0 to |foods|
      invariant totalCalories == TotalCalories(foods[..i])
      invariant totalWeight == TotalWeight(foods[..i])
    {
      assert foods[..i + 1][..i] == foods[..i];
      totalCalories := totalCalories + foods[i].calories;
      totalWeight := totalWeight + foods[i].weight;
    }
    assert foods[..|foods|] == foods;
  }

  /** `picked` names distinct positions among the first `n` items of a catalog, in increasing
      order: the shape of every result vector, whose entries point into the catalog. */
  predicate IsSelection(picked: seq<nat>, n: nat) {
    && (forall k :: 0 <= k < |picked| ==> picked[k] < n)
    && (forall k, l :: 0 <= k < l < |picked| ==> picked[k] < picked[l])
  }

  /** The items at the positions `picked`, in that order. */
  function Select(foods: seq<FoodItem>, picked: seq<nat>): seq<FoodItem>
    requires forall k :: 0 <= k < |picked| ==> picked[k] < |foods|
  {
    seq(|picked|, k requires 0 <= k < |picked| => foods[picked[k]])
  }

  /** Adding one position at the end of a selection adds its item at the end of the items. */
  lemma SelectAppend(foods: seq<FoodItem>, picked: seq<nat>, j: nat)
    requires forall k :: 0 <= k < |picked| ==> picked[k] < |foods|
    requires j < |foods|
    ensures Select(foods, picked + [j]) == Select(foods, picked) + [foods[j]]
  {
  }

  /** Adding one position at the front of a selection adds its item at the front of the items. */
  lemma SelectPrepend(foods: seq<FoodItem>, picked: seq<nat>, j: nat)
    requires forall k :: 0 <= k < |picked| ==> picked[k] < |foods|
    requires j < |foods|
    ensures Select(foods, [j] + picked) == [foods[j]] + Select(foods, picked)
  {
  }

  /** A selection of positions below `n` picks the same items from a catalog and from its
      first `n` items. */
  lemma SelectFromPrefix(foods: seq<FoodItem>, picked: seq<nat>, n: nat)
    requires n <= |foods| && forall k :: 0 <= k < |picked| ==> picked[k] < n
    ensures Select(foods[..n], picked) == Select(foods, picked)
  {
  }

  /** A selection's total calories are within an integer capacity. */
  predicate WithinCapacity(foods: seq<FoodItem>, picked: seq<nat>, capacity: int)
    requires forall k :: 0 <= k < |picked| ==> picked[k] < |foods|
  {
    TotalCalories(Select(foods, picked)) <= capacity
  }

  /** A selection's total calories are within a real budget. */
  predicate WithinBudget(foods: seq<FoodItem>, picked: seq<nat>, budget: real)
    requires forall k :: 0 <= k < |picked| ==> picked[k] < |foods|
  {
    TotalCalories(Select(foods, picked)) as real <= budget
  }
}
