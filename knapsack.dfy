/** The 0/1 knapsack recurrence that the table of `dynamic_max_weight` (maxweight.hh)
    holds, its reconstruction, and the proof that it is the optimum over all selections. */
module Knapsack {
  import opened Foods

  /** Whether row `i` of the table takes item `i - 1` at capacity `c`: the item fits and taking
      it is strictly better than leaving it, so ties leave it out. */
  predicate Takes(foods: seq<FoodItem>, i: nat, c: int)
    requires 0 < i <= |foods|
    decreases i, 0
  {
    var item := foods[i - 1];
    item.calories <= c && OptWeight(foods, i - 1, c - item.calories) + item.weight > OptWeight(foods, i - 1, c)
  }

  /** `dp[i][c]`: the best weight the table records for the first `i` items at capacity `c`. */
  function OptWeight(foods: seq<FoodItem>, i: nat, c: int): (r: real)
    requires i <= |foods|
    ensures r >= 0.0
    decreases i, 1
  {
    if i == 0 then 0.0
    else if Takes(foods, i, c) then OptWeight(foods, i - 1, c - foods[i - 1].calories) + foods[i - 1].weight
    else OptWeight(foods, i - 1, c)
  }

  /** The positions the reconstruction walk collects from `take`, starting at row `i` and
      capacity `c`, listed in increasing order. */
  function OptChoice(foods: seq<FoodItem>, i: nat, c: int): seq<nat>
    requires i <= |foods|
    decreases i
  {
    if i == 0 then []
    else if Takes(foods, i, c) then OptChoice(foods, i - 1, c - foods[i - 1].calories) + [i - 1]
    else OptChoice(foods, i - 1, c)
  }

  /** One row of the recurrence and of the walk, unfolded. */
  lemma RowStep(foods: seq<FoodItem>, i: nat, c: int)
    requires 0 < i <= |foods|
    ensures Takes(foods, i, c) ==> OptChoice(foods, i, c) == OptChoice(foods, i - 1, c - foods[i - 1].calories) + [i - 1]
    ensures Takes(foods, i, c) ==> OptWeight(foods, i, c) == OptWeight(foods, i - 1, c - foods[i - 1].calories) + foods[i - 1].weight
    ensures !Takes(foods, i, c) ==> OptChoice(foods, i, c) == OptChoice(foods, i - 1, c)
    ensures !Takes(foods, i, c) ==> OptWeight(foods, i, c) == OptWeight(foods, i - 1, c)
  {
  }

  /** The walk collects increasing positions below `i`. */
  lemma {:induction false} OptChoiceIsSelection(foods: seq<FoodItem>, i: nat, c: int)
    requires i <= |foods|
    ensures IsSelection(OptChoice(foods, i, c), i)
    decreases i
  {
    if i > 0 {
      RowStep(foods, i, c);
      if Takes(foods, i, c) {
        OptChoiceIsSelection(foods, i - 1, c - foods[i - 1].calories);
      } else {
        OptChoiceIsSelection(foods, i - 1, c);
      }
    }
  }

  /** The items the walk collects fit capacity `c`. */
  lemma {:induction false} OptChoiceCalories(foods: seq<FoodItem>, i: nat, c: int)
    requires i <= |foods| && c >= 0
    ensures IsSelection(OptChoice(foods, i, c), i)
    ensures TotalCalories(Select(foods, OptChoice(foods, i, c))) <= c
    decreases i
  {
    OptChoiceIsSelection(foods, i, c);
    if i > 0 {
      var item := foods[i - 1];
      RowStep(foods, i, c);
      if Takes(foods, i, c) {
        var p := OptChoice(foods, i - 1, c - item.calories);
        OptChoiceCalories(foods, i - 1, c - item.calories);
        SelectAppend(foods, p, i - 1);
        TotalsAppend(Select(foods, p), item);
      } else {
        OptChoiceCalories(foods, i - 1, c);
      }
    }
  }

  /** The items the walk collects weigh exactly the table entry. */
  lemma {:induction false} OptChoiceWeight(foods: seq<FoodItem>, i: nat, c: int)
    requires i <= |foods|
    ensures IsSelection(OptChoice(foods, i, c), i)
    ensures TotalWeight(Select(foods, OptChoice(foods, i, c))) == OptWeight(foods, i, c)
    decreases i
  {
    OptChoiceIsSelection(foods, i, c);
    if i > 0 {
      var item := foods[i - 1];
      RowStep(foods, i, c);
      if Takes(foods, i, c) {
        var p := OptChoice(foods, i - 1, c - item.calories);
        OptChoiceWeight(foods, i - 1, c - item.calories);
        SelectAppend(foods, p, i - 1);
        TotalsAppend(Select(foods, p), item);
      } else {
        OptChoiceWeight(foods, i - 1, c);
      }
    }
  }

  /** The reconstruction yields a selection of the first `i` items that fits capacity `c` and
      whose weight is exactly the table entry. */
  lemma OptChoiceAchieves(foods: seq<FoodItem>, i: nat, c: int)
    requires i <= |foods| && c >= 0
    ensures IsSelection(OptChoice(foods, i, c), i)
    ensures WithinCapacity(foods, OptChoice(foods, i, c), c)
    ensures TotalWeight(Select(foods, OptChoice(foods, i, c))) == OptWeight(foods, i, c)
  {
    OptChoiceCalories(foods, i, c);
    OptChoiceWeight(foods, i, c);
  }

  /** Row `i` is at least row `i - 1`, and at least the weight of taking item `i - 1` when it
      fits: the table keeps the better of the two. */
  lemma RowDominates(foods: seq<FoodItem>, i: nat, c: int)
    requires 0 < i <= |foods|
    ensures OptWeight(foods, i, c) >= OptWeight(foods, i - 1, c)
    ensures foods[i - 1].calories <= c
            ==> OptWeight(foods, i, c) >= OptWeight(foods, i - 1, c - foods[i - 1].calories) + foods[i - 1].weight
  {
    RowStep(foods, i, c);
  }

  /** No selection of the first `i` items that fits capacity `c` weighs more than the table
      entry. Positive calories are what make a fitting selection's last item fit on its own. */
  lemma {:induction false} OptWeightIsUpperBound(foods: seq<FoodItem>, i: nat, c: int, picked: seq<nat>)
    requires ValidCatalog(foods) && i <= |foods|
    requires IsSelection(picked, i)
    requires WithinCapacity(foods, picked, c)
    ensures TotalWeight(Select(foods, picked)) <= OptWeight(foods, i, c)
    decreases i, 1
  {
    if i == 0 {
      assert picked == [];
    } else if picked != [] && picked[|picked| - 1] == i - 1 {
      UpperBoundTakingLast(foods, i, c, picked);
    } else {
      UpperBoundSkippingLast(foods, i, c, picked);
    }
  }

  /** The case of `OptWeightIsUpperBound` where the selection takes item `i - 1`. */
  lemma {:induction false} UpperBoundTakingLast(foods: seq<FoodItem>, i: nat, c: int, picked: seq<nat>)
    requires ValidCatalog(foods) && 0 < i <= |foods|
    requires IsSelection(picked, i) && picked != [] && picked[|picked| - 1] == i - 1
    requires WithinCapacity(foods, picked, c)
    ensures TotalWeight(Select(foods, picked)) <= OptWeight(foods, i, c)
    decreases i, 0
  {
    var item := foods[i - 1];
    var rest := picked[..|picked| - 1];
    assert picked == rest + [i - 1];
    SelectAppend(foods, rest, i - 1);
    var s := Select(foods, rest);
    TotalsAppend(s, item);
    assert ValidCatalog(s) by {
      forall k | 0 <= k < |s| ensures s[k].Valid() {
        assert s[k] == foods[rest[k]];
      }
    }
    TotalCaloriesAtLeastCount(s);
    assert Select(foods, picked) == s + [item];
    assert IsSelection(rest, i - 1);
    OptWeightIsUpperBound(foods, i - 1, c - item.calories, rest);
    RowDominates(foods, i, c);
  }

  /** The case of `OptWeightIsUpperBound` where the selection leaves item `i - 1` out. */
  lemma {:induction false} UpperBoundSkippingLast(foods: seq<FoodItem>, i: nat, c: int, picked: seq<nat>)
    requires ValidCatalog(foods) && 0 < i <= |foods|
    requires IsSelection(picked, i) && (picked == [] || picked[|picked| - 1] != i - 1)
    requires WithinCapacity(foods, picked, c)
    ensures TotalWeight(Select(foods, picked)) <= OptWeight(foods, i, c)
    decreases i, 0
  {
    assert IsSelection(picked, i - 1) by {
      if picked != [] {
        forall k | 0 <= k < |picked| ensures picked[k] < i - 1 {
          if k < |picked| - 1 {
            assert picked[k] < picked[|picked| - 1];
          }
        }
      }
    }
    OptWeightIsUpperBound(foods, i - 1, c, picked);
    RowDominates(foods, i, c);
  }

  /** `dp[n][C]` is the maximum total weight over all selections whose total calories are at
      most `C`: some fitting selection attains it and none exceeds it. */
  lemma OptWeightIsMaximum(foods: seq<FoodItem>, c: int)
    requires ValidCatalog(foods) && c >= 0
    ensures exists picked :: IsSelection(picked, |foods|) && WithinCapacity(foods, picked, c)
                          && TotalWeight(Select(foods, picked)) == OptWeight(foods, |foods|, c)
    ensures forall picked :: IsSelection(picked, |foods|) && WithinCapacity(foods, picked, c)
                          ==> TotalWeight(Select(foods, picked)) <= OptWeight(foods, |foods|, c)
  {
    OptChoiceAchieves(foods, |foods|, c);
    forall picked | IsSelection(picked, |foods|) && WithinCapacity(foods, picked, c)
      ensures TotalWeight(Select(foods, picked)) <= OptWeight(foods, |foods|, c)
    {
      OptWeightIsUpperBound(foods, |foods|, c, picked);
    }
  }

  /** With positive calories and no capacity left, nothing is taken. */
  lemma {:induction false} OptChoiceEmptyWithoutCapacity(foods: seq<FoodItem>, i: nat, c: int)
    requires ValidCatalog(foods) && i <= |foods| && c <= 0
    ensures OptChoice(foods, i, c) == []
    decreases i
  {
    if i > 0 {
      assert foods[i - 1].Valid();
      OptChoiceEmptyWithoutCapacity(foods, i - 1, c);
    }
  }
}
