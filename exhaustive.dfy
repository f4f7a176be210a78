/** `exhaustive_max_weight` of maxweight.hh: enumerate the masks `0 .. 2^n - 1`, assemble
    each mask's subset in increasing position order, and keep the first subset within the
    budget that is strictly heavier than the best so far (the empty subset, weight 0, to
    begin with). */
module Exhaustive {
  import opened Foods
  import opened Masks

  /** The subset that `mask` encodes fits the budget. */
  predicate MaskFits(foods: seq<FoodItem>, mask: nat, budget: real) {
    WithinBudget(foods, MaskSubset(mask, |foods|), budget)
  }

  /** The total weight of the subset that `mask` encodes. */
  function MaskWeight(foods: seq<FoodItem>, mask: nat): real {
    TotalWeight(Select(foods, MaskSubset(mask, |foods|)))
  }

  /** A bound on the weight of every mask below `2^n` that fits the budget bounds the weight
      of every selection that fits it. */
  lemma EnumerationCoversSelections(foods: seq<FoodItem>, budget: real, bound: real)
    requires forall m :: 0 <= m < Pow2(|foods|) && MaskFits(foods, m, budget) ==> MaskWeight(foods, m) <= bound
    ensures forall p :: IsSelection(p, |foods|) && WithinBudget(foods, p, budget)
                     ==> TotalWeight(Select(foods, p)) <= bound
  {
    forall p | IsSelection(p, |foods|) && WithinBudget(foods, p, budget)
      ensures TotalWeight(Select(foods, p)) <= bound
    {
      EverySelectionEnumerated(p, |foods|);
      assert MaskFits(foods, MaskOf(p, 0, |foods|), budget);
    }
  }

  /** What the exhaustive search guarantees of its selection `picked`: a selection in
      increasing position order; when not empty, it fits the budget and weighs more than 0; no
      selection that fits the budget weighs more; it is empty exactly when no selection that
      fits the budget has positive weight; and no mask enumerated before its own reaches its
      weight within the budget, so among equally heavy subsets the first mask wins. */
  ghost predicate IsFirstBest(foods: seq<FoodItem>, budget: real, picked: seq<nat>) {
    && IsSelection(picked, |foods|)
    && (picked != [] ==> WithinBudget(foods, picked, budget) && TotalWeight(Select(foods, picked)) > 0.0)
    && (forall p :: IsSelection(p, |foods|) && WithinBudget(foods, p, budget)
                 ==> TotalWeight(Select(foods, p)) <= TotalWeight(Select(foods, picked)))
    && (picked == [] <==> forall p :: IsSelection(p, |foods|) && WithinBudget(foods, p, budget)
                                   ==> TotalWeight(Select(foods, p)) <= 0.0)
    && (picked != [] ==> forall m :: 0 <= m < MaskOf(picked, 0, |foods|)
                                   ==> !(MaskFits(foods, m, budget) && MaskWeight(foods, m) >= TotalWeight(Select(foods, picked))))
  }

  /** What the enumeration has established when it ends, restated about selections: `picked`,
      the subset of `bestMask`, is heavier than every fitting mask before `bestMask` and at least
      as heavy as every fitting mask at all. */
  lemma BestOfEnumeration(foods: seq<FoodItem>, budget: real, picked: seq<nat>, bestMask: nat)
    requires IsSelection(picked, |foods|)
    requires picked == [] ==> bestMask == 0
    requires picked != [] ==> bestMask < Pow2(|foods|) && picked == MaskSubset(bestMask, |foods|)
                              && WithinBudget(foods, picked, budget) && TotalWeight(Select(foods, picked)) > 0.0
    requires forall m :: 0 <= m < Pow2(|foods|) && MaskFits(foods, m, budget)
                      ==> MaskWeight(foods, m) <= TotalWeight(Select(foods, picked))
    requires forall m :: 0 <= m < bestMask && MaskFits(foods, m, budget)
                      ==> MaskWeight(foods, m) < TotalWeight(Select(foods, picked))
    ensures IsFirstBest(foods, budget, picked)
  {
    EnumerationCoversSelections(foods, budget, TotalWeight(Select(foods, picked)));
    if picked != [] {
      MaskRoundTrip(bestMask, |foods|);
    }
  }

  /** One step of the inner loop: position `j` joins the subset exactly when its bit is set,
      and then its item joins the items and the totals. */
  lemma AssembleStep(foods: seq<FoodItem>, mask: nat, j: nat)
    requires j < |foods|
    ensures MaskSubset(mask, j + 1) == MaskSubset(mask, j) + (if BitSet(mask, j) then [j] else [])
    ensures var s := Select(foods, MaskSubset(mask, j));
            var s' := Select(foods, MaskSubset(mask, j + 1));
            && s' == (if BitSet(mask, j) then s + [foods[j]] else s)
            && TotalWeight(s') == TotalWeight(s) + (if BitSet(mask, j) then foods[j].weight else 0.0)
            && TotalCalories(s') == TotalCalories(s) + (if BitSet(mask, j) then foods[j].calories else 0)
  {
    assert MaskSubset(mask, j + 1) == MaskSubset(mask, j) + (if BitSet(mask, j) then [j] else []);
    SelectAppend(foods, MaskSubset(mask, j), j);
    TotalsAppend(Select(foods, MaskSubset(mask, j)), foods[j]);
  }

  /** The inner loop: the items whose bit is set in `mask`, with their running weight and
      calories. */
  method AssembleSubset(foods: seq<FoodItem>, mask: nat)
    returns (subset: seq<FoodItem>, positions: seq<nat>, weight: real, calories: int)
    ensures positions == MaskSubset(mask, |foods|)
    ensures subset == Select(foods, positions)
    ensures weight == TotalWeight(subset) && calories == TotalCalories(subset)
  {
    subset, positions := [], [];
    weight, calories := 0.0, 0;
    for j := 0 to |foods|
      invariant positions == MaskSubset(mask, j)
      invariant subset == Select(foods, MaskSubset(mask, j))
      invariant weight == TotalWeight(subset) && calories == TotalCalories(subset)
    {
      AssembleStep(foods, mask, j);
      if BitSet(mask, j) {
        subset := subset + [foods[j]];
        positions := positions + [j];
        weight := weight + foods[j].weight;
        calories := calories + foods[j].calories;
      }
    }
  }

  /** The loop over the masks of `exhaustive_max_weight`, keeping the first fitting subset
      strictly heavier than the best so far; `bestMask` is the mask of the subset kept. */
  method Enumerate(foods: seq<FoodItem>, budget: real)
    returns (result: seq<FoodItem>, picked: seq<nat>, ghost bestMask: nat)
    requires |foods| < 64
    ensures IsSelection(picked, |foods|) && result == Select(foods, picked)
    ensures picked == [] ==> bestMask == 0
    ensures picked != [] ==> bestMask < Pow2(|foods|) && picked == MaskSubset(bestMask, |foods|)
                             && WithinBudget(foods, picked, budget) && TotalWeight(result) > 0.0
    ensures forall m :: 0 <= m < Pow2(|foods|) && MaskFits(foods, m, budget) ==> MaskWeight(foods, m) <= TotalWeight(result)
    ensures forall m :: 0 <= m < bestMask && MaskFits(foods, m, budget) ==> MaskWeight(foods, m) < TotalWeight(result)
  {
    var n := |foods|;
    result, picked := [], [];
    var bestWeight := 0.0;
    bestMask := 0;
    var subsetCount := Pow2(n);
    var i := 0;
    while i < subsetCount
      invariant 0 <= i <= subsetCount
      invariant IsSelection(picked, n) && result == Select(foods, picked)
      invariant bestWeight == TotalWeight(result)
      invariant picked == [] ==> bestWeight == 0.0 && bestMask == 0
      invariant picked != [] ==> bestMask < i && picked == MaskSubset(bestMask, n)
                                 && TotalCalories(result) as real <= budget && bestWeight > 0.0
      invariant forall m :: 0 <= m < i && MaskFits(foods, m, budget) ==> MaskWeight(foods, m) <= bestWeight
      invariant forall m :: 0 <= m < bestMask && MaskFits(foods, m, budget) ==> MaskWeight(foods, m) < bestWeight
    {
      var current, currentPicked, currentWeight, currentCalories := AssembleSubset(foods, i);
      assert MaskFits(foods, i, budget) <==> currentCalories as real <= budget;
      assert MaskWeight(foods, i) == currentWeight;
      if currentCalories as real <= budget && currentWeight > bestWeight {
        bestWeight := currentWeight;
        result, picked := current, currentPicked;
        bestMask := i;
      }
      i := i + 1;
    }
  }

  /** `exhaustive_max_weight`. The result lists the chosen items in increasing position
      order and has the properties `IsFirstBest` collects. */
  method ExhaustiveMaxWeight(foods: seq<FoodItem>, budget: real) returns (result: seq<FoodItem>, picked: seq<nat>)
    requires |foods| < 64
    ensures IsFirstBest(foods, budget, picked)
    ensures result == Select(foods, picked)
  {
    ghost var bestMask;
    result, picked, bestMask := Enumerate(foods, budget);
    BestOfEnumeration(foods, budget, picked, bestMask);
  }

  /** The mask of a first-best selection is enumerated, fits the budget and has the
      selection's weight. */
  lemma FirstBestMask(foods: seq<FoodItem>, budget: real, p: seq<nat>)
    requires IsFirstBest(foods, budget, p) && p != []
    ensures MaskOf(p, 0, |foods|) < Pow2(|foods|)
    ensures MaskSubset(MaskOf(p, 0, |foods|), |foods|) == p
    ensures MaskFits(foods, MaskOf(p, 0, |foods|), budget)
    ensures MaskWeight(foods, MaskOf(p, 0, |foods|)) == TotalWeight(Select(foods, p))
  {
    EverySelectionEnumerated(p, |foods|);
  }

  /** At most one mask is the first to reach a weight within the budget. */
  lemma EarliestMaskUnique(foods: seq<FoodItem>, budget: real, w: real, mp: nat, mq: nat)
    requires MaskFits(foods, mp, budget) && MaskWeight(foods, mp) >= w
    requires MaskFits(foods, mq, budget) && MaskWeight(foods, mq) >= w
    requires forall m :: 0 <= m < mp ==> !(MaskFits(foods, m, budget) && MaskWeight(foods, m) >= w)
    requires forall m :: 0 <= m < mq ==> !(MaskFits(foods, m, budget) && MaskWeight(foods, m) >= w)
    ensures mp == mq
  {
  }

  /** Two first-best selections that are both non-empty have the same mask, so they are
      equal. */
  lemma SameFirstBestMask(foods: seq<FoodItem>, budget: real, p: seq<nat>, q: seq<nat>)
    requires IsFirstBest(foods, budget, p) && IsFirstBest(foods, budget, q)
    requires p != [] && q != []
    ensures p == q
  {
    FirstBestMask(foods, budget, p);
    FirstBestMask(foods, budget, q);
    var w := TotalWeight(Select(foods, p));
    assert w == TotalWeight(Select(foods, q));
    EarliestMaskUnique(foods, budget, w, MaskOf(p, 0, |foods|), MaskOf(q, 0, |foods|));
  }

  /** The properties above determine the result: running the search twice on the same
      catalog and budget gives the same selection. */
  lemma FirstBestIsUnique(foods: seq<FoodItem>, budget: real, p: seq<nat>, q: seq<nat>)
    requires IsFirstBest(foods, budget, p) && IsFirstBest(foods, budget, q)
    ensures p == q
  {
    if p != [] && q != [] {
      SameFirstBestMask(foods, budget, p, q);
    }
  }
}
