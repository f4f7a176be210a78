/** `filter_food_vector` of maxweight.hh: the first `total_size` items whose weight lies in
    an inclusive range, in catalog order. */
module Filter {
  import opened Foods

  /** `static_cast<size_t>` of an `int`: reduction modulo 2^64. */
  function AsSizeT(x: int): (r: nat)
    ensures r < 0x1_0000_0000_0000_0000
    ensures 0 <= x < 0x1_0000_0000_0000_0000 ==> r == x
    ensures -0x1_0000_0000_0000_0000 <= x < 0 ==> r == x + 0x1_0000_0000_0000_0000
  {
    x % 0x1_0000_0000_0000_0000
  }

  /** The weight test of the filter: `min_weight <= weight <= max_weight`. */
  predicate InWeightRange(item: FoodItem, minWeight: real, maxWeight: real) {
    item.weight >= minWeight && item.weight <= maxWeight
  }

  /** Every item of `source` that passes the weight test, in source order. */
  function InRange(source: seq<FoodItem>, minWeight: real, maxWeight: real): (r: seq<FoodItem>)
    ensures |r| <= |source|
    ensures forall k :: 0 <= k < |r| ==> InWeightRange(r[k], minWeight, maxWeight)
    ensures forall k :: 0 <= k < |source| && InWeightRange(source[k], minWeight, maxWeight) ==> source[k] in r
    decreases |source|
  {
    if source == [] then []
    else
      var init := source[..|source| - 1];
      var last := source[|source| - 1];
      assert forall k :: 0 <= k < |source| - 1 ==> source[k] == init[k];
      if InWeightRange(last, minWeight, maxWeight) then InRange(init, minWeight, maxWeight) + [last]
      else InRange(init, minWeight, maxWeight)
  }

  /** The positions of the items of `source` that pass the weight test, increasing. */
  function InRangePositions(source: seq<FoodItem>, minWeight: real, maxWeight: real): (r: seq<nat>)
    ensures IsSelection(r, |source|)
    ensures forall j :: 0 <= j < |source| ==> (j in r <==> InWeightRange(source[j], minWeight, maxWeight))
    decreases |source|
  {
    if source == [] then []
    else
      var n := |source| - 1;
      var init := InRangePositions(source[..n], minWeight, maxWeight);
      assert forall j :: 0 <= j < n ==> source[..n][j] == source[j];
      if InWeightRange(source[n], minWeight, maxWeight) then init + [n] else init
  }

  /** The in-range items are exactly the items at the in-range positions: `InRange` is the
      subsequence of `source` made of every item that passes the weight test. */
  lemma {:induction false} InRangeIsSubsequence(source: seq<FoodItem>, minWeight: real, maxWeight: real)
    ensures InRange(source, minWeight, maxWeight) == Select(source, InRangePositions(source, minWeight, maxWeight))
    decreases |source|
  {
    if source != [] {
      var n := |source| - 1;
      var init := source[..n];
      var p := InRangePositions(init, minWeight, maxWeight);
      InRangeIsSubsequence(init, minWeight, maxWeight);
      SelectFromPrefix(source, p, n);
      if InWeightRange(source[n], minWeight, maxWeight) {
        SelectAppend(source, p, n);
      }
    }
  }

  /** Filtering distributes over concatenation. */
  lemma {:induction false} InRangeConcat(a: seq<FoodItem>, b: seq<FoodItem>, minWeight: real, maxWeight: real)
    ensures InRange(a + b, minWeight, maxWeight) == InRange(a, minWeight, maxWeight) + InRange(b, minWeight, maxWeight)
    decreases |b|
  {
    if b == [] {
      assert a + b == a;
    } else {
      var b' := b[..|b| - 1];
      assert (a + b)[..|a + b| - 1] == a + b';
      InRangeConcat(a, b', minWeight, maxWeight);
    }
  }

  /** The in-range items of a prefix of `source` are a prefix of its in-range items. */
  lemma ScannedPartIsPrefix(source: seq<FoodItem>, scanned: nat, minWeight: real, maxWeight: real)
    requires scanned <= |source|
    ensures InRange(source[..scanned], minWeight, maxWeight) <= InRange(source, minWeight, maxWeight)
  {
    assert source[..scanned] + source[scanned..] == source;
    InRangeConcat(source[..scanned], source[scanned..], minWeight, maxWeight);
  }

  /** Every prefix of the in-range items is a subsequence of `source`. */
  lemma PrefixIsSubsequence(source: seq<FoodItem>, count: nat, minWeight: real, maxWeight: real)
    requires count <= |InRange(source, minWeight, maxWeight)|
    ensures exists picked :: IsSelection(picked, |source|)
                          && InRange(source, minWeight, maxWeight)[..count] == Select(source, picked)
  {
    InRangeIsSubsequence(source, minWeight, maxWeight);
    var positions := InRangePositions(source, minWeight, maxWeight);
    var picked := positions[..count];
    assert IsSelection(picked, |source|);
    assert InRange(source, minWeight, maxWeight)[..count] == Select(source, picked);
  }

  /** `filter_food_vector`: scans `source` in order, keeps each item in the weight range and
      stops as soon as the number kept equals `static_cast<size_t>(totalSize)`. The result is
      the first `totalSize` in-range items, or all of them if there are fewer (or if the cast
      gives 0, which the size test never meets). */
  method FilterFoodVector(source: seq<FoodItem>, minWeight: real, maxWeight: real, totalSize: int)
    returns (result: seq<FoodItem>)
    ensures var matches := InRange(source, minWeight, maxWeight);
            var limit := AsSizeT(totalSize);
            result == if limit == 0 || |matches| <= limit then matches else matches[..limit]
    ensures forall k :: 0 <= k < |result| ==> InWeightRange(result[k], minWeight, maxWeight)
    ensures AsSizeT(totalSize) > 0 ==> |result| <= AsSizeT(totalSize)
    ensures exists picked :: IsSelection(picked, |source|) && result == Select(source, picked)
  {
    var limit := AsSizeT(totalSize);
    result := [];
    var i := 0;
    while i < |source|
      invariant 0 <= i <= |source|
      invariant result == InRange(source[..i], minWeight, maxWeight)
      invariant limit == 0 || |result| < limit
    {
      var item := source[i];
      assert source[..i + 1][..i] == source[..i];
      if item.weight >= minWeight && item.weight <= maxWeight {
        result := result + [item];
        if |result| == limit {
          break;
        }
      }
      i := i + 1;
    }
    ghost var scanned := if i < |source| then i + 1 else |source|;
    assert i < |source| ==> |result| == limit;
    assert result == InRange(source[..scanned], minWeight, maxWeight);
    ScannedPartIsPrefix(source, scanned, minWeight, maxWeight);
    assert source[..|source|] == source;
    PrefixIsSubsequence(source, |result|, minWeight, maxWeight);
  }
}
