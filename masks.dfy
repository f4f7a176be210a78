/** Subsets of the first `n` catalog positions as binary masks, the enumeration device of
    `exhaustive_max_weight` (maxweight.hh): the test `mask & (1 << j)`, the subset a mask
    encodes, and the proof that masks `0 .. 2^n - 1` encode every selection exactly once. */
module Masks {
  import opened Foods

  /** `1 << k` without overflow. */
  function Pow2(k: nat): (r: nat)
    ensures r >= 1
  {
    if k == 0 then 1 else 2 * Pow2(k - 1)
  }

  /** Bit `j` of `mask` is set: the test `mask & (1 << j)`. */
  function BitSet(mask: nat, j: nat): bool {
    if j == 0 then mask % 2 == 1 else BitSet(mask / 2, j - 1)
  }

  /** Multiplying by the same factor keeps the order. */
  lemma {:induction false} MulMonotone(x: nat, y: nat, d: nat)
    requires x <= y
    ensures x * d <= y * d
    decreases y - x
  {
    if x < y {
      MulMonotone(x, y - 1, d);
      assert y * d == (y - 1) * d + d;
    }
  }

  /** A quotient and remainder that satisfy the division equation are the quotient. */
  lemma DivisionUnique(a: nat, d: nat, q: nat, r: nat)
    requires d > 0 && r < d && a == q * d + r
    ensures a / d == q
  {
    var q0 := a / d;
    assert a == q0 * d + a % d;
    assert (q0 + 1) * d == q0 * d + d && (q + 1) * d == q * d + d;
    if q0 < q {
      MulMonotone(q0 + 1, q, d);
    } else if q < q0 {
      MulMonotone(q + 1, q0, d);
    }
  }

  /** Dividing by 2 and then by `2^k` is dividing by `2^(k + 1)`. */
  lemma HalfThenPow2(mask: nat, k: nat)
    ensures mask / 2 / Pow2(k) == mask / Pow2(k + 1)
  {
    var p := Pow2(k);
    var q, r := mask / 2, mask % 2;
    var q', r' := q / p, q % p;
    assert mask == 2 * q + r;
    assert q == q' * p + r';
    assert 2 * (q' * p) == q' * (2 * p);
    DivisionUnique(mask, 2 * p, q', 2 * r' + r);
  }

  /** `BitSet` is the C test `mask & (1 << j)`: bit `j` of the binary expansion of `mask`. */
  lemma {:induction false} BitSetIsBinaryDigit(mask: nat, j: nat)
    ensures BitSet(mask, j) <==> (mask / Pow2(j)) % 2 == 1
    decreases j
  {
    if j > 0 {
      BitSetIsBinaryDigit(mask / 2, j - 1);
      HalfThenPow2(mask, j - 1);
    }
  }

  /** The positions `j < n` whose bit is set in `mask`, in increasing order: the subset the
      inner loop of the enumeration assembles. */
  function MaskSubset(mask: nat, n: nat): (r: seq<nat>)
    ensures IsSelection(r, n)
    ensures forall j :: 0 <= j < n ==> (j in r <==> BitSet(mask, j))
  {
    if n == 0 then []
    else MaskSubset(mask, n - 1) + (if BitSet(mask, n - 1) then [n - 1] else [])
  }

  /** The mask whose bit `j - lo` is set exactly for the positions `lo <= j < n` in `picked`. */
  function MaskOf(picked: seq<nat>, lo: nat, n: nat): (r: nat)
    requires lo <= n
    ensures r < Pow2(n - lo)
    decreases n - lo
  {
    if lo == n then 0
    else (if lo in picked then 1 else 0) + 2 * MaskOf(picked, lo + 1, n)
  }

  /** The bits of `MaskOf` are the members of `picked`. */
  lemma {:induction false} MaskOfBits(picked: seq<nat>, lo: nat, n: nat, j: nat)
    requires lo <= j < n
    ensures BitSet(MaskOf(picked, lo, n), j - lo) <==> j in picked
    decreases j - lo
  {
    if j > lo {
      MaskOfBits(picked, lo + 1, n, j);
    }
  }

  /** A mask below `2^(n - lo)` whose bits are the members of `picked` is `MaskOf(picked)`. */
  lemma {:induction false} MaskOfUnique(picked: seq<nat>, lo: nat, n: nat, mask: nat)
    requires lo <= n && mask < Pow2(n - lo)
    requires forall j :: lo <= j < n ==> (j in picked <==> BitSet(mask, j - lo))
    ensures MaskOf(picked, lo, n) == mask
    decreases n - lo
  {
    if lo < n {
      assert lo in picked <==> BitSet(mask, 0);
      forall j | lo + 1 <= j < n
        ensures j in picked <==> BitSet(mask / 2, j - (lo + 1))
      {
        assert BitSet(mask, j - lo) == BitSet(mask / 2, j - lo - 1);
      }
      MaskOfUnique(picked, lo + 1, n, mask / 2);
    }
  }

  /** Two selections with the same members are equal. */
  lemma {:induction false} SameMembersSameSelection(p: seq<nat>, q: seq<nat>, n: nat)
    requires IsSelection(p, n) && IsSelection(q, n)
    requires forall j :: 0 <= j < n ==> (j in p <==> j in q)
    ensures p == q
    decreases n
  {
    if n > 0 {
      if n - 1 in p {
        LastIsMaximum(p, n);
        LastIsMaximum(q, n);
        var p', q' := p[..|p| - 1], q[..|q| - 1];
        forall j | 0 <= j < n - 1 ensures j in p' <==> j in q' {
          assert j in p <==> j in q;
        }
        SameMembersSameSelection(p', q', n - 1);
        assert p == p' + [n - 1] && q == q' + [n - 1];
      } else {
        NotLastBelow(p, n);
        NotLastBelow(q, n);
        SameMembersSameSelection(p, q, n - 1);
      }
    }
  }

  /** If `n - 1` belongs to a selection of `n` positions, it is its last element, and the rest
      is a selection of `n - 1` positions. */
  lemma LastIsMaximum(p: seq<nat>, n: nat)
    requires n > 0 && IsSelection(p, n) && n - 1 in p
    ensures p != [] && p[|p| - 1] == n - 1 && IsSelection(p[..|p| - 1], n - 1)
    ensures forall j :: 0 <= j < n - 1 ==> (j in p <==> j in p[..|p| - 1])
  {
    var t :| 0 <= t < |p| && p[t] == n - 1;
    assert p[t] <= p[|p| - 1] < n;
    assert p == p[..|p| - 1] + [n - 1];
  }

  /** A selection of `n` positions that leaves out `n - 1` is a selection of `n - 1` positions. */
  lemma NotLastBelow(p: seq<nat>, n: nat)
    requires n > 0 && IsSelection(p, n) && n - 1 !in p
    ensures IsSelection(p, n - 1)
  {
    forall k | 0 <= k < |p| ensures p[k] < n - 1 {
      assert p[k] != n - 1;
    }
  }

  /** Every selection of `n` positions is the subset of some mask below `2^n`, namely its
      `MaskOf`: the enumeration of all masks visits every selection. */
  lemma EverySelectionEnumerated(picked: seq<nat>, n: nat)
    requires IsSelection(picked, n)
    ensures MaskOf(picked, 0, n) < Pow2(n)
    ensures MaskSubset(MaskOf(picked, 0, n), n) == picked
  {
    var mask := MaskOf(picked, 0, n);
    forall j | 0 <= j < n ensures j in MaskSubset(mask, n) <==> j in picked {
      MaskOfBits(picked, 0, n, j);
    }
    SameMembersSameSelection(MaskSubset(mask, n), picked, n);
  }

  /** Every mask below `2^n` is the `MaskOf` of its subset: distinct masks give distinct
      subsets. */
  lemma MaskRoundTrip(mask: nat, n: nat)
    requires mask < Pow2(n)
    ensures MaskOf(MaskSubset(mask, n), 0, n) == mask
  {
    MaskOfUnique(MaskSubset(mask, n), 0, n, mask);
  }
}
