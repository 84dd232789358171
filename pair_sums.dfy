/**
 * Sums over the unique pairs of a configuration, for an arbitrary pair term
 * `w`, in the order of the double loop of simulation/energy.py (ascending
 * first index, then ascending second index), and the single-particle change
 * summed as in simulation/monte_carlo.py.  The main result is that this change
 * is the difference of two totals whenever `w` is symmetric.
 */
module PairSums {
  /** Sum of `w(p[a], p[b])` over `a < b < hi`, in ascending `b`. */
  ghost function RowSum<T>(p: seq<T>, a: nat, hi: nat, w: (T, T) -> real): real
    requires a < |p| && hi <= |p|
    decreases hi
  {
    if hi <= a + 1 then 0.0 else RowSum(p, a, hi - 1, w) + w(p[a], p[hi - 1])
  }

  /** Sum of the rows `a < k`: every pair whose first index is below `k`. */
  ghost function Prefix<T>(p: seq<T>, k: nat, w: (T, T) -> real): real
    requires k <= |p|
  {
    if k == 0 then 0.0 else Prefix(p, k - 1, w) + RowSum(p, k - 1, |p|, w)
  }

  /** Sum of `w(p[a], p[b])` over all pairs `a < b`. */
  ghost function Total<T>(p: seq<T>, w: (T, T) -> real): real
  {
    Prefix(p, |p|, w)
  }

  /**
   * Sum over `j < hi`, `j != i`, of `w(q, p[j]) - w(p[i], p[j])`: the change
   * when element `i` is replaced by `q`, accumulated in ascending `j`.
   */
  ghost function Delta<T>(p: seq<T>, i: nat, q: T, hi: nat, w: (T, T) -> real): real
    requires i < |p| && hi <= |p|
  {
    if hi == 0 then 0.0
    else Delta(p, i, q, hi - 1, w) + (if hi - 1 == i then 0.0 else w(q, p[hi - 1]) - w(p[i], p[hi - 1]))
  }

  /** `w` is symmetric on every pair that the replacement of `p[i]` by `q` involves. */
  ghost predicate SymmetricAround<T>(p: seq<T>, i: nat, q: T, w: (T, T) -> real)
    requires i < |p|
  {
    forall j :: 0 <= j < |p| ==> w(p[j], q) == w(q, p[j]) && w(p[j], p[i]) == w(p[i], p[j])
  }

  /** A row that does not start at `i` changes only in its term for `b == i`. */
  lemma {:induction false} RowSumOther<T>(p: seq<T>, i: nat, q: T, a: nat, hi: nat, w: (T, T) -> real)
    requires a < |p| && i < |p| && hi <= |p| && a != i
    ensures RowSum(p[i := q], a, hi, w)
         == RowSum(p, a, hi, w) + (if a < i < hi then w(p[a], q) - w(p[a], p[i]) else 0.0)
    decreases hi
  {
    if hi > a + 1 {
      RowSumOther(p, i, q, a, hi - 1, w);
    }
  }

  /** The part of `Delta` above `i` is the change of row `i`. */
  lemma {:induction false} RowSumMoved<T>(p: seq<T>, i: nat, q: T, hi: nat, w: (T, T) -> real)
    requires i < hi <= |p|
    ensures Delta(p, i, q, hi, w) == Delta(p, i, q, i, w) + RowSum(p[i := q], i, hi, w) - RowSum(p, i, hi, w)
    decreases hi
  {
    if hi > i + 1 {
      RowSumMoved(p, i, q, hi - 1, w);
    }
  }

  /** Replacing `p[i]` changes the first `k` rows by the matching part of `Delta`. */
  lemma {:induction false} PrefixMoved<T>(p: seq<T>, i: nat, q: T, k: nat, w: (T, T) -> real)
    requires i < |p| && k <= |p|
    requires SymmetricAround(p, i, q, w)
    ensures Prefix(p[i := q], k, w) - Prefix(p, k, w) == Delta(p, i, q, if k <= i then k else |p|, w)
  {
    if k > 0 {
      var a := k - 1;
      PrefixMoved(p, i, q, a, w);
      if a < i {
        RowSumOther(p, i, q, a, |p|, w);
        assert w(p[a], q) == w(q, p[a]) && w(p[a], p[i]) == w(p[i], p[a]);
      } else if a == i {
        RowSumMoved(p, i, q, |p|, w);
      } else {
        RowSumOther(p, i, q, a, |p|, w);
      }
    }
  }

  /** The single-particle change is the difference of the totals before and after the replacement. */
  lemma DeltaIsTotalChange<T>(p: seq<T>, i: nat, q: T, w: (T, T) -> real)
    requires i < |p|
    requires SymmetricAround(p, i, q, w)
    ensures Delta(p, i, q, |p|, w) == Total(p[i := q], w) - Total(p, w)
  {
    PrefixMoved(p, i, q, |p|, w);
  }

  /** With every term zero, every row and so the total is zero. */
  lemma {:induction false} TotalOfZeroTerms<T>(p: seq<T>, w: (T, T) -> real)
    requires forall a, b :: 0 <= a < b < |p| ==> w(p[a], p[b]) == 0.0
    ensures Total(p, w) == 0.0
  {
    PrefixOfZeroTerms(p, |p|, w);
  }

  lemma {:induction false} PrefixOfZeroTerms<T>(p: seq<T>, k: nat, w: (T, T) -> real)
    requires k <= |p|
    requires forall a, b :: 0 <= a < b < |p| ==> w(p[a], p[b]) == 0.0
    ensures Prefix(p, k, w) == 0.0
  {
    if k > 0 {
      PrefixOfZeroTerms(p, k - 1, w);
      RowOfZeroTerms(p, k - 1, |p|, w);
    }
  }

  lemma {:induction false} RowOfZeroTerms<T>(p: seq<T>, a: nat, hi: nat, w: (T, T) -> real)
    requires a < |p| && hi <= |p|
    requires forall a, b :: 0 <= a < b < |p| ==> w(p[a], p[b]) == 0.0
    ensures RowSum(p, a, hi, w) == 0.0
    decreases hi
  {
    if hi > a + 1 {
      RowOfZeroTerms(p, a, hi - 1, w);
    }
  }

  /** Fewer than two elements have no pair. */
  lemma TotalOfFew<T>(p: seq<T>, w: (T, T) -> real)
    requires |p| < 2
    ensures Total(p, w) == 0.0
  {
    if |p| == 1 {
      assert Prefix(p, 1, w) == Prefix(p, 0, w) + RowSum(p, 0, 1, w);
    }
  }

  /** `ok` holds of `(p[a], p[b])` for every `a < b < hi`: row `a` is clear up to `hi`. */
  ghost predicate RowAll<T>(p: seq<T>, a: nat, hi: nat, ok: (T, T) -> bool)
    requires a < |p| && hi <= |p|
    decreases hi
  {
    hi <= a + 1 || (RowAll(p, a, hi - 1, ok) && ok(p[a], p[hi - 1]))
  }

  /** The rows `a < k` are clear. */
  ghost predicate PrefixAll<T>(p: seq<T>, k: nat, ok: (T, T) -> bool)
    requires k <= |p|
  {
    k == 0 || (PrefixAll(p, k - 1, ok) && RowAll(p, k - 1, |p|, ok))
  }

  /** `ok` holds of `(q, p[j])` and of `(p[i], p[j])` for every `j < hi`, `j != i`. */
  ghost predicate DeltaAll<T>(p: seq<T>, i: nat, q: T, hi: nat, ok: (T, T) -> bool)
    requires i < |p| && hi <= |p|
  {
    hi == 0 || (DeltaAll(p, i, q, hi - 1, ok) && (hi - 1 == i || (ok(q, p[hi - 1]) && ok(p[i], p[hi - 1]))))
  }

  lemma {:induction false} RowAllMeans<T>(p: seq<T>, a: nat, hi: nat, ok: (T, T) -> bool)
    requires a < |p| && hi <= |p|
    ensures RowAll(p, a, hi, ok) <==> forall b :: a < b < hi ==> ok(p[a], p[b])
    decreases hi
  {
    if hi > a + 1 {
      RowAllMeans(p, a, hi - 1, ok);
    }
  }

  lemma {:induction false} PrefixAllMeans<T>(p: seq<T>, k: nat, ok: (T, T) -> bool)
    requires k <= |p|
    ensures PrefixAll(p, k, ok) <==> forall a, b :: 0 <= a < k && a < b < |p| ==> ok(p[a], p[b])
  {
    if k > 0 {
      PrefixAllMeans(p, k - 1, ok);
      RowAllMeans(p, k - 1, |p|, ok);
    }
  }

  lemma {:induction false} DeltaAllMeans<T>(p: seq<T>, i: nat, q: T, hi: nat, ok: (T, T) -> bool)
    requires i < |p| && hi <= |p|
    ensures DeltaAll(p, i, q, hi, ok) <==> forall j :: 0 <= j < hi && j != i ==> ok(q, p[j]) && ok(p[i], p[j])
  {
    if hi > 0 {
      DeltaAllMeans(p, i, q, hi - 1, ok);
    }
  }
}
