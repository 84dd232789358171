/**
 * `initialize_positions_no_overlap(N, L, min_dist)` (simulation/setup.py):
 * draw uniform trial points in the box and keep each one that lies farther
 * than `min_dist` (minimum-image distance) from every point kept so far,
 * until `N` points are kept.  The stream of `np.random.rand(3)` draws is a
 * finite sequence here, so the loop also stops when the draws run out.
 */
module Setup {
  import opened Vector3
  import opened Boundary
  import Energy

  /**
   * `np.linalg.norm(NearestImg(a - b, L)) > min_dist`, stated on the squared
   * distance: a norm is never negative, so a negative `min_dist` admits every
   * pair (see `FarIsNormAbove`).  The test does not depend on the order of
   * the two points.
   */
  predicate Far(a: Vec3, b: Vec3, box: real, minDist: real): (r: bool)
    requires box != 0.0
    ensures r == (minDist < 0.0 || Dist2(b, a, box) > minDist * minDist)
  {
    Dist2Symmetric(a, b, box);
    minDist < 0.0 || Dist2(a, b, box) > minDist * minDist
  }

  /** `Far` is the source's test on the norm `r`, the non-negative root of the squared distance. */
  lemma FarIsNormAbove(a: Vec3, b: Vec3, box: real, minDist: real, r: real)
    requires box != 0.0 && r >= 0.0 && r * r == Dist2(a, b, box)
    ensures Far(a, b, box, minDist) <==> r > minDist
  {
    if minDist >= 0.0 {
      if r > minDist {
        SquareLess(minDist, r);
      } else {
        SquareLeq(r, minDist);
      }
    }
  }

  lemma SquareLess(s: real, t: real)
    requires 0.0 <= s < t
    ensures s * s < t * t
  {
    MulLess(t - s, 0.0, t + s);
    assert (t - s) * (t + s) == t * t - s * s;
  }

  lemma SquareLeq(s: real, t: real)
    requires 0.0 <= s <= t
    ensures s * s <= t * t
  {
    if s < t {
      SquareLess(s, t);
    }
  }

  /** The trial point `np.random.rand(3) * L`: uniforms in [0, 1) scaled by a positive `L` give a point of the box. */
  function TrialPoint(u: Vec3, box: real): (r: Vec3)
    ensures box > 0.0 && InBox(u, 1.0) ==> InBox(r, box)
  {
    Vec3(Coordinate(u.x, box), Coordinate(u.y, box), Coordinate(u.z, box))
  }

  /** One axis of the trial point, `u * L`. */
  function Coordinate(u: real, box: real): (r: real)
    ensures box > 0.0 && 0.0 <= u < 1.0 ==> 0.0 <= r < box
  {
    if box > 0.0 && 0.0 <= u < 1.0 then
      MulLeq(box, 0.0, u);
      MulLess(box, u, 1.0);
      u * box
    else u * box
  }

  /**
   * The `all(...)` test: `trial` is far from every point kept so far.  At a
   * non-negative `min_dist` an admitted trial point lies on none of them.
   */
  predicate Admits(placed: seq<Vec3>, trial: Vec3, box: real, minDist: real): (r: bool)
    requires box != 0.0
    ensures r && minDist >= 0.0 ==> forall k :: 0 <= k < |placed| ==> Dist2(placed[k], trial, box) > 0.0
  {
    SquareFacts(minDist);
    forall k :: 0 <= k < |placed| ==> Far(trial, placed[k], box, minDist)
  }

  /**
   * The points the loop keeps, continuing from `placed`: each draw in turn
   * becomes a trial point, appended when admitted, until `n` points are kept
   * or the draws are used up.  The points kept before stay, in place, at the
   * front, and no more than `n` points are kept unless there were already more.
   */
  function Place(placed: seq<Vec3>, draws: seq<Vec3>, n: int, box: real, minDist: real): (r: seq<Vec3>)
    requires box != 0.0
    ensures |placed| <= |r| && r[..|placed|] == placed
    ensures |placed| <= n ==> |r| <= n
    ensures |placed| > n ==> r == placed
    decreases |draws|
  {
    if |placed| >= n || |draws| == 0 then placed
    else
      var trial := TrialPoint(draws[0], box);
      Place(if Admits(placed, trial, box, minDist) then placed + [trial] else placed, draws[1..], n, box, minDist)
  }

  /** Every two distinct kept points are far apart. */
  predicate Separated(p: seq<Vec3>, box: real, minDist: real)
    requires box != 0.0
  {
    forall a, b :: 0 <= a < |p| && 0 <= b < |p| && a != b ==> Far(p[a], p[b], box, minDist)
  }

  /** `a` occurs in `b` in order, not necessarily contiguously. */
  predicate IsSubsequence(a: seq<Vec3>, b: seq<Vec3>)
    decreases |b|
  {
    |a| == 0 || (|b| > 0 && if a[0] == b[0] then IsSubsequence(a[1..], b[1..]) else IsSubsequence(a, b[1..]))
  }

  /** The trial points of a sequence of draws, in order. */
  function Trials(draws: seq<Vec3>, box: real): (t: seq<Vec3>)
    ensures |t| == |draws|
    ensures forall k :: 0 <= k < |draws| ==> t[k] == TrialPoint(draws[k], box)
    decreases |draws|
  {
    if |draws| == 0 then [] else [TrialPoint(draws[0], box)] + Trials(draws[1..], box)
  }

  /** Appending a point admitted by a separated sequence keeps it separated. */
  lemma AppendSeparated(placed: seq<Vec3>, trial: Vec3, box: real, minDist: real)
    requires box != 0.0 && Separated(placed, box, minDist) && Admits(placed, trial, box, minDist)
    ensures Separated(placed + [trial], box, minDist)
  {
    var p := placed + [trial];
    forall a, b | 0 <= a < |p| && 0 <= b < |p| && a != b
      ensures Far(p[a], p[b], box, minDist)
    {
      if a == |placed| {
        assert Far(trial, placed[b], box, minDist);
      } else if b == |placed| {
        assert Far(trial, placed[a], box, minDist);
        Dist2Symmetric(trial, placed[a], box);
      } else {
        assert Far(placed[a], placed[b], box, minDist);
      }
    }
  }

  /**
   * What the loop promises beyond `Place`'s own contract: separation is
   * preserved, and the new points are trial points of the draws, taken in
   * draw order.
   */
  lemma {:induction false} PlaceFacts(placed: seq<Vec3>, draws: seq<Vec3>, n: int, box: real, minDist: real)
    requires box != 0.0
    ensures Separated(placed, box, minDist) ==> Separated(Place(placed, draws, n, box, minDist), box, minDist)
    ensures IsSubsequence(Place(placed, draws, n, box, minDist)[|placed|..], Trials(draws, box))
    decreases |draws|
  {
    var r := Place(placed, draws, n, box, minDist);
    if |placed| >= n || |draws| == 0 {
      assert r[|placed|..] == [];
    } else {
      var trial := TrialPoint(draws[0], box);
      var t := Trials(draws, box);
      assert t[0] == trial && t[1..] == Trials(draws[1..], box);
      if Admits(placed, trial, box, minDist) {
        var next := placed + [trial];
        PlaceFacts(next, draws[1..], n, box, minDist);
        assert r[..|next|][..|placed|] == r[..|placed|];
        assert r[|placed|..][0] == trial;
        assert r[|placed|..][1..] == r[|next|..];
        if Separated(placed, box, minDist) {
          AppendSeparated(placed, trial, box, minDist);
        }
      } else {
        PlaceFacts(placed, draws[1..], n, box, minDist);
        SubsequenceOfTail(r[|placed|..], t);
      }
    }
  }

  /** A subsequence of the tail of `b` is a subsequence of `b`. */
  lemma {:induction false} SubsequenceOfTail(a: seq<Vec3>, b: seq<Vec3>)
    requires |b| > 0 && IsSubsequence(a, b[1..])
    ensures IsSubsequence(a, b)
    decreases |b|, 0
  {
    if |a| > 0 && a[0] == b[0] {
      assert IsSubsequence(a[1..], b[1..]) by { SubsequenceDrop(a, b[1..]); }
    }
  }

  /** Dropping the first element of a non-empty subsequence keeps it a subsequence. */
  lemma {:induction false} SubsequenceDrop(a: seq<Vec3>, b: seq<Vec3>)
    requires |a| > 0 && IsSubsequence(a, b)
    ensures IsSubsequence(a[1..], b)
    decreases |b|, 1
  {
    if a[0] != b[0] {
      SubsequenceDrop(a, b[1..]);
    }
    SubsequenceOfTail(a[1..], b);
  }

  /** The first trial point is always kept: nothing has been placed to overlap with. */
  lemma FirstTrialKept(draws: seq<Vec3>, n: int, box: real, minDist: real)
    requires box != 0.0 && n >= 1 && |draws| >= 1
    ensures |Place([], draws, n, box, minDist)| >= 1
    ensures Place([], draws, n, box, minDist)[0] == TrialPoint(draws[0], box)
  {
    var none: seq<Vec3> := [];
    var trial := TrialPoint(draws[0], box);
    assert Admits(none, trial, box, minDist);
    assert none + [trial] == [trial];
    assert Place(none, draws, n, box, minDist) == Place(none + [trial], draws[1..], n, box, minDist);
    PlaceFacts([trial], draws[1..], n, box, minDist);
    assert Place([trial], draws[1..], n, box, minDist)[..1] == [trial];
  }

  /** Draws from the unit cube scaled by a positive `L` place every point inside the box. */
  lemma {:induction false} PlaceInBox(placed: seq<Vec3>, draws: seq<Vec3>, n: int, box: real, minDist: real)
    requires box > 0.0
    requires forall k :: 0 <= k < |placed| ==> InBox(placed[k], box)
    requires forall k :: 0 <= k < |draws| ==> InBox(draws[k], 1.0)
    ensures forall k :: 0 <= k < |Place(placed, draws, n, box, minDist)| ==> InBox(Place(placed, draws, n, box, minDist)[k], box)
    decreases |draws|
  {
    if |placed| < n && |draws| > 0 {
      var trial := TrialPoint(draws[0], box);
      var next := if Admits(placed, trial, box, minDist) then placed + [trial] else placed;
      PlaceInBox(next, draws[1..], n, box, minDist);
    }
  }

  /** Points kept at a non-negative `min_dist` never coincide, so their energy is defined. */
  lemma SeparatedIsNonDegenerate(p: seq<Vec3>, box: real, minDist: real)
    requires box != 0.0 && minDist >= 0.0 && Separated(p, box, minDist)
    ensures Energy.NonDegenerate(p, box)
  {
    forall a, b | 0 <= a < |p| && 0 <= b < |p| && a != b
      ensures Dist2(p[a], p[b], box) > 0.0
    {
      assert Far(p[a], p[b], box, minDist);
      SquareFacts(minDist);
    }
  }

  /**
   * `initialize_positions_no_overlap(N, L, min_dist)` over the draws
   * `draws`: the loop while fewer than `n` points are kept and draws remain.
   */
  method InitializePositionsNoOverlap(n: int, box: real, minDist: real, draws: seq<Vec3>) returns (positions: seq<Vec3>)
    requires box != 0.0
    ensures positions == Place([], draws, n, box, minDist)
    ensures Separated(positions, box, minDist)
    ensures |positions| <= if n < 0 then 0 else n
  {
    positions := [];
    var k := 0;
    while |positions| < n && k < |draws|
      invariant 0 <= k <= |draws|
      invariant Place(positions, draws[k..], n, box, minDist) == Place([], draws, n, box, minDist)
      invariant Separated(positions, box, minDist)
    {
      var trial := TrialPoint(draws[k], box);
      assert draws[k..][0] == draws[k] && draws[k..][1..] == draws[k + 1..];
      if Admits(positions, trial, box, minDist) {
        AppendSeparated(positions, trial, box, minDist);
        positions := positions + [trial];
      }
      k := k + 1;
    }
    assert Place(positions, draws[k..], n, box, minDist) == positions;
    PlaceFacts([], draws, n, box, minDist);
  }
}
