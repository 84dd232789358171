/**
 * Periodic-boundary geometry of the cubic box (simulation/boundary.py):
 * wrapping a point into the box and the minimum-image displacement.
 */
module Boundary {
  import opened Vector3

  /** `y` is a whole number. */
  predicate IsInteger(y: real)
  {
    y.Floor as real == y
  }

  /**
   * NumPy's floating-point remainder `x % box`: `x` minus the largest multiple
   * of `box` not above it in the direction of `box`, so the result takes the
   * sign of the divisor.
   */
  function Mod(x: real, box: real): (r: real)
    requires box != 0.0
    ensures box > 0.0 ==> 0.0 <= r < box
    ensures box < 0.0 ==> box < r <= 0.0
    ensures IsInteger((x - r) / box)
  {
    var k := (x / box).Floor;
    FloorScaled(x, box, k);
    x - box * k as real
  }

  /** The bounds of `Mod`, from `k <= x / box < k + 1`. */
  lemma FloorScaled(x: real, box: real, k: int)
    requires box != 0.0 && k == (x / box).Floor
    ensures box > 0.0 ==> 0.0 <= x - box * k as real < box
    ensures box < 0.0 ==> box < x - box * k as real <= 0.0
    ensures (x - (x - box * k as real)) / box == k as real
  {
    var y := x / box;
    assert box * y == x;
    var t := y - k as real;
    assert 0.0 <= t < 1.0;
    assert x - box * k as real == box * t;
    MulBounds(box, t);
  }

  /** `box * t` for `0 <= t < 1` lies between 0 and `box`. */
  lemma MulBounds(box: real, t: real)
    requires 0.0 <= t < 1.0
    ensures box > 0.0 ==> 0.0 <= box * t < box
    ensures box < 0.0 ==> box < box * t <= 0.0
  {
    if box > 0.0 {
      MulLess(box, t, 1.0);
      MulLeq(box, 0.0, t);
    } else if box < 0.0 {
      MulLess(-box, t, 1.0);
      MulLeq(-box, 0.0, t);
      assert (-box) * t == -(box * t);
    }
  }

  lemma MulLess(a: real, s: real, t: real)
    requires a > 0.0 && s < t
    ensures a * s < a * t
  {
  }

  lemma MulLeq(a: real, s: real, t: real)
    requires a > 0.0 && s <= t
    ensures a * s <= a * t
  {
  }

  /** A value whose quotient by `box` lies in [0, 1) is its own remainder. */
  lemma ModOfReduced(x: real, box: real)
    requires box != 0.0
    requires 0.0 <= x / box < 1.0
    ensures Mod(x, box) == x
  {
    assert (x / box).Floor == 0;
  }

  /** Wrapping twice is wrapping once. */
  lemma ModIdempotent(x: real, box: real)
    requires box != 0.0
    ensures Mod(Mod(x, box), box) == Mod(x, box)
  {
    var r := Mod(x, box);
    if box > 0.0 {
      QuotientBounds(r, box);
    } else {
      QuotientBounds(-r, -box);
      assert r / box == (-r) / (-box);
    }
    ModOfReduced(r, box);
  }

  lemma QuotientBounds(r: real, box: real)
    requires box > 0.0 && 0.0 <= r < box
    ensures 0.0 <= r / box < 1.0
  {
    if r / box >= 1.0 {
      MulLeq(box, 1.0, r / box);
      assert false;
    }
  }

  /**
   * `round` of NumPy on one value: the nearest integer, ties going to the even
   * neighbour.  The two ensures determine the result (RoundUnique).
   */
  function RoundHalfEven(y: real): (k: int)
    ensures -0.5 <= y - k as real <= 0.5
    ensures (y - k as real == 0.5 || y - k as real == -0.5) ==> k % 2 == 0
  {
    var f := y.Floor;
    var frac := y - f as real;
    if frac < 0.5 then f
    else if frac > 0.5 then f + 1
    else if f % 2 == 0 then f
    else f + 1
  }

  /** Any integer within 1/2 of `y`, even on a tie, is `RoundHalfEven(y)`. */
  lemma RoundUnique(y: real, k: int)
    requires -0.5 <= y - k as real <= 0.5
    requires (y - k as real == 0.5 || y - k as real == -0.5) ==> k % 2 == 0
    ensures k == RoundHalfEven(y)
  {
    var r := RoundHalfEven(y);
    if k > r {
      assert false;
    } else if k < r {
      assert false;
    }
  }

  /** Rounding half to even commutes with negation. */
  lemma RoundNeg(y: real)
    ensures RoundHalfEven(-y) == -RoundHalfEven(y)
  {
    var k := RoundHalfEven(y);
    assert (-y) - (-k) as real == -(y - k as real);
    assert k % 2 == 0 ==> (-k) % 2 == 0;
    RoundUnique(-y, -k);
  }

  /** One component of the minimum-image displacement, `d - box * round(d / box)`. */
  function MinImage(d: real, box: real): (r: real)
    requires box != 0.0
    ensures box > 0.0 ==> -box / 2.0 <= r <= box / 2.0
    ensures IsInteger((d - r) / box)
    ensures box > 0.0 && -box < 2.0 * d < box ==> r == d
  {
    var k := RoundHalfEven(d / box);
    MinImageFacts(d, box, k);
    d - box * k as real
  }

  lemma MinImageFacts(d: real, box: real, k: int)
    requires box != 0.0 && k == RoundHalfEven(d / box)
    ensures box > 0.0 ==> -box / 2.0 <= d - box * k as real <= box / 2.0
    ensures (d - (d - box * k as real)) / box == k as real
    ensures box > 0.0 && -box < 2.0 * d < box ==> k == 0
  {
    var y := d / box;
    assert box * y == d;
    var t := y - k as real;
    assert d - box * k as real == box * t;
    assert (box * k as real) / box == k as real;
    if box > 0.0 {
      HalfBounds(box, t);
      if -box < 2.0 * d < box {
        QuotientHalf(d, box);
        RoundUnique(y, 0);
      }
    }
  }

  lemma HalfBounds(box: real, t: real)
    requires box > 0.0 && -0.5 <= t <= 0.5
    ensures -box / 2.0 <= box * t <= box / 2.0
  {
    assert box * t <= box * 0.5;
    assert box * t >= box * -0.5;
  }

  lemma QuotientHalf(d: real, box: real)
    requires box > 0.0 && -box < 2.0 * d < box
    ensures -0.5 < d / box < 0.5
  {
    if d / box >= 0.5 {
      MulLeq(box, 0.5, d / box);
      assert false;
    }
    if d / box <= -0.5 {
      MulLeq(box, d / box, -0.5);
      assert false;
    }
  }

  /** The minimum image of `-d` is minus the minimum image of `d`. */
  lemma MinImageNeg(d: real, box: real)
    requires box != 0.0
    ensures MinImage(-d, box) == -MinImage(d, box)
  {
    assert (-d) / box == -(d / box);
    RoundNeg(d / box);
  }

  /** `apply_periodic(pos, L)`: `pos % L` componentwise. */
  function ApplyPeriodic(pos: Vec3, box: real): (r: Vec3)
    requires box != 0.0
    ensures box > 0.0 ==> InBox(r, box)
    ensures IsInteger((pos.x - r.x) / box) && IsInteger((pos.y - r.y) / box) && IsInteger((pos.z - r.z) / box)
  {
    Vec3(Mod(pos.x, box), Mod(pos.y, box), Mod(pos.z, box))
  }

  /** Wrapping an already wrapped point changes nothing. */
  lemma ApplyPeriodicIdempotent(pos: Vec3, box: real)
    requires box != 0.0
    ensures ApplyPeriodic(ApplyPeriodic(pos, box), box) == ApplyPeriodic(pos, box)
  {
    ModIdempotent(pos.x, box);
    ModIdempotent(pos.y, box);
    ModIdempotent(pos.z, box);
  }

  /** A point already inside the box is left where it is. */
  lemma ApplyPeriodicInBox(pos: Vec3, box: real)
    requires box > 0.0 && InBox(pos, box)
    ensures ApplyPeriodic(pos, box) == pos
  {
    QuotientBounds(pos.x, box);
    QuotientBounds(pos.y, box);
    QuotientBounds(pos.z, box);
    ModOfReduced(pos.x, box);
    ModOfReduced(pos.y, box);
    ModOfReduced(pos.z, box);
  }

  /** `NearestImg(rij, L)`: `rij - L * np.round(rij / L)` componentwise. */
  function NearestImg(rij: Vec3, box: real): (r: Vec3)
    requires box != 0.0
    ensures box > 0.0 ==> -box / 2.0 <= r.x <= box / 2.0 && -box / 2.0 <= r.y <= box / 2.0 && -box / 2.0 <= r.z <= box / 2.0
    ensures IsInteger((rij.x - r.x) / box) && IsInteger((rij.y - r.y) / box) && IsInteger((rij.z - r.z) / box)
    ensures box > 0.0 && -box < 2.0 * rij.x < box && -box < 2.0 * rij.y < box && -box < 2.0 * rij.z < box ==> r == rij
  {
    Vec3(MinImage(rij.x, box), MinImage(rij.y, box), MinImage(rij.z, box))
  }

  /** `NearestImg(-d, L) == -NearestImg(d, L)`. */
  lemma NearestImgNeg(d: Vec3, box: real)
    requires box != 0.0
    ensures NearestImg(Neg(d), box) == Neg(NearestImg(d, box))
  {
    MinImageNeg(d.x, box);
    MinImageNeg(d.y, box);
    MinImageNeg(d.z, box);
  }

  /** `sum(NearestImg(a - b, L) ** 2)`: squared minimum-image distance from `b` to `a`. */
  function Dist2(a: Vec3, b: Vec3, box: real): (r: real)
    requires box != 0.0
    ensures r >= 0.0
  {
    NormSq(NearestImg(Sub(a, b), box))
  }

  /** The squared minimum-image distance does not depend on the order of the two points. */
  lemma Dist2Symmetric(a: Vec3, b: Vec3, box: real)
    requires box != 0.0
    ensures Dist2(a, b, box) == Dist2(b, a, box)
  {
    SubSwap(a, b);
    NearestImgNeg(Sub(a, b), box);
    NormSqNeg(NearestImg(Sub(a, b), box));
  }
}
