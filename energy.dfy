/**
 * The truncated Lennard-Jones pair potential and the total energy of a
 * configuration (simulation/energy.py), together with the single-particle
 * energy change that the Metropolis step accumulates (simulation/monte_carlo.py).
 */
module Energy {
  import opened Vector3
  import opened Boundary
  import Config
  import PairSums

  /** A floating-point result: a finite value, or NaN once a division by zero has occurred. */
  datatype Value = Finite(v: real) | NaN

  /** `rc**2`, with `rc` the run constant that `lj_potential` reads. */
  const RcSq: real := Config.Rc * Config.Rc

  /**
   * `lj_potential(r2)`: `4 * (inv_r6**2 - inv_r6)` with `inv_r6 = (1 / r2)**3`
   * inside the cutoff and exactly 0 at and beyond it.  The source divides by
   * `r2`; a zero `r2` is the caller's NaN path and is excluded here.
   */
  function LjPotential(r2: real): (e: real)
    requires r2 > 0.0
    ensures r2 >= RcSq ==> e == 0.0
    ensures r2 == 1.0 ==> e == 0.0
    ensures 1.0 < r2 < RcSq ==> e < 0.0
    ensures r2 < 1.0 ==> e > 0.0
  {
    if r2 < RcSq then
      InverseCubeBounds(r2);
      LjShape(Cube(1.0 / r2));
      4.0 * (Cube(1.0 / r2) * Cube(1.0 / r2) - Cube(1.0 / r2))
    else 0.0
  }

  function Cube(c: real): real { c * c * c }

  /** `(1 / r2)**3` is 1 at 1, below 1 above 1 and above 1 below 1. */
  lemma InverseCubeBounds(r2: real)
    requires r2 > 0.0
    ensures r2 == 1.0 ==> Cube(1.0 / r2) == 1.0
    ensures r2 > 1.0 ==> 0.0 < Cube(1.0 / r2) < 1.0
    ensures r2 < 1.0 ==> Cube(1.0 / r2) > 1.0
  {
    var c := 1.0 / r2;
    assert c * r2 == 1.0;
    if r2 > 1.0 {
      assert 0.0 < c < 1.0;
      CubeBelowOne(c);
    } else if r2 < 1.0 {
      assert c > 1.0;
      CubeAboveOne(c);
    }
  }

  lemma CubeBelowOne(c: real)
    requires 0.0 < c < 1.0
    ensures 0.0 < Cube(c) < 1.0
  {
    assert 0.0 < c * c < 1.0;
  }

  lemma CubeAboveOne(c: real)
    requires c > 1.0
    ensures Cube(c) > 1.0
  {
    assert c * c > 1.0;
  }

  /** The sign of `w * w - w` for `w > 0`. */
  lemma LjShape(w: real)
    ensures w == 1.0 ==> w * w - w == 0.0
    ensures 0.0 < w < 1.0 ==> w * w - w < 0.0
    ensures w > 1.0 ==> w * w - w > 0.0
  {
    assert w * w - w == w * (w - 1.0);
  }

  /** `x` raised to the natural power `k`. */
  function Pow(x: real, k: nat): real
  {
    if k == 0 then 1.0 else x * Pow(x, k - 1)
  }

  lemma {:induction false} PowAdd(x: real, m: nat, k: nat)
    ensures Pow(x, m + k) == Pow(x, m) * Pow(x, k)
    decreases m
  {
    if m > 0 {
      PowAdd(x, m - 1, k);
    }
  }

  /**
   * For a separation `r` inside the cutoff, `lj_potential(r * r)` is the
   * textbook form `4 * (r**-12 - r**-6)`.
   */
  lemma LjStandardForm(r: real)
    requires 0.0 < r < Config.Rc
    ensures r * r < RcSq
    ensures LjPotential(r * r) == 4.0 * (Pow(1.0 / r, 12) - Pow(1.0 / r, 6))
  {
    MulLess(r, r, Config.Rc);
    MulLess(Config.Rc, r, Config.Rc);
    var c := 1.0 / r;
    assert 1.0 / (r * r) == c * c;
    EvenPowers(c);
  }

  /** `x**6` and `x**12` as cubes of `x**2`. */
  lemma EvenPowers(x: real)
    ensures Pow(x, 6) == Cube(x * x)
    ensures Pow(x, 12) == Cube(x * x) * Cube(x * x)
  {
    var w := x * x;
    assert Pow(x, 1) == x by { assert Pow(x, 0) == 1.0; }
    assert Pow(x, 2) == w;
    assert Pow(x, 4) == w * w by { PowAdd(x, 2, 2); }
    assert Pow(x, 6) == Cube(w) by { PowAdd(x, 2, 4); }
    PowAdd(x, 6, 6);
  }

  /**
   * The pair term `lj_potential(sum(NearestImg(a - b, L) ** 2))` of two
   * particles that do not coincide.  Coincident particles make the source's
   * accumulators NaN; every sum below that uses this term is taken only when no
   * pair coincides (see `SystemEnergy` and `EnergyChange`), so its value 0 in
   * that case is never observed.
   */
  function PairEnergy(a: Vec3, b: Vec3, box: real): (e: real)
    requires box != 0.0
    ensures Dist2(a, b, box) >= RcSq ==> e == 0.0
    ensures 0.0 < Dist2(a, b, box) < 1.0 ==> e > 0.0
    ensures 1.0 < Dist2(a, b, box) < RcSq ==> e < 0.0
    ensures Dist2(b, a, box) > 0.0 ==> e == LjPotential(Dist2(b, a, box))
  {
    Dist2Symmetric(a, b, box);
    if Dist2(a, b, box) > 0.0 then LjPotential(Dist2(a, b, box)) else 0.0
  }

  /** `PairEnergy` as the pair term of the generic sums. */
  function PairTerm(box: real): (Vec3, Vec3) -> real
    requires box != 0.0
  {
    (a: Vec3, b: Vec3) => PairEnergy(a, b, box)
  }

  /** No two distinct particles coincide under the minimum-image convention. */
  predicate NonDegenerate(p: seq<Vec3>, box: real)
    requires box != 0.0
  {
    forall a, b :: 0 <= a < |p| && 0 <= b < |p| && a != b ==> Dist2(p[a], p[b], box) > 0.0
  }

  /** Two particles are apart: their squared minimum-image distance is positive. */
  function Apart(box: real): (Vec3, Vec3) -> bool
    requires box != 0.0
  {
    (a: Vec3, b: Vec3) => Dist2(a, b, box) > 0.0
  }

  /** NaN-absorbing addition of two floating-point results. */
  function Plus(x: Value, y: Value): (r: Value)
    ensures r.NaN? <==> x.NaN? || y.NaN?
    ensures x == Finite(0.0) ==> r == y
    ensures y == Finite(0.0) ==> r == x
    ensures r.Finite? ==> r.v - x.v == y.v
  {
    if x.Finite? && y.Finite? then Finite(x.v + y.v) else NaN
  }

  /**
   * The total energy of a configuration, summed over the pairs `a < b` in the
   * order of the double loop: NaN when two particles coincide.
   */
  ghost function SystemEnergy(p: seq<Vec3>, box: real): (e: Value)
    requires box != 0.0
    ensures e.Finite? <==> NonDegenerate(p, box)
    ensures |p| < 2 ==> e == Finite(0.0)
  {
    assert |p| < 2 ==> PairSums.Total(p, PairTerm(box)) == 0.0 by {
      if |p| < 2 {
        PairSums.TotalOfFew(p, PairTerm(box));
      }
    }
    if NonDegenerate(p, box) then Finite(PairSums.Total(p, PairTerm(box))) else NaN
  }

  /** When every pair is at or beyond the cutoff the total energy is exactly 0. */
  lemma SystemEnergyBeyondCutoff(p: seq<Vec3>, box: real)
    requires box != 0.0
    requires forall a, b :: 0 <= a < |p| && 0 <= b < |p| && a != b ==> Dist2(p[a], p[b], box) >= RcSq
    ensures SystemEnergy(p, box) == Finite(0.0)
  {
    forall a, b | 0 <= a < b < |p|
      ensures PairTerm(box)(p[a], p[b]) == 0.0
    {
      assert Dist2(p[a], p[b], box) >= RcSq;
    }
    PairSums.TotalOfZeroTerms(p, PairTerm(box));
  }

  /** Ordered pairs `a < b` cover every unordered pair, so the loop's flag is exactly non-degeneracy. */
  lemma ClearIsNonDegenerate(p: seq<Vec3>, box: real)
    requires box != 0.0
    ensures PairSums.PrefixAll(p, |p|, Apart(box)) <==> NonDegenerate(p, box)
  {
    PairSums.PrefixAllMeans(p, |p|, Apart(box));
    if PairSums.PrefixAll(p, |p|, Apart(box)) {
      forall a, b | 0 <= a < |p| && 0 <= b < |p| && a != b
        ensures Dist2(p[a], p[b], box) > 0.0
      {
        if b < a {
          Dist2Symmetric(p[a], p[b], box);
        }
      }
    }
  }

  /**
   * `total_energy(positions)`: the double loop over `i < j < N` with `N` and
   * `L` the run constants.  A coincident pair makes the accumulator NaN for
   * the rest of the loop.
   */
  method TotalEnergy(positions: seq<Vec3>) returns (energy: Value)
    requires Config.N <= |positions|
    ensures energy == SystemEnergy(positions[..Config.N], Config.L)
  {
    energy := PairLoop(positions, PairTerm(Config.L), Apart(Config.L));
    ClearIsNonDegenerate(positions[..Config.N], Config.L);
  }

  /**
   * The double loop of `total_energy`.  `w` and `ok` are the pair energy and
   * the test that two particles are apart, as seen at the pairs the loop
   * measures.
   */
  method PairLoop(positions: seq<Vec3>, ghost w: (Vec3, Vec3) -> real, ghost ok: (Vec3, Vec3) -> bool) returns (energy: Value)
    requires Config.N <= |positions|
    requires forall a, b {:trigger Dist2(a, b, Config.L)} :: ok(a, b) == (Dist2(a, b, Config.L) > 0.0)
    requires forall a, b {:trigger Dist2(a, b, Config.L)} :: w(a, b) == PairEnergy(a, b, Config.L)
    ensures energy == if PairSums.PrefixAll(positions[..Config.N], Config.N, ok)
                      then Finite(PairSums.Total(positions[..Config.N], w)) else NaN
  {
    ghost var p := positions[..Config.N];
    var e := 0.0;
    var nan := false;
    var i := 0;
    while i < Config.N
      invariant 0 <= i <= Config.N
      invariant nan == !PairSums.PrefixAll(p, i, ok)
      invariant !nan ==> e == PairSums.Prefix(p, i, w)
    {
      var j := i + 1;
      while j < Config.N
        invariant i + 1 <= j <= Config.N
        invariant nan == !(PairSums.PrefixAll(p, i, ok) && PairSums.RowAll(p, i, j, ok))
        invariant !nan ==> e == PairSums.Prefix(p, i, w) + PairSums.RowSum(p, i, j, w)
      {
        var rij := NearestImg(Sub(positions[i], positions[j]), Config.L);
        var r2 := NormSq(rij);
        assert r2 == Dist2(p[i], p[j], Config.L);
        if r2 == 0.0 {
          nan := true;
        } else if !nan {
          e := e + LjPotential(r2);
        }
        j := j + 1;
      }
      i := i + 1;
    }
    energy := if nan then NaN else Finite(e);
  }

  /**
   * The energy change of moving particle `i` to `q`, summed over the other
   * particles in ascending order: NaN when `q` or `p[i]` coincides with one of them.
   */
  ghost function EnergyChange(p: seq<Vec3>, i: nat, q: Vec3, box: real): (d: Value)
    requires box != 0.0 && i < |p|
    ensures NonDegenerate(p, box) ==> (d.Finite? <==> NonDegenerate(p[i := q], box))
  {
    var d := if PairSums.DeltaAll(p, i, q, |p|, Apart(box)) then Finite(PairSums.Delta(p, i, q, |p|, PairTerm(box))) else NaN;
    assert NonDegenerate(p, box) ==> (d.Finite? <==> NonDegenerate(p[i := q], box)) by {
      if NonDegenerate(p, box) {
        if d.Finite? {
          MovedApart(p, i, q, box);
        } else {
          MovedOnto(p, i, q, box);
        }
      }
    }
    d
  }

  /** `PairTerm` is symmetric, because the squared minimum-image distance is. */
  lemma PairTermSymmetric(p: seq<Vec3>, i: nat, q: Vec3, box: real)
    requires box != 0.0 && i < |p|
    ensures PairSums.SymmetricAround(p, i, q, PairTerm(box))
  {
    forall j | 0 <= j < |p|
      ensures PairTerm(box)(p[j], q) == PairTerm(box)(q, p[j])
      ensures PairTerm(box)(p[j], p[i]) == PairTerm(box)(p[i], p[j])
    {
      Dist2Symmetric(p[j], q, box);
      Dist2Symmetric(p[j], p[i], box);
    }
  }

  /** A move whose change is finite keeps a non-degenerate configuration non-degenerate. */
  lemma MovedApart(p: seq<Vec3>, i: nat, q: Vec3, box: real)
    requires box != 0.0 && i < |p|
    requires NonDegenerate(p, box) && PairSums.DeltaAll(p, i, q, |p|, Apart(box))
    ensures NonDegenerate(p[i := q], box)
  {
    PairSums.DeltaAllMeans(p, i, q, |p|, Apart(box));
    var p' := p[i := q];
    forall a, b | 0 <= a < |p'| && 0 <= b < |p'| && a != b
      ensures Dist2(p'[a], p'[b], box) > 0.0
    {
      if b == i {
        Dist2Symmetric(p[a], q, box);
      }
    }
  }

  /** A move onto another particle makes the configuration degenerate. */
  lemma MovedOnto(p: seq<Vec3>, i: nat, q: Vec3, box: real)
    requires box != 0.0 && i < |p|
    requires NonDegenerate(p, box) && !PairSums.DeltaAll(p, i, q, |p|, Apart(box))
    ensures !NonDegenerate(p[i := q], box)
  {
    PairSums.DeltaAllMeans(p, i, q, |p|, Apart(box));
    var j :| 0 <= j < |p| && j != i && !(Apart(box)(q, p[j]) && Apart(box)(p[i], p[j]));
    assert Dist2(p[i], p[j], box) > 0.0;
    assert p[i := q][i] == q && p[i := q][j] == p[j];
    assert Dist2(q, p[j], box) == 0.0;
  }

  /**
   * Moving one particle of a non-degenerate configuration changes the total
   * energy by exactly `EnergyChange`: the configuration after the move is
   * non-degenerate iff the change is finite, and then its energy is the old
   * one plus the change.
   */
  lemma MoveEnergy(p: seq<Vec3>, i: nat, q: Vec3, box: real)
    requires box != 0.0 && i < |p|
    requires NonDegenerate(p, box)
    ensures SystemEnergy(p[i := q], box) == Plus(SystemEnergy(p, box), EnergyChange(p, i, q, box))
  {
    if PairSums.DeltaAll(p, i, q, |p|, Apart(box)) {
      MovedApart(p, i, q, box);
      PairTermSymmetric(p, i, q, box);
      PairSums.DeltaIsTotalChange(p, i, q, PairTerm(box));
    } else {
      MovedOnto(p, i, q, box);
    }
  }
}
