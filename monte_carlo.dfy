/**
 * One Metropolis move of `monte_carlo_step` (simulation/monte_carlo.py):
 * pick a particle, displace it, wrap it into the box, sum the energy change
 * against every other particle and accept or reject the move.
 *
 * The random numbers a call consumes arrive as a `Draw`, and `np.exp` as the
 * parameter `exp`.  The step wraps and measures with a box edge of 10.0
 * written into its body, whatever `L` it is passed.
 */
module MonteCarlo {
  import opened Vector3
  import opened Boundary
  import opened Energy
  import PairSums
  import Config

  /** The box edge that `monte_carlo_step` hard-codes in its calls to `apply_periodic` and `NearestImg`. */
  const StepBox: real := 10.0

  /**
   * The random numbers of one step: `np.random.randint(N)`, the three
   * uniforms of `np.random.rand(3)` and the uniform `np.random.rand()` of
   * the acceptance test.
   */
  datatype Draw = Draw(index: int, offset: Vec3, accept: real)

  /** A step's outcome: the positions, the running energy and whether the move was accepted. */
  datatype Outcome = Outcome(positions: seq<Vec3>, energy: Value, accepted: bool)

  /**
   * `(np.random.rand(3) - 0.5) * max_disp`: uniforms in [0, 1) give a
   * displacement in [-max_disp / 2, max_disp / 2) on every axis.
   */
  function Displacement(u: Vec3, maxDisp: real): (r: Vec3)
    ensures InBox(u, 1.0) && maxDisp > 0.0 ==>
      -maxDisp / 2.0 <= r.x < maxDisp / 2.0 &&
      -maxDisp / 2.0 <= r.y < maxDisp / 2.0 &&
      -maxDisp / 2.0 <= r.z < maxDisp / 2.0
  {
    Vec3(Offset(u.x, maxDisp), Offset(u.y, maxDisp), Offset(u.z, maxDisp))
  }

  /** One axis of the displacement, `(u - 0.5) * max_disp`. */
  function Offset(u: real, maxDisp: real): (r: real)
    ensures maxDisp > 0.0 && 0.0 <= u < 1.0 ==> -maxDisp / 2.0 <= r < maxDisp / 2.0
  {
    if maxDisp > 0.0 && 0.0 <= u < 1.0 then
      MulLeq(maxDisp, -0.5, u - 0.5);
      MulLess(maxDisp, u - 0.5, 0.5);
      (u - 0.5) * maxDisp
    else (u - 0.5) * maxDisp
  }

  /** The trial position: the old one displaced and wrapped into the 10.0 box. */
  function Propose(start: Vec3, u: Vec3, maxDisp: real): (r: Vec3)
    ensures InBox(r, StepBox)
    ensures IsInteger((Add(start, Displacement(u, maxDisp)).x - r.x) / StepBox)
    ensures IsInteger((Add(start, Displacement(u, maxDisp)).y - r.y) / StepBox)
    ensures IsInteger((Add(start, Displacement(u, maxDisp)).z - r.z) / StepBox)
  {
    ApplyPeriodic(Add(start, Displacement(u, maxDisp)), StepBox)
  }

  /** A displacement that stays inside the box is not wrapped. */
  lemma ProposeInside(start: Vec3, u: Vec3, maxDisp: real)
    requires InBox(Add(start, Displacement(u, maxDisp)), StepBox)
    ensures Propose(start, u, maxDisp) == Add(start, Displacement(u, maxDisp))
  {
    ApplyPeriodicInBox(Add(start, Displacement(u, maxDisp)), StepBox);
  }

  /**
   * The Metropolis test `dE < 0.0 or u < np.exp(-beta * dE)`.  A NaN change
   * fails both comparisons, so the move is rejected.
   */
  predicate Accepts(dE: Value, beta: real, u: real, exp: real -> real): (ok: bool)
    ensures ok ==> dE.Finite?
    ensures dE.Finite? && dE.v < 0.0 ==> ok
    ensures dE.Finite? && dE.v >= 0.0 ==> (ok <==> u < exp(-beta * dE.v))
  {
    dE.Finite? && (dE.v < 0.0 || u < exp(-beta * dE.v))
  }

  /** `exp` is at least 1 on non-negative arguments and never decreases, as the exponential is. */
  ghost predicate ExpLike(exp: real -> real)
  {
    (forall x :: x >= 0.0 ==> exp(x) >= 1.0) &&
    (forall x, y :: x <= y ==> exp(x) <= exp(y))
  }

  /** An energy change of exactly 0 is accepted whenever the uniform is below 1. */
  lemma FlatMoveAccepted(beta: real, u: real, exp: real -> real)
    requires ExpLike(exp) && u < 1.0
    ensures Accepts(Finite(0.0), beta, u, exp)
  {
    assert exp(-beta * 0.0) >= 1.0;
  }

  /** At positive `beta`, a move accepted at some change is accepted at every smaller change too. */
  lemma AcceptsMonotone(d1: real, d2: real, beta: real, u: real, exp: real -> real)
    requires ExpLike(exp) && beta > 0.0 && d1 <= d2
    requires Accepts(Finite(d2), beta, u, exp)
    ensures Accepts(Finite(d1), beta, u, exp)
  {
    if d1 >= 0.0 {
      MulLeq(beta, d1, d2);
      assert exp(-beta * d2) <= exp(-beta * d1);
    }
  }

  /**
   * The trial position of a draw: particle `d.index` displaced and brought
   * back into the 10.0 box by a whole number of box edges on every axis.
   */
  function Trial(p: seq<Vec3>, d: Draw, maxDisp: real): (r: Vec3)
    requires 0 <= d.index < |p|
    ensures InBox(r, StepBox)
    ensures IsInteger((Add(p[d.index], Displacement(d.offset, maxDisp)).x - r.x) / StepBox)
    ensures IsInteger((Add(p[d.index], Displacement(d.offset, maxDisp)).y - r.y) / StepBox)
    ensures IsInteger((Add(p[d.index], Displacement(d.offset, maxDisp)).z - r.z) / StepBox)
  {
    Propose(p[d.index], d.offset, maxDisp)
  }

  /** The energy change `dE` that the step sums for a draw, over the first `n` particles. */
  ghost function Change(p: seq<Vec3>, n: int, d: Draw, maxDisp: real): Value
    requires 0 <= d.index < n <= |p|
  {
    EnergyChange(p[..n], d.index, Trial(p, d, maxDisp), StepBox)
  }

  /**
   * `monte_carlo_step` on the first `n` positions, given the energy change
   * `dE` it sums for the draw (`Change`): the move of particle `d.index` to
   * its trial position, kept exactly when the Metropolis test passes, with
   * `dE` then added to the running energy.
   */
  ghost function Step(p: seq<Vec3>, energy: Value, n: int, maxDisp: real, beta: real, d: Draw, exp: real -> real, dE: Value): (r: Outcome)
    requires 0 <= d.index < n <= |p|
    ensures |r.positions| == |p|
    ensures forall j :: 0 <= j < |p| && j != d.index ==> r.positions[j] == p[j]
    ensures r.accepted ==> r.positions[d.index] == Trial(p, d, maxDisp) && InBox(r.positions[d.index], StepBox)
    ensures r.accepted ==> r.energy == Plus(energy, dE) && dE.Finite?
    ensures !r.accepted ==> r.positions == p && r.energy == energy
    ensures dE.NaN? ==> !r.accepted
    ensures dE.Finite? && dE.v < 0.0 ==> r.accepted
    ensures dE.Finite? && dE.v >= 0.0 ==> (r.accepted <==> d.accept < exp(-beta * dE.v))
  {
    if Accepts(dE, beta, d.accept, exp) then Outcome(p[d.index := Trial(p, d, maxDisp)], Plus(energy, dE), true)
    else Outcome(p, energy, false)
  }

  /**
   * The running energy stays the total energy of the configuration: when it
   * is the total energy of a non-degenerate configuration before the step, it
   * is the total energy of the (again non-degenerate) configuration after it.
   * The step's hard-coded box edge is the run's `L`.
   */
  lemma StepKeepsEnergy(p: seq<Vec3>, energy: Value, n: int, maxDisp: real, beta: real, d: Draw, exp: real -> real)
    requires 0 <= d.index < n <= |p|
    requires NonDegenerate(p[..n], Config.L) && energy == SystemEnergy(p[..n], Config.L)
    ensures NonDegenerate(Step(p, energy, n, maxDisp, beta, d, exp, Change(p, n, d, maxDisp)).positions[..n], Config.L)
    ensures Step(p, energy, n, maxDisp, beta, d, exp, Change(p, n, d, maxDisp)).energy
         == SystemEnergy(Step(p, energy, n, maxDisp, beta, d, exp, Change(p, n, d, maxDisp)).positions[..n], Config.L)
  {
    var r := Step(p, energy, n, maxDisp, beta, d, exp, Change(p, n, d, maxDisp));
    if r.accepted {
      var q := Trial(p, d, maxDisp);
      MoveEnergy(p[..n], d.index, q, StepBox);
      assert r.positions[..n] == p[..n][d.index := q];
    }
  }

  /**
   * `monte_carlo_step(positions, energy, N, L, max_disp, beta, rc)`: moves
   * `positions[i]` in place when the move is accepted and returns the new
   * running energy and the verdict.  `box` and `rc` are taken but not used.
   */
  method MonteCarloStep(positions: array<Vec3>, energy: Value, n: int, box: real, maxDisp: real, beta: real, rc: real, draw: Draw, exp: real -> real)
    returns (newEnergy: Value, accept: bool)
    requires 0 <= draw.index < n <= positions.Length
    modifies positions
    ensures Outcome(positions[..], newEnergy, accept)
         == Step(old(positions[..]), energy, n, maxDisp, beta, draw, exp, Change(old(positions[..]), n, draw, maxDisp))
  {
    var i := draw.index;
    var oldPos := positions[i];
    var newPos := Add(oldPos, Displacement(draw.offset, maxDisp));
    newPos := ApplyPeriodic(newPos, StepBox);
    var dE := SumChange(positions, n, i, oldPos, newPos, PairTerm(StepBox), Apart(StepBox));
    ghost var before := positions[..];
    assert newPos == Trial(before, draw, maxDisp);
    assert before[..n] == positions[..n];
    accept := false;
    newEnergy := energy;
    if Accepts(dE, beta, draw.accept, exp) {
      positions[i] := newPos;
      newEnergy := Plus(energy, dE);
      accept := true;
      assert positions[..] == before[i := newPos];
    }
  }

  /**
   * The loop `for j in range(N): if j != i: dE += lj_potential(r2_new) -
   * lj_potential(r2_old)` of `monte_carlo_step`, measured in the 10.0 box.
   * The sum turns NaN, and stays NaN, at the first particle that sits on the
   * old or the new place of `i`.  `w` and `ok` are the pair energy and the
   * test that two particles are apart, as seen at the pairs the loop measures.
   */
  method SumChange(positions: array<Vec3>, n: int, i: int, oldPos: Vec3, newPos: Vec3,
                   ghost w: (Vec3, Vec3) -> real, ghost ok: (Vec3, Vec3) -> bool) returns (dE: Value)
    requires 0 <= i < n <= positions.Length && oldPos == positions[i]
    requires forall a, b {:trigger Dist2(a, b, StepBox)} :: ok(a, b) == (Dist2(a, b, StepBox) > 0.0)
    requires forall a, b {:trigger Dist2(a, b, StepBox)} :: w(a, b) == PairEnergy(a, b, StepBox)
    ensures dE == if PairSums.DeltaAll(positions[..n], i, newPos, n, ok) then Finite(PairSums.Delta(positions[..n], i, newPos, n, w)) else NaN
  {
    ghost var P := positions[..n];
    var sum := 0.0;
    var nan := false;
    var j := 0;
    while j < n
      invariant 0 <= j <= n
      invariant nan == !PairSums.DeltaAll(P, i, newPos, j, ok)
      invariant !nan ==> sum == PairSums.Delta(P, i, newPos, j, w)
    {
      if j != i {
        var rijOld := NearestImg(Sub(oldPos, positions[j]), StepBox);
        var rijNew := NearestImg(Sub(newPos, positions[j]), StepBox);
        var r2Old := NormSq(rijOld);
        var r2New := NormSq(rijNew);
        assert oldPos == P[i] && positions[j] == P[j];
        assert r2Old == Dist2(P[i], P[j], StepBox) && r2New == Dist2(newPos, P[j], StepBox);
        if r2Old == 0.0 || r2New == 0.0 {
          nan := true;
        } else if !nan {
          sum := sum + (LjPotential(r2New) - LjPotential(r2Old));
        }
      }
      j := j + 1;
    }
    dE := if nan then NaN else Finite(sum);
  }
}
