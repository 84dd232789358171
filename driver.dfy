/**
 * The run of main.py: place the particles, take their total energy, then
 * repeat the Metropolis step `n_steps` times, count accepted moves, record
 * every `save_every`-th configuration with its running energy, and report
 * the acceptance ratio.
 *
 * The step is called with the run constants
 * `monte_carlo_step(positions, energy, N, L, max_disp, beta, rc)`; the
 * two-argument call written at main.py:17 is not modelled (see README).
 */
module Driver {
  import opened Vector3
  import opened Energy
  import opened MonteCarlo
  import Boundary
  import Config
  import Setup

  /** The state after a prefix of the steps: positions, running energy and accepted moves so far. */
  datatype ChainState = ChainState(positions: seq<Vec3>, energy: Value, accepted: int)

  /** Every `np.random.randint(N)` draw is a particle index. */
  predicate IndicesInRange(draws: seq<Draw>)
  {
    forall k :: 0 <= k < |draws| ==> 0 <= draws[k].index < Config.N
  }

  /** `|s|`. */
  function Abs(s: int): int { if s < 0 then -s else s }

  /** The energy change of a step, as a function of the configuration and the draw. */
  type ChangeFn = (seq<Vec3>, Draw) -> Value

  /**
   * `change` agrees with the energy change `Change` that `monte_carlo_step`
   * sums, on every configuration of at least `N` particles and every draw
   * that picks one of them.  The chain below is stated for any such function;
   * a run uses `StepChange`.
   */
  ghost predicate SumsChange(change: ChangeFn)
  {
    forall q: seq<Vec3>, d: Draw {:trigger Change(q, Config.N, d, Config.MaxDisp)} ::
      Config.N <= |q| && 0 <= d.index < Config.N ==> change(q, d) == Change(q, Config.N, d, Config.MaxDisp)
  }

  /**
   * The chain of steps driven by `draws`, one step per draw, with the run
   * constants `N`, `max_disp` and `beta`.
   */
  ghost function Chain(p: seq<Vec3>, energy: Value, draws: seq<Draw>, exp: real -> real, change: ChangeFn): (r: ChainState)
    requires Config.N <= |p| && IndicesInRange(draws)
    ensures |r.positions| == |p|
    ensures 0 <= r.accepted <= |draws|
    decreases |draws|
  {
    if |draws| == 0 then ChainState(p, energy, 0)
    else
      assert IndicesInRange(draws[..|draws| - 1]);
      Next(Chain(p, energy, draws[..|draws| - 1], exp, change), draws[|draws| - 1], exp, change)
  }

  /** One step of the chain: `monte_carlo_step` with the run constants, counting the move when it is accepted. */
  ghost function Next(c: ChainState, d: Draw, exp: real -> real, change: ChangeFn): (r: ChainState)
    requires Config.N <= |c.positions| && 0 <= d.index < Config.N
    ensures |r.positions| == |c.positions|
    ensures c.accepted <= r.accepted <= c.accepted + 1
  {
    var o := Step(c.positions, c.energy, Config.N, Config.MaxDisp, Config.Beta, d, exp, change(c.positions, d));
    ChainState(o.positions, o.energy, c.accepted + if o.accepted then 1 else 0)
  }

  /**
   * Along the whole chain the running energy stays the total energy of the
   * current configuration, which stays non-degenerate, provided the chain
   * starts that way.
   */
  lemma {:induction false} ChainKeepsEnergy(p: seq<Vec3>, energy: Value, draws: seq<Draw>, exp: real -> real, change: ChangeFn)
    requires Config.N <= |p| && IndicesInRange(draws) && SumsChange(change)
    requires NonDegenerate(p[..Config.N], Config.L) && energy == SystemEnergy(p[..Config.N], Config.L)
    ensures NonDegenerate(Chain(p, energy, draws, exp, change).positions[..Config.N], Config.L)
    ensures Chain(p, energy, draws, exp, change).energy == SystemEnergy(Chain(p, energy, draws, exp, change).positions[..Config.N], Config.L)
    decreases |draws|
  {
    if |draws| > 0 {
      assert IndicesInRange(draws[..|draws| - 1]);
      ChainKeepsEnergy(p, energy, draws[..|draws| - 1], exp, change);
      var s := Chain(p, energy, draws[..|draws| - 1], exp, change);
      StepKeepsEnergy(s.positions, s.energy, Config.N, Config.MaxDisp, Config.Beta, draws[|draws| - 1], exp);
    }
  }

  /** The number of steps `0 <= step < total` with `step % save_every == 0`: `ceil(total / |save_every|)`. */
  function SaveCount(total: int, saveEvery: int): (r: int)
    requires saveEvery != 0
    ensures r >= 0
    ensures total <= 0 ==> r == 0
    ensures total > 0 ==> (r - 1) * Abs(saveEvery) < total <= r * Abs(saveEvery)
  {
    if total <= 0 then 0
    else
      var s := Abs(saveEvery);
      var x := total + s - 1;
      assert x == (x / s) * s + x % s && 0 <= x % s < s;
      x / s
  }

  /** Taking one more step adds a record exactly when the step index is a multiple of the stride, and that record is number `step / |save_every|`. */
  lemma SaveCountStep(step: int, saveEvery: int)
    requires step >= 0 && saveEvery != 0
    ensures SaveCount(step + 1, saveEvery) == SaveCount(step, saveEvery) + if step % saveEvery == 0 then 1 else 0
    ensures step % saveEvery == 0 ==> SaveCount(step, saveEvery) * Abs(saveEvery) == step
  {
    var s := Abs(saveEvery);
    ModAbs(step, saveEvery);
    var q := step / s;
    var r := step % s;
    assert step == q * s + r;
    assert (q + 1) * s == q * s + s;
    if r == 0 {
      if step > 0 {
        assert (q - 1) * s == q * s - s;
        CeilUnique(step, s, SaveCount(step, saveEvery), q);
      }
      CeilUnique(step + 1, s, SaveCount(step + 1, saveEvery), q + 1);
    } else {
      CeilUnique(step, s, SaveCount(step, saveEvery), q + 1);
      CeilUnique(step + 1, s, SaveCount(step + 1, saveEvery), q + 1);
    }
  }

  /** `ceil(total / s)` is the only `c` with `(c - 1) * s < total <= c * s`. */
  lemma CeilUnique(total: int, s: int, c: int, c': int)
    requires s > 0
    requires (c - 1) * s < total <= c * s
    requires (c' - 1) * s < total <= c' * s
    ensures c == c'
  {
    if c < c' {
      MulAtLeast(s, c' - c);
      assert false;
    } else if c' < c {
      MulAtLeast(s, c - c');
      assert false;
    }
  }

  /** Division is determined by quotient and remainder. */
  lemma DivUnique(x: int, s: int, q: int, r: int)
    requires s > 0 && 0 <= r < s && x == q * s + r
    ensures x / s == q && x % s == r
  {
    var d := x / s - q;
    assert s * d == r - x % s;
    if d > 0 {
      MulAtLeast(s, d);
      assert false;
    } else if d < 0 {
      MulAtLeast(s, -d);
      assert false;
    }
  }

  lemma {:induction false} MulAtLeast(s: int, d: int)
    requires s > 0 && d >= 1
    ensures s * d >= s
    decreases d
  {
    if d > 1 {
      MulAtLeast(s, d - 1);
      assert s * d == s * (d - 1) + s;
    }
  }

  /** With Euclidean remainders, the remainder by `s` and by `|s|` agree. */
  lemma ModAbs(x: int, s: int)
    requires s != 0
    ensures x % s == x % Abs(s)
  {
    if s < 0 {
      assert x == (-(x / s)) * (-s) + x % s;
      DivUnique(x, -s, -(x / s), x % s);
    }
  }

  /** The chain after its first `t` steps. */
  ghost function ChainAt(p: seq<Vec3>, energy: Value, draws: seq<Draw>, t: int, exp: real -> real, change: ChangeFn): ChainState
    requires Config.N <= |p| && IndicesInRange(draws) && 0 <= t <= |draws|
  {
    assert IndicesInRange(draws[..t]);
    Chain(p, energy, draws[..t], exp, change)
  }

  /** The states `hist` follow one another by the steps of the draws: `hist[t + 1]` is `Next(hist[t], draws[t])` for `t < k`. */
  ghost predicate Follows(hist: seq<ChainState>, draws: seq<Draw>, exp: real -> real, change: ChangeFn, k: int)
    decreases k
  {
    k <= 0 ||
    (Follows(hist, draws, exp, change, k - 1) && k < |hist| && k - 1 < |draws| &&
     Config.N <= |hist[k - 1].positions| && 0 <= draws[k - 1].index < Config.N &&
     hist[k] == Next(hist[k - 1], draws[k - 1], exp, change))
  }

  /** Appending a state keeps the steps already taken. */
  lemma {:induction false} FollowsAppend(hist: seq<ChainState>, draws: seq<Draw>, exp: real -> real, change: ChangeFn, k: int, c: ChainState)
    requires Follows(hist, draws, exp, change, k) && k < |hist|
    ensures Follows(hist + [c], draws, exp, change, k)
    decreases k
  {
    if k > 0 {
      FollowsAppend(hist, draws, exp, change, k - 1, c);
    }
  }

  /** A history that starts at `p` and follows the draws is the chain, state by state. */
  lemma {:induction false} FollowsIsChain(hist: seq<ChainState>, p: seq<Vec3>, energy: Value, draws: seq<Draw>, exp: real -> real, change: ChangeFn, k: int)
    requires Config.N <= |p| && IndicesInRange(draws) && 0 <= k <= |draws|
    requires |hist| > 0 && hist[0] == ChainState(p, energy, 0) && Follows(hist, draws, exp, change, k)
    ensures forall t :: 0 <= t <= k ==> t < |hist| && hist[t] == ChainAt(p, energy, draws, t, exp, change)
    decreases k
  {
    assert ChainAt(p, energy, draws, 0, exp, change) == ChainState(p, energy, 0);
    if k > 0 {
      FollowsIsChain(hist, p, energy, draws, exp, change, k - 1);
      assert draws[..k][..k - 1] == draws[..k - 1];
      assert IndicesInRange(draws[..k]);
    }
  }

  /**
   * The first `k` records are the configuration and running energy of the
   * states `s * m + 1` of `hist`, right after steps `0, s, 2 s, ...`.
   */
  ghost predicate Recorded(trajectory: seq<seq<Vec3>>, energies: seq<Value>, hist: seq<ChainState>, s: int, k: int)
    decreases k
  {
    k <= 0 ||
    (Recorded(trajectory, energies, hist, s, k - 1) &&
     k - 1 < |trajectory| && k - 1 < |energies| && 0 <= (k - 1) * s && (k - 1) * s + 1 < |hist| &&
     trajectory[k - 1] == hist[(k - 1) * s + 1].positions &&
     energies[k - 1] == hist[(k - 1) * s + 1].energy)
  }

  /** Records stay valid when the records and the history grow at their ends. */
  lemma {:induction false} RecordedExtend(trajectory: seq<seq<Vec3>>, energies: seq<Value>, hist: seq<ChainState>, s: int, k: int,
                                          trajectory': seq<seq<Vec3>>, energies': seq<Value>, hist': seq<ChainState>)
    requires Recorded(trajectory, energies, hist, s, k)
    requires k <= |trajectory| <= |trajectory'| && trajectory'[..|trajectory|] == trajectory
    requires k <= |energies| <= |energies'| && energies'[..|energies|] == energies
    requires |hist| <= |hist'| && hist'[..|hist|] == hist
    ensures Recorded(trajectory', energies', hist', s, k)
    decreases k
  {
    if k > 0 {
      RecordedExtend(trajectory, energies, hist, s, k - 1, trajectory', energies', hist');
      assert trajectory'[k - 1] == trajectory[k - 1] && energies'[k - 1] == energies[k - 1];
      assert hist'[(k - 1) * s + 1] == hist[(k - 1) * s + 1];
    }
  }

  /** `Recorded` spelled out record by record. */
  lemma {:induction false} RecordedMeans(trajectory: seq<seq<Vec3>>, energies: seq<Value>, hist: seq<ChainState>, s: int, k: int)
    requires Recorded(trajectory, energies, hist, s, k)
    ensures forall m :: 0 <= m < k ==>
      m < |trajectory| && m < |energies| && 0 <= m * s && m * s + 1 < |hist| &&
      trajectory[m] == hist[m * s + 1].positions &&
      energies[m] == hist[m * s + 1].energy
    decreases k
  {
    if k > 0 {
      RecordedMeans(trajectory, energies, hist, s, k - 1);
    }
  }

  /**
   * One pass of the loop body of main.py:16-23 before the save: the step with
   * the run constants (main.py:17), and the count of accepted moves
   * (main.py:18-20).
   */
  method ChainStep(positions: array<Vec3>, energy: Value, acceptedMoves: int, d: Draw, exp: real -> real, ghost change: ChangeFn)
    returns (newEnergy: Value, newAccepted: int)
    requires 0 <= d.index < Config.N <= positions.Length && SumsChange(change)
    modifies positions
    ensures ChainState(positions[..], newEnergy, newAccepted) == Next(ChainState(old(positions[..]), energy, acceptedMoves), d, exp, change)
  {
    var accepted;
    newEnergy, accepted := MonteCarloStep(positions, energy, Config.N, Config.L, Config.MaxDisp, Config.Beta, Config.Rc, d, exp);
    newAccepted := acceptedMoves;
    if accepted {
      newAccepted := newAccepted + 1;
    }
  }

  /**
   * What the loop of main.py:16-23 maintains after `step` steps: `hist` holds
   * the states after each prefix of the steps, and the records saved so far
   * are the states right after the steps whose index is a multiple of
   * `save_every`.
   */
  ghost predicate Progress(p: seq<Vec3>, energy: Value, draws: seq<Draw>, exp: real -> real, change: ChangeFn, saveEvery: int,
                           step: int, hist: seq<ChainState>, trajectory: seq<seq<Vec3>>, energies: seq<Value>)
    requires saveEvery != 0
  {
    0 <= step && |hist| == step + 1 && hist[0] == ChainState(p, energy, 0) &&
    Follows(hist, draws, exp, change, step) &&
    |trajectory| == |energies| == SaveCount(step, saveEvery) &&
    Recorded(trajectory, energies, hist, Abs(saveEvery), |trajectory|)
  }

  /** `xs` with `x` appended when `step % save_every == 0`. */
  function Saved<T>(xs: seq<T>, x: T, step: int, saveEvery: int): seq<T>
    requires saveEvery != 0
  {
    if step % saveEvery == 0 then xs + [x] else xs
  }

  /** One pass of the loop keeps `Progress`. */
  lemma ProgressStep(p: seq<Vec3>, energy: Value, draws: seq<Draw>, exp: real -> real, change: ChangeFn, saveEvery: int,
                     step: int, hist: seq<ChainState>, trajectory: seq<seq<Vec3>>, energies: seq<Value>, next: ChainState)
    requires saveEvery != 0 && Progress(p, energy, draws, exp, change, saveEvery, step, hist, trajectory, energies)
    requires step < |draws| && Config.N <= |hist[step].positions| && 0 <= draws[step].index < Config.N
    requires next == Next(hist[step], draws[step], exp, change)
    ensures Progress(p, energy, draws, exp, change, saveEvery, step + 1, hist + [next],
                     Saved(trajectory, next.positions, step, saveEvery), Saved(energies, next.energy, step, saveEvery))
  {
    var s := Abs(saveEvery);
    var hist' := hist + [next];
    FollowsAppend(hist, draws, exp, change, step, next);
    assert Follows(hist', draws, exp, change, step + 1);
    SaveCountStep(step, saveEvery);
    RecordedExtend(trajectory, energies, hist, s, |trajectory|,
                   Saved(trajectory, next.positions, step, saveEvery), Saved(energies, next.energy, step, saveEvery), hist');
  }

  /** At the end of the loop, `hist` is the chain and the records are states of the chain. */
  lemma ProgressIsChain(p: seq<Vec3>, energy: Value, draws: seq<Draw>, exp: real -> real, change: ChangeFn, saveEvery: int,
                        step: int, hist: seq<ChainState>, trajectory: seq<seq<Vec3>>, energies: seq<Value>)
    requires saveEvery != 0 && Config.N <= |p| && IndicesInRange(draws) && step <= |draws|
    requires Progress(p, energy, draws, exp, change, saveEvery, step, hist, trajectory, energies)
    ensures hist[step] == ChainAt(p, energy, draws, step, exp, change)
    ensures forall m :: 0 <= m < |trajectory| ==>
      0 <= m * Abs(saveEvery) < step &&
      trajectory[m] == ChainAt(p, energy, draws, m * Abs(saveEvery) + 1, exp, change).positions &&
      energies[m] == ChainAt(p, energy, draws, m * Abs(saveEvery) + 1, exp, change).energy
  {
    RecordedMeans(trajectory, energies, hist, Abs(saveEvery), |trajectory|);
    FollowsIsChain(hist, p, energy, draws, exp, change, step);
  }

  /**
   * The loop of main.py:16-23 over the draws `draws`.  `positions` is the
   * array the steps move in place; the results are the final energy, the
   * recorded configurations and energies, and the two move counters.
   */
  method RunChain(positions: array<Vec3>, energy: Value, nSteps: int, saveEvery: int, draws: seq<Draw>, exp: real -> real, ghost change: ChangeFn)
    returns (finalEnergy: Value, trajectory: seq<seq<Vec3>>, energies: seq<Value>, acceptedMoves: int, totalMoves: int)
    requires saveEvery != 0 && Config.N <= positions.Length
    requires nSteps <= |draws| && IndicesInRange(draws) && SumsChange(change)
    modifies positions
    ensures totalMoves == if nSteps < 0 then 0 else nSteps
    ensures ChainAt(old(positions[..]), energy, draws, totalMoves, exp, change) == ChainState(positions[..], finalEnergy, acceptedMoves)
    ensures 0 <= acceptedMoves <= totalMoves
    ensures |trajectory| == |energies| == SaveCount(totalMoves, saveEvery)
    ensures forall m :: 0 <= m < |trajectory| ==>
      0 <= m * Abs(saveEvery) < totalMoves &&
      trajectory[m] == ChainAt(old(positions[..]), energy, draws, m * Abs(saveEvery) + 1, exp, change).positions &&
      energies[m] == ChainAt(old(positions[..]), energy, draws, m * Abs(saveEvery) + 1, exp, change).energy
  {
    ghost var p0 := positions[..];
    ghost var hist := [ChainState(p0, energy, 0)];
    finalEnergy := energy;
    trajectory := [];
    energies := [];
    acceptedMoves := 0;
    totalMoves := 0;
    var step := 0;
    while step < nSteps
      invariant 0 <= step <= (if nSteps < 0 then 0 else nSteps)
      invariant totalMoves == step && 0 <= acceptedMoves <= step
      invariant |hist| == step + 1 && hist[step] == ChainState(positions[..], finalEnergy, acceptedMoves)
      invariant Progress(p0, energy, draws, exp, change, saveEvery, step, hist, trajectory, energies)
    {
      finalEnergy, acceptedMoves := ChainStep(positions, finalEnergy, acceptedMoves, draws[step], exp, change);
      totalMoves := totalMoves + 1;
      ghost var next := ChainState(positions[..], finalEnergy, acceptedMoves);
      ProgressStep(p0, energy, draws, exp, change, saveEvery, step, hist, trajectory, energies, next);
      if step % saveEvery == 0 {
        trajectory := trajectory + [positions[..]];
        energies := energies + [finalEnergy];
      }
      hist := hist + [next];
      step := step + 1;
    }
    ProgressIsChain(p0, energy, draws, exp, change, saveEvery, step, hist, trajectory, energies);
  }

  /** `accepted_moves / total_moves`, which raises `ZeroDivisionError` when no move was made. */
  datatype Ratio = Ratio(value: real) | DivisionByZero

  function AcceptanceRatio(acceptedMoves: int, totalMoves: int): (r: Ratio)
    ensures r.DivisionByZero? <==> totalMoves == 0
    ensures r.Ratio? ==> r.value * totalMoves as real == acceptedMoves as real
    ensures 0 <= acceptedMoves <= totalMoves && r.Ratio? ==> 0.0 <= r.value <= 1.0
  {
    if totalMoves == 0 then DivisionByZero
    else
      var v := acceptedMoves as real / totalMoves as real;
      assert 0 <= acceptedMoves <= totalMoves ==> v <= 1.0 by {
        if 0 <= acceptedMoves <= totalMoves && v > 1.0 {
          Boundary.MulLess(totalMoves as real, 1.0, v);
        }
      }
      Ratio(v)
  }

  /**
   * Every record of a chain that starts from `N` non-overlapping particles
   * with their total energy holds an overlap-free configuration together
   * with its total energy.
   */
  lemma RecordsKeepEnergy(p: seq<Vec3>, energy: Value, draws: seq<Draw>, s: int, exp: real -> real, change: ChangeFn,
                          trajectory: seq<seq<Vec3>>, energies: seq<Value>)
    requires |p| == Config.N && IndicesInRange(draws) && SumsChange(change)
    requires NonDegenerate(p, Config.L) && energy == SystemEnergy(p, Config.L)
    requires |trajectory| == |energies|
    requires forall m :: 0 <= m < |trajectory| ==>
      0 <= m * s < |draws| &&
      trajectory[m] == ChainAt(p, energy, draws, m * s + 1, exp, change).positions &&
      energies[m] == ChainAt(p, energy, draws, m * s + 1, exp, change).energy
    ensures forall m :: 0 <= m < |trajectory| ==>
      |trajectory[m]| == Config.N &&
      NonDegenerate(trajectory[m], Config.L) &&
      energies[m] == SystemEnergy(trajectory[m], Config.L)
  {
    assert p[..Config.N] == p;
    forall m | 0 <= m < |trajectory|
      ensures |trajectory[m]| == Config.N
      ensures NonDegenerate(trajectory[m], Config.L) && energies[m] == SystemEnergy(trajectory[m], Config.L)
    {
      var k := m * s + 1;
      assert IndicesInRange(draws[..k]);
      ChainKeepsEnergy(p, energy, draws[..k], exp, change);
      assert trajectory[m][..Config.N] == trajectory[m];
    }
  }

  /** The minimum separation `min_dist` that main.py leaves at its default. */
  const MinDist: real := 0.8

  /** The results of a run, or `Unplaced` when the placement draws ran out before `N` particles were placed. */
  datatype Simulation = Simulation(trajectory: seq<seq<Vec3>>, energies: seq<Value>, ratio: Ratio) | Unplaced

  /**
   * main.py:10-25 from placed particles: their total energy, the chain of
   * steps with the run constants, and the acceptance ratio.  Every recorded
   * energy is the total energy of the configuration recorded with it, every
   * recorded configuration is free of overlaps, and the ratio is a fraction.
   */
  method RunFrom(placed: seq<Vec3>, draws: seq<Draw>, exp: real -> real, ghost change: ChangeFn)
    returns (trajectory: seq<seq<Vec3>>, energies: seq<Value>, ratio: Ratio)
    requires |placed| == Config.N && NonDegenerate(placed, Config.L)
    requires Config.NSteps <= |draws| && IndicesInRange(draws) && SumsChange(change)
    ensures |trajectory| == |energies| == SaveCount(Config.NSteps, Config.SaveEvery)
    ensures forall m :: 0 <= m < |trajectory| ==>
      trajectory[m] == ChainAt(placed, SystemEnergy(placed, Config.L), draws, m * Config.SaveEvery + 1, exp, change).positions &&
      energies[m] == ChainAt(placed, SystemEnergy(placed, Config.L), draws, m * Config.SaveEvery + 1, exp, change).energy
    ensures forall m :: 0 <= m < |trajectory| ==>
      |trajectory[m]| == Config.N &&
      NonDegenerate(trajectory[m], Config.L) &&
      energies[m] == SystemEnergy(trajectory[m], Config.L)
    ensures ratio == AcceptanceRatio(ChainAt(placed, SystemEnergy(placed, Config.L), draws, Config.NSteps, exp, change).accepted, Config.NSteps)
    ensures ratio.Ratio? && 0.0 <= ratio.value <= 1.0
  {
    assert placed[..Config.N] == placed;
    var energy := TotalEnergy(placed);
    var positions := new Vec3[Config.N](k requires 0 <= k < Config.N => placed[k]);
    assert positions[..] == placed;
    var finalEnergy, accepted, total;
    finalEnergy, trajectory, energies, accepted, total := RunChain(positions, energy, Config.NSteps, Config.SaveEvery, draws, exp, change);
    RecordsKeepEnergy(placed, energy, draws, Abs(Config.SaveEvery), exp, change, trajectory, energies);
    ratio := AcceptanceRatio(accepted, total);
  }

  /**
   * The energy change of a step as a function of the configuration and the
   * draw: `Change` with the run constants wherever a step can be taken (at
   * least `N` particles, an index below `N`).  No step is ever taken at the
   * other arguments; the function gives NaN there only so that it is total.
   */
  ghost function StepChange(): ChangeFn
  {
    (q: seq<Vec3>, d: Draw) => if Config.N <= |q| && 0 <= d.index < Config.N then Change(q, Config.N, d, Config.MaxDisp) else NaN
  }

  /** `StepChange` is the change that `monte_carlo_step` sums. */
  lemma StepChangeSums()
    ensures SumsChange(StepChange())
  {
  }

  /**
   * main.py:8-25 with the run constants: place the particles, then run the
   * chain from them (see `RunFrom`).  The source keeps drawing until all `N`
   * particles are placed; here the placement draws are finite.
   */
  method Simulate(placementDraws: seq<Vec3>, draws: seq<Draw>, exp: real -> real) returns (r: Simulation)
    requires Config.NSteps <= |draws| && IndicesInRange(draws)
    ensures r.Unplaced? <==> |Setup.Place([], placementDraws, Config.N, Config.L, MinDist)| < Config.N
    ensures r.Simulation? ==> |r.trajectory| == |r.energies| == SaveCount(Config.NSteps, Config.SaveEvery)
    ensures r.Simulation? ==>
      var placed := Setup.Place([], placementDraws, Config.N, Config.L, MinDist);
      forall m :: 0 <= m < |r.trajectory| ==>
        r.trajectory[m] == ChainAt(placed, SystemEnergy(placed, Config.L), draws, m * Config.SaveEvery + 1, exp, StepChange()).positions &&
        r.energies[m] == ChainAt(placed, SystemEnergy(placed, Config.L), draws, m * Config.SaveEvery + 1, exp, StepChange()).energy
    ensures r.Simulation? ==>
      var placed := Setup.Place([], placementDraws, Config.N, Config.L, MinDist);
      r.ratio == AcceptanceRatio(ChainAt(placed, SystemEnergy(placed, Config.L), draws, Config.NSteps, exp, StepChange()).accepted, Config.NSteps)
    ensures r.Simulation? ==> forall m :: 0 <= m < |r.trajectory| ==>
      |r.trajectory[m]| == Config.N &&
      NonDegenerate(r.trajectory[m], Config.L) &&
      r.energies[m] == SystemEnergy(r.trajectory[m], Config.L)
    ensures r.Simulation? ==> r.ratio.Ratio? && 0.0 <= r.ratio.value <= 1.0
  {
    var placed := Setup.InitializePositionsNoOverlap(Config.N, Config.L, MinDist, placementDraws);
    if |placed| < Config.N {
      return Unplaced;
    }
    Setup.SeparatedIsNonDegenerate(placed, Config.L, MinDist);
    StepChangeSums();
    var trajectory, energies, ratio := RunFrom(placed, draws, exp, StepChange());
    r := Simulation(trajectory, energies, ratio);
  }

  /** With the run constants, 20000 steps recorded every 10 steps give 2000 records. */
  lemma DefaultRecordCount()
    ensures SaveCount(Config.NSteps, Config.SaveEvery) == 2000
  {
  }
}
