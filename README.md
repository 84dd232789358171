# Lennard-Jones Metropolis Monte Carlo, modelled in Dafny

This project models the sampling engine of a Lennard-Jones Metropolis Monte Carlo simulation of `N` particles in a periodic cubic box:

- the periodic-boundary geometry: wrapping a point into the box, `pos % L`, and the minimum-image displacement, `rij - L * round(rij / L)`;
- the truncated Lennard-Jones pair potential and the total energy, summed over the unique pairs `i < j`;
- one Metropolis step: pick a particle, displace it, wrap it, sum the energy change against every other particle, then accept or reject. An accepted move is written into the position array, and its change is added to the running energy;
- the placement of non-overlapping starting positions;
- the driver loop, which counts moves, saves every `save_every`-th configuration with its running energy, and reports the acceptance ratio.

Floats are exact `real`s.
- NumPy's `%` takes the sign of the divisor: `x - L * floor(x / L)`.
- `np.round` rounds half to even, with the function `RoundHalfEven` pinned down by its uniqueness lemma.

Randomness and `np.exp` are inputs:
- A step's draws (index, three uniforms, acceptance uniform) arrive as a `Draw`.
- The placement loop's `np.random.rand(3)` draws arrive as a finite sequence.
- `np.exp` is a parameter `exp`.

NaN is modelled: a pair that coincides under the minimum image gives `r2 == 0`. The source then evaluates `1/0 = inf` and `inf - inf = nan`, so the accumulators become NaN. The model's energy is the datatype `Value = Finite(v) | NaN`. A NaN energy change fails both comparisons of the Metropolis test, so that move is rejected.

The central result is `MonteCarlo.StepKeepsEnergy`, built on `Energy.MoveEnergy` and `PairSums.DeltaIsTotalChange`. The energy change summed by the step's loop is exactly `total_energy(after) - total_energy(before)`. So the running energy stays the total energy of the configuration, step after step (`Driver.ChainKeepsEnergy`), and every recorded energy of a run is the total energy of the configuration recorded with it (`Driver.Simulate`).

The model follows the code where it departs from its evident design:
- `monte_carlo_step` ignores its `L` and `rc` arguments. It wraps and measures with a box edge of 10.0 written into its body (`MonteCarlo.StepBox`).
- It reads the global cutoff, through `lj_potential`.
- `total_energy` reads the global `N` and `L`.

The step keeps the energy only because 10.0 is the configured `L`; `StepKeepsEnergy` uses that. main.py:17 calls `monte_carlo_step(positions, energy)` with two arguments where seven are required. The driver is modelled with the seven-argument call and the run constants (see "Left out").

## Model

| member | source | states |
|---|---|---|
| Config.Defaults | config.py:6-16 | the volume is 1000, the squared cutoff is 6.25 and `beta = 1 / T` is 2.5 |
| Config.ParticleCount | config.py:7-9 | `N = int(rho * V)` is 100 |
| Vector3.NormSq | simulation/energy.py:15 | `sum(rij ** 2)` is never negative |
| Boundary.Mod | simulation/boundary.py:4 | NumPy's `x % L` lies in [0, L) for L > 0 and in (L, 0] for L < 0, and differs from `x` by a whole multiple of `L` |
| Boundary.ModIdempotent | simulation/boundary.py:4 | reducing an already reduced value changes nothing |
| Boundary.RoundHalfEven | simulation/boundary.py:7 | `np.round` is within 1/2 of its argument, and even on a tie |
| Boundary.RoundUnique | simulation/boundary.py:7 | those two properties determine the rounded value |
| Boundary.RoundNeg | simulation/boundary.py:7 | rounding half to even commutes with negation |
| Boundary.MinImage | simulation/boundary.py:7 | one component of the minimum image lies in [-L/2, L/2], differs from the input by a whole multiple of `L`, and equals the input when the input lies in (-L/2, L/2) |
| Boundary.MinImageFacts | simulation/boundary.py:7 | the same bounds for `d - L * round(d / L)`, with the rounded quotient 0 inside (-L/2, L/2) |
| Boundary.MinImageNeg | simulation/boundary.py:7 | the minimum image of `-d` is minus that of `d` |
| Boundary.ApplyPeriodic | simulation/boundary.py:3-4 | `apply_periodic` puts every component in [0, L) for L > 0, and moves each one by a whole multiple of `L` |
| Boundary.ApplyPeriodicIdempotent | simulation/boundary.py:3-4 | wrapping a wrapped point changes nothing |
| Boundary.ApplyPeriodicInBox | simulation/boundary.py:3-4 | a point already inside the box is not moved |
| Boundary.NearestImg | simulation/boundary.py:6-7 | every component has magnitude at most L/2 and differs from the input by a whole multiple of `L`; a displacement inside (-L/2, L/2) on every axis is returned unchanged |
| Boundary.NearestImgNeg | simulation/boundary.py:6-7 | `NearestImg(-d, L) == -NearestImg(d, L)` |
| Boundary.Dist2 | simulation/energy.py:14-15 | the squared minimum-image distance is never negative |
| Boundary.Dist2Symmetric | simulation/energy.py:14-15 | the squared minimum-image distance from `b` to `a` equals that from `a` to `b` |
| PairSums.RowSumOther | simulation/energy.py:13-16 | replacing `p[i]` changes a row not starting at `i` only in its term for `i` |
| PairSums.RowSumMoved | simulation/monte_carlo.py:13-19 | the part of the single-particle change above `i` is the change of row `i` |
| PairSums.PrefixMoved | simulation/energy.py:12-16 | replacing `p[i]` changes the first `k` rows of the pair sum by the matching part of the single-particle change |
| PairSums.DeltaIsTotalChange | simulation/monte_carlo.py:12-19 | for a symmetric pair term, the sum over `j != i` of `w(q, p[j]) - w(p[i], p[j])` is the total pair sum after replacing `p[i]` by `q` minus the total before |
| PairSums.TotalOfZeroTerms | simulation/energy.py:10-17 | a pair sum whose every term is 0 is 0 |
| PairSums.PrefixOfZeroTerms | simulation/energy.py:12-16 | the same for the first `k` rows |
| PairSums.RowOfZeroTerms | simulation/energy.py:13-16 | the same for one row |
| PairSums.TotalOfFew | simulation/energy.py:10-17 | fewer than two elements have pair sum 0 |
| PairSums.RowAllMeans | simulation/energy.py:13-16 | the recursive row flag holds iff every pair of the row passes the test |
| PairSums.PrefixAllMeans | simulation/energy.py:12-16 | the recursive prefix flag holds iff every pair `a < b` with `a < k` passes |
| PairSums.DeltaAllMeans | simulation/monte_carlo.py:13-19 | the step's flag holds iff every `j != i` is apart from both the new and the old place of `i` |
| Energy.LjPotential | simulation/energy.py:4-8 | `lj_potential` is 0 at and beyond `rc**2 = 6.25` and at `r2 = 1`, negative for 1 < r2 < 6.25, and positive below 1 |
| Energy.InverseCubeBounds | simulation/energy.py:6 | `(1 / r2)**3` is 1 at 1, in (0, 1) above 1, and above 1 below 1 |
| Energy.LjShape | simulation/energy.py:7 | the sign of `inv_r6**2 - inv_r6` |
| Energy.LjStandardForm | simulation/energy.py:5-7 | inside the cutoff, `lj_potential(r * r)` is the textbook `4 * (r**-12 - r**-6)` |
| Energy.PairEnergy | simulation/energy.py:14-16 | the pair term `lj_potential(r2)` of two apart particles is 0 at and beyond the cutoff, repulsive below distance 1, attractive between 1 and the cutoff, and the same with the two particles swapped |
| Energy.Plus | simulation/monte_carlo.py:24 | `energy += dE` is NaN exactly when either side is NaN; adding a finite 0 changes nothing; a finite sum exceeds `energy` by exactly `dE` |
| Energy.SystemEnergy | simulation/energy.py:10-17 | the value of `total_energy` is finite exactly when no two particles coincide, and fewer than two particles have total energy 0 |
| Energy.SystemEnergyBeyondCutoff | simulation/energy.py:10-17 | when every pair is at or beyond the cutoff, the total energy is exactly 0 |
| Energy.ClearIsNonDegenerate | simulation/energy.py:12-16 | no pair `i < j` coinciding is the same as no two distinct particles coinciding |
| Energy.TotalEnergy | simulation/energy.py:10-17 | `total_energy` over the first `N` positions is the pair sum of the pair energies over `i < j`, in loop order, or NaN when two particles coincide |
| Energy.PairLoop | simulation/energy.py:11-17 | the double loop's accumulator: after row `i`, the sum over the pairs whose first index is below `i`; the result is NaN from the first coincident pair on |
| Energy.PairTermSymmetric | simulation/energy.py:14-16 | the pair energy does not depend on the order of the two particles |
| Energy.EnergyChange | simulation/monte_carlo.py:12-19 | on a configuration free of coincident pairs, the summed `dE` is finite exactly when the configuration after the move is free of them too |
| Energy.MovedApart | simulation/monte_carlo.py:13-19 | a move whose summed change is finite keeps the configuration free of coincident pairs |
| Energy.MovedOnto | simulation/monte_carlo.py:13-19 | a move whose summed change is NaN makes two particles coincide |
| Energy.MoveEnergy | simulation/monte_carlo.py:12-19 | moving one particle of a non-degenerate configuration changes its total energy by exactly the summed change: the new total is the old total plus the change, NaN on both sides exactly when the move lands on a particle |
| MonteCarlo.Offset | simulation/monte_carlo.py:9 | `(u - 0.5) * max_disp` lies in [-max_disp/2, max_disp/2) for `u` in [0, 1) |
| MonteCarlo.Displacement | simulation/monte_carlo.py:9 | every component of the trial offset lies in [-max_disp/2, max_disp/2) when the uniforms lie in [0, 1) |
| MonteCarlo.Propose | simulation/monte_carlo.py:9-10 | the wrapped trial position lies in the 10.0 box and differs from the displaced position by whole multiples of 10.0 |
| MonteCarlo.ProposeInside | simulation/monte_carlo.py:9-10 | a displaced position still inside the box is not wrapped |
| MonteCarlo.Accepts | simulation/monte_carlo.py:22 | the Metropolis test rejects a NaN change, accepts every negative change, and accepts a non-negative change exactly when the uniform is below `exp(-beta * dE)` |
| MonteCarlo.Trial | simulation/monte_carlo.py:8-10 | the trial position of particle `i` lies in the 10.0 box and differs from `old_pos` plus the displacement by whole multiples of 10.0 on every axis |
| MonteCarlo.FlatMoveAccepted | simulation/monte_carlo.py:22 | a change of exactly 0 is accepted for every uniform below 1 |
| MonteCarlo.AcceptsMonotone | simulation/monte_carlo.py:22 | at positive `beta`, a move accepted at some change is accepted at every smaller change |
| MonteCarlo.Step | simulation/monte_carlo.py:21-27 | only entry `i` can change; an accepted move puts the trial position, inside the box, at `i` and adds the change to the energy; a rejected move changes nothing; a NaN change is rejected, a negative change is accepted whatever the uniform, and a non-negative change is accepted exactly when the uniform is below `exp(-beta * dE)` |
| MonteCarlo.StepKeepsEnergy | simulation/monte_carlo.py:12-25 | when the running energy is the total energy of a non-degenerate configuration, it still is after the step, accepted or not, and the configuration stays non-degenerate |
| MonteCarlo.MonteCarloStep | simulation/monte_carlo.py:6-27 | the in-place step on the array returns the outcome of `Step` with the change that the loop sums; the result depends on neither `L` nor `rc` |
| MonteCarlo.SumChange | simulation/monte_carlo.py:12-19 | the `dE` loop returns the sum over `j != i`, in loop order, of the new pair energy minus the old one, or NaN when `j` sits on the old or new place of `i` |
| Setup.Far | simulation/setup.py:11 | the distance test does not depend on the order of the two points |
| Setup.FarIsNormAbove | simulation/setup.py:11 | the squared-distance test is the source's test `norm > min_dist` on the non-negative root |
| Setup.TrialPoint | simulation/setup.py:10 | `np.random.rand(3) * L` lies in the box |
| Setup.Coordinate | simulation/setup.py:10 | `u * L` lies in [0, L) for `u` in [0, 1) |
| Setup.Trials | simulation/setup.py:10 | the trial points of the draws, one per draw, in draw order |
| Setup.Admits | simulation/setup.py:11 | at a non-negative `min_dist`, a trial point that passes the `all(...)` test lies on none of the points placed so far |
| Setup.Place | simulation/setup.py:8-13 | the placement loop keeps the points placed earlier, in place, at the front, and places no more than `N` points unless more were already placed |
| Setup.AppendSeparated | simulation/setup.py:11-12 | appending an admitted trial keeps every pair of placed points farther apart than `min_dist` |
| Setup.PlaceFacts | simulation/setup.py:8-13 | separation is preserved; the new points are trial points taken in draw order, with rejected trials dropped |
| Setup.FirstTrialKept | simulation/setup.py:11-12 | the first trial is always kept, since `all` over nothing holds |
| Setup.PlaceInBox | simulation/setup.py:10-13 | every placed point lies in the box |
| Setup.SeparatedIsNonDegenerate | simulation/setup.py:11 | placed points at a non-negative `min_dist` never coincide, so their energy is finite |
| Setup.InitializePositionsNoOverlap | simulation/setup.py:7-13 | the loop returns the placement of the draws: every two points are farther apart than `min_dist`, and no more than `N` are placed |
| Driver.Chain | main.py:16-20 | the chain of steps keeps the number of particles and counts between 0 and the number of steps as accepted |
| Driver.Next | main.py:17-20 | one step keeps the number of particles, and adds 0 or 1 to the accepted count |
| Driver.ChainKeepsEnergy | main.py:9-17 | along the whole chain, the running energy is the total energy of the current configuration, which stays free of coincident pairs |
| Driver.SaveCount | main.py:16-23 | the number of records of a run of `total` steps is the ceiling of `total / save_every`: `(count - 1) * save_every < total <= count * save_every`, and 0 for no steps |
| Driver.CeilUnique | main.py:16-23 | that bound determines the record count |
| Driver.SaveCountStep | main.py:21 | one more step adds a record exactly when its index is a multiple of `save_every`, and that record is number `step / save_every` |
| Driver.FollowsAppend | main.py:16-17 | a history of states stays valid when a state is appended |
| Driver.FollowsIsChain | main.py:16-20 | a history that starts at the initial state and follows the draws is the chain, state by state |
| Driver.RecordedExtend | main.py:21-23 | records already made stay valid as the run goes on |
| Driver.RecordedMeans | main.py:21-23 | record `m` holds the state right after step `m * save_every` |
| Driver.ChainStep | main.py:17-20 | one pass of the loop body is one chain step, counting an accepted move |
| Driver.ProgressStep | main.py:16-23 | one pass of the loop keeps the history, the records and the record count |
| Driver.ProgressIsChain | main.py:16-23 | at the end of the loop the state and every record are states of the chain |
| Driver.RunChain | main.py:13-23 | after the loop, `total_moves == n_steps` and `0 <= accepted_moves <= total_moves`; the final state is the chain of all steps; there are `ceil(n_steps / save_every)` records of configurations and energies, record `m` being the state right after step `m * save_every` |
| Driver.AcceptanceRatio | main.py:25 | `accepted / total` raises exactly when no move was made; otherwise it times `total` is `accepted`, and it lies in [0, 1] |
| Driver.RecordsKeepEnergy | main.py:21-23 | every record holds `N` particles, free of coincident pairs, with their total energy |
| Driver.RunFrom | main.py:9-25 | from placed particles, record `m` is the state of the chain from those particles and their total energy right after step `m * save_every`; every recorded energy is the total energy of the recorded configuration; the acceptance ratio is the chain's accepted count over `n_steps`, and lies in [0, 1] |
| Driver.Simulate | main.py:8-25 | a run fails to start exactly when the placement draws run out before `N` particles are placed; otherwise it records `ceil(n_steps / save_every)` configurations, record `m` being the state of the chain from the placed particles right after step `m * save_every`, each free of overlaps and recorded with its total energy; its acceptance ratio is the chain's accepted count over `n_steps`, and lies in [0, 1] |
| Driver.DefaultRecordCount | config.py:17-19 | at the defaults the run records 2000 configurations |

## Left out

- IEEE-754 arithmetic: rounding, overflow to infinity for tiny `r2`, and drift of the running energy. Reals are exact, so the running energy equals the total energy exactly, not up to rounding. NaN is kept, because it decides which moves are accepted.
- The random number generator and its seeding (config.py:22-23). Draws are inputs. The source draws the acceptance uniform unless `dE < 0`, including when `dE` is NaN, because `or` short-circuits. The model carries that uniform in every `Draw`, so the mapping from a seeded stream to the draws is not modelled.
- `np.exp` is the parameter `exp`. `ExpLike` states the two properties of the exponential that the acceptance lemmas use.
- main.py:17 calls `monte_carlo_step(positions, energy)` with two of its seven arguments, which raises `TypeError`. The driver uses the seven-argument call with the run constants `N`, `L`, `max_disp`, `beta` and `rc`.
- Setup.InitializePositionsNoOverlap: the source loops until `N` points are placed, possibly forever. The model stops when the finite draws run out too. So it promises at most `N` points, and `Driver.Simulate` reports `Unplaced` when fewer were placed.
- Energy.LjPotential: requires `r2 > 0`. The source's `r2 == 0` case gives NaN, and its callers take it on their NaN path.
- Energy.TotalEnergy: requires at least `N` positions. With fewer, the source raises `IndexError`.
- Boundary.ApplyPeriodic: requires a non-zero box edge, as do `NearestImg`, `Dist2` and the energy and placement members built on them. A zero `L` gives NaN in NumPy and is never used.
- MonteCarlo.MonteCarloStep: requires `0 <= draw.index < n <= positions.Length`. With `N == 0` the source's `np.random.randint(0)` raises `ValueError`, and with `N` above the number of rows indexing `positions` raises `IndexError`; neither error path is modelled.
- Driver.RunChain: requires `save_every != 0`. The source's `step % 0` raises `ZeroDivisionError`.
- Saving the results to `.npy` files, printing the ratio and plotting (main.py:26-33) are I/O.
- `initialise_positions` (simulation/setup.py:4-5), simulation/visualisation.py, utlis/logger.py and streamlit_app.py are not part of this model.
- Statistical properties of the chain (detailed balance, ergodicity, acceptance trends) are not stated.
