/** Run constants of the simulation (config.py). Floating-point numbers are modelled as exact reals. */
module Config {
  /** Edge length of the cubic box. */
  const L: real := 10.0
  /** Volume of the box, `L**3`. */
  const V: real := L * L * L
  /** Particle number density. */
  const Rho: real := 0.1
  /** Number of particles, `int(rho * V)`, written out (see `ParticleCount`). */
  const N: int := 100
  /** Cutoff radius of the Lennard-Jones interaction. */
  const Rc: real := 2.5
  /** Temperature and inverse temperature. */
  const T: real := 0.4
  const Beta: real := 1.0 / T
  /** Number of Monte Carlo steps of a run. */
  const NSteps: int := 20000
  /** Maximum trial displacement per axis. */
  const MaxDisp: real := 0.4
  /** Sampling stride of the trajectory. */
  const SaveEvery: int := 10

  /** The derived constants at their default values. */
  lemma Defaults()
    ensures V == 1000.0 && Rc * Rc == 6.25 && Beta == 2.5
  {
  }

  /** `N` is `int(rho * V)`: Python's `int` truncates, which is `Floor` for this positive value. */
  lemma ParticleCount()
    ensures Rho * V > 0.0 && N == (Rho * V).Floor
  {
    assert V == 1000.0;
    assert Rho * V == 100.0;
  }
}
