/** The numerical integrator, taken as given: an adaptive solver run over a
    uniform time grid of a given number of samples. Nothing is claimed about
    its accuracy; only the shape of what it returns is assumed. */
module Integration {
  import opened Vectors
  import opened VectorField

  /** Initial state, parameters, duration and sample count to the states at
      the samples of the grid from 0 to the duration. */
  type Solver = (Vec3, Params, real, nat) -> Trajectory

  /** What any integrator of the Rössler equations returns: one state per
      sample, the initial state first, and the initial state throughout when
      the duration is zero. */
  ghost predicate IsSolver(solve: Solver) {
    && (forall r0, p, duration, samples :: |solve(r0, p, duration, samples)| == samples)
    && (forall r0, p, duration, samples :: samples > 0 ==> solve(r0, p, duration, samples)[0] == r0)
    && (forall r0, p, samples, k :: 0 <= k < samples ==> solve(r0, p, 0.0, samples)[k] == r0)
  }

  /** The assumption can be met: the solver that stays at r0 satisfies it. */
  lemma StationarySolverIsSolver()
    ensures IsSolver((r0: Vec3, p: Params, duration: real, samples: nat) => seq(samples, _ => r0))
  {
  }

  function Last(R: Trajectory): Vec3
    requires |R| > 0
  {
    R[|R| - 1]
  }

  /** The state reached at the end of the warm-up run: the last sample of a
      run of the given duration and sample count from r0. */
  function WarmStart(solve: Solver, r0: Vec3, p: Params, duration: real, samples: nat): (r1: Vec3)
    requires IsSolver(solve)
    requires samples > 0
    ensures samples == 1 ==> r1 == r0
    ensures duration == 0.0 ==> r1 == r0
  {
    Last(solve(r0, p, duration, samples))
  }
}
