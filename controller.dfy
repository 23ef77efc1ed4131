/** The warm-up-then-observe pipeline of both programs: integrate from r0 for
    the warm-up time t0, restart from the last state reached, integrate for the
    observation time t1, then compute what is displayed. */
module Controller {
  import opened Wrappers
  import opened Vectors
  import opened VectorField
  import opened PlaneSection
  import opened Integration

  // ---------------------------------------------------------------------------
  // roessler.py: both runs use the fixed sample count N.

  /** N, the sample count of every run. */
  const SAMPLES: nat := 10000

  /** What is displayed: the observed trajectory and the fixed point. */
  datatype Run = Run(trajectory: Trajectory, fixedPoint: Option<Vec3>)

  function TraceFixedSamples(solve: Solver, r0: Vec3, t0: real, t1: real, p: Params, sqrtD: real): (run: Run)
    requires IsSolver(solve)
    requires SqrtOfDiscriminant(p, sqrtD)
    ensures |run.trajectory| == SAMPLES
    ensures run.trajectory == solve(WarmStart(solve, r0, p, t0, SAMPLES), p, t1, SAMPLES)
    ensures run.trajectory[0] == Last(solve(r0, p, t0, SAMPLES))
    ensures t0 == 0.0 ==> run.trajectory == solve(r0, p, t1, SAMPLES)
    ensures run.fixedPoint == FixedPoint(p, sqrtD)
    ensures run.fixedPoint.Some? <==> Discriminant(p) >= 0.0 && p.a != 0.0
  {
    var r1 := WarmStart(solve, r0, p, t0, SAMPLES);
    Run(solve(r1, p, t1, SAMPLES), FixedPoint(p, sqrtD))
  }

  // ---------------------------------------------------------------------------
  // TP_chaos-3.py: the warm-up sample count is scaled by t0/t1, and the
  // section through the plane y = 1 is computed and unpacked for display.

  /** The section plane n·r + d = 0 with n = (0, 1, 0) and d = −1, i.e. y = 1. */
  const SECTION_NORMAL := Vec3(0.0, 1.0, 0.0)
  const SECTION_OFFSET := -1.0

  /** Python's int() on a float: truncation toward zero. */
  function Truncate(v: real): (k: int)
    ensures v >= 0.0 ==> k as real <= v < k as real + 1.0
    ensures v < 0.0 ==> k as real - 1.0 < v <= k as real
  {
    if v >= 0.0 then v.Floor else -((-v).Floor)
  }

  /** int(t0/t1*npoints) + 1; None where the division by t1 = 0 raises. */
  function WarmUpCount(t0: real, t1: real, npoints: nat): (n: Option<int>)
    ensures n.None? <==> t1 == 0.0
  {
    if t1 == 0.0 then None else Some(Truncate(t0 / t1 * npoints as real) + 1)
  }

  /** For admissible times the count is at least one, is ⌊t0·npoints/t1⌋ + 1,
      and is exactly one without warm-up. */
  lemma WarmUpCountBounds(t0: real, t1: real, npoints: nat)
    requires t0 >= 0.0 && t1 > 0.0
    ensures WarmUpCount(t0, t1, npoints).Some?
    ensures WarmUpCount(t0, t1, npoints).value >= 1
    ensures (WarmUpCount(t0, t1, npoints).value - 1) as real <= t0 * npoints as real / t1
    ensures t0 * npoints as real / t1 < WarmUpCount(t0, t1, npoints).value as real
    ensures t0 == 0.0 ==> WarmUpCount(t0, t1, npoints) == Some(1)
  {
    var v := t0 / t1 * npoints as real;
    assert v == t0 * npoints as real / t1;
    assert v >= 0.0 by {
      assert t0 / t1 >= 0.0;
    }
  }

  /** Why a run produces nothing to display: the division by t1 = 0, a
      warm-up grid with no sample, or an empty section, which cannot be
      unpacked into its three coordinate rows. */
  datatype Failure = UndefinedWarmUpCount | NoWarmUpSample | EmptySection

  /** What is displayed: the observed trajectory, its section and the fixed point. */
  datatype Observation = Observation(trajectory: Trajectory, section: seq<Vec3>, fixedPoint: Option<Vec3>)

  /** The update of TP_chaos-3.py: warm up with the scaled sample count,
      observe for t1, take the section through y = 1 and unpack it. */
  method TraceScaled(solve: Solver, r0: Vec3, p: Params, t0: real, t1: real, npoints: nat, sqrtD: real)
    returns (res: Result<Observation, Failure>)
    requires IsSolver(solve)
    requires SqrtOfDiscriminant(p, sqrtD)
    ensures t1 == 0.0 <==> res == Failure(UndefinedWarmUpCount)
    ensures t1 != 0.0 ==> (WarmUpCount(t0, t1, npoints).value < 1 <==> res == Failure(NoWarmUpSample))
    ensures t1 != 0.0 && WarmUpCount(t0, t1, npoints).value >= 1 ==>
      var R := solve(WarmStart(solve, r0, p, t0, WarmUpCount(t0, t1, npoints).value), p, t1, npoints);
      (res == Failure(EmptySection) <==> Section(R, SECTION_NORMAL, SECTION_OFFSET) == [])
      && (res.Success? ==> res.value == Observation(R, Section(R, SECTION_NORMAL, SECTION_OFFSET), FixedPoint(p, sqrtD)))
    ensures res.Success? ==> |res.value.trajectory| == npoints && res.value.section != []
    ensures res.Success? ==> forall i :: 0 <= i < |res.value.section| ==> res.value.section[i].y == 1.0
  {
    if t1 == 0.0 {
      return Failure(UndefinedWarmUpCount);
    }
    var n := WarmUpCount(t0, t1, npoints).value;
    if n < 1 {
      return Failure(NoWarmUpSample);
    }
    var r1 := WarmStart(solve, r0, p, t0, n);
    var R := solve(r1, p, t1, npoints);
    var P := Poincare(R, SECTION_NORMAL, SECTION_OFFSET);
    if P == [] {
      return Failure(EmptySection);
    }
    res := Success(Observation(R, P, FixedPoint(p, sqrtD)));
    SectionLiesOnYOne(R);
  }

  /** A run without warm-up starts exactly at r0: the warm-up grid then has a
      single sample, the initial state. */
  lemma ZeroWarmUpStartsAtR0(solve: Solver, r0: Vec3, p: Params, t1: real, npoints: nat)
    requires IsSolver(solve)
    requires t1 > 0.0
    ensures WarmUpCount(0.0, t1, npoints) == Some(1)
    ensures WarmStart(solve, r0, p, 0.0, WarmUpCount(0.0, t1, npoints).value) == r0
  {
  }

  /** Segment [r1, r2] is recorded exactly when one end has y < 0 and the
      other y ≥ 1: detection looks at the sign of y, interpolation at y = 1. */
  lemma SectionPlaneRecords(r1: Vec3, r2: Vec3)
    ensures Intersect(r1, r2, SECTION_NORMAL, SECTION_OFFSET).Some?
      <==> (r1.y < 0.0 && r2.y >= 1.0) || (r1.y >= 1.0 && r2.y < 0.0)
  {
    assert Dot(r1, SECTION_NORMAL) == r1.y && Dot(r2, SECTION_NORMAL) == r2.y;
    if TestIntersect(r1, r2, SECTION_NORMAL, SECTION_OFFSET) {
      assert CrossingParameter(r1, r2, SECTION_NORMAL, SECTION_OFFSET) == (1.0 - r1.y) / (r2.y - r1.y);
      FractionToOne(r1.y, r2.y);
    }
  }

  /** For ends of opposite sign, the parameter where y reaches 1 lies in
      [0, 1] exactly when one end has y ≥ 1. */
  lemma FractionToOne(u: real, v: real)
    requires (u < 0.0 < v) || (v < 0.0 < u)
    ensures 0.0 <= (1.0 - u) / (v - u) <= 1.0 <==> (u < 0.0 && v >= 1.0) || (u >= 1.0 && v < 0.0)
  {
  }

  /** Every recorded point lies on y = 1, not on the plane y = 0. */
  lemma SectionLiesOnYOne(R: Trajectory)
    ensures forall i :: 0 <= i < |Section(R, SECTION_NORMAL, SECTION_OFFSET)| ==>
      Section(R, SECTION_NORMAL, SECTION_OFFSET)[i].y == 1.0
  {
  }

  /** A trajectory that stays below y = 1 has an empty section, even when it
      crosses y = 0: so the update then fails with EmptySection. */
  lemma BelowSectionPlaneHasEmptySection(R: Trajectory)
    requires forall i :: 0 <= i < |R| ==> R[i].y < 1.0
    ensures Section(R, SECTION_NORMAL, SECTION_OFFSET) == []
  {
    forall i | 0 <= i < |R|
      ensures Dot(R[i], SECTION_NORMAL) + SECTION_OFFSET < 0.0
    {
    }
    StrictlyOneSidedTrajectoryHasEmptySection(R, SECTION_NORMAL, SECTION_OFFSET);
  }
}
