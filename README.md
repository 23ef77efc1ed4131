# Rössler system: vector field, fixed point and Poincaré sections

A Dafny model of the numeric core of two teaching programs that explore the
Rössler system

    dx/dt = −y − z,   dy/dt = x + a·y,   dz/dt = b + (x − c)·z

`roessler.py` integrates the system, discards a warm-up run and displays the
observed trajectory with the analytic fixed point; it also defines a
Poincaré section by thresholding (the samples with |x| < 0.01, y > 0,
z > 0). `TP_chaos-3.py` does the same with a warm-up sample count scaled by
t0/t1, and computes a second kind of Poincaré section: the points where the
segments between consecutive samples cross a plane n·r + d = 0, located by
linear interpolation.

All arithmetic is over exact reals. The vector field and the fixed-point
formula appear with identical text in both programs (roessler.py:93-97 and
TP_chaos-3.py:35-39; roessler.py:135-141 and TP_chaos-3.py:92-98) and are
modelled once, in `VectorField`.

Modules, leaves first:

- `Wrappers`: `Option` and `Result`.
- `Vectors`: `Vec3`, `Trajectory = seq<Vec3>`, `Add`, `Sub`, `Scale`, `Dot`, `Lerp`.
- `VectorField`: the parameters (a, b, c), the field and the fixed point.
  The square root √D is a parameter `sqrtD` that the caller must supply as
  the non-negative root whenever D = c² − 4ab ≥ 0.
- `ThresholdSection`: the boolean-mask section of roessler.py.
- `PlaneSection`: `test_intersect`, `intersect` and the `Poincare` scan of
  TP_chaos-3.py; the scan is a method with a loop, proved equal to the
  recursive specification `Section`.
- `Integration`: the integrator as a function-typed parameter `solve`,
  assumed only to return one state per sample, to start at the initial
  state, and to stay there when the duration is zero.
- `Controller`: the warm-up-then-observe pipelines of both programs, the
  warm-up count of TP_chaos-3.py and the plane n = (0, 1, 0), d = −1 it uses.

The model follows the code, including where it behaves differently from what its comments or a careful design would suggest:

- The crossing test uses the signs of n·r1 and n·r2 and ignores d; the
  interpolation uses d. With the plane actually used (y = 1) a segment is
  recorded exactly when one end has y < 0 and the other y ≥ 1, so segments
  crossing y = 1 from above zero are missed, and every recorded point has
  y = 1, although the plot label says "y=0".
- A division by zero in `intersect` is not guarded, but cannot happen: the
  sign test implies n·(r2 − r1) ≠ 0.
- An empty section does not give an empty display: TP_chaos-3.py:120 unpacks
  the transposed empty array into three names and raises, so the whole
  update fails (`Failure(EmptySection)`). A zero observation time t1 raises
  at line 110 (`Failure(UndefinedWarmUpCount)`).
- A negative discriminant (or a = 0) does not raise: the formula yields NaN
  (or infinite) coordinates. The model returns `None` there.
- In roessler.py the threshold section is never called by `trace_Roessler`.

## Model

| member | source | states |
|---|---|---|
| `VectorField.Field` | roessler.py:93-97 | the derivative (−y − z, x + a·y, b + (x − c)·z); its x component vanishes exactly on y = −z, its y component exactly on x = −a·y, and on z = 0 the z component is b |
| `VectorField.FieldIsAutonomous` | roessler.py:93-97 | the derivative does not depend on the time argument |
| `VectorField.FixedPoint` | roessler.py:135-141 | defined exactly when D ≥ 0 and a ≠ 0; its x is (c − √D)/2 and y = −z |
| `VectorField.FixedPointIsEquilibrium` | roessler.py:133-141 | when D ≥ 0 and a ≠ 0 the computed point makes the field (0, 0, 0), as the comment says |
| `VectorField.EquilibriaAreRoots` | TP_chaos-3.py:90-98 | conversely every equilibrium (a ≠ 0) has D ≥ 0, lies on y = −x/a, z = x/a and has x = (c ± √D)/2: the formula picks the lower root |
| `ThresholdSection.Select` | roessler.py:127 | every kept sample has −0.01 < x < 0.01, y > 0, z > 0 (strict); never more samples than the input |
| `ThresholdSection.SelectKeepsExactly` | roessler.py:127 | a state is kept iff it occurs in the trajectory and satisfies the mask |
| `ThresholdSection.SelectIsSubsequence` | roessler.py:127 | the result is a subsequence of the trajectory: original order kept |
| `ThresholdSection.SelectMultiplicity` | roessler.py:127 | each state occurs as often as in the input if it satisfies the mask, else never; the per-state counts fix the result up to order |
| `ThresholdSection.SelectLength` | roessler.py:127 | the result has exactly as many entries as there are samples satisfying the mask |
| `ThresholdSection.SelectAppend` | roessler.py:127 | the mask works sample by sample: selecting a concatenation concatenates the selections |
| `ThresholdSection.SelectKeepsSlab` | roessler.py:127 | a trajectory inside the slab is returned unchanged |
| `ThresholdSection.SelectIdempotent` | roessler.py:127 | selecting twice equals selecting once |
| `PlaneSection.Denominator` | TP_chaos-3.py:54-55 | n·(r2 − r1) equals n·r2 − n·r1 |
| `PlaneSection.TestIntersect` | TP_chaos-3.py:47-51 | true iff n·r1 and n·r2 have strictly opposite signs; a zero dot product gives false |
| `PlaneSection.DetectionIgnoresOffset` | TP_chaos-3.py:47-51 | the result is the same for every offset d |
| `PlaneSection.DetectedSegmentIsNotParallel` | TP_chaos-3.py:54-57 | whenever the test passes the divisor n·(r2 − r1) is non-zero |
| `PlaneSection.CrossingParameter` | TP_chaos-3.py:57 | the point r1 + t·(r2 − r1) at the computed t satisfies n·p + d = 0 |
| `PlaneSection.CrossingParameterIsUnique` | TP_chaos-3.py:57 | no other parameter of the line gives a point on the plane |
| `PlaneSection.Intersect` | TP_chaos-3.py:53-59 | a point is returned iff the sign test passes and 0 ≤ t ≤ 1; it is r1 + t·(r2 − r1) and lies on n·p + d = 0 |
| `PlaneSection.StraddlingSegmentMeetsPlaneInside` | TP_chaos-3.py:43-46 | if r1 and r2 lie strictly on opposite sides of n·r + d = 0, the plane is met at some 0 < t < 1 |
| `PlaneSection.ZeroOffsetRecordsEveryDetection` | TP_chaos-3.py:48-58 | with d = 0 the sign test is the full opposite-sides test and every detected segment yields a point with 0 < t < 1 |
| `PlaneSection.OffsetCrossingMissed` | TP_chaos-3.py:48 | with d ≠ 0 a segment crossing the plane can go undetected (y from 0.5 to 1.5 against y = 1) |
| `PlaneSection.OffsetDetectionDropped` | TP_chaos-3.py:56-59 | with d ≠ 0 a detected sign change can fall outside [0, 1] and be dropped (y from −1 to 0.5 against y = 1) |
| `PlaneSection.Section` | TP_chaos-3.py:61-68 | empty for fewer than two samples, at most len(R) − 1 points, every point on the plane |
| `PlaneSection.Poincare` | TP_chaos-3.py:61-68 | the loop over consecutive pairs returns exactly `Section` |
| `PlaneSection.SectionIsPresentCandidates` | TP_chaos-3.py:61-68 | the section is the list of non-empty `intersect(R[i], R[i+1])` results in increasing i |
| `PlaneSection.SectionMembers` | TP_chaos-3.py:63-66 | a point is in the section iff some consecutive pair yields it |
| `PlaneSection.OneSidedTrajectoryHasEmptySection` | TP_chaos-3.py:61-68 | a trajectory on one side of n·r = 0 has an empty section |
| `PlaneSection.StrictlyOneSidedTrajectoryHasEmptySection` | TP_chaos-3.py:43-68 | a trajectory strictly on one side of the plane n·r + d = 0 has an empty section, whatever its signs of n·r |
| `Integration.IsSolver` | TP_chaos-3.py:78-88 | what is assumed of `solve_Roessler`/`odeint`: as many states as samples, the initial state first, and the initial state throughout when the duration is zero |
| `Integration.StationarySolverIsSolver` | roessler.py:102-116 | the solver assumption is consistent: the solver that stays at r0 satisfies it |
| `Integration.WarmStart` | TP_chaos-3.py:113-116 | the restart state is the last warm-up state; it is r0 when the warm-up has one sample or zero duration |
| `Controller.TraceFixedSamples` | roessler.py:146-168 | both runs have N = 10000 samples; the observed run is the run of duration t1 from the last warm-up state (from r0 when t0 = 0); the displayed point is `FixedPoint(p, √D)`, present iff D ≥ 0 and a ≠ 0 |
| `Controller.Truncate` | TP_chaos-3.py:110 | Python's int(): truncation toward zero, for both signs |
| `Controller.WarmUpCount` | TP_chaos-3.py:110 | undefined exactly when t1 = 0 |
| `Controller.WarmUpCountBounds` | TP_chaos-3.py:107-110 | for t0 ≥ 0, t1 > 0 the count is ⌊t0·npoints/t1⌋ + 1 ≥ 1, and 1 when t0 = 0 |
| `Controller.TraceScaled` | TP_chaos-3.py:103-136 | fails at t1 = 0, with no warm-up sample, or with an empty section; otherwise returns the run of npoints samples from the warm start, its section through y = 1 (all points with y = 1) and the fixed point |
| `Controller.ZeroWarmUpStartsAtR0` | TP_chaos-3.py:110-118 | with t0 = 0 the warm-up has one sample and the observed run starts at r0 |
| `Controller.SectionPlaneRecords` | TP_chaos-3.py:119 | with n = (0, 1, 0), d = −1, a segment is recorded iff one end has y < 0 and the other y ≥ 1 |
| `Controller.SectionLiesOnYOne` | TP_chaos-3.py:119-122 | every point of the section used has y = 1, not the y = 0 of the label |
| `Controller.BelowSectionPlaneHasEmptySection` | TP_chaos-3.py:119-120 | a trajectory that stays below y = 1 has an empty section even if it crosses y = 0, so the unpacking fails |

## Left out

- The integrator (`odeint`) and the time grid (`np.linspace`): an external adaptive solver; only the number of states, the first state and the zero-duration case are assumed, nothing about accuracy.
- Floating-point rounding, NaN and infinity propagation, and numpy's warnings: the model is over exact reals, so NaN/infinite fixed-point coordinates become `None`, and the order of operations in t0/t1*npoints does not matter.
- `VectorField.FixedPoint`: takes √D as an argument instead of computing it, because the model has no square-root function.
- All plotting (`plot3D`, `clear`, the 2D section plot, labels, legends, figure and axes setup, backend selection, `plt.show`).
- The widgets and their callbacks (`update`, `reset`, `quitter`, the sliders and buttons, the conversion 10**val of the sample-count slider) and the module-level mutable parameters they read: user-interface event handling.
- The array conversions (`np.array`, `.T`) except for the failure of unpacking an empty section.
- The call of `Roessler_fixed_point` from inside roessler.py's `Poincare` (line 131) only plots; the threshold selection itself is modelled.
