/** The Poincaré section of TP_chaos-3.py: the points where the segments
    between consecutive samples cross the plane n·r + d = 0, located by linear
    interpolation. The crossing is detected from the signs of n·r alone, so
    the offset d matters only once a crossing has been detected. */
module PlaneSection {
  import opened Wrappers
  import opened Vectors

  /** n·(r2 − r1), the divisor of the interpolation. */
  function Denominator(r1: Vec3, r2: Vec3, n: Vec3): (denom: real)
    ensures denom == Dot(r2, n) - Dot(r1, n)
  {
    Dot(Sub(r2, r1), n)
  }

  /** The detection test: n·r1 and n·r2 have strictly opposite signs. */
  function TestIntersect(r1: Vec3, r2: Vec3, n: Vec3, d: real): (detected: bool)
    ensures detected <==> (Dot(r1, n) < 0.0 < Dot(r2, n)) || (Dot(r2, n) < 0.0 < Dot(r1, n))
  {
    var s1, s2 := Dot(r1, n), Dot(r2, n);
    OppositeSigns(s1, s2);
    s1 * s2 < 0.0
  }

  /** The offset plays no part in detection. */
  lemma DetectionIgnoresOffset(r1: Vec3, r2: Vec3, n: Vec3, d1: real, d2: real)
    ensures TestIntersect(r1, r2, n, d1) == TestIntersect(r1, r2, n, d2)
  {
  }

  /** A detected segment is never parallel to the plane, so the division in
      the interpolation is never by zero. */
  lemma DetectedSegmentIsNotParallel(r1: Vec3, r2: Vec3, n: Vec3, d: real)
    requires TestIntersect(r1, r2, n, d)
    ensures Denominator(r1, r2, n) != 0.0
  {
  }

  /** The parameter t at which the line r1 + t·(r2 − r1) meets the plane. */
  function CrossingParameter(r1: Vec3, r2: Vec3, n: Vec3, d: real): (t: real)
    requires Denominator(r1, r2, n) != 0.0
    ensures Dot(Lerp(r1, r2, t), n) + d == 0.0
  {
    var t := -(Dot(r1, n) + d) / Denominator(r1, r2, n);
    DotLerp(r1, r2, n, t);
    t
  }

  /** No other point of the line lies on the plane. */
  lemma CrossingParameterIsUnique(r1: Vec3, r2: Vec3, n: Vec3, d: real, s: real)
    requires Denominator(r1, r2, n) != 0.0
    requires Dot(Lerp(r1, r2, s), n) + d == 0.0
    ensures s == CrossingParameter(r1, r2, n, d)
  {
  }

  /** The crossing point of segment [r1, r2], when the sign test detects one
      and the interpolation parameter lies in [0, 1] (both ends included). */
  function Intersect(r1: Vec3, r2: Vec3, n: Vec3, d: real): (pt: Option<Vec3>)
    ensures pt.Some? <==> TestIntersect(r1, r2, n, d) && 0.0 <= CrossingParameter(r1, r2, n, d) <= 1.0
    ensures pt.Some? ==> pt.value == Lerp(r1, r2, CrossingParameter(r1, r2, n, d))
    ensures pt.Some? ==> Dot(pt.value, n) + d == 0.0
  {
    var direction := Sub(r2, r1);
    if TestIntersect(r1, r2, n, d) then
      var t := -(Dot(r1, n) + d) / Dot(direction, n);
      if 0.0 <= t <= 1.0 then Some(Add(r1, Scale(t, direction))) else None
    else None
  }

  /** The full signed-distance test: r1 and r2 lie strictly on opposite
      sides of the plane n·r + d = 0. This is the test the detection would
      use if it took the offset into account. */
  predicate StraddlesPlane(r1: Vec3, r2: Vec3, n: Vec3, d: real) {
    (Dot(r1, n) + d < 0.0 < Dot(r2, n) + d) || (Dot(r2, n) + d < 0.0 < Dot(r1, n) + d)
  }

  /** A segment whose ends lie strictly on opposite sides of the plane meets
      it strictly inside the segment. */
  lemma StraddlingSegmentMeetsPlaneInside(r1: Vec3, r2: Vec3, n: Vec3, d: real)
    requires StraddlesPlane(r1, r2, n, d)
    ensures Denominator(r1, r2, n) != 0.0
    ensures 0.0 < CrossingParameter(r1, r2, n, d) < 1.0
  {
    var s1, s2 := Dot(r1, n) + d, Dot(r2, n) + d;
    var den := Denominator(r1, r2, n);
    assert den == s2 - s1 != 0.0;
    assert CrossingParameter(r1, r2, n, d) == -s1 / den;
    FractionInside(s1, s2);
  }

  lemma OppositeSigns(u: real, v: real)
    ensures u * v < 0.0 <==> (u < 0.0 < v) || (v < 0.0 < u)
  {
  }

  /** The zero of the affine map s ↦ u + s·(v − u) lies strictly between 0 and 1. */
  lemma FractionInside(u: real, v: real)
    requires (u < 0.0 < v) || (v < 0.0 < u)
    ensures 0.0 < -u / (v - u) < 1.0
  {
  }

  /** With a zero offset the sign test is the full test, and every detected
      sign change is recorded, strictly inside the segment. */
  lemma ZeroOffsetRecordsEveryDetection(r1: Vec3, r2: Vec3, n: Vec3)
    ensures TestIntersect(r1, r2, n, 0.0) <==> StraddlesPlane(r1, r2, n, 0.0)
    ensures Intersect(r1, r2, n, 0.0).Some? <==> StraddlesPlane(r1, r2, n, 0.0)
    ensures StraddlesPlane(r1, r2, n, 0.0) ==> 0.0 < CrossingParameter(r1, r2, n, 0.0) < 1.0
  {
  }

  /** With a non-zero offset a segment may cross the plane without being
      detected: with n = (0, 1, 0) and d = −1, the segment from y = 0.5 to
      y = 1.5 straddles y = 1, yet no point is recorded. */
  lemma OffsetCrossingMissed()
    ensures StraddlesPlane(Vec3(0.0, 0.5, 0.0), Vec3(0.0, 1.5, 0.0), Vec3(0.0, 1.0, 0.0), -1.0)
    ensures Intersect(Vec3(0.0, 0.5, 0.0), Vec3(0.0, 1.5, 0.0), Vec3(0.0, 1.0, 0.0), -1.0) == None
  {
  }

  /** With a non-zero offset a detected sign change may be dropped: with
      n = (0, 1, 0) and d = −1, the segment from y = −1 to y = 0.5 changes the
      sign of y but stays on one side of y = 1. */
  lemma OffsetDetectionDropped()
    ensures TestIntersect(Vec3(0.0, -1.0, 0.0), Vec3(0.0, 0.5, 0.0), Vec3(0.0, 1.0, 0.0), -1.0)
    ensures !StraddlesPlane(Vec3(0.0, -1.0, 0.0), Vec3(0.0, 0.5, 0.0), Vec3(0.0, 1.0, 0.0), -1.0)
    ensures Intersect(Vec3(0.0, -1.0, 0.0), Vec3(0.0, 0.5, 0.0), Vec3(0.0, 1.0, 0.0), -1.0) == None
  {
    var r1, r2, n := Vec3(0.0, -1.0, 0.0), Vec3(0.0, 0.5, 0.0), Vec3(0.0, 1.0, 0.0);
    assert Dot(r1, n) == -1.0 && Dot(r2, n) == 0.5;
    assert Denominator(r1, r2, n) == 1.5;
    assert CrossingParameter(r1, r2, n, -1.0) == 2.0 / 1.5;
  }

  /** The section, built pair by pair: the recorded crossings of the segments
      [R[i], R[i+1]] in increasing i. */
  function Section(R: Trajectory, n: Vec3, d: real): (P: seq<Vec3>)
    ensures |R| <= 1 ==> P == []
    ensures |R| >= 1 ==> |P| <= |R| - 1
    ensures forall i :: 0 <= i < |P| ==> Dot(P[i], n) + d == 0.0
    decreases |R|
  {
    if |R| < 2 then []
    else
      var earlier := Section(R[..|R| - 1], n, d);
      match Intersect(R[|R| - 2], R[|R| - 1], n, d)
      case Some(pt) => earlier + [pt]
      case None => earlier
  }

  /** The scan of TP_chaos-3.py: one pass over consecutive pairs, appending
      each crossing that is found. */
  method Poincare(R: Trajectory, n: Vec3, d: real) returns (P: seq<Vec3>)
    ensures P == Section(R, n, d)
  {
    P := [];
    var i := 0;
    while i < |R| - 1
      invariant 0 <= i
      invariant |R| > 0 ==> i < |R| && P == Section(R[..i + 1], n, d)
      invariant |R| == 0 ==> P == []
    {
      var pt := Intersect(R[i], R[i + 1], n, d);
      assert R[..i + 2][..i + 1] == R[..i + 1];
      if pt.Some? {
        P := P + [pt.value];
      }
      i := i + 1;
    }
    assert |R| > 0 ==> R[..i + 1] == R;
  }

  /** One entry per consecutive pair: what intersect returns for it. */
  function Candidates(R: Trajectory, n: Vec3, d: real): (C: seq<Option<Vec3>>)
    ensures |C| == if |R| == 0 then 0 else |R| - 1
    ensures forall i :: 0 <= i < |C| ==> C[i] == Intersect(R[i], R[i + 1], n, d)
  {
    seq(if |R| == 0 then 0 else |R| - 1, i requires 0 <= i < |R| - 1 => Intersect(R[i], R[i + 1], n, d))
  }

  /** The values of the present entries, in order. */
  function Present(C: seq<Option<Vec3>>): seq<Vec3> {
    if C == [] then []
    else (match C[0] case Some(pt) => [pt] case None => []) + Present(C[1..])
  }

  lemma {:induction false} PresentAppend(A: seq<Option<Vec3>>, B: seq<Option<Vec3>>)
    ensures Present(A + B) == Present(A) + Present(B)
  {
    if A == [] {
      assert A + B == B;
    } else {
      assert (A + B)[0] == A[0] && (A + B)[1..] == A[1..] + B;
      PresentAppend(A[1..], B);
    }
  }

  /** The section is exactly the list of non-empty intersect results over the
      consecutive pairs, in increasing order of the pair. */
  lemma {:induction false} SectionIsPresentCandidates(R: Trajectory, n: Vec3, d: real)
    ensures Section(R, n, d) == Present(Candidates(R, n, d))
    decreases |R|
  {
    if |R| >= 2 {
      var R' := R[..|R| - 1];
      SectionIsPresentCandidates(R', n, d);
      var last := Intersect(R[|R| - 2], R[|R| - 1], n, d);
      assert Candidates(R, n, d) == Candidates(R', n, d) + [last];
      PresentAppend(Candidates(R', n, d), [last]);
    } else {
      assert Candidates(R, n, d) == [];
    }
  }

  /** A point is in the section exactly when some consecutive pair yields it. */
  lemma SectionMembers(R: Trajectory, n: Vec3, d: real, pt: Vec3)
    ensures pt in Section(R, n, d) <==> exists i :: 0 <= i < |R| - 1 && Intersect(R[i], R[i + 1], n, d) == Some(pt)
  {
  }

  /** A trajectory that stays on one side of n·r = 0 (touching allowed) has an
      empty section, whatever the offset. */
  lemma {:induction false} OneSidedTrajectoryHasEmptySection(R: Trajectory, n: Vec3, d: real)
    requires (forall i :: 0 <= i < |R| ==> Dot(R[i], n) >= 0.0) || (forall i :: 0 <= i < |R| ==> Dot(R[i], n) <= 0.0)
    ensures Section(R, n, d) == []
    decreases |R|
  {
    if |R| >= 2 {
      OneSidedTrajectoryHasEmptySection(R[..|R| - 1], n, d);
      assert !TestIntersect(R[|R| - 2], R[|R| - 1], n, d);
    }
  }

  /** A trajectory that stays strictly on one side of the plane n·r + d = 0
      has an empty section: every recorded point lies on the plane. */
  lemma {:induction false} StrictlyOneSidedTrajectoryHasEmptySection(R: Trajectory, n: Vec3, d: real)
    requires (forall i :: 0 <= i < |R| ==> Dot(R[i], n) + d > 0.0) || (forall i :: 0 <= i < |R| ==> Dot(R[i], n) + d < 0.0)
    ensures Section(R, n, d) == []
    decreases |R|
  {
    if |R| >= 2 {
      var R' := R[..|R| - 1];
      assert forall i :: 0 <= i < |R'| ==> R'[i] == R[i];
      StrictlyOneSidedTrajectoryHasEmptySection(R', n, d);
      OneSidedSegmentNotRecorded(R[|R| - 2], R[|R| - 1], n, d);
    }
  }

  /** A segment whose ends lie strictly on the same side of the plane records
      no point. */
  lemma OneSidedSegmentNotRecorded(r1: Vec3, r2: Vec3, n: Vec3, d: real)
    requires (Dot(r1, n) + d > 0.0 && Dot(r2, n) + d > 0.0) || (Dot(r1, n) + d < 0.0 && Dot(r2, n) + d < 0.0)
    ensures Intersect(r1, r2, n, d) == None
  {
    if TestIntersect(r1, r2, n, d) {
      var t := CrossingParameter(r1, r2, n, d);
      DotLerp(r1, r2, n, t);
      if 0.0 <= t <= 1.0 {
        SameSideCombination(Dot(r1, n) + d, Dot(r2, n) + d, t);
        assert false;
      }
    }
  }

  /** u + t·(v − u), for t in [0, 1], keeps the common sign of u and v. */
  lemma SameSideCombination(u: real, v: real, t: real)
    requires 0.0 <= t <= 1.0
    ensures u > 0.0 && v > 0.0 ==> u + t * (v - u) > 0.0
    ensures u < 0.0 && v < 0.0 ==> u + t * (v - u) < 0.0
  {
    // u + t·(v − u) lies between u and v
    assert u + t * (v - u) == v - (1.0 - t) * (v - u);
    if u <= v {
      NonNegativeProduct(t, v - u);
      NonNegativeProduct(1.0 - t, v - u);
    } else {
      NonNegativeProduct(t, u - v);
      NonNegativeProduct(1.0 - t, u - v);
    }
  }

  lemma NonNegativeProduct(x: real, y: real)
    requires x >= 0.0 && y >= 0.0
    ensures x * y >= 0.0
  {
  }
}
