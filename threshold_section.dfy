/** The Poincaré section of roessler.py: the samples of a trajectory that lie
    in the thin slab |x| < 0.01 with y > 0 and z > 0, selected by a boolean
    mask over the rows of the trajectory. */
module ThresholdSection {
  import opened Vectors

  /** Half-width of the slab around the plane x = 0. */
  const HALF_WIDTH: real := 0.01

  /** The mask condition; every comparison is strict. */
  predicate InSlab(r: Vec3) {
    r.x < HALF_WIDTH && r.x > -HALF_WIDTH && r.y > 0.0 && r.z > 0.0
  }

  /** The rows of R whose mask entry is true, in their original order. */
  function Select(R: Trajectory): (S: Trajectory)
    ensures |S| <= |R|
    ensures forall i :: 0 <= i < |S| ==> -HALF_WIDTH < S[i].x < HALF_WIDTH && S[i].y > 0.0 && S[i].z > 0.0
  {
    if R == [] then []
    else (if InSlab(R[0]) then [R[0]] else []) + Select(R[1..])
  }

  /** s can be obtained from t by deleting elements. */
  predicate IsSubsequence(s: Trajectory, t: Trajectory)
    decreases |t|
  {
    s == [] || (t != [] && ((s[0] == t[0] && IsSubsequence(s[1..], t[1..])) || IsSubsequence(s, t[1..])))
  }

  /** A state is kept exactly when it occurs in R and satisfies the mask. */
  lemma {:induction false} SelectKeepsExactly(R: Trajectory, p: Vec3)
    ensures p in Select(R) <==> p in R && InSlab(p)
  {
    if R != [] {
      SelectKeepsExactly(R[1..], p);
      assert R == [R[0]] + R[1..];
    }
  }

  /** The selected states keep their order: the result is a subsequence of R. */
  lemma {:induction false} SelectIsSubsequence(R: Trajectory)
    ensures IsSubsequence(Select(R), R)
  {
    if R != [] {
      SelectIsSubsequence(R[1..]);
      var S := Select(R);
      if InSlab(R[0]) {
        assert S[0] == R[0] && S[1..] == Select(R[1..]);
      } else {
        assert S == Select(R[1..]);
      }
    }
  }

  /** The number of samples of R that satisfy the mask. */
  function Count(R: Trajectory): nat {
    if R == [] then 0 else (if InSlab(R[0]) then 1 else 0) + Count(R[1..])
  }

  /** The result has one entry per sample satisfying the mask. */
  lemma {:induction false} SelectLength(R: Trajectory)
    ensures |Select(R)| == Count(R)
  {
    if R != [] {
      SelectLength(R[1..]);
    }
  }

  /** Each state occurs in the result as often as in R if it satisfies the
      mask, and not at all otherwise. */
  lemma {:induction false} SelectMultiplicity(R: Trajectory, p: Vec3)
    ensures multiset(Select(R))[p] == if InSlab(p) then multiset(R)[p] else 0
  {
    if R != [] {
      SelectMultiplicity(R[1..], p);
      assert R == [R[0]] + R[1..];
      assert multiset(R) == multiset{R[0]} + multiset(R[1..]);
    }
  }

  /** The mask acts sample by sample, so it distributes over concatenation. */
  lemma {:induction false} SelectAppend(A: Trajectory, B: Trajectory)
    ensures Select(A + B) == Select(A) + Select(B)
  {
    if A == [] {
      assert A + B == B;
    } else {
      assert (A + B)[0] == A[0] && (A + B)[1..] == A[1..] + B;
      SelectAppend(A[1..], B);
    }
  }

  /** A trajectory already inside the slab is left unchanged. */
  lemma {:induction false} SelectKeepsSlab(R: Trajectory)
    requires forall i :: 0 <= i < |R| ==> InSlab(R[i])
    ensures Select(R) == R
  {
    if R != [] {
      SelectKeepsSlab(R[1..]);
    }
  }

  /** Applying the mask twice gives the same result as applying it once. */
  lemma SelectIdempotent(R: Trajectory)
    ensures Select(Select(R)) == Select(R)
  {
    SelectKeepsSlab(Select(R));
  }
}
