/** The closed form for one-dimensional basic sets (interval_sample,
    isl_sample.c:39-93), applied to the result of isl_basic_set_simplify. */
module Interval {
  import opened Wrappers
  import opened Vectors
  import opened BasicSets

  /** What simplify leaves of a one-dimensional set: every constraint has
      coefficient 1 or -1, and no two inequalities bound in the same
      direction. */
  ghost predicate Normalized1D(p: Poly)
    requires WellFormed(p) && p.dim == 1
  {
    && (forall i :: 0 <= i < |p.eq| ==> p.eq[i][1] == 1 || p.eq[i][1] == -1)
    && (forall i :: 0 <= i < |p.ineq| ==> p.ineq[i][1] == 1 || p.ineq[i][1] == -1)
    && (forall i, j :: 0 <= i < j < |p.ineq| ==> p.ineq[i][1] != p.ineq[j][1])
  }

  /** The value that makes the first inequality tight, as the code computes
      it: -c for coefficient 1 and c otherwise. */
  function Candidate(p: Poly): (v: seq<int>)
    requires WellFormed(p) && p.dim == 1 && |p.ineq| > 0
    ensures |v| == 2 && v[0] == 1
    ensures p.ineq[0][1] == 1 || p.ineq[0][1] == -1 ==> Dot(p.ineq[0], v) == 0
  {
    var c := p.ineq[0][0];
    var v := [1, if p.ineq[0][1] == 1 then -c else c];
    DotFront(p.ineq[0], v);
    DotFront(p.ineq[0][..1], v[..1]);
    v
  }

  /** The outcome of interval_sample, case by case: the empty sample when the
      set is marked empty, the zero sample when nothing constrains it, the
      root of a single equality with coefficient 1 or -1, an error for any
      other equality configuration, and otherwise the candidate that makes
      the first inequality tight provided it satisfies all the others. */
  ghost function IntervalValue(p: Poly): (r: Result<seq<int>>)
    requires WellFormed(p) && p.dim == 1
    ensures r.Ok? && r.value != EmptySample ==> |r.value| == 2 && r.value[0] == 1
    ensures !p.empty && |p.eq| > 0 ==> r != Ok(EmptySample)
  {
    if p.empty then Ok(EmptySample)
    else if |p.eq| == 0 && |p.ineq| == 0 then Ok(ZeroSample(1))
    else if |p.eq| > 0 then
      if |p.eq| != 1 || |p.ineq| != 0 then Fail
      else if p.eq[0][1] == 1 then Ok([1, -p.eq[0][0]])
      else if p.eq[0][1] == -1 then Ok([1, p.eq[0][0]])
      else Fail
    else if forall i :: 1 <= i < |p.ineq| ==> Dot(p.ineq[i], Candidate(p)) >= 0 then Ok(Candidate(p))
    else Ok(EmptySample)
  }

  /** interval_sample on the already simplified set p. */
  method IntervalSample(p: Poly) returns (r: Result<seq<int>>)
    requires WellFormed(p) && p.dim == 1
    ensures r == IntervalValue(p)
  {
    if p.empty {
      return Ok(EmptySample);
    }
    if |p.eq| == 0 && |p.ineq| == 0 {
      return Ok(ZeroSample(1));
    }
    if |p.eq| > 0 {
      if |p.eq| != 1 || |p.ineq| != 0 {
        return Fail;
      }
      if p.eq[0][1] == 1 {
        return Ok([1, -p.eq[0][0]]);
      } else if p.eq[0][1] == -1 {
        return Ok([1, p.eq[0][0]]);
      }
      return Fail;
    }
    var sample := Candidate(p);
    var i := 1;
    while i < |p.ineq|
      invariant 1 <= i <= |p.ineq|
      invariant forall k :: 1 <= k < i ==> Dot(p.ineq[k], sample) >= 0
    {
      var t := Dot(p.ineq[i], sample);
      if t < 0 {
        break;
      }
      i := i + 1;
    }
    if i < |p.ineq| {
      return Ok(EmptySample);
    }
    return Ok(sample);
  }

  lemma Dot2(r: Row, v: seq<int>)
    requires |r| == 2 && |v| == 2
    ensures Dot(r, v) == r[0] * v[0] + r[1] * v[1]
  {
    DotFront(r, v);
    DotFront(r[..1], v[..1]);
  }

  /** A non-empty answer is an integer point of the set, provided the
      constraint it is built from has coefficient 1 or -1 (which the code
      checks for the equality and simplify guarantees for the inequality). */
  lemma IntervalSound(p: Poly)
    requires WellFormed(p) && p.dim == 1
    requires |p.eq| == 0 && |p.ineq| > 0 ==> p.ineq[0][1] == 1 || p.ineq[0][1] == -1
    ensures IntervalValue(p).Ok? && IntervalValue(p).value != EmptySample ==>
      IsSample(p, IntervalValue(p).value)
  {
    var r := IntervalValue(p);
    if r.Ok? && r.value != EmptySample && |p.eq| > 0 {
      Dot2(p.eq[0], r.value);
    }
  }

  /** The empty answer is only given for sets without integer points, when
      the set is normalized and its empty flag is trustworthy. */
  lemma IntervalComplete(p: Poly)
    requires WellFormed(p) && p.dim == 1 && Normalized1D(p) && FlagSound(p)
    ensures IntervalValue(p) == Ok(EmptySample) ==> NoSample(p)
  {
    if IntervalValue(p) == Ok(EmptySample) && !p.empty {
      var c := Candidate(p);
      var i :| 1 <= i < |p.ineq| && Dot(p.ineq[i], c) < 0;
      assert p.ineq[0][1] != p.ineq[i][1];
      Dot2(p.ineq[i], c);
      forall v: seq<int> | |v| == 2 && v[0] == 1
        ensures Dot(p.ineq[0], v) < 0 || Dot(p.ineq[i], v) < 0
      {
        Dot2(p.ineq[0], v);
        Dot2(p.ineq[i], v);
      }
    }
  }
}
