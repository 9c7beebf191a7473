/** The dispatch layer of isl_sample.c: sample_eq, sample_bounded,
    interval_sample (with its simplification), round_up_in_cone,
    isl_basic_set_sample_with_cone, gbr_sample, pip_sample and
    basic_set_sample, over a basic set object whose cached sample and empty
    flag they update. */
module Sampler {
  import opened Wrappers
  import opened Vectors
  import opened BasicSets
  import opened Interval
  import opened Bounds
  import Spans
  import opened Cone
  import opened TabSearch
  import opened Oracles

  /** The function sample_eq continues with once the equalities are gone:
      sample_bounded, or basic_set_sample with the given `bounded` flag. */
  datatype Recurse = ToSampleBounded | ToBasicSetSample(bounded: bool)

  /** The three ctx->opt fields the sampler reads. */
  function OptValue(opt: Options): (Gbr, bool, IlpSolver)
    reads opt
  {
    (opt.gbr, opt.gbrOnlyFirst, opt.ilpSolver)
  }

  // Termination: each dispatch method has a rank, and a call to sample_eq
  // is made only on a set with equalities that is not marked empty, whose
  // elimination yields a set without them.
  function EqRank(b: BasicSet): nat
    reads b
  {
    if |b.eq| > 0 && !b.empty then 2 else 0
  }

  function RecRank(rec: Recurse): nat
  {
    if rec.ToSampleBounded? then 0 else 4
  }

  /** The cached sample is an integer point (denominator one) if present. */
  ghost predicate CacheIntegral(c: Option<seq<int>>)
  {
    c.Some? && |c.value| > 0 ==> c.value[0] == 1
  }

  /** The test of basic_set_sample: the cached sample has the right size
      and lies in the set. */
  predicate CacheFits(p: Poly, c: Option<seq<int>>)
    requires WellFormed(p)
  {
    c.Some? && |c.value| == 1 + p.dim && Contains(p, c.value)
  }

  // ---------------------------------------------------------------------
  // interval_sample with its simplification.

  /** interval_sample: simplify, then the closed form for one variable.  A
      non-empty answer is an integer point; the empty answer is only given
      for sets without one when the empty flag is trustworthy. */
  method SimplifiedInterval(ops: Engine, P: Poly) returns (r: Result<seq<int>>)
    requires EngineSound(ops) && WellFormed(P) && P.dim == 1
    ensures r.Ok? && r.value != EmptySample ==> IsSample(P, r.value)
    ensures r == Ok(EmptySample) && FlagSound(P) ==> NoSample(P)
  {
    var s := ops.simplify(P);
    assert SimplifyOk(P, s);
    r := IntervalSample(s);
    if !s.empty {
      IntervalSound(s);
      if FlagSound(P) {
        IntervalComplete(s);
      }
    }
  }

  // ---------------------------------------------------------------------
  // sample_eq and sample_bounded.

  /** sample_eq: eliminate the equalities, sample the result with the given
      recursion, and map a non-empty sample back through T. */
  method SampleEq(ops: Engine, opt: Options, P: Poly, rec: Recurse) returns (r: Result<seq<int>>)
    requires EngineSound(ops) && WellFormed(P)
    modifies opt
    decreases RecRank(rec), 1
    ensures OptValue(opt) == old(OptValue(opt))
    ensures r.Ok? && r.value != EmptySample ==> IsSample(P, r.value)
    ensures r == Ok(EmptySample) && FlagSound(P) && (rec.ToBasicSetSample? ==> opt.ilpSolver == GbrSolver) ==>
      NoSample(P)
  {
    var removed := ops.removeEqualities(P);
    if removed.None? {
      return Fail;
    }
    var T, Q := removed.value.0, removed.value.1;
    assert RemoveEqOk(P, T, Q);
    var q := new BasicSet(Q, None);
    var s;
    match rec {
      case ToSampleBounded =>
        s := SampleBounded(ops, opt, q);
      case ToBasicSetSample(bounded) =>
        s := BasicSetSample(ops, opt, q, bounded);
    }
    if s.Fail? || s.value == EmptySample {
      return s;
    }
    return Ok(MatVec(T, s.value));
  }

  /** sample_bounded: the empty, zero- and one-dimensional cases, the
      elimination of equalities, and otherwise isl_tab_sample on the
      tableau of the set with no unbounded direction.  An empty tableau
      marks the set empty; a sample found by the tableau is cached. */
  method SampleBounded(ops: Engine, opt: Options, b: BasicSet) returns (r: Result<seq<int>>)
    requires EngineSound(ops) && b.Valid()
    modifies opt, b
    decreases 0, EqRank(b)
    ensures OptValue(opt) == old(OptValue(opt))
    ensures b.Valid() && b.eq == old(b.eq) && b.ineq == old(b.ineq)
    ensures b.empty == old(b.empty) || (b.empty && NoSample(old(b.Value())))
    ensures b.sample == old(b.sample) || (r.Ok? && b.sample == Some(r.value))
    ensures r.Ok? && r.value != EmptySample ==> |r.value| == 1 + b.dim && r.value[0] == 1
    ensures r.Ok? && r.value != EmptySample && Finalized(old(b.Value())) ==> IsSample(old(b.Value()), r.value)
    ensures r == Ok(EmptySample) && FlagSound(old(b.Value())) ==> NoSample(old(b.Value()))
  {
    ghost var P := b.Value();
    if b.empty {
      return Ok(EmptySample);
    }
    if b.dim == 0 {
      if Finalized(P) {
        ZeroDimSample(P);
      }
      return Ok(ZeroSample(0));
    }
    if b.dim == 1 {
      r := SimplifiedInterval(ops, b.Value());
      return;
    }
    if |b.eq| > 0 {
      r := SampleEq(ops, opt, b.Value(), ToSampleBounded);
      return;
    }
    var tab := ops.tableau(b.Value());
    assert TabOk(P, tab);
    if tab.1 {
      b.empty := true;
      return Ok(EmptySample);
    }
    var t := new Tableau(b.dim, tab.0, P, false, None, 0);
    ghost var trace;
    r, trace := t.Sample(opt, ops.fuel);
    if r.Ok? && r.value != EmptySample {
      b.sample := Some(r.value);
    }
  }

  // ---------------------------------------------------------------------
  // round_up_in_cone and isl_basic_set_sample_with_cone.

  /** The move from the rational point v / v[0] to the integer point z,
      scaled by v[0]: v[0] z' - v'. */
  function Dir(v: seq<int>, z: seq<int>): (d: seq<int>)
    requires |v| == |z| > 0
    ensures |d| == |v| - 1
  {
    Add(Scale(v[0], z[1..]), Scale(-1, v[1..]))
  }

  lemma DirDot(a: seq<int>, v: seq<int>, z: seq<int>)
    requires |a| + 1 == |v| == |z|
    ensures Dot(a, Dir(v, z)) == v[0] * Dot(a, z[1..]) - Dot(a, v[1..])
  {
    DotComm(a, Dir(v, z));
    DotAdd(Scale(v[0], z[1..]), Scale(-1, v[1..]), a);
    DotScale(v[0], z[1..], a);
    DotScale(-1, v[1..], a);
    DotComm(z[1..], a);
    DotComm(v[1..], a);
  }

  /** The rounding lemma of shift_cone in direction form: rounding up a
      rational point of the shifted cone moves v / v[0] along the cone. */
  lemma RoundedDirection(cone: Poly, vec: seq<int>, v: seq<int>)
    requires WellFormed(cone) && cone.eq == [] && |vec| == 1 + cone.dim && vec[0] > 0
    requires |v| == 1 + cone.dim && v[0] > 0 && Contains(ShiftedCone(cone, vec), v)
    ensures Contains(cone, [0] + Dir(vec, VecCeil(v)))
  {
    var z := VecCeil(v);
    ShiftConeRounding(cone, vec, v);
    forall i | 0 <= i < |cone.ineq| ensures Dot(cone.ineq[i], [0] + Dir(vec, z)) >= 0 {
      RowDirection(cone.ineq[i], vec, z);
    }
  }

  lemma RowDirection(a: Row, vec: seq<int>, z: seq<int>)
    requires |a| == |vec| == |z| > 0
    requires vec[0] * Dot(a[1..], z[1..]) >= Dot(a[1..], vec[1..])
    ensures Dot(a, [0] + Dir(vec, z)) >= 0
  {
    var d := Dir(vec, z);
    var x := [0] + d;
    var p, q := Dot(a[1..], z[1..]), Dot(a[1..], vec[1..]);
    DotFront(a, x);
    assert x[0] == 0 && x[1..] == d;
    DirDot(a[1..], vec, z);
    assert Dot(a, x) == Dot(a[1..], d) == vec[0] * p - q;
  }

  /** A direction of the projection of the transformed cone onto its
      unbounded variables is a direction of the transformed cone, with
      zero bounded variables. */
  lemma LiftDirection(cone: Poly, h: Mat, c2: Poly, dir: seq<int>)
    requires WellFormed(cone) && |cone.eq| <= cone.dim
    requires Independent(LinearPart(cone.eq, cone.dim), cone.dim)
    requires HermiteOk(LinearPart(cone.eq, cone.dim), cone.dim, h)
    requires RemoveDimsOk(Preimage(cone, LinToAff(h, cone.dim), cone.dim), 0, |cone.eq|, c2)
    requires Contains(c2, [0] + dir)
    ensures Contains(Preimage(cone, LinToAff(h, cone.dim), cone.dim), [0] + Zeros(|cone.eq|) + dir)
  {
    var k := |cone.eq|;
    var c1 := Preimage(cone, LinToAff(h, cone.dim), cone.dim);
    var f, e := LiftOf(c1, 0, k, c2, [0] + dir);
    LiftScaled(f, e, dir);
    BoundedPartZero(cone, h, e, Scale(f, dir));
    Unscale(c1, f, k, dir);
  }

  /** Lifting a scaled homogeneous point puts the lifted part right after
      the zero in front. */
  lemma LiftScaled(f: int, e: seq<int>, dir: seq<int>)
    ensures Lift(Scale(f, [0] + dir), 0, e) == [0] + e + Scale(f, dir)
  {
    var sd := Scale(f, dir);
    ScaleSplit(f, [0], dir);
    assert Scale(f, [0]) == [0];
    var fx := [0] + sd;
    assert fx[..1] == [0] && fx[1..] == sd;
  }

  /** A homogeneous point whose first coordinates are zero stays in the set
      when the rest is divided by a positive factor. */
  lemma Unscale(c: Poly, f: int, k: nat, dir: seq<int>)
    requires WellFormed(c) && f > 0 && Contains(c, [0] + Zeros(k) + Scale(f, dir))
    ensures Contains(c, [0] + Zeros(k) + dir)
  {
    ScaleSplit(f, [0] + Zeros(k), dir);
    ScaleSplit(f, [0], Zeros(k));
    ScaleZeros(f, k);
    assert Scale(f, [0]) == [0];
    ContainsScale(c, [0] + Zeros(k) + dir, f);
  }

  /** round_up_in_cone: a rational point with denominator one is returned
      as it is; otherwise the transformed cone is projected onto the
      unbounded variables, shifted to the point, and a rational point of
      the shifted cone is rounded up.  The integer point r it returns
      differs from the rational point by a direction of the transformed
      cone. */
  method RoundUpInCone(ops: Engine, vec: seq<int>, cone: Poly, U: Mat, ghost h: Mat) returns (r: Result<seq<int>>)
    requires EngineSound(ops) && WellFormed(cone) && |cone.eq| <= cone.dim
    requires Independent(LinearPart(cone.eq, cone.dim), cone.dim)
    requires HermiteOk(LinearPart(cone.eq, cone.dim), cone.dim, h) && U == LinToAff(h, cone.dim)
    requires |vec| == 0 || (vec[0] > 0 && |vec| == 1 + (cone.dim - |cone.eq|))
    ensures r.Ok? ==> |vec| > 0 && |r.value| == |vec| && r.value[0] == 1
    ensures r.Ok? ==> Contains(Preimage(cone, U, cone.dim), [0] + Zeros(|cone.eq|) + Dir(vec, r.value))
  {
    if |vec| == 0 {
      return Fail;
    }
    var total := cone.dim;
    var c1 := Preimage(cone, U, total);
    if vec[0] == 1 {
      StayPut(c1, vec, |cone.eq|);
      return Ok(vec);
    }
    var c2 := ops.removeDims(c1, 0, total - (|vec| - 1));
    assert RemoveDimsOk(c1, 0, |cone.eq|, c2);
    var shifted := ShiftCone(c2, vec);
    if shifted.Fail? {
      return Fail;
    }
    var v := ops.rationalSample(shifted.value);
    assert RationalOk(shifted.value, v);
    if |v| == 0 {
      return Fail;
    }
    r := Ok(VecCeil(v));
    RoundUpSound(cone, h, vec, c2, v);
  }

  /** Keeping an integral point moves it by the zero direction, which every
      cone holds. */
  lemma StayPut(c: Poly, vec: seq<int>, k: nat)
    requires WellFormed(c) && |vec| > 0 && vec[0] == 1 && c.dim == k + (|vec| - 1)
    ensures Contains(c, [0] + Zeros(k) + Dir(vec, vec))
  {
    assert Dir(vec, vec) == Zeros(|vec| - 1);
    ContainsOrigin(c);
    assert [0] + Zeros(k) + Zeros(|vec| - 1) == Zeros(1 + c.dim);
  }

  /** The rounded point of round_up_in_cone moves the rational point along
      the transformed cone. */
  lemma RoundUpSound(cone: Poly, h: Mat, vec: seq<int>, c2: Poly, v: seq<int>)
    requires WellFormed(cone) && |cone.eq| <= cone.dim
    requires Independent(LinearPart(cone.eq, cone.dim), cone.dim)
    requires HermiteOk(LinearPart(cone.eq, cone.dim), cone.dim, h)
    requires |vec| == 1 + (cone.dim - |cone.eq|) && vec[0] > 0
    requires RemoveDimsOk(Preimage(cone, LinToAff(h, cone.dim), cone.dim), 0, |cone.eq|, c2)
    requires c2.eq == [] && |v| == |vec| && v[0] > 0 && Contains(ShiftedCone(c2, vec), v)
    ensures Contains(Preimage(cone, LinToAff(h, cone.dim), cone.dim), [0] + Zeros(|cone.eq|) + Dir(vec, VecCeil(v)))
  {
    RoundedDirection(c2, vec, v);
    LiftDirection(cone, h, c2, Dir(vec, VecCeil(v)));
  }

  /** The point built by isl_basic_set_sample_with_cone lies in the set: the
      rational point y of the plugged-in set gives W = y[0] s + y', the
      rounding gives the cone direction D, and y[0] c = W + D. */
  lemma ConeSampleSound(P: Poly, cone: Poly, h: Mat, s: seq<int>, y: seq<int>, z: seq<int>)
    requires WellFormed(P) && RecConeOk(P, cone)
    requires HermiteOk(LinearPart(cone.eq, cone.dim), cone.dim, h)
    requires |s| == 1 + |cone.eq| && s[0] == 1
    requires var Q := Preimage(P, LinToAff(h, cone.dim), cone.dim);
      |y| == 1 + (cone.dim - |cone.eq|) && y[0] > 0 && Contains(PlugIn(Q, s), y)
    requires |z| == |y| && z[0] == 1
    requires Contains(Preimage(cone, LinToAff(h, cone.dim), cone.dim), [0] + Zeros(|cone.eq|) + Dir(y, z))
    ensures IsSample(P, MatVec(LinToAff(h, cone.dim), s + z[1..]))
  {
    var total, k := cone.dim, |cone.eq|;
    var Q := Preimage(P, LinToAff(h, total), total);
    var c := s + z[1..];
    PlugInPoint(Q, s, y);
    var D := [0] + Zeros(k) + Dir(y, z);
    assert D == [0] + (Zeros(k) + Dir(y, z));
    ConeDirectionInSet(P, cone, h, Zeros(k) + Dir(y, z));
    CombineIdentity(s, y, z);
    ContainsCombine(Q, Scale(y[0], s) + y[1..], D, c, y[0]);
    BackThroughAffine(P, h, total, c);
  }

  /** A point y of the plugged-in set gives the point y[0] s + y' of the
      set itself. */
  lemma PlugInPoint(Q: Poly, s: seq<int>, y: seq<int>)
    requires WellFormed(Q) && 1 <= |s| <= 1 + Q.dim && |y| == 1 + Q.dim - (|s| - 1)
    requires Contains(PlugIn(Q, s), y)
    ensures Contains(Q, Scale(y[0], s) + y[1..])
  {
    var m, T := Q.dim - (|s| - 1), PlugInMatrix(s, Q.dim);
    assert PlugIn(Q, s) == Preimage(Q, T, m);
    PlugInMatVec(s, Q.dim, y);
    PreimageContains(Q, T, m, y);
  }

  /** A point with denominator 1 of the set transformed by the affine
      extension of h maps back to an integer point of the set. */
  lemma BackThroughAffine(P: Poly, h: Mat, n: nat, c: seq<int>)
    requires WellFormed(P) && P.dim == n && |h| == n && Rows(h, n)
    requires |c| == 1 + n && c[0] == 1 && Contains(Preimage(P, LinToAff(h, n), n), c)
    ensures IsSample(P, MatVec(LinToAff(h, n), c))
  {
    PreimageContains(P, LinToAff(h, n), n, c);
    assert c == [1] + c[1..];
    LinToAffVec(h, n, 1, c[1..]);
  }

  /** y[0] (s, z') == (y[0] s, y') + (0, 0, v[0] z' - y'). */
  lemma CombineIdentity(s: seq<int>, y: seq<int>, z: seq<int>)
    requires |s| > 0 && s[0] == 1 && |y| == |z| > 0 && z[0] == 1
    ensures Scale(y[0], s + z[1..]) == Add(Scale(y[0], s) + y[1..], [0] + Zeros(|s| - 1) + Dir(y, z))
  {
    var k := |s| - 1;
    var l, w, d := Scale(y[0], s + z[1..]), Scale(y[0], s) + y[1..], [0] + Zeros(k) + Dir(y, z);
    forall i | 0 <= i < |l| ensures l[i] == w[i] + d[i] {
      if i > k {
        assert d[i] == Dir(y, z)[i - 1 - k];
        assert (s + z[1..])[i] == z[i - k] && w[i] == y[i - k];
      } else {
        assert (s + z[1..])[i] == s[i];
      }
    }
  }

  /** A direction of the transformed cone is a direction of the transformed
      set. */
  lemma ConeDirectionInSet(P: Poly, cone: Poly, h: Mat, d: seq<int>)
    requires WellFormed(P) && RecConeOk(P, cone)
    requires HermiteOk(LinearPart(cone.eq, cone.dim), cone.dim, h) && |d| == cone.dim
    requires Contains(Preimage(cone, LinToAff(h, cone.dim), cone.dim), [0] + d)
    ensures Contains(Preimage(P, LinToAff(h, cone.dim), cone.dim), [0] + d)
  {
    var U := LinToAff(h, cone.dim);
    PreimageContains(cone, U, cone.dim, [0] + d);
    LinToAffVec(h, cone.dim, 0, d);
    PreimageContains(P, U, cone.dim, [0] + d);
  }

  /** A row that does not involve the variables after the first k only sees
      the first k variables. */
  lemma KeptRowDot(row: Row, x: seq<int>, k: nat, n: nat)
    requires |row| == |x| == 1 + k + n && !Involves(row, k, n)
    ensures Dot(row[..1 + k] + row[1 + k + n..], x[..1 + k]) == Dot(row, x)
  {
    assert row[1 + k + n..] == [] && row[..1 + k] + [] == row[..1 + k];
    assert row == row[..1 + k] + row[1 + k..] && x == x[..1 + k] + x[1 + k..];
    DotConcat(row[..1 + k], row[1 + k..], x[..1 + k], x[1 + k..]);
    assert row[1 + k..] == row[1 + k..1 + k + n] == Zeros(n);
    DotZeros(x[1 + k..]);
  }

  /** The projection of sample_with_cone onto the bounded variables loses
      no integer point: any integer point x of a set without equalities is
      U Y for an integer Y (U is unimodular), and the constraints kept only
      involve the first variables of Y. */
  lemma ProjectionComplete(P: Poly, h: Mat, k: nat, n: nat, Q: Poly, B: Poly)
    requires WellFormed(P) && P.eq == [] && P.dim == k + n && Unimodular(h, P.dim)
    requires Q == Preimage(P, LinToAff(h, P.dim), P.dim)
    requires B.dim == Q.dim && B.eq == Q.eq && B.empty == Q.empty && WellFormed(B)
    requires multiset(B.ineq) == multiset(Kept(Q.ineq, k, n))
    ensures NoSample(DropDims(B, k, n)) ==> NoSample(P)
  {
    if !NoSample(P) {
      var x :| IsSample(P, x);
      var Y := UnimodularPreimage(P, h, P.dim, x);
      ProjectedPoint(Q, B, k, n, Y);
      assert IsSample(DropDims(B, k, n), Y[..1 + k]);
    }
  }

  /** Every integer point of P is the image of an integer point of the
      preimage under the unimodular change of variables. */
  lemma UnimodularPreimage(P: Poly, h: Mat, n: nat, x: seq<int>) returns (Y: seq<int>)
    requires WellFormed(P) && P.dim == n && Unimodular(h, n) && IsSample(P, x)
    ensures |Y| == 1 + n && Y[0] == 1 && Contains(Preimage(P, LinToAff(h, n), n), Y)
  {
    Y := AffineSolve(h, n, x);
    PreimageContains(P, LinToAff(h, n), n, Y);
  }

  /** The affine extension of a unimodular matrix reaches every integer
      point with denominator one. */
  lemma AffineSolve(h: Mat, n: nat, x: seq<int>) returns (Y: seq<int>)
    requires Unimodular(h, n) && |x| == 1 + n && x[0] == 1
    ensures |Y| == 1 + n && Y[0] == 1 && MatVec(LinToAff(h, n), Y) == x
  {
    var x' := x[1..];
    var y := Solve(h, n, x');
    Y := [1] + y;
    LinToAffVec(h, n, 1, y);
    assert [1] + x' == x;
  }

  /** A unimodular matrix reaches every integer vector. */
  lemma Solve(h: Mat, n: nat, x: seq<int>) returns (y: seq<int>)
    requires Unimodular(h, n) && |x| == n
    ensures |y| == n && MatVec(h, y) == x
  {
    assert Reaches(h, x);
    y :| |y| == |x| && Rows(h, |y|) && MatVec(h, y) == x;
  }

  /** A point of a set without equalities, cut to its first k variables,
      lies in the set's constraints that do not involve the others, with
      those variables dropped. */
  lemma ProjectedPoint(Q: Poly, B: Poly, k: nat, n: nat, Y: seq<int>)
    requires WellFormed(Q) && Q.eq == [] && Q.dim == k + n && Contains(Q, Y)
    requires B.dim == Q.dim && B.eq == Q.eq && B.empty == Q.empty && WellFormed(B)
    requires multiset(B.ineq) == multiset(Kept(Q.ineq, k, n))
    ensures Contains(DropDims(B, k, n), Y[..1 + k])
  {
    var proj := DropDims(B, k, n);
    forall i | 0 <= i < |proj.ineq| ensures Dot(proj.ineq[i], Y[..1 + k]) >= 0 {
      var row := B.ineq[i];
      assert row in multiset(Kept(Q.ineq, k, n));
      KeptExactly(Q.ineq, k, n, row);
      var j :| 0 <= j < |Q.ineq| && Q.ineq[j] == row;
      KeptRowDot(row, Y, k, n);
    }
  }

  /** isl_basic_set_sample_with_cone: transform the set so that the
      bounded directions come first, sample the projection onto them,
      plug the sample in, round up a rational point of the rest inside the
      cone, and transform the concatenation back.  A non-empty answer is
      an integer point of P; the empty answer is only given for sets
      without one (for sets without equalities, when the empty flag is
      trustworthy). */
  method SampleWithCone(ops: Engine, opt: Options, P: Poly, cone: Poly) returns (r: Result<seq<int>>)
    requires EngineSound(ops) && WellFormed(P) && RecConeOk(P, cone)
    modifies opt
    decreases 2, 0
    ensures OptValue(opt) == old(OptValue(opt))
    ensures r.Ok? && r.value != EmptySample ==> IsSample(P, r.value)
    ensures r == Ok(EmptySample) && FlagSound(P) && P.eq == [] ==> NoSample(P)
  {
    var total := cone.dim;
    var k := |cone.eq|;
    var coneDim := total - k;
    var H := ops.hermite(LinearPart(cone.eq, total), total, false);
    if H.None? {
      return Fail;
    }
    assert HermiteOk(LinearPart(cone.eq, total), total, H.value);
    var U := LinToAff(H.value, total);
    var Q := Preimage(P, U, total);
    var bounded := new BasicSet(Q, None);
    bounded.DropConstraintsInvolving(k, coneDim);
    var projected := new BasicSet(DropDims(bounded.Value(), k, coneDim), None);
    ghost var proj := projected.Value();
    var s := SampleBounded(ops, opt, projected);
    if s.Fail? || s.value == EmptySample {
      if s == Ok(EmptySample) && FlagSound(P) && P.eq == [] && !P.empty {
        ProjectionComplete(P, H.value, k, coneDim, Q, bounded.Value());
      }
      return s;
    }
    r := ExtendSample(ops, P, cone, H.value, s.value);
  }

  /** The second half of isl_basic_set_sample_with_cone: plug the sample of
      the bounded variables into the transformed set, round a rational
      point of the result up inside the cone, concatenate the two and map
      the concatenation back.  Any point it returns is an integer point of
      P. */
  method ExtendSample(ops: Engine, P: Poly, cone: Poly, h: Mat, s: seq<int>) returns (r: Result<seq<int>>)
    requires EngineSound(ops) && WellFormed(P) && RecConeOk(P, cone)
    requires HermiteOk(LinearPart(cone.eq, cone.dim), cone.dim, h)
    requires |s| == 1 + |cone.eq| && s[0] == 1
    ensures r.Ok? ==> IsSample(P, r.value)
  {
    var U := LinToAff(h, cone.dim);
    var Q := Preimage(P, U, cone.dim);
    var y := ops.rationalSample(PlugIn(Q, s));
    assert RationalOk(PlugIn(Q, s), y);
    var z := RoundUpInCone(ops, y, cone, U, h);
    if z.Fail? {
      return Fail;
    }
    var c := VecConcat(s, z.value);
    if c.Fail? {
      return Fail;
    }
    assert c.value == s + z.value[1..];
    ConeSampleSound(P, cone, h, s, y, z.value);
    return Ok(MatVec(U, c.value));
  }

  // ---------------------------------------------------------------------
  // gbr_sample, pip_sample and basic_set_sample.

  /** gbr_sample: with a recession cone of lower rank than the dimension
      (fewer independent equalities than variables), sample with the cone;
      otherwise the set is bounded. */
  method GbrSample(ops: Engine, opt: Options, b: BasicSet) returns (r: Result<seq<int>>)
    requires EngineSound(ops) && b.Valid()
    modifies opt, b
    decreases 3, 0
    ensures OptValue(opt) == old(OptValue(opt))
    ensures b.Valid() && b.eq == old(b.eq) && b.ineq == old(b.ineq)
    ensures b.empty == old(b.empty) || (b.empty && NoSample(old(b.Value())))
    ensures b.sample == old(b.sample) || (r.Ok? && b.sample == Some(r.value))
    ensures r.Ok? && r.value != EmptySample ==> |r.value| == 1 + b.dim
    ensures r.Ok? && r.value != EmptySample && Finalized(old(b.Value())) ==> IsSample(old(b.Value()), r.value)
    ensures r == Ok(EmptySample) && FlagSound(old(b.Value())) && old(b.eq) == [] ==> NoSample(old(b.Value()))
  {
    var cone := ops.recessionCone(b.Value());
    assert RecConeOk(b.Value(), cone);
    if |cone.eq| < b.dim {
      r := SampleWithCone(ops, opt, b.Value(), cone);
      return;
    }
    r := SampleBounded(ops, opt, b);
  }

  /** The constraints of a skewed set at the picked positions: the one
      picked i-th involves only the constant and the first i + 1 variables. */
  ghost predicate Skewed(rows: seq<Row>, picked: seq<nat>, k: nat)
    requires Rows(rows, 1 + k)
  {
    && |picked| == k
    && forall i :: 0 <= i < k ==> picked[i] < |rows| && forall j :: 1 + i < j <= k ==> rows[picked[i]][j] == 0
  }

  /** The picked constraints of a skewed set confine it to the positive
      orthant: the coefficient d of variable i in the constraint picked
      i-th is positive, and every entry before it, the constant included,
      lies in (-d, 0]. */
  ghost predicate PositiveOrthant(rows: seq<Row>, picked: seq<nat>, k: nat)
    requires Rows(rows, 1 + k) && Skewed(rows, picked, k)
  {
    forall i :: 0 <= i < k ==>
      rows[picked[i]][1 + i] > 0 && forall j :: 0 <= j < 1 + i ==> -rows[picked[i]][1 + i] < rows[picked[i]][j] <= 0
  }

  /** isl_basic_set_skew_to_positive_orthant: move the unit rows up (in
      place), then transform by SkewTransform.  T keeps the constant,
      T (1, x') has denominator one, and Q is the preimage of the set under
      T; the constraints picked as bounds become a lower-triangular system
      on the new variables, in the positive orthant when the first
      constraint has a non-zero coefficient part. */
  method SkewToPositiveOrthant(ops: Engine, b: BasicSet) returns (r: Result<(Mat, Poly)>, ghost picked: seq<nat>)
    requires EngineSound(ops) && b.Valid() && (|b.ineq| > 0 ==> b.dim > 0)
    modifies b
    ensures b.Valid() && b.eq == old(b.eq) && b.empty == old(b.empty) && b.sample == old(b.sample)
    ensures multiset(b.ineq) == multiset(old(b.ineq))
    ensures r.Ok? ==> b.eq == []
    ensures r.Ok? ==> var (T, Q) := r.value;
      && |T| == 1 + b.dim && Q.dim <= b.dim && Rows(T, 1 + Q.dim) && T[0] == UnitRow(1 + Q.dim, 0)
      && Q == Preimage(b.Value(), T, Q.dim)
      && Skewed(Q.ineq, picked, Q.dim)
      && (|b.ineq| > 0 && FirstNonZero(b.ineq[0][1..]) >= 0 ==> PositiveOrthant(Q.ineq, picked, Q.dim))
  {
    if |b.eq| > 0 {
      return Fail, [];
    }
    var nUnit := b.MoveUnitRowsUp();
    var t;
    t, picked := SkewTransform(ops, b.dim, b.ineq);
    if t.Fail? {
      return Fail, picked;
    }
    var T, k := t.value.0, t.value.1;
    return Ok((T, Preimage(b.Value(), T, k))), picked;
  }

  /** What isl_basic_set_skew_to_positive_orthant promises of its
      transformation T, with k + 1 columns, of the constraints ineq in dim
      variables: T keeps the constant, and the constraints picked as bounds
      become a lower-triangular system on the new variables, in the
      positive orthant when the first constraint has a non-zero coefficient
      part. */
  ghost predicate SkewOk(ineq: seq<Row>, dim: nat, T: Mat, k: nat, picked: seq<nat>)
  {
    && Rows(ineq, 1 + dim) && |T| == 1 + dim && k <= dim && Rows(T, 1 + k) && T[0] == UnitRow(1 + k, 0)
    && Skewed(MapRows(ineq, T, 1 + k), picked, k)
    && (|ineq| > 0 && FirstNonZero(ineq[0][1..]) >= 0 ==> PositiveOrthant(MapRows(ineq, T, 1 + k), picked, k))
  }

  /** The transformation of isl_basic_set_skew_to_positive_orthant: select
      independent bounds, take the unimodular U of their Hermite form (with
      non-positive entries left of the diagonal) and drop from it the
      columns of the lineality space, leaving T with k + 1 columns. */
  method SkewTransform(ops: Engine, dim: nat, ineq: seq<Row>) returns (r: Result<(Mat, nat)>, ghost picked: seq<nat>)
    requires HermiteSound(ops) && Rows(ineq, 1 + dim) && (|ineq| > 0 ==> dim > 0)
    ensures r.Ok? ==> SkewOk(ineq, dim, r.value.0, r.value.1, picked)
  {
    var bounds;
    ghost var dirs;
    bounds, picked, dirs := IndependentBounds(dim, ineq);
    var U := ops.hermite(bounds, 1 + dim, true);
    if U.None? {
      return Fail, picked;
    }
    SkewOrthant(ineq, bounds, picked, dim, U.value);
    return Ok((DropCols(U.value, |bounds|, 1 + dim - |bounds|), |bounds| - 1)), picked;
  }

  /** The bounds, rewritten by the Hermite multiplier u with its last
      columns dropped, are the rows of the Hermite form: lower triangular,
      and with a positive diagonal and entries in (-d, 0] left of it once
      the bounds are independent.  The unit row e_0 among them keeps the
      constant. */
  lemma SkewOrthant(ineq: seq<Row>, bounds: seq<Row>, picked: seq<nat>, dim: nat, u: Mat)
    requires Rows(ineq, 1 + dim) && Rows(bounds, 1 + dim) && 1 <= |bounds| <= 1 + dim
    requires bounds[0] == UnitRow(1 + dim, 0) && |picked| == |bounds| - 1
    requires forall i :: 0 <= i < |picked| ==> picked[i] < |ineq| && bounds[1 + i] == ineq[picked[i]]
    requires |ineq| > 0 && FirstNonZero(ineq[0][1..]) >= 0 ==> Independent(LinearPart(bounds[1..], dim), dim)
    requires HermiteOk(bounds, 1 + dim, u) && HermiteReduced(bounds, 1 + dim, true, u)
    ensures SkewOk(ineq, dim, DropCols(u, |bounds|, 1 + dim - |bounds|), |bounds| - 1, picked)
  {
    var n, k := 1 + dim, |bounds| - 1;
    SkewKeepsConstant(bounds, n, u, k);
    var rows := MapRows(ineq, DropCols(u, 1 + k, dim - k), 1 + k);
    var indep := |ineq| > 0 && FirstNonZero(ineq[0][1..]) >= 0;
    if indep {
      Spans.AffineIndependent(bounds, dim);
    }
    forall i | 0 <= i < k
      ensures picked[i] < |rows| && forall j :: 1 + i < j <= k ==> rows[picked[i]][j] == 0
      ensures indep ==>
        rows[picked[i]][1 + i] > 0 && forall j :: 0 <= j < 1 + i ==> -rows[picked[i]][1 + i] < rows[picked[i]][j] <= 0
    {
      if indep {
        IndependentPrefix(bounds, n, 2 + i);
      }
      SkewedRow(ineq, bounds, picked, dim, u, i);
    }
  }

  /** Dropping the columns of the lineality space from the unimodular
      matrix of the Hermite form leaves a transformation that keeps the
      constant. */
  lemma SkewKeepsConstant(bounds: Mat, n: nat, u: Mat, k: nat)
    requires Rows(bounds, n) && |bounds| == 1 + k <= n && bounds[0] == UnitRow(n, 0)
    requires HermiteOk(bounds, n, u)
    ensures Rows(u, n)
    ensures var T := DropCols(u, 1 + k, n - 1 - k);
      |T| == n && Rows(T, 1 + k) && T[0] == UnitRow(1 + k, 0)
  {
    HermiteKeepsConstant(bounds, n, u);
    var T := DropCols(u, 1 + k, n - 1 - k);
    assert T[0] == u[0][..1 + k] + u[0][n..];
    assert T[0] == UnitRow(1 + k, 0);
  }

  /** The bound picked i-th, rewritten, is row 1 + i of the Hermite form
      cut to its first |bounds| columns. */
  lemma SkewedRow(ineq: seq<Row>, bounds: seq<Row>, picked: seq<nat>, dim: nat, u: Mat, i: nat)
    requires Rows(ineq, 1 + dim) && Rows(bounds, 1 + dim) && |bounds| <= 1 + dim
    requires i < |picked| == |bounds| - 1 && picked[i] < |ineq| && bounds[1 + i] == ineq[picked[i]]
    requires HermiteOk(bounds, 1 + dim, u) && HermiteReduced(bounds, 1 + dim, true, u)
    ensures Rows(DropCols(u, |bounds|, 1 + dim - |bounds|), |bounds|)
    ensures var row := MapRows(ineq, DropCols(u, |bounds|, 1 + dim - |bounds|), |bounds|)[picked[i]];
      && (forall j :: 1 + i < j < |bounds| ==> row[j] == 0)
      && (Independent(bounds[..2 + i], 1 + dim) ==>
            row[1 + i] > 0 && forall j :: 0 <= j < 1 + i ==> -row[1 + i] < row[j] <= 0)
  {
    VecMatTake(bounds[1 + i], u, 1 + dim, |bounds|);
  }

  /** pip_sample: the parametric solver on the skewed set, and a non-empty
      answer mapped back through T.  The inequalities of b are reordered in
      place. */
  method PipSample(ops: Engine, b: BasicSet) returns (r: Result<seq<int>>)
    requires EngineSound(ops) && b.Valid() && (|b.ineq| > 0 ==> b.dim > 0)
    modifies b
    ensures b.Valid() && b.eq == old(b.eq) && b.empty == old(b.empty) && b.sample == old(b.sample)
    ensures multiset(b.ineq) == multiset(old(b.ineq))
    ensures r.Ok? && r.value != EmptySample ==> IsSample(old(b.Value()), r.value)
  {
    ghost var P := b.Value();
    var skewed;
    ghost var picked;
    skewed, picked := SkewToPositiveOrthant(ops, b);
    if skewed.Fail? {
      return Fail;
    }
    var T, Q := skewed.value.0, skewed.value.1;
    var y := ops.pip(Q);
    assert PipOk(Q, y);
    if y.None? {
      return Fail;
    }
    if y.value == EmptySample {
      return Ok(EmptySample);
    }
    PipSampleSound(P, b.Value(), T, Q.dim, y.value);
    return Ok(MatVec(T, y.value));
  }

  /** The point pip_sample maps back is an integer point of the set: the
      constant column survives the transformation. */
  lemma PipSampleSound(P: Poly, P': Poly, T: Mat, newDim: nat, y: seq<int>)
    requires WellFormed(P) && P'.dim == P.dim && P'.eq == P.eq && multiset(P'.ineq) == multiset(P.ineq)
    requires |T| == 1 + P.dim && Rows(T, 1 + newDim) && T[0] == UnitRow(1 + newDim, 0)
    requires WellFormed(P') && IsSample(Preimage(P', T, newDim), y)
    ensures IsSample(P, MatVec(T, y))
  {
    DotUnit(1 + newDim, 0, y);
    PreimageContains(P', T, newDim, y);
    ContainsPermuted(P, P', MatVec(T, y));
  }

  /** basic_set_sample: the empty sample for a set marked empty; the cached
      sample when it still lies in the set; otherwise the cache is cleared
      and the set goes to sample_eq (with equalities), zero_sample,
      interval_sample, or the solver chosen by ctx->opt->ilp_solver. */
  method BasicSetSample(ops: Engine, opt: Options, b: BasicSet, bounded: bool) returns (r: Result<seq<int>>)
    requires EngineSound(ops) && b.Valid()
    modifies opt, b
    decreases 4, EqRank(b)
    ensures OptValue(opt) == old(OptValue(opt))
    ensures b.Valid() && b.eq == old(b.eq) && multiset(b.ineq) == multiset(old(b.ineq))
    ensures b.empty == old(b.empty) || (b.empty && NoSample(old(b.Value())))
    ensures !old(b.empty) && CacheFits(old(b.Value()), old(b.sample)) ==>
      r == Ok(old(b.sample).value) && b.sample == old(b.sample)
    ensures !old(b.empty) && !CacheFits(old(b.Value()), old(b.sample)) ==>
      b.sample == None || (r.Ok? && b.sample == Some(r.value))
    ensures r.Ok? && r.value != EmptySample ==> |r.value| == 1 + b.dim
    ensures r.Ok? && r.value != EmptySample && Finalized(old(b.Value())) && CacheIntegral(old(b.sample)) ==>
      IsSample(old(b.Value()), r.value)
    ensures r == Ok(EmptySample) && FlagSound(old(b.Value())) && opt.ilpSolver == GbrSolver ==>
      NoSample(old(b.Value()))
  {
    ghost var P := b.Value();
    if b.empty {
      return Ok(EmptySample);
    }
    if CacheFits(b.Value(), b.sample) {
      return Ok(b.sample.value);
    }
    b.sample := None;
    if |b.eq| > 0 {
      r := SampleEq(ops, opt, b.Value(), ToBasicSetSample(bounded));
      return;
    }
    if b.dim == 0 {
      if Finalized(P) {
        ZeroDimSample(P);
      }
      return Ok(ZeroSample(0));
    }
    if b.dim == 1 {
      r := SimplifiedInterval(ops, b.Value());
      return;
    }
    match opt.ilpSolver {
      case Pip =>
        r := PipSample(ops, b);
      case GbrSolver =>
        if bounded {
          r := SampleBounded(ops, opt, b);
        } else {
          r := GbrSample(ops, opt, b);
        }
    }
  }
}
