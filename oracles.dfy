/** The operations the sampler calls but that live elsewhere in isl:
    simplification, equality elimination, the recession cone, the left
    Hermite normal form, projection, rational sampling, the tableau and the
    parametric integer programming solver.  Each is a function-valued field
    of Engine; what the sampler relies on is stated as a contract here. */
module Oracles {
  import opened Wrappers
  import opened Vectors
  import opened BasicSets
  import opened Interval
  import opened TabSearch

  // ---------------------------------------------------------------------
  // Matrix shapes shared by the contracts.

  /** isl_mat_lin_to_aff: the n x n matrix u as an affine map on
      homogeneous coordinates, with a one in the corner for the constant. */
  function LinToAff(u: Mat, n: nat): (t: Mat)
    requires |u| == n && Rows(u, n)
    ensures |t| == 1 + n && Rows(t, 1 + n) && t[0] == UnitRow(1 + n, 0)
    ensures forall i :: 0 <= i < n ==> t[1 + i] == [0] + u[i]
  {
    [UnitRow(1 + n, 0)] + seq(n, i requires 0 <= i < n => [0] + u[i])
  }

  /** The affine map keeps the constant and applies u to the rest. */
  lemma LinToAffVec(u: Mat, n: nat, c: int, y: seq<int>)
    requires |u| == n && Rows(u, n) && |y| == n
    ensures MatVec(LinToAff(u, n), [c] + y) == [c] + MatVec(u, y)
  {
    var lhs, rhs := MatVec(LinToAff(u, n), [c] + y), [c] + MatVec(u, y);
    forall i | 0 <= i < 1 + n ensures lhs[i] == rhs[i] {
      LinToAffEntry(u, n, c, y, i);
    }
  }

  /** Entry i of the affine map's image: the constant, then row i - 1 of u
      applied to the variables. */
  lemma LinToAffEntry(u: Mat, n: nat, c: int, y: seq<int>, i: nat)
    requires |u| == n && Rows(u, n) && |y| == n && i < 1 + n
    ensures MatVec(LinToAff(u, n), [c] + y)[i] == ([c] + MatVec(u, y))[i]
  {
    if i == 0 {
      LinToAffConstant(u, n, c, y);
    } else {
      LinToAffRow(u, n, c, y, i - 1);
    }
  }

  /** The first row of the affine map picks the constant. */
  lemma LinToAffConstant(u: Mat, n: nat, c: int, y: seq<int>)
    requires |u| == n && Rows(u, n) && |y| == n
    ensures Dot(LinToAff(u, n)[0], [c] + y) == c
  {
    DotUnit(1 + n, 0, [c] + y);
  }

  /** Row 1 + i of the affine map applies row i of u to the variables. */
  lemma LinToAffRow(u: Mat, n: nat, c: int, y: seq<int>, i: nat)
    requires |u| == n && Rows(u, n) && |y| == n && i < n
    ensures Dot(LinToAff(u, n)[1 + i], [c] + y) == Dot(u[i], y)
  {
    var x := [c] + y;
    DotFront(LinToAff(u, n)[1 + i], x);
    assert x[1..] == y;
  }

  /** The homogeneous point x with the n coordinates e inserted after its
      first `first` variables. */
  function Lift(x: seq<int>, first: nat, e: seq<int>): (r: seq<int>)
    requires 1 + first <= |x|
    ensures |r| == |x| + |e| && r[..1 + first] == x[..1 + first]
    ensures r[1 + first..1 + first + |e|] == e && r[1 + first + |e|..] == x[1 + first..]
  {
    x[..1 + first] + e + x[1 + first..]
  }

  // ---------------------------------------------------------------------
  // The contracts.

  /** isl_basic_set_simplify: the same integer points, a trustworthy empty
      flag stays trustworthy, and in one dimension every constraint is
      normalised to coefficient 1 or -1 with one bound per direction. */
  ghost predicate SimplifyOk(p: Poly, s: Poly)
    requires WellFormed(p)
  {
    && WellFormed(s) && s.dim == p.dim
    && (forall v :: IsSample(s, v) <==> IsSample(p, v))
    && (FlagSound(p) ==> FlagSound(s))
    && (s.dim == 1 && !s.empty ==> Normalized1D(s))
  }

  /** isl_basic_set_remove_equalities: a set q without equalities (unless it
      is marked empty) and a matrix t mapping the integer points of q onto
      integer points of p; when q has none, neither has p. */
  ghost predicate RemoveEqOk(p: Poly, t: Mat, q: Poly)
    requires WellFormed(p)
  {
    && WellFormed(q) && Finalized(q)
    && (!q.empty ==> q.eq == [])
    && (FlagSound(p) ==> FlagSound(q))
    && |t| == 1 + p.dim && Rows(t, 1 + q.dim)
    && (forall y :: IsSample(q, y) ==> IsSample(p, MatVec(t, y)))
    && (NoSample(q) ==> NoSample(p))
  }

  /** isl_basic_set_recession_cone: a cone whose equalities are linearly
      independent and whose directions (denominator zero) are directions in
      which p recedes. */
  ghost predicate RecConeOk(p: Poly, c: Poly)
    requires WellFormed(p)
  {
    && WellFormed(c) && c.dim == p.dim && |c.eq| <= c.dim
    && Independent(LinearPart(c.eq, c.dim), c.dim)
    && forall d {:trigger Contains(c, d)} :: |d| == 1 + p.dim && d[0] == 0 && Contains(c, d) ==> Contains(p, d)
  }

  /** isl_mat_left_hermite: a unimodular u with m u lower triangular, whose
      diagonal entry i is positive when the first i + 1 rows of m are
      linearly independent. */
  ghost predicate HermiteOk(m: Mat, n: nat, u: Mat)
    requires Rows(m, n)
  {
    && Unimodular(u, n)
    && (forall i, j :: 0 <= i < |m| && i < j < n ==> VecMat(m[i], u, n)[j] == 0)
    && (forall i :: 0 <= i < |m| && i < n && Independent(m[..i + 1], n) ==> VecMat(m[i], u, n)[i] > 0)
  }

  /** The reduction isl_mat_left_hermite applies to the Hermite form m u:
      the entries left of a positive diagonal entry d lie in [0, d), or in
      (-d, 0] when neg is set. */
  ghost predicate HermiteReduced(m: Mat, n: nat, neg: bool, u: Mat)
    requires Rows(m, n) && |u| == n && Rows(u, n)
  {
    forall i, j :: 0 <= j < i < n && i < |m| && Independent(m[..i + 1], n) ==>
      if neg then -VecMat(m[i], u, n)[i] < VecMat(m[i], u, n)[j] <= 0
      else 0 <= VecMat(m[i], u, n)[j] < VecMat(m[i], u, n)[i]
  }

  /** isl_basic_set_remove_dims: the projection along variables first ..
      first + n - 1; every (homogeneous) point of the projection lifts, after
      scaling, to a point of c. */
  ghost predicate RemoveDimsOk(c: Poly, first: nat, n: nat, r: Poly)
    requires WellFormed(c) && first + n <= c.dim
  {
    && WellFormed(r) && r.dim == c.dim - n
    && forall x {:trigger Contains(r, x)} :: Contains(r, x) ==>
         exists k: int, e: seq<int> :: k > 0 && |e| == n && Contains(c, Lift(Scale(k, x), first, e))
  }

  /** The lift that RemoveDimsOk promises for a point of the projection. */
  lemma LiftOf(c: Poly, first: nat, n: nat, r: Poly, x: seq<int>) returns (k: int, e: seq<int>)
    requires WellFormed(c) && first + n <= c.dim && RemoveDimsOk(c, first, n, r) && Contains(r, x)
    ensures k > 0 && |e| == n && Contains(c, Lift(Scale(k, x), first, e))
  {
    k, e :| k > 0 && |e| == n && Contains(c, Lift(Scale(k, x), first, e));
  }

  /** p has no rational point: no homogeneous point with a positive
      denominator satisfies its constraints. */
  ghost predicate NoRationalPoint(p: Poly)
    requires WellFormed(p)
  {
    forall x :: |x| == 1 + p.dim && x[0] > 0 ==> !Contains(p, x)
  }

  /** rational_sample: a rational point of p with a positive denominator,
      or the zero-length vector, which the tableau only gives for a set
      that is marked empty or has no rational point. */
  ghost predicate RationalOk(p: Poly, v: seq<int>)
    requires WellFormed(p)
  {
    && (v == [] ==> p.empty || NoRationalPoint(p))
    && (v != [] ==> |v| == 1 + p.dim && v[0] > 0 && Contains(p, v))
  }

  /** isl_tab_from_basic_set followed by isl_tab_detect_implicit_equalities:
      a sound LP oracle and basis reduction for p, and an empty tableau only
      for sets without integer points. */
  ghost predicate TabOk(p: Poly, t: (LpOracle, bool))
  {
    LpSound(t.0, p) && BasesSound(t.0, p) && (t.1 ==> NoSample(p))
  }

  /** isl_pip_basic_set_sample: a non-empty answer is an integer point. */
  ghost predicate PipOk(p: Poly, r: Option<seq<int>>)
  {
    r.Some? && r.value != [] ==> IsSample(p, r.value)
  }

  /** The services, None or a zero-length vector standing for an error
      return, and the round budget of isl_tab_sample. */
  datatype Engine = Engine(
    simplify: Poly -> Poly,
    removeEqualities: Poly -> Option<(Mat, Poly)>,
    recessionCone: Poly -> Poly,
    hermite: (Mat, nat, bool) -> Option<Mat>,
    removeDims: (Poly, nat, nat) -> Poly,
    rationalSample: Poly -> seq<int>,
    tableau: Poly -> (LpOracle, bool),
    pip: Poly -> Option<seq<int>>,
    fuel: nat)

  /** The Hermite oracle keeps its contract. */
  ghost predicate HermiteSound(e: Engine)
  {
    forall m: Mat, n: nat, neg: bool {:trigger e.hermite(m, n, neg)} :: Rows(m, n) && e.hermite(m, n, neg).Some? ==>
      HermiteOk(m, n, e.hermite(m, n, neg).value) && HermiteReduced(m, n, neg, e.hermite(m, n, neg).value)
  }

  ghost predicate EngineSound(e: Engine)
  {
    && (forall p {:trigger e.simplify(p)} :: WellFormed(p) ==> SimplifyOk(p, e.simplify(p)))
    && (forall p {:trigger e.removeEqualities(p)} :: WellFormed(p) && e.removeEqualities(p).Some? ==>
          RemoveEqOk(p, e.removeEqualities(p).value.0, e.removeEqualities(p).value.1))
    && (forall p {:trigger e.recessionCone(p)} :: WellFormed(p) ==> RecConeOk(p, e.recessionCone(p)))
    && HermiteSound(e)
    && (forall c: Poly, first: nat, n: nat {:trigger e.removeDims(c, first, n)} :: WellFormed(c) && first + n <= c.dim ==>
          RemoveDimsOk(c, first, n, e.removeDims(c, first, n)))
    && (forall p {:trigger e.rationalSample(p)} :: WellFormed(p) ==> RationalOk(p, e.rationalSample(p)))
    && (forall p {:trigger e.tableau(p)} :: WellFormed(p) ==> TabOk(p, e.tableau(p)))
    && (forall p {:trigger e.pip(p)} :: WellFormed(p) ==> PipOk(p, e.pip(p)))
  }

  // ---------------------------------------------------------------------
  // Consequences of the Hermite contract.

  /** A matrix whose first row is the unit row e_0 keeps e_0 as the first
      row of its unimodular transformation: the constant stays a constant. */
  lemma HermiteKeepsConstant(m: Mat, n: nat, u: Mat)
    requires Rows(m, n) && |m| > 0 && n > 0 && m[0] == UnitRow(n, 0) && HermiteOk(m, n, u)
    ensures u[0] == UnitRow(n, 0)
  {
    VecMatUnit(u, 0, n);
    IndependentUnit(n);
    assert m[..1] == [UnitRow(n, 0)];
    assert VecMat(m[0], u, n) == u[0];
    assert Reaches(u, UnitRow(n, 0));
    var y :| |y| == n && Rows(u, |y|) && MatVec(u, y) == UnitRow(n, 0);
    DotSingle(u[0], y, 0);
    assert u[0][0] * y[0] == 1;
    assert u[0][0] == 1;
    forall j | 0 <= j < n ensures u[0][j] == UnitRow(n, 0)[j] {
    }
  }

  /** After the change of variables U = LinToAff(H), the cone's equalities
      are lower triangular with a positive diagonal, so every cone
      direction whose first |e| transformed variables are e, with |e| no
      more than the number of equalities, has e zero. */
  lemma BoundedPartZero(cone: Poly, h: Mat, e: seq<int>, d: seq<int>)
    requires WellFormed(cone) && |e| <= |cone.eq| <= cone.dim && |e| + |d| == cone.dim
    requires Independent(LinearPart(cone.eq, cone.dim), cone.dim)
    requires HermiteOk(LinearPart(cone.eq, cone.dim), cone.dim, h)
    requires Contains(Preimage(cone, LinToAff(h, cone.dim), cone.dim), [0] + e + d)
    ensures e == Zeros(|e|)
  {
    var n, k := cone.dim, |e|;
    var m := LinearPart(cone.eq, n);
    var u := LinToAff(h, n);
    var x := [0] + (e + d);
    assert [0] + e + d == x;
    PreimageContains(cone, u, n, x);
    LinToAffVec(h, n, 0, e + d);
    var g := seq(k, i requires 0 <= i < k => VecMat(m[i], h, n)[..k]);
    forall i | 0 <= i < k
      ensures |g[i]| == k && g[i][i] != 0 && Dot(g[i], e) == 0
      ensures forall j :: i < j < k ==> g[i][j] == 0
    {
      assert Dot(cone.eq[i], [0] + MatVec(h, e + d)) == 0;
      TriangularRow(cone, h, e, d, i);
    }
    ForwardSubst(g, e);
  }

  /** Row i of the transformed equalities, against a cone direction, reduces
      to its first |e| entries, of which entry i is the last non-zero one. */
  lemma TriangularRow(cone: Poly, h: Mat, e: seq<int>, d: seq<int>, i: nat)
    requires WellFormed(cone) && i < |e| <= |cone.eq| <= cone.dim && |e| + |d| == cone.dim
    requires Independent(LinearPart(cone.eq, cone.dim), cone.dim)
    requires HermiteOk(LinearPart(cone.eq, cone.dim), cone.dim, h)
    requires Dot(cone.eq[i], [0] + MatVec(h, e + d)) == 0
    ensures var row := VecMat(LinearPart(cone.eq, cone.dim)[i], h, cone.dim);
      row[i] != 0 && Dot(row[..|e|], e) == 0 && forall j :: i < j < |e| ==> row[j] == 0
  {
    var n := cone.dim;
    var m := LinearPart(cone.eq, n);
    var row := VecMat(m[i], h, n);
    TransformedDot(cone.eq[i], h, e + d);
    ZeroTail(row, e, d, i);
    IndependentPrefix(m, n, i + 1);
  }

  /** A constraint row against a transformed direction (0, h y). */
  lemma TransformedDot(r: Row, h: Mat, y: seq<int>)
    requires |r| == 1 + |y| && |h| == |y| && Rows(h, |y|)
    ensures Dot(r, [0] + MatVec(h, y)) == Dot(VecMat(r[1..], h, |y|), y)
  {
    var hy := MatVec(h, y);
    var x := [0] + hy;
    DotFront(r, x);
    assert x[1..] == hy;
    VecMatDot(r[1..], h, y);
    assert Dot(r, x) == r[0] * 0 + Dot(r[1..], hy);
  }

  /** A row that vanishes after position i < |e| only sees e in e + d. */
  lemma ZeroTail(row: seq<int>, e: seq<int>, d: seq<int>, i: nat)
    requires |row| == |e| + |d| && i < |e|
    requires forall j :: i < j < |row| ==> row[j] == 0
    ensures Dot(row, e + d) == Dot(row[..|e|], e)
  {
    var k := |e|;
    assert row == row[..k] + row[k..];
    DotConcat(row[..k], row[k..], e, d);
    assert row[k..] == Zeros(|d|);
    DotZeros(d);
  }
}
