/** The depth-first search for an integer point over the directions of a
    basis (isl_tab_sample, isl_sample.c:384-531).  The tableau itself (its
    LP solver, snapshots, sample values, basis reduction and initial basis)
    is an oracle whose contract is stated as ghost predicates. */
module TabSearch {
  import opened Wrappers
  import opened Vectors
  import opened BasicSets

  /** enum isl_lp_result, with the optimum of a successful minimisation. */
  datatype LpResult = LpEmpty | LpUnbounded | LpError | LpOk(value: int)

  /** Where the tableau's current sample came from: its initial state, the
      optimum of a minimisation, or the last equality added. */
  datatype Position = AtStart | AtMin(obj: Row) | AtEquality

  /** isl_tab_snap: the number of equalities added so far and the sample. */
  datatype Snapshot = Snapshot(count: nat, pos: Position)

  /** The values of ctx->opt->gbr and ctx->opt->ilp_solver. */
  datatype Gbr = Never | Once | Always
  datatype IlpSolver = Pip | GbrSolver

  /** The steps of the search, recorded for the statement about reductions. */
  datatype Event = Reduce(level: nat) | Branch(level: nat, value: int) | Backtrack(level: nat)

  /** The tableau's external services.  minimize(eqs, f): isl_tab_min of the
      objective row f once the equalities eqs have been added, rounded up.
      vertex(eqs, pos): isl_tab_get_sample_value, in lowest terms.
      reduce(B, nZero, onlyFirst): isl_tab_compute_reduced_basis.
      initialBasis: initial_basis.  solve(B, w): isl_mat_vec_inverse_product. */
  datatype LpOracle = LpOracle(
    minimize: (seq<Row>, Row) -> LpResult,
    vertex: (seq<Row>, Position) -> seq<int>,
    reduce: (Mat, nat, bool) -> Option<Mat>,
    initialBasis: Option<Mat>,
    solve: (Mat, seq<int>) -> seq<int>)

  /** ctx->opt: the options the search reads and temporarily changes. */
  class Options {
    var gbr: Gbr
    var gbrOnlyFirst: bool
    var ilpSolver: IlpSolver

    constructor (g: Gbr, onlyFirst: bool, solver: IlpSolver)
      ensures gbr == g && gbrOnlyFirst == onlyFirst && ilpSolver == solver
    {
      gbr := g;
      gbrOnlyFirst := onlyFirst;
      ilpSolver := solver;
    }
  }

  // ---------------------------------------------------------------------
  // Rows of the basis and the equalities that fix them.

  /** The value of the direction b at the homogeneous point v, ignoring the
      constant column. */
  function Val(b: Row, v: seq<int>): int
    requires |b| == |v| > 0
  {
    Dot(b[1..], v[1..])
  }

  /** The direction with its coefficients negated (isl_seq_neg on row + 1). */
  function NegRow(b: Row): (r: Row)
    requires |b| > 0
    ensures |r| == |b| && r[0] == b[0]
  {
    [b[0]] + Scale(-1, b[1..])
  }

  /** The equality <b, x> == m: the direction with constant -m. */
  function FixRow(b: Row, m: int): (r: Row)
    requires |b| > 0
    ensures |r| == |b| && r[1..] == b[1..]
  {
    [-m] + b[1..]
  }

  /** The equalities fixing the first |ms| basis directions to ms. */
  function FixRows(B: Mat, ms: seq<int>): (r: seq<Row>)
    requires |ms| < |B| && forall i :: 0 <= i < |B| ==> |B[i]| > 0
    ensures |r| == |ms| && forall k {:trigger r[k]} :: 0 <= k < |ms| ==> r[k] == FixRow(B[1 + k], ms[k])
  {
    seq(|ms|, k requires 0 <= k < |ms| => FixRow(B[1 + k], ms[k]))
  }

  /** isl_tab_add_valid_eq of the equality <f, x> == c. */
  function Extend(eqs: seq<Row>, f: Row, c: int): (r: seq<Row>)
    requires |f| > 0
  {
    eqs + [FixRow(f, c)]
  }

  ghost predicate SatisfiesEqs(eqs: seq<Row>, v: seq<int>)
  {
    forall i :: 0 <= i < |eqs| ==> |eqs[i]| == |v| && Dot(eqs[i], v) == 0
  }

  /** The point takes the values ms on the first |ms| basis directions. */
  ghost predicate Matches(B: Mat, ms: seq<int>, v: seq<int>)
    requires |ms| < |B| && Rows(B, |v|) && |v| > 0
  {
    forall k :: 0 <= k < |ms| ==> Val(B[1 + k], v) == ms[k]
  }

  /** A basis in homogeneous form: row 0 is (1, 0, ..., 0) and every other
      row has a zero constant. */
  ghost predicate BasisShape(B: Mat, n: nat)
  {
    && |B| == 1 + n && Rows(B, 1 + n) && B[0] == UnitRow(1 + n, 0)
    && forall i :: 1 <= i < |B| ==> B[i][0] == 0
  }

  lemma FixRowDot(b: Row, m: int, v: seq<int>)
    requires |b| == |v| > 0 && v[0] == 1
    ensures Dot(FixRow(b, m), v) == Val(b, v) - m
  {
    DotFront(FixRow(b, m), v);
  }

  lemma RowDot(b: Row, v: seq<int>)
    requires |b| == |v| > 0 && b[0] == 0
    ensures Dot(b, v) == Val(b, v)
  {
    DotFront(b, v);
  }

  lemma NegRowDot(b: Row, v: seq<int>)
    requires |b| == |v| > 0 && b[0] == 0
    ensures Dot(NegRow(b), v) == -Val(b, v)
  {
    DotFront(NegRow(b), v);
    DotScale(-1, b[1..], v[1..]);
  }

  /** An integer point satisfies the fixing equalities exactly when it takes
      the fixed values. */
  lemma FixRowsMatch(B: Mat, ms: seq<int>, v: seq<int>)
    requires |ms| < |B| && Rows(B, |v|) && |v| > 0 && v[0] == 1
    ensures SatisfiesEqs(FixRows(B, ms), v) <==> Matches(B, ms, v)
  {
    forall k | 0 <= k < |ms| ensures Dot(FixRows(B, ms)[k], v) == Val(B[1 + k], v) - ms[k] {
      FixRowDot(B[1 + k], ms[k], v);
    }
  }

  // ---------------------------------------------------------------------
  // The oracle's contract.

  /** The rational point v is in P, satisfies eqs and has a positive
      denominator. */
  ghost predicate VertexOk(P: Poly, eqs: seq<Row>, v: seq<int>)
  {
    WellFormed(P) && Contains(P, v) && SatisfiesEqs(eqs, v) && v[0] > 0
  }

  /** What the LP solver promises about the set P it was built from:
      an empty relaxation has no integer point; the rounded-up minimum
      bounds every integer point; the optimum is a point of the relaxation;
      any value between the rounded minimum and maximum of an objective can
      be fixed without making the relaxation empty; a sample value is
      always a homogeneous point of the right size; and an inverse product
      keeps the size and, when w is the image of an integer vector under B,
      returns that vector. */
  ghost predicate LpSound(lp: LpOracle, P: Poly)
  {
    && WellFormed(P)
    && (forall eqs, f, v :: lp.minimize(eqs, f) == LpEmpty && IsSample(P, v) ==> !SatisfiesEqs(eqs, v))
    && (forall eqs, f, v {:trigger lp.minimize(eqs, f), IsSample(P, v)} :: lp.minimize(eqs, f).LpOk? && IsSample(P, v) && SatisfiesEqs(eqs, v) && |f| == |v| ==>
          Dot(f, v) >= lp.minimize(eqs, f).value)
    && (forall eqs, f {:trigger lp.vertex(eqs, AtMin(f))} :: lp.minimize(eqs, f).LpOk? ==> VertexOk(P, eqs, lp.vertex(eqs, AtMin(f))))
    && (forall eqs, f, c {:trigger lp.vertex(Extend(eqs, f, c), AtEquality)} ::
          (|f| == 1 + P.dim && lp.minimize(eqs, f).LpOk? && lp.minimize(eqs, NegRow(f)).LpOk? &&
           lp.minimize(eqs, f).value <= c <= -lp.minimize(eqs, NegRow(f)).value) ==>
          VertexOk(P, Extend(eqs, f, c), lp.vertex(Extend(eqs, f, c), AtEquality)))
    && (forall eqs, p :: |lp.vertex(eqs, p)| == 1 + P.dim && lp.vertex(eqs, p)[0] > 0)
    && (forall B, w :: |lp.solve(B, w)| == |w|)
    && (forall B, w {:trigger lp.solve(B, w)} :: Rows(B, |w|) && Reaches(B, w) ==> MatVec(B, lp.solve(B, w)) == w)
  }

  /** A unimodular basis: it maps the integer vectors onto the integer
      vectors, and fixing every direction to an integer value leaves at
      most one rational point, and that point is integral. */
  ghost predicate BasisSound(lp: LpOracle, P: Poly, B: Mat)
  {
    && BasisShape(B, P.dim) && Unimodular(B, 1 + P.dim)
    && forall ms: seq<int> {:trigger lp.vertex(FixRows(B, ms), AtEquality)} :: |ms| == P.dim && VertexOk(P, FixRows(B, ms), lp.vertex(FixRows(B, ms), AtEquality)) ==>
         lp.vertex(FixRows(B, ms), AtEquality)[0] == 1
  }

  /** The initial basis and basis reduction produce unimodular bases, and
      reduction keeps the first nZero directions. */
  ghost predicate BasesSound(lp: LpOracle, P: Poly)
  {
    && (lp.initialBasis.Some? ==> BasisSound(lp, P, lp.initialBasis.value))
    && forall B: Mat, z: nat, only: bool :: BasisSound(lp, P, B) && z <= P.dim && lp.reduce(B, z, only).Some? ==>
         BasisSound(lp, P, lp.reduce(B, z, only).value) && lp.reduce(B, z, only).value[..1 + z] == B[..1 + z]
  }

  // ---------------------------------------------------------------------
  // The search invariant.

  /** The LP bounds of level |prefix| once the earlier levels are fixed to
      prefix: the rounded minimum is at most cur and the rounded maximum is hi. */
  ghost predicate LevelFacts(lp: LpOracle, B: Mat, prefix: seq<int>, cur: int, hi: int)
    requires |prefix| + 1 < |B| && forall i :: 0 <= i < |B| ==> |B[i]| > 0
  {
    var eqs := FixRows(B, prefix);
    var b := B[1 + |prefix|];
    && lp.minimize(eqs, b).LpOk? && lp.minimize(eqs, b).value <= cur
    && lp.minimize(eqs, NegRow(b)) == LpOk(-hi)
  }

  /** No integer point that takes the values prefix has a value below bound
      in the next direction. */
  ghost predicate NoneBelow(P: Poly, B: Mat, prefix: seq<int>, bound: int)
    requires BasisShape(B, P.dim) && |prefix| < P.dim
  {
    forall v {:trigger Matches(B, prefix, v)} :: IsSample(P, v) && Matches(B, prefix, v) ==> Val(B[1 + |prefix|], v) >= bound
  }

  /** No integer point takes the values prefix. */
  ghost predicate NoMatch(P: Poly, B: Mat, prefix: seq<int>)
    requires BasisShape(B, P.dim) && |prefix| <= P.dim
  {
    forall v {:trigger Matches(B, prefix, v)} :: IsSample(P, v) ==> !Matches(B, prefix, v)
  }

  /** Every level below `level` has been entered through a value that lies
      in its LP range, every smaller value has been exhausted. */
  ghost predicate Below(lp: LpOracle, P: Poly, B: Mat, ms: seq<int>, maxs: seq<int>, level: int)
    requires BasisShape(B, P.dim)
  {
    && 0 <= level < P.dim && |ms| == |maxs| == P.dim
    && forall k {:trigger LevelFacts(lp, B, ms[..k], ms[k], maxs[k])} :: 0 <= k < level ==>
         LevelFacts(lp, B, ms[..k], ms[k], maxs[k]) && NoneBelow(P, B, ms[..k], ms[k]) && ms[k] <= maxs[k]
  }

  /** The state at the head of the search loop; when init is false the
      values up to ms[level] at the current level have been exhausted. */
  ghost predicate SearchInv(lp: LpOracle, P: Poly, B: Mat, ms: seq<int>, maxs: seq<int>, level: int, init: bool)
    requires BasisShape(B, P.dim)
  {
    && Below(lp, P, B, ms, maxs, level)
    && (!init ==> LevelFacts(lp, B, ms[..level], ms[level], maxs[level]) &&
                  NoneBelow(P, B, ms[..level], ms[level] + 1))
  }

  /** The state once the current level's range [ms[level], maxs[level]]
      is known and every smaller value has been exhausted. */
  ghost predicate Ready(lp: LpOracle, P: Poly, B: Mat, ms: seq<int>, maxs: seq<int>, level: int)
    requires BasisShape(B, P.dim)
  {
    && Below(lp, P, B, ms, maxs, level)
    && LevelFacts(lp, B, ms[..level], ms[level], maxs[level])
    && NoneBelow(P, B, ms[..level], ms[level])
  }

  /** Changing the values at or after `level` keeps Below. */
  lemma BelowFrame(lp: LpOracle, P: Poly, B: Mat, ms: seq<int>, maxs: seq<int>, ms': seq<int>, maxs': seq<int>, level: int)
    requires BasisShape(B, P.dim) && Below(lp, P, B, ms, maxs, level)
    requires |ms'| == |maxs'| == P.dim && ms'[..level] == ms[..level] && maxs'[..level] == maxs[..level]
    ensures Below(lp, P, B, ms', maxs', level)
  {
    forall k | 0 <= k < level
      ensures LevelFacts(lp, B, ms'[..k], ms'[k], maxs'[k]) && NoneBelow(P, B, ms'[..k], ms'[k]) && ms'[k] <= maxs'[k]
    {
      assert ms'[..k] == ms'[..level][..k] == ms[..level][..k] == ms[..k];
      assert ms'[k] == ms'[..level][k] == ms[..level][k] == ms[k];
      assert maxs'[k] == maxs'[..level][k] == maxs[..level][k] == maxs[k];
    }
  }

  lemma FixRowsSame(B: Mat, B': Mat, ms: seq<int>)
    requires |ms| < |B| == |B'| && forall i :: 0 <= i < |B| ==> |B[i]| > 0 && |B'[i]| > 0
    requires B'[..1 + |ms|] == B[..1 + |ms|]
    ensures FixRows(B', ms) == FixRows(B, ms)
  {
    forall k | 0 <= k < |ms| ensures FixRows(B', ms)[k] == FixRows(B, ms)[k] {
      assert B'[1 + k] == B'[..1 + |ms|][1 + k];
    }
  }

  /** A new basis that keeps the directions up to `level` keeps Below. */
  lemma BelowBasis(lp: LpOracle, P: Poly, B: Mat, B': Mat, ms: seq<int>, maxs: seq<int>, level: int)
    requires BasisShape(B, P.dim) && BasisShape(B', P.dim) && Below(lp, P, B, ms, maxs, level)
    requires B'[..1 + level] == B[..1 + level]
    ensures Below(lp, P, B', ms, maxs, level)
  {
    forall k | 0 <= k < level
      ensures LevelFacts(lp, B', ms[..k], ms[k], maxs[k]) && NoneBelow(P, B', ms[..k], ms[k]) && ms[k] <= maxs[k]
    {
      assert LevelFacts(lp, B, ms[..k], ms[k], maxs[k]);
      SameRows(B, B', level);
      assert B'[..1 + k] == B[..1 + k];
      FixRowsSame(B, B', ms[..k]);
      forall v | IsSample(P, v) && Matches(B', ms[..k], v) ensures Val(B'[1 + k], v) >= ms[k] {
        assert Matches(B, ms[..k], v);
      }
    }
  }

  lemma SameRows(B: Mat, B': Mat, level: int)
    requires 0 <= level < |B| == |B'| && B'[..1 + level] == B[..1 + level]
    ensures forall q :: 0 <= q <= level ==> B'[q] == B[q]
  {
    forall q | 0 <= q <= level ensures B'[q] == B[q] {
      assert B'[q] == B'[..1 + level][q];
    }
  }

  lemma FixRowsPrefix(B: Mat, ms: seq<int>, k: nat)
    requires k <= |ms| < |B| && forall i :: 0 <= i < |B| ==> |B[i]| > 0
    ensures FixRows(B, ms)[..k] == FixRows(B, ms[..k])
  {
  }

  lemma FixRowsSnoc(B: Mat, ms: seq<int>, level: nat, m: int)
    requires level < |ms| && level + 1 < |B| && forall i :: 0 <= i < |B| ==> |B[i]| > 0 && ms[level] == m
    ensures FixRows(B, ms[..level]) + [FixRow(B[1 + level], m)] == FixRows(B, ms[..level + 1])
  {
  }

  /** The rounded LP bounds at the current level make it Ready. */
  lemma BoundsReady(lp: LpOracle, P: Poly, B: Mat, ms: seq<int>, maxs: seq<int>, level: int)
    requires LpSound(lp, P) && BasisShape(B, P.dim) && Below(lp, P, B, ms, maxs, level)
    requires LevelFacts(lp, B, ms[..level], ms[level], maxs[level])
    requires lp.minimize(FixRows(B, ms[..level]), B[1 + level]) == LpOk(ms[level])
    ensures Ready(lp, P, B, ms, maxs, level)
  {
    var eqs := FixRows(B, ms[..level]);
    forall v | IsSample(P, v) && Matches(B, ms[..level], v) ensures Val(B[1 + level], v) >= ms[level] {
      FixRowsMatch(B, ms[..level], v);
      RowDot(B[1 + level], v);
    }
  }

  /** Moving to the next value at the current level makes it Ready. */
  lemma NextReady(lp: LpOracle, P: Poly, B: Mat, ms: seq<int>, maxs: seq<int>, level: int, ms': seq<int>)
    requires BasisShape(B, P.dim) && SearchInv(lp, P, B, ms, maxs, level, false)
    requires |ms'| == P.dim && ms'[..level] == ms[..level] && ms'[level] == ms[level] + 1
    ensures Ready(lp, P, B, ms', maxs, level)
  {
    BelowFrame(lp, P, B, ms, maxs, ms', maxs, level);
  }

  /** Every integer point taking the values prefix is at most the rounded
      maximum in the next direction. */
  lemma AtMostMax(lp: LpOracle, P: Poly, B: Mat, prefix: seq<int>, cur: int, hi: int, v: seq<int>)
    requires LpSound(lp, P) && BasisShape(B, P.dim) && |prefix| < P.dim
    requires LevelFacts(lp, B, prefix, cur, hi)
    requires IsSample(P, v) && Matches(B, prefix, v)
    ensures Val(B[1 + |prefix|], v) <= hi
  {
    var b := B[1 + |prefix|];
    FixRowsMatch(B, prefix, v);
    NegRowDot(b, v);
    assert Dot(NegRow(b), v) >= lp.minimize(FixRows(B, prefix), NegRow(b)).value;
  }

  /** An exhausted range: nothing takes the values of the current prefix. */
  lemma ExhaustedNoMatch(lp: LpOracle, P: Poly, B: Mat, ms: seq<int>, maxs: seq<int>, level: int)
    requires LpSound(lp, P) && BasisShape(B, P.dim) && Ready(lp, P, B, ms, maxs, level)
    requires ms[level] > maxs[level]
    ensures NoMatch(P, B, ms[..level])
  {
    forall v | IsSample(P, v) ensures !Matches(B, ms[..level], v) {
      if Matches(B, ms[..level], v) {
        AtMostMax(lp, P, B, ms[..level], ms[level], maxs[level], v);
      }
    }
  }

  /** An empty relaxation: nothing takes the values of the current prefix. */
  lemma EmptyNoMatch(lp: LpOracle, P: Poly, B: Mat, prefix: seq<int>, f: Row)
    requires LpSound(lp, P) && BasisShape(B, P.dim) && |prefix| <= P.dim
    requires lp.minimize(FixRows(B, prefix), f) == LpEmpty
    ensures NoMatch(P, B, prefix)
  {
    forall v | IsSample(P, v) ensures !Matches(B, prefix, v) {
      FixRowsMatch(B, prefix, v);
    }
  }

  /** Backtracking: if nothing takes the values of the current prefix, the
      previous level's current value is exhausted too, and at level 0 the
      set has no integer point. */
  lemma Backtracked(lp: LpOracle, P: Poly, B: Mat, ms: seq<int>, maxs: seq<int>, level: int)
    requires BasisShape(B, P.dim) && Below(lp, P, B, ms, maxs, level)
    requires NoMatch(P, B, ms[..level])
    ensures level == 0 ==> NoSample(P)
    ensures level > 0 ==> SearchInv(lp, P, B, ms, maxs, level - 1, false)
  {
    if level == 0 {
      forall v | |v| == 1 + P.dim ensures Matches(B, ms[..0], v) {
      }
    } else {
      var k := level - 1;
      assert ms[..level][..k] == ms[..k];
      forall v | |v| == 1 + P.dim && Matches(B, ms[..k], v) && Val(B[1 + k], v) == ms[k]
        ensures Matches(B, ms[..level], v)
      {
      }
    }
  }

  /** Branching on a value in range: the next level starts from scratch. */
  lemma Descend(lp: LpOracle, P: Poly, B: Mat, ms: seq<int>, maxs: seq<int>, level: int)
    requires BasisShape(B, P.dim) && Ready(lp, P, B, ms, maxs, level)
    requires ms[level] <= maxs[level] && level + 1 < P.dim
    ensures SearchInv(lp, P, B, ms, maxs, level + 1, true)
  {
  }

  // ---------------------------------------------------------------------
  // One level of the search.

  /** What the two minimisations at the start of a level report: an error
      (also an "unbounded" answer, which the code asserts away), an integral
      vertex at which the search stops, an empty range, or the rounded
      range [lo, hi] of the direction. */
  datatype Range = RangeFail | RangeIntegral(at: Position) | RangeEmpty | RangeOk(lo: int, hi: int)

  /** isl_tab_sample_is_integer: the point has denominator one. */
  predicate Integral(v: seq<int>)
  {
    |v| > 0 && v[0] == 1
  }

  /** The two isl_tab_min calls of a level, in the code's order: the
      minimum of b, then the minimum of -b.  An empty first answer does not
      skip the second call, but it does skip the integrality test. */
  function LevelRange(lp: LpOracle, eqs: seq<Row>, b: Row): Range
    requires |b| > 0
  {
    var res := lp.minimize(eqs, b);
    if res.LpUnbounded? || res.LpError? then RangeFail
    else if res.LpOk? && Integral(lp.vertex(eqs, AtMin(b))) then RangeIntegral(AtMin(b))
    else
      var res2 := lp.minimize(eqs, NegRow(b));
      if res2.LpUnbounded? || res2.LpError? then RangeFail
      else if res.LpEmpty? || res2.LpEmpty? then RangeEmpty
      else if Integral(lp.vertex(eqs, AtMin(NegRow(b)))) then RangeIntegral(AtMin(NegRow(b)))
      else RangeOk(res.value, -res2.value)
  }

  /** An integral vertex reported at a level is an integer point of the set
      that satisfies the equalities added so far. */
  lemma RangeIntegralSample(lp: LpOracle, P: Poly, eqs: seq<Row>, b: Row)
    requires LpSound(lp, P) && |b| > 0 && LevelRange(lp, eqs, b).RangeIntegral?
    ensures var v := lp.vertex(eqs, LevelRange(lp, eqs, b).at);
      IsSample(P, v) && SatisfiesEqs(eqs, v)
  {
    var res := lp.minimize(eqs, b);
    if !(res.LpOk? && Integral(lp.vertex(eqs, AtMin(b)))) {
      assert lp.minimize(eqs, NegRow(b)).LpOk?;
      assert VertexOk(P, eqs, lp.vertex(eqs, AtMin(NegRow(b))));
    }
  }

  /** An empty range at a level: no integer point takes the values fixed so far. */
  lemma RangeEmptyNoMatch(lp: LpOracle, P: Poly, B: Mat, prefix: seq<int>)
    requires LpSound(lp, P) && BasisShape(B, P.dim) && |prefix| < P.dim
    requires LevelRange(lp, FixRows(B, prefix), B[1 + |prefix|]) == RangeEmpty
    ensures NoMatch(P, B, prefix)
  {
    var eqs, b := FixRows(B, prefix), B[1 + |prefix|];
    if lp.minimize(eqs, b).LpEmpty? {
      EmptyNoMatch(lp, P, B, prefix, b);
    } else {
      EmptyNoMatch(lp, P, B, prefix, NegRow(b));
    }
  }

  /** A range [lo, hi] stored at the current level makes the level Ready:
      every integer point with the fixed prefix lies in the range. */
  lemma RangeOkReady(lp: LpOracle, P: Poly, B: Mat, ms: seq<int>, maxs: seq<int>, ms': seq<int>, maxs': seq<int>, level: int)
    requires LpSound(lp, P) && BasisShape(B, P.dim) && Below(lp, P, B, ms, maxs, level)
    requires |ms'| == |maxs'| == P.dim && ms'[..level] == ms[..level] && maxs'[..level] == maxs[..level]
    requires LevelRange(lp, FixRows(B, ms[..level]), B[1 + level]) == RangeOk(ms'[level], maxs'[level])
    ensures Ready(lp, P, B, ms', maxs', level)
  {
    BelowFrame(lp, P, B, ms, maxs, ms', maxs', level);
    BoundsReady(lp, P, B, ms', maxs', level);
  }

  /** A basis reduction keeps the fixed directions, so the search state
      stays valid for the new basis. */
  lemma ReduceKeeps(lp: LpOracle, P: Poly, B: Mat, ms: seq<int>, maxs: seq<int>, level: int, only: bool)
    requires BasesSound(lp, P) && BasisSound(lp, P, B) && Below(lp, P, B, ms, maxs, level)
    requires lp.reduce(B, level, only).Some?
    ensures var B' := lp.reduce(B, level, only).value;
      BasisSound(lp, P, B') && Below(lp, P, B', ms, maxs, level) &&
      FixRows(B', ms[..level]) == FixRows(B, ms[..level])
  {
    var B' := lp.reduce(B, level, only).value;
    BelowBasis(lp, P, B, B', ms, maxs, level);
    FixRowsSame(B, B', ms[..level]);
  }

  /** Backtracking from an exhausted or empty level: the set has no integer
      point (at level 0), or the previous level's value is exhausted and the
      rolled-back equalities are those of the previous levels. */
  lemma BacktrackStep(lp: LpOracle, P: Poly, B: Mat, ms: seq<int>, maxs: seq<int>, level: int)
    requires BasisShape(B, P.dim) && Below(lp, P, B, ms, maxs, level) && NoMatch(P, B, ms[..level])
    ensures level == 0 ==> NoSample(P)
    ensures level > 0 ==>
      SearchInv(lp, P, B, ms, maxs, level - 1, false) &&
      FixRows(B, ms[..level])[..level - 1] == FixRows(B, ms[..level - 1])
  {
    Backtracked(lp, P, B, ms, maxs, level);
    if level > 0 {
      FixRowsPrefix(B, ms[..level], level - 1);
      assert ms[..level][..level - 1] == ms[..level - 1];
    }
  }

  /** Fixing the current direction to a value of its range: the equalities
      are those of the longer prefix and the tableau still has a vertex;
      once every direction is fixed, the vertex is integral. */
  lemma FixStep(lp: LpOracle, P: Poly, B: Mat, ms: seq<int>, maxs: seq<int>, level: int)
    requires LpSound(lp, P) && BasisSound(lp, P, B) && Ready(lp, P, B, ms, maxs, level)
    requires ms[level] <= maxs[level]
    ensures Extend(FixRows(B, ms[..level]), B[1 + level], ms[level]) == FixRows(B, ms[..level + 1])
    ensures var eqs := FixRows(B, ms[..level + 1]);
      VertexOk(P, eqs, lp.vertex(eqs, AtEquality)) &&
      (level == P.dim - 1 ==> lp.vertex(eqs, AtEquality)[0] == 1)
  {
    FixRowsSnoc(B, ms, level, ms[level]);
    var eqs := FixRows(B, ms[..level]);
    var b := B[1 + level];
    assert lp.minimize(eqs, NegRow(b)) == LpOk(-maxs[level]);
    assert VertexOk(P, Extend(eqs, b, ms[level]), lp.vertex(Extend(eqs, b, ms[level]), AtEquality));
    if level == P.dim - 1 {
      assert ms[..level + 1] == ms;
    }
  }

  /** The search never performs two basis reductions in a row. */
  ghost predicate NoDoubleReduce(trace: seq<Event>)
  {
    forall i :: 0 <= i < |trace| - 1 && trace[i].Reduce? ==> !trace[i + 1].Reduce?
  }

  /** Under ISL_GBR_NEVER the search reduces the basis at no point. */
  ghost predicate ReduceFree(trace: seq<Event>)
  {
    forall i :: 0 <= i < |trace| ==> !trace[i].Reduce?
  }

  /** Under ISL_GBR_ONCE it reduces the basis at most once. */
  ghost predicate ReducesOnce(trace: seq<Event>)
  {
    forall i, j :: 0 <= i < j < |trace| && trace[i].Reduce? ==> !trace[j].Reduce?
  }

  /** The reduction policy for the value gbr that ctx->opt->gbr had on
      entry, with cur its value now: once a reduction happened under
      ISL_GBR_ONCE, the option reads ISL_GBR_NEVER. */
  ghost predicate Policy(trace: seq<Event>, gbr: Gbr, cur: Gbr)
  {
    && (gbr == Never ==> ReduceFree(trace))
    && (gbr == Once ==> ReducesOnce(trace))
    && (gbr == Once && !ReduceFree(trace) ==> cur == Never)
  }

  ghost predicate LevelsIn(trace: seq<Event>, top: int)
  {
    forall i :: 0 <= i < |trace| ==> trace[i].level <= top
  }

  /** What the search's trace keeps: no two reductions in a row, levels up
      to top, and the reduction policy for the entry value gbr of
      ctx->opt->gbr, whose value is now cur. */
  ghost predicate TraceOk(trace: seq<Event>, top: int, gbr: Gbr, cur: Gbr)
  {
    NoDoubleReduce(trace) && LevelsIn(trace, top) && Policy(trace, gbr, cur)
  }

  /** Appending one event keeps the trace properties, given that a
      reduction only follows a non-reduction and only happens when the
      option was not ISL_GBR_NEVER, leaving it other than ISL_GBR_ONCE. */
  lemma AppendEvent(trace: seq<Event>, ev: Event, top: int, gbr: Gbr, cur: Gbr, cur': Gbr)
    requires TraceOk(trace, top, gbr, cur) && ev.level <= top
    requires cur == gbr || (gbr == Once && cur == Never)
    requires cur' == cur || (cur == Once && cur' == Never)
    requires ev.Reduce? ==> cur != Never && cur' != Once && (|trace| > 0 ==> !trace[|trace| - 1].Reduce?)
    ensures TraceOk(trace + [ev], top, gbr, cur')
  {
    var t := trace + [ev];
    forall i | 0 <= i < |t| - 1 && t[i].Reduce? ensures !t[i + 1].Reduce? {
      assert t[i] == trace[i];
    }
    if gbr == Once {
      forall i, j | 0 <= i < j < |t| && t[i].Reduce? ensures !t[j].Reduce? {
        assert t[i] == trace[i];
        if j < |trace| {
          assert t[j] == trace[j];
        }
      }
    }
    if !ReduceFree(t) && !ev.Reduce? {
      var i :| 0 <= i < |t| && t[i].Reduce?;
      assert t[i] == trace[i];
    }
  }

  /** The basis reduction step of the search: ISL_GBR_ONCE is switched to
      ISL_GBR_NEVER for the rest of the search, gbr_only_first is set for
      the call (early return is allowed under ISL_GBR_ALWAYS) and restored
      afterwards. */
  method ReduceBasis(lp: LpOracle, opt: Options, B: Mat, level: nat) returns (nb: Option<Mat>)
    requires opt.gbr != Never
    modifies opt
    ensures opt.gbr == (if old(opt.gbr) == Once then Never else old(opt.gbr))
    ensures opt.gbrOnlyFirst == old(opt.gbrOnlyFirst) && opt.ilpSolver == old(opt.ilpSolver)
    ensures nb == lp.reduce(B, level, opt.gbr == Always)
  {
    if opt.gbr == Once {
      opt.gbr := Never;
    }
    var gbrOnlyFirst := opt.gbrOnlyFirst;
    opt.gbrOnlyFirst := opt.gbr == Always;
    nb := lp.reduce(B, level, opt.gbrOnlyFirst);  // isl_tab_compute_reduced_basis
    opt.gbrOnlyFirst := gbrOnlyFirst;
  }

  /** The tableau's vertex is a point of the set satisfying the added
      equalities, and it is integral when `integral` holds. */
  ghost predicate Found(lp: LpOracle, P: Poly, eqs: seq<Row>, at: Position, integral: bool)
  {
    VertexOk(P, eqs, lp.vertex(eqs, at)) && (integral ==> lp.vertex(eqs, at)[0] == 1)
  }


  // ---------------------------------------------------------------------
  // The search loop as a state machine.

  /** The state at the head of the search loop: the basis is sound, the
      level lies in [-1, dim - 1 - nU], the levels below are entered through
      values in their ranges with every smaller value exhausted, the added
      equalities fix exactly the levels below, the snapshot of every level
      below (and of the current one, once its range is known) records the
      equalities before it, and level -1 means no integer point. */
  ghost predicate Inv(lp: LpOracle, P: Poly, nU: nat, B: Mat, ms: seq<int>, maxs: seq<int>,
                      snaps: seq<Snapshot>, level: int, init: bool, eqs: seq<Row>)
  {
    && BasisSound(lp, P, B)
    && -1 <= level <= P.dim - 1 - nU && |snaps| == P.dim
    && (level >= 0 ==> SearchInv(lp, P, B, ms, maxs, level, init) && eqs == FixRows(B, ms[..level]))
    && (forall k :: 0 <= k < P.dim && (k < level || (k == level && !init)) ==> snaps[k].count == k)
    && (level < 0 ==> NoSample(P))
  }

  /** The state once the range of the current level is known (or found
      empty) and the level's snapshot is taken. */
  ghost predicate Mid(lp: LpOracle, P: Poly, nU: nat, B: Mat, ms: seq<int>, maxs: seq<int>,
                      snaps: seq<Snapshot>, level: int, eqs: seq<Row>, isEmpty: bool)
  {
    && BasisSound(lp, P, B)
    && 0 <= level <= P.dim - 1 - nU && |snaps| == P.dim
    && Below(lp, P, B, ms, maxs, level)
    && eqs == FixRows(B, ms[..level])
    && (forall k :: 0 <= k <= level ==> snaps[k].count == k)
    && (isEmpty ==> NoMatch(P, B, ms[..level]))
    && (!isEmpty ==> Ready(lp, P, B, ms, maxs, level))
  }

  /** Entering a level whose relaxation is empty. */
  lemma EnterEmpty(lp: LpOracle, P: Poly, nU: nat, B: Mat, ms: seq<int>, maxs: seq<int>,
                   snaps: seq<Snapshot>, level: int, eqs: seq<Row>, s: Snapshot)
    requires LpSound(lp, P) && Inv(lp, P, nU, B, ms, maxs, snaps, level, true, eqs) && level >= 0
    requires LevelRange(lp, eqs, B[1 + level]) == RangeEmpty && s.count == |eqs|
    ensures Mid(lp, P, nU, B, ms, maxs, snaps[level := s], level, eqs, true)
  {
    RangeEmptyNoMatch(lp, P, B, ms[..level]);
  }

  /** Entering a level with the range [lo, hi], without a basis reduction. */
  lemma EnterNonEmpty(lp: LpOracle, P: Poly, nU: nat, B: Mat, ms: seq<int>, maxs: seq<int>,
                   snaps: seq<Snapshot>, level: int, eqs: seq<Row>, s: Snapshot)
    requires LpSound(lp, P) && Inv(lp, P, nU, B, ms, maxs, snaps, level, true, eqs) && level >= 0
    requires LevelRange(lp, eqs, B[1 + level]).RangeOk? && s.count == |eqs|
    ensures var r := LevelRange(lp, eqs, B[1 + level]);
      Mid(lp, P, nU, B, ms[level := r.lo], maxs[level := r.hi], snaps[level := s], level, eqs, false)
  {
    var r := LevelRange(lp, eqs, B[1 + level]);
    var ms', maxs' := ms[level := r.lo], maxs[level := r.hi];
    assert ms'[..level] == ms[..level] && maxs'[..level] == maxs[..level];
    RangeOkReady(lp, P, B, ms, maxs, ms', maxs', level);
  }

  /** Entering a level with the range [lo, hi] and reducing the basis: the
      level is entered again with the new basis. */
  lemma EnterReduce(lp: LpOracle, P: Poly, nU: nat, B: Mat, ms: seq<int>, maxs: seq<int>,
                    snaps: seq<Snapshot>, level: int, eqs: seq<Row>, only: bool)
    requires LpSound(lp, P) && BasesSound(lp, P) && Inv(lp, P, nU, B, ms, maxs, snaps, level, true, eqs) && level >= 0
    requires LevelRange(lp, eqs, B[1 + level]).RangeOk? && lp.reduce(B, level, only).Some?
    ensures var r := LevelRange(lp, eqs, B[1 + level]);
      Inv(lp, P, nU, lp.reduce(B, level, only).value, ms[level := r.lo], maxs[level := r.hi], snaps, level, true, eqs)
  {
    var r := LevelRange(lp, eqs, B[1 + level]);
    var ms', maxs' := ms[level := r.lo], maxs[level := r.hi];
    assert ms'[..level] == ms[..level] && maxs'[..level] == maxs[..level];
    BelowFrame(lp, P, B, ms, maxs, ms', maxs', level);
    ReduceKeeps(lp, P, B, ms', maxs', level, only);
  }

  /** Trying the next value of the current level. */
  lemma NextValue(lp: LpOracle, P: Poly, nU: nat, B: Mat, ms: seq<int>, maxs: seq<int>,
                  snaps: seq<Snapshot>, level: int, eqs: seq<Row>)
    requires Inv(lp, P, nU, B, ms, maxs, snaps, level, false, eqs) && level >= 0
    ensures Mid(lp, P, nU, B, ms[level := ms[level] + 1], maxs, snaps, level, eqs, false)
  {
    var ms' := ms[level := ms[level] + 1];
    assert ms'[..level] == ms[..level];
    NextReady(lp, P, B, ms, maxs, level, ms');
  }

  /** Leaving an empty or exhausted level and rolling back to the snapshot
      of the previous one. */
  lemma Leave(lp: LpOracle, P: Poly, nU: nat, B: Mat, ms: seq<int>, maxs: seq<int>,
              snaps: seq<Snapshot>, level: int, eqs: seq<Row>, isEmpty: bool)
    requires LpSound(lp, P) && Mid(lp, P, nU, B, ms, maxs, snaps, level, eqs, isEmpty)
    requires isEmpty || ms[level] > maxs[level]
    ensures level > 0 ==>
      snaps[level - 1].count <= |eqs| &&
      Inv(lp, P, nU, B, ms, maxs, snaps, level - 1, false, eqs[..snaps[level - 1].count])
    ensures level == 0 ==> Inv(lp, P, nU, B, ms, maxs, snaps, -1, false, eqs)
  {
    if !isEmpty {
      ExhaustedNoMatch(lp, P, B, ms, maxs, level);
    }
    BacktrackStep(lp, P, B, ms, maxs, level);
  }

  /** Fixing the current direction to its current value and descending. */
  lemma Descend1(lp: LpOracle, P: Poly, nU: nat, B: Mat, ms: seq<int>, maxs: seq<int>,
                 snaps: seq<Snapshot>, level: int, eqs: seq<Row>)
    requires LpSound(lp, P) && Mid(lp, P, nU, B, ms, maxs, snaps, level, eqs, false)
    requires ms[level] <= maxs[level] && level + nU < P.dim - 1
    ensures Inv(lp, P, nU, B, ms, maxs, snaps, level + 1, true, Extend(eqs, B[1 + level], ms[level]))
  {
    FixStep(lp, P, B, ms, maxs, level);
    Descend(lp, P, B, ms, maxs, level);
  }

  /** Fixing the last bounded direction: the tableau's vertex is a point of
      the set, integral when no direction is unbounded. */
  lemma Stop(lp: LpOracle, P: Poly, nU: nat, B: Mat, ms: seq<int>, maxs: seq<int>,
             snaps: seq<Snapshot>, level: int, eqs: seq<Row>)
    requires LpSound(lp, P) && Mid(lp, P, nU, B, ms, maxs, snaps, level, eqs, false)
    requires ms[level] <= maxs[level] && level + nU == P.dim - 1
    ensures Found(lp, P, Extend(eqs, B[1 + level], ms[level]), AtEquality, nU == 0)
  {
    FixStep(lp, P, B, ms, maxs, level);
  }

  /** An integral vertex at the start of a level ends the search. */
  lemma StopIntegral(lp: LpOracle, P: Poly, eqs: seq<Row>, b: Row)
    requires LpSound(lp, P) && |b| > 0 && LevelRange(lp, eqs, b).RangeIntegral?
    ensures Found(lp, P, eqs, LevelRange(lp, eqs, b).at, true)
  {
    RangeIntegralSample(lp, P, eqs, b);
  }

  /** What entering a level leads to: an error, an integral vertex, a
      basis reduction (None when it failed), or the level's range (empty or
      not) with the snapshot taken. */
  datatype Entered = EnterFail | EnterIntegral(at: Position) | EnterReduced(nb: Option<Mat>) | EnterRange(isEmpty: bool, at: Position)

  /** The `init` half of an iteration of isl_tab_sample: minimise and
      maximise the level's direction, stop at an integral vertex, reduce
      the basis once when the range holds more than one value and reduction
      is enabled, and otherwise take a snapshot. */
  method EnterLevel(lp: LpOracle, ghost P: Poly, nU: nat, opt: Options, B: Mat, eqs: seq<Row>,
                    min: array<int>, max: array<int>, snap: array<Snapshot>, level: nat, reduced: bool)
    returns (e: Entered)
    requires LpSound(lp, P) && BasesSound(lp, P) && min != max
    requires Inv(lp, P, nU, B, min[..], max[..], snap[..], level, true, eqs)
    modifies min, max, snap, opt
    ensures opt.ilpSolver == old(opt.ilpSolver) && opt.gbrOnlyFirst == old(opt.gbrOnlyFirst)
    ensures opt.gbr == old(opt.gbr) || (old(opt.gbr) == Once && e.EnterReduced? && opt.gbr == Never)
    ensures e.EnterIntegral? ==> Found(lp, P, eqs, e.at, true)
    ensures e.EnterReduced? ==> !reduced && snap[..] == old(snap[..]) && old(opt.gbr) != Never && opt.gbr != Once
    ensures e.EnterReduced? && e.nb.Some? ==> Inv(lp, P, nU, e.nb.value, min[..], max[..], snap[..], level, true, eqs)
    ensures e.EnterRange? ==> Mid(lp, P, nU, B, min[..], max[..], snap[..], level, eqs, e.isEmpty)
  {
    ghost var ms, maxs, snaps := min[..], max[..], snap[..];
    var b := B[1 + level];
    var range := LevelRange(lp, eqs, b);  // the two calls of isl_tab_min
    if range.RangeFail? {
      return EnterFail;
    }
    if range.RangeIntegral? {  // isl_tab_sample_is_integer
      StopIntegral(lp, P, eqs, b);
      return EnterIntegral(range.at);
    }
    var at := AtMin(NegRow(b));
    var isEmpty := range.RangeEmpty?;
    if !isEmpty {
      min[level] := range.lo;
      max[level] := range.hi;
      assert min[..] == ms[level := range.lo] && max[..] == maxs[level := range.hi];
      if !reduced && opt.gbr != Never && min[level] < max[level] {
        var reducedBasis := ReduceBasis(lp, opt, B, level);
        if reducedBasis.Some? {
          EnterReduce(lp, P, nU, B, ms, maxs, snaps, level, eqs, opt.gbr == Always);
        }
        return EnterReduced(reducedBasis);
      }
    }
    snap[level] := Snapshot(|eqs|, at);  // isl_tab_snap
    assert snap[..] == snaps[level := Snapshot(|eqs|, at)];
    if isEmpty {
      EnterEmpty(lp, P, nU, B, ms, maxs, snaps, level, eqs, snap[level]);
    } else {
      EnterNonEmpty(lp, P, nU, B, ms, maxs, snaps, level, eqs, snap[level]);
    }
    return EnterRange(isEmpty, at);
  }

  /** The second half of an iteration: leave an empty or exhausted level,
      rolling back to the previous level's snapshot, or fix the direction
      to the current value and descend, or stop after the last bounded
      direction.  The event says which. */
  method Advance(lp: LpOracle, ghost P: Poly, nU: nat, dim: nat, B: Mat, eqs: seq<Row>,
                 min: array<int>, max: array<int>, snap: array<Snapshot>, level: nat, isEmpty: bool)
    returns (level': int, init': bool, eqs': seq<Row>, at': Position, stopped: bool, ghost ev: Event)
    requires LpSound(lp, P) && dim == P.dim
    requires Mid(lp, P, nU, B, min[..], max[..], snap[..], level, eqs, isEmpty)
    ensures ev.level == level && !ev.Reduce?
    ensures stopped ==> Found(lp, P, eqs', at', nU == 0)
    ensures !stopped ==> Inv(lp, P, nU, B, min[..], max[..], snap[..], level', init', eqs')
  {
    if isEmpty || min[level] > max[level] {
      Leave(lp, P, nU, B, min[..], max[..], snap[..], level, eqs, isEmpty);
      level', init', eqs', at', stopped, ev := level - 1, false, eqs, AtStart, false, Backtrack(level);
      if level' >= 0 {
        eqs', at' := eqs[..snap[level'].count], snap[level'].pos;  // isl_tab_rollback
      }
      return;
    }
    eqs', at' := Extend(eqs, B[1 + level], min[level]), AtEquality;  // isl_tab_add_valid_eq
    ev := Branch(level, min[level]);
    if level + nU < dim - 1 {
      Descend1(lp, P, nU, B, min[..], max[..], snap[..], level, eqs);
      level', init', stopped := level + 1, true, false;
      return;
    }
    Stop(lp, P, nU, B, min[..], max[..], snap[..], level, eqs);
    level', init', stopped := level, false, true;
  }

  /** The other half of the start of an iteration: try the next value of
      the current level. */
  method Increment(lp: LpOracle, ghost P: Poly, nU: nat, B: Mat, eqs: seq<Row>,
                   min: array<int>, max: array<int>, snap: array<Snapshot>, level: nat)
    requires min != max && Inv(lp, P, nU, B, min[..], max[..], snap[..], level, false, eqs)
    modifies min
    ensures min[..] == old(min[..])[level := old(min[level]) + 1]
    ensures Mid(lp, P, nU, B, min[..], max[..], snap[..], level, eqs, false)
  {
    ghost var ms := min[..];
    min[level] := min[level] + 1;
    assert min[..] == ms[level := ms[level] + 1];
    NextValue(lp, P, nU, B, ms, max[..], snap[..], level, eqs);
  }

  /** How the search loop ended: every value was exhausted (level < 0), it
      stopped at a vertex, or it failed (with the basis lost when the basis
      reduction failed). */
  datatype SearchEnd = Exhausted | Stopped(eqs: seq<Row>, at: Position) | Failed(lostBasis: bool)

  /** The loop of isl_tab_sample, over the bounded directions 0 .. dim - 1 -
      nUnbounded of the basis B0.  It ends Exhausted only when the set has
      no integer point, and Stopped at a vertex of the set that satisfies
      the equalities added, which is integral when no direction is
      unbounded.  ctx->opt->gbr may go from ISL_GBR_ONCE to ISL_GBR_NEVER;
      the other options are untouched.  B is the final basis and nz the
      last level at which the basis was reduced (tab->n_zero). */
  method Search(lp: LpOracle, ghost P: Poly, dim: nat, opt: Options, B0: Mat, nz0: nat, nUnbounded: nat, fuel: nat)
    returns (out: SearchEnd, B: Mat, nz: nat, ghost trace: seq<Event>)
    requires LpSound(lp, P) && BasesSound(lp, P) && BasisSound(lp, P, B0) && dim == P.dim && nUnbounded < dim
    modifies opt
    ensures opt.ilpSolver == old(opt.ilpSolver) && opt.gbrOnlyFirst == old(opt.gbrOnlyFirst)
    ensures opt.gbr == old(opt.gbr) || (old(opt.gbr) == Once && opt.gbr == Never)
    ensures BasisSound(lp, P, B)
    ensures out.Exhausted? ==> NoSample(P)
    ensures out.Stopped? ==> Found(lp, P, out.eqs, out.at, nUnbounded == 0)
    ensures NoDoubleReduce(trace) && LevelsIn(trace, dim - 1 - nUnbounded)
    ensures old(opt.gbr) == Never ==> ReduceFree(trace)
    ensures old(opt.gbr) == Once ==> ReducesOnce(trace)
  {
    B, nz, trace := B0, nz0, [];
    var eqs: seq<Row>, at := [], AtStart;
    var min := new int[dim];
    var max := new int[dim];
    var snap := new Snapshot[dim](_ => Snapshot(0, AtStart));
    var level := 0;
    var init := true;
    var reduced := false;
    var fuelLeft := fuel;
    ghost var gbr := opt.gbr;
    while level >= 0
      invariant Inv(lp, P, nUnbounded, B, min[..], max[..], snap[..], level, init, eqs)
      invariant opt.ilpSolver == old(opt.ilpSolver) && opt.gbrOnlyFirst == old(opt.gbrOnlyFirst)
      invariant opt.gbr == gbr || (gbr == Once && opt.gbr == Never)
      invariant reduced ==> init
      invariant TraceOk(trace, dim - 1 - nUnbounded, gbr, opt.gbr)
      invariant |trace| > 0 && trace[|trace| - 1].Reduce? ==> reduced
      decreases fuelLeft
    {
      if fuelLeft == 0 {
        return Failed(false), B, nz, trace;
      }
      fuelLeft := fuelLeft - 1;
      var isEmpty := false;
      if init {
        ghost var cur := opt.gbr;
        var e := EnterLevel(lp, P, nUnbounded, opt, B, eqs, min, max, snap, level, reduced);
        match e
        case EnterFail =>
          return Failed(false), B, nz, trace;
        case EnterIntegral(p) =>
          return Stopped(eqs, p), B, nz, trace;
        case EnterReduced(nb) =>
          nz := level;  // tab->n_zero
          if nb.None? {
            return Failed(true), B, nz, trace;
          }
          B := nb.value;
          reduced := true;
          AppendEvent(trace, Reduce(level), dim - 1 - nUnbounded, gbr, cur, opt.gbr);
          trace := trace + [Reduce(level)];
          continue;
        case EnterRange(empty, p) =>
          isEmpty, at := empty, p;
          reduced := false;
      } else {
        Increment(lp, P, nUnbounded, B, eqs, min, max, snap, level);
      }
      var stopped;
      ghost var ev;
      level, init, eqs, at, stopped, ev := Advance(lp, P, nUnbounded, dim, B, eqs, min, max, snap, level, isEmpty);
      AppendEvent(trace, ev, dim - 1 - nUnbounded, gbr, opt.gbr, opt.gbr);
      trace := trace + [ev];
      if stopped {
        return Stopped(eqs, at), B, nz, trace;
      }
    }
    return Exhausted, B, nz, trace;
  }

  // ---------------------------------------------------------------------
  // The tableau.

  /** r is T ceil(B v) for the inverse T of B: an integral homogeneous
      point (denominator 1) whose image under B is the image of v rounded
      up, coordinate by coordinate. */
  ghost predicate RoundsTo(B: Mat, v: seq<int>, r: seq<int>)
  {
    && |B| > 0 && Rows(B, |v|) && |r| == |v| > 0 && v[0] > 0
    && MatVec(B, v)[0] == v[0] && r[0] == 1 && MatVec(B, r) == VecCeil(MatVec(B, v))
  }

  /** A point with denominator 1 already is its own rounding. */
  lemma RoundsToItself(B: Mat, n: nat, v: seq<int>)
    requires BasisShape(B, n) && |v| == 1 + n && v[0] == 1
    ensures RoundsTo(B, v, v)
  {
    DotUnit(1 + n, 0, v);
    var w := MatVec(B, v);
    forall i | 1 <= i < |w| ensures VecCeil(w)[i] == w[i] {
      assert CeilDiv(w[i], 1) * 1 == CeilDiv(w[i], 1);
    }
  }

  /** A tableau for the basic set poly in nVar variables; `fixed` holds the
      equalities added since it was built. */
  class Tableau {
    const nVar: nat
    const lp: LpOracle
    ghost const poly: Poly
    var nUnbounded: nat
    var nZero: nat
    var empty: bool
    var basis: Option<Mat>
    var fixed: seq<Row>
    var pos: Position

    ghost predicate Valid()
      reads this
    {
      && WellFormed(poly) && poly.dim == nVar && nUnbounded <= nVar
      && LpSound(lp, poly) && BasesSound(lp, poly)
      && (empty ==> NoSample(poly))
      && (basis.Some? ==> BasisSound(lp, poly, basis.value))
    }

    constructor (n: nat, oracle: LpOracle, ghost p: Poly, isEmpty: bool, b: Option<Mat>, unbounded: nat)
      ensures nVar == n && lp == oracle && poly == p && empty == isEmpty && basis == b
      ensures nUnbounded == unbounded && nZero == 0 && fixed == [] && pos == AtStart
    {
      nVar := n;
      lp := oracle;
      poly := p;
      empty := isEmpty;
      basis := b;
      nUnbounded := unbounded;
      nZero := 0;
      fixed := [];
      pos := AtStart;
    }

    /** isl_tab_get_sample_value. */
    function SampleValue(): (v: seq<int>)
      reads this
    {
      lp.vertex(fixed, pos)
    }

    /** The integer point of the search, rounded through the basis when the
        last directions are unbounded: T ceil(B v) with T the inverse of B. */
    function RoundThroughBasis(B: Mat, v: seq<int>): (r: seq<int>)
      reads this
      requires Valid() && |v| == 1 + nVar && v[0] > 0 && BasisSound(lp, poly, B)
      ensures |r| == 1 + nVar && RoundsTo(B, v, r)
    {
      var w := MatVec(B, v);
      DotUnit(1 + nVar, 0, v);
      var r := lp.solve(B, VecCeil(w));
      assert Reaches(B, VecCeil(w));
      DotUnit(1 + nVar, 0, r);
      r
    }

    /** isl_tab_sample: returns the empty sample only when the set has no
        integer point, an integer point of the set when no direction is
        unbounded, and restores ctx->opt->gbr on every exit.  The recorded
        trace never holds two reductions in a row and only visits levels up
        to dim - 1 - n_unbounded.  The search runs for at most fuel rounds. */
    method Sample(opt: Options, fuel: nat) returns (r: Result<seq<int>>, ghost trace: seq<Event>)
      requires Valid() && fixed == []
      modifies this, opt
      ensures Valid() && nUnbounded == old(nUnbounded)
      ensures opt.gbr == old(opt.gbr) && opt.gbrOnlyFirst == old(opt.gbrOnlyFirst) && opt.ilpSolver == old(opt.ilpSolver)
      ensures r == Ok(EmptySample) ==> NoSample(poly)
      ensures r.Ok? && r.value != EmptySample && nUnbounded == 0 < nVar ==> IsSample(poly, r.value)
      ensures r.Ok? && r.value != EmptySample && nUnbounded > 0 ==> basis.Some? && RoundsTo(basis.value, SampleValue(), r.value)
      ensures NoDoubleReduce(trace) && LevelsIn(trace, nVar - 1 - nUnbounded)
      ensures old(opt.gbr) == Never ==> ReduceFree(trace)
      ensures old(opt.gbr) == Once ==> ReducesOnce(trace)
    {
      trace := [];
      if empty {
        return Ok(EmptySample), trace;
      }
      if basis.None? {
        basis := lp.initialBasis;
      }
      if basis.None? {
        return Fail, trace;
      }
      // The size assertions on the basis hold by the tableau's invariant.
      var gbr := opt.gbr;
      if nUnbounded == nVar {
        var sample := RoundThroughBasis(basis.value, SampleValue());
        return Ok(sample), trace;
      }
      var out, B, nz;
      out, B, nz, trace := Search(lp, poly, nVar, opt, basis.value, nZero, nUnbounded, fuel);
      opt.gbr := gbr;
      nZero := nz;
      if out.Failed? {
        basis := if out.lostBasis then None else Some(B);
        return Fail, trace;
      }
      basis := Some(B);
      if out.Exhausted? {
        return Ok(EmptySample), trace;
      }
      fixed, pos := out.eqs, out.at;
      var sample := SampleValue();
      if nUnbounded > 0 && sample[0] != 1 {
        sample := RoundThroughBasis(B, sample);
      } else if nUnbounded > 0 {
        RoundsToItself(B, nVar, sample);
      }
      return Ok(sample), trace;
    }
  }
}
