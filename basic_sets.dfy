/** Basic sets: conjunctions of affine equalities and inequalities over dim
    integer-valued set variables, the rows that make them up, and the
    in-place row operations of the sampler (isl_sample.c). */
module BasicSets {
  import opened Wrappers
  import opened Vectors

  /** The value of a basic set: equalities eq[i] . (1, x) == 0, inequalities
      ineq[i] . (1, x) >= 0, and the ISL_BASIC_SET_EMPTY flag that
      isl_basic_set_fast_is_empty reads. */
  datatype Poly = Poly(dim: nat, eq: seq<Row>, ineq: seq<Row>, empty: bool)

  ghost predicate WellFormed(p: Poly)
  {
    Rows(p.eq, 1 + p.dim) && Rows(p.ineq, 1 + p.dim)
  }

  /** isl_basic_set_contains: the homogeneous point v satisfies every constraint. */
  predicate Contains(p: Poly, v: seq<int>)
    requires WellFormed(p)
  {
    && |v| == 1 + p.dim
    && (forall i | 0 <= i < |p.eq| :: Dot(p.eq[i], v) == 0)
    && (forall i | 0 <= i < |p.ineq| :: Dot(p.ineq[i], v) >= 0)
  }

  /** v is an integer point of p: denominator one and every constraint holds. */
  ghost predicate IsSample(p: Poly, v: seq<int>)
  {
    WellFormed(p) && Contains(p, v) && v[0] == 1
  }

  /** No integer point lies in p. */
  ghost predicate NoSample(p: Poly)
  {
    forall v :: !IsSample(p, v)
  }

  /** The EMPTY flag is only ever set on sets without integer points. */
  ghost predicate FlagSound(p: Poly)
  {
    p.empty ==> NoSample(p)
  }

  /** The representation invariant that isl's normalisation keeps: a
      constraint without variables that does not hold makes the set empty. */
  ghost predicate Finalized(p: Poly)
    requires WellFormed(p)
  {
    || p.empty
    || (&& (forall i | 0 <= i < |p.eq| && FirstNonZero(p.eq[i][1..]) < 0 :: p.eq[i][0] == 0)
        && (forall i | 0 <= i < |p.ineq| && FirstNonZero(p.ineq[i][1..]) < 0 :: p.ineq[i][0] >= 0))
  }

  /** The zero-length vector: the sampler's answer "no integer point". */
  const EmptySample: seq<int> := []

  /** zero_sample: the point (1, 0, ..., 0) of the given dimension. */
  function ZeroSample(dim: nat): (r: seq<int>)
    ensures |r| == 1 + dim && r[0] == 1 && forall i :: 1 <= i <= dim ==> r[i] == 0
  {
    [1] + Zeros(dim)
  }

  /** A finalized basic set without variables that is not marked empty holds
      the zero-dimensional point, which is distinct from the empty sample. */
  lemma ZeroDimSample(p: Poly)
    requires WellFormed(p) && p.dim == 0 && Finalized(p) && !p.empty
    ensures IsSample(p, ZeroSample(0)) && ZeroSample(0) != EmptySample
  {
    var z := ZeroSample(0);
    forall i | 0 <= i < |p.eq| ensures Dot(p.eq[i], z) == 0 {
      assert FirstNonZero(p.eq[i][1..]) < 0;
      DotFront(p.eq[i], z);
    }
    forall i | 0 <= i < |p.ineq| ensures Dot(p.ineq[i], z) >= 0 {
      assert FirstNonZero(p.ineq[i][1..]) < 0;
      DotFront(p.ineq[i], z);
    }
  }

  // ---------------------------------------------------------------------
  // Preimage and dropping dimensions.

  function MapRows(rows: seq<Row>, t: Mat, ncols: nat): (r: seq<Row>)
    requires Rows(rows, |t|) && Rows(t, ncols)
    ensures |r| == |rows| && Rows(r, ncols)
    ensures forall i :: 0 <= i < |rows| ==> r[i] == VecMat(rows[i], t, ncols)
  {
    seq(|rows|, i requires 0 <= i < |rows| => VecMat(rows[i], t, ncols))
  }

  /** isl_basic_set_preimage: substitute x = T x' in every constraint, where T
      is a (1 + dim) x (1 + newDim) matrix in homogeneous form. */
  function Preimage(p: Poly, t: Mat, newDim: nat): (r: Poly)
    requires WellFormed(p) && |t| == 1 + p.dim && Rows(t, 1 + newDim)
    ensures WellFormed(r) && r.dim == newDim
    ensures |r.eq| == |p.eq| && |r.ineq| == |p.ineq| && r.empty == p.empty
  {
    Poly(newDim, MapRows(p.eq, t, 1 + newDim), MapRows(p.ineq, t, 1 + newDim), p.empty)
  }

  /** A point is in the preimage exactly when its image is in the set. */
  lemma PreimageContains(p: Poly, t: Mat, newDim: nat, v: seq<int>)
    requires WellFormed(p) && |t| == 1 + p.dim && Rows(t, 1 + newDim) && |v| == 1 + newDim
    ensures Contains(Preimage(p, t, newDim), v) <==> Contains(p, MatVec(t, v))
  {
    var q := Preimage(p, t, newDim);
    forall i | 0 <= i < |p.eq| ensures Dot(q.eq[i], v) == Dot(p.eq[i], MatVec(t, v)) {
      VecMatDot(p.eq[i], t, v);
    }
    forall i | 0 <= i < |p.ineq| ensures Dot(q.ineq[i], v) == Dot(p.ineq[i], MatVec(t, v)) {
      VecMatDot(p.ineq[i], t, v);
    }
  }

  // ---------------------------------------------------------------------
  // The homogeneous points of a basic set form a convex cone.

  lemma ScaledDot(r: Row, x: seq<int>, k: int)
    requires |r| == |x|
    ensures Dot(r, Scale(k, x)) == k * Dot(r, x)
  {
    DotComm(r, Scale(k, x));
    DotScale(k, x, r);
    DotComm(x, r);
  }

  /** Scaling by a positive factor does not leave or enter the set. */
  lemma ContainsScale(p: Poly, x: seq<int>, k: int)
    requires WellFormed(p) && k > 0
    ensures Contains(p, Scale(k, x)) <==> Contains(p, x)
  {
    if |x| == 1 + p.dim {
      forall i | 0 <= i < |p.eq| ensures Dot(p.eq[i], Scale(k, x)) == 0 <==> Dot(p.eq[i], x) == 0 {
        ScaledDot(p.eq[i], x, k);
        PositiveFactor(k, Dot(p.eq[i], x));
      }
      forall i | 0 <= i < |p.ineq| ensures Dot(p.ineq[i], Scale(k, x)) >= 0 <==> Dot(p.ineq[i], x) >= 0 {
        ScaledDot(p.ineq[i], x, k);
        PositiveFactor(k, Dot(p.ineq[i], x));
      }
    }
  }

  lemma CombinedDot(r: Row, w: seq<int>, d: seq<int>, c: seq<int>, k: int)
    requires |r| == |w| == |d| == |c| && Scale(k, c) == Add(w, d)
    ensures k * Dot(r, c) == Dot(r, w) + Dot(r, d)
  {
    ScaledDot(r, c, k);
    DotComm(r, Add(w, d));
    DotAdd(w, d, r);
    DotComm(w, r);
    DotComm(d, r);
  }

  /** If k c == w + d with w and d in the set and k > 0, then c is in the set. */
  lemma ContainsCombine(p: Poly, w: seq<int>, d: seq<int>, c: seq<int>, k: int)
    requires WellFormed(p) && Contains(p, w) && Contains(p, d) && k > 0
    requires |c| == |w| && Scale(k, c) == Add(w, d)
    ensures Contains(p, c)
  {
    forall i | 0 <= i < |p.eq| ensures Dot(p.eq[i], c) == 0 {
      CombinedDot(p.eq[i], w, d, c, k);
      PositiveFactor(k, Dot(p.eq[i], c));
    }
    forall i | 0 <= i < |p.ineq| ensures Dot(p.ineq[i], c) >= 0 {
      CombinedDot(p.ineq[i], w, d, c, k);
      PositiveFactor(k, Dot(p.ineq[i], c));
    }
  }

  /** The origin of the homogeneous space satisfies every constraint. */
  lemma ContainsOrigin(p: Poly)
    requires WellFormed(p)
    ensures Contains(p, Zeros(1 + p.dim))
  {
    var z := Zeros(1 + p.dim);
    forall i | 0 <= i < |p.eq| ensures Dot(p.eq[i], z) == 0 {
      DotComm(p.eq[i], z);
      DotZeros(p.eq[i]);
    }
    forall i | 0 <= i < |p.ineq| ensures Dot(p.ineq[i], z) == 0 {
      DotComm(p.ineq[i], z);
      DotZeros(p.ineq[i]);
    }
  }

  /** Reordering the inequalities changes no point's membership. */
  lemma ContainsPermuted(p: Poly, q: Poly, v: seq<int>)
    requires WellFormed(p) && q.dim == p.dim && q.eq == p.eq && multiset(q.ineq) == multiset(p.ineq)
    ensures WellFormed(q) && (Contains(q, v) <==> Contains(p, v))
  {
    forall i | 0 <= i < |q.ineq| ensures |q.ineq[i]| == 1 + p.dim {
      RowOfPermutation(q.ineq, p.ineq, i);
    }
    if Contains(p, v) {
      forall i | 0 <= i < |q.ineq| ensures Dot(q.ineq[i], v) >= 0 {
        RowOfPermutation(q.ineq, p.ineq, i);
      }
    }
    if Contains(q, v) {
      forall j | 0 <= j < |p.ineq| ensures Dot(p.ineq[j], v) >= 0 {
        RowOfPermutation(p.ineq, q.ineq, j);
      }
    }
  }

  lemma RowOfPermutation(a: seq<Row>, b: seq<Row>, i: nat)
    requires multiset(a) == multiset(b) && i < |a|
    ensures exists j :: 0 <= j < |b| && b[j] == a[i]
  {
    assert a[i] in multiset(b);
  }

  function DropRowCols(rows: seq<Row>, first: nat, n: nat): (r: seq<Row>)
    requires forall i :: 0 <= i < |rows| ==> 1 + first + n <= |rows[i]|
    ensures |r| == |rows|
    ensures forall i :: 0 <= i < |rows| ==> r[i] == rows[i][..1 + first] + rows[i][1 + first + n..]
  {
    seq(|rows|, i requires 0 <= i < |rows| => rows[i][..1 + first] + rows[i][1 + first + n..])
  }

  /** isl_basic_set_drop_dims: delete the columns of the variables
      first .. first + n - 1, which the caller has made unused. */
  function DropDims(p: Poly, first: nat, n: nat): (r: Poly)
    requires WellFormed(p) && first + n <= p.dim
    ensures WellFormed(r) && r.dim == p.dim - n && |r.ineq| == |p.ineq| && |r.eq| == |p.eq|
  {
    Poly(p.dim - n, DropRowCols(p.eq, first, n), DropRowCols(p.ineq, first, n), p.empty)
  }

  // ---------------------------------------------------------------------
  // Row predicates used by the in-place operations.

  /** The skew loop's test: the normal of r has a single non-zero entry. */
  predicate IsUnitRow(r: Row)
    requires |r| >= 1
  {
    var pos := FirstNonZero(r[1..]);
    pos >= 0 && FirstNonZero(r[1 + pos + 1..]) < 0
  }

  /** The test says what it means: exactly one variable has a non-zero coefficient. */
  lemma UnitRowMeaning(r: Row)
    requires |r| >= 1
    ensures IsUnitRow(r) <==>
      exists p :: 1 <= p < |r| && r[p] != 0 && forall q :: 1 <= q < |r| && q != p ==> r[q] == 0
  {
    var pos := FirstNonZero(r[1..]);
    if IsUnitRow(r) {
      var p := 1 + pos;
      assert r[p] == r[1..][pos];
      forall q | 1 <= q < |r| && q != p ensures r[q] == 0 {
        if q < p {
          assert r[q] == r[1..][q - 1];
        } else {
          assert r[q] == r[1 + pos + 1..][q - p - 1];
        }
      }
    } else if pos >= 0 {
      var k := FirstNonZero(r[1 + pos + 1..]);
      forall p | 1 <= p < |r| && r[p] != 0
        ensures exists q :: 1 <= q < |r| && q != p && r[q] != 0
      {
        assert r[1 + pos] == r[1..][pos];
        assert r[2 + pos + k] == r[1 + pos + 1..][k];
        if p == 1 + pos {
          assert r[2 + pos + k] != 0;
        } else {
          assert r[1 + pos] != 0;
        }
      }
    } else {
      forall p | 1 <= p < |r| ensures r[p] == 0 {
        assert r[p] == r[1..][p - 1];
      }
    }
  }

  /** The unit rows of rows, in their original order. */
  function UnitRows(rows: seq<Row>): (r: seq<Row>)
    requires forall i :: 0 <= i < |rows| ==> |rows[i]| >= 1
    decreases |rows|
  {
    if |rows| == 0 then []
    else
      var last := rows[|rows| - 1];
      UnitRows(rows[..|rows| - 1]) + (if IsUnitRow(last) then [last] else [])
  }

  /** Does the inequality touch one of the variables first .. first + n - 1? */
  predicate Involves(r: Row, first: nat, n: nat)
    requires 1 + first + n <= |r|
  {
    FirstNonZero(r[1 + first .. 1 + first + n]) != -1
  }

  /** The rows that do not involve the variables first .. first + n - 1, in order. */
  function Kept(rows: seq<Row>, first: nat, n: nat): (r: seq<Row>)
    requires forall i :: 0 <= i < |rows| ==> 1 + first + n <= |rows[i]|
    decreases |rows|
  {
    if |rows| == 0 then []
    else (if Involves(rows[0], first, n) then [] else [rows[0]]) + Kept(rows[1..], first, n)
  }

  /** Kept removes exactly the rows that involve the variables, and keeps
      every other row. */
  lemma {:induction false} KeptExactly(rows: seq<Row>, first: nat, n: nat, r: Row)
    requires forall i :: 0 <= i < |rows| ==> 1 + first + n <= |rows[i]|
    ensures r in Kept(rows, first, n) <==> r in rows && !Involves(r, first, n)
    decreases |rows|
  {
    if |rows| > 0 {
      KeptExactly(rows[1..], first, n, r);
      assert rows == [rows[0]] + rows[1..];
    }
  }

  /** The equality that fixes coordinate i of the homogeneous point v:
      v[0] * x_i - v[1 + i] == 0. */
  function CoordEq(v: seq<int>, i: nat): (r: Row)
    requires 1 + i < |v|
    ensures |r| == |v|
  {
    Add(Scale(-v[1 + i], UnitRow(|v|, 0)), Scale(v[0], UnitRow(|v|, 1 + i)))
  }

  /** The equalities of isl_basic_set_from_vec, created for the last
      coordinate first. */
  function FromVecEqualities(v: seq<int>): (eqs: seq<Row>)
    requires |v| > 0
    ensures |eqs| == |v| - 1 && Rows(eqs, |v|)
  {
    seq(|v| - 1, k requires 0 <= k < |v| - 1 => CoordEq(v, |v| - 2 - k))
  }

  lemma CoordEqDot(v: seq<int>, i: nat, w: seq<int>)
    requires 1 + i < |v| && |w| == |v|
    ensures Dot(CoordEq(v, i), w) == v[0] * w[1 + i] - v[1 + i] * w[0]
  {
    var n, c, d := |v|, -v[1 + i], v[0];
    var u0, u1 := UnitRow(n, 0), UnitRow(n, 1 + i);
    var a, b := Scale(c, u0), Scale(d, u1);
    DotAdd(a, b, w);
    DotScale(c, u0, w);
    DotScale(d, u1, w);
    DotUnit(n, 0, w);
    DotUnit(n, 1 + i, w);
    assert Dot(a, w) == c * w[0] && Dot(b, w) == d * w[1 + i];
    NegMul(v[1 + i], w[0]);
  }

  /** The basic set built from v holds exactly the points proportional to v:
      w is in it iff w has v's size and w[1 + i] / w[0] == v[1 + i] / v[0] for
      every coordinate.  In particular v itself satisfies every equality. */
  lemma FromVecExactly(v: seq<int>, w: seq<int>)
    requires |v| > 0
    ensures var p := Poly(|v| - 1, FromVecEqualities(v), [], false);
      Contains(p, w) <==>
        |w| == |v| && forall j :: 1 <= j < |v| ==> v[0] * w[j] == v[j] * w[0]
  {
    var p := Poly(|v| - 1, FromVecEqualities(v), [], false);
    var eqs := FromVecEqualities(v);
    if |w| == |v| {
      if forall j :: 1 <= j < |v| ==> v[0] * w[j] == v[j] * w[0] {
        forall k | 0 <= k < |eqs| ensures Dot(eqs[k], w) == 0 {
          var j := |v| - 1 - k;
          FromVecDot(v, k, w);
          assert v[0] * w[j] == v[j] * w[0];
        }
      }
      if Contains(p, w) {
        forall j | 1 <= j < |v| ensures v[0] * w[j] == v[j] * w[0] {
          var k := |v| - 1 - j;
          FromVecDot(v, k, w);
          assert Dot(eqs[k], w) == 0;
        }
      }
    }
  }

  /** Equality k of the set built from v ties coordinate |v| - 1 - k to v. */
  lemma FromVecDot(v: seq<int>, k: nat, w: seq<int>)
    requires |v| > 0 && k < |v| - 1 && |w| == |v|
    ensures Dot(FromVecEqualities(v)[k], w) == v[0] * w[|v| - 1 - k] - v[|v| - 1 - k] * w[0]
  {
    var i := |v| - 2 - k;
    assert FromVecEqualities(v)[k] == CoordEq(v, i);
    CoordEqDot(v, i, w);
  }

  lemma FromVecContainsVec(v: seq<int>)
    requires |v| > 0
    ensures Contains(Poly(|v| - 1, FromVecEqualities(v), [], false), v)
  {
    FromVecExactly(v, v);
  }

  /** Exchange the rows at positions i and j. */
  function Swap(s: seq<Row>, i: nat, j: nat): (r: seq<Row>)
    requires i < |s| && j < |s|
    ensures |r| == |s| && r[i] == s[j] && r[j] == s[i]
    ensures forall k :: 0 <= k < |s| && k != i && k != j ==> r[k] == s[k]
    ensures multiset(r) == multiset(s)
  {
    var t := s[i := s[j]];
    assert multiset(t) == multiset(s) - multiset{s[i]} + multiset{s[j]};
    t[j := s[i]]
  }

  lemma UnitRowsStep(orig: seq<Row>, i: nat)
    requires i < |orig| && forall k :: 0 <= k < |orig| ==> |orig[k]| >= 1
    ensures UnitRows(orig[..i + 1]) == UnitRows(orig[..i]) + (if IsUnitRow(orig[i]) then [orig[i]] else [])
  {
    assert orig[..i + 1][..i] == orig[..i];
  }

  /** The skew loop's invariant after examining rows ..i: the first j rows
      are the unit rows found so far, rows j..i are not unit rows, the rest
      is untouched and no row was lost. */
  ghost predicate SkewInv(cur: seq<Row>, orig: seq<Row>, i: nat, j: nat)
  {
    && j <= i <= |cur| == |orig|
    && (forall k :: 0 <= k < |orig| ==> |orig[k]| >= 1)
    && (forall k :: 0 <= k < |cur| ==> |cur[k]| >= 1)
    && cur[..j] == UnitRows(orig[..i])
    && (forall k :: j <= k < i ==> !IsUnitRow(cur[k]))
    && cur[i..] == orig[i..]
    && multiset(cur) == multiset(orig)
  }

  lemma SkewSkip(cur: seq<Row>, orig: seq<Row>, i: nat, j: nat)
    requires SkewInv(cur, orig, i, j) && i < |cur| && !IsUnitRow(cur[i])
    ensures SkewInv(cur, orig, i + 1, j)
  {
    UnitRowsStep(orig, i);
    assert cur[i] == cur[i..][0] == orig[i];
    assert cur[i + 1..] == cur[i..][1..];
  }

  lemma SkewTake(cur: seq<Row>, orig: seq<Row>, i: nat, j: nat)
    requires SkewInv(cur, orig, i, j) && i < |cur| && IsUnitRow(cur[i])
    ensures SkewInv(Swap(cur, i, j), orig, i + 1, j + 1)
  {
    UnitRowsStep(orig, i);
    assert cur[i] == cur[i..][0] == orig[i];
    var next := Swap(cur, i, j);
    assert next[..j + 1] == cur[..j] + [orig[i]];
    assert next[i + 1..] == cur[i + 1..] == cur[i..][1..];
  }

  lemma SkewDone(cur: seq<Row>, orig: seq<Row>, j: nat)
    requires SkewInv(cur, orig, |cur|, j)
    ensures cur[..j] == UnitRows(orig) && forall k :: j <= k < |cur| ==> !IsUnitRow(cur[k])
    ensures forall k :: 0 <= k < |cur| ==> cur[k] in orig
  {
    assert orig[..|orig|] == orig;
    forall k | 0 <= k < |cur| ensures cur[k] in orig {
      assert cur[k] in multiset(cur);
    }
  }

  /** Move the inequalities whose normal is a multiple of a unit vector to
      the front by swapping rows, keeping the unit rows in their order. */
  method UnitRowsFirst(ineq: seq<Row>) returns (rows: seq<Row>, nUnit: nat)
    requires forall k :: 0 <= k < |ineq| ==> |ineq[k]| >= 1
    ensures |rows| == |ineq| && multiset(rows) == multiset(ineq)
    ensures forall k :: 0 <= k < |rows| ==> rows[k] in ineq
    ensures nUnit <= |rows| && rows[..nUnit] == UnitRows(ineq)
    ensures forall k :: nUnit <= k < |rows| ==> !IsUnitRow(rows[k])
  {
    rows := ineq;
    var i, j := 0, 0;
    while i < |rows|
      invariant SkewInv(rows, ineq, i, j)
    {
      if IsUnitRow(rows[i]) {
        SkewTake(rows, ineq, i, j);
        rows := Swap(rows, i, j);
        j := j + 1;
      } else {
        SkewSkip(rows, ineq, i, j);
      }
      i := i + 1;
    }
    SkewDone(rows, ineq, j);
    nUnit := j;
  }

  // ---------------------------------------------------------------------
  // The basic set as a mutable object.

  /** A basic set whose rows the sampler rearranges in place and whose cached
      sample (bset->sample) it reads, clears and sets. */
  class BasicSet {
    const dim: nat
    var eq: seq<Row>
    var ineq: seq<Row>
    var empty: bool
    var sample: Option<seq<int>>

    function Value(): Poly
      reads this
    {
      Poly(dim, eq, ineq, empty)
    }

    ghost predicate Valid()
      reads this
    {
      WellFormed(Value())
    }

    constructor (p: Poly, cached: Option<seq<int>>)
      ensures Value() == p && sample == cached
    {
      dim := p.dim;
      eq := p.eq;
      ineq := p.ineq;
      empty := p.empty;
      sample := cached;
    }

    /** The first loop of isl_basic_set_skew_to_positive_orthant, applied
        to this basic set's inequalities. */
    method MoveUnitRowsUp() returns (nUnit: nat)
      requires Valid()
      modifies this
      ensures Valid() && eq == old(eq) && empty == old(empty) && sample == old(sample)
      ensures multiset(ineq) == multiset(old(ineq))
      ensures nUnit <= |ineq| && ineq[..nUnit] == UnitRows(old(ineq))
      ensures forall k :: nUnit <= k < |ineq| ==> !IsUnitRow(ineq[k])
    {
      var rows;
      rows, nUnit := UnitRowsFirst(ineq);
      ineq := rows;
    }

    /** drop_constraints_involving: delete, from the last one down, every
        inequality with a non-zero coefficient for one of the variables
        first .. first + n - 1.  The equalities are not touched. */
    method DropConstraintsInvolving(first: nat, n: nat)
      requires Valid() && first + n <= dim
      modifies this
      ensures Valid() && eq == old(eq) && empty == old(empty) && sample == old(sample)
      ensures multiset(ineq) == multiset(Kept(old(ineq), first, n))
    {
      var rows := DropRowsInvolving(ineq, first, n);
      KeptRows(ineq, first, n, 1 + dim);
      PermutedRows(Kept(ineq, first, n), rows, 1 + dim);
      ineq := rows;
    }
  }

  lemma KeptStep(rows: seq<Row>, first: nat, n: nat, i: nat)
    requires i < |rows| && forall k :: 0 <= k < |rows| ==> 1 + first + n <= |rows[k]|
    ensures Kept(rows[i..], first, n) == (if Involves(rows[i], first, n) then [] else [rows[i]]) + Kept(rows[i + 1..], first, n)
  {
    assert rows[i..][1..] == rows[i + 1..];
  }

  /** Kept keeps rows of the given length. */
  lemma KeptRows(rows: seq<Row>, first: nat, n: nat, len: nat)
    requires Rows(rows, len) && 1 + first + n <= len
    ensures Rows(Kept(rows, first, n), len)
  {
    var r := Kept(rows, first, n);
    forall k | 0 <= k < |r| ensures |r[k]| == len {
      KeptExactly(rows, first, n, r[k]);
    }
  }

  /** A permutation of rows of one length has rows of that length. */
  lemma PermutedRows(rows: seq<Row>, perm: seq<Row>, len: nat)
    requires Rows(rows, len) && multiset(perm) == multiset(rows)
    ensures Rows(perm, len)
  {
    forall k | 0 <= k < |perm| ensures |perm[k]| == len {
      assert perm[k] in multiset(rows);
    }
  }

  /** isl_basic_set_drop_inequality on a list of rows: the last row moves
      into slot pos, and the list is one shorter.  The rows before pos stay,
      and the rows from pos on are the old ones after pos, permuted. */
  function DropAt(rows: seq<Row>, pos: nat): (r: seq<Row>)
    requires pos < |rows|
    ensures |r| == |rows| - 1 && r[..pos] == rows[..pos]
    ensures multiset(r[pos..]) == multiset(rows[pos + 1..])
  {
    var last := |rows| - 1;
    if pos == last then rows[..pos]
    else
      assert rows[pos + 1..] == rows[pos + 1..last] + [rows[last]];
      var r := rows[..pos] + [rows[last]] + rows[pos + 1..last];
      assert r[pos..] == [rows[last]] + rows[pos + 1..last];
      r
  }

  /** One round of drop_constraints_involving's loop, at row i, keeps its
      invariant whether or not the row is dropped. */
  lemma DropStep(rows: seq<Row>, r: seq<Row>, first: nat, n: nat, i: nat)
    requires forall k :: 0 <= k < |rows| ==> 1 + first + n <= |rows[k]|
    requires i < |rows| && i < |r| && r[..i + 1] == rows[..i + 1]
    requires multiset(r[i + 1..]) == multiset(Kept(rows[i + 1..], first, n))
    ensures r[i] == rows[i]
    ensures !Involves(rows[i], first, n) ==> r[..i] == rows[..i] && multiset(r[i..]) == multiset(Kept(rows[i..], first, n))
    ensures Involves(rows[i], first, n) ==>
      DropAt(r, i)[..i] == rows[..i] && multiset(DropAt(r, i)[i..]) == multiset(Kept(rows[i..], first, n))
  {
    KeptStep(rows, first, n, i);
    assert r[i] == r[..i + 1][i];
    assert r[..i] == r[..i + 1][..i];
    assert r[i..] == [r[i]] + r[i + 1..];
  }

  /** The loop of drop_constraints_involving: from the last row to the
      first, remove every row that involves the variables first .. first + n - 1.
      Like isl_basic_set_drop_inequality, a removal moves the current last
      row into the freed slot, so the rows kept come out permuted. */
  method DropRowsInvolving(rows: seq<Row>, first: nat, n: nat) returns (r: seq<Row>)
    requires forall k :: 0 <= k < |rows| ==> 1 + first + n <= |rows[k]|
    ensures multiset(r) == multiset(Kept(rows, first, n))
  {
    r := rows;
    var i := |rows|;
    assert rows[i..] == [];
    while i > 0
      invariant 0 <= i <= |rows| && i <= |r|
      invariant r[..i] == rows[..i]
      invariant multiset(r[i..]) == multiset(Kept(rows[i..], first, n))
    {
      i := i - 1;
      DropStep(rows, r, first, n, i);
      if FirstNonZero(r[i][1 + first .. 1 + first + n]) == -1 {
        continue;
      }
      r := DropAt(r, i);
    }
    assert rows[0..] == rows && r[0..] == r;
  }

  /** One more equality of isl_basic_set_from_vec, for coordinate i. */
  lemma FromVecPrefix(v: seq<int>, i: nat)
    requires 1 + i < |v|
    ensures FromVecEqualities(v)[..|v| - 2 - i] + [CoordEq(v, i)] == FromVecEqualities(v)[..|v| - 1 - i]
  {
  }

  /** isl_basic_set_from_vec: the basic set holding only the point vec, one
      equality per coordinate, with vec as its cached sample.  A zero-length
      vector is refused. */
  method FromVec(vec: seq<int>) returns (b: BasicSet?)
    ensures b == null <==> |vec| == 0
    ensures b != null ==> fresh(b) && b.Valid() && b.dim == |vec| - 1
    ensures b != null ==> b.eq == FromVecEqualities(vec) && b.ineq == [] && !b.empty
    ensures b != null ==> b.sample == Some(vec) && Contains(b.Value(), vec)
  {
    if |vec| == 0 {
      return null;
    }
    var dim := |vec| - 1;
    b := new BasicSet(Poly(dim, [], [], false), None);
    var i := dim - 1;
    while i >= 0
      invariant -1 <= i < dim
      invariant b.dim == dim && b.ineq == [] && !b.empty && b.sample == None
      invariant b.eq == FromVecEqualities(vec)[..dim - 1 - i]
    {
      FromVecPrefix(vec, i);
      b.eq := b.eq + [CoordEq(vec, i)];
      i := i - 1;
    }
    assert FromVecEqualities(vec)[..dim] == FromVecEqualities(vec);
    b.sample := Some(vec);
    FromVecContainsVec(vec);
  }
}
