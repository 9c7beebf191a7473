/** The arithmetic of sampling unbounded sets: shifting a recession cone so
    that rounding up stays inside it (shift_cone, vec_sum_of_neg), and the
    vector and matrix glue of isl_basic_set_sample_with_cone (vec_concat,
    plug_in). */
module Cone {
  import opened Wrappers
  import opened Vectors
  import opened BasicSets

  // ---------------------------------------------------------------------
  // Sum of the negative entries.

  /** The sum of the negative entries of a. */
  function SumOfNeg(a: seq<int>): (s: int)
    ensures s <= 0
    decreases |a|
  {
    if |a| == 0 then 0
    else SumOfNeg(a[..|a| - 1]) + (if a[|a| - 1] < 0 then a[|a| - 1] else 0)
  }

  /** vec_sum_of_neg. */
  method VecSumOfNeg(v: seq<int>) returns (s: int)
    ensures s == SumOfNeg(v)
  {
    s := 0;
    var i := 0;
    while i < |v|
      invariant 0 <= i <= |v|
      invariant s == SumOfNeg(v[..i])
    {
      assert v[..i + 1][..i] == v[..i];
      if v[i] < 0 {
        s := s + v[i];
      }
      i := i + 1;
    }
    assert v[..|v|] == v;
  }

  /** A selection of unit vectors, summed: every entry is 0 or 1. */
  ghost predicate Selection(z: seq<int>)
  {
    forall i :: 0 <= i < |z| ==> z[i] == 0 || z[i] == 1
  }

  /** The selection of the positions holding a negative entry. */
  function NegativePositions(a: seq<int>): (z: seq<int>)
    ensures |z| == |a| && Selection(z)
  {
    seq(|a|, i requires 0 <= i < |a| => if a[i] < 0 then 1 else 0)
  }

  /** Moving x by any selection of unit vectors changes <a, x> by at least
      the sum of the negative entries of a ... */
  lemma {:induction false} SumOfNegIsLeast(a: seq<int>, z: seq<int>)
    requires |a| == |z| && Selection(z)
    ensures Dot(a, z) >= SumOfNeg(a)
    decreases |a|
  {
    if |a| > 0 {
      SumOfNegIsLeast(a[..|a| - 1], z[..|z| - 1]);
    }
  }

  /** ... and selecting exactly the negative entries attains it. */
  lemma {:induction false} SumOfNegAttained(a: seq<int>)
    ensures Dot(a, NegativePositions(a)) == SumOfNeg(a)
    decreases |a|
  {
    if |a| > 0 {
      var a' := a[..|a| - 1];
      SumOfNegAttained(a');
      assert NegativePositions(a)[..|a| - 1] == NegativePositions(a');
    }
  }

  // ---------------------------------------------------------------------
  // Shifting a cone.

  /** The shifted copy of the cone constraint row for the rational point
      v / v[0]: the normal a is kept and the constant becomes
      -ceil(<a, v'> / v[0]) + (the sum of the negative entries of a). */
  function ShiftRow(row: Row, v: seq<int>): (r: Row)
    requires |row| == |v| > 0 && v[0] != 0
    ensures |r| == |row| && r[1..] == row[1..]
  {
    [-CeilDiv(Dot(row[1..], v[1..]), v[0]) + SumOfNeg(row[1..])] + row[1..]
  }

  function ShiftRows(rows: seq<Row>, v: seq<int>): (r: seq<Row>)
    requires Rows(rows, |v|) && |v| > 0 && v[0] != 0
    ensures |r| == |rows| && Rows(r, |v|)
    ensures forall i :: 0 <= i < |rows| ==> r[i] == ShiftRow(rows[i], v)
  {
    seq(|rows|, i requires 0 <= i < |rows| => ShiftRow(rows[i], v))
  }

  /** The polyhedron of shifted inequalities, with no equalities. */
  function ShiftedCone(cone: Poly, v: seq<int>): (r: Poly)
    requires WellFormed(cone) && |v| == 1 + cone.dim && v[0] != 0
    ensures WellFormed(r) && r.dim == cone.dim && r.eq == [] && |r.ineq| == |cone.ineq|
  {
    Poly(cone.dim, [], ShiftRows(cone.ineq, v), false)
  }

  /** shift_cone: refused when the cone has equalities; otherwise each
      inequality is copied and its constant computed by accumulation. */
  method ShiftCone(cone: Poly, vec: seq<int>) returns (r: Result<Poly>)
    requires WellFormed(cone) && |vec| == 1 + cone.dim && vec[0] != 0
    ensures r.Fail? <==> |cone.eq| > 0
    ensures r.Ok? ==> r.value == ShiftedCone(cone, vec)
  {
    if |cone.eq| != 0 {
      return Fail;
    }
    var total := cone.dim;
    var rows: seq<Row> := [];
    var i := 0;
    while i < |cone.ineq|
      invariant 0 <= i <= |cone.ineq|
      invariant rows == ShiftRows(cone.ineq[..i], vec)
    {
      var a := cone.ineq[i][1..];
      var c := Dot(a, vec[1..]);
      c := CeilDiv(c, vec[0]);
      c := -c;
      var j := 0;
      while j < total
        invariant 0 <= j <= total
        invariant c == -CeilDiv(Dot(a, vec[1..]), vec[0]) + SumOfNeg(a[..j])
      {
        assert a[..j + 1][..j] == a[..j];
        if a[j] < 0 {
          c := c + a[j];
        }
        j := j + 1;
      }
      assert a[..total] == a;
      rows := rows + [[c] + a];
      i := i + 1;
    }
    assert cone.ineq[..i] == cone.ineq;
    return Ok(Poly(total, [], rows, false));
  }

  /** One coordinate: if e * z lies in [w, w + e), then
      e * (a * z) >= a * w + e * min(a, 0). */
  lemma RoundTerm(a: int, w: int, e: int, z: int)
    requires e > 0 && w <= e * z < w + e
    ensures e * (a * z) >= a * w + e * (if a < 0 then a else 0)
  {
    assert e * (a * z) == a * (e * z);
    if a >= 0 {
      MulNonneg(a, e * z - w);
      assert a * (e * z - w) == a * (e * z) - a * w;
    } else {
      MulNonneg(-a, w + e - e * z);
      assert (-a) * (w + e - e * z) == a * (e * z) - a * w - a * e;
    }
  }

  /** Rounding the rational point w / e up coordinate-wise to z changes
      <a, .> by at least the sum of the negative entries of a. */
  lemma {:induction false} RoundDot(a: seq<int>, w: seq<int>, z: seq<int>, e: int)
    requires |a| == |w| == |z| && e > 0
    requires forall i :: 0 <= i < |z| ==> w[i] <= e * z[i] < w[i] + e
    ensures e * Dot(a, z) >= Dot(a, w) + e * SumOfNeg(a)
    decreases |a|
  {
    if |a| > 0 {
      var n := |a| - 1;
      RoundDot(a[..n], w[..n], z[..n], e);
      RoundTerm(a[n], w[n], e, z[n]);
      Distrib(e, Dot(a[..n], z[..n]), a[n] * z[n]);
      Distrib(e, SumOfNeg(a[..n]), if a[n] < 0 then a[n] else 0);
    }
  }

  lemma DivideOut(x: int, y: int, e: int)
    requires e > 0 && e * x >= e * y
    ensures x >= y
  {
    if x < y {
      MulNonneg(e, y - x - 1);
    }
  }

  /** The rounding lemma for one constraint.  Let a be the normal of a cone
      constraint and v / d (d > 0) a rational point.  If the rational point
      y / e (e > 0) satisfies the shifted constraint, then its coordinate-wise
      ceiling x satisfies <a, x> >= ceil(<a, v> / d), and so lies in the
      affine cone v / d + {<a, .> >= 0}: d * <a, x> >= <a, v>. */
  lemma ShiftRowRounding(row: Row, v: seq<int>, y: seq<int>)
    requires |row| == |v| == |y| > 0 && v[0] > 0 && y[0] > 0
    requires Dot(ShiftRow(row, v), y) >= 0
    ensures var x := VecCeil(y);
      Dot(row[1..], x[1..]) >= CeilDiv(Dot(row[1..], v[1..]), v[0]) &&
      v[0] * Dot(row[1..], x[1..]) >= Dot(row[1..], v[1..])
  {
    var a, e := row[1..], y[0];
    var q := CeilDiv(Dot(a, v[1..]), v[0]);
    var x := VecCeil(y);
    var z, w := x[1..], y[1..];
    var s := ShiftRow(row, v);
    var sn, dz, dw := SumOfNeg(a), Dot(a, z), Dot(a, w);
    DotFront(s, y);
    assert s[0] == -q + sn && s[1..] == a;
    assert (-q + sn) * e + dw >= 0;
    VecCeilBounds(y);
    RoundDot(a, w, z, e);
    RoundingArith(q, sn, e, dz, dw, v[0], Dot(a, v[1..]));
  }

  /** Each rounded coordinate z of y / e satisfies y <= e * z < y + e. */
  lemma VecCeilBounds(y: seq<int>)
    requires |y| > 0 && y[0] > 0
    ensures var z, w := VecCeil(y)[1..], y[1..];
      forall i :: 0 <= i < |z| ==> w[i] <= y[0] * z[i] < w[i] + y[0]
  {
    var z, w := VecCeil(y)[1..], y[1..];
    forall i | 0 <= i < |z| ensures w[i] <= y[0] * z[i] < w[i] + y[0] {
      var q := CeilDiv(y[i + 1], y[0]);
      assert z[i] == q;
      assert w[i] <= q * y[0] < w[i] + y[0];
    }
  }

  /** The arithmetic of the rounding lemma: from the shifted constraint
      (-q + sn) * e + dw >= 0, the rounding bound e * dz >= dw + e * sn and
      q = ceil(b / d), conclude dz >= q and d * dz >= b. */
  lemma RoundingArith(q: int, sn: int, e: int, dz: int, dw: int, d: int, b: int)
    requires e > 0 && d > 0 && (-q + sn) * e + dw >= 0 && e * dz >= dw + e * sn && q * d >= b
    ensures dz >= q && d * dz >= b
  {
    assert (-q + sn) * e == -(q * e) + e * sn;
    assert e * dz >= e * q;
    DivideOut(dz, q, e);
    MulNonneg(d, dz - q);
    assert d * (dz - q) == d * dz - d * q;
  }

  /** The rounding lemma for the whole set: rounding up any rational point
      of the shifted cone yields an integer point of the affine cone
      v / v[0] + cone, i.e., every cone constraint holds at x with the
      constant -<a, v> / v[0]. */
  lemma ShiftConeRounding(cone: Poly, v: seq<int>, y: seq<int>)
    requires WellFormed(cone) && |v| == 1 + cone.dim && v[0] > 0
    requires |y| == 1 + cone.dim && y[0] > 0 && Contains(ShiftedCone(cone, v), y)
    ensures var x := VecCeil(y);
      forall i :: 0 <= i < |cone.ineq| ==>
        v[0] * Dot(cone.ineq[i][1..], x[1..]) >= Dot(cone.ineq[i][1..], v[1..])
  {
    var s := ShiftedCone(cone, v);
    forall i | 0 <= i < |cone.ineq|
      ensures v[0] * Dot(cone.ineq[i][1..], VecCeil(y)[1..]) >= Dot(cone.ineq[i][1..], v[1..])
    {
      assert s.ineq[i] == ShiftRow(cone.ineq[i], v);
      ShiftRowRounding(cone.ineq[i], v, y);
    }
  }

  // ---------------------------------------------------------------------
  // Concatenating samples and plugging in a partial sample.

  /** vec_concat: two integer points (denominator one) glued together, the
      second without its denominator.  Anything else is refused. */
  function VecConcat(v1: seq<int>, v2: seq<int>): (r: Result<seq<int>>)
    ensures r.Ok? <==> |v1| > 0 && |v2| > 0 && v1[0] == 1 && v2[0] == 1
    ensures r.Ok? ==> |r.value| == |v1| + |v2| - 1
    ensures r.Ok? ==> r.value[..|v1|] == v1 && [1] + r.value[|v1|..] == v2
  {
    if |v1| > 0 && |v2| > 0 && v1[0] == 1 && v2[0] == 1 then
      var v := v1 + v2[1..];
      assert v[..|v1|] == v1 && v[|v1|..] == v2[1..];
      Ok(v)
    else Fail
  }

  /** The substitution matrix of plug_in: for the partial sample s (its
      denominator at s[0]) of a set with total variables, the matrix T with
      T (1, x') = (s, x'): the first |s| rows hold s in column 0, the rest
      is the identity shifted one column right. */
  function PlugInMatrix(s: seq<int>, total: nat): (t: Mat)
    requires 1 <= |s| <= 1 + total
    ensures |t| == 1 + total && Rows(t, 1 + total - (|s| - 1))
  {
    seq(1 + total, i requires 0 <= i < 1 + total => PlugInRow(s, total, i))
  }

  function PlugInRow(s: seq<int>, total: nat, i: nat): (r: Row)
    requires 1 <= |s| <= 1 + total && i < 1 + total
    ensures |r| == 1 + total - (|s| - 1)
  {
    var ncol := 1 + total - (|s| - 1);
    if i < |s| then [s[i]] + Zeros(ncol - 1) else UnitRow(ncol, 1 + (i - |s|))
  }

  /** T x = x[0] * s followed by the remaining coordinates of x. */
  lemma PlugInMatVec(s: seq<int>, total: nat, x: seq<int>)
    requires 1 <= |s| <= 1 + total && |x| == 1 + total - (|s| - 1)
    ensures MatVec(PlugInMatrix(s, total), x) == Scale(x[0], s) + x[1..]
  {
    var t := PlugInMatrix(s, total);
    var lhs, rhs := MatVec(t, x), Scale(x[0], s) + x[1..];
    forall i | 0 <= i < 1 + total ensures lhs[i] == rhs[i] {
      PlugInRowDot(s, total, i, x);
      if i < |s| {
        assert rhs[i] == x[0] * s[i];
      } else {
        assert rhs[i] == x[1 + (i - |s|)];
      }
    }
  }

  /** One row of T applied to x. */
  lemma PlugInRowDot(s: seq<int>, total: nat, i: nat, x: seq<int>)
    requires 1 <= |s| <= 1 + total && i < 1 + total && |x| == 1 + total - (|s| - 1)
    ensures i < |s| ==> Dot(PlugInRow(s, total, i), x) == x[0] * s[i]
    ensures i >= |s| ==> Dot(PlugInRow(s, total, i), x) == x[1 + (i - |s|)]
  {
    var row := PlugInRow(s, total, i);
    if i < |s| {
      DotFront(row, x);
      assert row[0] == s[i] && row[1..] == Zeros(|x| - 1);
      DotZeros(x[1..]);
    } else {
      DotUnit(|x|, 1 + (i - |s|), x);
    }
  }

  /** plug_in: the set of the remaining coordinates once the first ones are
      fixed to the partial sample s. */
  function PlugIn(p: Poly, s: seq<int>): (r: Poly)
    requires WellFormed(p) && 1 <= |s| <= 1 + p.dim
    ensures WellFormed(r) && r.dim == p.dim - (|s| - 1)
  {
    Preimage(p, PlugInMatrix(s, p.dim), p.dim - (|s| - 1))
  }

  /** A point x' is in the plugged-in set exactly when (s, x') is in the
      original set. */
  lemma PlugInContains(p: Poly, s: seq<int>, x: seq<int>)
    requires WellFormed(p) && 1 <= |s| <= 1 + p.dim && s[0] == 1
    requires |x| == p.dim - (|s| - 1)
    ensures Contains(PlugIn(p, s), [1] + x) <==> Contains(p, s + x)
  {
    var t := PlugInMatrix(s, p.dim);
    PreimageContains(p, t, p.dim - (|s| - 1), [1] + x);
    PlugInMatVec(s, p.dim, [1] + x);
    assert Scale(1, s) == s;
    assert ([1] + x)[1..] == x;
  }
}
