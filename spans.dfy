/** Integer and rational spans of the rows of a matrix: the linear algebra
    behind the choice of independent bounds. */
module Spans {
  import opened Vectors

  function Sub(u: seq<int>, v: seq<int>): (r: seq<int>)
    requires |u| == |v|
    ensures |r| == |u| && forall i :: 0 <= i < |u| ==> r[i] == u[i] - v[i]
  {
    seq(|u|, i requires 0 <= i < |u| => u[i] - v[i])
  }

  /** Adding back what was subtracted gives the row again. */
  lemma SubAdd(u: seq<int>, v: seq<int>)
    requires |u| == |v|
    ensures Add(Sub(u, v), v) == u
  {
  }

  /** v is an integer combination of the rows of m. */
  ghost predicate InSpan(v: seq<int>, m: Mat, ncols: nat)
    requires Rows(m, ncols)
  {
    exists lam: seq<int> :: |lam| == |m| && VecMat(lam, m, ncols) == v
  }

  /** A positive multiple of v is an integer combination of the rows of m,
      that is, v lies in the rational span of m. */
  ghost predicate InRatSpan(v: seq<int>, m: Mat, ncols: nat)
    requires Rows(m, ncols)
  {
    exists c: int :: c > 0 && InSpan(Scale(c, v), m, ncols)
  }

  // ---------------------------------------------------------------------
  // VecMat is linear in its coefficients.

  lemma VecMatSnoc(lam: seq<int>, m: Mat, x: int, r: Row, ncols: nat)
    requires |lam| == |m| && Rows(m, ncols) && |r| == ncols
    ensures Rows(m + [r], ncols)
    ensures VecMat(lam + [x], m + [r], ncols) == Add(VecMat(lam, m, ncols), Scale(x, r))
  {
    assert (lam + [x])[..|lam|] == lam && (m + [r])[..|m|] == m;
  }

  lemma {:induction false} VecMatAdd(a: seq<int>, b: seq<int>, m: Mat, ncols: nat)
    requires |a| == |b| == |m| && Rows(m, ncols)
    ensures VecMat(Add(a, b), m, ncols) == Add(VecMat(a, m, ncols), VecMat(b, m, ncols))
    decreases |m|
  {
    if |m| > 0 {
      var n := |m| - 1;
      assert Add(a, b)[..n] == Add(a[..n], b[..n]);
      VecMatAdd(a[..n], b[..n], m[..n], ncols);
      var l, r := VecMat(Add(a, b), m, ncols), Add(VecMat(a, m, ncols), VecMat(b, m, ncols));
      forall i | 0 <= i < ncols ensures l[i] == r[i] {
        assert (a[n] + b[n]) * m[n][i] == a[n] * m[n][i] + b[n] * m[n][i];
      }
    }
  }

  lemma {:induction false} VecMatScale(c: int, a: seq<int>, m: Mat, ncols: nat)
    requires |a| == |m| && Rows(m, ncols)
    ensures VecMat(Scale(c, a), m, ncols) == Scale(c, VecMat(a, m, ncols))
    decreases |m|
  {
    if |m| > 0 {
      var n := |m| - 1;
      assert Scale(c, a)[..n] == Scale(c, a[..n]);
      VecMatScale(c, a[..n], m[..n], ncols);
      var l, r := VecMat(Scale(c, a), m, ncols), Scale(c, VecMat(a, m, ncols));
      forall i | 0 <= i < ncols ensures l[i] == r[i] {
        MulAssoc(c, a[n], m[n][i]);
        Distrib(c, VecMat(a[..n], m[..n], ncols)[i], a[n] * m[n][i]);
      }
    }
  }

  // ---------------------------------------------------------------------
  // The span is closed under the vector operations.

  lemma SpanZero(m: Mat, ncols: nat)
    requires Rows(m, ncols)
    ensures InSpan(Zeros(ncols), m, ncols)
  {
    VecMatZeros(m, ncols);
  }

  /** The span of no rows holds only the zero vector. */
  lemma SpanEmpty(v: seq<int>, ncols: nat)
    requires InSpan(v, [], ncols)
    ensures v == Zeros(ncols)
  {
  }

  /** What the first rows of m span, m spans. */
  lemma SpanPrefix(v: seq<int>, m: Mat, k: nat, ncols: nat)
    requires Rows(m, ncols) && k <= |m| && InSpan(v, m[..k], ncols)
    ensures InSpan(v, m, ncols)
  {
    var lam :| |lam| == k && VecMat(lam, m[..k], ncols) == v;
    VecMatPad(lam, m, ncols);
    assert |lam + Zeros(|m| - k)| == |m|;
  }

  lemma SpanRow(m: Mat, k: nat, ncols: nat)
    requires Rows(m, ncols) && k < |m|
    ensures InSpan(m[k], m, ncols)
  {
    VecMatUnit(m, k, ncols);
  }

  lemma SpanAdd(u: seq<int>, v: seq<int>, m: Mat, ncols: nat)
    requires Rows(m, ncols) && InSpan(u, m, ncols) && InSpan(v, m, ncols)
    ensures |u| == |v| && InSpan(Add(u, v), m, ncols)
  {
    var a :| |a| == |m| && VecMat(a, m, ncols) == u;
    var b :| |b| == |m| && VecMat(b, m, ncols) == v;
    VecMatAdd(a, b, m, ncols);
  }

  lemma SpanScale(c: int, v: seq<int>, m: Mat, ncols: nat)
    requires Rows(m, ncols) && InSpan(v, m, ncols)
    ensures InSpan(Scale(c, v), m, ncols)
  {
    var a :| |a| == |m| && VecMat(a, m, ncols) == v;
    VecMatScale(c, a, m, ncols);
  }

  lemma SpanSub(u: seq<int>, v: seq<int>, m: Mat, ncols: nat)
    requires Rows(m, ncols) && InSpan(u, m, ncols) && InSpan(v, m, ncols)
    ensures |u| == |v| && InSpan(Sub(u, v), m, ncols)
  {
    SpanScale(-1, v, m, ncols);
    SpanAdd(u, Scale(-1, v), m, ncols);
    assert Add(u, Scale(-1, v)) == Sub(u, v);
  }

  lemma SubSub(u: seq<int>, v: seq<int>)
    requires |u| == |v|
    ensures Sub(u, Sub(u, v)) == v
  {
  }

  /** A row appended to m keeps everything m spans. */
  lemma SpanSnoc(v: seq<int>, m: Mat, r: Row, ncols: nat)
    requires Rows(m, ncols) && |r| == ncols && InSpan(v, m, ncols)
    ensures Rows(m + [r], ncols) && InSpan(v, m + [r], ncols)
  {
    var a :| |a| == |m| && VecMat(a, m, ncols) == v;
    VecMatSnoc(a, m, 0, r, ncols);
    assert Add(v, Scale(0, r)) == v;
  }

  lemma RatSpanSnoc(v: seq<int>, m: Mat, r: Row, ncols: nat)
    requires Rows(m, ncols) && |r| == ncols && InRatSpan(v, m, ncols)
    ensures Rows(m + [r], ncols) && InRatSpan(v, m + [r], ncols)
  {
    var c :| c > 0 && InSpan(Scale(c, v), m, ncols);
    SpanSnoc(Scale(c, v), m, r, ncols);
  }

  /** If every row of a lies in the span of b, so does every combination of
      the rows of a. */
  lemma {:induction false} SpanCombination(a: Mat, b: Mat, lam: seq<int>, ncols: nat)
    requires Rows(a, ncols) && Rows(b, ncols) && |lam| == |a|
    requires forall k :: 0 <= k < |a| ==> InSpan(a[k], b, ncols)
    ensures InSpan(VecMat(lam, a, ncols), b, ncols)
    decreases |a|
  {
    if |a| == 0 {
      SpanZero(b, ncols);
    } else {
      var n := |a| - 1;
      forall k | 0 <= k < n ensures InSpan(a[..n][k], b, ncols) {
        assert a[..n][k] == a[k];
      }
      SpanCombination(a[..n], b, lam[..n], ncols);
      SpanScale(lam[n], a[n], b, ncols);
      SpanAdd(VecMat(lam[..n], a[..n], ncols), Scale(lam[n], a[n]), b, ncols);
    }
  }

  lemma SpanSubset(v: seq<int>, a: Mat, b: Mat, ncols: nat)
    requires Rows(a, ncols) && Rows(b, ncols) && InSpan(v, a, ncols)
    requires forall k :: 0 <= k < |a| ==> InSpan(a[k], b, ncols)
    ensures InSpan(v, b, ncols)
  {
    var lam :| |lam| == |a| && VecMat(lam, a, ncols) == v;
    SpanCombination(a, b, lam, ncols);
  }

  /** Reordering the rows does not change the span. */
  lemma SpanPermuted(v: seq<int>, a: Mat, b: Mat, ncols: nat)
    requires Rows(a, ncols) && multiset(a) == multiset(b) && InSpan(v, a, ncols)
    ensures Rows(b, ncols) && InSpan(v, b, ncols)
  {
    forall k | 0 <= k < |b| ensures |b[k]| == ncols {
      assert b[k] in multiset(a);
    }
    forall k | 0 <= k < |a| ensures InSpan(a[k], b, ncols) {
      assert a[k] in multiset(b);
      var j :| 0 <= j < |b| && b[j] == a[k];
      SpanRow(b, j, ncols);
    }
    SpanSubset(v, a, b, ncols);
  }

  /** Two positive multiples make one: the identity behind the rational
      span's closure under combination. */
  lemma Rescale(p: int, q: int, x: int, l: int, y: int)
    ensures (p * q) * (x + l * y) == q * (p * x) + (p * l) * (q * y)
  {
  }

  lemma Regroup(c: int, s: int, g: int, x: int)
    ensures c * g == c * (g - s * x) + s * (c * x)
  {
    MulAssoc(s, c, x);
    MulAssoc(c, s, x);
  }

  lemma RegroupVec(c: int, s: int, g: seq<int>, x: seq<int>)
    requires |g| == |x|
    ensures Scale(c, g) == Add(Scale(c, Sub(g, Scale(s, x))), Scale(s, Scale(c, x)))
  {
    var d := Sub(g, Scale(s, x));
    forall k | 0 <= k < |g| ensures Scale(c, g)[k] == Add(Scale(c, d), Scale(s, Scale(c, x)))[k] {
      assert d[k] == g[k] - s * x[k];
      assert Scale(s, Scale(c, x))[k] == s * (c * x[k]);
      Regroup(c, s, g[k], x[k]);
    }
  }

  /** If g minus a positive multiple of x is a combination of the rows of m
      and a positive multiple of x is one too, so is a positive multiple of g. */
  lemma RatSpanFromPart(g: seq<int>, x: seq<int>, s: int, m: Mat, ncols: nat)
    requires Rows(m, ncols) && |g| == |x| == ncols && s > 0
    requires InSpan(Sub(g, Scale(s, x)), m, ncols) && InRatSpan(x, m, ncols)
    ensures InRatSpan(g, m, ncols)
  {
    var c :| c > 0 && InSpan(Scale(c, x), m, ncols);
    var d := Sub(g, Scale(s, x));
    SpanScale(c, d, m, ncols);
    SpanScale(s, Scale(c, x), m, ncols);
    SpanAdd(Scale(c, d), Scale(s, Scale(c, x)), m, ncols);
    RegroupVec(c, s, g, x);
  }

  /** If a positive multiple of every row of a lies in the span of b, then
      a positive multiple of every combination of the rows of a does. */
  lemma {:induction false} RatSpanCombination(a: Mat, b: Mat, lam: seq<int>, ncols: nat)
    requires Rows(a, ncols) && Rows(b, ncols) && |lam| == |a|
    requires forall k :: 0 <= k < |a| ==> InRatSpan(a[k], b, ncols)
    ensures InRatSpan(VecMat(lam, a, ncols), b, ncols)
    decreases |a|
  {
    if |a| == 0 {
      SpanZero(b, ncols);
      assert Scale(1, Zeros(ncols)) == Zeros(ncols);
    } else {
      var n := |a| - 1;
      RatSpanCombination(a[..n], b, lam[..n], ncols);
      RatSpanAddScaled(VecMat(lam[..n], a[..n], ncols), a[n], lam[n], b, ncols);
    }
  }

  /** The rational span of b is closed under v + l * r. */
  lemma RatSpanAddScaled(v: seq<int>, r: Row, l: int, b: Mat, ncols: nat)
    requires Rows(b, ncols) && |v| == ncols && |r| == ncols
    requires InRatSpan(v, b, ncols) && InRatSpan(r, b, ncols)
    ensures InRatSpan(Add(v, Scale(l, r)), b, ncols)
  {
    var p :| p > 0 && InSpan(Scale(p, v), b, ncols);
    var q :| q > 0 && InSpan(Scale(q, r), b, ncols);
    SpanScale(q, Scale(p, v), b, ncols);
    SpanScale(p * l, Scale(q, r), b, ncols);
    var u1, u2 := Scale(q, Scale(p, v)), Scale(p * l, Scale(q, r));
    SpanAdd(u1, u2, b, ncols);
    var w := Add(v, Scale(l, r));
    forall i | 0 <= i < ncols ensures Scale(p * q, w)[i] == Add(u1, u2)[i] {
      Rescale(p, q, v[i], l, r[i]);
    }
    assert Scale(p * q, w) == Add(u1, u2);
  }

  /** An integer combination of rows from the rational span of b lies in
      the rational span of b. */
  lemma RatSpanSubset(v: seq<int>, a: Mat, b: Mat, ncols: nat)
    requires Rows(a, ncols) && Rows(b, ncols) && InRatSpan(v, a, ncols)
    requires forall k :: 0 <= k < |a| ==> InRatSpan(a[k], b, ncols)
    ensures InRatSpan(v, b, ncols)
  {
    var c :| c > 0 && InSpan(Scale(c, v), a, ncols);
    var lam :| |lam| == |a| && VecMat(lam, a, ncols) == Scale(c, v);
    RatSpanCombination(a, b, lam, ncols);
    var d :| d > 0 && InSpan(Scale(d, Scale(c, v)), b, ncols);
    forall i | 0 <= i < |v| ensures Scale(d, Scale(c, v))[i] == Scale(d * c, v)[i] {
      MulAssoc(d, c, v[i]);
    }
    assert Scale(d, Scale(c, v)) == Scale(d * c, v);
  }

  // ---------------------------------------------------------------------
  // Independence, one row at a time.

  lemma IndependentEmpty(ncols: nat)
    ensures Independent([], ncols)
  {
    forall lam | |lam| == 0 && VecMat(lam, [], ncols) == Zeros(ncols) ensures lam == Zeros(0) {
    }
  }

  /** A combination of m plus a non-zero multiple of r that vanishes puts
      a positive multiple of r in the span of m. */
  lemma VanishingCombination(m: Mat, a: seq<int>, x: int, r: Row, ncols: nat)
    requires Rows(m, ncols) && |r| == ncols && |a| == |m| && x != 0
    requires Add(VecMat(a, m, ncols), Scale(x, r)) == Zeros(ncols)
    ensures InRatSpan(r, m, ncols)
  {
    var w := VecMat(a, m, ncols);
    var c, sgn := if x > 0 then x else -x, if x > 0 then -1 else 1;
    assert Scale(c, r) == Scale(sgn, w) by {
      forall i | 0 <= i < ncols ensures Scale(c, r)[i] == Scale(sgn, w)[i] {
        assert w[i] + x * r[i] == 0;
        if x > 0 {
          assert c * r[i] == x * r[i];
        } else {
          NegMul(x, r[i]);
        }
      }
    }
    VecMatScale(sgn, a, m, ncols);
    assert InSpan(Scale(c, r), m, ncols);
  }

  /** Appending a row none of whose positive multiples is a combination of
      independent rows keeps them independent. */
  lemma IndependentSnoc(m: Mat, r: Row, ncols: nat)
    requires Rows(m, ncols) && |r| == ncols && Independent(m, ncols) && !InRatSpan(r, m, ncols)
    ensures Rows(m + [r], ncols) && Independent(m + [r], ncols)
  {
    var m' := m + [r];
    forall lam | |lam| == |m'| && VecMat(lam, m', ncols) == Zeros(ncols) ensures lam == Zeros(|m'|) {
      var n := |m|;
      var a := lam[..n];
      assert lam == a + [lam[n]];
      VecMatSnoc(a, m, lam[n], r, ncols);
      if lam[n] != 0 {
        VanishingCombination(m, a, lam[n], r, ncols);
      } else {
        var w := VecMat(a, m, ncols);
        assert Add(w, Scale(0, r)) == w;
        assert a == Zeros(n);
      }
    }
  }

  /** A vanishing combination of independent rows has zero coefficients. */
  lemma IndependentKernel(m: Mat, ncols: nat, lam: seq<int>)
    requires Rows(m, ncols) && Independent(m, ncols) && |lam| == |m| && VecMat(lam, m, ncols) == Zeros(ncols)
    ensures lam == Zeros(|m|)
  {
  }

  /** Constraint rows below the unit row e_0 whose coefficient parts are
      independent are themselves independent, with e_0 among them. */
  lemma AffineIndependent(rows: seq<Row>, n: nat)
    requires Rows(rows, 1 + n) && |rows| > 0 && rows[0] == UnitRow(1 + n, 0)
    requires Independent(LinearPart(rows[1..], n), n)
    ensures Independent(rows, 1 + n)
  {
    LinearPartBelowUnit(rows, n);
    forall lam | |lam| == |rows| && VecMat(lam, rows, 1 + n) == Zeros(1 + n) ensures lam == Zeros(|rows|) {
      AffineKernel(rows, n, lam);
    }
  }

  /** The coefficient part of e_0 is zero. */
  lemma LinearPartBelowUnit(rows: seq<Row>, n: nat)
    requires Rows(rows, 1 + n) && |rows| > 0 && rows[0] == UnitRow(1 + n, 0)
    ensures LinearPart(rows, n) == [Zeros(n)] + LinearPart(rows[1..], n)
  {
    var L := LinearPart(rows[1..], n);
    assert rows[0][1..] == Zeros(n);
    forall i | 1 <= i < |rows| ensures LinearPart(rows, n)[i] == L[i - 1] {
      assert rows[1..][i - 1] == rows[i];
    }
  }

  /** A combination of such rows that vanishes has a zero coefficient on
      e_0, since only e_0 has a constant part, and then zero coefficients on
      the rest. */
  lemma AffineKernel(rows: seq<Row>, n: nat, lam: seq<int>)
    requires Rows(rows, 1 + n) && |rows| > 0 && rows[0] == UnitRow(1 + n, 0)
    requires Independent(LinearPart(rows[1..], n), n)
    requires LinearPart(rows, n) == [Zeros(n)] + LinearPart(rows[1..], n)
    requires |lam| == |rows| && VecMat(lam, rows, 1 + n) == Zeros(1 + n)
    ensures lam == Zeros(|rows|)
  {
    AffineTailZero(rows, n, lam);
    AffineHeadZero(rows, n, lam);
    UnitMultiple(lam);
  }

  /** The coefficients past e_0 combine the independent coefficient parts
      to zero, so they are zero. */
  lemma AffineTailZero(rows: seq<Row>, n: nat, lam: seq<int>)
    requires Rows(rows, 1 + n) && |rows| > 0
    requires Independent(LinearPart(rows[1..], n), n)
    requires LinearPart(rows, n) == [Zeros(n)] + LinearPart(rows[1..], n)
    requires |lam| == |rows| && VecMat(lam, rows, 1 + n) == Zeros(1 + n)
    ensures lam[1..] == Zeros(|rows| - 1)
  {
    var L := LinearPart(rows[1..], n);
    VecMatLinearPart(lam, rows, n);
    VecMatConsZero(lam, L, n);
    assert Zeros(1 + n)[1..] == Zeros(n);
    assert VecMat(lam[1..], L, n) == Zeros(n);
    IndependentKernel(L, n, lam[1..]);
  }

  /** With the other coefficients zero, the constant part of the
      combination is the coefficient of e_0. */
  lemma AffineHeadZero(rows: seq<Row>, n: nat, lam: seq<int>)
    requires Rows(rows, 1 + n) && |rows| > 0 && rows[0] == UnitRow(1 + n, 0)
    requires |lam| == |rows| && lam[1..] == Zeros(|rows| - 1) && VecMat(lam, rows, 1 + n) == Zeros(1 + n)
    ensures lam[0] == 0
  {
    var e := UnitRow(|rows|, 0);
    UnitMultiple(lam);
    VecMatScale(lam[0], e, rows, 1 + n);
    VecMatUnit(rows, 0, 1 + n);
    assert VecMat(lam, rows, 1 + n)[0] == lam[0];
  }
}
