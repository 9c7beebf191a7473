/** Exact integer arithmetic on rows, vectors and matrices: the part of the
    isl_seq / isl_vec / isl_mat layer that the sampler relies on.
    A constraint row holds its constant term at index 0; a homogeneous point
    holds its (positive) denominator at index 0. */
module Vectors {

  type Row = seq<int>
  type Mat = seq<Row>

  function Abs(x: int): nat { if x < 0 then -x else x }

  /** The inner product, summed from the last position down. */
  function Dot(a: seq<int>, b: seq<int>): int
    requires |a| == |b|
    decreases |a|
  {
    if |a| == 0 then 0 else Dot(a[..|a| - 1], b[..|b| - 1]) + a[|a| - 1] * b[|b| - 1]
  }

  function Zeros(n: nat): (r: seq<int>)
    ensures |r| == n && forall i :: 0 <= i < n ==> r[i] == 0
  {
    seq(n, i => 0)
  }

  /** The n-entry row whose only non-zero entry is a 1 at position k. */
  function UnitRow(n: nat, k: nat): (r: Row)
    requires k < n
    ensures |r| == n && r[k] == 1 && forall i :: 0 <= i < n && i != k ==> r[i] == 0
  {
    seq(n, i => if i == k then 1 else 0)
  }

  function Add(u: seq<int>, v: seq<int>): (r: seq<int>)
    requires |u| == |v|
    ensures |r| == |u| && forall i :: 0 <= i < |u| ==> r[i] == u[i] + v[i]
  {
    seq(|u|, i requires 0 <= i < |u| => u[i] + v[i])
  }

  function Scale(c: int, u: seq<int>): (r: seq<int>)
    ensures |r| == |u| && forall i :: 0 <= i < |u| ==> r[i] == c * u[i]
  {
    seq(|u|, i requires 0 <= i < |u| => c * u[i])
  }

  lemma ScaleSplit(c: int, a: seq<int>, b: seq<int>)
    ensures Scale(c, a + b) == Scale(c, a) + Scale(c, b)
  {
    var l, r := Scale(c, a + b), Scale(c, a) + Scale(c, b);
    forall i | 0 <= i < |l| ensures l[i] == r[i] {
      if i < |a| {
        assert (a + b)[i] == a[i];
      } else {
        assert (a + b)[i] == b[i - |a|];
      }
    }
  }

  lemma ScaleZeros(c: int, n: nat)
    ensures Scale(c, Zeros(n)) == Zeros(n)
  {
  }

  /** isl_seq_combine: a * u + b * v, entry by entry. */
  function Combine(a: int, u: seq<int>, b: int, v: seq<int>): (r: seq<int>)
    requires |u| == |v|
    ensures |r| == |u| && forall i :: 0 <= i < |u| ==> r[i] == a * u[i] + b * v[i]
  {
    seq(|u|, i requires 0 <= i < |u| => a * u[i] + b * v[i])
  }

  /** isl_seq_first_non_zero: the first position holding a non-zero entry, or -1. */
  function FirstNonZero(s: seq<int>): (r: int)
    ensures -1 <= r < |s|
    ensures r == -1 <==> forall i :: 0 <= i < |s| ==> s[i] == 0
    ensures r >= 0 ==> s[r] != 0 && forall i :: 0 <= i < r ==> s[i] == 0
    decreases |s|
  {
    if |s| == 0 then -1
    else if s[0] != 0 then 0
    else
      var r := FirstNonZero(s[1..]);
      if r < 0 then -1 else r + 1
  }

  lemma NoLeadIsZero(s: seq<int>)
    requires FirstNonZero(s) < 0
    ensures s == Zeros(|s|)
  {
  }

  /** Greatest common divisor of two naturals that are not both zero (isl_int_gcd). */
  function Gcd(a: nat, b: nat): (g: nat)
    requires a > 0 || b > 0
    ensures g > 0 && a % g == 0 && b % g == 0
    decreases b
  {
    if b == 0 then a
    else
      var g := Gcd(b, a % b);
      GcdStep(a, b, g);
      g
  }

  /** A common divisor of b and a % b divides a. */
  lemma GcdStep(a: nat, b: nat, g: nat)
    requires b > 0 && g > 0 && b % g == 0 && (a % b) % g == 0
    ensures a % g == 0
  {
    var kb := b / g;
    var kr := (a % b) / g;
    assert b == kb * g;
    assert a % b == kr * g;
    var q := a / b;
    assert a == q * b + a % b;
    assert a == (q * kb + kr) * g by {
      calc {
        a;
        q * b + a % b;
        q * (kb * g) + kr * g;
        { MulAssoc(q, kb, g); }
        (q * kb) * g + kr * g;
        (q * kb + kr) * g;
      }
    }
    MultipleMod(q * kb + kr, g);
  }

  lemma MulAssoc(x: int, y: int, z: int)
    ensures x * (y * z) == (x * y) * z
  {
  }

  /** A multiple of a positive number leaves no remainder. */
  lemma MultipleMod(m: int, g: int)
    requires g > 0
    ensures (m * g) % g == 0 && (m * g) / g == m
  {
    var q := (m * g) / g;
    var r := (m * g) % g;
    assert m * g == g * q + r;
    assert r == g * (m - q);
    ZeroFactor(g, m - q);
  }

  lemma ZeroFactor(g: int, k: int)
    requires g > 0 && 0 <= g * k < g
    ensures k == 0
  {
  }

  lemma ProductZero(a: int, b: int)
    requires a != 0 && a * b == 0
    ensures b == 0
  {
  }

  /** A positive factor keeps the sign of the other one. */
  lemma PositiveFactor(k: int, x: int)
    requires k > 0
    ensures (k * x >= 0 <==> x >= 0) && (k * x == 0 <==> x == 0)
  {
    if x < 0 {
      assert k * x <= x;
    }
  }

  lemma NegMul(x: int, y: int)
    ensures (-x) * y == -(x * y)
  {
  }

  lemma MulNonneg(x: int, y: int)
    requires x >= 0 && y >= 0
    ensures x * y >= 0
  {
  }

  lemma Distrib(e: int, x: int, y: int)
    ensures e * (x + y) == e * x + e * y
  {
  }

  /** A number whose absolute value is a multiple of g is its quotient times g. */
  lemma ExactQuotient(x: int, g: int)
    requires g > 0 && Abs(x) % g == 0
    ensures x == (x / g) * g
  {
    var k := Abs(x) / g;
    assert Abs(x) == g * k + Abs(x) % g;
    var y := if x >= 0 then k else -k;
    assert x == y * g;
    MultipleMod(y, g);
  }

  lemma Cancel(x: int, y: int, g: int)
    ensures x * (y * g) - y * (x * g) == 0
  {
    MulAssoc(x, y, g);
    MulAssoc(y, x, g);
  }

  /** isl_seq_elim: eliminate position pos of dst with the help of src, whose
      entry at pos is non-zero.  dst becomes (|s|/g) * dst - sign(s) (t/g) * src,
      with s = src[pos], t = dst[pos] and g their gcd; a dst that is already
      zero at pos is left as it is. */
  function Elim(dst: Row, src: Row, pos: nat): (r: Row)
    requires |dst| == |src| && pos < |src| && src[pos] != 0
    ensures |r| == |dst| && r[pos] == 0
    ensures forall k :: 0 <= k < |r| && dst[k] == 0 && src[k] == 0 ==> r[k] == 0
  {
    if dst[pos] == 0 then dst
    else
      var s, t := src[pos], dst[pos];
      var g := Gcd(Abs(s), Abs(t));
      var a := Abs(s / g);
      var b := if s > 0 then -(t / g) else t / g;
      ElimCancels(s, t, g);
      Combine(a, dst, b, src)
  }

  lemma ElimCancels(s: int, t: int, g: nat)
    requires s != 0 && g > 0 && Abs(s) % g == 0 && Abs(t) % g == 0
    ensures Abs(s / g) * t + (if s > 0 then -(t / g) else t / g) * s == 0
  {
    ExactQuotient(s, g);
    ExactQuotient(t, g);
    var ss, tt := s / g, t / g;
    if s > 0 {
      assert ss > 0;
      Cancel(ss, tt, g);
    } else {
      assert ss < 0;
      Cancel(-ss, tt, g);
    }
  }

  /** isl_int_cdiv_q: the quotient rounded towards plus infinity. */
  function CeilDiv(n: int, d: int): (q: int)
    requires d != 0
    ensures d > 0 ==> n <= q * d < n + d
    ensures d < 0 ==> n + d < q * d <= n
  {
    if d > 0 then
      var e := (-n) / d;
      assert -n == d * e + (-n) % d;
      -e
    else
      var e := n / (-d);
      assert n == (-d) * e + n % (-d);
      -e
  }

  /** isl_vec_ceil: round every coordinate of a homogeneous point up and make
      the denominator one. */
  function VecCeil(v: seq<int>): (r: seq<int>)
    requires |v| > 0 && v[0] != 0
    ensures |r| == |v| && r[0] == 1
    ensures forall i :: 1 <= i < |v| ==> r[i] == CeilDiv(v[i], v[0])
  {
    [1] + seq(|v| - 1, i requires 0 <= i < |v| - 1 => CeilDiv(v[i + 1], v[0]))
  }

  ghost predicate Rows(m: Mat, ncols: nat)
  {
    forall i :: 0 <= i < |m| ==> |m[i]| == ncols
  }

  /** isl_mat_vec_product: m x. */
  function MatVec(m: Mat, x: seq<int>): (r: seq<int>)
    requires Rows(m, |x|)
    ensures |r| == |m| && forall i :: 0 <= i < |m| ==> r[i] == Dot(m[i], x)
  {
    seq(|m|, i requires 0 <= i < |m| => Dot(m[i], x))
  }

  /** The row vector a times the matrix m: the sum of a[i] * m[i]. */
  function VecMat(a: seq<int>, m: Mat, ncols: nat): (r: seq<int>)
    requires |a| == |m| && Rows(m, ncols)
    ensures |r| == ncols
    decreases |m|
  {
    if |m| == 0 then Zeros(ncols)
    else Add(VecMat(a[..|a| - 1], m[..|m| - 1], ncols), Scale(a[|a| - 1], m[|m| - 1]))
  }

  /** The coefficient part of constraint rows: column 0 removed
      (isl_mat_sub_alloc of the rows from column 1). */
  function LinearPart(rows: seq<Row>, n: nat): (m: Mat)
    requires Rows(rows, 1 + n)
    ensures |m| == |rows| && Rows(m, n)
    ensures forall i :: 0 <= i < |rows| ==> m[i] == rows[i][1..]
  {
    seq(|rows|, i requires 0 <= i < |rows| => rows[i][1..])
  }

  /** The matrix whose rows are those of m with the columns [first, first + n) removed
      (isl_mat_drop_cols). */
  function DropCols(m: Mat, first: nat, n: nat): (r: Mat)
    requires forall i :: 0 <= i < |m| ==> first + n <= |m[i]|
    ensures |r| == |m|
    ensures forall i :: 0 <= i < |m| ==> r[i] == m[i][..first] + m[i][first + n..]
  {
    seq(|m|, i requires 0 <= i < |m| => m[i][..first] + m[i][first + n..])
  }

  // ---------------------------------------------------------------------
  // Properties of the inner product.

  lemma {:induction false} DotFront(a: seq<int>, b: seq<int>)
    requires |a| == |b| && |a| > 0
    ensures Dot(a, b) == a[0] * b[0] + Dot(a[1..], b[1..])
    decreases |a|
  {
    if |a| > 1 {
      var a', b' := a[..|a| - 1], b[..|b| - 1];
      DotFront(a', b');
      assert a'[1..] == a[1..][..|a| - 2];
      assert b'[1..] == b[1..][..|b| - 2];
    } else {
      assert a[..0] == [] && a[1..] == [];
    }
  }

  lemma {:induction false} DotConcat(a1: seq<int>, a2: seq<int>, b1: seq<int>, b2: seq<int>)
    requires |a1| == |b1| && |a2| == |b2|
    ensures Dot(a1 + a2, b1 + b2) == Dot(a1, b1) + Dot(a2, b2)
    decreases |a2|
  {
    if |a2| == 0 {
      assert a1 + a2 == a1 && b1 + b2 == b1;
    } else {
      var a2', b2' := a2[..|a2| - 1], b2[..|b2| - 1];
      DotConcat(a1, a2', b1, b2');
      assert (a1 + a2)[..|a1 + a2| - 1] == a1 + a2';
      assert (b1 + b2)[..|b1 + b2| - 1] == b1 + b2';
    }
  }

  lemma {:induction false} DotAdd(u: seq<int>, v: seq<int>, x: seq<int>)
    requires |u| == |v| == |x|
    ensures Dot(Add(u, v), x) == Dot(u, x) + Dot(v, x)
    decreases |u|
  {
    if |u| > 0 {
      var n := |u| - 1;
      DotAdd(u[..n], v[..n], x[..n]);
      assert Add(u, v)[..n] == Add(u[..n], v[..n]);
    }
  }

  lemma {:induction false} DotScale(c: int, u: seq<int>, x: seq<int>)
    requires |u| == |x|
    ensures Dot(Scale(c, u), x) == c * Dot(u, x)
    decreases |u|
  {
    if |u| > 0 {
      var n := |u| - 1;
      DotScale(c, u[..n], x[..n]);
      assert Scale(c, u)[..n] == Scale(c, u[..n]);
      assert c * (Dot(u[..n], x[..n]) + u[n] * x[n]) == c * Dot(u[..n], x[..n]) + (c * u[n]) * x[n];
    }
  }

  lemma {:induction false} DotZeros(x: seq<int>)
    ensures Dot(Zeros(|x|), x) == 0
    decreases |x|
  {
    if |x| > 0 {
      var n := |x| - 1;
      DotZeros(x[..n]);
      assert Zeros(|x|)[..n] == Zeros(n);
    }
  }

  /** The inner product with a unit row picks one coordinate. */
  lemma {:induction false} DotUnit(n: nat, k: nat, x: seq<int>)
    requires k < n && |x| == n
    ensures Dot(UnitRow(n, k), x) == x[k]
    decreases n
  {
    var m := n - 1;
    if k == m {
      assert UnitRow(n, k)[..m] == Zeros(m);
      DotZeros(x[..m]);
    } else {
      assert UnitRow(n, k)[..m] == UnitRow(m, k);
      DotUnit(m, k, x[..m]);
    }
  }

  /** Associativity of the row-matrix-vector product:
      (a m) . x == a . (m x).  This is what makes a preimage exact. */
  lemma {:induction false} VecMatDot(a: seq<int>, m: Mat, x: seq<int>)
    requires |a| == |m| && Rows(m, |x|)
    ensures Dot(VecMat(a, m, |x|), x) == Dot(a, MatVec(m, x))
    decreases |m|
  {
    if |m| == 0 {
      DotZeros(x);
    } else {
      var n := |m| - 1;
      var a', m' := a[..n], m[..n];
      VecMatDot(a', m', x);
      DotAdd(VecMat(a', m', |x|), Scale(a[n], m[n]), x);
      DotScale(a[n], m[n], x);
      assert MatVec(m, x)[..n] == MatVec(m', x);
    }
  }

  // ---------------------------------------------------------------------
  // Unimodular matrices, independent rows and triangular systems.

  lemma {:induction false} DotComm(a: seq<int>, b: seq<int>)
    requires |a| == |b|
    ensures Dot(a, b) == Dot(b, a)
    decreases |a|
  {
    if |a| > 0 {
      DotComm(a[..|a| - 1], b[..|b| - 1]);
    }
  }

  /** A row that is zero after position i, against a vector that is zero
      before it: only the product at position i remains. */
  lemma {:induction false} DotSingle(a: seq<int>, x: seq<int>, i: nat)
    requires |a| == |x| && i < |a|
    requires forall j :: i < j < |a| ==> a[j] == 0
    requires forall j :: 0 <= j < i ==> x[j] == 0
    ensures Dot(a, x) == a[i] * x[i]
    decreases |a|
  {
    var n := |a| - 1;
    if n > i {
      DotSingle(a[..n], x[..n], i);
    } else {
      assert x[..n] == Zeros(n);
      DotComm(a[..n], x[..n]);
      DotZeros(a[..n]);
    }
  }

  /** A square lower-triangular system g x == 0 whose diagonal has no zero
      has only the zero solution; here for its first i unknowns. */
  lemma {:induction false} ForwardPrefix(g: seq<Row>, x: seq<int>, i: nat)
    requires |g| == |x| && i <= |x|
    requires forall r :: 0 <= r < |g| ==> |g[r]| == |x| && g[r][r] != 0 && Dot(g[r], x) == 0
    requires forall r, j :: 0 <= r < j < |x| ==> g[r][j] == 0
    ensures forall j :: 0 <= j < i ==> x[j] == 0
    decreases i
  {
    if i > 0 {
      ForwardPrefix(g, x, i - 1);
      DotSingle(g[i - 1], x, i - 1);
      ProductZero(g[i - 1][i - 1], x[i - 1]);
    }
  }

  lemma ForwardSubst(g: seq<Row>, x: seq<int>)
    requires |g| == |x|
    requires forall r :: 0 <= r < |g| ==> |g[r]| == |x| && g[r][r] != 0 && Dot(g[r], x) == 0
    requires forall r, j :: 0 <= r < j < |x| ==> g[r][j] == 0
    ensures x == Zeros(|x|)
  {
    ForwardPrefix(g, x, |x|);
  }

  /** The image of some vector under m. */
  ghost predicate Reaches(m: Mat, x: seq<int>)
  {
    exists y: seq<int> :: |y| == |x| && Rows(m, |y|) && MatVec(m, y) == x
  }

  /** An n x n integer matrix that maps the integer vectors onto the integer
      vectors (equivalently, with determinant 1 or -1). */
  ghost predicate Unimodular(m: Mat, n: nat)
  {
    && |m| == n && Rows(m, n)
    && forall x: seq<int> {:trigger Reaches(m, x)} :: |x| == n ==> Reaches(m, x)
  }

  /** Only the zero combination of the rows of m vanishes. */
  ghost predicate Independent(m: Mat, ncols: nat)
    requires Rows(m, ncols)
  {
    forall lam: seq<int> {:trigger VecMat(lam, m, ncols)} ::
      |lam| == |m| && VecMat(lam, m, ncols) == Zeros(ncols) ==> lam == Zeros(|m|)
  }

  /** A row whose entries past the first are zero is a multiple of e_0,
      and zero when its first entry is. */
  lemma UnitMultiple(lam: seq<int>)
    requires |lam| > 0 && lam[1..] == Zeros(|lam| - 1)
    ensures lam == Scale(lam[0], UnitRow(|lam|, 0))
    ensures lam[0] == 0 ==> lam == Zeros(|lam|)
  {
    forall i | 1 <= i < |lam| ensures lam[i] == 0 {
      assert lam[i] == lam[1..][i - 1];
    }
  }

  lemma {:induction false} VecMatZeros(m: Mat, ncols: nat)
    requires Rows(m, ncols)
    ensures VecMat(Zeros(|m|), m, ncols) == Zeros(ncols)
    decreases |m|
  {
    if |m| > 0 {
      var n := |m| - 1;
      assert Zeros(|m|)[..n] == Zeros(n);
      VecMatZeros(m[..n], ncols);
    }
  }

  /** The unit row e_k picks row k of m. */
  lemma {:induction false} VecMatUnit(m: Mat, k: nat, ncols: nat)
    requires k < |m| && Rows(m, ncols)
    ensures VecMat(UnitRow(|m|, k), m, ncols) == m[k]
    decreases |m|
  {
    var n := |m| - 1;
    var a := UnitRow(|m|, k);
    if k == n {
      assert a[..n] == Zeros(n);
      VecMatZeros(m[..n], ncols);
    } else {
      assert a[..n] == UnitRow(n, k);
      VecMatUnit(m[..n], k, ncols);
    }
  }

  /** Padding a combination with zero coefficients for the later rows
      changes nothing. */
  lemma {:induction false} VecMatPad(a: seq<int>, m: Mat, ncols: nat)
    requires |a| <= |m| && Rows(m, ncols)
    ensures VecMat(a + Zeros(|m| - |a|), m, ncols) == VecMat(a, m[..|a|], ncols)
    decreases |m|
  {
    if |a| < |m| {
      var n := |m| - 1;
      var b := a + Zeros(|m| - |a|);
      assert b[..n] == a + Zeros(n - |a|);
      VecMatPad(a, m[..n], ncols);
      assert m[..n][..|a|] == m[..|a|];
    } else {
      assert a + Zeros(0) == a && m[..|a|] == m;
    }
  }

  /** The first rows of independent rows are independent. */
  lemma IndependentPrefix(m: Mat, ncols: nat, i: nat)
    requires Rows(m, ncols) && Independent(m, ncols) && i <= |m|
    ensures Independent(m[..i], ncols)
  {
    forall lam | |lam| == i && VecMat(lam, m[..i], ncols) == Zeros(ncols) ensures lam == Zeros(i) {
      VecMatPad(lam, m, ncols);
      var full := lam + Zeros(|m| - i);
      assert full == Zeros(|m|);
      assert lam == full[..i];
    }
  }

  /** Dropping column 0 commutes with taking a combination of the rows. */
  lemma {:induction false} VecMatLinearPart(lam: seq<int>, m: Mat, n: nat)
    requires |lam| == |m| && Rows(m, 1 + n)
    ensures VecMat(lam, m, 1 + n)[1..] == VecMat(lam, LinearPart(m, n), n)
    decreases |m|
  {
    var l, r := VecMat(lam, m, 1 + n)[1..], VecMat(lam, LinearPart(m, n), n);
    if |m| > 0 {
      var k := |m| - 1;
      VecMatLinearPart(lam[..k], m[..k], n);
      assert LinearPart(m, n)[..k] == LinearPart(m[..k], n);
      forall i | 0 <= i < n ensures l[i] == r[i] {
      }
    }
    assert l == r;
  }

  /** A zero first row contributes nothing to a combination. */
  lemma {:induction false} VecMatConsZero(lam: seq<int>, m: Mat, n: nat)
    requires |lam| == 1 + |m| && Rows(m, n)
    ensures Rows([Zeros(n)] + m, n) && VecMat(lam, [Zeros(n)] + m, n) == VecMat(lam[1..], m, n)
    decreases |m|
  {
    var m' := [Zeros(n)] + m;
    if |m| == 0 {
      ScaleZeros(lam[0], n);
      assert VecMat(lam, m', n) == Add(Zeros(n), Scale(lam[0], Zeros(n)));
    } else {
      var k := |m| - 1;
      assert m'[..|m'| - 1] == [Zeros(n)] + m[..k];
      assert lam[..|lam| - 1][1..] == lam[1..][..k];
      VecMatConsZero(lam[..|lam| - 1], m[..k], n);
    }
  }

  /** A combination of the rows with their columns from k on dropped is the
      first k entries of the full combination. */
  lemma {:induction false} VecMatTake(a: seq<int>, m: Mat, n: nat, k: nat)
    requires |a| == |m| && Rows(m, n) && k <= n
    ensures Rows(DropCols(m, k, n - k), k)
    ensures VecMat(a, DropCols(m, k, n - k), k) == VecMat(a, m, n)[..k]
    decreases |m|
  {
    var d := DropCols(m, k, n - k);
    forall i | 0 <= i < |m| ensures d[i] == m[i][..k] {
      assert m[i][n..] == [];
    }
    var l, r := VecMat(a, d, k), VecMat(a, m, n)[..k];
    if |m| > 0 {
      var j := |m| - 1;
      VecMatTake(a[..j], m[..j], n, k);
      assert DropCols(m[..j], k, n - k) == d[..j];
      forall i | 0 <= i < k ensures l[i] == r[i] {
      }
    }
    assert l == r;
  }

  /** A single unit row is independent. */
  lemma IndependentUnit(n: nat)
    requires n > 0
    ensures Independent([UnitRow(n, 0)], n)
  {
    var m := [UnitRow(n, 0)];
    forall lam | |lam| == 1 && VecMat(lam, m, n) == Zeros(n) ensures lam == Zeros(1) {
      assert VecMat(lam, m, n) == Add(VecMat(lam[..0], m[..0], n), Scale(lam[0], m[0]));
      assert VecMat(lam, m, n)[0] == lam[0];
    }
  }
}
