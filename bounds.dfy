/** independent_bounds (isl_sample.c:95-160): a greedy choice of inequalities
    whose normals are linearly independent, found by keeping a triangular
    working copy of the chosen normals sorted by first non-zero position. */
module Bounds {
  import opened Vectors
  import opened Spans

  /** The rows have strictly increasing first non-zero positions: they form
      a triangular, hence linearly independent, family (apart from a leading
      all-zero row, whose position is -1). */
  ghost predicate Triangular(s: seq<Row>)
  {
    forall k, l :: 0 <= k < l < |s| ==> FirstNonZero(s[k]) < FirstNonZero(s[l])
  }

  /** bounds is the unit row followed by the inequalities at the strictly
      increasing indices picked. */
  ghost predicate Picks(ineq: seq<Row>, bounds: seq<Row>, picked: seq<nat>, dim: nat)
  {
    && |bounds| == 1 + |picked| && bounds[0] == UnitRow(1 + dim, 0)
    && (forall k :: 0 <= k < |picked| ==> picked[k] < |ineq| && bounds[1 + k] == ineq[picked[k]])
    && (forall k, l :: 0 <= k < l < |picked| ==> picked[k] < picked[l])
  }

  lemma PicksExtend(ineq: seq<Row>, bounds: seq<Row>, picked: seq<nat>, dim: nat, j: nat)
    requires Picks(ineq, bounds, picked, dim) && j < |ineq|
    requires |picked| > 0 ==> picked[|picked| - 1] < j
    ensures Picks(ineq, bounds + [ineq[j]], picked + [j], dim)
  {
    var b, p := bounds + [ineq[j]], picked + [j];
    forall k, l | 0 <= k < l < |p| ensures p[k] < p[l] {
      if l < |picked| {
        assert p[k] == picked[k] && p[l] == picked[l];
      } else if k < |picked| - 1 {
        assert picked[k] < picked[|picked| - 1];
      }
    }
  }

  /** Only the first row of a triangular family can be all zero. */
  lemma TriangularTail(s: seq<Row>)
    requires Triangular(s)
    ensures forall k :: 1 <= k < |s| ==> FirstNonZero(s[k]) >= 0
  {
    forall k | 1 <= k < |s| ensures FirstNonZero(s[k]) >= 0 {
      assert FirstNonZero(s[0]) < FirstNonZero(s[k]);
    }
  }

  /** Inserting a row at the place its first non-zero position belongs keeps
      the family triangular. */
  lemma InsertKeepsTriangular(before: seq<Row>, t: Row, i: nat)
    requires Triangular(before) && i <= |before|
    requires forall k :: 0 <= k < i ==> FirstNonZero(before[k]) < FirstNonZero(t)
    requires i < |before| ==> FirstNonZero(t) < FirstNonZero(before[i])
    ensures Triangular(before[..i] + [t] + before[i..])
  {
    var s := before[..i] + [t] + before[i..];
    forall k, l | 0 <= k < l < |s| ensures FirstNonZero(s[k]) < FirstNonZero(s[l]) {
      if l < i {
        assert s[k] == before[k] && s[l] == before[l];
      } else if l == i {
        assert s[k] == before[k] && s[l] == t;
      } else if k < i {
        assert s[k] == before[k] && s[l] == before[l - 1];
      } else if k == i {
        assert s[k] == t && s[l] == before[l - 1];
        if l - 1 > i {
          assert FirstNonZero(before[i]) < FirstNonZero(before[l - 1]);
        }
      } else {
        assert s[k] == before[k - 1] && s[l] == before[l - 1];
      }
    }
  }

  /** Eliminating position pos from a row against a row with the same first
      non-zero position moves the first non-zero position strictly right. */
  lemma ElimAdvances(dst: Row, src: Row, pos: nat)
    requires |dst| == |src| && pos < |src| && FirstNonZero(dst) == pos && FirstNonZero(src) == pos
    ensures var r := Elim(dst, src, pos); FirstNonZero(r) == -1 || FirstNonZero(r) > pos
  {
    var r := Elim(dst, src, pos);
    forall k | 0 <= k <= pos ensures r[k] == 0 {
      if k < pos {
        assert dst[k] == 0 && src[k] == 0;
      }
    }
  }

  /** Scaling by a non-zero factor keeps the first non-zero position. */
  lemma ScaleLead(c: int, v: seq<int>)
    requires c != 0
    ensures FirstNonZero(Scale(c, v)) == FirstNonZero(v)
  {
    var p, q := FirstNonZero(v), FirstNonZero(Scale(c, v));
    if p >= 0 && Scale(c, v)[p] == 0 {
      ProductZero(c, v[p]);
    }
    if q >= 0 {
      assert v[q] != 0;
    }
  }

  /** Elim multiplies dst by a positive factor and adds a multiple of src. */
  lemma ElimForm(dst: Row, src: Row, pos: nat) returns (a: int, b: int)
    requires |dst| == |src| && pos < |src| && src[pos] != 0
    ensures a > 0 && Elim(dst, src, pos) == Combine(a, dst, b, src)
  {
    if dst[pos] == 0 {
      a, b := 1, 0;
      assert Combine(1, dst, 0, src) == dst;
    } else {
      var s, t := src[pos], dst[pos];
      var g := Gcd(Abs(s), Abs(t));
      a := Abs(s / g);
      b := if s > 0 then -(t / g) else t / g;
      ExactQuotient(s, g);
    }
  }

  /** One elimination against working row i keeps the reduced row a
      positive multiple of the original normal N plus a combination of the
      working rows m. */
  lemma ElimStep(cur: Row, N: Row, sc: int, m: Mat, i: nat, pos: nat) returns (sc': int)
    requires |cur| == |N| && Rows(m, |N|) && i < |m| && pos < |N| && m[i][pos] != 0
    requires sc > 0 && InSpan(Sub(cur, Scale(sc, N)), m, |N|)
    ensures sc' > 0 && InSpan(Sub(Elim(cur, m[i], pos), Scale(sc', N)), m, |N|)
  {
    var a, b;
    a, b := ElimForm(cur, m[i], pos);
    var d := Sub(cur, Scale(sc, N));
    SpanScale(a, d, m, |N|);
    SpanRow(m, i, |N|);
    SpanScale(b, m[i], m, |N|);
    SpanAdd(Scale(a, d), Scale(b, m[i]), m, |N|);
    var lhs := Sub(Elim(cur, m[i], pos), Scale(a * sc, N));
    forall k | 0 <= k < |N| ensures lhs[k] == Add(Scale(a, d), Scale(b, m[i]))[k] {
      MulAssoc(a, sc, N[k]);
      assert a * (cur[k] - sc * N[k]) == a * cur[k] - a * (sc * N[k]);
    }
    assert lhs == Add(Scale(a, d), Scale(b, m[i]));
    sc' := a * sc;
    PositiveFactor(a, sc);
  }

  /** Adding a row that is zero up to the first non-zero position of w
      keeps that position. */
  lemma LeadOfSum(w: seq<int>, v: seq<int>)
    requires |w| == |v| && FirstNonZero(w) >= 0
    requires forall i :: 0 <= i <= FirstNonZero(w) ==> v[i] == 0
    ensures FirstNonZero(Add(w, v)) == FirstNonZero(w)
  {
    LeadIs(Add(w, v), FirstNonZero(w));
  }

  /** A multiple of a row that starts after q is zero up to q. */
  lemma MultipleZeroUpTo(x: int, r: Row, q: nat)
    requires FirstNonZero(r) == -1 || FirstNonZero(r) > q
    ensures forall i :: 0 <= i <= q && i < |r| ==> Scale(x, r)[i] == 0
  {
    forall i | 0 <= i <= q && i < |r| ensures Scale(x, r)[i] == 0 {
      assert r[i] == 0;
    }
  }

  /** Adding a multiple of a row to zero leads where the row leads, or
      nowhere. */
  lemma LeadOfMultiple(w: seq<int>, x: int, r: Row)
    requires |w| == |r| && FirstNonZero(w) == -1
    ensures var p := FirstNonZero(Add(w, Scale(x, r))); p == -1 || p == FirstNonZero(r)
  {
    var u := Add(w, Scale(x, r));
    if x != 0 {
      assert u == Scale(x, r);
      ScaleLead(x, r);
    } else {
      assert forall i :: 0 <= i < |u| ==> u[i] == 0;
    }
  }

  /** The first non-zero position is the one before which all entries are zero. */
  lemma LeadIs(s: seq<int>, q: nat)
    requires q < |s| && s[q] != 0 && forall i :: 0 <= i < q ==> s[i] == 0
    ensures FirstNonZero(s) == q
  {
  }

  /** A combination of a triangular family is zero or has its first
      non-zero entry where one of the rows has its own. */
  lemma {:induction false} CombinationLead(m: Mat, lam: seq<int>, dim: nat)
    requires Rows(m, dim) && Triangular(m) && |lam| == |m|
    ensures var p := FirstNonZero(VecMat(lam, m, dim));
      p == -1 || exists k :: 0 <= k < |m| && FirstNonZero(m[k]) == p
    decreases |m|
  {
    if |m| > 0 {
      var n := |m| - 1;
      assert Triangular(m[..n]) by {
        forall k, l | 0 <= k < l < n ensures FirstNonZero(m[..n][k]) < FirstNonZero(m[..n][l]) {
          assert m[..n][k] == m[k] && m[..n][l] == m[l];
        }
      }
      CombinationLead(m[..n], lam[..n], dim);
      var w' := VecMat(lam[..n], m[..n], dim);
      if FirstNonZero(w') == -1 {
        LeadOfMultiple(w', lam[n], m[n]);
      } else {
        var k :| 0 <= k < n && FirstNonZero(m[..n][k]) == FirstNonZero(w');
        assert m[..n][k] == m[k];
        MultipleZeroUpTo(lam[n], m[n], FirstNonZero(w'));
        LeadOfSum(w', Scale(lam[n], m[n]));
      }
    }
  }

  /** A row whose first non-zero position is that of no row of a triangular
      family lies outside the family's rational span. */
  lemma NewLeadOutside(m: Mat, v: Row, dim: nat)
    requires Rows(m, dim) && Triangular(m) && |v| == dim && FirstNonZero(v) >= 0
    requires forall k :: 0 <= k < |m| ==> FirstNonZero(m[k]) != FirstNonZero(v)
    ensures !InRatSpan(v, m, dim)
  {
    if InRatSpan(v, m, dim) {
      var c :| c > 0 && InSpan(Scale(c, v), m, dim);
      var lam :| |lam| == |m| && VecMat(lam, m, dim) == Scale(c, v);
      ScaleLead(c, v);
      CombinationLead(m, lam, dim);
    }
  }

  /** r is a positive multiple sc of the row N plus a combination of the
      rows of m. */
  ghost predicate Reduces(r: Row, N: Row, sc: int, m: Mat)
  {
    |r| == |N| && Rows(m, |N|) && sc > 0 && InSpan(Sub(r, Scale(sc, N)), m, |N|)
  }

  lemma ReducesStart(row: Row, m: Mat)
    requires Rows(m, |row|)
    ensures Reduces(row, row, 1, m)
  {
    assert Sub(row, Scale(1, row)) == Zeros(|row|);
    SpanZero(m, |row|);
  }

  /** isl_seq_elim at a shared first non-zero position pos: the result is
      zero up to and including pos, and stays a positive multiple of the
      original normal N plus a combination of the working rows m. */
  method EliminateLead(cur: Row, src: Row, pos: nat, ghost m: Mat, ghost i: nat, ghost N: Row, ghost sc: int)
    returns (r: Row, ghost sc': int)
    requires Rows(m, |cur|) && i < |m| && m[i] == src && |N| == |cur|
    requires FirstNonZero(cur) == pos && FirstNonZero(src) == pos
    requires Reduces(cur, N, sc, m)
    ensures |r| == |cur| && (FirstNonZero(r) == -1 || FirstNonZero(r) > pos)
    ensures Reduces(r, N, sc', m)
  {
    ElimAdvances(cur, m[i], pos);
    sc' := ElimStep(cur, N, sc, m, i, pos);
    r := Elim(cur, src, pos);
  }

  /** The inner loop of independent_bounds: reduce the normal row against
      the working rows that share its first non-zero position, stopping at
      the first working row whose position lies further right.  On return
      r is the reduced row, pos its first non-zero position (-1 when it
      became zero) and, unless pos is -1, i is where r belongs among the
      working rows.  (The source reduces dirs[n] in place, reading the
      working rows dirs[0 .. n - 1]; here those rows are passed as a
      sequence and the caller stores r in dirs[n].) */
  method ReduceRow(rows: seq<Row>, row: Row) returns (pos: int, i: nat, r: Row, ghost sc: int)
    requires Rows(rows, |row|)
    ensures |r| == |row| && pos == FirstNonZero(r) && i <= |rows|
    ensures Reduces(r, row, sc, rows)
    ensures pos >= 0 ==> forall k :: 0 <= k < i ==> FirstNonZero(rows[k]) < pos
    ensures pos >= 0 && i < |rows| ==> pos < FirstNonZero(rows[i])
  {
    r := row;
    pos := FirstNonZero(r);
    i := 0;
    sc := 1;
    ReducesStart(row, rows);
    if pos >= 0 {
      while i < |rows|
        invariant 0 <= i <= |rows| && |r| == |row| && pos == FirstNonZero(r) && pos >= 0
        invariant Reduces(r, row, sc, rows)
        invariant forall k :: 0 <= k < i ==> FirstNonZero(rows[k]) < pos
      {
        var posI := FirstNonZero(rows[i]);
        if posI > pos {
          break;
        }
        if posI == pos {
          r, sc := EliminateLead(r, rows[i], pos, rows, i, row, sc);
          pos := FirstNonZero(r);
          if pos < 0 {
            break;
          }
        }
        i := i + 1;
      }
    }
  }

  /** Move dirs[n] to position i, shifting the rows i .. n - 1 down by one. */
  method InsertRow(dirs: array<Row>, n: nat, i: nat, ghost dim: nat)
    requires i <= n < dirs.Length && Rows(dirs[..], dim)
    modifies dirs
    ensures Rows(dirs[..], dim)
    ensures dirs[..n + 1] == old(dirs[..i]) + [old(dirs[n])] + old(dirs[i..n])
    ensures dirs[n + 1..] == old(dirs[n + 1..])
  {
    var t := dirs[n];
    var k := n;
    while k > i
      invariant i <= k <= n
      invariant dirs[..k] == old(dirs[..k])
      invariant dirs[k + 1..n + 1] == old(dirs[k..n])
      invariant dirs[n + 1..] == old(dirs[n + 1..])
      invariant forall q :: 0 <= q < dirs.Length ==> |dirs[q]| == dim
    {
      dirs[k] := dirs[k - 1];
      k := k - 1;
    }
    dirs[i] := t;
    assert dirs[..n + 1] == dirs[..i] + [t] + dirs[i + 1..n + 1];
  }

  /** The invariant of independent_bounds' outer loop, over the working
      rows s: n inequalities picked, all before index j. */
  ghost predicate BoundsInv(ineq: seq<Row>, bounds: seq<Row>, picked: seq<nat>, s: seq<Row>, n: nat, j: nat, dim: nat)
  {
    && 1 <= n <= dim && 1 <= j <= |ineq|
    && Picks(ineq, bounds, picked, dim)
    && |picked| == n && picked[0] == 0 && picked[n - 1] < j
    && |s| == dim && Rows(s, dim)
    && Triangular(s[..n])
  }

  /** An inequality whose reduced normal is zero is skipped. */
  lemma BoundsSkip(ineq: seq<Row>, bounds: seq<Row>, picked: seq<nat>, s: seq<Row>, s': seq<Row>, n: nat, j: nat, dim: nat)
    requires BoundsInv(ineq, bounds, picked, s, n, j, dim) && j < |ineq|
    requires |s'| == dim && Rows(s', dim) && s'[..n] == s[..n]
    ensures BoundsInv(ineq, bounds, picked, s', n, j + 1, dim)
  {
  }

  /** An inequality whose reduced normal t is not zero is picked, and t is
      inserted among the working rows at position i. */
  lemma BoundsTake(ineq: seq<Row>, bounds: seq<Row>, picked: seq<nat>, s: seq<Row>, s': seq<Row>,
                   n: nat, j: nat, dim: nat, i: nat, t: Row)
    requires BoundsInv(ineq, bounds, picked, s, n, j, dim) && j < |ineq| && n < dim && i <= n
    requires |s'| == dim && Rows(s', dim) && s'[..n + 1] == s[..i] + [t] + s[i..n]
    requires forall k :: 0 <= k < i ==> FirstNonZero(s[k]) < FirstNonZero(t)
    requires i < n ==> FirstNonZero(t) < FirstNonZero(s[i])
    ensures BoundsInv(ineq, bounds + [ineq[j]], picked + [j], s', n + 1, j + 1, dim)
  {
    var before := s[..n];
    assert before[..i] == s[..i] && before[i..] == s[i..n];
    InsertKeepsTriangular(before, t, i);
    assert s'[..n + 1] == before[..i] + [t] + before[i..];
    PicksExtend(ineq, bounds, picked, dim, j);
    var p := picked + [j];
    assert p[0] == 0 && p[n] == j;
  }

  /** Each reduced row G[k] is a positive multiple sc[k] of the normal
      NS[k] plus a combination of the rows reduced before it. */
  ghost predicate Reduced(G: Mat, NS: Mat, sc: seq<int>, dim: nat)
  {
    && |G| == |NS| == |sc| && Rows(G, dim) && Rows(NS, dim)
    && forall k :: 0 <= k < |G| ==> sc[k] > 0 && InSpan(Sub(G[k], Scale(sc[k], NS[k])), G[..k], dim)
  }

  /** No positive multiple of a reduced row is a combination of the rows
      reduced before it, except possibly for the first row when its normal
      is zero. */
  ghost predicate Fresh(G: Mat, NS: Mat, dim: nat)
  {
    && |G| == |NS| && Rows(G, dim)
    && forall k :: 0 <= k < |G| && (k > 0 || FirstNonZero(NS[0]) >= 0) ==> !InRatSpan(G[k], G[..k], dim)
  }

  /** NS holds the normals of the picked inequalities, in pick order. */
  ghost predicate Normals(ineq: seq<Row>, picked: seq<nat>, NS: Mat, dim: nat)
  {
    && Rows(ineq, 1 + dim) && |picked| == |NS|
    && forall t :: 0 <= t < |NS| ==> picked[t] < |ineq| && NS[t] == ineq[picked[t]][1..]
  }

  /** Every row of G is a combination of the rows of NS. */
  ghost predicate SpannedBy(G: Mat, NS: Mat, dim: nat)
  {
    Rows(NS, dim) && forall k :: 0 <= k < |G| ==> InSpan(G[k], NS, dim)
  }

  /** The normal of every inequality before j has a positive multiple that
      is a combination of the rows of NS. */
  ghost predicate Covers(ineq: seq<Row>, NS: Mat, j: nat, dim: nat)
  {
    && Rows(ineq, 1 + dim) && j <= |ineq| && Rows(NS, dim)
    && forall l :: 0 <= l < j ==> InRatSpan(ineq[l][1..], NS, dim)
  }

  /** The linear-algebra invariant of independent_bounds' outer loop.  NS
      holds the normals of the n picked inequalities, in pick order, and G
      the rows they were reduced to; s[..n] holds the rows of G sorted by
      first non-zero position. */
  ghost predicate SpanInv(ineq: seq<Row>, picked: seq<nat>, NS: Mat, s: seq<Row>, n: nat, j: nat, G: Mat, sc: seq<int>, dim: nat)
  {
    && |G| == n <= |s| && Rows(s, dim)
    && multiset(s[..n]) == multiset(G)
    && Normals(ineq, picked, NS, dim)
    && Reduced(G, NS, sc, dim)
    && SpannedBy(G, NS, dim)
    && Fresh(G, NS, dim)
    && Covers(ineq, NS, j, dim)
  }

  /** The first inequality starts the invariant: its normal is the first
      working row, unreduced. */
  lemma SpanInit(ineq: seq<Row>, s: seq<Row>, dim: nat)
    requires Rows(ineq, 1 + dim) && |ineq| > 0 && 0 < |s| && Rows(s, dim) && s[0] == ineq[0][1..]
    ensures SpanInv(ineq, [0], [ineq[0][1..]], s, 1, 1, [ineq[0][1..]], [1], dim)
  {
    var N := ineq[0][1..];
    InitReduced(N, dim);
    InitSpanned(N, dim);
    InitFresh(N, dim);
    assert s[..1] == [N];
  }

  /** A single normal, unreduced, is reduced with multiplier 1. */
  lemma InitReduced(N: Row, dim: nat)
    requires |N| == dim
    ensures Reduced([N], [N], [1], dim)
  {
    assert Sub(N, Scale(1, N)) == Zeros(dim);
    SpanZero([], dim);
  }

  /** A single normal spans itself. */
  lemma InitSpanned(N: Row, dim: nat)
    requires |N| == dim
    ensures SpannedBy([N], [N], dim) && InRatSpan(N, [N], dim)
  {
    SpanRow([N], 0, dim);
    assert Scale(1, N) == N;
  }

  /** A single non-zero normal is not in the span of nothing. */
  lemma InitFresh(N: Row, dim: nat)
    requires |N| == dim
    ensures Fresh([N], [N], dim)
  {
    if FirstNonZero(N) >= 0 && InRatSpan(N, [], dim) {
      var c :| c > 0 && InSpan(Scale(c, N), [], dim);
      SpanEmpty(Scale(c, N), dim);
      ScaleLead(c, N);
    }
  }

  /** A reduced row r == a N + w, with w a combination of the working rows,
      puts a positive multiple of N in the span of the normals when r is zero. */
  lemma SpanSkip(ineq: seq<Row>, picked: seq<nat>, NS: Mat, s: seq<Row>, s': seq<Row>, n: nat, j: nat,
                 G: Mat, sc: seq<int>, dim: nat, a: int)
    requires Rows(ineq, 1 + dim) && j < |ineq| && SpanInv(ineq, picked, NS, s, n, j, G, sc, dim)
    requires Reduces(Zeros(dim), ineq[j][1..], a, s[..n])
    requires |s'| == |s| && Rows(s', dim) && s'[..n] == s[..n]
    ensures SpanInv(ineq, picked, NS, s', n, j + 1, G, sc, dim)
  {
    var N := ineq[j][1..];
    var d := Sub(Zeros(dim), Scale(a, N));
    SpanZero(s[..n], dim);
    SpanSub(Zeros(dim), d, s[..n], dim);
    SubSub(Zeros(dim), Scale(a, N));
    SpanPermuted(Scale(a, N), s[..n], G, dim);
    SpanSubset(Scale(a, N), G, NS, dim);
    assert InRatSpan(N, NS, dim);
  }

  /** The new working row t leads where no earlier working row leads, so no
      positive multiple of it is a combination of the reduced rows. */
  lemma TakeIsNew(s: seq<Row>, n: nat, G: Mat, dim: nat, i: nat, t: Row)
    requires n <= |s| && Rows(s, dim) && Rows(G, dim) && multiset(s[..n]) == multiset(G) && Triangular(s[..n])
    requires |t| == dim && FirstNonZero(t) >= 0 && i <= n
    requires forall k :: 0 <= k < i ==> FirstNonZero(s[k]) < FirstNonZero(t)
    requires i < n ==> FirstNonZero(t) < FirstNonZero(s[i])
    ensures !InRatSpan(t, G, dim)
  {
    var m := s[..n];
    forall k | 0 <= k < n ensures FirstNonZero(m[k]) != FirstNonZero(t) {
      if k > i {
        assert FirstNonZero(m[i]) < FirstNonZero(m[k]);
      }
    }
    NewLeadOutside(m, t, dim);
    if InRatSpan(t, G, dim) {
      var c :| c > 0 && InSpan(Scale(c, t), G, dim);
      SpanPermuted(Scale(c, t), G, m, dim);
    }
  }

  /** The new reduced row lies in the span of the normals, now including N. */
  lemma TakeInSpan(NS: Mat, G: Mat, N: Row, t: Row, a: int, dim: nat)
    requires SpannedBy(G, NS, dim) && Rows(G, dim) && |N| == dim && |t| == dim
    requires InSpan(Sub(t, Scale(a, N)), G, dim)
    ensures SpannedBy(G + [t], NS + [N], dim)
  {
    var NS' := NS + [N];
    var d := Sub(t, Scale(a, N));
    SpanSubset(d, G, NS, dim);
    SpanSnoc(d, NS, N, dim);
    SpanRow(NS', |NS|, dim);
    SpanScale(a, N, NS', dim);
    SpanAdd(d, Scale(a, N), NS', dim);
    SubAdd(t, Scale(a, N));
    SpannedSnoc(G, NS, N, t, dim);
  }

  /** Rows spanned by NS stay spanned by NS + [N], and so does one more
      row t spanned by NS + [N]. */
  lemma SpannedSnoc(G: Mat, NS: Mat, N: Row, t: Row, dim: nat)
    requires SpannedBy(G, NS, dim) && |N| == dim && InSpan(t, NS + [N], dim)
    ensures SpannedBy(G + [t], NS + [N], dim)
  {
    var NS', G' := NS + [N], G + [t];
    forall k | 0 <= k < |G'| ensures InSpan(G'[k], NS', dim) {
      if k < |G| {
        SnocPrefix(G, t, k);
        SpanSnoc(G[k], NS, N, dim);
      }
    }
  }

  /** A picked inequality extends the invariant with its reduced row t,
      inserted among the working rows at position i. */
  lemma SpanTake(ineq: seq<Row>, picked: seq<nat>, NS: Mat, s: seq<Row>, s': seq<Row>, n: nat, j: nat,
                 G: Mat, sc: seq<int>, dim: nat, a: int, i: nat, t: Row)
    requires Rows(ineq, 1 + dim) && j < |ineq| && SpanInv(ineq, picked, NS, s, n, j, G, sc, dim)
    requires Triangular(s[..n]) && n > 0 && i <= n && |t| == dim && FirstNonZero(t) >= 0
    requires forall k :: 0 <= k < i ==> FirstNonZero(s[k]) < FirstNonZero(t)
    requires i < n ==> FirstNonZero(t) < FirstNonZero(s[i])
    requires Reduces(t, ineq[j][1..], a, s[..n])
    requires |s'| == |s| && n < |s| && Rows(s', dim) && s'[..n + 1] == s[..i] + [t] + s[i..n]
    ensures SpanInv(ineq, picked + [j], NS + [ineq[j][1..]], s', n + 1, j + 1, G + [t], sc + [a], dim)
  {
    var N := ineq[j][1..];
    TakeMultiset(s, s', n, i, t, G);
    SpanPermuted(Sub(t, Scale(a, N)), s[..n], G, dim);
    TakeInSpan(NS, G, N, t, a, dim);
    TakeIsNew(s, n, G, dim, i, t);
    TakeReduced(NS, G, sc, N, t, a, dim);
    TakeNew(NS, G, N, t, dim);
    PickedNormals(ineq, picked, NS, j, dim);
    TakeCovers(ineq, NS, j, dim);
  }

  /** Inserting t among the working rows adds it to their multiset. */
  lemma TakeMultiset(s: seq<Row>, s': seq<Row>, n: nat, i: nat, t: Row, G: Mat)
    requires i <= n < |s'| && n <= |s| && multiset(s[..n]) == multiset(G)
    requires s'[..n + 1] == s[..i] + [t] + s[i..n]
    ensures multiset(s'[..n + 1]) == multiset(G + [t])
  {
    assert s[..n] == s[..i] + s[i..n];
  }

  /** The new reduced row t is a positive multiple a of N plus a
      combination of the earlier reduced rows. */
  lemma TakeReduced(NS: Mat, G: Mat, sc: seq<int>, N: Row, t: Row, a: int, dim: nat)
    requires Reduced(G, NS, sc, dim) && |N| == dim && |t| == dim
    requires a > 0 && InSpan(Sub(t, Scale(a, N)), G, dim)
    ensures Reduced(G + [t], NS + [N], sc + [a], dim)
  {
    var G', NS', sc' := G + [t], NS + [N], sc + [a];
    forall k | 0 <= k < |G| + 1
      ensures sc'[k] > 0 && InSpan(Sub(G'[k], Scale(sc'[k], NS'[k])), G'[..k], dim)
    {
      ReducedEntry(NS, G, sc, N, t, a, dim, k);
    }
  }

  /** Entry k of TakeReduced: an old row keeps its reduction, and t is the
      new one. */
  lemma ReducedEntry(NS: Mat, G: Mat, sc: seq<int>, N: Row, t: Row, a: int, dim: nat, k: nat)
    requires Reduced(G, NS, sc, dim) && |N| == dim && |t| == dim && k <= |G|
    requires a > 0 && InSpan(Sub(t, Scale(a, N)), G, dim)
    ensures Rows(G + [t], dim) && (sc + [a])[k] > 0
    ensures InSpan(Sub((G + [t])[k], Scale((sc + [a])[k], (NS + [N])[k])), (G + [t])[..k], dim)
  {
    if k < |G| {
      SnocPrefix(G, t, k);
      SnocPrefix(NS, N, k);
      SnocPrefix(sc, a, k);
    } else {
      assert (G + [t])[..k] == G;
    }
  }

  /** No positive multiple of a reduced row is a combination of the rows
      reduced before it, now including t. */
  lemma TakeNew(NS: Mat, G: Mat, N: Row, t: Row, dim: nat)
    requires |G| > 0 && Fresh(G, NS, dim) && |t| == dim
    requires !InRatSpan(t, G, dim)
    ensures Fresh(G + [t], NS + [N], dim)
  {
    var G' := G + [t];
    assert (NS + [N])[0] == NS[0];
    forall k | 0 <= k < |G| + 1 && (k > 0 || FirstNonZero(NS[0]) >= 0) ensures !InRatSpan(G'[k], G'[..k], dim) {
      if k < |G| {
        SnocPrefix(G, t, k);
      } else {
        assert G'[..k] == G;
      }
    }
  }

  /** Every normal up to and including the picked one is a rational
      combination of the normals, now including it. */
  lemma TakeCovers(ineq: seq<Row>, NS: Mat, j: nat, dim: nat)
    requires Covers(ineq, NS, j, dim) && j < |ineq|
    ensures Covers(ineq, NS + [ineq[j][1..]], j + 1, dim)
  {
    var N := ineq[j][1..];
    var NS' := NS + [N];
    forall l | 0 <= l <= j ensures InRatSpan(ineq[l][1..], NS', dim) {
      if l < j {
        RatSpanSnoc(ineq[l][1..], NS, N, dim);
      } else {
        SpanRow(NS', |NS|, dim);
        assert Scale(1, N) == N;
      }
    }
  }

  /** Picking inequality j appends its normal. */
  lemma PickedNormals(ineq: seq<Row>, picked: seq<nat>, NS: Mat, j: nat, dim: nat)
    requires Normals(ineq, picked, NS, dim) && j < |ineq|
    ensures Normals(ineq, picked + [j], NS + [ineq[j][1..]], dim)
  {
  }

  lemma SnocPrefix<T>(m: seq<T>, r: T, k: nat)
    requires k < |m|
    ensures (m + [r])[..k] == m[..k] && (m + [r])[k] == m[k]
  {
  }

  /** The rows reduced before t span, up to positive multiples, the normals
      before t. */
  lemma NormalsBefore(NS: Mat, G: Mat, sc: seq<int>, dim: nat, t: nat)
    requires |G| == |NS| == |sc| && t <= |G| && Rows(G, dim) && Rows(NS, dim)
    requires forall k :: 0 <= k < |G| ==> sc[k] > 0 && InSpan(Sub(G[k], Scale(sc[k], NS[k])), G[..k], dim)
    ensures forall k :: 0 <= k < t ==> InRatSpan(NS[k], G[..t], dim)
  {
    forall k | 0 <= k < t ensures InRatSpan(NS[k], G[..t], dim) {
      NormalBefore(NS[k], G, sc[k], dim, k, t);
    }
  }

  /** One normal: sc NS_k == G_k - d with d a combination of the rows
      reduced before G_k. */
  lemma NormalBefore(N: Row, G: Mat, sc: int, dim: nat, k: nat, t: nat)
    requires k < t <= |G| && Rows(G, dim) && |N| == dim
    requires sc > 0 && InSpan(Sub(G[k], Scale(sc, N)), G[..k], dim)
    ensures InRatSpan(N, G[..t], dim)
  {
    var d := Sub(G[k], Scale(sc, N));
    assert G[..t][..k] == G[..k];
    SpanPrefix(d, G[..t], k, dim);
    SpanRow(G[..t], k, dim);
    SpanSub(G[k], d, G[..t], dim);
    SubSub(G[k], Scale(sc, N));
  }

  /** If a positive multiple of the normal NS[t] were a combination of the
      normals before it, one of its reduced row G[t] would be a combination
      of the rows reduced before it. */
  lemma ReducedDependent(NS: Mat, G: Mat, sc: seq<int>, dim: nat, t: nat)
    requires |G| == |NS| == |sc| && t < |G| && Rows(G, dim) && Rows(NS, dim)
    requires forall k :: 0 <= k < |G| ==> sc[k] > 0 && InSpan(Sub(G[k], Scale(sc[k], NS[k])), G[..k], dim)
    requires InRatSpan(NS[t], NS[..t], dim)
    ensures InRatSpan(G[t], G[..t], dim)
  {
    NormalsBefore(NS, G, sc, dim, t);
    NormalInReduced(NS, G, dim, t);
    RatSpanFromPart(G[t], NS[t], sc[t], G[..t], dim);
  }

  /** A normal that is a rational combination of the normals before it is
      one of the rows reduced before it, when those normals are. */
  lemma NormalInReduced(NS: Mat, G: Mat, dim: nat, t: nat)
    requires |G| == |NS| && t < |G| && Rows(G, dim) && Rows(NS, dim)
    requires forall k :: 0 <= k < t ==> InRatSpan(NS[k], G[..t], dim)
    requires InRatSpan(NS[t], NS[..t], dim)
    ensures InRatSpan(NS[t], G[..t], dim)
  {
    RatSpanSubset(NS[t], NS[..t], G[..t], dim);
  }

  /** The normals picked so far are independent when the first one is not
      zero. */
  lemma NormalsIndependent(NS: Mat, G: Mat, sc: seq<int>, dim: nat, t: nat)
    requires |G| == |NS| == |sc| && t <= |G| && Rows(G, dim) && Rows(NS, dim)
    requires forall k :: 0 <= k < |G| ==> sc[k] > 0 && InSpan(Sub(G[k], Scale(sc[k], NS[k])), G[..k], dim)
    requires forall k :: 0 <= k < |G| && (k > 0 || FirstNonZero(NS[0]) >= 0) ==> !InRatSpan(G[k], G[..k], dim)
    requires |G| > 0 ==> FirstNonZero(NS[0]) >= 0
    ensures Independent(NS[..t], dim)
  {
    forall k | 0 <= k < |NS| ensures !InRatSpan(NS[k], NS[..k], dim) {
      NormalIsNew(NS, G, sc, dim, k);
    }
    NewRowsIndependent(NS, dim, t);
  }

  /** Rows none of which has a positive multiple among the combinations of
      the rows before it are independent. */
  lemma {:induction false} NewRowsIndependent(m: Mat, dim: nat, t: nat)
    requires Rows(m, dim) && t <= |m|
    requires forall k :: 0 <= k < |m| ==> !InRatSpan(m[k], m[..k], dim)
    ensures Independent(m[..t], dim)
    decreases t
  {
    if t == 0 {
      IndependentEmpty(dim);
      assert m[..0] == [];
    } else {
      NewRowsIndependent(m, dim, t - 1);
      IndependentSnoc(m[..t - 1], m[t - 1], dim);
      assert m[..t - 1] + [m[t - 1]] == m[..t];
    }
  }

  /** No positive multiple of a picked normal is a combination of the
      normals picked before it. */
  lemma NormalIsNew(NS: Mat, G: Mat, sc: seq<int>, dim: nat, t: nat)
    requires |G| == |NS| == |sc| && t < |G| && Rows(G, dim) && Rows(NS, dim)
    requires forall k :: 0 <= k < |G| ==> sc[k] > 0 && InSpan(Sub(G[k], Scale(sc[k], NS[k])), G[..k], dim)
    requires forall k :: 0 <= k < |G| && (k > 0 || FirstNonZero(NS[0]) >= 0) ==> !InRatSpan(G[k], G[..k], dim)
    requires FirstNonZero(NS[0]) >= 0
    ensures !InRatSpan(NS[t], NS[..t], dim)
  {
    if InRatSpan(NS[t], NS[..t], dim) {
      ReducedDependent(NS, G, sc, dim, t);
    }
  }

  /** The invariant of independent_bounds' outer loop over the working rows s. */
  ghost predicate Outer(ineq: seq<Row>, bounds: seq<Row>, picked: seq<nat>, NS: Mat, s: seq<Row>, n: nat, j: nat,
                        G: Mat, sc: seq<int>, dim: nat)
  {
    && Rows(ineq, 1 + dim)
    && BoundsInv(ineq, bounds, picked, s, n, j, dim)
    && SpanInv(ineq, picked, NS, s, n, j, G, sc, dim)
  }

  /** The first inequality is picked and its normal is the first working row. */
  lemma OuterStart(ineq: seq<Row>, s: seq<Row>, dim: nat)
    requires Rows(ineq, 1 + dim) && |ineq| > 0 && dim > 0
    requires |s| == dim && Rows(s, dim) && s[0] == ineq[0][1..]
    ensures Outer(ineq, [UnitRow(1 + dim, 0), ineq[0]], [0], [ineq[0][1..]], s, 1, 1, [ineq[0][1..]], [1], dim)
  {
    PicksExtend(ineq, [UnitRow(1 + dim, 0)], [], dim, 0);
    assert [UnitRow(1 + dim, 0)] + [ineq[0]] == [UnitRow(1 + dim, 0), ineq[0]];
    SpanInit(ineq, s, dim);
  }

  /** An inequality whose normal reduces to zero is skipped; the zero row is
      left in the working rows past position n. */
  lemma OuterSkip(ineq: seq<Row>, bounds: seq<Row>, picked: seq<nat>, NS: Mat, s: seq<Row>, n: nat, j: nat,
                  G: Mat, sc: seq<int>, dim: nat, a: int)
    requires Outer(ineq, bounds, picked, NS, s, n, j, G, sc, dim) && j < |ineq| && n < dim
    requires Reduces(Zeros(dim), ineq[j][1..], a, s[..n])
    ensures Outer(ineq, bounds, picked, NS, s[n := Zeros(dim)], n, j + 1, G, sc, dim)
  {
    var s' := s[n := Zeros(dim)];
    StoredPast(s, n, Zeros(dim), dim);
    SpanSkip(ineq, picked, NS, s, s', n, j, G, sc, dim, a);
    BoundsSkip(ineq, bounds, picked, s, s', n, j, dim);
  }

  /** An inequality whose normal reduces to a non-zero row t is picked;
      t, stored at position n (giving mid), is moved to position i. */
  lemma OuterTake(ineq: seq<Row>, bounds: seq<Row>, picked: seq<nat>, NS: Mat, s: seq<Row>, n: nat, j: nat,
                  G: Mat, sc: seq<int>, dim: nat, a: int, i: nat, t: Row, s': seq<Row>)
    requires Outer(ineq, bounds, picked, NS, s, n, j, G, sc, dim) && j < |ineq| && n < dim
    requires Reduces(t, ineq[j][1..], a, s[..n]) && FirstNonZero(t) >= 0 && i <= n
    requires forall k :: 0 <= k < i ==> FirstNonZero(s[..n][k]) < FirstNonZero(t)
    requires i < n ==> FirstNonZero(t) < FirstNonZero(s[..n][i])
    requires |s'| == |s| && s'[..n + 1] == s[..i] + [t] + s[i..n] && s'[n + 1..] == s[n + 1..]
    ensures Outer(ineq, bounds + [ineq[j]], picked + [j], NS + [ineq[j][1..]], s', n + 1, j + 1, G + [t], sc + [a], dim)
  {
    InsertedAt(s, s', n, i, t, dim);
    LeadsCarry(s[..n], s, i, t);
    SpanTake(ineq, picked, NS, s, s', n, j, G, sc, dim, a, i, t);
    BoundsTake(ineq, bounds, picked, s, s', n, j, dim, i, t);
  }

  /** Storing a row at position n leaves the rows before n alone. */
  lemma StoredPast(s: seq<Row>, n: nat, r: Row, dim: nat)
    requires n < |s| && Rows(s, dim) && |r| == dim
    ensures |s[n := r]| == |s| && Rows(s[n := r], dim) && s[n := r][..n] == s[..n]
  {
  }

  /** The working rows after storing t at position n (giving mid) and
      moving it to position i. */
  lemma InsertedAt(s: seq<Row>, s': seq<Row>, n: nat, i: nat, t: Row, dim: nat)
    requires n < |s| && i <= n && Rows(s, dim) && |t| == dim && |s'| == |s|
    requires s'[..n + 1] == s[..i] + [t] + s[i..n] && s'[n + 1..] == s[n + 1..]
    ensures Rows(s', dim)
  {
    forall k | 0 <= k < |s'| ensures |s'[k]| == dim {
      if k <= n {
        assert s'[k] == s'[..n + 1][k];
      } else {
        assert s'[k] == s'[n + 1..][k - n - 1] == s[k];
      }
    }
  }

  /** PlaceNormal keeps the outer loop's invariant, whichever way it goes. */
  lemma OuterPlaced(ineq: seq<Row>, bounds: seq<Row>, picked: seq<nat>, NS: Mat, s: seq<Row>, s': seq<Row>, n: nat,
                    j: nat, G: Mat, sc: seq<int>, dim: nat, taken: bool, i: nat, t: Row, a: int)
    requires Outer(ineq, bounds, picked, NS, s, n, j, G, sc, dim) && j < |ineq| && n < dim && |s'| == |s|
    requires |t| == dim && Reduces(t, ineq[j][1..], a, s[..n]) && taken == (FirstNonZero(t) >= 0)
    requires !taken ==> s' == s[n := t]
    requires taken ==>
      && i <= n && s'[..n + 1] == s[..i] + [t] + s[i..n] && s'[n + 1..] == s[n + 1..]
      && (forall k :: 0 <= k < i ==> FirstNonZero(s[..n][k]) < FirstNonZero(t))
      && (i < n ==> FirstNonZero(t) < FirstNonZero(s[..n][i]))
    ensures !taken ==> Outer(ineq, bounds, picked, NS, s', n, j + 1, G, sc, dim)
    ensures taken ==> Outer(ineq, bounds + [ineq[j]], picked + [j], NS + [ineq[j][1..]], s', n + 1, j + 1,
                            G + [t], sc + [a], dim)
  {
    if taken {
      OuterTake(ineq, bounds, picked, NS, s, n, j, G, sc, dim, a, i, t, s');
    } else {
      NoLeadIsZero(t);
      OuterSkip(ineq, bounds, picked, NS, s, n, j, G, sc, dim, a);
    }
  }

  /** The state independent_bounds' outer loop ends in, without the loop
      counters: w is the final working family. */
  ghost predicate Final(ineq: seq<Row>, bounds: seq<Row>, picked: seq<nat>, NS: Mat, G: Mat, sc: seq<int>,
                        w: seq<Row>, dim: nat)
  {
    && Rows(ineq, 1 + dim) && Picks(ineq, bounds, picked, dim) && 0 < |picked| <= dim && picked[0] == 0
    && Normals(ineq, picked, NS, dim) && Reduced(G, NS, sc, dim) && Fresh(G, NS, dim) && SpannedBy(G, NS, dim)
    && |w| == |picked| && multiset(w) == multiset(G) && Rows(w, dim) && Triangular(w)
    && (|picked| < dim ==> Covers(ineq, NS, |ineq|, dim))
  }

  /** When the outer loop stops, either dim rows are placed or every
      inequality has been visited. */
  lemma OuterFinal(ineq: seq<Row>, bounds: seq<Row>, picked: seq<nat>, NS: Mat, s: seq<Row>, n: nat, j: nat,
                   G: Mat, sc: seq<int>, dim: nat, w: seq<Row>)
    requires Outer(ineq, bounds, picked, NS, s, n, j, G, sc, dim) && (n == dim || j == |ineq|) && w == s[..n]
    ensures Final(ineq, bounds, picked, NS, G, sc, w, dim)
  {
    RowsTake(s, n, dim);
  }

  /** What independent_bounds promises: bounds is the unit row followed
      by the picked inequalities, whose normals are independent when the
      first one is non-zero and, unless there are dim of them, have every
      normal as a rational combination; w is triangular, lies in their span
      and spans a multiple of each of them. */
  ghost predicate Promised(ineq: seq<Row>, bounds: seq<Row>, picked: seq<nat>, w: seq<Row>, dim: nat)
  {
    && Rows(ineq, 1 + dim) && 1 <= |bounds| <= 1 + dim && bounds[0] == UnitRow(1 + dim, 0)
    && |picked| == |bounds| - 1 && |picked| > 0 && picked[0] == 0
    && (forall k :: 0 <= k < |picked| ==> picked[k] < |ineq| && bounds[1 + k] == ineq[picked[k]])
    && (forall k, l :: 0 <= k < l < |picked| ==> picked[k] < picked[l])
    && Rows(bounds, 1 + dim) && Rows(bounds[1..], 1 + dim)
    && (FirstNonZero(ineq[0][1..]) >= 0 ==> Independent(LinearPart(bounds[1..], dim), dim))
    && (|picked| < dim ==> forall l :: 0 <= l < |ineq| ==> InRatSpan(ineq[l][1..], LinearPart(bounds[1..], dim), dim))
    && WorkingRows(ineq, bounds, picked, w, dim)
  }

  /** The working rows w left by independent_bounds: one per picked
      inequality, in echelon form with a non-zero lead past the first,
      spanned by the normals of the bounds and spanning, rationally, the
      normal of every picked inequality. */
  ghost predicate WorkingRows(ineq: seq<Row>, bounds: seq<Row>, picked: seq<nat>, w: seq<Row>, dim: nat)
  {
    && Rows(ineq, 1 + dim) && Rows(bounds, 1 + dim) && |bounds| >= 1
    && (forall k :: 0 <= k < |picked| ==> picked[k] < |ineq|)
    && |w| == |picked| && Rows(w, dim) && Triangular(w)
    && (forall k :: 1 <= k < |w| ==> FirstNonZero(w[k]) >= 0)
    && (forall k :: 0 <= k < |w| ==> InSpan(w[k], LinearPart(bounds[1..], dim), dim))
    && (forall k :: 0 <= k < |picked| ==> InRatSpan(ineq[picked[k]][1..], w, dim))
  }

  /** The final state of the outer loop gives what independent_bounds promises. */
  lemma OuterDone(ineq: seq<Row>, bounds: seq<Row>, picked: seq<nat>, NS: Mat, G: Mat, sc: seq<int>,
                  w: seq<Row>, dim: nat)
    requires Final(ineq, bounds, picked, NS, G, sc, w, dim)
    ensures Promised(ineq, bounds, picked, w, dim)
  {
    BoundsRows(ineq, bounds, picked, dim);
    PickedLinearPart(ineq, bounds, picked, NS, dim);
    if FirstNonZero(ineq[0][1..]) >= 0 {
      IndependentNormals(NS, G, sc, dim);
    }
    TriangularTail(w);
    PermutedSpanned(w, G, NS, dim);
    NormalsInWorking(ineq, picked, NS, G, sc, w, dim);
  }

  lemma BoundsRows(ineq: seq<Row>, bounds: seq<Row>, picked: seq<nat>, dim: nat)
    requires Rows(ineq, 1 + dim) && Picks(ineq, bounds, picked, dim)
    ensures Rows(bounds, 1 + dim) && Rows(bounds[1..], 1 + dim)
  {
    forall k | 0 <= k < |bounds| ensures |bounds[k]| == 1 + dim {
      if k > 0 {
        assert bounds[k] == ineq[picked[k - 1]];
      }
    }
  }

  /** The normals of the picked inequalities are the linear parts of the
      rows of bounds after the first. */
  lemma PickedLinearPart(ineq: seq<Row>, bounds: seq<Row>, picked: seq<nat>, NS: Mat, dim: nat)
    requires Picks(ineq, bounds, picked, dim) && Normals(ineq, picked, NS, dim) && Rows(bounds, 1 + dim)
    ensures LinearPart(bounds[1..], dim) == NS
  {
    var L := LinearPart(bounds[1..], dim);
    forall k | 0 <= k < |NS| ensures L[k] == NS[k] {
      assert bounds[1..][k] == bounds[1 + k];
    }
  }

  lemma IndependentNormals(NS: Mat, G: Mat, sc: seq<int>, dim: nat)
    requires Reduced(G, NS, sc, dim) && Fresh(G, NS, dim) && |NS| > 0 && FirstNonZero(NS[0]) >= 0
    ensures Independent(NS, dim)
  {
    NormalsIndependent(NS, G, sc, dim, |NS|);
    assert NS[..|NS|] == NS;
  }

  lemma RowsTake(s: seq<Row>, n: nat, dim: nat)
    requires n <= |s| && Rows(s, dim)
    ensures Rows(s[..n], dim)
  {
  }

  /** A permutation w of rows G that lie in the span of NS lies there too. */
  lemma PermutedSpanned(w: seq<Row>, G: Mat, NS: Mat, dim: nat)
    requires SpannedBy(G, NS, dim) && multiset(w) == multiset(G)
    ensures forall k :: 0 <= k < |w| ==> InSpan(w[k], NS, dim)
  {
    forall k | 0 <= k < |w| ensures InSpan(w[k], NS, dim) {
      assert w[k] in multiset(G);
    }
  }

  /** Every picked normal has a positive multiple that is a combination of
      the working rows w, a permutation of the reduced rows G. */
  lemma NormalsInWorking(ineq: seq<Row>, picked: seq<nat>, NS: Mat, G: Mat, sc: seq<int>, w: seq<Row>, dim: nat)
    requires Normals(ineq, picked, NS, dim) && Reduced(G, NS, sc, dim) && multiset(w) == multiset(G) && Rows(w, dim)
    ensures forall k :: 0 <= k < |picked| ==> InRatSpan(ineq[picked[k]][1..], w, dim)
  {
    NormalsBefore(NS, G, sc, dim, |G|);
    assert G[..|G|] == G;
    forall k | 0 <= k < |picked| ensures InRatSpan(ineq[picked[k]][1..], w, dim) {
      var c :| c > 0 && InSpan(Scale(c, NS[k]), G, dim);
      SpanPermuted(Scale(c, NS[k]), G, w, dim);
    }
  }

  /** One round of independent_bounds' outer loop on the working rows:
      reduce the normal of inequality j against dirs[..n] to t; a zero t is
      left at position n, a non-zero one is inserted at the position i
      where its first non-zero position belongs. */
  method PlaceNormal(dirs: array<Row>, ineq: seq<Row>, n: nat, j: nat, ghost dim: nat)
    returns (taken: bool, i: nat, ghost t: Row, ghost a: int)
    requires dirs.Length == dim && Rows(dirs[..], dim) && Rows(ineq, 1 + dim) && j < |ineq| && n < dim
    modifies dirs
    ensures |t| == dim && Reduces(t, ineq[j][1..], a, old(dirs[..n])) && taken == (FirstNonZero(t) >= 0)
    ensures !taken ==> dirs[..] == old(dirs[..])[n := t]
    ensures taken ==>
      && i <= n && dirs[..n + 1] == old(dirs[..i]) + [t] + old(dirs[i..n]) && dirs[n + 1..] == old(dirs[n + 1..])
      && (forall k :: 0 <= k < i ==> FirstNonZero(old(dirs[..n])[k]) < FirstNonZero(t))
      && (i < n ==> FirstNonZero(t) < FirstNonZero(old(dirs[..n])[i]))
  {
    ghost var before := dirs[..];
    var pos, r;
    pos, i, r, a := ReduceRow(dirs[..n], ineq[j][1..]);
    t := r;
    dirs[n] := r;
    if pos < 0 {
      return false, i, t, a;
    }
    ghost var mid := dirs[..];
    assert mid[..i] == before[..i] && mid[i..n] == before[i..n] && mid[n] == t && mid[n + 1..] == before[n + 1..];
    InsertRow(dirs, n, i, dim);
    taken := true;
  }

  /** Records the outcome of PlaceNormal: a picked inequality is appended
      to bounds and counted in n. */
  method Record(ineq: seq<Row>, n: nat, j: nat, bounds: seq<Row>, ghost picked: seq<nat>, ghost NS: Mat,
                ghost s: seq<Row>, ghost G: Mat, ghost sc: seq<int>, ghost dim: nat, taken: bool, ghost t: Row, ghost a: int)
    returns (n': nat, bounds': seq<Row>, ghost picked': seq<nat>, ghost NS': Mat, ghost G': Mat, ghost sc': seq<int>)
    requires Rows(ineq, 1 + dim) && j < |ineq|
    requires !taken ==> Outer(ineq, bounds, picked, NS, s, n, j + 1, G, sc, dim)
    requires taken ==> Outer(ineq, bounds + [ineq[j]], picked + [j], NS + [ineq[j][1..]], s, n + 1, j + 1,
                             G + [t], sc + [a], dim)
    ensures Outer(ineq, bounds', picked', NS', s, n', j + 1, G', sc', dim)
  {
    if taken {
      return n + 1, bounds + [ineq[j]], picked + [j], NS + [ineq[j][1..]], G + [t], sc + [a];
    }
    return n, bounds, picked, NS, G, sc;
  }

  /** One round of the outer loop, with its outcome recorded. */
  method Step(dirs: array<Row>, ineq: seq<Row>, n: nat, j: nat, bounds: seq<Row>, ghost picked: seq<nat>,
              ghost NS: Mat, ghost G: Mat, ghost sc: seq<int>, ghost dim: nat)
    returns (n': nat, bounds': seq<Row>, ghost picked': seq<nat>, ghost NS': Mat, ghost G': Mat, ghost sc': seq<int>)
    requires dirs.Length == dim && Outer(ineq, bounds, picked, NS, dirs[..], n, j, G, sc, dim) && j < |ineq| && n < dim
    modifies dirs
    ensures Outer(ineq, bounds', picked', NS', dirs[..], n', j + 1, G', sc', dim)
  {
    var taken;
    ghost var t, a;
    ghost var before := dirs[..];
    var i;
    taken, i, t, a := PlaceNormal(dirs, ineq, n, j, dim);
    OuterPlaced(ineq, bounds, picked, NS, before, dirs[..], n, j, G, sc, dim, taken, i, t, a);
    n', bounds', picked', NS', G', sc' := Record(ineq, n, j, bounds, picked, NS, dirs[..], G, sc, dim, taken, t, a);
  }

  /** independent_bounds' outer loop: visit the inequalities from j on
      until dim rows are placed or none are left. */
  method PlaceAll(dirs: array<Row>, ineq: seq<Row>, n0: nat, j0: nat, bounds0: seq<Row>, ghost picked0: seq<nat>,
                  ghost NS0: Mat, ghost G0: Mat, ghost sc0: seq<int>, ghost dim: nat)
    returns (n: nat, j: nat, bounds: seq<Row>, ghost picked: seq<nat>, ghost NS: Mat, ghost G: Mat, ghost sc: seq<int>)
    requires dirs.Length == dim && Outer(ineq, bounds0, picked0, NS0, dirs[..], n0, j0, G0, sc0, dim)
    modifies dirs
    ensures Outer(ineq, bounds, picked, NS, dirs[..], n, j, G, sc, dim) && (n == dim || j == |ineq|)
  {
    n, j, bounds, picked, NS, G, sc := n0, j0, bounds0, picked0, NS0, G0, sc0;
    while n < dirs.Length && j < |ineq|
      invariant Outer(ineq, bounds, picked, NS, dirs[..], n, j, G, sc, dim)
      decreases |ineq| - j
    {
      n, bounds, picked, NS, G, sc := Step(dirs, ineq, n, j, bounds, picked, NS, G, sc, dim);
      j := j + 1;
    }
  }

  /** Returns the matrix of isl_basic_set_skew_to_positive_orthant's bounds:
      the row (1, 0, ..., 0) followed by copies of the selected
      inequalities, together with (as ghost outputs) the indices of the
      selected inequalities and the final working rows.  The first
      inequality is always selected; a later one is selected when its
      normal, reduced against the rows chosen so far, is not zero.  The
      selected normals are linearly independent (when the first is not
      zero), and unless there are dim of them every normal is a rational
      combination of them; the working rows span the same space. */
  method IndependentBounds(dim: nat, ineq: seq<Row>)
    returns (bounds: seq<Row>, ghost picked: seq<nat>, ghost dirsOut: seq<Row>)
    requires Rows(ineq, 1 + dim) && (|ineq| > 0 ==> dim > 0)
    ensures 1 <= |bounds| <= 1 + dim && bounds[0] == UnitRow(1 + dim, 0)
    ensures |picked| == |bounds| - 1
    ensures forall k :: 0 <= k < |picked| ==> picked[k] < |ineq| && bounds[1 + k] == ineq[picked[k]]
    ensures forall k, l :: 0 <= k < l < |picked| ==> picked[k] < picked[l]
    ensures |ineq| > 0 <==> |picked| > 0
    ensures |ineq| > 0 ==> picked[0] == 0
    ensures Rows(bounds, 1 + dim)
    ensures |ineq| > 0 && FirstNonZero(ineq[0][1..]) >= 0 ==> Independent(LinearPart(bounds[1..], dim), dim)
    ensures |picked| < dim ==> forall l :: 0 <= l < |ineq| ==> InRatSpan(ineq[l][1..], LinearPart(bounds[1..], dim), dim)
    ensures WorkingRows(ineq, bounds, picked, dirsOut, dim)
  {
    bounds := [UnitRow(1 + dim, 0)];
    picked := [];
    dirsOut := [];
    if |ineq| == 0 {
      return;
    }
    var dirs := new Row[dim](_ => Zeros(dim));
    dirs[0] := ineq[0][1..];
    bounds := [UnitRow(1 + dim, 0), ineq[0]];
    picked := [0];
    OuterStart(ineq, dirs[..], dim);
    var n, j;
    ghost var NS, G, sc;
    n, j, bounds, picked, NS, G, sc := PlaceAll(dirs, ineq, 1, 1, bounds, picked, [ineq[0][1..]], [ineq[0][1..]], [1], dim);
    dirsOut := dirs[..n];
    OuterFinal(ineq, bounds, picked, NS, dirs[..], n, j, G, sc, dim, dirsOut);
    OuterDone(ineq, bounds, picked, NS, G, sc, dirsOut, dim);
  }

  /** The insertion point found among the working rows ws is the same
      among any rows that start with ws. */
  lemma LeadsCarry(ws: seq<Row>, s: seq<Row>, i: nat, t: Row)
    requires |ws| <= |s| && s[..|ws|] == ws && i <= |ws|
    requires forall k :: 0 <= k < i ==> FirstNonZero(ws[k]) < FirstNonZero(t)
    requires i < |ws| ==> FirstNonZero(t) < FirstNonZero(ws[i])
    ensures forall k :: 0 <= k < i ==> FirstNonZero(s[k]) < FirstNonZero(t)
    ensures i < |ws| ==> FirstNonZero(t) < FirstNonZero(s[i])
  {
    forall k | 0 <= k < |ws| ensures s[k] == ws[k] {
      assert s[..|ws|][k] == s[k];
    }
  }

}
