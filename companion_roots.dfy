/** The reason the companion matrix is built this way: its eigenvectors of
    the form (1, x, ..., x^(n-1)) are exactly the roots x of w. */
module CompanionRoots {
  import opened Frobenius

  function Pow(x: real, k: nat): (p: real)
  {
    if k == 0 then 1.0 else x * Pow(x, k - 1)
  }

  /** w(x) = coef[0] x^(|coef|-1) + coef[1] x^(|coef|-2) + ... + coef[|coef|-1]. */
  function PolyValue(coef: seq<real>, x: real): (w: real)
  {
    if |coef| == 0 then 0.0 else coef[0] * Pow(x, |coef| - 1) + PolyValue(coef[1..], x)
  }

  /** The vector (1, x, x^2, ..., x^(n-1)). */
  function Powers(x: real, n: nat): (v: seq<real>)
  {
    seq(n, k requires 0 <= k < n => Pow(x, k))
  }

  /** Inner product, summed from the last element backwards. */
  function Dot(a: seq<real>, b: seq<real>): (d: real)
    requires |a| == |b|
  {
    if |a| == 0 then 0.0 else Dot(a[..|a| - 1], b[..|b| - 1]) + a[|a| - 1] * b[|b| - 1]
  }

  function MatVec(m: Matrix, v: seq<real>): (r: seq<real>)
    requires forall i :: 0 <= i < |m| ==> |m[i]| == |v|
  {
    seq(|m|, i requires 0 <= i < |m| => Dot(m[i], v))
  }

  function Scale(c: real, v: seq<real>): (r: seq<real>)
  {
    seq(|v|, k requires 0 <= k < |v| => c * v[k])
  }

  lemma {:induction false} DotZero(row: seq<real>, v: seq<real>)
    requires |row| == |v|
    requires forall q :: 0 <= q < |row| ==> row[q] == 0.0
    ensures Dot(row, v) == 0.0
  {
    if |row| > 0 {
      DotZero(row[..|row| - 1], v[..|v| - 1]);
    }
  }

  /** A row holding a single one, at column k, picks out v[k]. */
  lemma {:induction false} DotUnit(row: seq<real>, v: seq<real>, k: nat)
    requires |row| == |v| && k < |row|
    requires row[k] == 1.0
    requires forall q :: 0 <= q < |row| && q != k ==> row[q] == 0.0
    ensures Dot(row, v) == v[k]
  {
    var last := |row| - 1;
    if k == last {
      DotZero(row[..last], v[..last]);
    } else {
      DotUnit(row[..last], v[..last], k);
    }
  }

  lemma ReversedPrefix(t: seq<real>)
    requires |t| > 0
    ensures Reverse(t)[..|t| - 1] == Reverse(t[1..])
  {
  }

  lemma PowersPrefix(x: real, n: nat)
    requires n > 0
    ensures Powers(x, n)[..n - 1] == Powers(x, n - 1)
  {
  }

  lemma ScalePrefix(c: real, s: seq<real>)
    requires |s| > 0
    ensures Scale(c, s)[..|s| - 1] == Scale(c, s[..|s| - 1])
  {
    var q := s[..|s| - 1];
    var lhs := Scale(c, s)[..|s| - 1];
    var rhs := Scale(c, q);
    assert |lhs| == |rhs|;
    forall k | 0 <= k < |q|
      ensures lhs[k] == rhs[k]
    {
      assert lhs[k] == Scale(c, s)[k] == c * s[k];
      assert rhs[k] == c * q[k];
    }
  }

  /** Read backwards against (1, x, ..., x^(m-1)), a coefficient vector
      listed from the highest power down evaluates its polynomial. */
  lemma {:induction false} DotReversed(t: seq<real>, x: real)
    ensures Dot(Reverse(t), Powers(x, |t|)) == PolyValue(t, x)
  {
    if |t| > 0 {
      var n := |t|;
      ReversedPrefix(t);
      PowersPrefix(x, n);
      DotReversed(t[1..], x);
      assert Reverse(t)[n - 1] == t[0];
    }
  }

  /** Scaling a vector scales its inner products. */
  lemma {:induction false} DotScale(c: real, s: seq<real>, v: seq<real>)
    requires |s| == |v|
    ensures Dot(Scale(c, s), v) == c * Dot(s, v)
  {
    if |s| > 0 {
      var n := |s|;
      ScalePrefix(c, s);
      DotScale(c, s[..n - 1], v[..n - 1]);
      var d := Dot(s[..n - 1], v[..n - 1]);
      assert c * d + (c * s[n - 1]) * v[n - 1] == c * (d + s[n - 1] * v[n - 1]);
    }
  }

  /** With a_n != 0, (-1 / a_n) B == x^n exactly when a_n x^n + B == 0. */
  lemma RootEquation(a: real, b: real, p: real)
    requires a != 0.0
    ensures (-1.0 / a) * b == p <==> a * p + b == 0.0
  {
  }

  /** Every row above the last maps (1, x, ..., x^(n-1)) to x times its own
      entry of that vector: row i picks out x^(i+1). */
  lemma UpperRowsScale(f: Matrix, coef: seq<real>, x: real, i: nat)
    requires !Rejected(coef) && IsCompanion(f, coef) && i < |coef| - 2
    ensures Dot(f[i], Powers(x, |coef| - 1)) == x * Pow(x, i)
  {
    DotUnit(f[i], Powers(x, |coef| - 1), i + 1);
  }

  /** The last row maps (1, x, ..., x^(n-1)) to -(w(x) - a_n x^n) / a_n. */
  lemma LastRowValue(f: Matrix, coef: seq<real>, x: real)
    requires !Rejected(coef) && IsCompanion(f, coef)
    ensures Dot(f[|coef| - 2], Powers(x, |coef| - 1)) == (-1.0 / coef[0]) * PolyValue(coef[1..], x)
  {
    var n := |coef| - 1;
    var tail := Scale(-1.0 / coef[0], Reverse(coef[1..]));
    forall j | 0 <= j < n
      ensures f[n - 1][j] == tail[j]
    {
      assert f[n - 1][j] == -A(coef, j) / A(coef, n);
      assert A(coef, j) == Reverse(coef[1..])[j];
    }
    assert f[n - 1] == tail;
    DotScale(-1.0 / coef[0], Reverse(coef[1..]), Powers(x, n));
    DotReversed(coef[1..], x);
  }

  /** Two sequences that agree everywhere but possibly at the end are equal
      exactly when their last elements are. */
  lemma EqualUpToLast(s: seq<real>, t: seq<real>)
    requires |s| == |t| > 0
    requires forall i :: 0 <= i < |s| - 1 ==> s[i] == t[i]
    ensures s == t <==> s[|s| - 1] == t[|t| - 1]
  {
  }

  /** The rows above the last always agree with x (1, x, ..., x^(n-1)), so
      the eigenvector equation comes down to the last row. */
  lemma EigenvectorAtLastRow(f: Matrix, coef: seq<real>, x: real)
    requires !Rejected(coef) && IsCompanion(f, coef)
    ensures var n := |coef| - 1;
      MatVec(f, Powers(x, n)) == Scale(x, Powers(x, n)) <==> Dot(f[n - 1], Powers(x, n)) == Pow(x, n)
  {
    var n := |coef| - 1;
    var v := Powers(x, n);
    var lhs := MatVec(f, v);
    var rhs := Scale(x, v);
    forall i | 0 <= i < n - 1
      ensures lhs[i] == rhs[i]
    {
      UpperRowsScale(f, coef, x, i);
    }
    assert rhs[n - 1] == Pow(x, n);
    EqualUpToLast(lhs, rhs);
  }

  /** The last row sends (1, x, ..., x^(n-1)) to x^n exactly when x is a
      root of w. */
  lemma LastRowIffRoot(f: Matrix, coef: seq<real>, x: real)
    requires !Rejected(coef) && IsCompanion(f, coef)
    ensures Dot(f[|coef| - 2], Powers(x, |coef| - 1)) == Pow(x, |coef| - 1)
      <==> PolyValue(coef, x) == 0.0
  {
    LastRowValue(f, coef, x);
    RootEquation(coef[0], PolyValue(coef[1..], x), Pow(x, |coef| - 1));
  }

  /** Any matrix with the companion layout of w maps (1, x, ..., x^(n-1)) to
      x times itself if and only if x is a root of w. */
  lemma CompanionEigenvectorIffRoot(f: Matrix, coef: seq<real>, x: real)
    requires !Rejected(coef) && IsCompanion(f, coef)
    ensures var n := |coef| - 1;
      MatVec(f, Powers(x, n)) == Scale(x, Powers(x, n)) <==> PolyValue(coef, x) == 0.0
  {
    EigenvectorAtLastRow(f, coef, x);
    LastRowIffRoot(f, coef, x);
  }

  /** The matrix frob_a builds for an accepted vector of degree n maps
      (1, x, ..., x^(n-1)) to x times itself if and only if x is a root
      of w. */
  lemma EigenvectorIffRoot(coef: seq<real>, x: real)
    requires !Rejected(coef)
    ensures var n := |coef| - 1;
      MatVec(FrobeniusOf(coef).value, Powers(x, n)) == Scale(x, Powers(x, n))
      <==> PolyValue(coef, x) == 0.0
  {
    CompanionEigenvectorIffRoot(FrobeniusOf(coef).value, coef, x);
  }
}
