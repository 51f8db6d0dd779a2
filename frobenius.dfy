/** The companion (Frobenius) matrix built from the coefficients of a
    polynomial w(x) = a_n x^n + a_(n-1) x^(n-1) + ... + a_1 x + a_0.
    The coefficient vector lists the highest power first: coef[0] is a_n
    and coef[n] is a_0, so a_k == coef[n - k]. */
module Frobenius {

  /** Stands for Python's None (rejected input) or a built matrix. */
  datatype Option<+T> = None | Some(value: T)

  /** A matrix as a sequence of rows. */
  type Matrix = seq<seq<real>>

  /** The coefficient a_k, for a vector listed from the highest power down. */
  function A(coef: seq<real>, k: nat): (a: real)
    requires k < |coef|
  {
    coef[|coef| - 1 - k]
  }

  predicate IsSquare(m: Matrix, n: nat)
  {
    |m| == n && forall i :: 0 <= i < n ==> |m[i]| == n
  }

  /** The input is rejected when it has fewer than two coefficients or its
      leading coefficient is zero. */
  predicate Rejected(coef: seq<real>)
  {
    |coef| < 2 || coef[0] == 0.0
  }

  /** The layout the companion matrix of w must have, for n = |coef| - 1:
      ones on the super-diagonal, zeros elsewhere above the last row, and
      -a_j / a_n in column j of the last row, so that the last row reads
      -a_0 / a_n, -a_1 / a_n, ..., -a_(n-1) / a_n. */
  ghost predicate IsCompanion(m: Matrix, coef: seq<real>)
    requires !Rejected(coef)
  {
    var n := |coef| - 1;
    && IsSquare(m, n)
    && (forall i :: 0 <= i < n - 1 ==> m[i][i + 1] == 1.0)
    && (forall i, j :: 0 <= i < n - 1 && 0 <= j < n && j != i + 1 ==> m[i][j] == 0.0)
    && (forall j :: 0 <= j < n ==> m[n - 1][j] == -A(coef, j) / A(coef, n))
  }

  /** An n-by-n matrix of zeros. */
  function Zeros(n: nat): (m: Matrix)
  {
    seq(n, _ => seq(n, _ => 0.0))
  }

  /** Sets entry (i, i + 1) to one for every row i but the last. */
  function WithSuperDiagonal(m: Matrix): (r: Matrix)
    requires IsSquare(m, |m|)
  {
    seq(|m|, i requires 0 <= i < |m| => if i + 1 < |m| then m[i][i + 1 := 1.0] else m[i])
  }

  /** The sequence read backwards. */
  function Reverse(s: seq<real>): (r: seq<real>)
  {
    seq(|s|, k requires 0 <= k < |s| => s[|s| - 1 - k])
  }

  /** Every element negated and divided by a. */
  function NegDiv(s: seq<real>, a: real): (r: seq<real>)
    requires a != 0.0
  {
    seq(|s|, k requires 0 <= k < |s| => -s[k] / a)
  }

  /** The matrix frob_a returns, step by step: zeros, ones above the
      diagonal when n > 1, then the last row replaced by the tail of the
      coefficients, negated, divided by a_n and reversed.  The contract
      says the result is None exactly for rejected input and otherwise has
      the documented companion layout. */
  function FrobeniusOf(coef: seq<real>): (r: Option<Matrix>)
    ensures r.None? <==> Rejected(coef)
    ensures r.Some? ==> IsCompanion(r.value, coef)
  {
    if |coef| < 2 then None
    else
      var a_n := coef[0];
      if a_n == 0.0 then None
      else
        var n := |coef| - 1;
        var zeros := Zeros(n);
        var f := if n > 1 then WithSuperDiagonal(zeros) else zeros;
        var lastRow := NegDiv(coef[1..], a_n);
        Some(f[n - 1 := Reverse(lastRow)])
  }

  /** frob_a: returns None for a rejected vector, otherwise a freshly
      allocated n-by-n array holding exactly the entries of FrobeniusOf. */
  method FrobA(coef: seq<real>) returns (r: Option<array2<real>>)
    ensures r.None? <==> Rejected(coef)
    ensures r.Some? ==> fresh(r.value)
    ensures r.Some? ==> r.value.Length0 == |coef| - 1 && r.value.Length1 == |coef| - 1
    ensures r.Some? ==> forall i, j :: 0 <= i < r.value.Length0 && 0 <= j < r.value.Length1 ==>
      r.value[i, j] == FrobeniusOf(coef).value[i][j]
  {
    if |coef| < 2 {
      return None;
    }
    var a_n := coef[0];
    if a_n == 0.0 {
      return None;
    }
    var n := |coef| - 1;
    var f := new real[n, n]((i, j) => 0.0);
    // ones above the diagonal
    if n > 1 {
      var i := 0;
      while i < n - 1
        invariant 0 <= i <= n - 1
        invariant forall p, q :: 0 <= p < n && 0 <= q < n ==>
          f[p, q] == (if p < i && q == p + 1 then 1.0 else 0.0)
      {
        f[i, i + 1] := 1.0;
        i := i + 1;
      }
    }
    // the last row is the negated, scaled tail, reversed
    var lastRow := NegDiv(coef[1..], a_n);
    var last := n - 1;
    var j := 0;
    while j < n
      invariant 0 <= j <= n
      invariant forall p, q :: 0 <= p < last && 0 <= q < n ==>
        f[p, q] == (if q == p + 1 then 1.0 else 0.0)
      invariant forall q :: 0 <= q < j ==> f[last, q] == lastRow[last - q]
    {
      f[last, j] := lastRow[last - j];
      j := j + 1;
    }
    return Some(f);
  }

  /** The layout fixes every entry: two matrices with the companion layout
      of the same coefficients are equal. */
  lemma CompanionUnique(m1: Matrix, m2: Matrix, coef: seq<real>)
    requires !Rejected(coef) && IsCompanion(m1, coef) && IsCompanion(m2, coef)
    ensures m1 == m2
  {
    var n := |coef| - 1;
    forall i | 0 <= i < n
      ensures m1[i] == m2[i]
    {
      forall j | 0 <= j < n
        ensures m1[i][j] == m2[i][j]
      {
        if i < n - 1 && j == i + 1 {
          assert m1[i][j] == 1.0 == m2[i][j];
        } else if i < n - 1 {
          assert m1[i][j] == 0.0 == m2[i][j];
        } else {
          assert m1[i][j] == -A(coef, j) / A(coef, n) == m2[i][j];
        }
      }
    }
  }

  /** With two coefficients there is no super-diagonal: the result is the
      1-by-1 matrix [[-a_0 / a_1]]. */
  lemma LinearCase(a: real, b: real)
    requires a != 0.0
    ensures FrobeniusOf([a, b]) == Some([[-b / a]])
  {
    var m := FrobeniusOf([a, b]).value;
    assert m[0][0] == -b / a;
    assert m[0] == [-b / a];
    assert m == [[-b / a]];
  }

  /** [2, -4] gives [[2]]. */
  lemma Degree1Example()
    ensures FrobeniusOf([2.0, -4.0]) == Some([[2.0]])
  {
    LinearCase(2.0, -4.0);
  }

  /** [1, -3, 2], that is x^2 - 3x + 2, gives [[0, 1], [-2, 3]]. */
  lemma Degree2Example()
    ensures FrobeniusOf([1.0, -3.0, 2.0]) == Some([[0.0, 1.0], [-2.0, 3.0]])
  {
    var m := FrobeniusOf([1.0, -3.0, 2.0]).value;
    assert m[0][0] == 0.0 && m[0][1] == 1.0;
    assert m[1][0] == -2.0 && m[1][1] == 3.0;
    assert m[0] == [0.0, 1.0];
    assert m[1] == [-2.0, 3.0];
    assert m == [[0.0, 1.0], [-2.0, 3.0]];
  }
}
