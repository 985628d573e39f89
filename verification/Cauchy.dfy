/** Cauchy matrices, with entries 1 / (x[i] + y[j]), are invertible at every size. */
module Cauchy {
  import opened GF256
  import opened Primitive
  import opened LinearAlgebra
  import opened GaussJordan

  predicate Distinct(s: vec, n: nat)
  {
    n <= |s| && forall i, j :: 0 <= i < j < n ==> s[i] != s[j]
  }

  /** n row points and n column points, no two of them equal. */
  predicate Points(x: vec, y: vec, n: nat)
  {
    && Distinct(x, n)
    && Distinct(y, n)
    && forall i, j :: 0 <= i < n && 0 <= j < n ==> x[i] != y[j]
  }

  ghost function CauchyRow(p: gf, y: vec, n: nat): (r: vec)
    requires n <= |y|
    ensures |r| == n
  {
    seq(n, j requires 0 <= j < n => Inv(Add(p, y[j])))
  }

  ghost function CauchyMatrix(x: vec, y: vec, n: nat): (m: matrix)
    requires n <= |x| && n <= |y|
    ensures Square(m, n)
  {
    seq(n, i requires 0 <= i < n => CauchyRow(x[i], y, n))
  }

  lemma AddDistinct(a: gf, b: gf)
    requires a != b
    ensures Add(a, b) != 0
  {
    hide Add;
    AddMove(a, b, 0);
    AddZero(b);
  }

  /** 1/a + 1/b = (a + b) / (a b). */
  lemma InvSum(a: gf, b: gf)
    requires a != 0 && b != 0
    ensures Add(Inv(a), Inv(b)) == Mul(Add(a, b), Mul(Inv(a), Inv(b)))
  {
    hide Add, Mul, Inv;
    var s, t := Inv(a), Inv(b);
    DistribLeft(a, b, Mul(s, t));
    MulAssoc(a, s, t);
    MulComm(s, t);
    MulAssoc(b, t, s);
    MulOne(s);
    MulOne(t);
    AddComm(t, s);
  }

  /** (p + y) + (q + y) = p + q. */
  lemma AddShared(p: gf, q: gf, y: gf)
    ensures Add(Add(p, y), Add(q, y)) == Add(p, q)
    ensures Add(Add(y, p), Add(y, q)) == Add(p, q)
  {
    hide Add;
    AddSwap(p, y, q, y);
    AddSwap(y, p, y, q);
    AddZero(y);
    AddZero(Add(p, q));
  }

  /** Terms of the difference of two Cauchy rows. */
  lemma DifferenceTerm(p: gf, q: gf, y: gf, v: gf)
    requires p != y && q != y
    ensures Mul(Add(Inv(Add(p, y)), Inv(Add(q, y))), v) == Mul(Add(p, q), Mul(Inv(Add(p, y)), Mul(Inv(Add(q, y)), v)))
  {
    hide Add, Mul, Inv;
    AddDistinct(p, y);
    AddDistinct(q, y);
    var s, t := Inv(Add(p, y)), Inv(Add(q, y));
    InvSum(Add(p, y), Add(q, y));
    AddShared(p, q, y);
    MulAssoc(Add(p, q), Mul(s, t), v);
    MulAssoc(s, t, v);
  }

  function Ones(n: nat): vec
  {
    seq(n, j => 1)
  }

  /** v divided by the last row's denominators. */
  ghost function Divided(v: vec, q: gf, y: vec, n: nat): (u: vec)
    requires n <= |v| && n <= |y|
    ensures |u| == n
  {
    seq(n, j requires 0 <= j < n => Mul(Inv(Add(q, y[j])), v[j]))
  }

  /** Subtracting the row of q from the row of p divides the unknowns by q's denominators. */
  lemma EliminateRow(p: gf, q: gf, y: vec, v: vec, n: nat)
    requires n <= |y| && n <= |v| && p != q
    requires forall j :: 0 <= j < n ==> p != y[j] && q != y[j]
    requires Dot(CauchyRow(p, y, n), v, n) == 0 && Dot(CauchyRow(q, y, n), v, n) == 0
    ensures Dot(CauchyRow(p, y, n), Divided(v, q, y, n), n) == 0
    ensures Dot(Ones(n), Divided(v, q, y, n), n) == 0
  {
    hide Add, Mul, Inv, Dot;
    var a, b, u := CauchyRow(p, y, n), CauchyRow(q, y, n), Divided(v, q, y, n);
    var r := seq(n, j requires 0 <= j < n => Add(a[j], Mul(1, b[j])));
    forall j | 0 <= j < n
      ensures Mul(r[j], v[j]) == Mul(Add(p, q), Mul(a[j], u[j]))
      ensures Mul(b[j], v[j]) == Mul(1, Mul(Ones(n)[j], u[j]))
    {
      MulOne(b[j]);
      MulOne(u[j]);
      DifferenceTerm(p, q, y[j], v[j]);
    }
    DotRowSum(r, a, 1, b, v, n);
    MulOne(0);
    AddZero(0);
    DotFactor(r, v, Add(p, q), a, u, n);
    AddDistinct(p, q);
    NoZeroDivisors(Add(p, q), Dot(a, u, n));
    DotFactor(b, v, 1, Ones(n), u, n);
    MulOne(Dot(Ones(n), u, n));
  }

  /** u multiplied by the distances of the columns to the last column. */
  function Spread(u: vec, y: vec, q: gf, n: nat): (w: vec)
    requires n <= |u| && n <= |y|
    ensures |w| == n
  {
    seq(n, j requires 0 <= j < n => Mul(Add(y[j], q), u[j]))
  }

  lemma SpreadTerm(p: gf, y: gf, q: gf, u: gf)
    requires p != y && p != q
    ensures Mul(Add(Inv(Add(p, y)), Mul(Inv(Add(p, q)), 1)), u)
         == Mul(Inv(Add(p, q)), Mul(Inv(Add(p, y)), Mul(Add(y, q), u)))
  {
    hide Add, Mul, Inv;
    AddDistinct(p, y);
    AddDistinct(p, q);
    var s, e, d := Inv(Add(p, y)), Inv(Add(p, q)), Add(y, q);
    MulOne(e);
    InvSum(Add(p, y), Add(p, q));
    AddShared(y, q, p);
    MulComm(d, Mul(s, e));
    MulAssoc(Mul(s, e), d, u);
    MulComm(s, e);
    MulAssoc(e, s, Mul(d, u));
  }

  /** The last unknown is the sum of the others, so it can be eliminated too. */
  lemma EliminateColumn(p: gf, y: vec, u: vec, n: nat)
    requires n < |y| && n < |u|
    requires forall j :: 0 <= j <= n ==> p != y[j]
    requires Dot(CauchyRow(p, y, n + 1), u, n + 1) == 0 && Dot(Ones(n + 1), u, n + 1) == 0
    ensures Dot(CauchyRow(p, y, n), Spread(u, y, y[n], n), n) == 0
  {
    hide Add, Mul, Inv;
    var q := y[n];
    var a, w, e := CauchyRow(p, y, n), Spread(u, y, q, n), Inv(Add(p, q));
    var s := seq(n, j requires 0 <= j < n => Add(a[j], Mul(e, Ones(n)[j])));
    assert Dot(CauchyRow(p, y, n + 1), u, n + 1) == Add(Dot(CauchyRow(p, y, n + 1), u, n), Mul(e, u[n]));
    DotCongruent(CauchyRow(p, y, n + 1), a, u, u, n);
    DotCongruent(Ones(n + 1), Ones(n), u, u, n);
    MulOne(u[n]);
    var t := Dot(Ones(n), u, n);
    AddMove(t, u[n], 0);
    AddZero(u[n]);
    assert t == u[n];
    DotRowSum(s, a, e, Ones(n), u, n);
    assert Dot(s, u, n) == 0;
    forall j | 0 <= j < n
      ensures Mul(s[j], u[j]) == Mul(e, Mul(a[j], w[j]))
    {
      SpreadTerm(p, y[j], q, u[j]);
    }
    DotFactor(s, u, e, a, w, n);
    AddDistinct(p, q);
    NoZeroDivisors(e, Dot(a, w, n));
  }

  /** Only the zero vector is sent to zero. */
  lemma {:induction false} CauchyKernel(x: vec, y: vec, v: vec, n: nat)
    requires n <= |v| && Points(x, y, n)
    requires forall i :: 0 <= i < n ==> Dot(CauchyRow(x[i], y, n), v, n) == 0
    ensures forall j :: 0 <= j < n ==> v[j] == 0
    decreases n
  {
    hide Add, Mul, Inv, Dot;
    if n > 0 {
      var m := n - 1;
      var q := x[m];
      var u := Divided(v, q, y, n);
      var w := Spread(u, y, y[m], m);
      forall i | 0 <= i < m
        ensures Dot(CauchyRow(x[i], y, m), w, m) == 0
      {
        EliminateRow(x[i], q, y, v, n);
        EliminateColumn(x[i], y, u, m);
      }
      CauchyKernel(x, y, w, m);
      forall j | 0 <= j < m
        ensures v[j] == 0
      {
        assert w[j] == 0;
        AddDistinct(y[j], y[m]);
        NoZeroDivisors(Add(y[j], y[m]), u[j]);
        AddDistinct(q, y[j]);
        assert u[j] == Mul(Inv(Add(q, y[j])), v[j]);
        NoZeroDivisors(Inv(Add(q, y[j])), v[j]);
      }
      LastUnknown(CauchyRow(q, y, n), v, m);
      AddDistinct(q, y[m]);
      NoZeroDivisors(Inv(Add(q, y[m])), v[m]);
    }
  }

  lemma LastUnknown(r: vec, v: vec, m: nat)
    requires m < |r| && m < |v| && Dot(r, v, m + 1) == 0
    requires forall j :: 0 <= j < m ==> v[j] == 0
    ensures Mul(r[m], v[m]) == 0
  {
    hide Add, Mul;
    DotZero(r, v, m);
    AddZero(Mul(r[m], v[m]));
  }

  lemma CauchyInvertible(x: vec, y: vec, n: nat)
    requires Points(x, y, n) && n <= |x| && n <= |y|
    ensures Invertible(CauchyMatrix(x, y, n), n)
  {
    hide Dot, Inv, Add, Mul, Invertible;
    var m := CauchyMatrix(x, y, n);
    forall v: vec | |v| == n && IsKernelVector(m, v, n)
      ensures false
    {
      forall i | 0 <= i < n
        ensures Dot(CauchyRow(x[i], y, n), v, n) == 0
      {
        assert m[i] == CauchyRow(x[i], y, n) && Zeros(n)[i] == 0;
      }
      CauchyKernel(x, y, v, n);
    }
    SingularOrInvertible(m, n);
  }
}
