/** Vectors and matrices over GF(2^8). */
module LinearAlgebra {
  import opened GF256

  type vec = seq<gf>
  type matrix = seq<vec>

  /** The sum of a[i] * w[i] over the first n positions. */
  function Dot(a: vec, w: vec, n: nat): gf
    requires n <= |a| && n <= |w|
  {
    if n == 0 then 0 else Add(Dot(a, w, n - 1), Mul(a[n - 1], w[n - 1]))
  }

  predicate Square(m: matrix, k: nat)
  {
    |m| == k && forall i :: 0 <= i < k ==> |m[i]| == k
  }

  /** y is the product of the k x k matrix m with the vector x. */
  predicate IsProduct(m: matrix, x: vec, y: vec, k: nat)
    requires Square(m, k) && |x| == k && |y| == k
  {
    forall i :: 0 <= i < k ==> y[i] == Dot(m[i], x, k)
  }

  function Unit(k: nat, j: nat): vec
  {
    seq(k, i => if i == j then 1 else 0)
  }

  function Identity(k: nat): matrix
  {
    seq(k, i requires 0 <= i < k => Unit(k, i))
  }

  function Column(m: matrix, k: nat, j: nat): vec
    requires Square(m, k) && j < k
  {
    seq(k, i requires 0 <= i < k => m[i][j])
  }

  function MatMul(a: matrix, b: matrix, k: nat): matrix
    requires Square(a, k) && Square(b, k)
  {
    seq(k, i requires 0 <= i < k => seq(k, j requires 0 <= j < k => Dot(a[i], Column(b, k, j), k)))
  }

  predicate IsInverse(a: matrix, b: matrix, k: nat)
  {
    Square(a, k) && Square(b, k) && MatMul(a, b, k) == Identity(k) && MatMul(b, a, k) == Identity(k)
  }

  ghost predicate Invertible(a: matrix, k: nat)
  {
    exists b: matrix :: IsInverse(a, b, k)
  }

  // ---------- sums of products ----------

  lemma {:induction false} DotCongruent(a: vec, b: vec, w: vec, v: vec, n: nat)
    requires n <= |a| && n <= |b| && n <= |w| && n <= |v|
    requires forall i :: 0 <= i < n ==> a[i] == b[i] && w[i] == v[i]
    ensures Dot(a, w, n) == Dot(b, v, n)
  {
    hide Add, Mul;
    if n > 0 {
      DotCongruent(a, b, w, v, n - 1);
    }
  }

  lemma {:induction false} DotZero(a: vec, w: vec, n: nat)
    requires n <= |a| && n <= |w|
    requires forall i :: 0 <= i < n ==> w[i] == 0
    ensures Dot(a, w, n) == 0
  {
    hide Add, Mul;
    AddZero(0);
    if n > 0 {
      DotZero(a, w, n - 1);
      MulZero(a[n - 1]);
    }
  }

  /** Adding a multiple of one row to another adds that multiple of its product. */
  lemma {:induction false} DotRowSum(r: vec, a: vec, c: gf, b: vec, w: vec, n: nat)
    requires n <= |r| && n <= |a| && n <= |b| && n <= |w|
    requires forall i :: 0 <= i < n ==> r[i] == Add(a[i], Mul(c, b[i]))
    ensures Dot(r, w, n) == Add(Dot(a, w, n), Mul(c, Dot(b, w, n)))
  {
    hide Add, Mul;
    if n == 0 {
      AddZero(0);
      MulZero(c);
    } else {
      var p, q, x := a[n - 1], b[n - 1], w[n - 1];
      DotRowSum(r, a, c, b, w, n - 1);
      DistribLeft(p, Mul(c, q), x);
      MulAssoc(c, q, x);
      DistribRight(c, Dot(b, w, n - 1), Mul(q, x));
      AddSwap(Dot(a, w, n - 1), Mul(c, Dot(b, w, n - 1)), Mul(p, x), Mul(c, Mul(q, x)));
    }
  }

  lemma DotScaled(r: vec, c: gf, b: vec, w: vec, n: nat)
    requires n <= |r| && n <= |b| && n <= |w|
    requires forall i :: 0 <= i < n ==> r[i] == Mul(c, b[i])
    ensures Dot(r, w, n) == Mul(c, Dot(b, w, n))
  {
    hide Add, Mul, Dot;
    var z := seq(n, i => 0);
    forall i | 0 <= i < n
      ensures r[i] == Add(z[i], Mul(c, b[i]))
    {
      AddZero(r[i]);
    }
    DotRowSum(r, z, c, b, w, n);
    DotComm(z, w, n);
    DotZero(w, z, n);
    AddZero(Mul(c, Dot(b, w, n)));
  }

  lemma {:induction false} DotComm(a: vec, w: vec, n: nat)
    requires n <= |a| && n <= |w|
    ensures Dot(a, w, n) == Dot(w, a, n)
  {
    hide Add, Mul;
    if n > 0 {
      DotComm(a, w, n - 1);
      MulComm(a[n - 1], w[n - 1]);
    }
  }

  /** Splitting off position j. */
  lemma {:induction false} DotSplit(a: vec, w: vec, n: nat, j: nat)
    requires n <= |a| && n <= |w| && j < n
    ensures Dot(a, w, n) == Add(Dot(a[j := 0], w, n), Mul(a[j], w[j]))
  {
    hide Add, Mul;
    var p := Mul(a[n - 1], w[n - 1]);
    if j == n - 1 {
      DotCongruent(a, a[j := 0], w, w, n - 1);
      MulZero(w[j]);
      AddZero(Dot(a, w, n - 1));
    } else {
      DotSplit(a, w, n - 1, j);
      var d, q := Dot(a[j := 0], w, n - 1), Mul(a[j], w[j]);
      AddAssoc(d, q, p);
      AddComm(q, p);
      AddAssoc(d, p, q);
    }
  }

  /** Sums whose terms differ by a common factor differ by that factor. */
  lemma {:induction false} DotFactor(a: vec, v: vec, d: gf, b: vec, u: vec, n: nat)
    requires n <= |a| && n <= |v| && n <= |b| && n <= |u|
    requires forall i :: 0 <= i < n ==> Mul(a[i], v[i]) == Mul(d, Mul(b[i], u[i]))
    ensures Dot(a, v, n) == Mul(d, Dot(b, u, n))
  {
    hide Add, Mul;
    if n == 0 {
      MulZero(d);
    } else {
      DotFactor(a, v, d, b, u, n - 1);
      DistribRight(d, Dot(b, u, n - 1), Mul(b[n - 1], u[n - 1]));
    }
  }

  lemma DotUnit(a: vec, k: nat, j: nat)
    requires |a| == k && j < k
    ensures Dot(a, Unit(k, j), k) == a[j]
  {
    hide Add, Mul, Dot;
    DotComm(a, Unit(k, j), k);
    DotSplit(Unit(k, j), a, k, j);
    DotComm(Unit(k, j)[j := 0], a, k);
    DotZero(a, Unit(k, j)[j := 0], k);
    MulOne(a[j]);
    AddZero(a[j]);
  }

  /** Position j of the first factor does not matter where the second is zero. */
  lemma DotIgnore(a: vec, w: vec, n: nat, j: nat, u: gf, v: gf)
    requires n <= |a| && n <= |w| && j < n
    ensures Dot(a[j := 0], w[j := u], n) == Dot(a[j := 0], w[j := v], n)
  {
    hide Add, Mul, Dot;
    var b := a[j := 0];
    DotComm(b, w[j := u], n);
    DotComm(b, w[j := v], n);
    DotSplit(w[j := u], b, n, j);
    DotSplit(w[j := v], b, n, j);
    assert w[j := u][j := 0] == w[j := v][j := 0];
    MulZero(u);
    MulZero(v);
  }

  /** Exchanging two positions of both factors changes nothing. */
  lemma DotExchange(a: vec, w: vec, k: nat, p: nat, q: nat)
    requires |a| == k && |w| == k && p < k && q < k
    ensures Dot(a[p := a[q]][q := a[p]], w[p := w[q]][q := w[p]], k) == Dot(a, w, k)
  {
    hide Add, Mul, Dot;
    if p == q {
      assert a[p := a[q]][q := a[p]] == a && w[p := w[q]][q := w[p]] == w;
    } else {
      var b, v := a[p := a[q]][q := a[p]], w[p := w[q]][q := w[p]];
      var x, y := Mul(a[p], w[p]), Mul(a[q], w[q]);
      DotSplit(a, w, k, p);
      DotSplit(a[p := 0], w, k, q);
      DotSplit(b, v, k, p);
      DotSplit(b[p := 0], v, k, q);
      var z := a[p := 0][q := 0];
      assert b[p := 0][q := 0] == z;
      DotIgnore(a[q := 0], w, k, p, w[p], w[q]);
      DotIgnore(z, w[p := w[q]], k, q, w[q], w[p]);
      assert w[p := w[p]] == w && w[p := w[q]][q := w[q]] == w[p := w[q]];
      assert a[q := 0][p := 0] == z && z[q := 0] == z;
      AddAssoc(Dot(z, w, k), y, x);
      AddComm(x, y);
      AddAssoc(Dot(z, w, k), x, y);
    }
  }

  // ---------- inverse matrices ----------

  /** The vector b times the first n rows of m. */
  function RowCombination(b: vec, m: matrix, k: nat, n: nat): (r: vec)
    requires Square(m, k) && |b| == k && n <= k
    ensures |r| == k
  {
    seq(k, j requires 0 <= j < k => Dot(b, Column(m, k, j), n))
  }

  lemma {:induction false} DotAssoc(b: vec, m: matrix, x: vec, y: vec, k: nat, n: nat)
    requires Square(m, k) && |b| == k && |x| == k && |y| == k && n <= k
    requires IsProduct(m, x, y, k)
    ensures Dot(b, y, n) == Dot(RowCombination(b, m, k, n), x, k)
  {
    hide Add, Mul;
    if n == 0 {
      DotComm(RowCombination(b, m, k, 0), x, k);
      DotZero(x, RowCombination(b, m, k, 0), k);
    } else {
      DotAssoc(b, m, x, y, k, n - 1);
      DotRowSum(RowCombination(b, m, k, n), RowCombination(b, m, k, n - 1), b[n - 1], m[n - 1], x, k);
    }
  }

  /** Multiplying by an inverse undoes multiplying by the matrix, for every vector. */
  lemma InverseSolves(a: matrix, b: matrix, x: vec, y: vec, k: nat)
    requires IsInverse(a, b, k) && |x| == k && |y| == k
    ensures IsProduct(a, x, y, k) <==> IsProduct(b, y, x, k)
  {
    if IsProduct(a, x, y, k) {
      LeftInverseSolves(a, b, x, y, k);
    }
    if IsProduct(b, y, x, k) {
      LeftInverseSolves(b, a, y, x, k);
    }
  }

  lemma LeftInverseSolves(a: matrix, b: matrix, x: vec, y: vec, k: nat)
    requires Square(a, k) && Square(b, k) && MatMul(b, a, k) == Identity(k)
    requires |x| == k && |y| == k && IsProduct(a, x, y, k)
    ensures IsProduct(b, y, x, k)
  {
    hide Add, Mul, Dot;
    forall i | 0 <= i < k
      ensures x[i] == Dot(b[i], y, k)
    {
      DotAssoc(b[i], a, x, y, k, k);
      assert RowCombination(b[i], a, k, k) == MatMul(b, a, k)[i] == Identity(k)[i] == Unit(k, i);
      DotComm(Unit(k, i), x, k);
      DotUnit(x, k, i);
    }
  }

  /** A matrix that undoes another on every vector is its left inverse. */
  lemma SolvesLeftInverse(a: matrix, b: matrix, k: nat)
    requires Square(a, k) && Square(b, k)
    requires forall x: vec, y: vec :: |x| == k && |y| == k && IsProduct(a, x, y, k) ==> IsProduct(b, y, x, k)
    ensures MatMul(b, a, k) == Identity(k)
  {
    hide Add, Mul, Dot;
    forall i, j | 0 <= i < k && 0 <= j < k
      ensures MatMul(b, a, k)[i][j] == Identity(k)[i][j]
    {
      forall l | 0 <= l < k
        ensures Column(a, k, j)[l] == Dot(a[l], Unit(k, j), k)
      {
        DotUnit(a[l], k, j);
      }
      assert IsProduct(a, Unit(k, j), Column(a, k, j), k);
    }
    forall i | 0 <= i < k
      ensures MatMul(b, a, k)[i] == Identity(k)[i]
    {
    }
  }
}
