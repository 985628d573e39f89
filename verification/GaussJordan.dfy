/** In-place Gauss-Jordan elimination seen as a sequence of exchanges.

    The k x k working matrix is a tableau for the equation y = A x. Row i stands for x[i] once
    i has been a pivot and for y[perm[i]] before; column j stands for y[perm[j]] once j has been
    a pivot and for x[j] before. Every step keeps the set of pairs (x, y) that solve it. */
module GaussJordan {
  import opened GF256
  import opened Primitive
  import opened LinearAlgebra

  datatype Tableau = Tableau(rows: matrix, used: seq<bool>, perm: seq<nat>)

  predicate Valid(t: Tableau, k: nat)
  {
    && Square(t.rows, k)
    && |t.used| == k
    && |t.perm| == k
    && forall i :: 0 <= i < k ==> t.perm[i] < k
  }

  /** What the columns stand for. */
  function Inputs(t: Tableau, x: vec, y: vec, k: nat): vec
    requires Valid(t, k) && |x| == k && |y| == k
  {
    seq(k, j requires 0 <= j < k => if t.used[j] then y[t.perm[j]] else x[j])
  }

  /** What the rows stand for. */
  function Outputs(t: Tableau, x: vec, y: vec, k: nat): vec
    requires Valid(t, k) && |x| == k && |y| == k
  {
    seq(k, i requires 0 <= i < k => if t.used[i] then x[i] else y[t.perm[i]])
  }

  predicate Solves(t: Tableau, x: vec, y: vec, k: nat)
    requires Valid(t, k) && |x| == k && |y| == k
  {
    IsProduct(t.rows, Inputs(t, x, y, k), Outputs(t, x, y, k), k)
  }

  /** The tableau and the matrix have the same solutions. */
  ghost predicate Represents(t: Tableau, a: matrix, k: nat)
  {
    && Valid(t, k)
    && Square(a, k)
    && forall x: vec, y: vec :: |x| == k && |y| == k ==> (Solves(t, x, y, k) <==> IsProduct(a, x, y, k))
  }

  function Start(a: matrix, k: nat): Tableau
  {
    Tableau(a, seq(k, i => false), seq(k, i => i))
  }

  lemma StartRepresents(a: matrix, k: nat)
    requires Square(a, k)
    ensures Represents(Start(a, k), a, k)
  {
    hide Dot;
    var t := Start(a, k);
    forall x: vec, y: vec | |x| == k && |y| == k
      ensures Solves(t, x, y, k) <==> IsProduct(a, x, y, k)
    {
      assert Inputs(t, x, y, k) == x;
      assert Outputs(t, x, y, k) == y;
    }
  }

  // ---------- exchanging two rows ----------

  function Swapped<T>(s: seq<T>, p: nat, q: nat): seq<T>
    requires p < |s| && q < |s|
  {
    s[p := s[q]][q := s[p]]
  }

  function SwapRows(t: Tableau, k: nat, p: nat, q: nat): Tableau
    requires Valid(t, k) && p < k && q < k
  {
    t.(rows := Swapped(t.rows, p, q), perm := Swapped(t.perm, p, q))
  }

  lemma SwapRowsRepresents(t: Tableau, a: matrix, k: nat, p: nat, q: nat)
    requires Represents(t, a, k) && p < k && q < k
    requires !t.used[p] && !t.used[q]
    ensures Represents(SwapRows(t, k, p, q), a, k)
  {
    hide Dot;
    var u := SwapRows(t, k, p, q);
    forall x: vec, y: vec | |x| == k && |y| == k
      ensures Solves(u, x, y, k) <==> Solves(t, x, y, k)
    {
      var w := Inputs(t, x, y, k);
      assert Inputs(u, x, y, k) == w;
      var z, z' := Outputs(t, x, y, k), Outputs(u, x, y, k);
      assert z'[p] == z[q] && z'[q] == z[p];
      assert forall i :: 0 <= i < k && i != p && i != q ==> z'[i] == z[i];
    }
  }

  // ---------- one pivot ----------

  /** The pivot row after scaling: its pivot entry becomes the inverse of the pivot. */
  ghost function ScaledRow(r: vec, k: nat, c: nat): (p: vec)
    requires |r| == k && c < k
    ensures |p| == k
  {
    seq(k, j requires 0 <= j < k => Mul(Inv(r[c]), if j == c then 1 else r[j]))
  }

  /** Another row after removing its multiple of the scaled pivot row. */
  function ReducedRow(r: vec, pivotRow: vec, k: nat, c: nat): (p: vec)
    requires |r| == k && |pivotRow| == k && c < k
    ensures |p| == k
  {
    seq(k, j requires 0 <= j < k => Add(if j == c then 0 else r[j], Mul(r[c], pivotRow[j])))
  }

  ghost function Pivoted(t: Tableau, k: nat, c: nat): Tableau
    requires Valid(t, k) && c < k
  {
    var p := ScaledRow(t.rows[c], k, c);
    t.(rows := seq(k, i requires 0 <= i < k => if i == c then p else ReducedRow(t.rows[i], p, k, c)),
       used := t.used[c := true])
  }

  /** Row c before: y = d + r x. Row c after: x = d / r + y / r. */
  lemma PivotEquation(r: gf, d: gf, x: gf, y: gf)
    requires r != 0
    ensures y == Add(d, Mul(r, x)) <==> x == Add(Mul(Inv(r), d), Mul(Inv(r), y))
  {
    hide Mul, Add, Inv;
    var s := Inv(r);
    DistribRight(s, d, y);
    AddMove(d, Mul(r, x), y);
    MulOne(x);
    MulComm(r, s);
    MulAssoc(s, r, x);
    MulAssoc(r, s, Add(d, y));
    MulOne(Add(d, y));
  }

  lemma PivotRow(r: vec, w: vec, k: nat, c: nat, x: gf, y: gf)
    requires |r| == k && |w| == k && c < k && r[c] != 0 && w[c] == x
    ensures y == Dot(r, w, k) <==> x == Dot(ScaledRow(r, k, c), w[c := y], k)
  {
    hide Mul, Add, Inv, Dot;
    var p, s, v := ScaledRow(r, k, c), Inv(r[c]), w[c := y];
    DotSplit(r, w, k, c);
    DotSplit(p, v, k, c);
    MulOne(s);
    MulZero(s);
    DotScaled(p[c := 0], s, r[c := 0], v, k);
    DotIgnore(r, w, k, c, x, y);
    assert w[c := x] == w;
    PivotEquation(r[c], Dot(r[c := 0], w, k), x, y);
  }

  lemma OtherRow(r: vec, p: vec, w: vec, k: nat, c: nat, x: gf, y: gf)
    requires |r| == k && |p| == k && |w| == k && c < k && w[c] == x
    requires x == Dot(p, w[c := y], k)
    ensures Dot(r, w, k) == Dot(ReducedRow(r, p, k, c), w[c := y], k)
  {
    hide Mul, Add, Dot;
    var v := w[c := y];
    DotSplit(r, w, k, c);
    DotRowSum(ReducedRow(r, p, k, c), r[c := 0], r[c], p, v, k);
    DotIgnore(r, w, k, c, x, y);
    assert w[c := x] == w;
  }

  lemma PivotSolutions(t: Tableau, k: nat, c: nat, x: vec, y: vec)
    requires Valid(t, k) && c < k && !t.used[c] && t.rows[c][c] != 0
    requires |x| == k && |y| == k
    ensures Solves(Pivoted(t, k, c), x, y, k) <==> Solves(t, x, y, k)
  {
    hide Mul, Add, Dot, ScaledRow, ReducedRow;
    var u := Pivoted(t, k, c);
    var p := ScaledRow(t.rows[c], k, c);
    var w, z := Inputs(t, x, y, k), Outputs(t, x, y, k);
    var xc, yc := x[c], y[t.perm[c]];
    var w', z' := w[c := yc], z[c := xc];
    assert Inputs(u, x, y, k) == w';
    assert Outputs(u, x, y, k) == z';
    assert u.rows[c] == p;
    PivotRow(t.rows[c], w, k, c, xc, yc);
    if xc == Dot(p, w', k) {
      forall i | 0 <= i < k
        ensures z[i] == Dot(t.rows[i], w, k) <==> z'[i] == Dot(u.rows[i], w', k)
      {
        if i != c {
          OtherRow(t.rows[i], p, w, k, c, xc, yc);
        }
      }
    }
  }

  lemma PivotRepresents(t: Tableau, a: matrix, k: nat, c: nat)
    requires Represents(t, a, k) && c < k && !t.used[c] && t.rows[c][c] != 0
    ensures Represents(Pivoted(t, k, c), a, k)
  {
    hide Solves, IsProduct, ScaledRow, ReducedRow;
    assert Valid(Pivoted(t, k, c), k);
    forall x: vec, y: vec | |x| == k && |y| == k
      ensures Solves(Pivoted(t, k, c), x, y, k) <==> IsProduct(a, x, y, k)
    {
      PivotSolutions(t, k, c, x, y);
    }
  }

  // ---------- no pivot left ----------

  predicate Unused(t: Tableau, k: nat, i: nat)
    requires Valid(t, k)
  {
    i < k && !t.used[i]
  }

  /** Row and column u are unused and every unused row is zero in every unused column. */
  ghost predicate Stuck(t: Tableau, k: nat, u: nat)
    requires Valid(t, k)
  {
    Unused(t, k, u) && forall i: nat, j: nat :: Unused(t, k, i) && Unused(t, k, j) ==> t.rows[i][j] == 0
  }

  /** A non-zero vector that a stuck tableau sends to zero. */
  function KernelVector(t: Tableau, k: nat, u: nat): vec
    requires Valid(t, k) && u < k
  {
    seq(k, j requires 0 <= j < k => if t.used[j] then t.rows[j][u] else if j == u then 1 else 0)
  }

  /** Some non-zero vector is sent to zero. */
  ghost predicate Singular(a: matrix, k: nat)
  {
    Square(a, k) && exists x: vec :: |x| == k && IsKernelVector(a, x, k)
  }

  predicate IsKernelVector(a: matrix, x: vec, k: nat)
    requires Square(a, k) && |x| == k
  {
    IsProduct(a, x, Zeros(k), k) && exists i :: 0 <= i < k && x[i] != 0
  }

  function Zeros(k: nat): vec
  {
    seq(k, i => 0)
  }

  lemma StuckSingular(t: Tableau, a: matrix, k: nat, u: nat)
    requires Represents(t, a, k) && Stuck(t, k, u)
    ensures Singular(a, k)
  {
    hide Dot, Add, Mul;
    var x, y := KernelVector(t, k, u), Zeros(k);
    assert Inputs(t, x, y, k) == Unit(k, u);
    var z := Outputs(t, x, y, k);
    forall i | 0 <= i < k
      ensures z[i] == Dot(t.rows[i], Unit(k, u), k)
    {
      DotUnit(t.rows[i], k, u);
      assert !t.used[i] ==> Unused(t, k, i);
    }
    assert Solves(t, x, y, k);
    assert x[u] == 1;
  }

  lemma SingularNotInvertible(a: matrix, k: nat)
    requires Singular(a, k)
    ensures !Invertible(a, k)
  {
    hide Dot, Add, Mul;
    var x: vec :| |x| == k && IsKernelVector(a, x, k);
    forall b: matrix | IsInverse(a, b, k)
      ensures false
    {
      InverseSolves(a, b, x, Zeros(k), k);
      var i :| 0 <= i < k && x[i] != 0;
      DotZero(b[i], Zeros(k), k);
    }
  }

  // ---------- all pivots used ----------

  predicate Complete(t: Tableau, k: nat)
    requires Valid(t, k)
  {
    forall i :: 0 <= i < k ==> t.used[i]
  }

  function SwapColumns(t: Tableau, k: nat, p: nat, q: nat): Tableau
    requires Valid(t, k) && p < k && q < k
  {
    t.(rows := seq(k, i requires 0 <= i < k => Swapped(t.rows[i], p, q)), perm := Swapped(t.perm, p, q))
  }

  lemma SwapColumnsRepresents(t: Tableau, a: matrix, k: nat, p: nat, q: nat)
    requires Represents(t, a, k) && Complete(t, k) && p < k && q < k
    ensures Represents(SwapColumns(t, k, p, q), a, k)
  {
    hide Dot;
    var u := SwapColumns(t, k, p, q);
    forall x: vec, y: vec | |x| == k && |y| == k
      ensures Solves(u, x, y, k) <==> Solves(t, x, y, k)
    {
      var w := Inputs(t, x, y, k);
      assert Inputs(u, x, y, k) == w[p := w[q]][q := w[p]];
      assert Outputs(u, x, y, k) == Outputs(t, x, y, k);
      forall i | 0 <= i < k
        ensures Dot(u.rows[i], Inputs(u, x, y, k), k) == Dot(t.rows[i], w, k)
      {
        DotExchange(t.rows[i], w, k, p, q);
      }
    }
  }

  lemma CompleteInverse(t: Tableau, a: matrix, k: nat)
    requires Represents(t, a, k) && Complete(t, k)
    requires forall i :: 0 <= i < k ==> t.perm[i] == i
    ensures IsInverse(a, t.rows, k)
  {
    hide Dot, MatMul;
    forall x: vec, y: vec | |x| == k && |y| == k
      ensures IsProduct(t.rows, y, x, k) <==> IsProduct(a, x, y, k)
    {
      assert Inputs(t, x, y, k) == y;
      assert Outputs(t, x, y, k) == x;
      assert Solves(t, x, y, k) <==> IsProduct(t.rows, y, x, k);
    }
    SolvesLeftInverse(a, t.rows, k);
    SolvesLeftInverse(t.rows, a, k);
  }

  // ---------- counting pivots and recording exchanges ----------

  function CountUsed(used: seq<bool>): nat
  {
    if used == [] then 0 else CountUsed(used[..|used| - 1]) + if used[|used| - 1] then 1 else 0
  }

  lemma {:induction false} CountNone(k: nat)
    ensures CountUsed(seq(k, i => false)) == 0
  {
    if k > 0 {
      CountNone(k - 1);
      assert seq(k, i => false)[..k - 1] == seq(k - 1, i => false);
    }
  }

  lemma {:induction false} CountMore(used: seq<bool>, c: nat)
    requires c < |used| && !used[c]
    ensures CountUsed(used[c := true]) == CountUsed(used) + 1
  {
    var n := |used| - 1;
    if c == n {
      assert used[c := true][..n] == used[..n];
    } else {
      CountMore(used[..n], c);
      assert used[c := true][..n] == used[..n][c := true];
    }
  }

  lemma {:induction false} CountBound(used: seq<bool>)
    ensures CountUsed(used) <= |used|
    ensures CountUsed(used) == |used| <==> forall i :: 0 <= i < |used| ==> used[i]
  {
    if used != [] {
      CountBound(used[..|used| - 1]);
      assert forall i :: 0 <= i < |used| - 1 ==> used[i] == used[..|used| - 1][i];
    }
  }

  /** The row order that the first n recorded exchanges lead to. */
  ghost function OrderAfter(r: seq<int>, c: seq<int>, k: nat, n: nat): (o: seq<nat>)
    requires n <= |r| && n <= |c|
    requires forall i :: 0 <= i < n ==> 0 <= r[i] < k && 0 <= c[i] < k
    ensures |o| == k
  {
    if n == 0 then seq(k, i => i) else Swapped(OrderAfter(r, c, k, n - 1), r[n - 1], c[n - 1])
  }

  ghost predicate InRange(r: seq<int>, k: nat, n: nat)
  {
    n <= |r| && forall i :: 0 <= i < n ==> 0 <= r[i] < k
  }

  lemma {:induction false} OrderKept(r: seq<int>, c: seq<int>, r': seq<int>, c': seq<int>, k: nat, n: nat)
    requires InRange(r, k, n) && InRange(c, k, n) && n <= |r'| && n <= |c'|
    requires r'[..n] == r[..n] && c'[..n] == c[..n]
    ensures InRange(r', k, n) && InRange(c', k, n)
    ensures OrderAfter(r', c', k, n) == OrderAfter(r, c, k, n)
  {
    forall i | 0 <= i < n
      ensures r'[i] == r[i] && c'[i] == c[i]
    {
      assert r'[i] == r'[..n][i] && c'[i] == c'[..n][i];
    }
    if n > 0 {
      assert r'[..n - 1] == r[..n - 1] && c'[..n - 1] == c[..n - 1];
      OrderKept(r, c, r', c', k, n - 1);
    }
  }

  lemma OrderStart(k: nat)
    ensures forall r: seq<int>, c: seq<int> :: OrderAfter(r, c, k, 0) == seq(k, i => i)
  {
  }

  lemma OrderNext(r: seq<int>, c: seq<int>, k: nat, n: nat)
    requires n < |r| && n < |c| && InRange(r, k, n + 1) && InRange(c, k, n + 1)
    ensures OrderAfter(r, c, k, n + 1) == Swapped(OrderAfter(r, c, k, n), r[n], c[n])
  {
  }

  lemma SwapSame<T>(s: seq<T>, p: nat)
    requires p < |s|
    ensures Swapped(s, p, p) == s
  {
  }

  // ---------- every matrix is singular or invertible ----------

  /** Elimination carried on from any reachable tableau ends in one of the two ways. */
  lemma {:induction false} EliminationEnds(t: Tableau, a: matrix, k: nat, r: seq<int>, c: seq<int>)
    requires Represents(t, a, k) && |r| == |c| && InRange(r, k, |r|) && InRange(c, k, |r|)
    requires t.perm == OrderAfter(r, c, k, |r|)
    ensures Singular(a, k) || Invertible(a, k)
    decreases k - CountUsed(t.used)
  {
    hide Represents, IsInverse, Invertible, Singular, OrderAfter, CountUsed, ScaledRow;
    assert Valid(t, k) by { RepresentsValid(t, a, k); }
    CountBound(t.used);
    if Complete(t, k) {
      Undo(t, a, k, r, c);
    } else if exists p: nat, q: nat :: Unused(t, k, p) && Unused(t, k, q) && t.rows[p][q] != 0 {
      var p: nat, q: nat :| Unused(t, k, p) && Unused(t, k, q) && t.rows[p][q] != 0;
      var mid := SwapRows(t, k, p, q);
      SwapRowsRepresents(t, a, k, p, q);
      PivotRepresents(mid, a, k, q);
      CountMore(t.used, q);
      OrderKept(r, c, r + [p], c + [q], k, |r|);
      OrderNext(r + [p], c + [q], k, |r|);
      CountBound(t.used[q := true]);
      EliminationEnds(Pivoted(mid, k, q), a, k, r + [p], c + [q]);
    } else {
      var u :| 0 <= u < k && !t.used[u];
      StuckSingular(t, a, k, u);
    }
  }

  lemma {:induction false} Undo(t: Tableau, a: matrix, k: nat, r: seq<int>, c: seq<int>)
    requires Represents(t, a, k) && Valid(t, k) && Complete(t, k)
    requires |r| == |c| && InRange(r, k, |r|) && InRange(c, k, |r|)
    requires t.perm == OrderAfter(r, c, k, |r|)
    ensures Invertible(a, k)
    decreases |r|
  {
    hide Represents, IsInverse;
    var n := |r| - 1;
    if n < 0 {
      CompleteInverse(t, a, k);
    } else {
      SwapColumnsRepresents(t, a, k, r[n], c[n]);
      OrderKept(r, c, r[..n], c[..n], k, n);
      Undo(SwapColumns(t, k, r[n], c[n]), a, k, r[..n], c[..n]);
    }
  }

  lemma RepresentsValid(tab: Tableau, a: matrix, k: nat)
    requires Represents(tab, a, k)
    ensures Valid(tab, k)
  {
  }

  lemma SingularOrInvertible(a: matrix, k: nat)
    requires Square(a, k)
    ensures Singular(a, k) <==> !Invertible(a, k)
  {
    StartRepresents(a, k);
    EliminationEnds(Start(a, k), a, k, [], []);
    if Singular(a, k) {
      SingularNotInvertible(a, k);
    }
  }
}
