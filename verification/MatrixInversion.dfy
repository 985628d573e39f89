/** invert_mat: Gauss-Jordan elimination on a k x k matrix stored row after row in one array. */
module MatrixInversion {
  import opened GF256
  import opened Primitive
  import opened LinearAlgebra
  import opened GaussJordan
  import opened Tables
  import opened Kernels

  // ---------- a square matrix in an array ----------

  /** Where row i begins. */
  function Offset(i: nat, k: nat): nat
  {
    i * k
  }

  predicate InRow(f: nat, k: nat, i: nat)
  {
    Offset(i, k) <= f < Offset(i, k) + k
  }

  lemma RowFits(i: nat, k: nat)
    requires i < k
    ensures Offset(i, k) + k <= Offset(k, k)
  {
    assert (i + 1) * k <= k * k;
  }

  lemma RowsApart(i: nat, j: nat, k: nat)
    requires i != j
    ensures Offset(i, k) + k <= Offset(j, k) || Offset(j, k) + k <= Offset(i, k)
  {
    if i < j {
      assert (i + 1) * k <= j * k;
    } else {
      assert (j + 1) * k <= i * k;
    }
  }

  function Row(a: vec, k: nat, i: nat): (r: vec)
    requires |a| == Offset(k, k) && i < k
    ensures |r| == k
  {
    RowFits(i, k);
    a[Offset(i, k)..Offset(i, k) + k]
  }

  function Rows(a: vec, k: nat): (m: matrix)
    requires |a| == Offset(k, k)
    ensures Square(m, k)
  {
    seq(k, i requires 0 <= i < k => Row(a, k, i))
  }

  lemma Entry(a: vec, k: nat, i: nat, j: nat)
    requires |a| == Offset(k, k) && i < k && j < k
    ensures Offset(i, k) + j < Offset(k, k)
    ensures Rows(a, k)[i][j] == a[Offset(i, k) + j]
  {
    RowFits(i, k);
  }

  /** A change that stays inside rows p and q leaves the other rows alone. */
  lemma OtherRowsKept(a: vec, b: vec, k: nat, p: nat, q: nat)
    requires |a| == |b| == Offset(k, k) && p < k && q < k
    requires forall f :: 0 <= f < |a| && !InRow(f, k, p) && !InRow(f, k, q) ==> a[f] == b[f]
    ensures forall i :: 0 <= i < k && i != p && i != q ==> Row(a, k, i) == Row(b, k, i)
  {
    forall i | 0 <= i < k && i != p && i != q
      ensures Row(a, k, i) == Row(b, k, i)
    {
      RowFits(i, k);
      RowsApart(i, p, k);
      RowsApart(i, q, k);
    }
  }

  /** Replacing the run of one row replaces that row. */
  lemma RowReplaced(a: vec, b: vec, k: nat, p: nat, x: nat, r: vec)
    requires |a| == |b| == Offset(k, k) && p < k && x == Offset(p, k) && x + k <= |a|
    requires b[..x] == a[..x] && b[x..x + k] == r && b[x + k..] == a[x + k..]
    ensures Rows(b, k) == Rows(a, k)[p := r]
  {
    forall f | 0 <= f < Offset(k, k) && !(x <= f < x + k)
      ensures a[f] == b[f]
    {
      if f < x {
        assert a[f] == a[..x][f] == b[..x][f];
      } else {
        assert a[f] == a[x + k..][f - (x + k)] == b[x + k..][f - (x + k)];
      }
    }
    OtherRowsKept(a, b, k, p, p);
  }

  // ---------- row operations ----------

  /** Exchanges two runs of n bytes. */
  method SwapRuns(src: array<gf>, x: nat, y: nat, n: nat)
    requires x + n <= src.Length && y + n <= src.Length && (x + n <= y || y + n <= x)
    modifies src
    ensures forall f :: x <= f < x + n ==> src[f] == old(src[y + (f - x)])
    ensures forall f :: y <= f < y + n ==> src[f] == old(src[x + (f - y)])
    ensures forall f :: 0 <= f < src.Length && !(x <= f < x + n) && !(y <= f < y + n) ==> src[f] == old(src[f])
  {
    ghost var a := src[..];
    for ix := 0 to n
      invariant forall f :: x <= f < x + ix ==> src[f] == a[y + (f - x)]
      invariant forall f :: y <= f < y + ix ==> src[f] == a[x + (f - y)]
      invariant forall f :: 0 <= f < src.Length && !(x <= f < x + ix) && !(y <= f < y + ix) ==> src[f] == a[f]
    {
      src[x + ix], src[y + ix] := src[y + ix], src[x + ix];
    }
  }

  method SwapRowsInPlace(src: array<gf>, k: nat, p: nat, q: nat)
    requires src.Length == Offset(k, k) && p < k && q < k && p != q
    modifies src
    ensures Rows(src[..], k) == Swapped(old(Rows(src[..], k)), p, q)
  {
    hide Offset, Rows, Row;
    ghost var a := src[..];
    RowFits(p, k);
    RowFits(q, k);
    RowsApart(p, q, k);
    var x, y := Offset(p, k), Offset(q, k);
    SwapRuns(src, x, y, k);
    RunsSwapped(a, src[..], k, p, q, x, y);
  }

  lemma SameRun(a: vec, b: vec, k: nat, i: nat, j: nat, x: nat, y: nat)
    requires |a| == |b| == Offset(k, k) && i < k && j < k
    requires x == Offset(i, k) && y == Offset(j, k) && x + k <= |a| && y + k <= |a|
    requires forall f :: y <= f < y + k ==> b[f] == a[x + (f - y)]
    ensures Row(b, k, j) == Row(a, k, i)
  {
    hide Offset;
  }

  lemma RunsSwapped(a: vec, b: vec, k: nat, p: nat, q: nat, x: nat, y: nat)
    requires |a| == |b| == Offset(k, k) && p < k && q < k && p != q
    requires x == Offset(p, k) && y == Offset(q, k) && x + k <= |a| && y + k <= |a|
    requires forall f :: x <= f < x + k ==> b[f] == a[y + (f - x)]
    requires forall f :: y <= f < y + k ==> b[f] == a[x + (f - y)]
    requires forall f :: 0 <= f < |a| && !(x <= f < x + k) && !(y <= f < y + k) ==> b[f] == a[f]
    ensures Rows(b, k) == Swapped(Rows(a, k), p, q)
  {
    hide Offset;
    OtherRowsKept(a, b, k, p, q);
    assert Row(b, k, p) == Row(a, k, q) by { SameRun(a, b, k, q, p, y, x); }
    assert Row(b, k, q) == Row(a, k, p) by { SameRun(a, b, k, p, q, x, y); }
    hide Row;
  }

  /** The pivot row, n bytes from x on, is divided by its entry at x + icol. */
  method ScaleRun(t: GfTables, src: array<gf>, x: nat, n: nat, icol: nat)
    requires Writable(t, src) && x + n <= src.Length && icol < n && src[x + icol] != 0
    modifies src
    ensures src[..x] == old(src[..x]) && src[x + n..] == old(src[x + n..])
    ensures src[x..x + n] == ScaledRow(old(src[x..x + n]), n, icol)
  {
    hide Mul, Inv;
    ghost var a, r := src[..], src[x..x + n];
    var c: gf := src[x + icol];
    if c != 1 {
      c := t.inverse[c];
      src[x + icol] := 1;
      ghost var s := ScaledRow(r, n, icol);
      for ix := 0 to n
        invariant src[..x] == a[..x] && src[x + n..] == a[x + n..]
        invariant src[x..x + ix] == s[..ix]
        invariant forall f :: x + ix <= f < x + n ==> src[f] == if f == x + icol then 1 else r[f - x]
      {
        var v: gf := src[x + ix];
        assert t.mulTable[256 * c + v] == Mul(c, v);
        src[x + ix] := t.mulTable[256 * c + v];
      }
    } else {
      UnitPivot(r, n, icol);
    }
  }

  lemma UnitPivot(r: vec, k: nat, c: nat)
    requires |r| == k && c < k && r[c] == 1
    ensures ScaledRow(r, k, c) == r
  {
    hide Mul, Inv;
    OneInverse();
    forall j | 0 <= j < k
      ensures ScaledRow(r, k, c)[j] == r[j]
    {
      MulOne(r[j]);
    }
  }

  method NormalizePivotRow(t: GfTables, src: array<gf>, k: nat, icol: nat)
    requires Writable(t, src) && src.Length == Offset(k, k) && icol < k
    requires Rows(src[..], k)[icol][icol] != 0
    modifies src
    ensures Rows(src[..], k) == old(Rows(src[..], k))[icol := ScaledRow(old(Rows(src[..], k)[icol]), k, icol)]
  {
    hide Mul, Inv, ScaledRow, Offset;
    ghost var a := src[..];
    RowFits(icol, k);
    Entry(a, k, icol, icol);
    var pivotRow := Offset(icol, k);
    if src[pivotRow + icol] == 0 {
      assert false;
    }
    ScaleRun(t, src, pivotRow, k, icol);
    RowReplaced(a, src[..], k, icol, pivotRow, ScaledRow(Row(a, k, icol), k, icol));
  }

  /** One other row: clear its entry in the pivot column, then add that multiple of the pivot row. */
  method EliminateRun(t: GfTables, src: array<gf>, x: nat, y: nat, n: nat, icol: nat)
    requires Writable(t, src) && Apart(src, x, src, y, n) && icol < n
    modifies src
    ensures src[..x] == old(src[..x]) && src[x + n..] == old(src[x + n..])
    ensures src[x..x + n] == ReducedRow(old(src[x..x + n]), old(src[y..y + n]), n, icol)
  {
    hide Mul, Add, Added, ReducedRow;
    ghost var a, p := src[..], src[y..y + n];
    var c: gf := src[x + icol];
    src[x + icol] := 0;
    assert src[y..y + n] == p;
    assert src[..] == a[x + icol := 0];
    Addmul(t, src, x, src, y, c, n);
    RunReduced(a, p, c, src[..], x, n, icol);
  }

  lemma RunReduced(a: vec, p: vec, c: gf, b: vec, x: nat, n: nat, icol: nat)
    requires x + n <= |a| && icol < n && |p| == n && c == a[x + icol]
    requires b == Added(a[x + icol := 0], x, c, p, n)
    ensures |b| == |a| && b[..x] == a[..x] && b[x + n..] == a[x + n..]
    ensures b[x..x + n] == ReducedRow(a[x..x + n], p, n, icol)
  {
    hide Mul, Add;
  }

  /** Clears the pivot column in every row but the pivot row; nothing to do for a unit row. */
  method EliminateColumn(t: GfTables, src: array<gf>, k: nat, icol: nat, idRow: array<gf>)
    requires Writable(t, src) && src.Length == Offset(k, k) && icol < k
    requires idRow.Length == k && idRow != src && idRow[..] == Unit(k, icol)
    modifies src
    ensures Rows(src[..], k) == Eliminated(old(Rows(src[..], k)), k, icol)
  {
    hide Mul, Add, Offset, ReducedRow, Rows, Row;
    ghost var m := Rows(src[..], k);
    RowFits(icol, k);
    var pivotRow := Offset(icol, k);
    RowAt(src[..], k, icol, pivotRow);
    if src[pivotRow..pivotRow + k] != idRow[..] {
      for ix := 0 to k
        invariant forall i :: 0 <= i < k ==> Rows(src[..], k)[i] == if i < ix then Eliminated(m, k, icol)[i] else m[i]
      {
        if ix != icol {
          RowFits(ix, k);
          RowsApart(ix, icol, k);
          ghost var a := src[..];
          var p := Offset(ix, k);
          RowAt(a, k, ix, p);
          RowAt(a, k, icol, pivotRow);
          EliminateRun(t, src, p, pivotRow, k, icol);
          RowReplaced(a, src[..], k, ix, p, ReducedRow(m[ix], m[icol], k, icol));
        }
      }
    } else {
      UnitRowEliminates(m, k, icol);
    }
  }

  function Eliminated(m: matrix, k: nat, c: nat): (r: matrix)
    requires Square(m, k) && c < k
    ensures Square(r, k)
  {
    seq(k, i requires 0 <= i < k => if i == c then m[c] else ReducedRow(m[i], m[c], k, c))
  }

  lemma RowAt(a: vec, k: nat, i: nat, x: nat)
    requires |a| == Offset(k, k) && i < k && x == Offset(i, k)
    ensures x + k <= |a| && Rows(a, k)[i] == a[x..x + k]
  {
    RowFits(i, k);
  }

  lemma UnitRowEliminates(m: matrix, k: nat, c: nat)
    requires Square(m, k) && c < k && m[c] == Unit(k, c)
    ensures Eliminated(m, k, c) == m
  {
    hide Mul, Add;
    forall i | 0 <= i < k && i != c
      ensures ReducedRow(m[i], m[c], k, c) == m[i]
    {
      MulOne(m[i][c]);
      MulZero(m[i][c]);
      AddZero(m[i][c]);
      forall j | 0 <= j < k
        ensures ReducedRow(m[i], m[c], k, c)[j] == m[i][j]
      {
        AddZero(m[i][j]);
      }
    }
  }

  /** A non-zero entry in an unused row and an unused column: the diagonal of column col if that
      will do, otherwise the first one found; irow == -1 when there is none. */
  method FindPivot(src: array<gf>, k: nat, ipiv: array<int>, col: nat) returns (irow: int, icol: int)
    requires src.Length == Offset(k, k) && ipiv.Length == k && col < k
    requires forall i :: 0 <= i < k ==> 0 <= ipiv[i] <= 1
    ensures irow == -1 ==> forall i, j :: 0 <= i < k && 0 <= j < k && ipiv[i] == 0 && ipiv[j] == 0 ==>
      Rows(src[..], k)[i][j] == 0
    ensures irow != -1 ==> 0 <= irow < k && 0 <= icol < k && ipiv[irow] == 0 && ipiv[icol] == 0
    ensures irow != -1 ==> Rows(src[..], k)[irow][icol] != 0
  {
    hide Offset, Rows, Row;
    irow, icol := -1, -1;
    Entry(src[..], k, col, col);
    if ipiv[col] != 1 && src[Offset(col, k) + col] != 0 {
      return col, col;
    }
    for row := 0 to k
      invariant forall i, j :: 0 <= i < row && 0 <= j < k && ipiv[i] == 0 && ipiv[j] == 0 ==>
        Rows(src[..], k)[i][j] == 0
    {
      if ipiv[row] != 1 {
        for ix := 0 to k
          invariant forall j :: 0 <= j < ix && ipiv[j] == 0 ==> Rows(src[..], k)[row][j] == 0
        {
          Entry(src[..], k, row, ix);
          if ipiv[ix] == 0 {
            if src[Offset(row, k) + ix] != 0 {
              return row, ix;
            }
          } else if ipiv[ix] > 1 {
            assert false;
          }
        }
      }
    }
  }

  /** Exchanges columns p and q, one row after another. */
  method SwapColumnsInPlace(src: array<gf>, k: nat, p: nat, q: nat)
    requires src.Length == Offset(k, k) && p < k && q < k
    modifies src
    ensures Rows(src[..], k) == ColumnsSwapped(old(Rows(src[..], k)), k, p, q)
  {
    hide Offset, Rows, Row;
    ghost var m := Rows(src[..], k);
    for row := 0 to k
      invariant forall i :: 0 <= i < k ==> Rows(src[..], k)[i] == if i < row then Swapped(m[i], p, q) else m[i]
    {
      ghost var a := src[..];
      var x := Offset(row, k);
      RowAt(a, k, row, x);
      src[x + p], src[x + q] := src[x + q], src[x + p];
      assert src[x..x + k] == Swapped(m[row], p, q);
      RowReplaced(a, src[..], k, row, x, Swapped(m[row], p, q));
    }
  }

  function ColumnsSwapped(m: matrix, k: nat, p: nat, q: nat): (r: matrix)
    requires Square(m, k) && p < k && q < k
    ensures Square(r, k)
  {
    seq(k, i requires 0 <= i < k => Swapped(m[i], p, q))
  }

  // ---------- the whole inversion ----------

  lemma PivotedRows(tab: Tableau, k: nat, c: nat)
    requires GaussJordan.Valid(tab, k) && c < k
    ensures Eliminated(tab.rows[c := ScaledRow(tab.rows[c], k, c)], k, c) == Pivoted(tab, k, c).rows
  {
    hide ScaledRow, ReducedRow;
  }

  /** One turn of the main loop after a pivot was found. */
  method PivotStep(t: GfTables, src: array<gf>, k: nat, irow: nat, icol: nat, idRow: array<gf>, ghost tab: Tableau,
                   ghost a: matrix)
    returns (ghost tab': Tableau)
    requires Writable(t, src) && src.Length == Offset(k, k) && irow < k && icol < k
    requires Writable(t, idRow) && idRow.Length == k && idRow != src && idRow[..] == seq(k, i => 0)
    requires Represents(tab, a, k) && tab.rows == Rows(src[..], k)
    requires !tab.used[irow] && !tab.used[icol] && tab.rows[irow][icol] != 0
    modifies src, idRow
    ensures Represents(tab', a, k) && tab'.rows == Rows(src[..], k)
    ensures tab'.used == tab.used[icol := true] && tab'.perm == Swapped(tab.perm, irow, icol)
    ensures idRow[..] == seq(k, i => 0)
  {
    hide Offset, Rows, Row, Represents, ScaledRow, Mul, Add;
    assert GaussJordan.Valid(tab, k) by { RepresentsValid(tab, a, k); }
    ghost var mid := SwapRows(tab, k, irow, icol);
    if irow != icol {
      SwapRowsInPlace(src, k, irow, icol);
    }
    SwapRowsRepresents(tab, a, k, irow, icol);
    NormalizePivotRow(t, src, k, icol);
    idRow[icol] := 1;
    assert idRow[..] == Unit(k, icol);
    EliminateColumn(t, src, k, icol, idRow);
    idRow[icol] := 0;
    assert idRow[..] == seq(k, i => 0);
    PivotRepresents(mid, a, k, icol);
    PivotedRows(mid, k, icol);
    tab' := Pivoted(mid, k, icol);
  }

  /** Undoes the recorded row exchanges on the columns, last one first. */
  method Unscramble(src: array<gf>, k: nat, indxr: array<int>, indxc: array<int>, ghost tab: Tableau, ghost a: matrix)
    requires src.Length == Offset(k, k) && indxr.Length == k && indxc.Length == k
    requires InRange(indxr[..], k, k) && InRange(indxc[..], k, k)
    requires Represents(tab, a, k) && Complete(tab, k) && tab.rows == Rows(src[..], k)
    requires tab.perm == OrderAfter(indxr[..], indxc[..], k, k)
    modifies src
    ensures IsInverse(a, Rows(src[..], k), k)
  {
    hide Offset, Rows, Row, Represents, IsInverse;
    RepresentsValid(tab, a, k);
    ghost var now := tab;
    var col := k - 1;
    while col >= 0
      invariant -1 <= col < k
      invariant Represents(now, a, k) && GaussJordan.Valid(now, k) && Complete(now, k)
      invariant now.rows == Rows(src[..], k)
      invariant now.perm == OrderAfter(indxr[..], indxc[..], k, col + 1)
    {
      if indxr[col] < 0 || indxr[col] >= k {
        assert false;
      } else if indxc[col] < 0 || indxc[col] >= k {
        assert false;
      } else {
        ghost var next := SwapColumns(now, k, indxr[col], indxc[col]);
        SwapColumnsRepresents(now, a, k, indxr[col], indxc[col]);
        if indxr[col] != indxc[col] {
          SwapColumnsInPlace(src, k, indxr[col], indxc[col]);
        } else {
          forall i | 0 <= i < k
            ensures next.rows[i] == now.rows[i]
          {
            SwapSame(now.rows[i], indxr[col]);
          }
          SwapSame(now.perm, indxr[col]);
          assert next.rows == now.rows;
        }
        now := next;
      }
      col := col - 1;
    }
    CompleteInverse(now, a, k);
  }

  lemma NoPivotLeft(tab: Tableau, a: matrix, k: nat, ipiv: seq<int>)
    requires Represents(tab, a, k) && GaussJordan.Valid(tab, k) && |ipiv| == k
    requires forall i :: 0 <= i < k ==> ipiv[i] == if tab.used[i] then 1 else 0
    requires CountUsed(tab.used) < k
    requires forall i, j :: 0 <= i < k && 0 <= j < k && ipiv[i] == 0 && ipiv[j] == 0 ==> tab.rows[i][j] == 0
    ensures Singular(a, k)
  {
    hide Represents, Singular;
    CountBound(tab.used);
    var u :| 0 <= u < k && !tab.used[u];
    forall i: nat, j: nat | Unused(tab, k, i) && Unused(tab, k, j)
      ensures tab.rows[i][j] == 0
    {
      assert ipiv[i] == 0 && ipiv[j] == 0;
    }
    StuckSingular(tab, a, k, u);
  }

  /** What holds before turn col of the main loop. */
  ghost predicate Progress(src: array<gf>, k: nat, ipiv: array<int>, indxr: array<int>, indxc: array<int>,
                           idRow: array<gf>,
                           tab: Tableau, a: matrix, col: nat)
    reads src, ipiv, indxr, indxc, idRow
  {
    && src.Length == Offset(k, k) && ipiv.Length == k && indxr.Length == k && indxc.Length == k && idRow.Length == k
    && src != idRow && ipiv != indxr && ipiv != indxc && indxr != indxc
    && col <= k
    && Represents(tab, a, k)
    && tab.rows == Rows(src[..], k)
    && (forall i :: 0 <= i < k ==> ipiv[i] == if tab.used[i] then 1 else 0)
    && CountUsed(tab.used) == col
    && InRange(indxr[..], k, col) && InRange(indxc[..], k, col)
    && tab.perm == OrderAfter(indxr[..], indxc[..], k, col)
    && idRow[..] == seq(k, i => 0)
  }

  /** One turn of the main loop: a pivot in an unused row and column, or none at all. */
  method InvertColumn(t: GfTables, src: array<gf>, k: nat, ipiv: array<int>, indxr: array<int>, indxc: array<int>,
                      idRow: array<gf>,
                      ghost tab: Tableau, ghost a: matrix, col: nat)
    returns (found: bool, ghost tab': Tableau)
    requires Writable(t, src) && Writable(t, idRow) && ipiv != t.gfLog && indxr != t.gfLog && indxc != t.gfLog
    requires col < k && Progress(src, k, ipiv, indxr, indxc, idRow, tab, a, col)
    modifies src, ipiv, indxr, indxc, idRow
    ensures found ==> Progress(src, k, ipiv, indxr, indxc, idRow, tab', a, col + 1)
    ensures !found ==> Singular(a, k)
  {
    hide Offset, Rows, Row, Represents, IsInverse, CountUsed, OrderAfter;
    RepresentsValid(tab, a, k);
    var irow, icol := FindPivot(src, k, ipiv, col);
    if irow == -1 {
      NoPivotLeft(tab, a, k, ipiv[..]);
      return false, tab;
    }
    found := true;
    ipiv[icol] := ipiv[icol] + 1;
    CountMore(tab.used, icol);
    tab' := PivotStep(t, src, k, irow, icol, idRow, tab, a);
    ghost var r, c := indxr[..], indxc[..];
    indxr[col] := irow;
    indxc[col] := icol;
    OrderKept(r, c, indxr[..], indxc[..], k, col);
    OrderNext(indxr[..], indxc[..], k, col);
    RepresentsValid(tab', a, k);
  }

  /** Replaces the matrix by its inverse and returns 0, or returns 1 for a singular matrix. */
  method InvertMat(t: GfTables, src: array<gf>, k: nat) returns (error: int)
    requires Writable(t, src) && src.Length == Offset(k, k)
    modifies src
    ensures error == 0 || error == 1
    ensures error == 0 <==> Invertible(old(Rows(src[..], k)), k)
    ensures error == 0 ==> IsInverse(old(Rows(src[..], k)), Rows(src[..], k), k)
    ensures error == 1 ==> Singular(old(Rows(src[..], k)), k)
  {
    hide Offset, Rows, Row, Represents, IsInverse, CountUsed, OrderAfter, Dot, Mul, Add;
    ghost var a := Rows(src[..], k);
    var indxc, indxr := new int[k], new int[k];
    var ipiv := new int[k](_ => 0);
    var idRow := new gf[k](_ => 0);
    ghost var tab := Start(a, k);
    StartRepresents(a, k);
    CountNone(k);
    OrderStart(k);
    assert idRow[..] == seq(k, i => 0);
    var col := 0;
    while col < k
      invariant Progress(src, k, ipiv, indxr, indxc, idRow, tab, a, col)
    {
      var found;
      found, tab := InvertColumn(t, src, k, ipiv, indxr, indxc, idRow, tab, a, col);
      if !found {
        SingularNotInvertible(a, k);
        return 1;
      }
      col := col + 1;
    }
    RepresentsValid(tab, a, k);
    CountBound(tab.used);
    Unscramble(src, k, indxr, indxc, tab, a);
    error := 0;
    assert Invertible(a, k);
  }
}
