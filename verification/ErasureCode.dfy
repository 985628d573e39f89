/** What the erasure code means: n data blocks and any number of parity blocks, parity block r
    being the sum of 1 / ((128 + r) - c) times data block c. */
module ErasureCode {
  import opened GF256
  import opened Primitive
  import opened LinearAlgebra
  import opened Cauchy

  /** The code has room for 128 data blocks and 128 parity blocks. */
  const LIMIT := 128

  /** The points of the data blocks. */
  function DataPoints(n: nat): vec
    requires n <= LIMIT
  {
    seq(n, c requires 0 <= c < n => c)
  }

  /** The coefficients of parity block r. */
  ghost function Coefficients(r: nat, n: nat): (a: vec)
    requires r < LIMIT && n <= LIMIT
    ensures |a| == n
  {
    CauchyRow(LIMIT + r, DataPoints(n), n)
  }

  predicate Stripe(d: seq<vec>, size: nat)
  {
    |d| <= LIMIT && forall c :: 0 <= c < |d| ==> |d[c]| == size
  }

  /** Byte i of every block. */
  function ByteColumn(d: seq<vec>, size: nat, i: nat): (v: vec)
    requires Stripe(d, size) && i < size
    ensures |v| == |d|
  {
    seq(|d|, c requires 0 <= c < |d| => d[c][i])
  }

  /** The sum of a[c] times block c over the first m blocks. */
  function Combination(a: vec, d: seq<vec>, size: nat, m: nat): (p: vec)
    requires Stripe(d, size) && |a| == |d| && m <= |d|
    ensures |p| == size
  {
    seq(size, i requires 0 <= i < size => Dot(a, ByteColumn(d, size, i), m))
  }

  ghost function Parity(d: seq<vec>, size: nat, r: nat): (p: vec)
    requires Stripe(d, size) && r < LIMIT
    ensures |p| == size
  {
    Combination(Coefficients(r, |d|), d, size, |d|)
  }

  // ---------- which blocks are lost and which parity blocks are at hand ----------

  predicate Ascending(s: seq<nat>, n: nat)
  {
    (forall i :: 0 <= i < |s| ==> s[i] < n) && forall i, j :: 0 <= i < j < |s| ==> s[i] < s[j]
  }

  lemma {:induction false} AscendingSize(s: seq<nat>, n: nat)
    requires Ascending(s, n)
    ensures |s| <= n
  {
    if s != [] {
      var m := |s| - 1;
      assert Ascending(s[..m], s[m]);
      AscendingSize(s[..m], s[m]);
    }
  }

  predicate DistinctBelow(s: seq<nat>, n: nat)
  {
    (forall i :: 0 <= i < |s| ==> s[i] < n) && forall i, j :: 0 <= i < j < |s| ==> s[i] != s[j]
  }

  /** As many parity blocks as lost data blocks. */
  predicate Repairable(n: nat, erased: seq<nat>, nos: seq<nat>)
  {
    n <= LIMIT && |erased| == |nos| && Ascending(erased, n) && DistinctBelow(nos, LIMIT)
  }

  /** The points of the parity blocks at hand and of the lost data blocks. */
  function ParityPoints(nos: seq<nat>): vec
    requires DistinctBelow(nos, LIMIT)
  {
    seq(|nos|, j requires 0 <= j < |nos| => LIMIT + nos[j])
  }

  function ErasedPoints(erased: seq<nat>, n: nat): vec
    requires Ascending(erased, n) && n <= LIMIT
  {
    seq(|erased|, c requires 0 <= c < |erased| => erased[c])
  }

  /** The matrix that takes the lost blocks to what they contribute to the parity blocks at hand. */
  ghost function RepairMatrix(n: nat, erased: seq<nat>, nos: seq<nat>): (m: matrix)
    requires Repairable(n, erased, nos)
    ensures Square(m, |erased|)
  {
    CauchyMatrix(ParityPoints(nos), ErasedPoints(erased, n), |erased|)
  }

  /** Any choice of lost blocks and parity blocks gives an invertible matrix. */
  lemma RepairMatrixInvertible(n: nat, erased: seq<nat>, nos: seq<nat>)
    requires Repairable(n, erased, nos)
    ensures Invertible(RepairMatrix(n, erased, nos), |erased|)
  {
    hide Invertible, CauchyMatrix;
    CauchyInvertible(ParityPoints(nos), ErasedPoints(erased, n), |erased|);
  }

  // ---------- one byte position ----------

  /** v with value x[c] stored at position erased[c] for every c < m. */
  function Filled(v: vec, erased: seq<nat>, x: vec, m: nat): (w: vec)
    requires Ascending(erased, |v|) && m <= |erased| && m <= |x|
    ensures |w| == |v|
  {
    if m == 0 then v else Filled(v, erased, x, m - 1)[erased[m - 1] := x[m - 1]]
  }

  lemma {:induction false} FilledAt(v: vec, erased: seq<nat>, x: vec, m: nat)
    requires Ascending(erased, |v|) && m <= |erased| && m <= |x|
    ensures forall c :: 0 <= c < m ==> Filled(v, erased, x, m)[erased[c]] == x[c]
  {
    if m > 0 {
      FilledAt(v, erased, x, m - 1);
    }
  }

  lemma {:induction false} FilledElsewhere(v: vec, erased: seq<nat>, x: vec, m: nat, p: nat)
    requires Ascending(erased, |v|) && m <= |erased| && m <= |x| && p < |v|
    requires forall c :: 0 <= c < m ==> erased[c] != p
    ensures Filled(v, erased, x, m)[p] == v[p]
  {
    if m > 0 {
      FilledElsewhere(v, erased, x, m - 1, p);
    }
  }

  /** The part of the sum that the filled positions contribute. */
  lemma {:induction false} FilledDot(a: vec, v: vec, erased: seq<nat>, x: vec, b: vec, m: nat)
    requires |a| == |v| && Ascending(erased, |v|) && m <= |erased| && m <= |x| && m <= |b|
    requires forall c :: 0 <= c < m ==> v[erased[c]] == 0 && b[c] == a[erased[c]]
    ensures Dot(a, Filled(v, erased, x, m), |v|) == Add(Dot(a, v, |v|), Dot(b, x, m))
  {
    hide Add, Mul;
    var n := |v|;
    if m == 0 {
      AddZero(Dot(a, v, n));
    } else {
      var w := Filled(v, erased, x, m - 1);
      var p, e := erased[m - 1], x[m - 1];
      FilledDot(a, v, erased, x, b, m - 1);
      FilledElsewhere(v, erased, x, m - 1, p);
      assert w[p] == 0;
      assert w[p := 0] == w && w[p := e][p := 0] == w;
      DotComm(a, w[p := e], n);
      DotSplit(w[p := e], a, n, p);
      DotComm(w, a, n);
      MulComm(e, a[p]);
      AddAssoc(Dot(a, v, n), Dot(b, x, m - 1), Mul(b[m - 1], e));
    }
  }

  /** v with the lost positions cleared. */
  function Blanked(v: vec, erased: seq<nat>): (w: vec)
    ensures |w| == |v|
  {
    seq(|v|, p requires 0 <= p < |v| => BlankedAt(v, erased, p))
  }

  function BlankedAt(v: vec, erased: seq<nat>, p: nat): gf
    requires p < |v|
  {
    if p in erased then 0 else v[p]
  }

  /** The values of v at the lost positions. */
  function Picked(v: vec, erased: seq<nat>): (x: vec)
    requires Ascending(erased, |v|)
    ensures |x| == |erased|
  {
    seq(|erased|, c requires 0 <= c < |erased| => v[erased[c]])
  }

  lemma {:induction false} FilledSurvivor(v: vec, erased: seq<nat>, x: vec, m: nat, p: nat)
    requires Ascending(erased, |v|) && m <= |erased| && m <= |x| && p < |v| && p !in erased
    ensures Filled(v, erased, x, m)[p] == v[p]
  {
    if m > 0 {
      FilledSurvivor(v, erased, x, m - 1, p);
      assert erased[m - 1] in erased;
    }
  }

  lemma BlankedSame(v: vec, w: vec, erased: seq<nat>)
    requires |v| == |w| && forall p :: 0 <= p < |v| && p !in erased ==> v[p] == w[p]
    ensures Blanked(v, erased) == Blanked(w, erased)
  {
  }

  lemma BlankedAfterFill(v: vec, erased: seq<nat>, x: vec)
    requires Ascending(erased, |v|) && |x| == |erased|
    ensures Blanked(Filled(v, erased, x, |x|), erased) == Blanked(v, erased)
  {
    hide Filled, Ascending, Blanked;
    var w := Filled(v, erased, x, |x|);
    forall p | 0 <= p < |v| && p !in erased
      ensures w[p] == v[p]
    {
      FilledSurvivor(v, erased, x, |x|, p);
    }
    BlankedSame(w, v, erased);
  }

  lemma PickedAfterFill(v: vec, erased: seq<nat>, x: vec)
    requires Ascending(erased, |v|) && |x| == |erased|
    ensures Picked(Filled(v, erased, x, |x|), erased) == x
  {
    hide Filled;
    FilledAt(v, erased, x, |x|);
  }

  lemma BlankedFilled(v: vec, erased: seq<nat>)
    requires Ascending(erased, |v|)
    ensures Filled(Blanked(v, erased), erased, Picked(v, erased), |erased|) == v
  {
    var w := Filled(Blanked(v, erased), erased, Picked(v, erased), |erased|);
    FilledAt(Blanked(v, erased), erased, Picked(v, erased), |erased|);
    forall p | 0 <= p < |v|
      ensures w[p] == v[p]
    {
      if p in erased {
        var c :| 0 <= c < |erased| && erased[c] == p;
      } else {
        FilledSurvivor(Blanked(v, erased), erased, Picked(v, erased), |erased|, p);
      }
    }
  }

  /** A parity byte is what the surviving bytes give plus what the lost bytes give. */
  lemma ParitySplit(v: vec, erased: seq<nat>, nos: seq<nat>, j: nat)
    requires Repairable(|v|, erased, nos) && j < |nos|
    ensures Dot(Coefficients(nos[j], |v|), v, |v|)
         == Add(Dot(Coefficients(nos[j], |v|), Blanked(v, erased), |v|),
                Dot(RepairMatrix(|v|, erased, nos)[j], Picked(v, erased), |erased|))
  {
    hide Add, Mul, Dot, Inv;
    var b := RepairMatrix(|v|, erased, nos)[j];
    BlankedFilled(v, erased);
    FilledDot(Coefficients(nos[j], |v|), Blanked(v, erased), erased, Picked(v, erased), b, |erased|);
  }

  // ---------- whole blocks ----------

  predicate SameSurvivors(d: seq<vec>, d': seq<vec>, erased: seq<nat>)
  {
    |d| == |d'| && forall c :: 0 <= c < |d| && c !in erased ==> d[c] == d'[c]
  }

  /** Blocks d have the parity blocks f at the numbers nos. */
  ghost predicate HasParity(d: seq<vec>, size: nat, nos: seq<nat>, f: seq<vec>)
    requires Stripe(d, size) && DistinctBelow(nos, LIMIT)
  {
    |f| == |nos| && forall j :: 0 <= j < |nos| ==> f[j] == Parity(d, size, nos[j])
  }

  lemma UniqueByte(v: vec, v': vec, erased: seq<nat>, nos: seq<nat>)
    requires |v| == |v'| && Repairable(|v|, erased, nos)
    requires Blanked(v, erased) == Blanked(v', erased)
    requires forall j :: 0 <= j < |nos| ==>
      Dot(Coefficients(nos[j], |v|), v, |v|) == Dot(Coefficients(nos[j], |v|), v', |v|)
    ensures v == v'
  {
    hide Add, Mul, Dot, Inv, Coefficients, RepairMatrix, IsInverse;
    var e, m := |erased|, RepairMatrix(|v|, erased, nos);
    RepairMatrixInvertible(|v|, erased, nos);
    var b: matrix :| IsInverse(m, b, e);
    assert Square(b, e) by { InverseSquare(m, b, e); }
    var x, x' := Picked(v, erased), Picked(v', erased);
    var y := seq(e, j requires 0 <= j < e => Dot(m[j], x, e));
    forall j | 0 <= j < e
      ensures y[j] == Dot(m[j], x', e)
    {
      var s := Dot(Coefficients(nos[j], |v|), Blanked(v, erased), |v|);
      ParitySplit(v, erased, nos, j);
      ParitySplit(v', erased, nos, j);
      AddMove(s, y[j], Add(s, Dot(m[j], x', e)));
      AddMove(s, Dot(m[j], x', e), Add(s, Dot(m[j], x', e)));
    }
    InverseSolves(m, b, x, y, e);
    InverseSolves(m, b, x', y, e);
    assert x == x';
    BlankedFilled(v, erased);
    BlankedFilled(v', erased);
  }

  lemma InverseSquare(a: matrix, b: matrix, k: nat)
    requires IsInverse(a, b, k)
    ensures Square(b, k)
  {
  }

  /** The survivors and as many parity blocks as were lost determine every lost block. */
  lemma UniqueRepair(d: seq<vec>, d': seq<vec>, size: nat, erased: seq<nat>, nos: seq<nat>, f: seq<vec>)
    requires Stripe(d, size) && Stripe(d', size) && Repairable(|d|, erased, nos)
    requires SameSurvivors(d, d', erased)
    requires HasParity(d, size, nos, f) && HasParity(d', size, nos, f)
    ensures d == d'
  {
    hide Dot, Coefficients;
    forall i | 0 <= i < size
      ensures ByteColumn(d, size, i) == ByteColumn(d', size, i)
    {
      var v, v' := ByteColumn(d, size, i), ByteColumn(d', size, i);
      assert Blanked(v, erased) == Blanked(v', erased);
      forall j | 0 <= j < |nos|
        ensures Dot(Coefficients(nos[j], |v|), v, |v|) == Dot(Coefficients(nos[j], |v|), v', |v|)
      {
        assert f[j][i] == Dot(Coefficients(nos[j], |v|), v, |v|);
        assert f[j][i] == Dot(Coefficients(nos[j], |v|), v', |v|);
      }
      UniqueByte(v, v', erased, nos);
    }
    forall c | 0 <= c < |d|
      ensures d[c] == d'[c]
    {
      forall i | 0 <= i < size
        ensures d[c][i] == d'[c][i]
      {
        assert ByteColumn(d, size, i)[c] == ByteColumn(d', size, i)[c];
      }
    }
  }

  // ---------- a repair always exists ----------

  /** A column of bytes that keeps v's survivors and has parity bytes g. */
  ghost predicate IsRepairedByte(w: vec, v: vec, erased: seq<nat>, nos: seq<nat>, g: vec)
    requires |w| == |v| && Repairable(|v|, erased, nos) && |g| == |nos|
  {
    && Blanked(w, erased) == Blanked(v, erased)
    && forall j :: 0 <= j < |nos| ==> Dot(Coefficients(nos[j], |v|), w, |v|) == g[j]
  }

  /** Lost bytes x that solve the reduced system y repair the column. */
  lemma SolvedByte(w: vec, v: vec, erased: seq<nat>, nos: seq<nat>, g: vec, x: vec, y: vec)
    requires |w| == |v| && Repairable(|v|, erased, nos) && |g| == |nos| && |x| == |y| == |erased|
    requires Blanked(w, erased) == Blanked(v, erased) && Picked(w, erased) == x
    requires forall j :: 0 <= j < |nos| ==> y[j] == Add(g[j], Dot(Coefficients(nos[j], |v|), Blanked(v, erased), |v|))
    requires IsProduct(RepairMatrix(|v|, erased, nos), x, y, |erased|)
    ensures IsRepairedByte(w, v, erased, nos, g)
  {
    hide Add, Mul, Dot, Inv, Coefficients, RepairMatrix;
    forall j | 0 <= j < |nos|
      ensures Dot(Coefficients(nos[j], |v|), w, |v|) == g[j]
    {
      var s := Dot(Coefficients(nos[j], |v|), Blanked(v, erased), |v|);
      ParitySplit(w, erased, nos, j);
      AddComm(g[j], s);
      AddMove(s, g[j], y[j]);
    }
  }

  lemma RepairedByteExists(v: vec, erased: seq<nat>, nos: seq<nat>, g: vec)
    requires Repairable(|v|, erased, nos) && |g| == |nos|
    ensures exists w: vec :: |w| == |v| && IsRepairedByte(w, v, erased, nos, g)
  {
    hide Add, Mul, Dot, Inv, Coefficients, RepairMatrix, IsInverse, Filled, IsRepairedByte;
    var e, m := |erased|, RepairMatrix(|v|, erased, nos);
    RepairMatrixInvertible(|v|, erased, nos);
    var b: matrix :| IsInverse(m, b, e);
    assert Square(b, e) by { InverseSquare(m, b, e); }
    var y := seq(e, j requires 0 <= j < e => Add(g[j], Dot(Coefficients(nos[j], |v|), Blanked(v, erased), |v|)));
    var x := seq(e, j requires 0 <= j < e => Dot(b[j], y, e));
    InverseSolves(m, b, x, y, e);
    BlankedAfterFill(v, erased, x);
    PickedAfterFill(v, erased, x);
    SolvedByte(Filled(v, erased, x, e), v, erased, nos, g, x, y);
  }

  ghost function RepairedByte(v: vec, erased: seq<nat>, nos: seq<nat>, g: vec): (w: vec)
    requires Repairable(|v|, erased, nos) && |g| == |nos|
    ensures |w| == |v| && IsRepairedByte(w, v, erased, nos, g)
  {
    RepairedByteExists(v, erased, nos, g);
    var w: vec :| |w| == |v| && IsRepairedByte(w, v, erased, nos, g);
    w
  }

  /** d' keeps d's survivors and has exactly the parity blocks f. */
  ghost predicate IsRepair(d: seq<vec>, d': seq<vec>, size: nat, erased: seq<nat>, nos: seq<nat>, f: seq<vec>)
  {
    && Stripe(d, size) && Stripe(d', size)
    && Repairable(|d|, erased, nos)
    && SameSurvivors(d, d', erased)
    && HasParity(d', size, nos, f)
  }

  /** Whatever the survivors and the parity blocks are, some lost blocks fit them. */
  lemma RepairExists(d: seq<vec>, size: nat, erased: seq<nat>, nos: seq<nat>, f: seq<vec>)
    requires Stripe(d, size) && Repairable(|d|, erased, nos)
    requires |f| == |nos| && forall j :: 0 <= j < |f| ==> |f[j]| == size
    ensures exists d' :: IsRepair(d, d', size, erased, nos, f)
  {
    hide Dot, Coefficients, IsRepairedByte;
    var cols := seq(size, i requires 0 <= i < size =>
      RepairedByte(ByteColumn(d, size, i), erased, nos, seq(|f|, j requires 0 <= j < |f| => f[j][i])));
    var d' := seq(|d|, c requires 0 <= c < |d| => seq(size, i requires 0 <= i < size => cols[i][c]));
    forall i | 0 <= i < size
      ensures IsRepairedByte(ByteColumn(d', size, i), ByteColumn(d, size, i), erased, nos,
                             seq(|f|, j requires 0 <= j < |f| => f[j][i]))
    {
      assert ByteColumn(d', size, i) == cols[i];
    }
    ByColumns(d, d', size, erased, nos, f);
  }

  /** Repairing every byte position repairs the blocks. */
  lemma ByColumns(d: seq<vec>, d': seq<vec>, size: nat, erased: seq<nat>, nos: seq<nat>, f: seq<vec>)
    requires Stripe(d, size) && Stripe(d', size) && |d'| == |d| && Repairable(|d|, erased, nos)
    requires |f| == |nos| && forall j :: 0 <= j < |f| ==> |f[j]| == size
    requires forall i :: 0 <= i < size ==>
      IsRepairedByte(ByteColumn(d', size, i), ByteColumn(d, size, i), erased, nos,
                     seq(|f|, j requires 0 <= j < |f| => f[j][i]))
    ensures IsRepair(d, d', size, erased, nos, f)
  {
    hide Dot, Coefficients;
    forall c | 0 <= c < |d| && c !in erased
      ensures d[c] == d'[c]
    {
      forall i | 0 <= i < size
        ensures d[c][i] == d'[c][i]
      {
        assert Blanked(ByteColumn(d', size, i), erased)[c] == Blanked(ByteColumn(d, size, i), erased)[c];
      }
    }
    forall j | 0 <= j < |nos|
      ensures f[j] == Parity(d', size, nos[j])
    {
      forall i | 0 <= i < size
        ensures f[j][i] == Parity(d', size, nos[j])[i]
      {
        assert Dot(Coefficients(nos[j], |d|), ByteColumn(d', size, i), |d|) == f[j][i];
      }
    }
  }

  /** The blocks that erasure decoding restores. */
  ghost function Repair(d: seq<vec>, size: nat, erased: seq<nat>, nos: seq<nat>, f: seq<vec>): (d': seq<vec>)
    requires Stripe(d, size) && Repairable(|d|, erased, nos)
    requires |f| == |nos| && forall j :: 0 <= j < |f| ==> |f[j]| == size
    ensures IsRepair(d, d', size, erased, nos, f)
  {
    RepairExists(d, size, erased, nos, f);
    var d' :| IsRepair(d, d', size, erased, nos, f);
    d'
  }

  /** Decoding the survivors of encoded blocks gives back the blocks that were encoded. */
  lemma RepairOriginal(d: seq<vec>, received: seq<vec>, size: nat, erased: seq<nat>, nos: seq<nat>, f: seq<vec>)
    requires Stripe(d, size) && Stripe(received, size) && Repairable(|d|, erased, nos)
    requires SameSurvivors(d, received, erased) && HasParity(d, size, nos, f)
    ensures forall j :: 0 <= j < |f| ==> |f[j]| == size
    ensures Repair(received, size, erased, nos, f) == d
  {
    hide Repair;
    UniqueRepair(Repair(received, size, erased, nos, f), d, size, erased, nos, f);
  }

  // ---------- prefixes of blocks ----------

  /** With parity blocks of whatever origin, decoding gives the blocks d exactly when these are d's parity. */
  lemma RepairRightExactlyWhen(d: seq<vec>, received: seq<vec>, size: nat, erased: seq<nat>, nos: seq<nat>, f: seq<vec>)
    requires Stripe(d, size) && Stripe(received, size) && Repairable(|d|, erased, nos)
    requires SameSurvivors(d, received, erased) && |f| == |nos| && forall j :: 0 <= j < |f| ==> |f[j]| == size
    ensures Repair(received, size, erased, nos, f) == d <==> HasParity(d, size, nos, f)
  {
    hide Repair, Parity;
    if HasParity(d, size, nos, f) {
      RepairOriginal(d, received, size, erased, nos, f);
    }
  }

  function Prefixes(d: seq<vec>, size: nat, m: nat): (e: seq<vec>)
    requires Stripe(d, size) && m <= size
    ensures Stripe(e, m) && |e| == |d|
  {
    seq(|d|, c requires 0 <= c < |d| => d[c][..m])
  }

  /** The parity of the first m bytes of every block is the first m bytes of the parity. */
  lemma ParityPrefix(d: seq<vec>, size: nat, m: nat, r: nat)
    requires Stripe(d, size) && m <= size && r < LIMIT
    ensures Parity(Prefixes(d, size, m), m, r) == Parity(d, size, r)[..m]
  {
    hide Dot, Coefficients;
    forall i | 0 <= i < m
      ensures Parity(Prefixes(d, size, m), m, r)[i] == Parity(d, size, r)[i]
    {
      assert ByteColumn(Prefixes(d, size, m), m, i) == ByteColumn(d, size, i);
    }
  }
}
