/** fec_encode and fec_decode on buffers: the code of module ErasureCode, computed in place. */
module Fec {
  import opened Bits
  import opened GF256
  import opened Primitive
  import opened LinearAlgebra
  import opened GaussJordan
  import opened ErasureCode
  import opened Tables
  import opened Kernels
  import opened MatrixInversion

  type buffer = array<gf>

  /** The first size bytes of every buffer. */
  function Contents(blocks: seq<buffer>, size: nat): (d: seq<vec>)
    requires forall c :: 0 <= c < |blocks| ==> size <= blocks[c].Length
    reads blocks
    ensures |d| == |blocks| && forall c :: 0 <= c < |d| ==> |d[c]| == size
  {
    seq(|blocks|, c requires 0 <= c < |blocks| reads blocks => blocks[c][..size])
  }

  /** Buffers of at least size bytes, none of them a table. */
  ghost predicate Usable(t: GfTables, blocks: seq<buffer>, size: nat)
    reads t.gfExp, t.gfLog, t.inverse, t.mulTable
  {
    && |blocks| <= LIMIT
    && t.Valid()
    && forall c :: 0 <= c < |blocks| ==> size <= blocks[c].Length && Writable(t, blocks[c])
  }

  predicate NoAlias(blocks: seq<buffer>)
  {
    forall i, j :: 0 <= i < j < |blocks| ==> blocks[i] != blocks[j]
  }

  predicate Disjoint(a: seq<buffer>, b: seq<buffer>)
  {
    forall i, j :: 0 <= i < |a| && 0 <= j < |b| ==> a[i] != b[j]
  }

  /** New buffers with the given bytes. */
  method CopyBuffers(t: GfTables, d: seq<vec>, size: nat) returns (bufs: seq<buffer>)
    requires t.Valid() && Stripe(d, size)
    ensures |bufs| == |d| && NoAlias(bufs) && Usable(t, bufs, size)
    ensures forall i :: 0 <= i < |bufs| ==> fresh(bufs[i]) && bufs[i].Length == size
    ensures Contents(bufs, size) == d
  {
    bufs := [];
    for i := 0 to |d|
      invariant |bufs| == i && NoAlias(bufs) && Usable(t, bufs, size)
      invariant forall j :: 0 <= j < i ==> fresh(bufs[j]) && bufs[j].Length == size && bufs[j][..] == d[j]
    {
      var b := new gf[size];
      for k := 0 to size
        invariant b[..k] == d[i][..k]
        invariant forall j :: 0 <= j < i ==> bufs[j][..] == d[j]
      {
        b[k] := d[i][k];
      }
      assert b[..] == d[i];
      bufs := bufs + [b];
    }
    forall i | 0 <= i < |bufs|
      ensures Contents(bufs, size)[i] == d[i]
    {
      assert bufs[i][..size] == bufs[i][..];
    }
  }

  // ---------- coefficients from the table of inverses ----------

  /** The three ways the code writes the table index of a coefficient. */
  lemma CoefficientIndex(r: nat, c: nat, n: nat)
    requires r < LIMIT && c < n <= LIMIT
    ensures Xor(LIMIT + r, c) < 256 && Inv(Xor(LIMIT + r, c)) == Coefficients(r, n)[c]
    ensures Xor(r, LIMIT + c) == Xor(LIMIT + r, c)
    ensures Xor(Xor(r, c), LIMIT) == Xor(LIMIT + r, c)
    ensures Xor(LIMIT, r) == Xor(LIMIT + r, 0)
  {
    hide Xor, Inv;
    assert Pow2(7) == LIMIT;
    assert Add(LIMIT + r, c) == Xor(LIMIT + r, c);
    XorTop(r, c, 7);
    XorTop(c, r, 7);
    XorComm(r, c);
    XorComm(r, LIMIT + c);
    XorBound(r, c, 7);
    XorTop(0, Xor(r, c), 7);
    XorComm(Xor(r, c), LIMIT);
    XorZero(Xor(r, c));
    XorTop(0, r, 7);
    XorZero(r);
    XorZero(LIMIT + r);
  }

  /** A 129th data block would have no coefficient: its index lies beyond the table. */
  lemma IndexInTableExactlyWhen(r: nat, c: nat)
    requires r < LIMIT
    ensures Xor(r, LIMIT + c) < 256 <==> c < LIMIT
  {
    hide Xor;
    assert Pow2(7) == LIMIT && Pow2(8) == 256;
    var x := Xor(r, LIMIT + c);
    if x < 256 {
      XorBound(r, x, 8);
      XorAssoc(r, r, LIMIT + c);
      XorSelf(r);
      XorZero(LIMIT + c);
    }
    if c < LIMIT {
      XorBound(r, LIMIT + c, 8);
    }
  }

  lemma FirstBlock(dst: vec, a: vec, d: seq<vec>, size: nat)
    requires Stripe(d, size) && |a| == |d| && 0 < |d| && size <= |dst|
    ensures Scaled(dst, 0, a[0], d[0], size)[..size] == Combination(a, d, size, 1)
    ensures Scaled(dst, 0, a[0], d[0], size)[size..] == dst[size..]
  {
    hide Add, Mul;
    forall i | 0 <= i < size
      ensures Combination(a, d, size, 1)[i] == Mul(a[0], d[0][i])
    {
      assert Dot(a, ByteColumn(d, size, i), 0) == 0;
      AddZero(Mul(a[0], d[0][i]));
    }
  }

  lemma NextBlock(dst: vec, a: vec, d: seq<vec>, size: nat, m: nat)
    requires Stripe(d, size) && |a| == |d| && m < |d| && size <= |dst|
    requires dst[..size] == Combination(a, d, size, m)
    ensures Added(dst, 0, a[m], d[m], size)[..size] == Combination(a, d, size, m + 1)
    ensures Added(dst, 0, a[m], d[m], size)[size..] == dst[size..]
  {
    hide Add, Mul;
    forall i | 0 <= i < size
      ensures Combination(a, d, size, m + 1)[i] == Add(dst[i], Mul(a[m], d[m][i]))
    {
      assert dst[i] == dst[..size][i];
    }
  }

  // ---------- encoding ----------

  /** Every parity buffer holds the sum over the first m data blocks. */
  ghost predicate Encoded(fec: seq<buffer>, d: seq<vec>, size: nat, m: nat)
    reads fec
  {
    && Stripe(d, size) && m <= |d| && |fec| <= LIMIT
    && (forall r :: 0 <= r < |fec| ==> size <= fec[r].Length)
    && forall r :: 0 <= r < |fec| ==> fec[r][..size] == Combination(Coefficients(r, |d|), d, size, m)
  }

  /** The first data block overwrites the parity buffers. */
  method EncodeFirst(t: GfTables, blockSize: nat, data: seq<buffer>, fec: seq<buffer>)
    requires Usable(t, data, blockSize) && Usable(t, fec, blockSize)
    requires NoAlias(fec) && Disjoint(data, fec) && |data| > 0
    modifies fec
    ensures Encoded(fec, old(Contents(data, blockSize)), blockSize, 1)
    ensures forall r :: 0 <= r < |fec| ==> fec[r][blockSize..] == old(fec[r][blockSize..])
  {
    hide Add, Mul, Xor, Inv, Coefficients, Combination, Scaled;
    ghost var d := Contents(data, blockSize);
    for row := 0 to |fec|
      invariant forall r :: 0 <= r < row ==> fec[r][..blockSize] == Combination(Coefficients(r, |d|), d, blockSize, 1)
      invariant forall r :: 0 <= r < |fec| ==> fec[r][blockSize..] == old(fec[r][blockSize..])
    {
      CoefficientIndex(row, 0, |d|);
      FirstBlock(fec[row][..], Coefficients(row, |d|), d, blockSize);
      MulBuffer(t, fec[row], 0, data[0], 0, t.inverse[Xor(128, row)], blockSize);
    }
  }

  /** Each further data block is added into every parity buffer. */
  method EncodeNext(t: GfTables, blockSize: nat, data: seq<buffer>, fec: seq<buffer>, blockNo: nat, ghost d: seq<vec>)
    requires Usable(t, data, blockSize) && Usable(t, fec, blockSize)
    requires NoAlias(fec) && Disjoint(data, fec) && blockNo < |data|
    requires d == Contents(data, blockSize) && Encoded(fec, d, blockSize, blockNo)
    modifies fec
    ensures Encoded(fec, d, blockSize, blockNo + 1)
    ensures forall r :: 0 <= r < |fec| ==> fec[r][blockSize..] == old(fec[r][blockSize..])
  {
    hide Add, Mul, Xor, Inv, Coefficients, Combination, Added;
    var col := 128 + blockNo;
    for row := 0 to |fec|
      invariant forall r :: 0 <= r < row ==>
        fec[r][..blockSize] == Combination(Coefficients(r, |d|), d, blockSize, blockNo + 1)
      invariant forall r :: row <= r < |fec| ==>
        fec[r][..blockSize] == Combination(Coefficients(r, |d|), d, blockSize, blockNo)
      invariant forall r :: 0 <= r < |fec| ==> fec[r][blockSize..] == old(fec[r][blockSize..])
    {
      CoefficientIndex(row, blockNo, |d|);
      NextBlock(fec[row][..], Coefficients(row, |d|), d, blockSize, blockNo);
      Addmul(t, fec[row], 0, data[blockNo], 0, t.inverse[Xor(row, col)], blockSize);
    }
  }

  /** Fills the parity buffers from the data buffers; with no data they are left alone. */
  method FecEncode(t: GfTables, blockSize: nat, data: seq<buffer>, fec: seq<buffer>)
    requires Usable(t, data, blockSize) && Usable(t, fec, blockSize)
    requires NoAlias(fec) && Disjoint(data, fec)
    modifies fec
    ensures |data| > 0 ==> forall r :: 0 <= r < |fec| ==>
      fec[r][..blockSize] == Parity(old(Contents(data, blockSize)), blockSize, r)
    ensures forall r :: 0 <= r < |fec| ==> fec[r][blockSize..] == old(fec[r][blockSize..])
    ensures |data| == 0 ==> forall r :: 0 <= r < |fec| ==> fec[r][..] == old(fec[r][..])
  {
    hide Combination;
    if |data| == 0 {
      return;
    }
    ghost var d := Contents(data, blockSize);
    EncodeFirst(t, blockSize, data, fec);
    for blockNo := 1 to |data|
      invariant Encoded(fec, d, blockSize, blockNo)
      invariant forall r :: 0 <= r < |fec| ==> fec[r][blockSize..] == old(fec[r][blockSize..])
    {
      EncodeNext(t, blockSize, data, fec, blockNo, d);
    }
  }

  // ---------- decoding: remove the surviving blocks from the parity blocks ----------

  /** The blocks with the lost ones cleared. */
  function Cleared(d: seq<vec>, size: nat, erased: seq<nat>): (z: seq<vec>)
    requires Stripe(d, size)
    ensures Stripe(z, size) && |z| == |d|
  {
    seq(|d|, c requires 0 <= c < |d| => if c in erased then Zeros(size) else d[c])
  }

  lemma ClearedAt(d: seq<vec>, size: nat, erased: seq<nat>)
    requires Stripe(d, size)
    ensures forall c :: 0 <= c < |d| ==> Cleared(d, size, erased)[c] == if c in erased then Zeros(size) else d[c]
  {
  }

  /** Block f plus block g. */
  function Sum(f: vec, g: vec): (r: vec)
    requires |f| == |g|
    ensures |r| == |f|
  {
    seq(|f|, i requires 0 <= i < |f| => Add(f[i], g[i]))
  }

  /** Parity block f after the survivors among the first m data blocks were removed. */
  function Reduced(f: vec, a: vec, z: seq<vec>, size: nat, m: nat): (r: vec)
    requires Stripe(z, size) && |a| == |z| && m <= |z| && |f| == size
    ensures |r| == size
  {
    Sum(f, Combination(a, z, size, m))
  }

  lemma ReduceNothing(f: vec, a: vec, z: seq<vec>, size: nat)
    requires Stripe(z, size) && |a| == |z| && |f| == size
    ensures Reduced(f, a, z, size, 0) == f
  {
    hide Add;
    forall i | 0 <= i < size
      ensures Reduced(f, a, z, size, 0)[i] == f[i]
    {
      AddZero(f[i]);
    }
  }

  lemma ReduceErased(f: vec, a: vec, z: seq<vec>, size: nat, m: nat)
    requires Stripe(z, size) && |a| == |z| && m < |z| && |f| == size
    requires z[m] == Zeros(size)
    ensures Reduced(f, a, z, size, m + 1) == Reduced(f, a, z, size, m)
  {
    hide Add, Mul;
    forall i | 0 <= i < size
      ensures Reduced(f, a, z, size, m + 1)[i] == Reduced(f, a, z, size, m)[i]
    {
      MulZero(a[m]);
      AddZero(Dot(a, ByteColumn(z, size, i), m));
    }
  }

  lemma ReduceSurvivor(dst: vec, f: vec, a: vec, z: seq<vec>, size: nat, m: nat)
    requires Stripe(z, size) && |a| == |z| && m < |z| && |f| == size <= |dst|
    requires dst[..size] == Reduced(f, a, z, size, m)
    ensures Added(dst, 0, a[m], z[m], size)[..size] == Reduced(f, a, z, size, m + 1)
    ensures Added(dst, 0, a[m], z[m], size)[size..] == dst[size..]
  {
    hide Add, Mul;
    forall i | 0 <= i < size
      ensures Reduced(f, a, z, size, m + 1)[i] == Add(dst[i], Mul(a[m], z[m][i]))
    {
      assert dst[i] == dst[..size][i];
      AddAssoc(f[i], Dot(a, ByteColumn(z, size, i), m), Mul(a[m], z[m][i]));
    }
  }

  ghost predicate ReducedTo(fec: seq<buffer>, f: seq<vec>, z: seq<vec>, size: nat, nos: seq<nat>, m: nat)
    reads fec
  {
    && Stripe(z, size) && m <= |z| && |fec| == |f| == |nos| && DistinctBelow(nos, LIMIT)
    && (forall j :: 0 <= j < |fec| ==> size <= fec[j].Length && |f[j]| == size)
    && forall j :: 0 <= j < |fec| ==> fec[j][..size] == Reduced(f[j], Coefficients(nos[j], |z|), z, size, m)
  }

  lemma ReducedStart(fec: seq<buffer>, f: seq<vec>, z: seq<vec>, size: nat, nos: seq<nat>)
    requires Stripe(z, size) && |fec| == |f| == |nos| && DistinctBelow(nos, LIMIT)
    requires forall j :: 0 <= j < |fec| ==> size <= fec[j].Length && f[j] == fec[j][..size]
    ensures ReducedTo(fec, f, z, size, nos, 0)
  {
    hide Coefficients, Reduced;
    forall j | 0 <= j < |fec|
      ensures fec[j][..size] == Reduced(f[j], Coefficients(nos[j], |z|), z, size, 0)
    {
      ReduceNothing(f[j], Coefficients(nos[j], |z|), z, size);
    }
  }

  lemma ReducedSkip(fec: seq<buffer>, f: seq<vec>, z: seq<vec>, size: nat, nos: seq<nat>, m: nat)
    requires ReducedTo(fec, f, z, size, nos, m) && m < |z| && z[m] == Zeros(size)
    ensures ReducedTo(fec, f, z, size, nos, m + 1)
  {
    hide Coefficients, Reduced;
    forall j | 0 <= j < |fec|
      ensures fec[j][..size] == Reduced(f[j], Coefficients(nos[j], |z|), z, size, m + 1)
    {
      ReduceErased(f[j], Coefficients(nos[j], |z|), z, size, m);
    }
  }

  /** One surviving data block, removed from every parity block. */
  method ReduceBlock(t: GfTables, blockSize: nat, src: buffer, fec: seq<buffer>, nos: seq<nat>, col: nat,
                     ghost f: seq<vec>, ghost z: seq<vec>)
    requires Usable(t, fec, blockSize) && NoAlias(fec) && src !in fec && blockSize <= src.Length
    requires col < |z| && ReducedTo(fec, f, z, blockSize, nos, col) && z[col] == src[..blockSize]
    modifies fec
    ensures ReducedTo(fec, f, z, blockSize, nos, col + 1)
    ensures forall j :: 0 <= j < |fec| ==> fec[j][blockSize..] == old(fec[j][blockSize..])
  {
    hide Add, Mul, Xor, Inv, Coefficients, Reduced, Added;
    for j := 0 to |fec|
      invariant forall i :: 0 <= i < j ==>
        fec[i][..blockSize] == Reduced(f[i], Coefficients(nos[i], |z|), z, blockSize, col + 1)
      invariant forall i :: j <= i < |fec| ==>
        fec[i][..blockSize] == Reduced(f[i], Coefficients(nos[i], |z|), z, blockSize, col)
      invariant forall i :: 0 <= i < |fec| ==> fec[i][blockSize..] == old(fec[i][blockSize..])
    {
      var blno := nos[j];
      CoefficientIndex(blno, col, |z|);
      ReduceSurvivor(fec[j][..], f[j], Coefficients(nos[j], |z|), z, blockSize, col);
      Addmul(t, fec[j], 0, src, 0, t.inverse[Xor(Xor(blno, col), 128)], blockSize);
    }
  }

  /** Exactly the first k of the erased blocks lie before col. */
  predicate Passed(erased: seq<nat>, k: nat, col: nat)
  {
    && k <= |erased|
    && (forall c :: 0 <= c < k ==> erased[c] < col)
    && (forall c :: k <= c < |erased| ==> col <= erased[c])
  }

  lemma PassedStart(erased: seq<nat>)
    ensures Passed(erased, 0, 0)
  {
  }

  lemma PassedNext(erased: seq<nat>, n: nat, k: nat, col: nat)
    requires Ascending(erased, n) && Passed(erased, k, col)
    ensures if k < |erased| && erased[k] == col then col in erased && Passed(erased, k + 1, col + 1)
            else col !in erased && Passed(erased, k, col + 1)
  {
  }

  lemma PassedAll(erased: seq<nat>, n: nat, k: nat)
    requires Ascending(erased, n) && Passed(erased, k, n)
    ensures k == |erased|
  {
    if k < |erased| {
      ErasedBelow(erased, n, k);
    }
  }

  lemma ErasedBelow(erased: seq<nat>, n: nat, c: nat)
    requires Ascending(erased, n) && c < |erased|
    ensures erased[c] < n
  {
  }

  /** Leaves in each parity block only what the lost blocks contribute to it. */
  method Reduce(t: GfTables, blockSize: nat, data: seq<buffer>, fec: seq<buffer>, nos: seq<nat>, erased: seq<nat>)
    requires Usable(t, data, blockSize) && Usable(t, fec, blockSize)
    requires NoAlias(fec) && Disjoint(data, fec)
    requires |fec| == |nos| && Repairable(|data|, erased, nos)
    modifies fec
    ensures ReducedTo(fec, old(Contents(fec, blockSize)), Cleared(old(Contents(data, blockSize)), blockSize, erased),
                      blockSize, nos, |data|)
    ensures forall j :: 0 <= j < |fec| ==> fec[j][blockSize..] == old(fec[j][blockSize..])
  {
    hide Coefficients, Reduced, ReducedTo, Cleared, Passed, Ascending;
    ghost var f, z := Contents(fec, blockSize), Cleared(Contents(data, blockSize), blockSize, erased);
    PassedStart(erased);
    ReducedStart(fec, f, z, blockSize, nos);
    ClearedAt(Contents(data, blockSize), blockSize, erased);
    var erasedIdx := 0;
    for col := 0 to |data|
      invariant 0 <= erasedIdx <= |erased| && Passed(erased, erasedIdx, col)
      invariant ReducedTo(fec, f, z, blockSize, nos, col)
      invariant forall j :: 0 <= j < |fec| ==> fec[j][blockSize..] == old(fec[j][blockSize..])
    {
      PassedNext(erased, |data|, erasedIdx, col);
      if erasedIdx < |erased| && erased[erasedIdx] == col {
        erasedIdx := erasedIdx + 1;
        ReducedSkip(fec, f, z, blockSize, nos, col);
      } else {
        ReduceBlock(t, blockSize, data[col], fec, nos, col, f, z);
      }
    }
    PassedAll(erased, |data|, erasedIdx);
    assert erasedIdx == |erased|;
  }

  // ---------- decoding: solve for the lost blocks ----------

  method BuildMatrix(t: GfTables, nos: seq<nat>, erased: seq<nat>, ghost n: nat) returns (matrix: buffer)
    requires t.Valid() && Repairable(n, erased, nos)
    ensures fresh(matrix) && matrix.Length == Offset(|erased|, |erased|)
    ensures Rows(matrix[..], |erased|) == RepairMatrix(n, erased, nos)
  {
    hide Mul, Xor, Inv, Offset, Row, Rows;
    var e := |erased|;
    matrix := new gf[Offset(e, e)](_ => 0);
    ghost var m := RepairMatrix(n, erased, nos);
    for row := 0 to e
      invariant forall i :: 0 <= i < row ==> Rows(matrix[..], e)[i] == m[i]
    {
      ghost var a := matrix[..];
      var ptr := Offset(row, e);
      RowFits(row, e);
      var irow := 128 + nos[row];
      for col := 0 to e
        invariant matrix[..ptr] == a[..ptr] && matrix[ptr + e..] == a[ptr + e..]
        invariant matrix[ptr..ptr + col] == m[row][..col]
      {
        var icol := erased[col];
        CoefficientIndex(nos[row], icol, n);
        assert m[row][col] == Inv(Add(irow, icol));
        assert Add(irow, icol) == Xor(irow, icol);
        matrix[ptr + col] := t.inverse[Xor(irow, icol)];
      }
      assert m[row][..e] == m[row];
      assert matrix[..][..ptr] == a[..ptr] && matrix[..][ptr + e..] == a[ptr + e..];
      assert matrix[..][ptr..ptr + e] == m[row];
      RowReplaced(a, matrix[..], e, row, ptr, m[row]);
    }
  }

  /** One lost block: the sum of the reduced parity blocks weighted by a row of the inverse. */
  method SolveBlock(t: GfTables, blockSize: nat, target: buffer, fec: seq<buffer>, matrix: buffer, ptr: nat,
                    ghost a: vec)
    requires Usable(t, fec, blockSize) && Writable(t, target) && blockSize <= target.Length
    requires target !in fec && target != matrix && |fec| > 0
    requires ptr + |fec| <= matrix.Length && a == matrix[ptr..ptr + |fec|]
    modifies target
    ensures target[..blockSize] == Combination(a, Contents(fec, blockSize), blockSize, |fec|)
    ensures target[blockSize..] == old(target[blockSize..])
  {
    hide Add, Mul, Combination, Scaled, Added;
    ghost var g := Contents(fec, blockSize);
    FirstBlock(target[..], a, g, blockSize);
    MulBuffer(t, target, 0, fec[0], 0, matrix[ptr], blockSize);
    for col := 1 to |fec|
      invariant target[..blockSize] == Combination(a, g, blockSize, col)
      invariant target[blockSize..] == old(target[blockSize..])
    {
      NextBlock(target[..], a, g, blockSize, col);
      Addmul(t, target, 0, fec[col], 0, matrix[ptr + col], blockSize);
    }
  }

  /** The buffers of the lost blocks. */
  function Targets(data: seq<buffer>, erased: seq<nat>): (s: seq<buffer>)
    requires Ascending(erased, |data|)
    ensures |s| == |erased|
  {
    seq(|erased|, r requires 0 <= r < |erased| => data[erased[r]])
  }

  method Resolve(t: GfTables, blockSize: nat, data: seq<buffer>, fec: seq<buffer>, nos: seq<nat>, erased: seq<nat>)
    returns (ghost b: matrix)
    requires Usable(t, data, blockSize) && Usable(t, fec, blockSize)
    requires NoAlias(data) && Disjoint(data, fec)
    requires |fec| == |nos| && Repairable(|data|, erased, nos)
    modifies Targets(data, erased)
    ensures IsInverse(RepairMatrix(|data|, erased, nos), b, |erased|)
    ensures Square(b, |erased|)
    ensures forall r :: 0 <= r < |erased| ==>
      data[erased[r]][..blockSize] == Combination(b[r], Contents(fec, blockSize), blockSize, |fec|)
    ensures forall r :: 0 <= r < |erased| ==> data[erased[r]][blockSize..] == old(data[erased[r]][blockSize..])
  {
    hide Offset, Row, Rows, IsInverse, Combination, RepairMatrix, Invertible;
    var e := |fec|;
    var matrix := BuildMatrix(t, nos, erased, |data|);
    RepairMatrixInvertible(|data|, erased, nos);
    var r := InvertMat(t, matrix, e);
    if r != 0 {
      assert false;
    }
    b := Rows(matrix[..], e);
    for row := 0 to e
      invariant Rows(matrix[..], e) == b
      invariant forall r :: 0 <= r < row ==>
        data[erased[r]][..blockSize] == Combination(b[r], Contents(fec, blockSize), blockSize, e)
      invariant forall r :: 0 <= r < e ==> data[erased[r]][blockSize..] == old(data[erased[r]][blockSize..])
    {
      var target := data[erased[row]];
      var ptr := Offset(row, e);
      RowAt(matrix[..], e, row, ptr);
      assert target in Targets(data, erased) by { assert Targets(data, erased)[row] == target; }
      SolveBlock(t, blockSize, target, fec, matrix, ptr, b[row]);
    }
  }

  /** The solved blocks and the survivors have the parity blocks that came in. */
  lemma SolvedBlocks(d: seq<vec>, d': seq<vec>, size: nat, erased: seq<nat>, nos: seq<nat>, f: seq<vec>, g: seq<vec>,
                     b: matrix)
    requires Stripe(d, size) && Stripe(d', size) && Stripe(f, size) && Stripe(g, size)
    requires Repairable(|d|, erased, nos) && SameSurvivors(d, d', erased) && |f| == |g| == |nos|
    requires forall j :: 0 <= j < |f| ==>
      g[j] == Reduced(f[j], Coefficients(nos[j], |d|), Cleared(d, size, erased), size, |d|)
    requires IsInverse(RepairMatrix(|d|, erased, nos), b, |erased|) && Square(b, |erased|)
    requires forall r :: 0 <= r < |erased| ==> d'[erased[r]] == Combination(b[r], g, size, |g|)
    ensures IsRepair(d, d', size, erased, nos, f)
  {
    hide Add, Mul, Dot, Inv, Coefficients, RepairMatrix, IsInverse, IsRepairedByte;
    forall i | 0 <= i < size
      ensures IsRepairedByte(ByteColumn(d', size, i), ByteColumn(d, size, i), erased, nos,
                             seq(|f|, j requires 0 <= j < |f| => f[j][i]))
    {
      SolvedColumn(d, d', size, erased, nos, f, g, b, i);
    }
    ByColumns(d, d', size, erased, nos, f);
  }

  lemma SolvedColumn(d: seq<vec>, d': seq<vec>, size: nat, erased: seq<nat>, nos: seq<nat>, f: seq<vec>, g: seq<vec>,
                     b: matrix, i: nat)
    requires Stripe(d, size) && Stripe(d', size) && Stripe(f, size) && Stripe(g, size) && i < size
    requires Repairable(|d|, erased, nos) && SameSurvivors(d, d', erased) && |f| == |g| == |nos|
    requires forall j :: 0 <= j < |f| ==>
      g[j] == Reduced(f[j], Coefficients(nos[j], |d|), Cleared(d, size, erased), size, |d|)
    requires IsInverse(RepairMatrix(|d|, erased, nos), b, |erased|) && Square(b, |erased|)
    requires forall r :: 0 <= r < |erased| ==> d'[erased[r]] == Combination(b[r], g, size, |g|)
    ensures IsRepairedByte(ByteColumn(d', size, i), ByteColumn(d, size, i), erased, nos,
                           seq(|f|, j requires 0 <= j < |f| => f[j][i]))
  {
    hide Add, Mul, Dot, Inv, Coefficients, RepairMatrix, IsInverse, IsRepairedByte;
    var v, w := ByteColumn(d, size, i), ByteColumn(d', size, i);
    var x, y := Picked(w, erased), ByteColumn(g, size, i);
    assert ByteColumn(Cleared(d, size, erased), size, i) == Blanked(v, erased);
    assert Blanked(w, erased) == Blanked(v, erased);
    forall r | 0 <= r < |erased|
      ensures x[r] == Dot(b[r], y, |erased|)
    {
      assert x[r] == d'[erased[r]][i];
    }
    InverseSolves(RepairMatrix(|d|, erased, nos), b, x, y, |erased|);
    SolvedByte(w, v, erased, nos, seq(|f|, j requires 0 <= j < |f| => f[j][i]), x, y);
  }

  /** Restores the lost data blocks in place from the survivors and as many parity blocks. */
  method FecDecode(t: GfTables, blockSize: nat, data: seq<buffer>, fec: seq<buffer>, nos: seq<nat>, erased: seq<nat>)
    requires Usable(t, data, blockSize) && Usable(t, fec, blockSize)
    requires NoAlias(data) && NoAlias(fec) && Disjoint(data, fec)
    requires |fec| == |nos| && Repairable(|data|, erased, nos)
    modifies fec, Targets(data, erased)
    ensures Contents(data, blockSize)
         == Repair(old(Contents(data, blockSize)), blockSize, erased, nos, old(Contents(fec, blockSize)))
    ensures forall r :: 0 <= r < |erased| ==> data[erased[r]][blockSize..] == old(data[erased[r]][blockSize..])
  {
    hide Coefficients, Reduced, Cleared, Combination, RepairMatrix, Repair, IsInverse;
    ghost var d, f := Contents(data, blockSize), Contents(fec, blockSize);
    Reduce(t, blockSize, data, fec, nos, erased);
    ghost var g := Contents(fec, blockSize);
    assert Contents(data, blockSize) == d;
    ghost var b := Resolve(t, blockSize, data, fec, nos, erased);
    ghost var d' := Contents(data, blockSize);
    assert SameSurvivors(d, d', erased) by { SurvivorsKept(data, erased); }
    SolvedBlocks(d, d', blockSize, erased, nos, f, g, b);
    UniqueRepair(d', Repair(d, blockSize, erased, nos, f), blockSize, erased, nos, f);
  }

  lemma SurvivorsKept(data: seq<buffer>, erased: seq<nat>)
    requires NoAlias(data) && Ascending(erased, |data|)
    ensures forall c :: 0 <= c < |data| && c !in erased ==> data[c] !in Targets(data, erased)
  {
    forall c, r | 0 <= c < |data| && c !in erased && 0 <= r < |erased|
      ensures data[c] != Targets(data, erased)[r]
    {
      assert erased[r] in erased;
    }
  }
}
