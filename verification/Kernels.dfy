/** The buffer kernels: dst += c * src and dst = c * src over a run of bytes. A pointer is an
    array with an offset, since the matrix routines run the kernels on rows of one array. */
module Kernels {
  import opened GF256
  import opened LinearAlgebra
  import opened Tables

  /** The tables can be used and dst is not one of them. */
  ghost predicate Writable(t: GfTables, dst: array<gf>)
    reads t.gfExp, t.gfLog, t.inverse, t.mulTable
  {
    t.Valid() && dst != t.gfExp && dst != t.inverse && dst != t.mulTable
  }

  /** Two runs of sz bytes that share no byte. */
  ghost predicate Apart(dst: array<gf>, d: nat, src: array<gf>, s: nat, sz: nat)
  {
    && d + sz <= dst.Length
    && s + sz <= src.Length
    && (dst == src ==> d + sz <= s || s + sz <= d)
  }

  /** Bytes a after c * b[j] has been added to byte d + j for every j < n. */
  function Added(a: vec, d: nat, c: gf, b: vec, n: nat): (r: vec)
    requires n <= |b| && d + n <= |a|
    ensures |r| == |a|
  {
    seq(|a|, i requires 0 <= i < |a| => if d <= i < d + n then Add(a[i], Mul(c, b[i - d])) else a[i])
  }

  function ScaledByte(a: vec, d: nat, c: gf, b: vec, n: nat, i: nat): gf
    requires n <= |b| && d + n <= |a| && i < |a|
  {
    if d <= i < d + n then Mul(c, b[i - d]) else a[i]
  }

  /** Bytes a after c * b[j] has been stored in byte d + j for every j < n. */
  function Scaled(a: vec, d: nat, c: gf, b: vec, n: nat): (r: vec)
    requires n <= |b| && d + n <= |a|
    ensures |r| == |a|
  {
    seq(|a|, i requires 0 <= i < |a| => ScaledByte(a, d, c, b, n, i))
  }

  // ---------- dst += c * src ----------

  method Addmul(t: GfTables, dst: array<gf>, d: nat, src: array<gf>, s: nat, c: gf, sz: nat)
    requires Writable(t, dst) && Apart(dst, d, src, s, sz)
    modifies dst
    ensures dst[..] == Added(old(dst[..]), d, c, old(src[s..s + sz]), sz)
  {
    hide Mul, Add;
    if c != 0 {
      SlowAddmul1(t, dst, d, src, s, c, sz);
    } else {
      forall i | d <= i < d + sz
        ensures dst[i] == Add(dst[i], Mul(c, src[s + (i - d)]))
      {
        MulZero(src[s + (i - d)]);
        AddZero(dst[i]);
      }
      assert dst[..] == Added(dst[..], d, c, src[s..s + sz], sz);
    }
  }

  /** The first p bytes are done and the rest of the source is still what it was. */
  ghost predicate AddedSoFar(dst: array<gf>, d: nat, src: array<gf>, s: nat, c: gf, a: vec, b: vec, p: nat)
    reads dst, src
  {
    && Apart(dst, d, src, s, |b|)
    && |a| == dst.Length
    && p <= |b|
    && dst[..] == Added(a, d, c, b, p)
    && forall j :: p <= j < |b| ==> src[s + j] == b[j]
  }

  method SlowAddmul1(t: GfTables, dst: array<gf>, d: nat, src: array<gf>, s: nat, c: gf, sz: nat)
    requires Writable(t, dst) && Apart(dst, d, src, s, sz)
    modifies dst
    ensures dst[..] == Added(old(dst[..]), d, c, old(src[s..s + sz]), sz)
  {
    hide Mul, Add;
    ghost var a, b := dst[..], src[s..s + sz];
    assert AddedSoFar(dst, d, src, s, c, a, b, 0);
    hide AddedSoFar, Added, Writable;
    var p := 0;
    while p + 16 <= sz
      invariant p <= sz && Writable(t, dst) && AddedSoFar(dst, d, src, s, c, a, b, p)
    {
      GfAddmulc(t, dst, d, src, s, c, p, a, b);
      GfAddmulc(t, dst, d, src, s, c, p + 1, a, b);
      GfAddmulc(t, dst, d, src, s, c, p + 2, a, b);
      GfAddmulc(t, dst, d, src, s, c, p + 3, a, b);
      GfAddmulc(t, dst, d, src, s, c, p + 4, a, b);
      GfAddmulc(t, dst, d, src, s, c, p + 5, a, b);
      GfAddmulc(t, dst, d, src, s, c, p + 6, a, b);
      GfAddmulc(t, dst, d, src, s, c, p + 7, a, b);
      GfAddmulc(t, dst, d, src, s, c, p + 8, a, b);
      GfAddmulc(t, dst, d, src, s, c, p + 9, a, b);
      GfAddmulc(t, dst, d, src, s, c, p + 10, a, b);
      GfAddmulc(t, dst, d, src, s, c, p + 11, a, b);
      GfAddmulc(t, dst, d, src, s, c, p + 12, a, b);
      GfAddmulc(t, dst, d, src, s, c, p + 13, a, b);
      GfAddmulc(t, dst, d, src, s, c, p + 14, a, b);
      GfAddmulc(t, dst, d, src, s, c, p + 15, a, b);
      p := p + 16;
    }
    while p < sz
      invariant p <= sz && Writable(t, dst) && AddedSoFar(dst, d, src, s, c, a, b, p)
    {
      GfAddmulc(t, dst, d, src, s, c, p, a, b);
      p := p + 1;
    }
    AddedDone(dst, d, src, s, c, a, b);
  }

  lemma AddedDone(dst: array<gf>, d: nat, src: array<gf>, s: nat, c: gf, a: vec, b: vec)
    requires AddedSoFar(dst, d, src, s, c, a, b, |b|)
    ensures |a| == dst.Length && d + |b| <= |a| && dst[..] == Added(a, d, c, b, |b|)
  {
  }

  /** One byte: a look-up in row c of the product table, added to the destination. */
  method GfAddmulc(t: GfTables, dst: array<gf>, d: nat, src: array<gf>, s: nat, c: gf, p: nat, ghost a: vec,
                   ghost b: vec)
    requires Writable(t, dst) && p < |b| && AddedSoFar(dst, d, src, s, c, a, b, p)
    modifies dst
    ensures Writable(t, dst) && AddedSoFar(dst, d, src, s, c, a, b, p + 1)
  {
    hide Mul, Add;
    var x := src[s + p];
    assert x == b[p];
    assert t.mulTable[256 * c + x] == Mul(c, x);
    dst[d + p] := Add(dst[d + p], t.mulTable[256 * c + x]);
  }

  // ---------- dst = c * src ----------

  method MulBuffer(t: GfTables, dst: array<gf>, d: nat, src: array<gf>, s: nat, c: gf, sz: nat)
    requires Writable(t, dst) && Apart(dst, d, src, s, sz)
    modifies dst
    ensures dst[..] == Scaled(old(dst[..]), d, c, old(src[s..s + sz]), sz)
  {
    hide Mul, Add;
    if c != 0 {
      SlowMul1(t, dst, d, src, s, c, sz);
    } else {
      forall x: gf
        ensures Mul(0, x) == 0
      {
        MulZero(x);
      }
      for p := 0 to sz
        invariant forall i :: d <= i < d + p ==> dst[i] == 0
        invariant forall i :: 0 <= i < dst.Length && !(d <= i < d + p) ==> dst[i] == old(dst[i])
      {
        dst[d + p] := 0;
      }
    }
  }

  /** The first p bytes are done and the rest of the source is still what it was. */
  ghost predicate ScaledSoFar(dst: array<gf>, d: nat, src: array<gf>, s: nat, c: gf, a: vec, b: vec, p: nat)
    reads dst, src
  {
    && Apart(dst, d, src, s, |b|)
    && |a| == dst.Length
    && p <= |b|
    && dst[..] == Scaled(a, d, c, b, p)
    && forall j :: p <= j < |b| ==> src[s + j] == b[j]
  }

  method SlowMul1(t: GfTables, dst: array<gf>, d: nat, src: array<gf>, s: nat, c: gf, sz: nat)
    requires Writable(t, dst) && Apart(dst, d, src, s, sz)
    modifies dst
    ensures dst[..] == Scaled(old(dst[..]), d, c, old(src[s..s + sz]), sz)
  {
    hide Mul, Add;
    ghost var a, b := dst[..], src[s..s + sz];
    assert ScaledSoFar(dst, d, src, s, c, a, b, 0);
    hide ScaledSoFar, Scaled, Writable;
    var p := 0;
    while p + 16 <= sz
      invariant p <= sz && Writable(t, dst) && ScaledSoFar(dst, d, src, s, c, a, b, p)
    {
      GfMulc(t, dst, d, src, s, c, p, a, b);
      GfMulc(t, dst, d, src, s, c, p + 1, a, b);
      GfMulc(t, dst, d, src, s, c, p + 2, a, b);
      GfMulc(t, dst, d, src, s, c, p + 3, a, b);
      GfMulc(t, dst, d, src, s, c, p + 4, a, b);
      GfMulc(t, dst, d, src, s, c, p + 5, a, b);
      GfMulc(t, dst, d, src, s, c, p + 6, a, b);
      GfMulc(t, dst, d, src, s, c, p + 7, a, b);
      GfMulc(t, dst, d, src, s, c, p + 8, a, b);
      GfMulc(t, dst, d, src, s, c, p + 9, a, b);
      GfMulc(t, dst, d, src, s, c, p + 10, a, b);
      GfMulc(t, dst, d, src, s, c, p + 11, a, b);
      GfMulc(t, dst, d, src, s, c, p + 12, a, b);
      GfMulc(t, dst, d, src, s, c, p + 13, a, b);
      GfMulc(t, dst, d, src, s, c, p + 14, a, b);
      GfMulc(t, dst, d, src, s, c, p + 15, a, b);
      p := p + 16;
    }
    while p < sz
      invariant p <= sz && Writable(t, dst) && ScaledSoFar(dst, d, src, s, c, a, b, p)
    {
      GfMulc(t, dst, d, src, s, c, p, a, b);
      p := p + 1;
    }
    ScaledDone(dst, d, src, s, c, a, b);
  }

  lemma ScaledDone(dst: array<gf>, d: nat, src: array<gf>, s: nat, c: gf, a: vec, b: vec)
    requires ScaledSoFar(dst, d, src, s, c, a, b, |b|)
    ensures |a| == dst.Length && d + |b| <= |a| && dst[..] == Scaled(a, d, c, b, |b|)
  {
  }

  /** One byte: a look-up in row c of the product table, stored in the destination. */
  method GfMulc(t: GfTables, dst: array<gf>, d: nat, src: array<gf>, s: nat, c: gf, p: nat, ghost a: vec, ghost b: vec)
    requires Writable(t, dst) && p < |b| && ScaledSoFar(dst, d, src, s, c, a, b, p)
    modifies dst
    ensures Writable(t, dst) && ScaledSoFar(dst, d, src, s, c, a, b, p + 1)
  {
    hide Mul, Add;
    var x := src[s + p];
    assert x == b[p];
    assert t.mulTable[256 * c + x] == Mul(c, x);
    dst[d + p] := t.mulTable[256 * c + x];
  }
}
