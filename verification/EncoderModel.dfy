/** FECEncoder's operations as functions of its state. */
module EncoderModel {
  import opened GF256
  import opened LinearAlgebra
  import opened GaussJordan
  import opened ErasureCode
  import opened Blocks

  datatype State = State(numBlocks: gf, numFecBlocks: gf, maxBlockSize: nat, seqNum: gf, ins: seq<FECBlock>,
                         out: seq<FECBlock>)

  /** Sequence numbers run through 1..255 and skip 0. */
  function NextSeq(s: gf): gf
  {
    var n := (s + 1) % 256;
    if n == 0 then 1 else n
  }

  predicate Passing(s: State)
  {
    s.numFecBlocks == 0 || s.numBlocks == 0
  }

  /** The limits of the erasure code and of the packet format, and blocks that fit their buffers. */
  predicate Valid(s: State)
  {
    && 2 <= s.maxBlockSize <= MAX_BODY
    && (!Passing(s) ==> s.numBlocks <= LIMIT && s.numFecBlocks <= LIMIT && |s.ins| < s.numBlocks)
    && (Passing(s) ==> s.ins == [])
    && forall i :: 0 <= i < |s.ins| ==> Fits(s.ins[i], s.maxBlockSize)
  }

  /** A block with room for the maximum block size whose data does not need more. */
  predicate Fits(b: FECBlock, maxBlockSize: nat)
  {
    b.WellFormed() && 2 + b.DataLength() <= maxBlockSize <= |b.body|
  }

  /** A new data block with room for maxBlockSize bytes, all zero but the length. */
  function FreshBlock(s: State, length: nat): FECBlock
    requires Valid(s) && length < 65536
  {
    FECBlock(s.seqNum, |s.ins| % 256, s.numBlocks, s.numFecBlocks, LengthBytes(length) + Zeros(s.maxBlockSize - 2))
  }

  function MaxSize(ins: seq<FECBlock>): (m: nat)
    requires forall i :: 0 <= i < |ins| ==> ins[i].WellFormed()
    ensures forall i :: 0 <= i < |ins| ==> ins[i].BlockSize() <= m
    ensures ins == [] ==> m == 0
    ensures ins != [] ==> exists i :: 0 <= i < |ins| && ins[i].BlockSize() == m
  {
    if ins == [] then 0
    else
      var n := |ins| - 1;
      var m := MaxSize(ins[..n]);
      if m < ins[n].BlockSize() then ins[n].BlockSize() else m
  }

  /** The data blocks of a group, cut to the size of the largest one. */
  function DataBlocks(ins: seq<FECBlock>, size: nat): (d: seq<FECBlock>)
    requires |ins| < 256 && forall i :: 0 <= i < |ins| ==> size <= |ins[i].body|
    ensures |d| == |ins| && forall i :: 0 <= i < |d| ==> |d[i].body| == size
  {
    seq(|ins|, i requires 0 <= i < |ins| => ins[i].(nBlocks := |ins|, body := ins[i].body[..size]))
  }

  function BlockBodies(d: seq<FECBlock>): (b: seq<vec>)
    ensures |b| == |d|
  {
    seq(|d|, i requires 0 <= i < |d| => d[i].body)
  }

  ghost function ParityBlock(seqNum: gf, bodies: seq<vec>, size: nat, f: gf, i: nat): FECBlock
    requires Stripe(bodies, size) && i < f <= LIMIT
  {
    FECBlock(seqNum, (|bodies| + i) % 256, |bodies|, f, Parity(bodies, size, i))
  }

  ghost function ParityBlocks(seqNum: gf, bodies: seq<vec>, size: nat, f: gf): (p: seq<FECBlock>)
    requires Stripe(bodies, size) && f <= LIMIT
    ensures |p| == f
  {
    seq(f, i requires 0 <= i < f => ParityBlock(seqNum, bodies, size, f, i))
  }

  /** The blocks can be sent as one group. */
  predicate Encodable(s: State)
  {
    && (s.ins != [] ==> |s.ins| <= LIMIT && s.numFecBlocks <= LIMIT)
    && 2 <= s.maxBlockSize <= MAX_BODY
    && forall i :: 0 <= i < |s.ins| ==> Fits(s.ins[i], s.maxBlockSize)
  }

  lemma SizeFits(s: State)
    requires Encodable(s)
    ensures MaxSize(s.ins) <= s.maxBlockSize
    ensures s.ins != [] ==> 2 <= MaxSize(s.ins)
  {
    hide MaxSize;
    if s.ins != [] {
      var i :| 0 <= i < |s.ins| && s.ins[i].BlockSize() == MaxSize(s.ins);
      FitsSize(s.ins[i], s.maxBlockSize);
    }
  }

  lemma FitsSize(b: FECBlock, maxBlockSize: nat)
    requires Fits(b, maxBlockSize)
    ensures b.BlockSize() == b.DataLength() + 2 <= maxBlockSize
  {
  }

  ghost function AfterEncode(s: State): State
    requires Encodable(s)
  {
    if s.ins == [] then s
    else
      SizeFits(s);
      var size := MaxSize(s.ins);
      var data := DataBlocks(s.ins, size);
      s.(out := s.out + data + ParityBlocks(s.seqNum, BlockBodies(data), size, s.numFecBlocks),
         seqNum := NextSeq(s.seqNum),
         ins := [])
  }

  ghost function AfterAdd(s: State, b: FECBlock): State
    requires Valid(s) && Fits(b, s.maxBlockSize)
  {
    var c := b.(block := |s.ins| % 256);
    if Passing(s) then s.(out := s.out + [c], seqNum := NextSeq(s.seqNum))
    else
      var t := s.(ins := s.ins + [c]);
      if c.block == s.numBlocks - 1 then AfterEncode(t) else t
  }

  predicate SameLimits(s: State, t: State)
  {
    t.numBlocks == s.numBlocks && t.numFecBlocks == s.numFecBlocks && t.maxBlockSize == s.maxBlockSize
  }

  lemma EncodeKeeps(s: State)
    requires Encodable(s)
    ensures SameLimits(s, AfterEncode(s)) && AfterEncode(s).ins == []
  {
  }

  lemma FlushKeepsValid(s: State)
    requires Valid(s)
    ensures Encodable(s) && SameLimits(s, AfterEncode(s)) && Valid(AfterEncode(s))
  {
    hide AfterEncode, Fits;
    EncodeKeeps(s);
  }

  lemma AddKeepsValid(s: State, b: FECBlock)
    requires Valid(s) && Fits(b, s.maxBlockSize)
    ensures SameLimits(s, AfterAdd(s, b)) && Valid(AfterAdd(s, b))
  {
    hide AfterEncode;
    if !Passing(s) {
      var t := s.(ins := s.ins + [b.(block := |s.ins| % 256)]);
      assert Encodable(t);
      EncodeKeeps(t);
    }
  }
}
