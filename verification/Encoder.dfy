/** FECEncoder: collects data blocks into groups and adds parity blocks to them. */
module Encoder {
  import opened GF256
  import opened LinearAlgebra
  import opened GaussJordan
  import opened ErasureCode
  import opened Tables
  import opened Fec
  import opened Wrappers
  import opened Blocks
  import opened EncoderModel

  class FECEncoder {
    const tables: GfTables
    const numBlocks: gf
    const numFecBlocks: gf
    const maxBlockSize: nat
    var seqNum: gf
    var inBlocks: seq<FECBlock>
    var outBlocks: seq<FECBlock>

    function Value(): State
      reads this
    {
      State(numBlocks, numFecBlocks, maxBlockSize, seqNum, inBlocks, outBlocks)
    }

    ghost predicate Ready()
      reads this, tables.gfExp, tables.gfLog, tables.inverse, tables.mulTable
    {
      tables.Valid() && EncoderModel.Valid(Value())
    }

    constructor (numBlocks: gf, numFecBlocks: gf, maxBlockSize: nat, startSeqNum: gf)
      requires 2 <= maxBlockSize <= MAX_BODY
      requires numFecBlocks != 0 && numBlocks != 0 ==> numBlocks <= LIMIT && numFecBlocks <= LIMIT
      ensures Ready() && Value() == State(numBlocks, numFecBlocks, maxBlockSize, startSeqNum, [], [])
    {
      this.numBlocks, this.numFecBlocks, this.maxBlockSize := numBlocks, numFecBlocks, maxBlockSize;
      seqNum, inBlocks, outBlocks := startSeqNum, [], [];
      tables := new GfTables();
    }

    method GetNextBlock(length: nat) returns (b: FECBlock)
      requires Ready() && length < 65536
      ensures b == FreshBlock(Value(), length)
    {
      b := FECBlock(seqNum, |inBlocks| % 256, numBlocks, numFecBlocks, LengthBytes(length) + Zeros(maxBlockSize - 2));
    }

    method AddBlock(block: FECBlock)
      requires Ready() && Fits(block, maxBlockSize)
      modifies this
      ensures Ready() && Value() == AfterAdd(old(Value()), block)
    {
      hide AfterEncode;
      AddKeepsValid(Value(), block);
      var b := block.(block := |inBlocks| % 256);
      if numFecBlocks == 0 || numBlocks == 0 {
        outBlocks := outBlocks + [b];
        seqNum := (seqNum + 1) % 256;
        if seqNum == 0 {
          seqNum := seqNum + 1;
        }
      } else {
        inBlocks := inBlocks + [b];
        if numFecBlocks > 0 && b.block == numBlocks - 1 {
          EncodeBlocks();
        }
      }
    }

    method GetBlock() returns (b: Option<FECBlock>)
      modifies `outBlocks
      ensures if old(outBlocks) == [] then b == None && outBlocks == []
              else b == Some(old(outBlocks)[0]) && outBlocks == old(outBlocks)[1..]
    {
      if outBlocks == [] {
        return None;
      }
      b := Some(outBlocks[0]);
      outBlocks := outBlocks[1..];
    }

    method Flush()
      requires Ready()
      modifies this
      ensures Ready() && Value() == AfterEncode(old(Value()))
    {
      EncodeBlocks();
    }

    method EncodeBlocks()
      requires tables.Valid() && Encodable(Value())
      modifies this
      ensures Value() == AfterEncode(old(Value()))
    {
      hide Parity, MaxSize, ParityBlocks, DataBlocks;
      if |inBlocks| == 0 {
        return;
      }
      var count := |inBlocks| % 256;
      var blockSize := LargestBlock();
      SizeFits(Value());
      var bodies := QueueData(count, blockSize);
      QueueParity(bodies, count, blockSize);
      seqNum := (seqNum + 1) % 256;
      if seqNum == 0 {
        seqNum := seqNum + 1;
      }
      inBlocks := [];
    }

    /** The block size is the size of the largest block in the group. */
    method LargestBlock() returns (blockSize: nat)
      requires |inBlocks| < 256 && forall i :: 0 <= i < |inBlocks| ==> inBlocks[i].WellFormed()
      ensures blockSize == MaxSize(inBlocks)
    {
      blockSize := 0;
      for i := 0 to |inBlocks|
        invariant blockSize == MaxSize(inBlocks[..i])
      {
        assert inBlocks[..i + 1][..i] == inBlocks[..i];
        blockSize := if blockSize < inBlocks[i].BlockSize() then inBlocks[i].BlockSize() else blockSize;
      }
      assert inBlocks[..|inBlocks|] == inBlocks;
    }

    /** Cuts the data blocks to the block size, sets their count and puts them out. */
    method QueueData(count: gf, blockSize: nat) returns (bodies: seq<vec>)
      requires count == |inBlocks| && forall i :: 0 <= i < |inBlocks| ==> blockSize <= |inBlocks[i].body|
      modifies `outBlocks
      ensures outBlocks == old(outBlocks) + DataBlocks(inBlocks, blockSize)
      ensures bodies == BlockBodies(DataBlocks(inBlocks, blockSize))
    {
      ghost var data := DataBlocks(inBlocks, blockSize);
      bodies := [];
      for i := 0 to count
        invariant bodies == BlockBodies(data)[..i]
        invariant outBlocks == old(outBlocks) + data[..i]
      {
        var block := inBlocks[i].(body := inBlocks[i].body[..blockSize]);
        block := block.(nBlocks := count);
        bodies := bodies + [block.body];
        outBlocks := outBlocks + [block];
      }
    }

    /** Creates the parity blocks and puts them out. */
    method QueueParity(bodies: seq<vec>, count: gf, blockSize: nat)
      requires tables.Valid() && Stripe(bodies, blockSize) && |bodies| == count > 0 && numFecBlocks <= LIMIT
      modifies `outBlocks
      ensures outBlocks == old(outBlocks) + ParityBlocks(seqNum, bodies, blockSize, numFecBlocks)
    {
      hide Parity;
      var parities := ComputeParity(bodies, blockSize);
      ghost var parityBlocks := ParityBlocks(seqNum, bodies, blockSize, numFecBlocks);
      for i := 0 to numFecBlocks
        invariant outBlocks == old(outBlocks) + parityBlocks[..i]
      {
        var block := FECBlock(seqNum, (count + i) % 256, count, numFecBlocks, parities[i]);
        outBlocks := outBlocks + [block];
      }
    }

    /** Runs the erasure encoder on buffers with the bytes of the data blocks. */
    method ComputeParity(bodies: seq<vec>, size: nat) returns (parities: seq<vec>)
      requires tables.Valid() && Stripe(bodies, size) && |bodies| > 0 && numFecBlocks <= LIMIT
      ensures |parities| == numFecBlocks
      ensures forall r :: 0 <= r < |parities| ==> parities[r] == Parity(bodies, size, r)
    {
      hide Parity;
      var data := CopyBuffers(tables, bodies, size);
      var fec := CopyBuffers(tables, seq(numFecBlocks, _ => Zeros(size)), size);
      FecEncode(tables, size, data, fec);
      parities := Contents(fec, size);
    }
  }
}
