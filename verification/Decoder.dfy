/** FECDecoder: fed with packets, puts out data blocks. */
module Decoder {
  import opened GF256
  import opened LinearAlgebra
  import opened ErasureCode
  import opened Tables
  import opened Fec
  import opened Wrappers
  import opened Blocks
  import opened DecoderModel

  class FECDecoder {
    const tables: GfTables
    var blockSize: nat
    var prevSeq: gf
    var prevBlock: gf
    var blocks: seq<FECBlock>
    var fecBlocks: seq<FECBlock>
    var outBlocks: seq<FECBlock>
    var stats: Stats

    function Value(): State
      reads this
    {
      State(blockSize, prevSeq, prevBlock, blocks, fecBlocks, outBlocks, stats)
    }

    ghost predicate Valid()
      reads tables.gfExp, tables.gfLog, tables.inverse, tables.mulTable
    {
      tables.Valid()
    }

    constructor ()
      ensures Valid() && Value() == INITIAL
    {
      tables := new GfTables();
      blockSize, prevSeq, prevBlock := 0, 0, 0;
      blocks, fecBlocks, outBlocks := [], [], [];
      stats := Stats(0, 0, 0, 0, 0, 0);
    }

    method GetBlock() returns (b: Option<FECBlock>)
      modifies `outBlocks
      ensures if old(outBlocks) == [] then b == None && outBlocks == []
              else b == Some(old(outBlocks)[0]) && outBlocks == old(outBlocks)[1..]
    {
      if outBlocks == [] {
        return None;
      }
      b := Some(outBlocks[0]);
      outBlocks := outBlocks[1..];
    }

    method AddBlock(blk: FECBlock)
      requires Valid() && Accepts(Value(), blk)
      modifies this
      ensures Value() == Step(old(Value()), blk)
    {
      hide Decoded, Decodable, Prepared, StoreData, StoreParity;
      var unrolledPrevSeq, unrolledSeq := prevSeq as int, blk.seqNum as int;
      if unrolledPrevSeq > unrolledSeq {
        unrolledSeq := unrolledSeq + 256;
      }
      stats := stats.(totalPackets := stats.totalPackets + 1, bytes := stats.bytes + blk.PktLength());

      // Without FEC on this channel the block is released at once.
      if blk.nBlocks == 0 || blk.nFecBlocks == 0 {
        var db := (unrolledSeq - unrolledPrevSeq - 1) % 65536;
        stats := stats.(droppedPackets := stats.droppedPackets + db, droppedBlocks := stats.droppedBlocks + db);
        prevSeq, prevBlock := blk.seqNum, blk.block;
        outBlocks := outBlocks + [blk];
        return;
      }

      if blockSize == 0 && unrolledPrevSeq == unrolledSeq {
        prevSeq, prevBlock := blk.seqNum, blk.block;
        return;
      }
      EnterGroup(blk, unrolledPrevSeq, unrolledSeq);
      Store(blk);
    }

    /** Leaves an incomplete group of another sequence number, counts gaps and takes over the header. */
    method EnterGroup(blk: FECBlock, unrolledPrevSeq: int, unrolledSeq: int)
      requires unrolledPrevSeq == prevSeq && unrolledSeq == Unrolled(prevSeq, blk.seqNum)
      modifies this
      ensures Value() == Prepared(old(Value()), blk)
    {
      if blockSize != 0 {
        if unrolledPrevSeq != unrolledSeq {
          if unrolledSeq < unrolledPrevSeq {
            assert false;
          } else {
            var db := unrolledSeq - unrolledPrevSeq;
            if db > 0 {
              stats := stats.(droppedBlocks := stats.droppedBlocks + db);
            }
            var pbn := PacketNumber(unrolledPrevSeq, blk.nBlocks + blk.nFecBlocks, prevBlock);
            var bn := PacketNumber(unrolledSeq, blk.nBlocks + blk.nFecBlocks, blk.block);
            if pbn < bn {
              stats := stats.(droppedPackets := stats.droppedPackets + (bn - pbn));
            }
          }
          blockSize, blocks, fecBlocks := 0, [], [];
        } else if blk.block <= prevBlock {
          stats := stats.(droppedPackets := stats.droppedPackets + 1);
        } else {
          var dropped := blk.block - prevBlock - 1;
          if dropped > 0 {
            stats := stats.(droppedPackets := stats.droppedPackets + dropped);
          }
        }
      }
      prevSeq, prevBlock := blk.seqNum, blk.block;
      if blockSize == 0 && blk.block > 0 {
        stats := stats.(droppedPackets := stats.droppedPackets + blk.block);
      }
    }

    /** Stores a packet of the current group and completes the group if it can. */
    method Store(blk: FECBlock)
      requires Valid() && blk.WellFormed()
      requires !blk.IsData() && Completes(Value(), blk) ==>
        blocks == [] || Decodable(Value().(fecBlocks := fecBlocks + [blk]))
      modifies this
      ensures Value() == if blk.IsData() then StoreData(old(Value()), blk) else StoreParity(old(Value()), blk)
    {
      hide Decoded, Decodable;
      if blk.IsData() {
        blockSize := Max(blockSize, blk.BlockSize());
      }
      if blk.IsData() {
        blocks := blocks + [blk];
        if |blocks| - 1 == blk.block {
          outBlocks := outBlocks + [blk];
        }
        if |blocks| == blk.nBlocks {
          blockSize, blocks, fecBlocks := 0, [], [];
          stats := stats.(totalBlocks := stats.totalBlocks + 1);
        }
      } else {
        fecBlocks := fecBlocks + [blk];
        if |blocks| + |fecBlocks| == blk.nBlocks {
          Decode();
          blockSize, blocks, fecBlocks := 0, [], [];
          stats := stats.(totalBlocks := stats.totalBlocks + 1);
        }
      }
    }

    /** Repairs the current group and releases it from its first missing block on. */
    method Decode()
      requires Valid() && (blocks == [] || Decodable(Value()))
      modifies `outBlocks, `stats
      ensures Value() == if old(blocks) == [] then old(Value()) else Decoded(old(Value()))
    {
      if |blocks| == 0 {
        return;
      }
      hide RepairedTable, Decodable, Released, Missing;
      var h := blocks[0];
      var nBlocks := h.nBlocks;
      if nBlocks > |blocks| + |fecBlocks| {
        stats := stats.(lostSync := stats.lostSync + 1);
        return;
      }
      if nBlocks == 0 || h.nFecBlocks == 0 {
        return;
      }
      var table, erased := Repaired();
      assert blockSize >= 2 && erased != [] && erased[0] <= nBlocks by { FirstMissing(Value()); }
      Send(table, erased[0]);
    }

    /** Sends the remainder of blocks that have a reasonable length. */
    method Send(table: seq<FECBlock>, first: nat)
      requires 2 <= blockSize && first <= |table| && forall i :: 0 <= i < |table| ==> blockSize <= |table[i].body|
      modifies `outBlocks, `stats
      ensures Value() == Released(old(Value()), table, first)
    {
      hide Sendable;
      ghost var s := Value();
      ghost var all := Sendable(table, blockSize, first);
      ghost var n := 0;
      SendableDone(table, blockSize);
      for i := first to |table|
        invariant 0 <= n <= i - first && n <= |all|
        invariant Sendable(table, blockSize, i) == all[n..]
        invariant outBlocks == s.out + all[..n]
        invariant stats == s.stats.(droppedBlocks := s.stats.droppedBlocks + (i - first - n))
      {
        SendableNext(table, blockSize, i, all, n);
        if table[i].DataLength() <= blockSize {
          outBlocks := outBlocks + [table[i]];
          assert all[..n + 1] == all[..n] + [table[i]];
          n := n + 1;
        } else {
          stats := stats.(droppedBlocks := stats.droppedBlocks + 1);
        }
      }
    }

    /** The block at every index below n, with blank blocks in the gaps, and the gaps in order. */
    method FillTable(n: nat) returns (table: seq<FECBlock>, erased: seq<nat>)
      requires blocks != [] && 2 <= blockSize <= MAX_BODY
      requires forall k :: 0 <= k < |blocks| ==> blocks[k].block < n
      ensures table == Table(Value(), n) && erased == Missing(blocks, n)
    {
      hide Find, Table, Missing, Slot;
      var slots := FillSlots(n);
      MissingStart(blocks);
      table, erased := [], [];
      for i := 0 to n
        invariant table == Table(Value(), n)[..i] && erased == Missing(blocks, i)
      {
        assert slots[i] == Slot(blocks, i);
        TableAt(Value(), n, i);
        if slots[i].None? {
          table := table + [Blank(blocks[0], blockSize)];
          erased := erased + [i];
        } else {
          table := table + [slots[i].value];
        }
      }
    }

    /** Puts every stored block at its index. */
    method FillSlots(n: nat) returns (slots: seq<Option<FECBlock>>)
      requires forall k :: 0 <= k < |blocks| ==> blocks[k].block < n
      ensures |slots| == n && forall i :: 0 <= i < n ==> slots[i] == Slot(blocks, i)
    {
      slots := seq(n, _ => None);
      for k := 0 to |blocks|
        invariant |slots| == n
        invariant forall i :: 0 <= i < n ==> slots[i] == Slot(blocks[..k], i)
      {
        slots := slots[blocks[k].block := Some(blocks[k])];
        assert blocks[..k + 1][..k] == blocks[..k];
      }
      assert blocks[..|blocks|] == blocks;
    }

    /** Runs the erasure decoder on copies of the stored buffers. */
    method RepairedBodies(table: seq<FECBlock>, erased: seq<nat>) returns (bodies: seq<vec>)
      requires Valid() && Decodable(Value())
      requires table == Table(Value(), blocks[0].nBlocks) && erased == Missing(blocks, blocks[0].nBlocks)
      requires forall i :: 0 <= i < |table| ==> blockSize <= |table[i].body|
      ensures bodies
           == Repair(Bodies(table, blockSize), blockSize, erased, ParityNumbers(fecBlocks),
                     Bodies(fecBlocks, blockSize))
    {
      hide Repair, Missing, Find, Table;
      AscendingSize(erased, |table|);
      var ptrs := CopyBuffers(tables, Bodies(table, blockSize), blockSize);
      var fecPtrs := CopyBuffers(tables, Bodies(fecBlocks, blockSize), blockSize);
      FecDecode(tables, blockSize, ptrs, fecPtrs, ParityNumbers(fecBlocks), erased);
      bodies := Contents(ptrs, blockSize);
    }

    method Repaired() returns (table: seq<FECBlock>, erased: seq<nat>)
      requires Valid() && Decodable(Value())
      ensures table == RepairedTable(Value()) && erased == Missing(blocks, blocks[0].nBlocks)
    {
      hide Repair, Missing, Find;
      var n := blocks[0].nBlocks;
      var blank;
      blank, erased := FillTable(n);
      var bodies := RepairedBodies(blank, erased);
      table := [];
      for i := 0 to n
        invariant |table| == i && forall j :: 0 <= j < i ==>
          table[j] == if j in erased then blank[j].(body := bodies[j]) else blank[j]
      {
        if i in erased {
          table := table + [blank[i].(body := bodies[i])];
        } else {
          table := table + [blank[i]];
        }
      }
    }
  }

  function Slot(blocks: seq<FECBlock>, i: nat): Option<FECBlock>
  {
    var k := Find(blocks, i);
    if k < |blocks| then Some(blocks[k]) else None
  }

  lemma TableAt(s: State, n: nat, i: nat)
    requires s.blocks != [] && 2 <= s.blockSize <= MAX_BODY && i < n
    ensures Table(s, n)[i]
         == (if Slot(s.blocks, i).Some? then Slot(s.blocks, i).value else Blank(s.blocks[0], s.blockSize))
    ensures Missing(s.blocks, i + 1) == Missing(s.blocks, i) + if Slot(s.blocks, i).None? then [i] else []
  {
    hide Find;
  }

  lemma MissingStart(blocks: seq<FECBlock>)
    ensures Missing(blocks, 0) == []
  {
  }

  lemma SendableDone(t: seq<FECBlock>, size: nat)
    requires 2 <= size && forall i :: 0 <= i < |t| ==> size <= |t[i].body|
    ensures Sendable(t, size, |t|) == []
  {
  }

  lemma SendableNext(t: seq<FECBlock>, size: nat, i: nat, all: seq<FECBlock>, n: nat)
    requires 2 <= size && i < |t| && n <= |all| && forall i :: 0 <= i < |t| ==> size <= |t[i].body|
    requires Sendable(t, size, i) == all[n..]
    ensures if t[i].DataLength() <= size
            then n < |all| && all[n] == t[i] && Sendable(t, size, i + 1) == all[n + 1..]
            else Sendable(t, size, i + 1) == all[n..]
  {
    if t[i].DataLength() <= size {
      assert all[n..] == [t[i]] + Sendable(t, size, i + 1);
      assert all[n..][0] == t[i];
    }
  }

  lemma FirstMissing(s: State)
    requires Decodable(s)
    ensures 2 <= s.blockSize
    ensures var m := Missing(s.blocks, s.blocks[0].nBlocks); m != [] && m[0] < s.blocks[0].nBlocks
  {
    hide Missing;
    assert |Missing(s.blocks, s.blocks[0].nBlocks)| == |s.fecBlocks|;
  }
}
