/** Whole runs of the decoder over what survives of one group after another. */
module DecoderRun {
  import opened LinearAlgebra
  import opened ErasureCode
  import opened Wrappers
  import opened Blocks
  import opened Groups
  import opened DecoderModel

  /** Feeding packets one after another, and the decoder being able to take each of them. */
  ghost predicate AcceptsAll(s: State, ps: seq<FECBlock>)
    decreases |ps|, 0
  {
    ps == [] || (AcceptsAll(s, ps[..|ps| - 1]) && Accepts(Feed(s, ps[..|ps| - 1]), ps[|ps| - 1]))
  }

  ghost function Feed(s: State, ps: seq<FECBlock>): State
    requires AcceptsAll(s, ps)
    decreases |ps|, 1
  {
    if ps == [] then s else Step(Feed(s, ps[..|ps| - 1]), ps[|ps| - 1])
  }

  /** Between groups: nothing is stored unless an incomplete group with a data block is. */
  predicate Clean(s: State)
  {
    s.blockSize == 0 ==> s.blocks == [] && s.fecBlocks == []
  }

  /** The first j survivors of g, fewer than its data blocks, are stored and the leading ones are out. */
  ghost predicate Collecting(s: State, before: State, g: Group, idx: seq<nat>, j: nat)
  {
    && Groups.WellFormed(g) && Survivors(g, idx) && 0 < j <= |idx| && j < |g.payloads| && idx[0] < |g.payloads|
    && var n := DataCount(g, idx, j);
    && s.prevSeq == g.seqNum && s.prevBlock == idx[j - 1]
    && s.blockSize == Learned(g, idx, j)
    && s.blocks == Received(g, idx)[..n]
    && s.fecBlocks == Received(g, idx)[n..j]
    && s.out == before.out + Packets(g)[..Leading(idx, n)]
  }

  /** The group is done with. */
  ghost predicate GroupDone(s: State, before: State, g: Group, idx: seq<nat>)
  {
    && Groups.WellFormed(g) && Survivors(g, idx)
    && s.prevSeq == g.seqNum && s.blockSize == 0 && s.blocks == [] && s.fecBlocks == []
    && Delivers(s.out, before.out, g, idx)
  }

  /** Since the output before, the payloads of the group were delivered. */
  ghost predicate Delivers(out: seq<FECBlock>, before: seq<FECBlock>, g: Group, idx: seq<nat>)
  {
    && before <= out && Survivors(g, idx)
    && (forall i :: |before| <= i < |out| ==> out[i].WellFormed())
    && Payloads(out[|before|..]) == Deliveries(g, idx, 0)
  }

  // ---------- storing the survivors ----------

  lemma DataPacket(g: Group, k: nat)
    requires Groups.WellFormed(g) && k < |g.payloads|
    ensures Packet(g, k).IsData() && Packet(g, k).Complete() && Packet(g, k).Data() == g.payloads[k]
    ensures Packet(g, k).BlockSize() == |g.payloads[k]| + 2 && Packet(g, k).DataLength() == |g.payloads[k]|
    ensures !NoFec(Packet(g, k))
  {
    assert Padded(g.payloads[k], Size(g))[..Size(g)] == Padded(g.payloads[k], Size(g));
    PaddedData(Packet(g, k), g.payloads[k], Size(g), Size(g));
  }

  lemma CountStep(g: Group, idx: seq<nat>, j: nat)
    requires Survivors(g, idx) && j < |idx|
    ensures DataCount(g, idx, j + 1) == if idx[j] < |g.payloads| then j + 1 else DataCount(g, idx, j)
    ensures idx[j] < |g.payloads| ==> DataCount(g, idx, j) == j
  {
    var n := DataCount(g, idx, j);
    assert n < j ==> idx[n] < idx[j];
  }

  lemma LearnedStep(g: Group, idx: seq<nat>, j: nat)
    requires Survivors(g, idx) && j < |idx|
    ensures DataCount(g, idx, j + 1) == if idx[j] < |g.payloads| then j + 1 else DataCount(g, idx, j)
    ensures idx[j] < |g.payloads| ==> DataCount(g, idx, j) == j
    ensures idx[j] < |g.payloads| ==> Learned(g, idx, j + 1) == Max(Learned(g, idx, j), |g.payloads[idx[j]]| + 2)
    ensures idx[j] >= |g.payloads| ==> Learned(g, idx, j + 1) == Learned(g, idx, j)
  {
    hide DataCount, LargestOf, Survivors;
    CountStep(g, idx, j);
    if idx[j] < |g.payloads| {
      LargestNext(g.payloads, idx, j);
    }
  }

  lemma LargestNext(payloads: seq<vec>, idx: seq<nat>, j: nat)
    requires j < |idx| && forall k :: 0 <= k <= j ==> idx[k] < |payloads|
    ensures LargestOf(payloads, idx[..j + 1]) == Max(LargestOf(payloads, idx[..j]), |payloads[idx[j]]| + 2)
  {
    assert idx[..j + 1][..j] == idx[..j];
  }

  /** A further packet of the group being collected only moves the header on. */
  lemma MidGroup(s: State, p: FECBlock)
    requires s.blockSize != 0 && s.prevSeq == p.seqNum
    ensures var q := Prepared(Counted(s, p), p);
      && q.prevSeq == p.seqNum && q.prevBlock == p.block && q.blockSize == s.blockSize
      && q.blocks == s.blocks && q.fecBlocks == s.fecBlocks && q.out == s.out
  {
  }

  lemma StoreFirst(s: State, g: Group, idx: seq<nat>)
    requires Groups.WellFormed(g) && Survivors(g, idx) && idx != [] && idx[0] < |g.payloads|
    requires Clean(s) && s.prevSeq != g.seqNum
    ensures Accepts(s, Packet(g, idx[0]))
    ensures |g.payloads| > 1 ==> Collecting(Step(s, Packet(g, idx[0])), s, g, idx, 1)
  {
    hide Parity;
    var p := Packet(g, idx[0]);
    DataPacket(g, idx[0]);
    LearnedStep(g, idx, 0);
    assert idx[..1] == [idx[0]];
    assert Received(g, idx)[..1] == [p];
    var q := Prepared(Counted(s, p), p);
    assert q.blocks == [] && q.fecBlocks == [] && q.out == s.out && q.blockSize == 0;
    assert idx[0] == 0 ==> Packets(g)[..1] == [p];
  }

  lemma StoreNextData(s: State, before: State, g: Group, idx: seq<nat>, j: nat)
    requires Collecting(s, before, g, idx, j) && j + 1 <= |idx| && idx[j] < |g.payloads|
    ensures Accepts(s, Packet(g, idx[j]))
    ensures j + 1 < |g.payloads| ==> Collecting(Step(s, Packet(g, idx[j])), before, g, idx, j + 1)
  {
    hide Parity, Prepared, LargestOf, Learned, DataCount, Leading, Packet;
    var p := Packet(g, idx[j]);
    DataPacket(g, idx[j]);
    LearnedStep(g, idx, j);
    LearnedPositive(g, idx, j);
    assert p.seqNum == g.seqNum && p.block == idx[j] && p.nBlocks == |g.payloads| by { PacketHeader(g, idx[j]); }
    MidGroup(s, p);
    assert Received(g, idx)[..j + 1] == Received(g, idx)[..j] + [p];
    LeadingNext(idx, j);
    if idx[j] == j {
      LeadingFullAll(g, idx, j);
      assert Packets(g)[..j + 1] == Packets(g)[..j] + [p];
    }
  }

  lemma LeadingNext(idx: seq<nat>, j: nat)
    requires j < |idx|
    ensures Leading(idx, j + 1) == if idx[j] == j then j + 1 else Leading(idx, j)
  {
  }

  lemma PacketHeader(g: Group, k: nat)
    requires Groups.WellFormed(g) && k < |g.payloads| + g.nFec
    ensures Packet(g, k).seqNum == g.seqNum && Packet(g, k).block == k
    ensures Packet(g, k).nBlocks == |g.payloads| && Packet(g, k).nFecBlocks == g.nFec
  {
  }

  lemma LeadingFullAll(g: Group, idx: seq<nat>, j: nat)
    requires Survivors(g, idx) && j < |idx| && idx[j] == j
    ensures Leading(idx, j) == j
  {
    if j > 0 {
      LeadingFull(idx, |g.payloads| + g.nFec, j + 1, j - 1);
    }
  }

  lemma LearnedPositive(g: Group, idx: seq<nat>, j: nat)
    requires Survivors(g, idx) && 0 < j <= |idx| && idx[0] < |g.payloads|
    ensures DataCount(g, idx, j) > 0 && Learned(g, idx, j) >= 2
  {
    var n := DataCount(g, idx, j);
    assert n > 0;
    assert |g.payloads[idx[..n][0]]| + 2 <= Learned(g, idx, j);
  }

  lemma StoreNextParity(s: State, before: State, g: Group, idx: seq<nat>, j: nat)
    requires Collecting(s, before, g, idx, j) && j + 1 <= |idx| && idx[j] >= |g.payloads| && j + 1 < |g.payloads|
    ensures Accepts(s, Packet(g, idx[j]))
    ensures Collecting(Step(s, Packet(g, idx[j])), before, g, idx, j + 1)
  {
    hide Parity, Prepared, LargestOf, Learned, DataCount, Leading, Packet;
    var p := Packet(g, idx[j]);
    LearnedStep(g, idx, j);
    LearnedPositive(g, idx, j);
    PacketHeader(g, idx[j]);
    MidGroup(s, p);
    var n := DataCount(g, idx, j);
    assert Received(g, idx)[n..j + 1] == Received(g, idx)[n..j] + [p];
    assert |s.blocks| + |s.fecBlocks| == j;
  }

  // ---------- deliveries ----------

  lemma {:induction false} LeadingDeliveries(g: Group, idx: seq<nat>, l: nat)
    requires Survivors(g, idx) && l <= |g.payloads| && l <= |idx|
    requires forall k :: 0 <= k < l ==> idx[k] == k
    ensures Deliveries(g, idx, 0) == Exactly(g.payloads[..l]) + Deliveries(g, idx, l)
  {
    hide Learned;
    if l > 0 {
      LeadingDeliveries(g, idx, l - 1);
      assert idx[l - 1] in idx;
      assert Exactly(g.payloads[..l]) == Exactly(g.payloads[..l - 1]) + [Some(g.payloads[l - 1])];
    }
  }

  lemma PacketPayloads(g: Group, l: nat)
    requires Groups.WellFormed(g) && l <= |g.payloads|
    ensures forall i :: 0 <= i < l ==> Packets(g)[i].WellFormed()
    ensures Payloads(Packets(g)[..l]) == Exactly(g.payloads[..l])
  {
    hide Packet;
    forall i | 0 <= i < l
      ensures PayloadOf(Packets(g)[i]) == Some(g.payloads[i])
    {
      DataPacket(g, i);
    }
  }

  /** Every data block arrived: the group is complete without any parity block. */
  lemma StoreLastData(s: State, before: State, g: Group, idx: seq<nat>, j: nat)
    requires Collecting(s, before, g, idx, j) && j + 1 <= |idx| && idx[j] < |g.payloads| && j + 1 == |g.payloads|
    ensures Accepts(s, Packet(g, idx[j])) && GroupDone(Step(s, Packet(g, idx[j])), before, g, idx)
  {
    hide Parity, Prepared, LargestOf, Learned, DataCount, Leading, Packet;
    var m, p := |g.payloads|, Packet(g, idx[j]);
    DataPacket(g, idx[j]);
    LearnedStep(g, idx, j);
    LearnedPositive(g, idx, j);
    PacketHeader(g, idx[j]);
    MidGroup(s, p);
    AscendingBound(idx, m + g.nFec, j);
    LeadingFullAll(g, idx, j);
    assert Received(g, idx)[..j + 1] == Received(g, idx)[..j] + [p];
    assert Packets(g)[..j + 1] == Packets(g)[..j] + [p];
    var t := Step(s, p);
    assert t.out == before.out + Packets(g)[..m];
    AllDelivered(t, before, g, idx);
  }

  lemma AllDelivered(t: State, before: State, g: Group, idx: seq<nat>)
    requires Groups.WellFormed(g) && Survivors(g, idx) && |g.payloads| <= |idx| && idx[|g.payloads| - 1]
         == |g.payloads| - 1
    requires t.out == before.out + Packets(g)[..|g.payloads|]
    ensures Delivers(t.out, before.out, g, idx)
  {
    hide Packet, LargestOf;
    var m := |g.payloads|;
    forall k | 0 <= k < m
      ensures idx[k] == k
    {
      LeadingFull(idx, m + g.nFec, m, k);
    }
    LeadingDeliveries(g, idx, m);
    PacketPayloads(g, m);
    assert t.out[|before.out|..] == Packets(g)[..m];
    assert g.payloads[..m] == g.payloads;
  }

  /** A group of one data block needs nothing else. */
  lemma StoreOnly(s: State, g: Group, idx: seq<nat>)
    requires Groups.WellFormed(g) && Survivors(g, idx) && idx != [] && idx[0] < |g.payloads| && |g.payloads| == 1
    requires Clean(s) && s.prevSeq != g.seqNum
    ensures Accepts(s, Packet(g, idx[0])) && GroupDone(Step(s, Packet(g, idx[0])), s, g, idx)
  {
    hide Parity, Packet;
    var p := Packet(g, idx[0]);
    DataPacket(g, idx[0]);
    PacketHeader(g, idx[0]);
    var q := Prepared(Counted(s, p), p);
    assert q.blocks == [] && q.fecBlocks == [] && q.out == s.out && q.blockSize == 0;
    assert Packets(g)[..1] == [p];
    AllDelivered(Step(s, p), s, g, idx);
  }

  /** Packets of a group that is done with are ignored. */
  lemma AfterComplete(s: State, before: State, g: Group, idx: seq<nat>, k: nat)
    requires GroupDone(s, before, g, idx) && k < |g.payloads| + g.nFec
    ensures Accepts(s, Packet(g, k)) && GroupDone(Step(s, Packet(g, k)), before, g, idx)
  {
    hide Parity, Packet, Deliveries;
    PacketHeader(g, k);
  }
}
