/** The blocks that a repair withholds, and how they are counted. */
module Withheld {
  import opened Blocks
  import opened Groups
  import opened DecoderModel
  import opened DecoderRun
  import opened RepairStep
  import opened LossyRun

  /** Payload i is lost and longer than the block size learned from the data blocks that arrived. */
  predicate TooLong(g: Group, idx: seq<nat>, i: nat)
    requires Survivors(g, idx) && i < |g.payloads|
  {
    i !in idx && |g.payloads[i]| > Learned(g, idx, |idx|)
  }

  /** How many payloads from the i-th on are too long. */
  function CountTooLong(g: Group, idx: seq<nat>, i: nat): (n: nat)
    requires Survivors(g, idx) && i <= |g.payloads|
    ensures n <= |g.payloads| - i
    decreases |g.payloads| - i
  {
    if i == |g.payloads| then 0 else (if TooLong(g, idx, i) then 1 else 0) + CountTooLong(g, idx, i + 1)
  }

  lemma {:induction false} DeliveriesCount(g: Group, idx: seq<nat>, i: nat)
    requires Survivors(g, idx) && i <= |g.payloads|
    ensures |Deliveries(g, idx, i)| + CountTooLong(g, idx, i) == |g.payloads| - i
    decreases |g.payloads| - i
  {
    hide Learned, Survivors;
    if i < |g.payloads| {
      DeliveriesCount(g, idx, i + 1);
    }
  }

  lemma {:induction false} ArrivedNotTooLong(g: Group, idx: seq<nat>, i: nat, l: nat)
    requires Survivors(g, idx) && i <= l <= |g.payloads| && forall k: nat :: k < l ==> k in idx
    ensures CountTooLong(g, idx, i) == CountTooLong(g, idx, l)
    decreases l - i
  {
    hide Learned, Survivors;
    if i < l {
      ArrivedNotTooLong(g, idx, i + 1, l);
    }
  }

  /** The repair counts exactly the payloads that are too long. */
  lemma DecodedCounts(t: State, g: Group, idx: seq<nat>, n: nat)
    requires Full(t, g, idx, n)
    ensures Decodable(t)
    ensures Decoded(t).stats.droppedBlocks == t.stats.droppedBlocks + CountTooLong(g, idx, 0)
  {
    hide Packet, Decodable, Decoded, RepairedTable, LargestOf, Missing, DecoderModel.Sendable;
    hide Received, Deliveries, CountTooLong;
    FullDecodable(t, g, idx, n);
    DecodedFull(t, g, idx, n);
    var l := Leading(idx, n);
    SendableDeliveries(t, g, idx, n, l);
    LeadingMeans(g, idx, n);
    DeliveriesCount(g, idx, l);
    forall k: nat | k < l
      ensures k in idx
    {
      assert idx[k] == k;
    }
    ArrivedNotTooLong(g, idx, 0, l);
  }

  // ---------- the survivors of a group, one after another ----------

  /** What the decoder adds when it leaves an unfinished group for group g. */
  function Abandoned(s: State, g: Group): nat
  {
    if s.blockSize == 0 then 0 else (g.seqNum - s.prevSeq) % 256
  }

  lemma FirstCounts(s: State, g: Group, idx: seq<nat>)
    requires Groups.WellFormed(g) && Survivors(g, idx) && idx != [] && idx[0] < |g.payloads|
    requires Clean(s) && s.prevSeq != g.seqNum
    ensures Accepts(s, Packet(g, idx[0]))
    ensures Step(s, Packet(g, idx[0])).stats.droppedBlocks == s.stats.droppedBlocks + Abandoned(s, g)
  {
    hide Packet, Decodable, Decoded;
    DataPacket(g, idx[0]);
    PacketHeader(g, idx[0]);
    assert Unrolled(s.prevSeq, g.seqNum) - s.prevSeq == (g.seqNum - s.prevSeq) % 256;
  }

  lemma StoringCounts(t: State, p: FECBlock)
    requires Accepts(t, p) && !NoFec(p) && t.prevSeq == p.seqNum
    requires !p.IsData() && t.blockSize != 0 ==> !Completes(t, p)
    ensures Step(t, p).stats.droppedBlocks == t.stats.droppedBlocks
  {
    hide Decodable, Decoded;
  }

  lemma RepairCounts(t: State, s: State, g: Group, idx: seq<nat>, j: nat)
    requires Collecting(t, s, g, idx, j) && j + 1 <= |idx| && idx[j] >= |g.payloads| && j + 1 == |g.payloads|
    ensures Accepts(t, Packet(g, idx[j]))
    ensures Step(t, Packet(g, idx[j])).stats.droppedBlocks == t.stats.droppedBlocks + CountTooLong(g, idx, 0)
  {
    hide Packet, Decodable, Decoded, LargestOf, CountTooLong, Collecting;
    StoreLastParity(t, s, g, idx, j);
    RepairTaken(t, s, g, idx, j);
    var p := Packet(g, idx[j]);
    var q := Prepared(Counted(t, p), p).(fecBlocks := t.fecBlocks + [p]);
    CollectingFull(t, s, g, idx, j);
    DecodedCounts(q, g, idx, DataCount(g, idx, j));
  }

  lemma RepairTaken(t: State, s: State, g: Group, idx: seq<nat>, j: nat)
    requires Collecting(t, s, g, idx, j) && j + 1 <= |idx| && idx[j] >= |g.payloads| && j + 1 == |g.payloads|
    ensures var p := Packet(g, idx[j]);
      && p.seqNum == t.prevSeq && t.blockSize != 0 && t.blocks != [] && !NoFec(p) && !p.IsData() && Completes(t, p)
  {
    hide Packet, LargestOf;
    LearnedPositive(g, idx, j);
    PacketHeader(g, idx[j]);
  }

  lemma {:induction false} CountingRun(s: State, g: Group, idx: seq<nat>, j: nat)
    requires Groups.WellFormed(g) && Survivors(g, idx) && 0 < j <= |idx| && idx[0] < |g.payloads|
    requires Clean(s) && s.prevSeq != g.seqNum
    ensures AcceptsAll(s, Received(g, idx)[..j])
    ensures Feed(s, Received(g, idx)[..j]).stats.droppedBlocks
         == s.stats.droppedBlocks + Abandoned(s, g) + if j >= |g.payloads| then CountTooLong(g, idx, 0) else 0
  {
    hide Packet, Step, Accepts, Collecting, GroupDone, CountTooLong, Abandoned;
    var r, m := Received(g, idx), |g.payloads|;
    GroupRun(s, g, idx, j);
    assert r[..j][..j - 1] == r[..j - 1];
    assert r[..j][j - 1] == Packet(g, idx[j - 1]);
    if j == 1 {
      assert AcceptsAll(s, r[..0]) && Feed(s, r[..0]) == s;
      FirstCounts(s, g, idx);
    } else {
      GroupRun(s, g, idx, j - 1);
      CountingRun(s, g, idx, j - 1);
      NextCounts(Feed(s, r[..j - 1]), s, g, idx, j - 1);
    }
    if j == m {
      AllArrived(g, idx);
    }
  }

  lemma NextCounts(t: State, s: State, g: Group, idx: seq<nat>, j: nat)
    requires Groups.WellFormed(g) && Survivors(g, idx) && 0 < j < |idx|
    requires if j < |g.payloads| then Collecting(t, s, g, idx, j) else GroupDone(t, s, g, idx)
    ensures Accepts(t, Packet(g, idx[j]))
    ensures Step(t, Packet(g, idx[j])).stats.droppedBlocks
         == t.stats.droppedBlocks
            + if j + 1 == |g.payloads| && idx[j] >= |g.payloads| then CountTooLong(g, idx, 0) else 0
  {
    hide Packet, Step, CountTooLong, Deliveries, LargestOf, DataCount, Leading;
    PacketHeader(g, idx[j]);
    if j >= |g.payloads| {
      AfterComplete(t, s, g, idx, idx[j]);
      StoringCounts(t, Packet(g, idx[j]));
    } else {
      NextSurvivor(t, s, g, idx, j);
      if j + 1 == |g.payloads| && idx[j] >= |g.payloads| {
        RepairCounts(t, s, g, idx, j);
      } else {
        assert |t.blocks| + |t.fecBlocks| == j;
        StoringCounts(t, Packet(g, idx[j]));
      }
    }
  }

  /** When the last packet needed is a data block, nothing is lost. */
  lemma AllArrived(g: Group, idx: seq<nat>)
    requires Survivors(g, idx) && 0 < |g.payloads| <= |idx|
    ensures idx[|g.payloads| - 1] < |g.payloads| ==> CountTooLong(g, idx, 0) == 0
  {
    var n := |g.payloads|;
    if idx[n - 1] < n {
      AscendingBound(idx, n + g.nFec, n - 1);
      forall k: nat | k < n
        ensures k in idx
      {
        LeadingFull(idx, n + g.nFec, n, k);
        assert idx[k] == k;
      }
      ArrivedNotTooLong(g, idx, 0, n);
    }
  }

  /** The survivors of a group add to the dropped blocks what leaving an unfinished group adds, and the
      payloads that are too long if the group is repaired. */
  lemma GroupCounts(s: State, g: Group, idx: seq<nat>)
    requires Groups.WellFormed(g) && Survivors(g, idx) && idx != [] && idx[0] < |g.payloads|
    requires Clean(s) && s.prevSeq != g.seqNum
    ensures AcceptsAll(s, Received(g, idx))
    ensures Feed(s, Received(g, idx)).stats.droppedBlocks
         == s.stats.droppedBlocks + Abandoned(s, g) + if |idx| >= |g.payloads| then CountTooLong(g, idx, 0) else 0
  {
    hide Packet, Step, Accepts, Feed, AcceptsAll, CountTooLong, Abandoned;
    CountingRun(s, g, idx, |idx|);
    assert Received(g, idx)[..|idx|] == Received(g, idx);
  }
}
