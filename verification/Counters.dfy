/** What the decoder counts. */
module Counters {
  import opened GF256
  import opened Blocks
  import opened Groups
  import opened DecoderModel
  import opened DecoderRun
  import opened RepairStep
  import opened LossyRun
  import opened EncoderRun
  import opened EndToEnd
  import opened Withheld
  import opened Guarantees
  import EncoderModel
  import NextGroup

  // ---------- every packet ----------

  /** Packet lengths, the four bytes of the header included. */
  function Bytes(ps: seq<FECBlock>): nat
  {
    if ps == [] then 0 else Bytes(ps[..|ps| - 1]) + (|ps[|ps| - 1].body| + 4)
  }

  lemma StepCounts(s: State, p: FECBlock)
    requires Accepts(s, p)
    ensures var t := DecoderModel.Step(s, p);
      && t.stats.totalPackets == s.stats.totalPackets + 1
      && t.stats.bytes == s.stats.bytes + (|p.body| + 4)
  {
    hide Decodable, RepairedTable, DecoderModel.Sendable;
  }

  /** Packets and bytes are counted whatever becomes of them. */
  lemma {:induction false} EveryPacketCounts(s: State, ps: seq<FECBlock>)
    requires AcceptsAll(s, ps)
    ensures var t := Feed(s, ps);
      && t.stats.totalPackets == s.stats.totalPackets + |ps|
      && t.stats.bytes == s.stats.bytes + Bytes(ps)
  {
    hide DecoderModel.Step, Accepts;
    if ps != [] {
      EveryPacketCounts(s, ps[..|ps| - 1]);
      StepCounts(Feed(s, ps[..|ps| - 1]), ps[|ps| - 1]);
    }
  }

  lemma {:induction false} BytesAppend(a: seq<FECBlock>, b: seq<FECBlock>)
    ensures Bytes(a + b) == Bytes(a) + Bytes(b)
    decreases |b|
  {
    if b == [] {
      assert a + b == a;
    } else {
      BytesAppend(a, b[..|b| - 1]);
      assert (a + b)[..|a + b| - 1] == a + b[..|b| - 1];
    }
  }

  // ---------- links without FEC ----------

  /** How often the numbering has started over when packet k is sent. */
  function Turns(start: gf, k: nat): int
  {
    (start - 1 + k) / 255
  }

  /** From packet j to packet k the decoder counts those between them, and one for each skip of 0. */
  lemma GapCounted(start: gf, j: nat, k: nat)
    requires start != 0 && j < k < j + 255
    ensures Unrolled(SeqAt(start, j), SeqAt(start, k)) - SeqAt(start, j) - 1
         == (k - j - 1) + (Turns(start, k) - Turns(start, j))
  {
    hide SeqAt;
    SeqCycle(start, j);
    SeqCycle(start, k);
    var a, d := start - 1 + j, k - j;
    assert (a + d) / 255 == a / 255 + if a % 255 + d >= 255 then 1 else 0;
    assert (a + d) % 255 == a % 255 + d - if a % 255 + d >= 255 then 255 else 0;
  }

  /** The i-th packet is the ks[i]-th that was sent, and fewer than 255 were sent from one to the next. */
  predicate Arriving(ps: seq<FECBlock>, start: gf, ks: seq<nat>)
  {
    && |ps| == |ks|
    && (forall i :: 0 <= i < |ps| ==> ps[i].WellFormed() && NoFec(ps[i]) && ps[i].seqNum == SeqAt(start, ks[i]))
    && (forall i :: 0 < i < |ks| ==> ks[i - 1] < ks[i] < ks[i - 1] + 255)
  }

  lemma PassOnCounts(s: State, p: FECBlock, lost: nat)
    requires p.WellFormed() && NoFec(p) && lost < 256 && Unrolled(s.prevSeq, p.seqNum) - s.prevSeq - 1 == lost
    ensures Accepts(s, p)
    ensures var t := DecoderModel.Step(s, p);
      && t.prevSeq == p.seqNum
      && t.stats.droppedPackets == s.stats.droppedPackets + lost
      && t.stats.droppedBlocks == s.stats.droppedBlocks + lost
  {
  }

  /** What a decoder counts as dropped: what the first packet's number is beyond 1, the packets lost since then
      and one for each time the numbering has started over. */
  lemma {:induction false} PassingDrops(ps: seq<FECBlock>, start: gf, ks: seq<nat>)
    requires start != 0 && ps != [] && Arriving(ps, start, ks)
    ensures AcceptsAll(INITIAL, ps)
    ensures var t, n := Feed(INITIAL, ps), |ks| - 1;
      && t.prevSeq == SeqAt(start, ks[n])
      && t.stats.droppedPackets == t.stats.droppedBlocks
      && t.stats.droppedPackets
           == (SeqAt(start, ks[0]) - 1) + (ks[n] - ks[0] - n) + (Turns(start, ks[n]) - Turns(start, ks[0]))
  {
    hide DecoderModel.Step, Accepts, SeqAt, Turns;
    var n := |ps| - 1;
    if n == 0 {
      assert ps[..0] == [] && AcceptsAll(INITIAL, ps[..0]) && Feed(INITIAL, ps[..0]) == INITIAL;
      SeqCycle(start, ks[0]);
      PassOnCounts(INITIAL, ps[0], SeqAt(start, ks[0]) - 1);
    } else {
      PassingDrops(ps[..n], start, ks[..n]);
      GapCounted(start, ks[n - 1], ks[n]);
      assert 0 <= Unrolled(SeqAt(start, ks[n - 1]), SeqAt(start, ks[n])) - SeqAt(start, ks[n - 1]) - 1 < 256
        by { SeqCycle(start, ks[n - 1]); SeqCycle(start, ks[n]); SeqDistinct(start, ks[n - 1], ks[n]); }
      PassOnCounts(Feed(INITIAL, ps[..n]), ps[n],
                   Unrolled(SeqAt(start, ks[n - 1]), SeqAt(start, ks[n])) - SeqAt(start, ks[n - 1]) - 1);
    }
  }

  /** A link without FEC that loses nothing: beyond the first number, one drop is counted for each time the
      numbering has started over, though none happened. */
  lemma PassingLinkCounts(s: EncoderModel.State, ops: seq<Op>)
    requires EncoderModel.Valid(s) && EncoderModel.Passing(s) && s.ins == [] && s.out == [] && s.seqNum != 0
    requires forall k :: 0 <= k < |ops| ==> EncoderRun.Sendable(ops[k], s.maxBlockSize)
    requires AddedPayloads(ops) != []
    ensures var sent := EncoderRun.Run(s, ops).out;
      && |sent| == |AddedPayloads(ops)| && AcceptsAll(INITIAL, sent)
      && var t := Feed(INITIAL, sent);
         && t.stats.totalPackets == |sent|
         && t.stats.droppedPackets == t.stats.droppedBlocks == (s.seqNum - 1) + (s.seqNum - 1 + |sent| - 1) / 255
  {
    hide EncoderRun.Run, AddedPayloads, Feed, AcceptsAll, SeqAt, Padded;
    PassingPackets(s, ops);
    PassingRun(s, ops);
    var sent := EncoderRun.Run(s, ops).out;
    PassingDrops(sent, s.seqNum, UpTo(|sent|));
    EveryPacketCounts(INITIAL, sent);
    SeqCycle(s.seqNum, 0);
  }

  /** A packet of the group being collected counts the packets between it and the last one; one that is not
      newer counts as one. */
  lemma WithinGroupCounts(s: State, p: FECBlock)
    requires Accepts(s, p) && !NoFec(p) && s.blockSize != 0 && s.prevSeq == p.seqNum
    ensures DecoderModel.Step(s, p).stats.droppedPackets
         == s.stats.droppedPackets + if p.block > s.prevBlock then p.block - s.prevBlock - 1 else 1
  {
    hide Decodable, RepairedTable, DecoderModel.Sendable;
  }

  // ---------- one group ----------

  /** The packets counted as dropped when an unfinished group is left for packet i of g. */
  function AbandonedPackets(s: State, g: Group, i: nat): nat
  {
    if s.blockSize == 0 then 0
    else
      var perGroup := |g.payloads| + g.nFec;
      var groups := (g.seqNum - s.prevSeq) % 256;
      if s.prevBlock < groups * perGroup + i then groups * perGroup + i - s.prevBlock else 0
  }

  lemma GroupsAhead(prev: gf, now: gf, perGroup: nat, j: nat, i: nat)
    ensures Unrolled(prev, now) - prev == (now - prev) % 256
    ensures PacketNumber(Unrolled(prev, now), perGroup, i) - PacketNumber(prev, perGroup, j)
         == (now - prev) % 256 * perGroup + i - j
  {
    assert Unrolled(prev, now) - prev == (now - prev) % 256;
    assert Unrolled(prev, now) * perGroup - prev * perGroup == (Unrolled(prev, now) - prev) * perGroup;
  }

  lemma FirstOfGroup(s: State, g: Group, idx: seq<nat>)
    requires Groups.WellFormed(g) && Survivors(g, idx) && idx != [] && idx[0] < |g.payloads|
    requires Clean(s) && s.prevSeq != g.seqNum
    ensures Accepts(s, Packet(g, idx[0]))
    ensures var t := DecoderModel.Step(s, Packet(g, idx[0]));
      && t.stats.droppedPackets == s.stats.droppedPackets + AbandonedPackets(s, g, idx[0]) + idx[0]
      && t.stats.totalBlocks == s.stats.totalBlocks + (if |g.payloads| == 1 then 1 else 0)
      && t.stats.lostSync == s.stats.lostSync
  {
    hide Packet, Decodable, Decoded, PacketNumber;
    DataPacket(g, idx[0]);
    PacketHeader(g, idx[0]);
    GroupsAhead(s.prevSeq, g.seqNum, |g.payloads| + g.nFec, s.prevBlock, idx[0]);
  }

  lemma DecodedKeeps(t: State, g: Group, idx: seq<nat>, n: nat)
    requires Full(t, g, idx, n)
    ensures Decodable(t)
    ensures Decoded(t).stats.droppedPackets == t.stats.droppedPackets
    ensures Decoded(t).stats.totalBlocks == t.stats.totalBlocks && Decoded(t).stats.lostSync == t.stats.lostSync
  {
    hide Packet, RepairedTable, LargestOf, Missing, DecoderModel.Sendable, Received;
    FullFacts(t, g, idx, n);
    FullDecodable(t, g, idx, n);
  }

  lemma NextOfGroup(t: State, s: State, g: Group, idx: seq<nat>, j: nat)
    requires Collecting(t, s, g, idx, j) && j + 1 <= |idx|
    ensures Accepts(t, Packet(g, idx[j]))
    ensures var u := DecoderModel.Step(t, Packet(g, idx[j]));
      && u.stats.droppedPackets == t.stats.droppedPackets + (idx[j] - idx[j - 1] - 1)
      && u.stats.totalBlocks == t.stats.totalBlocks + (if j + 1 == |g.payloads| then 1 else 0)
      && u.stats.lostSync == t.stats.lostSync
  {
    hide Packet, Decodable, Decoded, LargestOf, Leading, Packets;
    NextSurvivor(t, s, g, idx, j);
    PacketHeader(g, idx[j]);
    LearnedPositive(g, idx, j);
    assert |t.blocks| + |t.fecBlocks| == j;
    assert idx[j] < |g.payloads| ==> |t.blocks| == j by { CountStep(g, idx, j); }
    if idx[j] >= |g.payloads| && j + 1 == |g.payloads| {
      CollectingFull(t, s, g, idx, j);
      var p := Packet(g, idx[j]);
      DecodedKeeps(Prepared(Counted(t, p), p).(fecBlocks := t.fecBlocks + [p]), g, idx, DataCount(g, idx, j));
    }
  }

  lemma LaterOfGroup(t: State, s: State, g: Group, idx: seq<nat>, j: nat)
    requires GroupDone(t, s, g, idx) && j < |idx|
    ensures Accepts(t, Packet(g, idx[j]))
    ensures var u := DecoderModel.Step(t, Packet(g, idx[j]));
      && u.stats.droppedPackets == t.stats.droppedPackets
      && u.stats.totalBlocks == t.stats.totalBlocks && u.stats.lostSync == t.stats.lostSync
  {
    hide Packet, Decodable, Decoded, Deliveries;
    PacketHeader(g, idx[j]);
    AfterComplete(t, s, g, idx, idx[j]);
  }

  /** The smaller number. */
  function Least(a: nat, b: nat): nat
  {
    if a < b then a else b
  }

  lemma {:induction false} PacketsRun(s: State, g: Group, idx: seq<nat>, j: nat)
    requires Groups.WellFormed(g) && Survivors(g, idx) && 0 < j <= |idx| && idx[0] < |g.payloads|
    requires Clean(s) && s.prevSeq != g.seqNum
    ensures AcceptsAll(s, Received(g, idx)[..j])
    ensures var t, c := Feed(s, Received(g, idx)[..j]), Least(j, |g.payloads|);
      && t.stats.droppedPackets == s.stats.droppedPackets + AbandonedPackets(s, g, idx[0]) + (idx[c - 1] - (c - 1))
      && t.stats.totalBlocks == s.stats.totalBlocks + (if j >= |g.payloads| then 1 else 0)
      && t.stats.lostSync == s.stats.lostSync
  {
    hide Packet, Received, DecoderModel.Step, Accepts, Collecting, GroupDone, AbandonedPackets, AcceptsAll, Feed;
    var r, m := Received(g, idx), |g.payloads|;
    NextGroup.OneMore(s, g, idx, j);
    if j == 1 {
      FedNothing(s);
      FirstOfGroup(s, g, idx);
    } else {
      GroupRun(s, g, idx, j - 1);
      PacketsRun(s, g, idx, j - 1);
      if j - 1 < m {
        NextOfGroup(Feed(s, r[..j - 1]), s, g, idx, j - 1);
      } else {
        LaterOfGroup(Feed(s, r[..j - 1]), s, g, idx, j - 1);
      }
    }
  }

  lemma FedNothing(s: State)
    ensures forall ps: seq<FECBlock> :: AcceptsAll(s, ps[..0]) && Feed(s, ps[..0]) == s
  {
  }

  /** The survivors of a group count as dropped what leaving an unfinished group counts and the packets lost
      before the n-th one that arrives, and the group as one block if n of its packets arrive. */
  lemma GroupPacketCounts(s: State, g: Group, idx: seq<nat>)
    requires Groups.WellFormed(g) && Survivors(g, idx) && idx != [] && idx[0] < |g.payloads|
    requires Clean(s) && s.prevSeq != g.seqNum
    ensures AcceptsAll(s, Received(g, idx))
    ensures var t, c := Feed(s, Received(g, idx)), Least(|idx|, |g.payloads|);
      && t.stats.droppedPackets == s.stats.droppedPackets + AbandonedPackets(s, g, idx[0]) + (idx[c - 1] - (c - 1))
      && t.stats.totalBlocks == s.stats.totalBlocks + (if |idx| >= |g.payloads| then 1 else 0)
      && t.stats.lostSync == s.stats.lostSync
  {
    hide Packet, DecoderModel.Step, Accepts, Feed, AcceptsAll, AbandonedPackets;
    PacketsRun(s, g, idx, |idx|);
    assert Received(g, idx)[..|idx|] == Received(g, idx);
  }

  // ---------- a link with FEC that loses nothing ----------

  lemma WholeGroupCounts(s: State, g: Group)
    requires Groups.WellFormed(g) && Clean(s) && s.blockSize == 0 && s.prevSeq != g.seqNum
    ensures AcceptsAll(s, Packets(g))
    ensures var t := Feed(s, Packets(g));
      && Clean(t) && t.blockSize == 0 && t.prevSeq == g.seqNum
      && t.stats == s.stats.(totalBlocks := s.stats.totalBlocks + 1,
                             totalPackets := s.stats.totalPackets + |Packets(g)|,
                             bytes := s.stats.bytes + Bytes(Packets(g)))
  {
    hide Packet, DecoderModel.Step, Accepts, Feed, AcceptsAll, Delivered, CountTooLong, Bytes;
    var n := |g.payloads|;
    var idx := UpTo(n + g.nFec);
    assert Received(g, idx) == Packets(g) && Received(g, idx)[..n + g.nFec] == Packets(g);
    GroupRun(s, g, idx, n + g.nFec);
    GroupPacketCounts(s, g, idx);
    GroupCounts(s, g, idx);
    AllArrived(g, idx);
    EveryPacketCounts(s, Packets(g));
  }

  lemma {:induction false} WholeGroupsCount(groups: seq<Group>, start: gf)
    requires AllWellFormed(groups) && start != 0
    requires forall k :: 0 <= k < |groups| ==> groups[k].seqNum == SeqAt(start, k)
    ensures AcceptsAll(INITIAL, AllPackets(groups))
    ensures var t := Feed(INITIAL, AllPackets(groups));
      && Clean(t) && t.blockSize == 0 && t.prevSeq == (if groups == [] then 0 else SeqAt(start, |groups| - 1))
      && t.stats == Stats(|groups|, |AllPackets(groups)|, 0, 0, 0, Bytes(AllPackets(groups)))
  {
    hide DecoderModel.Step, Accepts, Packets, SeqAt;
    if groups != [] {
      var n := |groups| - 1;
      WholeGroupsCount(groups[..n], start);
      var s := Feed(INITIAL, AllPackets(groups[..n]));
      NumbersDiffer(start, n);
      WholeGroupCounts(s, groups[n]);
      FeedConcat(INITIAL, AllPackets(groups[..n]), Packets(groups[n]));
      BytesAppend(AllPackets(groups[..n]), Packets(groups[n]));
    }
  }

  lemma NumbersDiffer(start: gf, n: nat)
    requires start != 0
    ensures SeqAt(start, n) != 0 && (n > 0 ==> SeqAt(start, n) != SeqAt(start, n - 1))
  {
    hide SeqAt;
    SeqCycle(start, n);
    if n > 0 {
      SeqDistinct(start, n - 1, n);
    }
  }

  /** Nothing is counted as dropped on a link with FEC that loses nothing: every closed group counts as a block
      and every packet with its bytes. */
  lemma LosslessCounts(s: EncoderModel.State, ops: seq<Op>)
    requires FecLink(s, ops)
    ensures var sent, groups := EncoderRun.Run(s, ops).out, PlanOf(s, ops).groups;
      && AcceptsAll(INITIAL, sent)
      && Feed(INITIAL, sent).stats == Stats(|groups|, |sent|, 0, 0, 0, Bytes(sent))
  {
    hide Feed, AcceptsAll, EncoderRun.Run, PlanRun, AllPackets, Packet, SeqAt;
    RunFollows(s, ops);
    PlanNumbers(s.seqNum, ops, s.numBlocks, s.numFecBlocks);
    WholeGroupsCount(PlanOf(s, ops).groups, s.seqNum);
  }
}
