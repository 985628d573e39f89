/** What users of the link may rely on, and exactly when. */
module Guarantees {
  import opened LinearAlgebra
  import opened ErasureCode
  import opened Wrappers
  import opened Blocks
  import opened Groups
  import opened DecoderRun
  import opened RepairStep
  import opened LossyRun
  import opened Withheld
  import opened EncoderRun
  import opened EndToEnd
  import EncoderModel
  import DecoderModel

  // ---------- when a group comes out complete ----------

  /** Payload i arrived itself or fits the block size learned from the data blocks that arrived. */
  predicate Restorable(g: Group, idx: seq<nat>, i: nat)
    requires Survivors(g, idx) && i < |g.payloads|
  {
    i in idx || |g.payloads[i]| + 2 <= Learned(g, idx, |idx|)
  }

  function CountWhole(r: seq<Option<vec>>): nat
  {
    if r == [] then 0 else (if r[0].Some? then 1 else 0) + CountWhole(r[1..])
  }

  lemma {:induction false} ExactlyWhole(payloads: seq<vec>)
    ensures CountWhole(Exactly(payloads)) == |payloads|
  {
    if payloads != [] {
      ExactlyWhole(payloads[1..]);
      assert Exactly(payloads)[1..] == Exactly(payloads[1..]);
    }
  }

  lemma WholeAppend(d: seq<Option<vec>>, r: seq<Option<vec>>)
    requires |d| <= 1
    ensures CountWhole(d + r) == CountWhole(d) + CountWhole(r)
  {
    if d == [] {
      assert d + r == r;
    } else {
      assert (d + r)[1..] == r && d[1..] == [];
    }
  }

  lemma DeliveryWhole(g: Group, idx: seq<nat>, i: nat)
    requires Survivors(g, idx) && i < |g.payloads|
    ensures |Delivery(g, idx, i)| <= 1
    ensures Restorable(g, idx, i) ==>
      Delivery(g, idx, i) == [Some(g.payloads[i])] && CountWhole(Delivery(g, idx, i)) == 1
    ensures !Restorable(g, idx, i) ==> CountWhole(Delivery(g, idx, i)) == 0
  {
    hide Learned;
  }

  predicate RestorableFrom(g: Group, idx: seq<nat>, i: nat)
    requires Survivors(g, idx)
  {
    forall k :: i <= k < |g.payloads| ==> Restorable(g, idx, k)
  }

  lemma {:induction false} DeliveriesWhole(g: Group, idx: seq<nat>, i: nat)
    requires Survivors(g, idx) && i <= |g.payloads|
    ensures CountWhole(Deliveries(g, idx, i)) <= |g.payloads| - i
    ensures CountWhole(Deliveries(g, idx, i)) == |g.payloads| - i ==> RestorableFrom(g, idx, i)
    ensures RestorableFrom(g, idx, i) ==> Deliveries(g, idx, i) == Exactly(g.payloads[i..])
    decreases |g.payloads| - i
  {
    hide Learned, Restorable, Delivery, CountWhole, Survivors;
    if i < |g.payloads| {
      DeliveriesWhole(g, idx, i + 1);
      DeliveryWhole(g, idx, i);
      WholeAppend(Delivery(g, idx, i), Deliveries(g, idx, i + 1));
      assert RestorableFrom(g, idx, i) <==> Restorable(g, idx, i) && RestorableFrom(g, idx, i + 1);
      assert Exactly(g.payloads[i..]) == [Some(g.payloads[i])] + Exactly(g.payloads[i + 1..]);
    } else {
      assert CountWhole([]) == 0 by { ExactlyWhole([]); assert Exactly([]) == []; }
    }
  }

  /** A group comes out complete, in order and byte for byte exactly when as many of its packets
      arrive as it has data blocks and no lost payload is longer than the longest one that arrived. */
  lemma CompleteExactlyWhen(g: Group, idx: seq<nat>)
    requires Groups.WellFormed(g) && Survivors(g, idx)
    ensures Delivered(g, idx) == Exactly(g.payloads)
       <==> |idx| >= |g.payloads| && RestorableFrom(g, idx, 0)
  {
    hide Restorable, Deliveries, Learned;
    DeliveriesWhole(g, idx, 0);
    ExactlyWhole(g.payloads);
    assert g.payloads[0..] == g.payloads;
    if |idx| < |g.payloads| {
      assert |Delivered(g, idx)| <= |idx|;
    }
  }

  /** With fewer packets, exactly the payloads before the first lost one come out. */
  lemma OtherwisePrefix(g: Group, idx: seq<nat>) returns (l: nat)
    requires Groups.WellFormed(g) && Survivors(g, idx) && |idx| < |g.payloads|
    ensures l < |g.payloads| && l !in idx && forall k: nat :: k < l ==> k in idx
    ensures Delivered(g, idx) == Exactly(g.payloads[..l])
  {
    var n := DataCount(g, idx, |idx|);
    l := Leading(idx, n);
    LeadingMeans(g, idx, n);
    forall k: nat | k < l
      ensures k in idx
    {
      assert idx[k] == k;
    }
    GapAt(g, idx, n, l);
  }

  // ---------- the same of the decoder's output ----------

  /** What the survivors idx of g make a decoder in state s put out. */
  ghost function Output(s: DecoderModel.State, g: Group, idx: seq<nat>): (r: seq<Option<vec>>)
    requires Groups.WellFormed(g) && Survivors(g, idx) && idx != [] && idx[0] < |g.payloads|
    requires Clean(s) && s.prevSeq != g.seqNum
  {
    GroupDelivers(s, g, idx);
    Payloads(Feed(s, Received(g, idx)).out[|s.out|..])
  }

  lemma OutputIs(s: DecoderModel.State, g: Group, idx: seq<nat>)
    requires Groups.WellFormed(g) && Survivors(g, idx) && idx != [] && idx[0] < |g.payloads|
    requires Clean(s) && s.prevSeq != g.seqNum
    ensures AcceptsAll(s, Received(g, idx)) && Output(s, g, idx) == Delivered(g, idx)
  {
    hide Packet, DecoderModel.Step, DecoderModel.Accepts, Feed, AcceptsAll, Delivered;
    GroupDelivers(s, g, idx);
  }

  /** The decoder puts out the group complete, in order and byte for byte exactly when as many of its
      packets arrive as it has data blocks and every lost payload fits the learned block size. */
  lemma OutputCompleteExactlyWhen(s: DecoderModel.State, g: Group, idx: seq<nat>)
    requires Groups.WellFormed(g) && Survivors(g, idx) && idx != [] && idx[0] < |g.payloads|
    requires Clean(s) && s.prevSeq != g.seqNum
    ensures AcceptsAll(s, Received(g, idx))
    ensures Output(s, g, idx) == Exactly(g.payloads) <==> |idx| >= |g.payloads| && RestorableFrom(g, idx, 0)
  {
    hide Output, AcceptsAll, Received, Delivered, RestorableFrom;
    OutputIs(s, g, idx);
    CompleteExactlyWhen(g, idx);
  }

  /** What comes out for the payloads before the i-th. */
  function Earlier(g: Group, idx: seq<nat>, i: nat): (r: seq<Option<vec>>)
    requires Survivors(g, idx) && i <= |g.payloads|
    ensures |r| <= i
  {
    if i == 0 then [] else Earlier(g, idx, i - 1) + Delivery(g, idx, i - 1)
  }

  lemma {:induction false} EarlierThenLater(g: Group, idx: seq<nat>, i: nat)
    requires Survivors(g, idx) && i <= |g.payloads|
    ensures Deliveries(g, idx, 0) == Earlier(g, idx, i) + Deliveries(g, idx, i)
  {
    hide Delivery, Survivors;
    if i > 0 {
      EarlierThenLater(g, idx, i - 1);
    }
  }

  /** A lost payload of a repaired group is, between what comes out for the payloads before and behind it,
      restored, cut short or dropped by its length alone; the dropped ones are counted. */
  lemma LostPayload(s: DecoderModel.State, g: Group, idx: seq<nat>, i: nat)
    requires Groups.WellFormed(g) && Survivors(g, idx) && |idx| >= |g.payloads| && idx[0] < |g.payloads|
    requires Clean(s) && s.prevSeq != g.seqNum && i < |g.payloads| && i !in idx
    ensures AcceptsAll(s, Received(g, idx))
    ensures var l, m := |g.payloads[i]|, Learned(g, idx, |idx|);
      Output(s, g, idx) == Earlier(g, idx, i)
        + (if l + 2 <= m then [Some(g.payloads[i])] else if l <= m then [None] else [])
        + Deliveries(g, idx, i + 1)
    ensures Feed(s, Received(g, idx)).stats.droppedBlocks
         == s.stats.droppedBlocks + Abandoned(s, g) + CountTooLong(g, idx, 0)
  {
    assert Delivered(g, idx) == Deliveries(g, idx, 0);
    hide Output, AcceptsAll, Feed, Received, Learned, CountTooLong, Earlier, Delivered, Deliveries, Abandoned;
    OutputIs(s, g, idx);
    GroupCounts(s, g, idx);
    EarlierThenLater(g, idx, i);
    LostPart(g, idx, i);
  }

  lemma LostPart(g: Group, idx: seq<nat>, i: nat)
    requires Survivors(g, idx) && i < |g.payloads| && i !in idx
    ensures var l, m := |g.payloads[i]|, Learned(g, idx, |idx|);
      Deliveries(g, idx, i)
        == (if l + 2 <= m then [Some(g.payloads[i])] else if l <= m then [None] else []) + Deliveries(g, idx, i + 1)
  {
    hide Learned, Survivors;
  }

  /** Two packets of a group of two arrive, but its first payload is longer than its second one by more
      than the length field: only the second one comes out, the first one counts as dropped. */
  lemma LongerPayloadIsLost(g: Group)
    requires Groups.WellFormed(g) && |g.payloads| == 2 && |g.payloads[0]| > |g.payloads[1]| + 2 && g.seqNum != 0
    ensures Survivors(g, [1, 2]) && AcceptsAll(DecoderModel.INITIAL, Received(g, [1, 2]))
    ensures var t := Feed(DecoderModel.INITIAL, Received(g, [1, 2]));
      && (forall i :: 0 <= i < |t.out| ==> t.out[i].WellFormed())
      && Payloads(t.out) == [Some(g.payloads[1])] && t.stats.droppedBlocks == 1
  {
    hide AcceptsAll, Feed, Received, LargestOf, DecoderModel.Step, DecoderModel.Accepts, Packet;
    var idx := [1, 2];
    GroupDelivers(DecoderModel.INITIAL, g, idx);
    GroupCounts(DecoderModel.INITIAL, g, idx);
    SecondLearned(g, idx);
    assert Deliveries(g, idx, 1) == Delivery(g, idx, 1) + Deliveries(g, idx, 2);
    assert CountTooLong(g, idx, 1) == CountTooLong(g, idx, 2);
    var t := Feed(DecoderModel.INITIAL, Received(g, idx));
    assert t.out[0..] == t.out;
  }

  lemma SecondLearned(g: Group, idx: seq<nat>)
    requires |g.payloads| == 2 && idx == [1, 2] && Survivors(g, idx)
    ensures Learned(g, idx, 2) == |g.payloads[1]| + 2
  {
    CountStep(g, idx, 0);
    CountStep(g, idx, 1);
    assert idx[..1] == [1];
  }

  // ---------- no data block is lost ----------

  /** Every data block of the group arrives. */
  predicate AllData(g: Group, idx: seq<nat>)
  {
    forall i: nat :: i < |g.payloads| ==> i in idx
  }

  lemma AllDataDelivered(g: Group, idx: seq<nat>)
    requires Groups.WellFormed(g) && Survivors(g, idx) && AllData(g, idx)
    ensures idx != [] && idx[0] < |g.payloads| && Delivered(g, idx) == Exactly(g.payloads)
  {
    hide Delivered, Learned;
    assert 0 in idx;
    AscendingBound(idx, |g.payloads| + g.nFec, 0);
    var k :| 0 <= k < |idx| && idx[k] == 0;
    assert idx[0] <= idx[k];
    AllDataCount(g, idx, |g.payloads|);
    CompleteExactlyWhen(g, idx);
  }

  lemma {:induction false} AllDataCount(g: Group, idx: seq<nat>, m: nat)
    requires Survivors(g, idx) && forall i: nat :: i < m ==> i in idx
    ensures m <= |idx| && forall i :: 0 <= i < m ==> idx[i] == i
  {
    if m > 0 {
      AllDataCount(g, idx, m - 1);
      assert m - 1 in idx;
      var k :| 0 <= k < |idx| && idx[k] == m - 1;
      NotBelow(idx, m - 1, k);
      AscendingBound(idx, |g.payloads| + g.nFec, k);
      assert k == m - 1;
    }
  }

  lemma NotBelow(idx: seq<nat>, q: nat, k: nat)
    requires q <= |idx| && k < |idx| && idx[k] == q && forall i :: 0 <= i < q ==> idx[i] == i
    ensures k >= q
  {
  }

  /** No data packet is dropped from ps. */
  predicate KeepsData(ps: seq<FECBlock>, ks: seq<nat>)
  {
    forall i: nat :: i < |ps| && ps[i].IsData() ==> i in ks
  }

  lemma {:induction false} KeptInGroups(groups: seq<Group>, ks: seq<nat>)
    requires AllWellFormed(groups) && Ascending(ks, |AllPackets(groups)|) && KeepsData(AllPackets(groups), ks)
    ensures forall k :: 0 <= k < |groups| ==>
      Split(groups, ks)[k].group == groups[k] && AllData(groups[k], Split(groups, ks)[k].arrived)
  {
    hide Split, Packets, Packet, CountBelow;
    if groups != [] {
      var n := |groups| - 1;
      var all, before, run := AllPackets(groups), AllPackets(groups[..n]), Split(groups, ks);
      var c := CountBelow(ks, |before|);
      SplitLast(groups, ks);
      CountBelowMeans(ks, |before|, |all|);
      forall i: nat | i < |before| && before[i].IsData()
        ensures i in ks[..c]
      {
        assert all[i] == before[i];
        var j :| 0 <= j < |ks| && ks[j] == i;
        assert ks[..c][j] == i;
      }
      KeptInGroups(groups[..n], ks[..c]);
      forall i: nat | i < |groups[n].payloads|
        ensures i in run[n].arrived
      {
        KeptInLast(before, groups[n], ks, c, run[n].arrived, i);
      }
      forall k | 0 <= k < n
        ensures run[k].group == groups[k] && AllData(groups[k], run[k].arrived)
      {
        assert run[k] == run[..n][k];
      }
    }
  }

  lemma KeptInLast(before: seq<FECBlock>, g: Group, ks: seq<nat>, c: nat, arrived: seq<nat>, i: nat)
    requires Groups.WellFormed(g) && KeepsData(before + Packets(g), ks) && i < |g.payloads| && c <= |ks|
    requires forall j :: 0 <= j < |ks| ==> (ks[j] < |before| <==> j < c)
    requires |arrived| == |ks| - c && forall j :: 0 <= j < |arrived| ==> arrived[j] == ks[c + j] - |before|
    ensures i in arrived
  {
    hide Packet;
    var pos := |before| + i;
    assert (before + Packets(g))[pos] == Packet(g, i);
    PacketHeader(g, i);
    assert pos in ks;
    var j :| 0 <= j < |ks| && ks[j] == pos;
    assert arrived[j - c] == i;
  }

  predicate AllKept(run: seq<Burst>)
  {
    forall k :: 0 <= k < |run| ==>
      Groups.WellFormed(run[k].group) && Survivors(run[k].group, run[k].arrived) &&
      AllData(run[k].group, run[k].arrived)
  }

  lemma KeptArrives(run: seq<Burst>)
    requires AllKept(run)
    ensures DataArrives(run) && GapsBounded(run)
  {
    hide Delivered, AllData;
    forall k | 0 <= k < |run|
      ensures run[k].arrived != [] && run[k].arrived[0] < |run[k].group.payloads|
    {
      AllDataDelivered(run[k].group, run[k].arrived);
    }
    forall k | 0 < k < |run|
      ensures LastArrival(run[..k]) == k - 1
    {
      assert run[..k][k - 1].arrived != [];
    }
  }

  function GroupsOf(run: seq<Burst>): (groups: seq<Group>)
    ensures |groups| == |run|
  {
    seq(|run|, k requires 0 <= k < |run| => run[k].group)
  }

  lemma {:induction false} KeptDelivered(run: seq<Burst>)
    requires AllKept(run)
    ensures DeliveredAll(run) == Exactly(GroupPayloads(GroupsOf(run)))
  {
    hide Delivered, AllData, Exactly, Groups.WellFormed;
    if run == [] {
      NothingExactly();
    } else {
      var n := |run| - 1;
      KeptDelivered(run[..n]);
      AllDataDelivered(run[n].group, run[n].arrived);
      assert GroupsOf(run)[..n] == GroupsOf(run[..n]);
      ExactlyConcat(GroupPayloads(GroupsOf(run[..n])), run[n].group.payloads);
    }
  }

  lemma NothingExactly()
    ensures Exactly([]) == []
  {
  }

  lemma ExactlyConcat(a: seq<vec>, b: seq<vec>)
    ensures Exactly(a + b) == Exactly(a) + Exactly(b)
  {
  }

  /** If only parity packets are dropped, the receiver gets every payload of every closed group, in
      order and exactly once; the rest of what was sent is still pending in the encoder. */
  lemma NoDataLostNothingLost(s: EncoderModel.State, ops: seq<Op>, ks: seq<nat>)
    requires FecLink(s, ops)
    requires Ascending(ks, |EncoderRun.Run(s, ops).out|) && KeepsData(EncoderRun.Run(s, ops).out, ks)
    ensures var sent := Select(EncoderRun.Run(s, ops).out, ks); var p := PlanOf(s, ops);
      && AcceptsAll(DecoderModel.INITIAL, sent)
      && var t := Feed(DecoderModel.INITIAL, sent);
         && (forall i :: 0 <= i < |t.out| ==> t.out[i].WellFormed())
         && Payloads(t.out) == Exactly(GroupPayloads(p.groups))
         && GroupPayloads(p.groups) + p.pending == AddedPayloads(ops)
  {
    hide Feed, AcceptsAll, Split, EncoderRun.Run, PlanRun, Packet, GapsBounded, DataArrives, AllPackets;
    hide KeepsData, AllData, Select, Survivors;
    RunFollows(s, ops);
    var groups, run := PlanOf(s, ops).groups, ArrivedRun(s, ops, ks);
    SplitArrivals(groups, ks);
    KeptInGroups(groups, ks);
    KeptArrives(run);
    KeptDelivered(run);
    assert GroupsOf(run) == groups;
    LinkDelivers(s, ops, ks);
    PlanConserves(s.seqNum, ops, s.numBlocks, s.numFecBlocks);
  }

  /** Without losses: whatever payloads and flushes, in groups of any size and across any number of
      sequence number wraps, the decoder puts out exactly the payloads of the closed groups. */
  lemma Lossless(s: EncoderModel.State, ops: seq<Op>)
    requires FecLink(s, ops)
    ensures var sent := EncoderRun.Run(s, ops).out; var p := PlanOf(s, ops);
      && AcceptsAll(DecoderModel.INITIAL, sent)
      && var t := Feed(DecoderModel.INITIAL, sent);
         && (forall i :: 0 <= i < |t.out| ==> t.out[i].WellFormed())
         && Payloads(t.out) == Exactly(GroupPayloads(p.groups))
         && GroupPayloads(p.groups) + p.pending == AddedPayloads(ops)
  {
    hide Feed, AcceptsAll, EncoderRun.Run, PlanRun;
    var sent := EncoderRun.Run(s, ops).out;
    var ks := UpTo(|sent|);
    assert Select(sent, ks) == sent;
    forall i: nat | i < |sent|
      ensures i in ks
    {
      assert ks[i] == i;
    }
    NoDataLostNothingLost(s, ops, ks);
  }

  // ---------- links without FEC ----------

  lemma {:induction false} PassedOn(s: DecoderModel.State, ps: seq<FECBlock>)
    requires forall i :: 0 <= i < |ps| ==> ps[i].WellFormed() && DecoderModel.NoFec(ps[i])
    ensures AcceptsAll(s, ps) && Feed(s, ps).out == s.out + ps
  {
    if ps != [] {
      PassedOn(s, ps[..|ps| - 1]);
      assert ps == ps[..|ps| - 1] + [ps[|ps| - 1]];
    }
  }

  /** t has put out one packet of its own for each payload, numbered one after another from s on. */
  ghost predicate PassedPackets(s: EncoderModel.State, t: EncoderModel.State, added: seq<vec>)
  {
    && s.maxBlockSize <= MAX_BODY
    && t.ins == [] && |t.out| == |added| && t.seqNum == SeqAt(s.seqNum, |added|)
    && forall k :: 0 <= k < |added| ==>
         && |added[k]| + 2 <= s.maxBlockSize
         && t.out[k] == FECBlock(SeqAt(s.seqNum, k), 0, s.numBlocks, s.numFecBlocks, Padded(added[k], s.maxBlockSize))
  }

  lemma PassedNext(s: EncoderModel.State, t: EncoderModel.State, u: EncoderModel.State, added: seq<vec>, payload: vec)
    requires PassedPackets(s, t, added) && |payload| + 2 <= s.maxBlockSize
    requires u == t.(
      out := t.out + [FECBlock(t.seqNum, 0, s.numBlocks, s.numFecBlocks, Padded(payload, s.maxBlockSize))],
      seqNum := EncoderModel.NextSeq(t.seqNum))
    ensures PassedPackets(s, u, added + [payload])
  {
    hide Padded, EncoderModel.NextSeq;
  }

  /** Without FEC every payload goes out in one packet of its own. */
  lemma {:induction false} PassingPackets(s: EncoderModel.State, ops: seq<Op>)
    requires EncoderModel.Valid(s) && EncoderModel.Passing(s) && s.ins == [] && s.out == []
    requires forall k :: 0 <= k < |ops| ==> EncoderRun.Sendable(ops[k], s.maxBlockSize)
    ensures PassedPackets(s, EncoderRun.Run(s, ops), AddedPayloads(ops))
  {
    hide EncoderRun.Step, Padded, PassedPackets;
    if ops == [] {
      NothingPassed(s);
    } else {
      var op, t := ops[|ops| - 1], EncoderRun.Run(s, ops[..|ops| - 1]);
      var added := AddedPayloads(ops[..|ops| - 1]);
      PassingPackets(s, ops[..|ops| - 1]);
      if op.Add? {
        PassingAdd(t, op.payload);
        PassedNext(s, t, EncoderRun.Run(s, ops), added, op.payload);
      } else {
        assert t.ins == [] by { PassedIns(s, t, added); }
        PassingFlush(t);
        assert AddedPayloads(ops) == added;
      }
    }
  }

  lemma NothingPassed(s: EncoderModel.State)
    requires EncoderModel.Valid(s) && s.ins == [] && s.out == []
    ensures PassedPackets(s, s, [])
  {
  }

  lemma PassedIns(s: EncoderModel.State, t: EncoderModel.State, added: seq<vec>)
    requires PassedPackets(s, t, added)
    ensures t.ins == []
  {
  }

  lemma PassingFlush(s: EncoderModel.State)
    requires EncoderModel.Valid(s) && s.ins == []
    ensures EncoderRun.Step(s, Flush) == s
  {
    EncodeNothing(s);
  }

  lemma PassingRun(s: EncoderModel.State, ops: seq<Op>)
    requires EncoderModel.Valid(s) && EncoderModel.Passing(s) && s.ins == [] && s.out == []
    requires forall k :: 0 <= k < |ops| ==> EncoderRun.Sendable(ops[k], s.maxBlockSize)
    ensures var out := EncoderRun.Run(s, ops).out;
      && (forall i :: 0 <= i < |out| ==> out[i].WellFormed() && DecoderModel.NoFec(out[i]))
      && Payloads(out) == Exactly(AddedPayloads(ops))
  {
    hide EncoderRun.Run, AddedPayloads, Padded;
    PassingPackets(s, ops);
    var out, added := EncoderRun.Run(s, ops).out, AddedPayloads(ops);
    forall k | 0 <= k < |out|
      ensures out[k].WellFormed() && PayloadOf(out[k]) == Some(added[k])
    {
      PassingPayload(out[k], added[k], s.maxBlockSize);
    }
  }

  lemma PassingPayload(b: FECBlock, payload: vec, max: nat)
    requires |payload| + 2 <= max <= MAX_BODY && b.body == Padded(payload, max)
    ensures b.(block := 0).WellFormed() && PayloadOf(b.(block := 0)) == Some(payload)
  {
    assert b.body == Padded(payload, max)[..max];
    PaddedData(b.(block := 0), payload, max, max);
  }

  /** On a link without FEC the receiver gets exactly the payloads whose packets arrive. */
  lemma PassingLinkDelivers(s: EncoderModel.State, ops: seq<Op>, ks: seq<nat>)
    requires EncoderModel.Valid(s) && EncoderModel.Passing(s) && s.ins == [] && s.out == []
    requires forall k :: 0 <= k < |ops| ==> EncoderRun.Sendable(ops[k], s.maxBlockSize)
    requires Ascending(ks, |EncoderRun.Run(s, ops).out|)
    ensures |AddedPayloads(ops)| == |EncoderRun.Run(s, ops).out|
    ensures var sent := Select(EncoderRun.Run(s, ops).out, ks);
      && AcceptsAll(DecoderModel.INITIAL, sent)
      && var t := Feed(DecoderModel.INITIAL, sent);
         && (forall i :: 0 <= i < |t.out| ==> t.out[i].WellFormed())
         && Payloads(t.out) == Exactly(seq(|ks|, i requires 0 <= i < |ks| => AddedPayloads(ops)[ks[i]]))
  {
    hide EncoderRun.Run, AddedPayloads, Feed, AcceptsAll;
    PassingRun(s, ops);
    var out := EncoderRun.Run(s, ops).out;
    assert |Payloads(out)| == |out|;
    var sent := Select(out, ks);
    PassedOn(DecoderModel.INITIAL, sent);
    forall i | 0 <= i < |sent|
      ensures PayloadOf(sent[i]) == Some(AddedPayloads(ops)[ks[i]])
    {
      assert Payloads(out)[ks[i]] == PayloadOf(out[ks[i]]);
    }
  }
}
